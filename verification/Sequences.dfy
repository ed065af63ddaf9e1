/** Facts about sequences shared by the models. */
module Sequences {

  lemma MultisetOfRemoved<T>(s: seq<T>, a: nat)
    requires a < |s|
    ensures multiset(s[..a] + s[a + 1..]) == multiset(s) - multiset{s[a]}
  {
    assert s == s[..a] + ([s[a]] + s[a + 1..]);
  }

  lemma MultisetOfTail<T>(s: seq<T>)
    requires s != []
    ensures multiset(s[1..]) == multiset(s) - multiset{s[0]}
  {
    assert s == [s[0]] + s[1..];
  }

  lemma EmptyMultiset<T>(s: seq<T>)
    requires multiset(s) == multiset{}
    ensures s == []
  {
    assert |s| == |multiset(s)|;
  }

  /** Where the first element of a list stands in a permutation of it: without it, the two are permutations again. */
  lemma FirstIn<T>(s: seq<T>, t: seq<T>) returns (a: nat)
    requires s != [] && multiset(s) == multiset(t)
    ensures a < |t| && t[a] == s[0] && multiset(s[1..]) == multiset(t[..a] + t[a + 1..])
  {
    assert s[0] in multiset(t);
    a :| a < |t| && t[a] == s[0];
    MultisetOfTail(s);
    MultisetOfRemoved(t, a);
  }

  /** Removing element a > 0 leaves the head alone. */
  lemma RemovedTail<T>(s: seq<T>, a: nat)
    requires 0 < a < |s|
    ensures (s[..a] + s[a + 1..])[0] == s[0]
    ensures (s[..a] + s[a + 1..])[1..] == s[1..][..a - 1] + s[1..][a..]
  {
  }

  lemma SameMembers<T>(s: seq<T>, t: seq<T>)
    requires multiset(s) == multiset(t)
    ensures |s| == |t| && forall x :: x in s <==> x in t
  {
    assert |s| == |multiset(s)| == |multiset(t)| == |t|;
    assert forall x :: x in s <==> x in multiset(s);
    assert forall x :: x in t <==> x in multiset(t);
  }

  ghost predicate NoDuplicates<T>(s: seq<T>) {
    forall i, j :: 0 <= i < j < |s| ==> s[i] != s[j]
  }

  lemma {:induction false} DuplicatesCount<T>(s: seq<T>)
    ensures NoDuplicates(s) <==> forall x :: x in s ==> multiset(s)[x] == 1
    decreases |s|
  {
    if s != [] {
      DuplicatesCount(s[1..]);
      assert s == [s[0]] + s[1..];
      assert forall x :: x in s <==> x == s[0] || x in s[1..];
      assert multiset(s)[s[0]] == 1 + multiset(s[1..])[s[0]];
      assert forall x :: x in s && x != s[0] ==> multiset(s)[x] == multiset(s[1..])[x];
      if NoDuplicates(s[1..]) && s[0] !in s[1..] {
        assert forall x :: x in s ==> multiset(s)[x] == 1;
      }
    }
  }

  /** A permutation of a list without duplicates has none. */
  lemma PermutationNoDuplicates<T>(s: seq<T>, t: seq<T>)
    requires multiset(s) == multiset(t) && NoDuplicates(s)
    ensures NoDuplicates(t)
  {
    DuplicatesCount(s);
    DuplicatesCount(t);
    assert forall x :: x in t ==> x in multiset(s);
  }
}
