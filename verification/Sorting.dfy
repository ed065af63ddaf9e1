/** Stable sorting by a key, as Python's `sorted`, and what a sorted list owes to the multiset of its keys. */
module Sorting {
  import opened Sequences

  function Insert<T>(x: T, s: seq<T>, key: T -> real): (r: seq<T>)
    ensures |r| == |s| + 1
  {
    if s == [] || key(x) <= key(s[0]) then [x] + s else [s[0]] + Insert(x, s[1..], key)
  }

  function SortBy<T>(s: seq<T>, key: T -> real): (r: seq<T>)
    ensures |r| == |s|
  {
    if s == [] then [] else Insert(s[0], SortBy(s[1..], key), key)
  }

  function Map<T, U>(s: seq<T>, f: T -> U): (r: seq<U>)
    ensures |r| == |s| && forall i :: 0 <= i < |s| ==> r[i] == f(s[i])
  {
    if s == [] then [] else [f(s[0])] + Map(s[1..], f)
  }

  function Same(x: real): real { x }

  function Sort(s: seq<real>): (r: seq<real>)
    ensures |r| == |s|
  {
    SortBy(s, Same)
  }

  ghost predicate SortedBy<T>(s: seq<T>, key: T -> real) {
    forall i, j :: 0 <= i < j < |s| ==> key(s[i]) <= key(s[j])
  }

  lemma {:induction false} InsertAdds<T>(x: T, s: seq<T>, key: T -> real)
    ensures multiset(Insert(x, s, key)) == multiset{x} + multiset(s)
    decreases |s|
  {
    if s != [] && key(x) > key(s[0]) {
      InsertAdds(x, s[1..], key);
      assert s == [s[0]] + s[1..];
    }
  }

  lemma {:induction false} InsertSorts<T>(x: T, s: seq<T>, key: T -> real)
    requires SortedBy(s, key)
    ensures SortedBy(Insert(x, s, key), key)
    ensures Insert(x, s, key)[0] == x || (s != [] && Insert(x, s, key)[0] == s[0])
    decreases |s|
  {
    if s != [] && key(x) > key(s[0]) {
      InsertSorts(x, s[1..], key);
      ConsSorted(s[0], Insert(x, s[1..], key), key);
    }
  }

  lemma ConsSorted<T>(x: T, s: seq<T>, key: T -> real)
    requires SortedBy(s, key) && (s != [] ==> key(x) <= key(s[0]))
    ensures SortedBy([x] + s, key)
  {
  }

  lemma {:induction false} SortSorts<T>(s: seq<T>, key: T -> real)
    ensures SortedBy(SortBy(s, key), key)
    ensures multiset(SortBy(s, key)) == multiset(s)
    decreases |s|
  {
    if s != [] {
      SortSorts(s[1..], key);
      InsertSorts(s[0], SortBy(s[1..], key), key);
      InsertAdds(s[0], SortBy(s[1..], key), key);
      assert s == [s[0]] + s[1..];
    }
  }

  function Filter<T>(s: seq<T>, ok: T -> bool): seq<T> {
    if s == [] then [] else (if ok(s[0]) then [s[0]] else []) + Filter(s[1..], ok)
  }

  function HasKey<T>(key: T -> real, v: real): T -> bool { x => key(x) == v }

  lemma {:induction false} InsertStable<T>(x: T, s: seq<T>, key: T -> real, v: real)
    ensures Filter(Insert(x, s, key), HasKey(key, v)) == Filter([x] + s, HasKey(key, v))
    decreases |s|
  {
    assert ([x] + s)[1..] == s;
    if s != [] && key(x) > key(s[0]) {
      InsertStable(x, s[1..], key, v);
      assert ([x] + s[1..])[1..] == s[1..];
    }
  }

  /** Elements with equal keys keep their order. */
  lemma {:induction false} SortStable<T>(s: seq<T>, key: T -> real, v: real)
    ensures Filter(SortBy(s, key), HasKey(key, v)) == Filter(s, HasKey(key, v))
    decreases |s|
  {
    if s != [] {
      SortStable(s[1..], key, v);
      InsertStable(s[0], SortBy(s[1..], key), key, v);
      assert ([s[0]] + SortBy(s[1..], key))[1..] == SortBy(s[1..], key);
    }
  }

  /** Sorting by a key and then reading the keys is reading the keys and then sorting them. */
  lemma {:induction false} KeysOfInsert<T>(x: T, s: seq<T>, key: T -> real)
    ensures Map(Insert(x, s, key), key) == Insert(key(x), Map(s, key), Same)
    decreases |s|
  {
    if s != [] && key(x) > key(s[0]) {
      KeysOfInsert(x, s[1..], key);
      assert Map(s, key)[1..] == Map(s[1..], key);
    }
  }

  lemma {:induction false} KeysOfSort<T>(s: seq<T>, key: T -> real)
    ensures Map(SortBy(s, key), key) == Sort(Map(s, key))
    decreases |s|
  {
    if s != [] {
      KeysOfSort(s[1..], key);
      KeysOfInsert(s[0], SortBy(s[1..], key), key);
      assert Map(s, key)[1..] == Map(s[1..], key);
    }
  }

  /** A sorted list of numbers is determined by its multiset. */
  lemma {:induction false} SortedUnique(s: seq<real>, t: seq<real>)
    requires SortedBy(s, Same) && SortedBy(t, Same) && multiset(s) == multiset(t)
    ensures s == t
    decreases |s|
  {
    assert |s| == |multiset(s)| == |multiset(t)| == |t|;
    if s != [] {
      assert s[0] in multiset(t) && t[0] in multiset(s);
      assert s[0] in t && t[0] in s;
      assert Same(s[0]) == s[0] && Same(t[0]) == t[0];
      assert s[0] == t[0];
      MultisetOfTail(s);
      MultisetOfTail(t);
      SortedUnique(s[1..], t[1..]);
    }
  }

  /** Permutations sort to the same list. */
  lemma SortOfPermutation(s: seq<real>, t: seq<real>)
    requires multiset(s) == multiset(t)
    ensures Sort(s) == Sort(t)
  {
    SortSorts(s, Same);
    SortSorts(t, Same);
    SortedUnique(Sort(s), Sort(t));
  }

  lemma {:induction false} MapOfRemoved<T, U>(t: seq<T>, a: nat, f: T -> U)
    requires a < |t|
    ensures multiset(Map(t, f)) == multiset(Map(t[..a] + t[a + 1..], f)) + multiset{f(t[a])}
    decreases a
  {
    if a == 0 {
      assert t[..0] + t[1..] == t[1..];
    } else {
      MapOfRemoved(t[1..], a - 1, f);
      RemovedTail(t, a);
    }
  }

  /** Mapping a permutation gives a permutation. */
  lemma {:induction false} MapOfPermutation<T, U>(s: seq<T>, t: seq<T>, f: T -> U)
    requires multiset(s) == multiset(t)
    ensures multiset(Map(s, f)) == multiset(Map(t, f))
    decreases |s|
  {
    if s == [] {
      EmptyMultiset(t);
    } else {
      var a := FirstIn(s, t);
      MapOfPermutation(s[1..], t[..a] + t[a + 1..], f);
      MapOfRemoved(t, a, f);
    }
  }

  // ---------------------------------------------------------------- where a sorted element comes from

  ghost predicate KeysAgree<U, T>(s: seq<U>, f: U -> T, k: U -> real, key: T -> real) {
    forall v :: v in s ==> k(v) == key(f(v))
  }

  lemma MapTail<U, T>(s: seq<U>, f: U -> T)
    requires s != []
    ensures Map(s, f)[0] == f(s[0]) && Map(s, f)[1..] == Map(s[1..], f)
  {
  }

  lemma {:induction false} InsertOfMap<U, T>(u: U, s: seq<U>, f: U -> T, k: U -> real, key: T -> real)
    requires k(u) == key(f(u)) && KeysAgree(s, f, k, key)
    ensures Insert(f(u), Map(s, f), key) == Map(Insert(u, s, k), f)
    decreases |s|
  {
    if s != [] {
      assert s[0] in s;
      MapTail(s, f);
      if k(u) > k(s[0]) {
        InsertOfMap(u, s[1..], f, k, key);
      } else {
        assert Map([u] + s, f) == [f(u)] + Map(s, f);
      }
    }
  }

  lemma SortAgrees<U, T>(s: seq<U>, f: U -> T, k: U -> real, key: T -> real)
    requires s != [] && KeysAgree(s, f, k, key)
    ensures k(s[0]) == key(f(s[0])) && KeysAgree(s[1..], f, k, key) && KeysAgree(SortBy(s[1..], k), f, k, key)
  {
    var tail, sorted := s[1..], SortBy(s[1..], k);
    SortSorts(tail, k);
    assert s[0] in s;
    forall v | v in sorted
      ensures k(v) == key(f(v))
    {
      assert v in multiset(sorted) && v in multiset(tail) && v in tail;
    }
  }

  /** Sorting looks at keys only. */
  lemma {:induction false} SortOfMapped<U, T>(s: seq<U>, f: U -> T, k: U -> real, key: T -> real)
    requires KeysAgree(s, f, k, key)
    ensures SortBy(Map(s, f), key) == Map(SortBy(s, k), f)
    decreases |s|
  {
    if s != [] {
      hide Map, Insert, KeysAgree;
      SortAgrees(s, f, k, key);
      MapTail(s, f);
      SortOfMapped(s[1..], f, k, key);
      InsertOfMap(s[0], SortBy(s[1..], k), f, k, key);
    }
  }

  function Indices(n: nat): (r: seq<nat>)
    ensures |r| == n && forall i :: 0 <= i < n ==> r[i] == i
  {
    seq(n, i => i)
  }

  function At<T>(s: seq<T>): nat -> T
    requires s != []
  {
    (i: nat) => if i < |s| then s[i] else s[0]
  }

  /** Which element comes to stand at place m, given the keys. */
  function Position(keys: seq<real>, m: nat): (i: nat)
    requires m < |keys|
    ensures i < |keys|
  {
    SortSorts(Indices(|keys|), At(keys));
    SameMembers(Indices(|keys|), SortBy(Indices(|keys|), At(keys)));
    var i := SortBy(Indices(|keys|), At(keys))[m];
    assert i in Indices(|keys|);
    i
  }

  lemma SortedAt<T>(s: seq<T>, key: T -> real, m: nat)
    requires m < |s|
    ensures SortBy(s, key)[m] == s[Position(Map(s, key), m)]
  {
    hide Map, SortBy, Indices;
    var keys := Map(s, key);
    var all: seq<nat> := Indices(|s|);
    assert KeysAgree(all, At(s), At(keys), key);
    SortOfMapped(all, At(s), At(keys), key);
    assert Map(all, At(s)) == s;
  }
}
