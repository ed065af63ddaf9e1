/**
 The list of documented return codes in scripts/parse_specs.py: a list of one-key dictionaries, looked up by a key whose
 list of conditions is not empty, so that a key may stand in it several times.
 */
module Returns {
  datatype Entry = Entry(key: string, values: seq<string>)

  /** A request to document a key, with a condition or with none (""). */
  datatype Request = Request(key: string, value: string)

  const DEFAULTS := [
    Entry("$X_RESULT_SUCCESS", []),
    Entry("$X_RESULT_ERROR_UNINITIALIZED", []),
    Entry("$X_RESULT_ERROR_DEVICE_LOST", []),
    Entry("$X_RESULT_ERROR_ADAPTER_SPECIFIC", [])]

  predicate Matches(e: Entry, key: string) { e.key == key && e.values != [] }

  function Find(rets: seq<Entry>, key: string): (i: nat)
    ensures i <= |rets|
    ensures i < |rets| ==> Matches(rets[i], key)
    ensures forall j :: 0 <= j < i ==> !Matches(rets[j], key)
  {
    if rets == [] then 0 else if Matches(rets[0], key) then 0 else 1 + Find(rets[1..], key)
  }

  function Append(rets: seq<Entry>, q: Request): seq<Entry> {
    var i := Find(rets, q.key);
    var grown := if i == |rets| then rets + [Entry(q.key, [])] else rets;
    var values := grown[i].values;
    if q.value != "" && q.value !in values then grown[i := Entry(q.key, values + [q.value])] else grown
  }

  class ReturnList {
    var rets: seq<Entry>

    constructor ()
      ensures rets == DEFAULTS
    {
      rets := DEFAULTS;
    }

    method AppendValue(key: string, value: string)
      modifies this
      ensures rets == Append(old(rets), Request(key, value))
    {
      var i := 0;
      while i < |rets| && !Matches(rets[i], key)
        invariant 0 <= i <= |rets| && rets == old(rets)
        invariant forall j :: 0 <= j < i ==> !Matches(rets[j], key)
      {
        i := i + 1;
      }
      assert i == Find(rets, key);
      if i == |rets| {
        rets := rets + [Entry(key, [])];
      }
      if value != "" && value !in rets[i].values {
        rets := rets[i := Entry(key, rets[i].values + [value])];
      }
    }
  }

  function AppendAll(rets: seq<Entry>, requests: seq<Request>): seq<Entry> {
    if requests == [] then rets
    else Append(AppendAll(rets, requests[..|requests| - 1]), requests[|requests| - 1])
  }

  /** The conditions asked for under a key, each once, in the order in which they were first asked for. */
  function Requested(requests: seq<Request>, key: string): seq<string> {
    if requests == [] then []
    else
      var before, q := Requested(requests[..|requests| - 1], key), requests[|requests| - 1];
      if q.key == key && q.value != "" && q.value !in before then before + [q.value] else before
  }

  /** What a key is documented with: one entry at most has conditions, and they are these. */
  ghost predicate Documents(rets: seq<Entry>, key: string, values: seq<string>) {
    && (forall i :: 0 <= i < |rets| && Matches(rets[i], key) ==> rets[i].values == values)
    && (forall i, j :: 0 <= i < j < |rets| && Matches(rets[i], key) ==> !Matches(rets[j], key))
    && (values != [] ==> exists i :: 0 <= i < |rets| && Matches(rets[i], key))
  }

  lemma AppendDocuments(rets: seq<Entry>, q: Request, key: string, values: seq<string>)
    requires Documents(rets, key, values)
    ensures Documents(Append(rets, q), key,
                      if q.key == key && q.value != "" && q.value !in values then values + [q.value] else values)
  {
    var i, r := Find(rets, q.key), Append(rets, q);
    assert forall j :: 0 <= j < |rets| && j != i ==> r[j] == rets[j];
    if values != [] {
      var j :| 0 <= j < |rets| && Matches(rets[j], key);
      assert Matches(r[j], key);
    } else if q.key == key && q.value != "" {
      assert Matches(r[i], key);
    }
  }

  /** Whatever is appended in whatever order, each key ends up with one entry at most that has conditions, and it holds
      exactly the conditions asked for, each once, in order. */
  lemma {:induction false} ExactlyRequested(requests: seq<Request>, key: string)
    ensures Documents(AppendAll(DEFAULTS, requests), key, Requested(requests, key))
    decreases |requests|
  {
    if requests != [] {
      ExactlyRequested(requests[..|requests| - 1], key);
      AppendDocuments(AppendAll(DEFAULTS, requests[..|requests| - 1]), requests[|requests| - 1], key,
                      Requested(requests[..|requests| - 1], key));
    }
  }

  /** The list asked for has no repetitions, and has exactly the conditions of the requests for the key. */
  lemma {:induction false} RequestedSpec(requests: seq<Request>, key: string)
    ensures var r := Requested(requests, key);
            && (forall i, j :: 0 <= i < j < |r| ==> r[i] != r[j])
            && (forall v :: v in r <==> v != "" && Request(key, v) in requests)
    decreases |requests|
  {
    if requests != [] {
      var init, q := requests[..|requests| - 1], requests[|requests| - 1];
      RequestedSpec(init, key);
      assert requests == init + [q];
    }
  }

  // ---------------------------------------------------------------- the whole list

  /** Request n opens a new entry: no request before it for its key has a condition. */
  ghost predicate Opens(requests: seq<Request>, n: nat) {
    n < |requests| && forall m :: 0 <= m < n && requests[m].key == requests[n].key ==> requests[m].value == ""
  }

  /** The requests that open an entry, in order. */
  ghost function Openers(requests: seq<Request>): seq<nat> {
    if requests == [] then []
    else
      var n := |requests| - 1;
      Openers(requests[..n]) + if Opens(requests, n) then [n] else []
  }

  ghost predicate AreOpeners(requests: seq<Request>, openers: seq<nat>) {
    && (forall n: nat :: n in openers <==> Opens(requests, n))
    && (forall i, j :: 0 <= i < j < |openers| ==> openers[i] < openers[j])
  }

  lemma {:induction false} OpenersSpec(requests: seq<Request>)
    ensures AreOpeners(requests, Openers(requests))
    decreases |requests|
  {
    if requests != [] {
      var init := requests[..|requests| - 1];
      OpenersSpec(init);
      assert forall n: nat :: n < |init| ==> (Opens(requests, n) <==> Opens(init, n));
      assert forall i :: 0 <= i < |Openers(init)| ==> Openers(init)[i] in Openers(init);
    }
  }

  lemma TwoOpeners(requests: seq<Request>, openers: seq<nat>, i: nat, j: nat)
    requires AreOpeners(requests, openers) && i < |openers| && j < |openers| && i != j
    ensures openers[i] != openers[j] && Opens(requests, openers[i]) && Opens(requests, openers[j])
  {
    assert openers[i] in openers && openers[j] in openers;
  }

  ghost predicate NoConditions(rets: seq<Entry>) {
    forall i :: 0 <= i < |rets| ==> rets[i].values == []
  }

  /** The entry that request n opened, after all requests. */
  ghost function Opened(requests: seq<Request>, n: nat): Entry
    requires n < |requests|
  {
    var q := requests[n];
    Entry(q.key, if q.value == "" then [] else Requested(requests, q.key))
  }

  /** The default entries are followed by one for each opener. */
  ghost predicate Lists(rets: seq<Entry>, defaults: seq<Entry>, requests: seq<Request>, openers: seq<nat>) {
    && |rets| == |defaults| + |openers| && rets[..|defaults|] == defaults
    && forall i :: 0 <= i < |openers| ==> ListedAt(rets, |defaults| + i, requests, openers[i])
  }

  ghost predicate ListedAt(rets: seq<Entry>, i: nat, requests: seq<Request>, n: nat) {
    i < |rets| && n < |requests| && rets[i] == Opened(requests, n)
  }

  /** A request without an earlier condition for its key finds no entry. */
  lemma OpensFindsNone(requests: seq<Request>)
    requires requests != []
    ensures var init, q := requests[..|requests| - 1], requests[|requests| - 1];
            && (Opens(requests, |requests| - 1) <==> Requested(init, q.key) == [])
            && (Opens(requests, |requests| - 1)
                <==> Find(AppendAll(DEFAULTS, init), q.key) == |AppendAll(DEFAULTS, init)|)
  {
    hide AppendAll, Requested;
    var init, q := requests[..|requests| - 1], requests[|requests| - 1];
    RequestedSpec(init, q.key);
    ExactlyRequested(init, q.key);
    if Requested(init, q.key) != [] {
      assert Requested(init, q.key)[0] in Requested(init, q.key);
      var m :| 0 <= m < |init| && init[m] == Request(q.key, Requested(init, q.key)[0]);
      assert requests[m] == init[m];
    } else {
      forall m | 0 <= m < |init| && requests[m].key == q.key
        ensures requests[m].value == ""
      {
        assert init[m] in init && init[m] == Request(q.key, requests[m].value);
      }
    }
  }

  /** THE WHOLE LIST. After any requests: the default entries, then in the order of request one entry for each request
      that comes before any condition for its key, empty if it has no condition itself, and otherwise with all
      conditions asked for under its key. */
  lemma {:induction false} WholeList(requests: seq<Request>)
    ensures Lists(AppendAll(DEFAULTS, requests), DEFAULTS, requests, Openers(requests))
    decreases |requests|
  {
    hide Lists, Opens, Find, Append, Requested, AreOpeners, NoConditions;
    if requests == [] {
      NoRequests();
    } else {
      var n := |requests| - 1;
      var init := requests[..n];
      WholeList(init);
      OpensFindsNone(requests);
      OpenersSpec(init);
      if Opens(requests, n) {
        NewEntry(AppendAll(DEFAULTS, init), DEFAULTS, requests, Openers(init));
      } else {
        assert Openers(requests) == Openers(init);
        DefaultsEmpty();
        OldEntry(AppendAll(DEFAULTS, init), DEFAULTS, requests, Openers(init));
      }
    }
  }

  lemma DefaultsEmpty()
    ensures NoConditions(DEFAULTS)
  {
  }

  lemma NoRequests()
    ensures Lists(DEFAULTS, DEFAULTS, [], [])
  {
  }

  lemma NewEntry(rets: seq<Entry>, defaults: seq<Entry>, requests: seq<Request>, openers: seq<nat>)
    requires requests != [] && Opens(requests, |requests| - 1)
    requires Lists(rets, defaults, requests[..|requests| - 1], openers)
    requires Requested(requests[..|requests| - 1], requests[|requests| - 1].key) == []
    requires Find(rets, requests[|requests| - 1].key) == |rets|
    ensures Lists(Append(rets, requests[|requests| - 1]), defaults, requests, openers + [|requests| - 1])
  {
    hide Find;
    var n := |requests| - 1;
    var init, q := requests[..n], requests[n];
    var r := Append(rets, q);
    assert ListedAt(r, |rets|, requests, n);
    assert r[..|defaults|] == rets[..|defaults|];
    forall i | 0 <= i < |openers|
      ensures ListedAt(r, |defaults| + i, requests, openers[i])
    {
      assert ListedAt(rets, |defaults| + i, init, openers[i]);
      assert requests[openers[i]] == init[openers[i]];
      OtherOpened(requests, openers[i]);
    }
  }

  /** The entry of a request without a condition, or for another key, is not changed by the last one. */
  lemma OtherOpened(requests: seq<Request>, m: nat)
    requires m < |requests| - 1
    requires requests[m].value == "" || requests[m].key != requests[|requests| - 1].key
    ensures Opened(requests, m) == Opened(requests[..|requests| - 1], m)
  {
  }

  lemma OldEntry(rets: seq<Entry>, defaults: seq<Entry>, requests: seq<Request>, openers: seq<nat>)
    requires requests != [] && NoConditions(defaults)
    requires Lists(rets, defaults, requests[..|requests| - 1], openers)
    requires AreOpeners(requests[..|requests| - 1], openers)
    requires Find(rets, requests[|requests| - 1].key) < |rets|
    ensures Lists(Append(rets, requests[|requests| - 1]), defaults, requests, openers)
  {
    hide Opens, Opened, Append, Find, AreOpeners, NoConditions;
    var n := |requests| - 1;
    var init, q := requests[..n], requests[n];
    var r, f := Append(rets, q), Find(rets, q.key);
    FoundBehind(rets, defaults, f, q.key);
    OthersStay(rets, q);
    hide ListedAt;
    forall i | 0 <= i < |openers|
      ensures ListedAt(r, |defaults| + i, requests, openers[i])
    {
      OldEntryAt(rets, defaults, requests, openers, i, f - |defaults|);
    }
  }

  lemma OldEntryAt(rets: seq<Entry>, defaults: seq<Entry>, requests: seq<Request>, openers: seq<nat>, i: nat, k: nat)
    requires requests != [] && i < |openers| && k < |openers|
    requires Lists(rets, defaults, requests[..|requests| - 1], openers)
    requires AreOpeners(requests[..|requests| - 1], openers)
    requires |defaults| + k == Find(rets, requests[|requests| - 1].key)
    ensures ListedAt(Append(rets, requests[|requests| - 1]), |defaults| + i, requests, openers[i])
  {
    hide Opens, Opened, Append, Find, AreOpeners, ListedAt;
    var init := requests[..|requests| - 1];
    assert ListedAt(rets, |defaults| + i, init, openers[i]) && ListedAt(rets, |defaults| + k, init, openers[k]);
    if i == k {
      SameOpened(rets, |defaults| + k, requests, openers[k]);
    } else {
      TwoOpeners(init, openers, i, k);
      OtherEntry(rets, |defaults| + i, |defaults| + k, requests, openers[i], openers[k]);
    }
  }

  lemma OthersStay(rets: seq<Entry>, q: Request)
    requires Find(rets, q.key) < |rets|
    ensures |Append(rets, q)| == |rets|
    ensures forall i :: 0 <= i <= Find(rets, q.key) ==> Append(rets, q)[..i] == rets[..i]
  {
    hide Find;
  }

  lemma OtherEntry(rets: seq<Entry>, i: nat, f: nat, requests: seq<Request>, m: nat, c: nat)
    requires requests != [] && i != f == Find(rets, requests[|requests| - 1].key) < |rets| && c != m
    requires ListedAt(rets, i, requests[..|requests| - 1], m) && ListedAt(rets, f, requests[..|requests| - 1], c)
    requires Opens(requests[..|requests| - 1], m) && Opens(requests[..|requests| - 1], c)
    ensures ListedAt(Append(rets, requests[|requests| - 1]), i, requests, m)
  {
    hide Opens, Requested;
    var init := requests[..|requests| - 1];
    assert requests[m] == init[m];
    OneConditioned(init, c, m);
    OtherOpened(requests, m);
  }

  lemma FoundBehind(rets: seq<Entry>, defaults: seq<Entry>, f: nat, key: string)
    requires |defaults| <= |rets| && rets[..|defaults|] == defaults && f < |rets| && Matches(rets[f], key)
    requires NoConditions(defaults)
    ensures f >= |defaults|
  {
    assert forall i :: 0 <= i < |defaults| ==> rets[i] == rets[..|defaults|][i];
  }

  lemma SameOpened(rets: seq<Entry>, f: nat, requests: seq<Request>, m: nat)
    requires requests != [] && f == Find(rets, requests[|requests| - 1].key) < |rets|
    requires ListedAt(rets, f, requests[..|requests| - 1], m)
    ensures ListedAt(Append(rets, requests[|requests| - 1]), f, requests, m)
  {
    hide Find;
    assert requests[m] == requests[..|requests| - 1][m];
  }

  /** Of two openers for one key at most one has a condition. */
  lemma OneConditioned(requests: seq<Request>, c: nat, d: nat)
    requires c != d && Opens(requests, c) && Opens(requests, d) && requests[c].value != ""
    ensures requests[d].value == "" || requests[d].key != requests[c].key
  {
  }

  function CountKey(rets: seq<Entry>, key: string): nat {
    if rets == [] then 0 else CountKey(rets[..|rets| - 1], key) + if rets[|rets| - 1].key == key then 1 else 0
  }

  /** The requests for a key up to its first one with a condition. */
  function UpToCondition(requests: seq<Request>, key: string): nat {
    if requests == [] then 0
    else if requests[0].key != key then UpToCondition(requests[1..], key)
    else if requests[0].value != "" then 1
    else 1 + UpToCondition(requests[1..], key)
  }

  lemma {:induction false} LastUpToCondition(requests: seq<Request>, key: string)
    requires requests != []
    ensures var n := |requests| - 1;
            UpToCondition(requests, key)
            == UpToCondition(requests[..n], key) + if requests[n].key == key && Opens(requests, n) then 1 else 0
    decreases |requests|
  {
    var n := |requests| - 1;
    if n == 0 {
      assert requests[1..] == [] && requests[..0] == [];
    } else {
      var rest := requests[1..];
      assert rest[..n - 1] == requests[..n][1..];
      if requests[0].key != key || requests[0].value == "" {
        LastUpToCondition(rest, key);
        assert requests[n].key == key ==> (Opens(requests, n) <==> Opens(rest, n - 1)) by {
          assert forall m :: 0 <= m < n - 1 ==> rest[m] == requests[m + 1];
          assert forall m :: 1 <= m < n ==> requests[m] == rest[m - 1];
        }
      }
    }
  }

  /** Under each key: the default entries, and one for each request up to the first with a condition. */
  lemma {:induction false} EntriesPerKey(requests: seq<Request>, key: string)
    ensures CountKey(AppendAll(DEFAULTS, requests), key) == UpToCondition(requests, key)
            + if key in {"$X_RESULT_SUCCESS", "$X_RESULT_ERROR_UNINITIALIZED", "$X_RESULT_ERROR_DEVICE_LOST",
                         "$X_RESULT_ERROR_ADAPTER_SPECIFIC"} then 1 else 0
    decreases |requests|
  {
    if requests == [] {
      DefaultKeys(key);
    } else {
      var n := |requests| - 1;
      EntriesPerKey(requests[..n], key);
      OpensFindsNone(requests);
      LastUpToCondition(requests, key);
      CountAppended(AppendAll(DEFAULTS, requests[..n]), requests[n], key);
    }
  }

  lemma DefaultKeys(key: string)
    ensures CountKey(DEFAULTS, key)
            == if key in {"$X_RESULT_SUCCESS", "$X_RESULT_ERROR_UNINITIALIZED", "$X_RESULT_ERROR_DEVICE_LOST",
                          "$X_RESULT_ERROR_ADAPTER_SPECIFIC"} then 1 else 0
  {
    assert DEFAULTS[..3][..2][..1][..0] == [];
    assert CountKey(DEFAULTS[..3][..2][..1], key) == if key == DEFAULTS[0].key then 1 else 0;
    assert CountKey(DEFAULTS[..3][..2], key)
        == (if key == DEFAULTS[0].key then 1 else 0) + if key == DEFAULTS[1].key then 1 else 0;
    assert DEFAULTS[0].key[10] == 'S' && DEFAULTS[1].key[16] == 'U' && DEFAULTS[2].key[16] == 'D';
    assert DEFAULTS[1].key[10] == 'E' && DEFAULTS[2].key[10] == 'E' && DEFAULTS[3].key[10] == 'E';
    assert DEFAULTS[3].key[16] == 'A';
  }

  lemma CountAppended(rets: seq<Entry>, q: Request, key: string)
    ensures CountKey(Append(rets, q), key)
            == CountKey(rets, key) + if Find(rets, q.key) == |rets| && q.key == key then 1 else 0
  {
    var i := Find(rets, q.key);
    var r := Append(rets, q);
    if i == |rets| {
      assert r[..|rets|] == rets;
    } else {
      SameKeys(r, rets, key);
    }
  }

  lemma {:induction false} SameKeys(a: seq<Entry>, b: seq<Entry>, key: string)
    requires |a| == |b| && forall i :: 0 <= i < |a| ==> a[i].key == b[i].key
    ensures CountKey(a, key) == CountKey(b, key)
    decreases |a|
  {
    if a != [] {
      SameKeys(a[..|a| - 1], b[..|b| - 1], key);
    }
  }
}
