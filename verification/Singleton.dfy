/**
 The reference-counted singleton factory of source/common/ur_singleton.hpp. Every method works under one mutex, so
 threads are interleavings of whole calls. An instance is named by its number of creation, and its destruction is
 recorded; `ref_count` is stored as "references minus one" and wraps like a size_t.
 */
module Singleton {
  import opened Options

  const SIZE_T: nat := 0x1_0000_0000_0000_0000

  datatype Entry = Entry(ptr: nat, refCount: nat)

  datatype State = State(entries: map<nat, Entry>, created: nat, destroyed: seq<nat>)

  const Empty := State(map[], 0, [])

  /** ref_count++ on a size_t. */
  function Bump(n: nat): nat { if n + 1 == SIZE_T then 0 else n + 1 }

  // ---------------------------------------------------------------- one call

  function Get(s: State, key: nat): State {
    if key == 0 then s
    else if key !in s.entries then s.(entries := s.entries[key := Entry(s.created, 0)], created := s.created + 1)
    else Retain(s, key)
  }

  function Retain(s: State, key: nat): State
    requires key in s.entries
  {
    var e := s.entries[key];
    s.(entries := s.entries[key := e.(refCount := Bump(e.refCount))])
  }

  function Release(s: State, key: nat): State
    requires key in s.entries
  {
    var e := s.entries[key];
    if e.refCount == 0 then s.(entries := s.entries - {key}, destroyed := s.destroyed + [e.ptr])
    else s.(entries := s.entries[key := e.(refCount := e.refCount - 1)])
  }

  /** The instances behind a map, in some order: clearing a hash map destroys them in no particular one. */
  ghost function Instances(entries: map<nat, Entry>): seq<nat>
    decreases |entries|
  {
    if entries == map[] then []
    else
      var k :| k in entries;
      assert (entries - {k}).Keys == entries.Keys - {k};
      [entries[k].ptr] + Instances(entries - {k})
  }

  ghost function Cleared(s: State): State {
    State(map[], s.created, s.destroyed + Instances(s.entries))
  }

  /** Clearing destroys each instance in the map, and nothing else. */
  lemma {:induction false} InstancesSpec(entries: map<nat, Entry>)
    ensures |Instances(entries)| == |entries|
    ensures forall p :: p in Instances(entries) <==> exists k :: k in entries && entries[k].ptr == p
    decreases |entries|
  {
    if entries != map[] {
      var k :| k in entries && Instances(entries) == [entries[k].ptr] + Instances(entries - {k});
      assert (entries - {k}).Keys == entries.Keys - {k};
      InstancesSpec(entries - {k});
      forall p | exists l :: l in entries && entries[l].ptr == p
        ensures p in Instances(entries)
      {
        var l :| l in entries && entries[l].ptr == p;
        assert l == k || l in entries - {k};
      }
    }
  }

  class Factory {
    var entries: map<nat, Entry>
    ghost var created: nat
    ghost var destroyed: seq<nat>

    ghost function View(): State
      reads this
    {
      State(entries, created, destroyed)
    }

    constructor ()
      ensures View() == Empty
    {
      entries, created, destroyed := map[], 0, [];
    }

    /** `made` is what make_unique would return. */
    method GetInstance(key: nat, made: nat) returns (ptr: Option<nat>)
      requires made == created
      modifies this
      ensures View() == Get(old(View()), key)
      ensures ptr == if key == 0 then None else Some(entries[key].ptr)
    {
      if key == 0 {
        return None;
      }
      if key !in entries {
        entries := entries[key := Entry(made, 0)];
        created := created + 1;
      } else {
        var e := entries[key];
        entries := entries[key := e.(refCount := Bump(e.refCount))];
      }
      ptr := Some(entries[key].ptr);
    }

    method RetainKey(key: nat)
      requires key in entries
      modifies this
      ensures View() == Retain(old(View()), key)
    {
      var e := entries[key];
      entries := entries[key := e.(refCount := Bump(e.refCount))];
    }

    method ReleaseKey(key: nat)
      requires key in entries
      modifies this
      ensures View() == Release(old(View()), key)
    {
      var e := entries[key];
      if e.refCount == 0 {
        entries := entries - {key};
        destroyed := destroyed + [e.ptr];
      } else {
        entries := entries[key := e.(refCount := e.refCount - 1)];
      }
    }

    method Clear()
      modifies this
      ensures View() == Cleared(old(View()))
    {
      destroyed := destroyed + Instances(entries);
      entries := map[];
    }
  }

  // ---------------------------------------------------------------- counting, over every sequence of calls

  datatype Op = GetOp(key: nat) | RetainOp(key: nat) | ReleaseOp(key: nat) | ClearOp

  /** The source asserts that retain and release find their key. */
  ghost predicate Legal(entries: map<nat, Entry>, op: Op) {
    op.RetainOp? || op.ReleaseOp? ==> op.key in entries
  }

  ghost function Step(s: State, op: Op): State
    requires Legal(s.entries, op)
  {
    match op
    case GetOp(k) => Get(s, k)
    case RetainOp(k) => Retain(s, k)
    case ReleaseOp(k) => Release(s, k)
    case ClearOp => Cleared(s)
  }

  ghost predicate LegalRun(ops: seq<Op>)
    decreases |ops|, 0
  {
    ops == [] || (var prefix := ops[..|ops| - 1]; LegalRun(prefix) && Legal(Run(prefix).entries, ops[|ops| - 1]))
  }

  ghost function Run(ops: seq<Op>): State
    requires LegalRun(ops)
    decreases |ops|, 1
  {
    if ops == [] then Empty else Step(Run(ops[..|ops| - 1]), ops[|ops| - 1])
  }

  /** Acquisitions of a key minus its releases, since the last clear. */
  ghost function Outstanding(ops: seq<Op>, key: nat): int {
    if ops == [] then 0
    else
      var before := Outstanding(ops[..|ops| - 1], key);
      match ops[|ops| - 1]
      case GetOp(k) => if k == key && k != 0 then before + 1 else before
      case RetainOp(k) => if k == key then before + 1 else before
      case ReleaseOp(k) => if k == key then before - 1 else before
      case ClearOp => 0
  }

  /** No key ever has more references than a size_t can count. */
  ghost predicate Bounded(ops: seq<Op>) {
    forall n, k: nat :: 0 <= n <= |ops| ==> Outstanding(ops[..n], k) <= 0x1_0000_0000_0000_0000
  }

  ghost predicate Counts(ops: seq<Op>, key: nat)
    requires LegalRun(ops)
  {
    var entries := Run(ops).entries;
    && Outstanding(ops, key) >= 0
    && (key in entries <==> Outstanding(ops, key) > 0)
    && (key in entries ==> key != 0 && entries[key].refCount == Outstanding(ops, key) - 1)
  }

  /** COUNTING. After any legal calls a key is present exactly while it is referenced, and its count is exact. */
  lemma {:induction false} CountingInvariant(ops: seq<Op>, key: nat)
    requires LegalRun(ops) && Bounded(ops)
    ensures Counts(ops, key)
    decreases |ops|
  {
    if ops != [] {
      var prefix := ops[..|ops| - 1];
      assert forall n :: 0 <= n <= |prefix| ==> prefix[..n] == ops[..n];
      CountingInvariant(prefix, key);
      assert ops[..|ops|] == ops;
      assert Outstanding(ops, key) <= SIZE_T;
    }
  }

  lemma {:induction false} PrefixLegal(ops: seq<Op>, n: nat)
    requires LegalRun(ops) && n <= |ops|
    ensures LegalRun(ops[..n])
    decreases |ops|
  {
    if n == |ops| {
      assert ops[..n] == ops;
    } else {
      PrefixLegal(ops[..|ops| - 1], n);
      assert ops[..|ops| - 1][..n] == ops[..n];
    }
  }

  lemma PrefixBounded(ops: seq<Op>, n: nat)
    requires Bounded(ops) && n <= |ops|
    ensures Bounded(ops[..n])
  {
    assert forall m :: 0 <= m <= n ==> ops[..n][..m] == ops[..m];
  }

  /** The count is exact at every moment of a run. */
  ghost predicate AlwaysCounts(ops: seq<Op>) {
    forall n :: 0 <= n <= |ops| ==> LegalRun(ops[..n]) && forall k: nat :: Counts(ops[..n], k)
  }

  lemma {:induction false} ExactIsBounded(ops: seq<Op>, n: nat, key: nat)
    requires LegalRun(ops) && AlwaysCounts(ops) && n <= |ops|
    ensures Outstanding(ops[..n], key) <= SIZE_T
    decreases n
  {
    if n > 0 {
      ExactIsBounded(ops, n - 1, key);
      assert ops[..n][..n - 1] == ops[..n - 1];
      PrefixLegal(ops, n - 1);
      PrefixLegal(ops, n);
      assert Counts(ops[..n - 1], key) && Counts(ops[..n], key);
    }
  }

  /** The count is exact throughout a run if and only if no key ever has more than 2^64 references in it. */
  lemma CountsExactlyWhenBounded(ops: seq<Op>)
    requires LegalRun(ops)
    ensures AlwaysCounts(ops) <==> Bounded(ops)
  {
    if AlwaysCounts(ops) {
      forall n, k: nat | 0 <= n <= |ops|
        ensures Outstanding(ops[..n], k) <= SIZE_T
      {
        ExactIsBounded(ops, n, k);
      }
    }
    if Bounded(ops) {
      forall n | 0 <= n <= |ops|
        ensures LegalRun(ops[..n]) && forall k: nat :: Counts(ops[..n], k)
      {
        PrefixLegal(ops, n);
        PrefixBounded(ops, n);
        forall k: nat { CountingInvariant(ops[..n], k); }
      }
    }
  }

  /** A call on one key leaves every other key alone. */
  lemma OtherKeysUntouched(s: State, op: Op, other: nat)
    requires Legal(s.entries, op) && !op.ClearOp? && other != op.key
    ensures other in Step(s, op).entries <==> other in s.entries
    ensures other in s.entries ==> Step(s, op).entries[other] == s.entries[other]
  {
  }

  /** The calls that concern a key: those on it, and every clear. */
  ghost function Only(ops: seq<Op>, key: nat): seq<Op> {
    if ops == [] then []
    else
      var last := ops[|ops| - 1];
      Only(ops[..|ops| - 1], key) + if last.ClearOp? || last.key == key then [last] else []
  }

  ghost function CountOf(s: State, key: nat): Option<nat> {
    if key in s.entries then Some(s.entries[key].refCount) else None
  }

  /** A call on the key does the same to its count in any two states that agree on it. */
  lemma SameStep(s: State, t: State, op: Op, key: nat)
    requires Legal(s.entries, op) && CountOf(s, key) == CountOf(t, key) && (op.ClearOp? || op.key == key)
    ensures Legal(t.entries, op) && CountOf(Step(s, op), key) == CountOf(Step(t, op), key)
  {
  }

  /** NON-INTERFERENCE. What becomes of a key, over every sequence of calls, depends on the calls on that key alone. */
  lemma {:induction false} KeysIndependent(ops: seq<Op>, key: nat)
    requires LegalRun(ops)
    ensures LegalRun(Only(ops, key))
    ensures CountOf(Run(ops), key) == CountOf(Run(Only(ops, key)), key)
    decreases |ops|
  {
    hide Legal, Step;
    if ops != [] {
      var init, last := ops[..|ops| - 1], ops[|ops| - 1];
      KeysIndependent(init, key);
      if last.ClearOp? || last.key == key {
        assert Only(ops, key)[..|Only(ops, key)| - 1] == Only(init, key);
        SameStep(Run(init), Run(Only(init, key)), last, key);
      } else {
        assert Only(ops, key) == Only(init, key);
        OtherKeysUntouched(Run(init), last, key);
      }
    }
  }

  ghost function Gets(key: nat, n: nat): seq<Op> { seq(n, _ => GetOp(key)) }

  lemma {:induction false} AfterGets(key: nat, n: nat)
    requires key != 0 && n <= SIZE_T + 1
    ensures LegalRun(Gets(key, n))
    ensures Outstanding(Gets(key, n), key) == n
    ensures Run(Gets(key, n)) == if n == 0 then Empty
                                 else State(map[key := Entry(0, if n - 1 == SIZE_T then 0 else n - 1)], 1, [])
    decreases n
  {
    if n > 0 {
      AfterGets(key, n - 1);
      assert Gets(key, n)[..n - 1] == Gets(key, n - 1);
    }
  }

  /** What goes wrong beyond it: with 2^64 + 1 references, one release destroys the instance under the others. */
  lemma WrappedCountDestroysEarly(key: nat)
    requires key != 0
    ensures var ops := Gets(key, SIZE_T + 1) + [ReleaseOp(key)];
            LegalRun(ops) && Outstanding(ops, key) == SIZE_T && key !in Run(ops).entries && Run(ops).destroyed == [0]
  {
    var ops := Gets(key, SIZE_T + 1) + [ReleaseOp(key)];
    AfterGets(key, SIZE_T + 1);
    assert ops[..|ops| - 1] == Gets(key, SIZE_T + 1);
  }

  // ---------------------------------------------------------------- safety, over every interleaving of threads

  /** One reference: the thread that owns it, and the key and pointer it came with. */
  datatype Hold = Hold(thread: nat, key: nat, ptr: nat)

  /** `asserted` is set when a retain or a release does not find its key, where the source asserts. */
  datatype World = World(factory: State, holds: seq<Hold>, asserted: bool)

  /** A call by a thread. Threads retain and release only what they own, and never clear. */
  datatype Action = Acquire(thread: nat, key: nat) | Share(thread: nat, key: nat) | Drop(thread: nat, key: nat)

  ghost predicate Owns(h: Hold, a: Action) {
    h.thread == a.thread && h.key == a.key
  }

  ghost predicate Allowed(w: World, a: Action) {
    a.Acquire? || exists i :: 0 <= i < |w.holds| && Owns(w.holds[i], a)
  }

  /** A new reference must be one that a size_t can count; a release is always possible. */
  ghost predicate Enabled(w: World, a: Action) {
    Allowed(w, a) && (a.Drop? || References(w.holds, a.key) < 0x1_0000_0000_0000_0000)
  }

  ghost function HoldOf(holds: seq<Hold>, a: Action): (i: nat)
    requires exists i :: 0 <= i < |holds| && Owns(holds[i], a)
    ensures i < |holds| && Owns(holds[i], a)
  {
    var i :| 0 <= i < |holds| && Owns(holds[i], a); i
  }

  ghost function Next(w: World, a: Action): World
    requires Allowed(w, a)
  {
    if a.Acquire? then
      var f := Get(w.factory, a.key);
      w.(factory := f, holds := if a.key == 0 then w.holds else w.holds + [Hold(a.thread, a.key, f.entries[a.key].ptr)])
    else if a.key !in w.factory.entries then w.(asserted := true)
    else
      var i := HoldOf(w.holds, a);
      if a.Share? then w.(factory := Retain(w.factory, a.key), holds := w.holds + [w.holds[i]])
      else w.(factory := Release(w.factory, a.key), holds := w.holds[..i] + w.holds[i + 1..])
  }

  ghost predicate LegalActions(actions: seq<Action>)
    decreases |actions|, 0
  {
    actions == [] ||
    (var prefix := actions[..|actions| - 1]; LegalActions(prefix) && Enabled(After(prefix), actions[|actions| - 1]))
  }

  /** The world after the calls of any threads, in the order in which they took the mutex. */
  ghost function After(actions: seq<Action>): World
    requires LegalActions(actions)
    decreases |actions|, 1
  {
    if actions == [] then World(Empty, [], false) else Next(After(actions[..|actions| - 1]), actions[|actions| - 1])
  }

  ghost function References(holds: seq<Hold>, key: nat): nat {
    if holds == [] then 0 else (if holds[0].key == key then 1 else 0) + References(holds[1..], key)
  }

  lemma {:induction false} ReferencesConcat(a: seq<Hold>, b: seq<Hold>, key: nat)
    ensures References(a + b, key) == References(a, key) + References(b, key)
    decreases |a|
  {
    if a == [] {
      assert a + b == b;
    } else {
      ReferencesConcat(a[1..], b, key);
      assert (a + b)[1..] == a[1..] + b;
    }
  }

  lemma {:induction false} NoReferences(holds: seq<Hold>, key: nat)
    ensures References(holds, key) == 0 <==> forall h :: h in holds ==> h.key != key
    decreases |holds|
  {
    if holds != [] {
      NoReferences(holds[1..], key);
      assert forall h :: h in holds <==> h == holds[0] || h in holds[1..];
    }
  }

  /** Counts are exact, references agree with the map, and every instance made is alive in the map or destroyed once. */
  ghost predicate Inv(w: World) {
    var f := w.factory;
    && !w.asserted
    && (forall k: nat :: References(w.holds, k) == if k in f.entries then f.entries[k].refCount + 1 else 0)
    && (forall h :: h in w.holds ==> h.key in f.entries && f.entries[h.key].ptr == h.ptr)
    && Instanced(f)
  }

  ghost predicate Instanced(f: State) {
    && 0 !in f.entries
    && (forall k :: k in f.entries ==> f.entries[k].ptr < f.created && f.entries[k].ptr !in f.destroyed)
    && (forall k, l :: k in f.entries && l in f.entries && k != l ==> f.entries[k].ptr != f.entries[l].ptr)
    && (forall i, j :: 0 <= i < j < |f.destroyed| ==> f.destroyed[i] != f.destroyed[j])
    && (forall p :: p in f.destroyed ==> p < f.created)
    && Accounted(f)
  }

  ghost predicate Accounted(f: State) {
    forall p: nat :: p < f.created ==> p in f.destroyed || Alive(f, p)
  }

  ghost predicate Alive(f: State, p: nat) {
    exists k :: k in f.entries && f.entries[k].ptr == p
  }

  /** Distinct instances are destroyed one by one. */
  lemma {:induction false} InstancesDistinct(entries: map<nat, Entry>)
    requires forall k, l :: k in entries && l in entries && k != l ==> entries[k].ptr != entries[l].ptr
    ensures forall i, j :: 0 <= i < j < |Instances(entries)| ==> Instances(entries)[i] != Instances(entries)[j]
    decreases |entries|
  {
    if entries != map[] {
      var k :| k in entries && Instances(entries) == [entries[k].ptr] + Instances(entries - {k});
      assert (entries - {k}).Keys == entries.Keys - {k};
      InstancesDistinct(entries - {k});
      InstancesSpec(entries - {k});
      var rest := Instances(entries - {k});
      assert forall i :: 0 <= i < |rest| ==> rest[i] in rest;
    }
  }

  lemma ClearedInstanced(f: State)
    requires Instanced(f)
    ensures Instanced(Cleared(f))
  {
    hide Instances;
    var g, gone := Cleared(f), Instances(f.entries);
    InstancesSpec(f.entries);
    InstancesDistinct(f.entries);
    assert g.destroyed == f.destroyed + gone;
    assert forall i :: 0 <= i < |gone| ==> gone[i] in gone;
    assert forall i :: 0 <= i < |f.destroyed| ==> f.destroyed[i] in f.destroyed;
    forall p: nat | p < g.created
      ensures p in g.destroyed
    {
      assert p in f.destroyed || p in gone;
    }
  }

  lemma {:induction false} RunInstanced(ops: seq<Op>)
    requires LegalRun(ops)
    ensures Instanced(Run(ops))
    decreases |ops|
  {
    if ops != [] {
      hide Instanced;
      var init, op := ops[..|ops| - 1], ops[|ops| - 1];
      RunInstanced(init);
      match op
      case GetOp(k) => GetInstanced(Run(init), k);
      case RetainOp(k) => RetainInstanced(Run(init), k);
      case ReleaseOp(k) => ReleaseInstanced(Run(init), k);
      case ClearOp => ClearedInstanced(Run(init));
    }
  }

  lemma RetainInstanced(f: State, key: nat)
    requires Instanced(f) && key in f.entries
    ensures Instanced(Retain(f, key))
  {
    assert Retain(f, key) == Get(f, key);
    GetInstanced(f, key);
  }

  /** NOTHING IS LOST. After any legal calls, clears among them and whatever the counts: each instance made is in the
      map or has been destroyed, not both; none is destroyed twice; and after a clear all are destroyed. */
  lemma InstancesConserved(ops: seq<Op>)
    requires LegalRun(ops)
    ensures var s := Run(ops);
            && (forall p: nat :: p < s.created ==> (p in s.destroyed <==> !Alive(s, p)))
            && (forall p: nat :: p in s.destroyed || Alive(s, p) ==> p < s.created)
            && (forall i, j :: 0 <= i < j < |s.destroyed| ==> s.destroyed[i] != s.destroyed[j])
            && (ops != [] && ops[|ops| - 1] == ClearOp ==> forall p: nat :: p < s.created ==> p in s.destroyed)
  {
    RunInstanced(ops);
  }

  lemma GetAccounted(f: State, key: nat)
    requires Accounted(f)
    ensures Accounted(Get(f, key))
  {
    var g := Get(f, key);
    forall p: nat | p < g.created
      ensures p in g.destroyed || Alive(g, p)
    {
      if p == f.created {
        assert g.entries[key].ptr == p;
      } else if p !in f.destroyed {
        var k :| k in f.entries && f.entries[k].ptr == p;
        assert g.entries[k].ptr == p;
      }
    }
  }

  lemma GetInstanced(f: State, key: nat)
    requires Instanced(f)
    ensures Instanced(Get(f, key))
  {
    hide Accounted;
    GetAccounted(f, key);
  }

  lemma ReleaseInstanced(f: State, key: nat)
    requires Instanced(f) && key in f.entries
    ensures Instanced(Release(f, key))
  {
    var g, gone := Release(f, key), f.entries[key].ptr;
    assert f.entries[key].refCount == 0 ==> g.destroyed == f.destroyed + [gone] && g.destroyed[|f.destroyed|] == gone;
    forall p: nat | p < g.created
      ensures p in g.destroyed || Alive(g, p)
    {
      if p in f.destroyed {
        assert p in f.destroyed + [gone];
      } else {
        var k :| k in f.entries && f.entries[k].ptr == p;
        assert k in g.entries ==> g.entries[k].ptr == p;
      }
    }
  }

  /** One more reference. */
  lemma AddReference(w: World, h: Hold, w': World)
    requires Inv(w) && References(w.holds, h.key) < SIZE_T && h.key != 0
    requires w' == World(Get(w.factory, h.key), w.holds + [h], false)
    requires w'.factory.entries[h.key].ptr == h.ptr
    ensures Inv(w')
  {
    hide Instanced;
    GetInstanced(w.factory, h.key);
    forall k: nat
      ensures References(w'.holds, k) == References(w.holds, k) + if k == h.key then 1 else 0
    {
      ReferencesConcat(w.holds, [h], k);
    }
  }

  /** One reference less. */
  lemma RemoveReference(w: World, i: nat, w': World)
    requires Inv(w) && i < |w.holds|
    requires w' == World(Release(w.factory, w.holds[i].key), w.holds[..i] + w.holds[i + 1..], false)
    ensures Inv(w')
  {
    hide Instanced;
    var h := w.holds[i];
    ReleaseInstanced(w.factory, h.key);
    forall k: nat
      ensures References(w.holds, k) == References(w'.holds, k) + if k == h.key then 1 else 0
    {
      RemovedReference(w.holds, i, k);
    }
    NoReferences(w'.holds, h.key);
  }

  lemma RemovedReference(holds: seq<Hold>, i: nat, k: nat)
    requires i < |holds|
    ensures References(holds, k) == References(holds[..i] + holds[i + 1..], k) + if k == holds[i].key then 1 else 0
  {
    var l, r := holds[..i], holds[i + 1..];
    assert holds == l + ([holds[i]] + r);
    ReferencesConcat(l, [holds[i]] + r, k);
    ReferencesConcat([holds[i]], r, k);
    ReferencesConcat(l, r, k);
  }

  lemma InvStep(w: World, a: Action)
    requires Inv(w) && Enabled(w, a)
    ensures Inv(Next(w, a))
  {
    if a.Acquire? {
      if a.key != 0 {
        AddReference(w, Hold(a.thread, a.key, Get(w.factory, a.key).entries[a.key].ptr), Next(w, a));
      }
    } else {
      var i := HoldOf(w.holds, a);
      assert w.holds[i] in w.holds;
      if a.Share? {
        AddReference(w, w.holds[i], Next(w, a));
      } else {
        RemoveReference(w, i, Next(w, a));
      }
    }
  }

  lemma {:induction false} InvAlways(actions: seq<Action>)
    requires LegalActions(actions)
    ensures Inv(After(actions))
    decreases |actions|
  {
    if actions != [] {
      InvAlways(actions[..|actions| - 1]);
      InvStep(After(actions[..|actions| - 1]), actions[|actions| - 1]);
    }
  }

  /** SAFETY. In every interleaving: no assertion fires; an instance is destroyed if and only if no thread holds it, and
      only once; and all that hold a key hold the same instance. */
  lemma Safety(actions: seq<Action>)
    requires LegalActions(actions)
    ensures var w := After(actions);
            && !w.asserted
            && (forall p: nat :: p < w.factory.created ==>
                  (p in w.factory.destroyed <==> forall h :: h in w.holds ==> h.ptr != p))
            && (forall i, j :: 0 <= i < j < |w.factory.destroyed| ==> w.factory.destroyed[i] != w.factory.destroyed[j])
            && (forall g, h :: g in w.holds && h in w.holds ==> (g.key == h.key <==> g.ptr == h.ptr))
  {
    InvAlways(actions);
    var w := After(actions);
    forall p: nat | p < w.factory.created && p !in w.factory.destroyed
      ensures exists h :: h in w.holds && h.ptr == p
    {
      var k :| k in w.factory.entries && w.factory.entries[k].ptr == p;
      assert References(w.holds, k) > 0;
      NoReferences(w.holds, k);
    }
  }

  /** Only the call that gives up the last reference destroys anything, and it destroys that instance. */
  lemma DestroyedAtLastRelease(actions: seq<Action>, a: Action)
    requires LegalActions(actions) && Enabled(After(actions), a)
    ensures var w, f := After(actions), Next(After(actions), a).factory;
            f.destroyed == if a.Drop? && References(w.holds, a.key) == 1
                           then w.factory.destroyed + [w.holds[HoldOf(w.holds, a)].ptr]
                           else w.factory.destroyed
  {
    InvAlways(actions);
    var w := After(actions);
    if !a.Acquire? {
      assert w.holds[HoldOf(w.holds, a)] in w.holds;
    }
  }

  /** The count has wrapped, but all references to the key are still to its instance. */
  ghost predicate Wrapped(w: World, key: nat) {
    && key in w.factory.entries && w.factory.entries[key].refCount == 0
    && References(w.holds, key) == SIZE_T + 1
    && forall h :: h in w.holds && h.key == key ==> h.ptr == w.factory.entries[key].ptr
  }

  lemma OneMoreWraps(w: World, a: Action)
    requires Inv(w) && Allowed(w, a) && !a.Drop? && References(w.holds, a.key) == SIZE_T
    ensures Wrapped(Next(w, a), a.key)
  {
    if a.Share? { assert w.holds[HoldOf(w.holds, a)] in w.holds; }
    var h := Next(w, a).holds[|w.holds|];
    ReferencesConcat(w.holds, [h], a.key);
  }

  lemma WrappedDestroys(w: World, d: Action)
    requires Allowed(w, d) && d.Drop? && Wrapped(w, d.key)
    ensures var v := Next(w, d);
            exists h :: h in v.holds && h.ptr in v.factory.destroyed
  {
    var v, i := Next(w, d), HoldOf(w.holds, d);
    RemovedReference(w.holds, i, d.key);
    NoReferences(v.holds, d.key);
    var h :| h in v.holds && h.key == d.key;
    assert h in w.holds && h.ptr in v.factory.destroyed;
  }

  /** The bound on new references is tight, in every world where a key has reached it: with one reference more, the next
      release of the key destroys an instance that others hold. */
  lemma OneMoreIsUnsafe(actions: seq<Action>, a: Action, d: Action)
    requires LegalActions(actions) && Allowed(After(actions), a) && !a.Drop?
    requires References(After(actions).holds, a.key) == SIZE_T
    requires d.Drop? && d.key == a.key && Allowed(Next(After(actions), a), d)
    ensures var w := Next(Next(After(actions), a), d);
            exists h :: h in w.holds && h.ptr in w.factory.destroyed
  {
    InvAlways(actions);
    OneMoreWraps(After(actions), a);
    WrappedDestroys(Next(After(actions), a), d);
  }
}
