/**
 Scope latency tracking in source/common/latency_tracker.hpp, tracking being enabled: trackers are moved, not copied,
 and record on destruction; histograms are published and merged by name. A histogram is the multiset of the values it
 accepted; `now` stands for the steady clock.
 */
module Latency {
  import opened Options
  import opened Sequences

  const HIGHEST_TRACKABLE := 100_000_000_000

  predicate InRange(v: int) { 0 <= v <= HIGHEST_TRACKABLE }

  function Recorded(values: multiset<int>, v: int): multiset<int> {
    if InRange(v) then values + multiset{v} else values
  }

  class LatencyPrinter {
    var values: Printed

    constructor ()
      ensures values == map[]
    {
      values := map[];
    }

    method PublishLatency(h: Histogram)
      modifies this
      ensures values == Publish(old(values), h)
    {
      if h.name !in values {
        values := values[h.name := h.values];
      } else {
        values := values[h.name := values[h.name] + h.values];
      }
    }
  }

  class LatencyHistogram {
    const name: string
    var values: multiset<int>

    constructor (name: string)
      ensures this.name == name && values == multiset{}
    {
      this.name, values := name, multiset{};
    }

    method TrackValue(v: int)
      modifies this
      ensures values == if 0 <= v <= 100_000_000_000 then old(values) + multiset{v} else old(values)
    {
      if InRange(v) {
        values := values + multiset{v};
      }
    }

    method Destroy(printer: LatencyPrinter)
      modifies printer
      ensures printer.values == Retire(old(printer.values), Histogram(name, values))
    {
      if values != multiset{} {
        printer.PublishLatency(Histogram(name, values));
      }
    }
  }

  // ---------------------------------------------------------------- trackers

  /** A scope being timed: its histogram and its begin. */
  datatype Open<H> = Open(hist: H, begin: int)

  /** A measurement handed to a histogram: the scope and the time of its end. */
  datatype Measure<H> = Measure(scope: Open<H>, end: int)

  function Duration<H>(m: Measure<H>): int { m.end - m.scope.begin }

  /** What destroying a tracker hands over. */
  function End<H>(scope: Option<Open<H>>, now: int): seq<Measure<H>> {
    if scope.None? then [] else [Measure(scope.value, now)]
  }

  /** What a move makes of the two trackers, and the measurements that it hands over. */
  datatype Moved<H> = Moved(to: Option<Open<H>>, src: Option<Open<H>>, ended: seq<Measure<H>>)

  function MoveNew<H>(src: Option<Open<H>>): Moved<H> { Moved(src, None, []) }

  function MoveAssigned<H>(to: Option<Open<H>>, src: Option<Open<H>>, now: int): Moved<H> {
    Moved(src, None, End(to, now))
  }

  /** The values of a histogram after the measurements handed over. */
  ghost function Accepted<H>(values: multiset<int>, ended: seq<Measure<H>>, hist: H): multiset<int> {
    if ended == [] then values
    else
      var m := ended[|ended| - 1];
      var before := Accepted(values, ended[..|ended| - 1], hist);
      if m.scope.hist == hist then Recorded(before, Duration(m)) else before
  }

  class LatencyTracker {
    var stats: LatencyHistogram?
    var begin: int

    ghost function View(): Option<Open<LatencyHistogram>>
      reads this
    {
      if stats == null then None else Some(Open(stats, begin))
    }

    constructor (stats: LatencyHistogram, now: int)
      ensures View() == Some(Open(stats, now))
    {
      this.stats, begin := stats, now;
    }

    constructor Default()
      ensures View() == None
    {
      stats, begin := null, 0;
    }

    constructor Move(rhs: LatencyTracker)
      modifies rhs
      ensures Moved(View(), rhs.View(), []) == MoveNew(old(rhs.View()))
    {
      stats, begin := rhs.stats, rhs.begin;
      new;
      rhs.stats := null;
    }

    method Destroy(now: int)
      modifies stats
      ensures stats != null ==> stats.values == Accepted(old(stats.values), End(View(), now), stats)
      ensures stats != null ==>
        stats.values == if 0 <= now - begin <= 100_000_000_000 then old(stats.values) + multiset{now - begin}
                        else old(stats.values)
    {
      if stats != null {
        stats.TrackValue(now - begin);
        assert End(View(), now)[..0] == [];
      }
    }

    /** The old scope ends now and the right-hand side's is taken over; assigning a tracker to itself does nothing. */
    method MoveAssign(rhs: LatencyTracker, now: int)
      modifies this, rhs, stats
      ensures this == rhs ==> View() == old(View()) && (stats != null ==> stats.values == old(stats.values))
      ensures this != rhs ==>
        && Moved(View(), rhs.View(), End(old(View()), now)) == MoveAssigned(old(View()), old(rhs.View()), now)
        && (old(stats) != null ==>
              old(stats).values == Accepted(old(stats.values), End(old(View()), now), old(stats)))
      ensures this != rhs && old(stats) != null ==>
        old(stats).values
        == if 0 <= now - old(begin) <= 100_000_000_000 then old(stats.values) + multiset{now - old(begin)}
           else old(stats.values)
    {
      if this != rhs {
        Destroy(now);
        stats, begin := rhs.stats, rhs.begin;
        rhs.stats := null;
      }
    }
  }

  // ---------------------------------------------------------------- scopes are conserved

  /** The trackers alive, the scopes of all trackers constructed on a histogram, and the measurements so far. */
  datatype State = State(trackers: map<nat, Option<Open<nat>>>, started: seq<Open<nat>>, ended: seq<Measure<nat>>)

  datatype Op =
    | Construct(t: nat, hist: nat, now: int)
    | Default(t: nat)
    | Move(t: nat, src: nat)
    | Assign(t: nat, src: nat, now: int)
    | Destroy(t: nat, now: int)

  ghost predicate Legal(s: State, op: Op) {
    && (op.Construct? || op.Default? || op.Move? ==> op.t !in s.trackers)
    && (op.Assign? || op.Destroy? ==> op.t in s.trackers)
    && (op.Move? || op.Assign? ==> op.src in s.trackers)
  }

  ghost function Apply(s: State, t: nat, src: nat, moved: Moved<nat>): State {
    s.(trackers := s.trackers[t := moved.to][src := moved.src], ended := s.ended + moved.ended)
  }

  ghost function Step(s: State, op: Op): State
    requires Legal(s, op)
  {
    match op
    case Construct(t, hist, now) =>
      s.(trackers := s.trackers[t := Some(Open(hist, now))], started := s.started + [Open(hist, now)])
    case Default(t) => s.(trackers := s.trackers[t := None])
    case Move(t, src) => Apply(s, t, src, MoveNew(s.trackers[src]))
    case Assign(t, src, now) =>
      if t == src then s else Apply(s, t, src, MoveAssigned(s.trackers[t], s.trackers[src], now))
    case Destroy(t, now) => s.(trackers := s.trackers - {t}, ended := s.ended + End(s.trackers[t], now))
  }

  ghost predicate LegalRun(ops: seq<Op>)
    decreases |ops|, 0
  {
    ops == [] || (LegalRun(ops[..|ops| - 1]) && Legal(Run(ops[..|ops| - 1]), ops[|ops| - 1]))
  }

  ghost function Run(ops: seq<Op>): State
    requires LegalRun(ops)
    decreases |ops|, 1
  {
    if ops == [] then State(map[], [], []) else Step(Run(ops[..|ops| - 1]), ops[|ops| - 1])
  }

  /** The live trackers that time a scope of some kind. */
  ghost function Timing(trackers: map<nat, Option<Open<nat>>>, kind: Open<nat> -> bool): set<nat> {
    set t | t in trackers && trackers[t].Some? && kind(trackers[t].value)
  }

  ghost function Ended(ended: seq<Measure<nat>>, kind: Open<nat> -> bool): nat {
    if ended == [] then 0
    else Ended(ended[..|ended| - 1], kind) + if kind(ended[|ended| - 1].scope) then 1 else 0
  }

  ghost function Started(started: seq<Open<nat>>, kind: Open<nat> -> bool): nat {
    if started == [] then 0
    else Started(started[..|started| - 1], kind) + if kind(started[|started| - 1]) then 1 else 0
  }

  ghost predicate Conserved(s: State, kind: Open<nat> -> bool) {
    |Timing(s.trackers, kind)| + Ended(s.ended, kind) == Started(s.started, kind)
  }

  lemma StartedMore(started: seq<Open<nat>>, scope: Open<nat>, kind: Open<nat> -> bool)
    ensures Started(started + [scope], kind) == Started(started, kind) + if kind(scope) then 1 else 0
  {
    assert (started + [scope])[..|started|] == started;
  }

  lemma EndedMore(ended: seq<Measure<nat>>, more: seq<Measure<nat>>, kind: Open<nat> -> bool)
    requires |more| <= 1
    ensures Ended(ended + more, kind) == Ended(ended, kind) + if more != [] && kind(more[0].scope) then 1 else 0
  {
    if more == [] {
      assert ended + more == ended;
    } else {
      assert (ended + more)[..|ended|] == ended;
    }
  }

  /** Setting or removing one tracker changes the live count by that tracker only. */
  lemma TimingUpdate(trackers: map<nat, Option<Open<nat>>>, t: nat, scope: Option<Open<nat>>, kind: Open<nat> -> bool)
    ensures |Timing(trackers[t := scope], kind)|
            == |Timing(trackers - {t}, kind)| + if scope.Some? && kind(scope.value) then 1 else 0
    ensures |Timing(trackers, kind)|
            == |Timing(trackers - {t}, kind)|
               + if t in trackers && trackers[t].Some? && kind(trackers[t].value) then 1 else 0
  {
    TimingWithout(trackers, t, kind);
    TimingWithout(trackers[t := scope], t, kind);
    assert trackers[t := scope] - {t} == trackers - {t};
  }

  lemma TimingWithout(trackers: map<nat, Option<Open<nat>>>, t: nat, kind: Open<nat> -> bool)
    ensures |Timing(trackers, kind)|
            == |Timing(trackers - {t}, kind)|
               + if t in trackers && trackers[t].Some? && kind(trackers[t].value) then 1 else 0
  {
    assert Timing(trackers - {t}, kind) == Timing(trackers, kind) - {t};
  }

  lemma StepConserves(s: State, op: Op, kind: Open<nat> -> bool)
    requires Legal(s, op) && Conserved(s, kind)
    ensures Conserved(Step(s, op), kind)
  {
    hide Timing, Ended, Started;
    match op
    case Construct(t, h, now) =>
      TimingUpdate(s.trackers, t, Some(Open(h, now)), kind);
      StartedMore(s.started, Open(h, now), kind);
    case Default(t) => TimingUpdate(s.trackers, t, None, kind);
    case Move(t, src) =>
      TimingUpdate(s.trackers, t, s.trackers[src], kind);
      TimingUpdate(s.trackers[t := s.trackers[src]], src, None, kind);
      EndedMore(s.ended, [], kind);
    case Assign(t, src, now) =>
      if t != src {
        TimingUpdate(s.trackers, t, s.trackers[src], kind);
        TimingUpdate(s.trackers[t := s.trackers[src]], src, None, kind);
        EndedMore(s.ended, End(s.trackers[t], now), kind);
      }
    case Destroy(t, now) =>
      TimingUpdate(s.trackers, t, None, kind);
      EndedMore(s.ended, End(s.trackers[t], now), kind);
  }

  /** CONSERVATION. Of scopes of any kind (on one histogram, begun at one time, ...) as many were started as are timed
      by a live tracker or have been measured: moves lose and duplicate none, and keep histogram and begin together. */
  lemma {:induction false} ScopesConserved(ops: seq<Op>, kind: Open<nat> -> bool)
    requires LegalRun(ops)
    ensures Conserved(Run(ops), kind)
    decreases |ops|
  {
    if ops == [] {
      assert Timing(map[], kind) == {};
    } else {
      ScopesConserved(ops[..|ops| - 1], kind);
      StepConserves(Run(ops[..|ops| - 1]), ops[|ops| - 1], kind);
    }
  }

  // ---------------------------------------------------------------- publishing

  datatype Histogram = Histogram(name: string, values: multiset<int>)

  type Printed = map<string, multiset<int>>

  /** Histograms of one name are added up. */
  function Publish(printed: Printed, h: Histogram): Printed {
    if h.name in printed then printed[h.name := printed[h.name] + h.values] else printed[h.name := h.values]
  }

  /** The end of a histogram: one without data is not published. */
  function Retire(printed: Printed, h: Histogram): Printed {
    if h.values == multiset{} then printed else Publish(printed, h)
  }

  function PublishAll(hs: seq<Histogram>): Printed {
    if hs == [] then map[] else Retire(PublishAll(hs[1..]), hs[0])
  }

  ghost function ValuesOf(hs: seq<Histogram>, name: string): multiset<int> {
    if hs == [] then multiset{}
    else ValuesOf(hs[1..], name) + if hs[0].name == name then hs[0].values else multiset{}
  }

  /** Under each name exactly the values of all histograms of that name are printed, and no name without values. */
  lemma {:induction false} PublishedValues(hs: seq<Histogram>, name: string)
    ensures name in PublishAll(hs) <==> ValuesOf(hs, name) != multiset{}
    ensures name in PublishAll(hs) ==> PublishAll(hs)[name] == ValuesOf(hs, name)
    decreases |hs|
  {
    if hs != [] {
      PublishedValues(hs[1..], name);
    }
  }

  lemma {:induction false} ValuesOfRemoved(hs: seq<Histogram>, a: nat, name: string)
    requires a < |hs|
    ensures ValuesOf(hs, name)
            == ValuesOf(hs[..a] + hs[a + 1..], name) + if hs[a].name == name then hs[a].values else multiset{}
    decreases a
  {
    if a == 0 {
      assert hs[..0] + hs[1..] == hs[1..];
    } else {
      ValuesOfRemoved(hs[1..], a - 1, name);
      RemovedTail(hs, a);
    }
  }

  lemma {:induction false} ValuesOfPermutation(xs: seq<Histogram>, ys: seq<Histogram>, name: string)
    requires multiset(xs) == multiset(ys)
    ensures ValuesOf(xs, name) == ValuesOf(ys, name)
    decreases |xs|
  {
    if xs == [] {
      EmptyMultiset(ys);
    } else {
      var a := FirstIn(xs, ys);
      ValuesOfPermutation(xs[1..], ys[..a] + ys[a + 1..], name);
      ValuesOfRemoved(ys, a, name);
    }
  }

  /** Threads end in any order: what is printed does not depend on it. */
  lemma PublishingOrderIndependent(xs: seq<Histogram>, ys: seq<Histogram>)
    requires multiset(xs) == multiset(ys)
    ensures PublishAll(xs) == PublishAll(ys)
  {
    forall name
      ensures name in PublishAll(xs) <==> name in PublishAll(ys)
      ensures name in PublishAll(xs) ==> PublishAll(xs)[name] == PublishAll(ys)[name]
    {
      PublishedValues(xs, name);
      PublishedValues(ys, name);
      ValuesOfPermutation(xs, ys, name);
    }
  }

  /** What a histogram takes of one measurement. */
  function Taken(m: Measure<nat>): multiset<int> { Recorded(multiset{}, Duration(m)) }

  /** The histograms from number k on, histogram i being named names[i]. */
  ghost function Histograms(ended: seq<Measure<nat>>, names: seq<string>, k: nat): seq<Histogram>
    requires k <= |names|
    decreases |names| - k
  {
    if k == |names| then [] else [Histogram(names[k], Accepted(multiset{}, ended, k))] + Histograms(ended, names, k + 1)
  }

  ghost function InRangeNamed(ended: seq<Measure<nat>>, names: seq<string>, name: string): nat {
    if ended == [] then 0
    else
      var m := ended[|ended| - 1];
      InRangeNamed(ended[..|ended| - 1], names, name)
      + if m.scope.hist < |names| && names[m.scope.hist] == name && InRange(Duration(m)) then 1 else 0
  }

  lemma {:induction false} OneMoreMeasure(ended: seq<Measure<nat>>, names: seq<string>, name: string, k: nat)
    requires k <= |names| && ended != []
    ensures var m, init := ended[|ended| - 1], ended[..|ended| - 1];
            ValuesOf(Histograms(ended, names, k), name)
            == ValuesOf(Histograms(init, names, k), name)
               + if k <= m.scope.hist < |names| && names[m.scope.hist] == name then Taken(m) else multiset{}
    decreases |names| - k
  {
    hide Accepted, Taken;
    if k < |names| {
      var init := ended[..|ended| - 1];
      OneMoreMeasure(ended, names, name, k + 1);
      LastAccepted(ended, k);
      assert Histograms(ended, names, k)[1..] == Histograms(ended, names, k + 1);
      assert Histograms(init, names, k)[1..] == Histograms(init, names, k + 1);
    }
  }

  lemma LastAccepted(ended: seq<Measure<nat>>, hist: nat)
    requires ended != []
    ensures var m := ended[|ended| - 1];
            Accepted(multiset{}, ended, hist)
            == Accepted(multiset{}, ended[..|ended| - 1], hist) + if m.scope.hist == hist then Taken(m) else multiset{}
  {
  }

  lemma {:induction false} NothingMeasured(names: seq<string>, name: string, k: nat)
    requires k <= |names|
    ensures ValuesOf(Histograms([], names, k), name) == multiset{}
    decreases |names| - k
  {
    if k < |names| {
      NothingMeasured(names, name, k + 1);
    }
  }

  /** The in-range durations of the measurements on histograms of a name. */
  ghost function Durations(ended: seq<Measure<nat>>, names: seq<string>, name: string): multiset<int> {
    if ended == [] then multiset{}
    else
      var m := ended[|ended| - 1];
      Durations(ended[..|ended| - 1], names, name) + TakenUnder(m, names, name)
  }

  ghost function TakenUnder(m: Measure<nat>, names: seq<string>, name: string): multiset<int> {
    if m.scope.hist < |names| && names[m.scope.hist] == name then Taken(m) else multiset{}
  }

  lemma {:induction false} HistogramDurations(ended: seq<Measure<nat>>, names: seq<string>, name: string)
    ensures ValuesOf(Histograms(ended, names, 0), name) == Durations(ended, names, name)
    ensures |Durations(ended, names, name)| == InRangeNamed(ended, names, name)
    decreases |ended|
  {
    if ended == [] {
      NothingMeasured(names, name, 0);
    } else {
      HistogramDurations(ended[..|ended| - 1], names, name);
      OneMoreMeasure(ended, names, name, 0);
    }
  }

  /** What is printed under a name, in whatever order the histograms are published, are the in-range durations of the
      measurements on histograms of that name, and as many values as there are such measurements. */
  lemma PrintedDurations(ended: seq<Measure<nat>>, names: seq<string>, hs: seq<Histogram>, name: string)
    requires multiset(hs) == multiset(Histograms(ended, names, 0))
    ensures name in PublishAll(hs) <==> InRangeNamed(ended, names, name) > 0
    ensures name in PublishAll(hs) ==>
      PublishAll(hs)[name] == Durations(ended, names, name) &&
      |PublishAll(hs)[name]| == InRangeNamed(ended, names, name)
  {
    PublishedValues(hs, name);
    ValuesOfPermutation(hs, Histograms(ended, names, 0), name);
    HistogramDurations(ended, names, name);
  }

  // ---------------------------------------------------------------- from start to print

  ghost function ScopesOf(ended: seq<Measure<nat>>): (r: seq<Open<nat>>)
    ensures |r| == |ended| && forall i :: 0 <= i < |r| ==> r[i] == ended[i].scope
  {
    seq(|ended|, i requires 0 <= i < |ended| => ended[i].scope)
  }

  ghost function Is(scope: Open<nat>): Open<nat> -> bool { x => x == scope }

  lemma {:induction false} StartedCount(started: seq<Open<nat>>, scope: Open<nat>)
    ensures Started(started, Is(scope)) == multiset(started)[scope]
    decreases |started|
  {
    if started != [] {
      StartedCount(started[..|started| - 1], scope);
      assert started == started[..|started| - 1] + [started[|started| - 1]];
    }
  }

  lemma {:induction false} EndedCount(ended: seq<Measure<nat>>, scope: Open<nat>)
    ensures Ended(ended, Is(scope)) == multiset(ScopesOf(ended))[scope]
    decreases |ended|
  {
    if ended != [] {
      var init := ended[..|ended| - 1];
      EndedCount(init, scope);
      assert ScopesOf(ended) == ScopesOf(init) + [ended[|ended| - 1].scope];
    }
  }

  /** When no tracker times a scope any more, the scopes measured are those started. */
  lemma AllMeasured(ops: seq<Op>)
    requires LegalRun(ops) && forall t :: t in Run(ops).trackers ==> Run(ops).trackers[t].None?
    ensures multiset(ScopesOf(Run(ops).ended)) == multiset(Run(ops).started)
  {
    var s := Run(ops);
    forall scope: Open<nat>
      ensures multiset(ScopesOf(s.ended))[scope] == multiset(s.started)[scope]
    {
      ScopesConserved(ops, Is(scope));
      assert Timing(s.trackers, Is(scope)) == {};
      StartedCount(s.started, scope);
      EndedCount(s.ended, scope);
    }
  }

  /** The measurements in the order in which their scopes were started. */
  lemma {:induction false} InStartOrder(ended: seq<Measure<nat>>, started: seq<Open<nat>>)
    returns (ms: seq<Measure<nat>>)
    requires multiset(ScopesOf(ended)) == multiset(started)
    ensures multiset(ms) == multiset(ended) && ScopesOf(ms) == started
    decreases |started|
  {
    if started == [] {
      EmptyMultiset(ScopesOf(ended));
      ms := [];
    } else {
      var a := FirstIn(started, ScopesOf(ended));
      hide ScopesOf;
      ScopesOfRemoved(ended, a);
      var rest := InStartOrder(ended[..a] + ended[a + 1..], started[1..]);
      MeasureInFront(ended, a, rest);
      ms := [ended[a]] + rest;
      assert ScopesOf(ms) == [started[0]] + started[1..];
    }
  }

  lemma ScopesOfRemoved(ended: seq<Measure<nat>>, a: nat)
    requires a < |ended|
    ensures ScopesOf(ended[..a] + ended[a + 1..]) == ScopesOf(ended)[..a] + ScopesOf(ended)[a + 1..]
  {
  }

  lemma MeasureInFront(ended: seq<Measure<nat>>, a: nat, rest: seq<Measure<nat>>)
    requires a < |ended| && multiset(rest) == multiset(ended[..a] + ended[a + 1..])
    ensures multiset([ended[a]] + rest) == multiset(ended)
    ensures ScopesOf([ended[a]] + rest) == [ended[a].scope] + ScopesOf(rest)
  {
    MultisetOfRemoved(ended, a);
  }

  lemma {:induction false} DurationsOfRemoved(ms: seq<Measure<nat>>, a: nat, names: seq<string>, name: string)
    requires a < |ms|
    ensures Durations(ms, names, name)
            == Durations(ms[..a] + ms[a + 1..], names, name) + TakenUnder(ms[a], names, name)
    decreases |ms|
  {
    hide TakenUnder;
    var last, init := ms[|ms| - 1], ms[..|ms| - 1];
    if a == |ms| - 1 {
      assert ms[..a] + ms[a + 1..] == init;
    } else {
      DurationsOfRemoved(init, a, names, name);
      var without := ms[..a] + ms[a + 1..];
      assert without[..|without| - 1] == init[..a] + init[a + 1..] && without[|without| - 1] == last;
    }
  }

  lemma {:induction false} DurationsOfPermutation(xs: seq<Measure<nat>>, ys: seq<Measure<nat>>, names: seq<string>,
                                                  name: string)
    requires multiset(xs) == multiset(ys)
    ensures Durations(xs, names, name) == Durations(ys, names, name)
    decreases |xs|
  {
    hide TakenUnder, Durations;
    if xs == [] {
      EmptyMultiset(ys);
    } else {
      var a := FirstIn(xs, ys);
      DurationsOfPermutation(xs[1..], ys[..a] + ys[a + 1..], names, name);
      DurationsOfRemoved(ys, a, names, name);
      DurationsOfRemoved(xs, 0, names, name);
      assert xs[..0] + xs[1..] == xs[1..];
    }
  }

  /** How many measurements on histograms of a name took d. */
  ghost function Lasting(ms: seq<Measure<nat>>, names: seq<string>, name: string, d: int): nat {
    if ms == [] then 0
    else
      var m := ms[|ms| - 1];
      Lasting(ms[..|ms| - 1], names, name, d)
      + if m.scope.hist < |names| && names[m.scope.hist] == name && m.end - m.scope.begin == d then 1 else 0
  }

  lemma {:induction false} DurationsCount(ms: seq<Measure<nat>>, names: seq<string>, name: string, d: int)
    ensures Durations(ms, names, name)[d] == if 0 <= d <= 100_000_000_000 then Lasting(ms, names, name, d) else 0
    decreases |ms|
  {
    if ms != [] {
      hide TakenUnder;
      DurationsCount(ms[..|ms| - 1], names, name, d);
      TakenCount(ms[|ms| - 1], names, name, d);
    }
  }

  lemma TakenCount(m: Measure<nat>, names: seq<string>, name: string, d: int)
    ensures TakenUnder(m, names, name)[d]
            == if 0 <= d <= 100_000_000_000 && m.scope.hist < |names| && names[m.scope.hist] == name &&
                  m.end - m.scope.begin == d then 1 else 0
  {
  }

  /** FROM START TO PRINT. After any constructions, moves, assignments and destructions that leave no scope open, each
      scope started has one measurement, and what is printed under a name, in whatever order histograms are published,
      are exactly the durations in range of the scopes started on histograms of that name. */
  lemma StartedIsPrinted(ops: seq<Op>, names: seq<string>, hs: seq<Histogram>, name: string)
    returns (ms: seq<Measure<nat>>)
    requires LegalRun(ops) && forall t :: t in Run(ops).trackers ==> Run(ops).trackers[t].None?
    requires multiset(hs) == multiset(Histograms(Run(ops).ended, names, 0))
    ensures ScopesOf(ms) == Run(ops).started && multiset(ms) == multiset(Run(ops).ended)
    ensures name in PublishAll(hs) <==> Durations(ms, names, name) != multiset{}
    ensures name in PublishAll(hs) ==> PublishAll(hs)[name] == Durations(ms, names, name)
    ensures forall d :: 0 <= d <= 100_000_000_000 ==>
      (if name in PublishAll(hs) then PublishAll(hs)[name][d] else 0) == Lasting(ms, names, name, d)
    ensures name in PublishAll(hs) ==> forall d :: d in PublishAll(hs)[name] ==> 0 <= d <= 100_000_000_000
  {
    hide Durations, PublishAll, InRangeNamed, Lasting;
    var ended := Run(ops).ended;
    AllMeasured(ops);
    ms := InStartOrder(ended, Run(ops).started);
    DurationsOfPermutation(ms, ended, names, name);
    HistogramDurations(ended, names, name);
    PrintedDurations(ended, names, hs, name);
    forall d
      ensures Durations(ms, names, name)[d] == if 0 <= d <= 100_000_000_000 then Lasting(ms, names, name, d) else 0
    {
      DurationsCount(ms, names, name, d);
    }
  }
}
