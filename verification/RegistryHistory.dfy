/**
 Ids of scripts/generate_ids.py over the whole history of a registry. A regeneration counts up from the highest id of
 the registry at hand and forgets dropped entries, so that an id can be handed out again. The theorems say exactly when.
 */
module RegistryHistory {
  import opened Sequences
  import opened Sorting
  import opened Registry

  /** A name and the id that it has had. */
  datatype Holder = Holder(name: string, id: int)

  ghost function Holders(etors: seq<Etor>): set<Holder> {
    set e | e in etors :: Holder(e.name, e.value)
  }

  /** All names and ids of the registries from the first to the last. */
  ghost function Ever(file: seq<Etor>, prefix: string, lists: seq<seq<Item>>): set<Holder>
    requires Regenerations(file, lists)
    decreases |lists|
  {
    Holders(After(file, prefix, lists)) + if lists == [] then {} else Ever(file, prefix, lists[..|lists| - 1])
  }

  lemma NowIsEver(file: seq<Etor>, prefix: string, lists: seq<seq<Item>>)
    requires Regenerations(file, lists)
    ensures Holders(After(file, prefix, lists)) <= Ever(file, prefix, lists)
  {
  }

  /** A list has a name that the registry it meets does not have. */
  ghost predicate HasNew(before: seq<Etor>, prefix: string, items: seq<Item>) {
    exists i :: 0 <= i < |items| && prefix + items[i].suffix !in Dict(before)
  }

  /** If the last list has a new name, no id has ever been higher than the highest of the registry that it meets. */
  ghost predicate HighestKeptAt(file: seq<Etor>, prefix: string, lists: seq<seq<Item>>)
    requires Regenerations(file, lists) && lists != []
  {
    var init := lists[..|lists| - 1];
    var before := After(file, prefix, init);
    HasNew(before, prefix, lists[|lists| - 1]) ==>
      forall h :: h in Ever(file, prefix, init) ==> h.id <= MaxValue(before)
  }

  /** Every id that the last regeneration hands out is above every id there has ever been. */
  ghost predicate GrowsAt(file: seq<Etor>, prefix: string, lists: seq<seq<Item>>)
    requires Regenerations(file, lists) && lists != []
  {
    var init := lists[..|lists| - 1];
    forall e, h :: e in After(file, prefix, lists) && h in Ever(file, prefix, init) ==>
      e.name !in Dict(After(file, prefix, init)) ==> h.id < e.value
  }

  /** No new name of the last list has ever been registered. */
  ghost predicate NoReturnAt(file: seq<Etor>, prefix: string, lists: seq<seq<Item>>)
    requires Regenerations(file, lists) && lists != []
  {
    var init := lists[..|lists| - 1];
    forall e, h :: e in After(file, prefix, lists) && h in Ever(file, prefix, init) ==>
      e.name !in Dict(After(file, prefix, init)) ==> h.name != e.name
  }

  /** No name of the last list is about to get an id that another name has had: counting up from the highest id of the
      registry at hand, in the order of the list. */
  ghost predicate NextFreeAt(file: seq<Etor>, prefix: string, lists: seq<seq<Item>>)
    requires Regenerations(file, lists) && lists != []
  {
    var init, items := lists[..|lists| - 1], lists[|lists| - 1];
    FreeFor(Ever(file, prefix, init), After(file, prefix, init), prefix, items)
  }

  ghost predicate FreeFor(ever: set<Holder>, before: seq<Etor>, prefix: string, items: seq<Item>)
    requires before != []
  {
    forall i, h :: 0 <= i < |items| && h in ever && h.id == NextId(before, prefix, items, i) ==>
      prefix + items[i].suffix in Dict(before) || h.name == prefix + items[i].suffix
  }

  /** The id that item i gets, if it is new. */
  ghost function NextId(before: seq<Etor>, prefix: string, items: seq<Item>, i: nat): int
    requires before != [] && i < |items|
  {
    MaxValue(before) + 1 + NewAmong(Dict(before), prefix, items, i)
  }

  /** With k new names in the last list, no name has ever had one of the k ids after the highest. */
  ghost predicate NextUnusedAt(file: seq<Etor>, prefix: string, lists: seq<seq<Item>>)
    requires Regenerations(file, lists) && lists != []
  {
    var init, items := lists[..|lists| - 1], lists[|lists| - 1];
    UnusedFor(Ever(file, prefix, init), After(file, prefix, init), prefix, items)
  }

  ghost predicate UnusedFor(ever: set<Holder>, before: seq<Etor>, prefix: string, items: seq<Item>)
    requires before != []
  {
    forall h :: h in ever ==>
      h.id <= MaxValue(before) || h.id > MaxValue(before) + NewAmong(Dict(before), prefix, items, |items|)
  }

  ghost predicate NextFree(file: seq<Etor>, prefix: string, lists: seq<seq<Item>>)
    requires Regenerations(file, lists)
  {
    forall n :: 0 < n <= |lists| ==> NextFreeAt(file, prefix, lists[..n])
  }

  ghost predicate NextUnused(file: seq<Etor>, prefix: string, lists: seq<seq<Item>>)
    requires Regenerations(file, lists)
  {
    forall n :: 0 < n <= |lists| ==> NextUnusedAt(file, prefix, lists[..n])
  }

  ghost predicate HighestKept(file: seq<Etor>, prefix: string, lists: seq<seq<Item>>)
    requires Regenerations(file, lists)
  {
    forall n :: 0 < n <= |lists| ==> HighestKeptAt(file, prefix, lists[..n])
  }

  ghost predicate Grows(file: seq<Etor>, prefix: string, lists: seq<seq<Item>>)
    requires Regenerations(file, lists)
  {
    forall n :: 0 < n <= |lists| ==> GrowsAt(file, prefix, lists[..n])
  }

  ghost predicate NoReturn(file: seq<Etor>, prefix: string, lists: seq<seq<Item>>)
    requires Regenerations(file, lists)
  {
    forall n :: 0 < n <= |lists| ==> NoReturnAt(file, prefix, lists[..n])
  }

  /** No id has ever been given to a second name. */
  ghost predicate OneNamePerId(holders: set<Holder>) {
    forall g, h :: g in holders && h in holders && g.id == h.id ==> g.name == h.name
  }

  // ---------------------------------------------------------------- the ids handed out

  /** The k-th new item. */
  lemma {:induction false} NthNew(ids: map<string, int>, prefix: string, items: seq<Item>, n: nat, k: nat)
    returns (i: nat)
    requires n <= |items| && k < NewAmong(ids, prefix, items, n)
    ensures i < n && prefix + items[i].suffix !in ids && NewAmong(ids, prefix, items, i) == k
    decreases n
  {
    var isNew := prefix + items[0].suffix !in ids;
    if isNew && k == 0 {
      i := 0;
    } else {
      var rest := NthNew(ids, prefix, items[1..], n - 1, if isNew then k - 1 else k);
      i := rest + 1;
    }
  }

  lemma {:induction false} NoneNew(ids: map<string, int>, prefix: string, items: seq<Item>)
    requires NewAmong(ids, prefix, items, |items|) == 0
    ensures forall i :: 0 <= i < |items| ==> prefix + items[i].suffix in ids
    decreases |items|
  {
    if items != [] {
      NoneNew(ids, prefix, items[1..]);
      assert forall i :: 0 < i < |items| ==> items[i] == items[1..][i - 1];
    }
  }

  /** Items and entries correspond. */
  lemma EntryOfItem(etors: seq<Etor>, prefix: string, items: seq<Item>, i: nat) returns (e: Etor)
    requires etors != [] && i < |items|
    ensures e in Generate(etors, prefix, items) && e.name == prefix + items[i].suffix
    ensures e.name !in Dict(etors) ==> e.value == MaxValue(etors) + 1 + NewAmong(Dict(etors), prefix, items, i)
  {
    var a := Assign(Dict(etors), prefix, items, MaxValue(etors));
    SortSorts(a, ValueOf);
    SameMembers(a, Generate(etors, prefix, items));
    AssignSpec(Dict(etors), prefix, items, MaxValue(etors));
    e := a[i];
    if e.name !in Dict(etors) {
      NewIdsConsecutive(Dict(etors), prefix, items, MaxValue(etors), i);
    }
  }

  lemma ItemOfEntry(etors: seq<Etor>, prefix: string, items: seq<Item>, e: Etor) returns (i: nat)
    requires etors != [] && e in Generate(etors, prefix, items)
    ensures i < |items| && e.name == prefix + items[i].suffix
    ensures e.name !in Dict(etors) ==> e.value == MaxValue(etors) + 1 + NewAmong(Dict(etors), prefix, items, i)
  {
    var a := Assign(Dict(etors), prefix, items, MaxValue(etors));
    SortSorts(a, ValueOf);
    SameMembers(a, Generate(etors, prefix, items));
    AssignSpec(Dict(etors), prefix, items, MaxValue(etors));
    i :| 0 <= i < |a| && a[i] == e;
    if e.name !in Dict(etors) {
      NewIdsConsecutive(Dict(etors), prefix, items, MaxValue(etors), i);
    }
  }

  /** A list with a new name hands out the id after the highest. */
  lemma FirstNew(etors: seq<Etor>, prefix: string, items: seq<Item>) returns (e: Etor)
    requires etors != [] && HasNew(etors, prefix, items)
    ensures e in Generate(etors, prefix, items) && e.name !in Dict(etors) && e.value == MaxValue(etors) + 1
  {
    if NewAmong(Dict(etors), prefix, items, |items|) == 0 {
      NoneNew(Dict(etors), prefix, items);
    }
    var i := NthNew(Dict(etors), prefix, items, |items|, 0);
    e := EntryOfItem(etors, prefix, items, i);
  }

  /** The ids handed out are the next ones, without a gap. */
  lemma NewIdsFill(etors: seq<Etor>, prefix: string, items: seq<Item>, e: Etor, id: int) returns (d: Etor)
    requires etors != [] && e in Generate(etors, prefix, items) && e.name !in Dict(etors)
    requires MaxValue(etors) < id <= e.value
    ensures d in Generate(etors, prefix, items) && d.value == id
  {
    var i := ItemOfEntry(etors, prefix, items, e);
    if id == e.value {
      d := e;
    } else {
      var j := NthNew(Dict(etors), prefix, items, i, id - MaxValue(etors) - 1);
      d := EntryOfItem(etors, prefix, items, j);
    }
  }

  /** A name that the registry at hand has keeps its id; another gets one above the highest. */
  lemma OldOrNew(file: seq<Etor>, prefix: string, lists: seq<seq<Item>>, e: Etor)
    requires Regenerations(file, lists) && lists != [] && e in After(file, prefix, lists)
    ensures var before := After(file, prefix, lists[..|lists| - 1]);
            if e.name in Dict(before) then Holder(e.name, e.value) in Holders(before)
            else e.value > MaxValue(before)
  {
    hide Generate, DistinctNames, DistinctValues, DistinctItems, Increasing, Prefixed, Dict;
    var before := After(file, prefix, lists[..|lists| - 1]);
    AlwaysDistinct(file, prefix, lists[..|lists| - 1]);
    AfterStep(file, prefix, lists);
    GenerateSpec(before, prefix, lists[|lists| - 1]);
    DictSpec(before);
  }

  // ---------------------------------------------------------------- above every id there has ever been

  lemma GrowsExactlyAt(file: seq<Etor>, prefix: string, lists: seq<seq<Item>>)
    requires Regenerations(file, lists) && lists != []
    ensures GrowsAt(file, prefix, lists) <==> HighestKeptAt(file, prefix, lists)
  {
    hide Generate, Ever, After, Prefixed, Dict, DistinctNames, DistinctValues, DistinctItems;
    var init, items := lists[..|lists| - 1], lists[|lists| - 1];
    var before := After(file, prefix, init);
    AfterStep(file, prefix, lists);
    if GrowsAt(file, prefix, lists) && HasNew(before, prefix, items) {
      var e := FirstNew(before, prefix, items);
      assert forall h :: h in Ever(file, prefix, init) ==> h.id < e.value;
    }
    if HighestKeptAt(file, prefix, lists) {
      forall e, h | e in After(file, prefix, lists) && e.name !in Dict(before) && h in Ever(file, prefix, init)
        ensures h.id < e.value
      {
        OldOrNew(file, prefix, lists, e);
        var i := ItemOfEntry(before, prefix, items, e);
      }
    }
  }

  /** Over any number of regenerations, every new id is above every id there has ever been if and only if, whenever a
      list has a new name, the registry that it meets still has the highest id there has ever been. */
  lemma GrowsExactlyWhenHighestKept(file: seq<Etor>, prefix: string, lists: seq<seq<Item>>)
    requires Regenerations(file, lists)
    ensures Grows(file, prefix, lists) <==> HighestKept(file, prefix, lists)
  {
    hide GrowsAt, HighestKeptAt, DistinctItems;
    forall n | 0 < n <= |lists|
      ensures GrowsAt(file, prefix, lists[..n]) <==> HighestKeptAt(file, prefix, lists[..n])
    {
      GrowsExactlyAt(file, prefix, lists[..n]);
    }
  }

  // ---------------------------------------------------------------- one name for each id

  lemma OneNameIn(etors: seq<Etor>)
    requires DistinctValues(etors)
    ensures OneNamePerId(Holders(etors))
  {
  }

  /** A name that keeps its id has had it; one that gets a new id is the only one to have had it. */
  lemma SameIdSameName(file: seq<Etor>, prefix: string, lists: seq<seq<Item>>, g: Holder, h: Holder)
    requires Regenerations(file, lists) && lists != [] && NextFreeAt(file, prefix, lists)
    requires OneNamePerId(Ever(file, prefix, lists[..|lists| - 1]))
    requires g in Holders(After(file, prefix, lists)) && h in Ever(file, prefix, lists[..|lists| - 1]) && g.id == h.id
    ensures g.name == h.name
  {
    hide After, DistinctNames, DistinctItems, DistinctValues, Dict, MaxValue, Generate;
    var init, items := lists[..|lists| - 1], lists[|lists| - 1];
    var e :| e in After(file, prefix, lists) && g == Holder(e.name, e.value);
    if e.name in Dict(After(file, prefix, init)) {
      OldOrNew(file, prefix, lists, e);
      NowIsEver(file, prefix, init);
    } else {
      AfterStep(file, prefix, lists);
      var i := ItemOfEntry(After(file, prefix, init), prefix, items, e);
      assert h.id == NextId(After(file, prefix, init), prefix, items, i);
    }
  }

  /** A new name that is about to get an id that another has had, gets it. */
  lemma TakenGivesTwoNames(file: seq<Etor>, prefix: string, lists: seq<seq<Item>>)
    requires Regenerations(file, lists) && lists != [] && !NextFreeAt(file, prefix, lists)
    ensures !OneNamePerId(Ever(file, prefix, lists))
  {
    hide After, DistinctNames, DistinctItems, DistinctValues, Generate, Ever, FreeFor;
    var init, items := lists[..|lists| - 1], lists[|lists| - 1];
    AfterStep(file, prefix, lists);
    var g, h := Taken(Ever(file, prefix, init), After(file, prefix, init), prefix, items);
    NowIsEver(file, prefix, lists);
    EverGrows(file, prefix, lists, |init|);
  }

  lemma Taken(ever: set<Holder>, before: seq<Etor>, prefix: string, items: seq<Item>) returns (g: Holder, h: Holder)
    requires before != [] && !FreeFor(ever, before, prefix, items)
    ensures g in Holders(Generate(before, prefix, items)) && h in ever && g.id == h.id && g.name != h.name
  {
    hide Generate, Dict, MaxValue;
    var i, l :| 0 <= i < |items| && l in ever && l.id == NextId(before, prefix, items, i) &&
                prefix + items[i].suffix !in Dict(before) && l.name != prefix + items[i].suffix;
    var e := EntryOfItem(before, prefix, items, i);
    g, h := Holder(e.name, e.value), l;
  }

  lemma OneNameStep(file: seq<Etor>, prefix: string, lists: seq<seq<Item>>)
    requires Regenerations(file, lists) && lists != []
    ensures OneNamePerId(Ever(file, prefix, lists))
            <==> OneNamePerId(Ever(file, prefix, lists[..|lists| - 1])) && NextFreeAt(file, prefix, lists)
  {
    hide After, DistinctNames, DistinctItems, NextFreeAt, Increasing;
    var init, now := lists[..|lists| - 1], After(file, prefix, lists);
    assert Ever(file, prefix, lists) == Holders(now) + Ever(file, prefix, init);
    if !NextFreeAt(file, prefix, lists) {
      TakenGivesTwoNames(file, prefix, lists);
    } else if OneNamePerId(Ever(file, prefix, init)) {
      AlwaysDistinct(file, prefix, lists);
      OneNameIn(now);
      forall g, h | g in Holders(now) && h in Ever(file, prefix, init) && g.id == h.id
        ensures g.name == h.name
      {
        SameIdSameName(file, prefix, lists, g, h);
      }
    }
  }

  /** ONE NAME FOR EACH ID. Over any regenerations of any registry, no id ever goes to a second name if and only if none
      of the lists has a new name whose turn comes at an id that another name has had. */
  lemma {:induction false} OneNameExactly(file: seq<Etor>, prefix: string, lists: seq<seq<Item>>)
    requires Regenerations(file, lists)
    ensures OneNamePerId(Ever(file, prefix, lists)) <==> NextFree(file, prefix, lists)
    decreases |lists|
  {
    hide After, DistinctNames, DistinctItems, DistinctValues, NextFreeAt, OneNamePerId, Increasing;
    if lists == [] {
      AlwaysDistinct(file, prefix, lists);
      OneNameIn(After(file, prefix, lists));
      assert Ever(file, prefix, lists) == Holders(After(file, prefix, lists));
    } else {
      var init := lists[..|lists| - 1];
      OneNameExactly(file, prefix, init);
      OneNameStep(file, prefix, lists);
      assert forall n :: 0 < n <= |init| ==> init[..n] == lists[..n];
      assert lists[..|lists|] == lists;
    }
  }

  // ---------------------------------------------------------------- simpler conditions

  /** A new item comes before the end of the count. */
  lemma {:induction false} NewBelowTotal(ids: map<string, int>, prefix: string, items: seq<Item>, i: nat)
    requires i < |items| && prefix + items[i].suffix !in ids
    ensures NewAmong(ids, prefix, items, i) < NewAmong(ids, prefix, items, |items|)
    decreases i
  {
    if i > 0 {
      NewBelowTotal(ids, prefix, items[1..], i - 1);
    }
  }

  lemma UnusedIsFree(ever: set<Holder>, before: seq<Etor>, prefix: string, items: seq<Item>)
    requires before != [] && UnusedFor(ever, before, prefix, items)
    ensures FreeFor(ever, before, prefix, items)
  {
    hide NewAmong, Dict, MaxValue;
    forall i, h | 0 <= i < |items| && h in ever && h.id == NextId(before, prefix, items, i)
      ensures prefix + items[i].suffix in Dict(before)
    {
      if prefix + items[i].suffix !in Dict(before) {
        NewBelowTotal(Dict(before), prefix, items, i);
      }
    }
  }

  lemma FreeIsUnused(ever: set<Holder>, before: seq<Etor>, prefix: string, items: seq<Item>)
    requires before != [] && FreeFor(ever, before, prefix, items)
    requires forall i, h :: 0 <= i < |items| && h in ever && prefix + items[i].suffix !in Dict(before) ==>
      h.name != prefix + items[i].suffix
    ensures UnusedFor(ever, before, prefix, items)
  {
    hide NewAmong, Dict, MaxValue;
    forall h | h in ever && h.id > MaxValue(before)
      ensures h.id > MaxValue(before) + NewAmong(Dict(before), prefix, items, |items|)
    {
      if h.id <= MaxValue(before) + NewAmong(Dict(before), prefix, items, |items|) {
        var i := ItemOfId(before, prefix, items, h.id);
      }
    }
  }

  /** Each of the next ids has its item. */
  lemma ItemOfId(before: seq<Etor>, prefix: string, items: seq<Item>, id: int) returns (i: nat)
    requires before != []
    requires MaxValue(before) < id <= MaxValue(before) + NewAmong(Dict(before), prefix, items, |items|)
    ensures i < |items| && prefix + items[i].suffix !in Dict(before) && id == NextId(before, prefix, items, i)
  {
    i := NthNew(Dict(before), prefix, items, |items|, id - MaxValue(before) - 1);
  }

  /** Where no dropped name comes back, the new names together must find their ids unused. */
  lemma NoReturnStep(file: seq<Etor>, prefix: string, lists: seq<seq<Item>>)
    requires Regenerations(file, lists) && lists != []
    ensures NextUnusedAt(file, prefix, lists) ==> NextFreeAt(file, prefix, lists)
    ensures NoReturnAt(file, prefix, lists) && NextFreeAt(file, prefix, lists) ==> NextUnusedAt(file, prefix, lists)
  {
    hide After, DistinctNames, DistinctItems, DistinctValues, Dict, MaxValue, Generate, Ever, FreeFor, UnusedFor;
    var init, items := lists[..|lists| - 1], lists[|lists| - 1];
    var before, ever := After(file, prefix, init), Ever(file, prefix, init);
    if NextUnusedAt(file, prefix, lists) {
      UnusedIsFree(ever, before, prefix, items);
    }
    if NoReturnAt(file, prefix, lists) && NextFreeAt(file, prefix, lists) {
      forall i, h | 0 <= i < |items| && h in ever && prefix + items[i].suffix !in Dict(before)
        ensures h.name != prefix + items[i].suffix
      {
        AfterStep(file, prefix, lists);
        var e := EntryOfItem(before, prefix, items, i);
      }
      FreeIsUnused(ever, before, prefix, items);
    }
  }

  /** In particular, no id goes to a second name if none of the next k ids, k being the number of new names, was ever
      had; and only then, where no list brings a dropped name back. */
  lemma OneNameExactlyWhenUnused(file: seq<Etor>, prefix: string, lists: seq<seq<Item>>)
    requires Regenerations(file, lists)
    ensures NextUnused(file, prefix, lists) ==> OneNamePerId(Ever(file, prefix, lists))
    ensures NoReturn(file, prefix, lists) ==>
              (OneNamePerId(Ever(file, prefix, lists)) <==> NextUnused(file, prefix, lists))
  {
    hide DistinctNames, DistinctItems, DistinctValues, NextFreeAt, NextUnusedAt, NoReturnAt, Ever;
    OneNameExactly(file, prefix, lists);
    forall n | 0 < n <= |lists|
      ensures NextUnusedAt(file, prefix, lists[..n]) ==> NextFreeAt(file, prefix, lists[..n])
      ensures NoReturnAt(file, prefix, lists[..n]) && NextFreeAt(file, prefix, lists[..n]) ==>
                NextUnusedAt(file, prefix, lists[..n])
    {
      NoReturnStep(file, prefix, lists[..n]);
    }
  }

  ghost predicate HasId(holders: set<Holder>, id: int) {
    exists h :: h in holders && h.id == id
  }

  ghost predicate GapFree(holders: set<Holder>) {
    forall a, b, id: int :: a in holders && b in holders && a.id <= id <= b.id ==> HasId(holders, id)
  }

  /** Ids without gaps stay so: new ids follow the highest of the registry at hand. */
  lemma {:induction false} StaysGapFree(file: seq<Etor>, prefix: string, lists: seq<seq<Item>>)
    requires Regenerations(file, lists) && GapFree(Holders(Load(file, prefix)))
    ensures GapFree(Ever(file, prefix, lists))
    decreases |lists|
  {
    hide DistinctNames, DistinctItems, DistinctValues, GapFree, MaxValue;
    if lists == [] {
      assert Ever(file, prefix, lists) == Holders(Load(file, prefix));
    } else {
      var init := lists[..|lists| - 1];
      StaysGapFree(file, prefix, init);
      var before, now := After(file, prefix, init), After(file, prefix, lists);
      var ever := Ever(file, prefix, init);
      HighestIsIn(before);
      assert Holders(before) <= ever;
      forall e, id | e in now && Holder(e.name, e.value) !in ever && MaxValue(before) < id <= e.value
        ensures HasId(Holders(now), id)
      {
        OldOrNew(file, prefix, lists, e);
        AfterStep(file, prefix, lists);
        var d := NewIdsFill(before, prefix, lists[|lists| - 1], e, id);
        assert Holder(d.name, d.value) in Holders(now);
      }
      forall e | e in now && Holder(e.name, e.value) !in ever
        ensures e.value > MaxValue(before)
      {
        OldOrNew(file, prefix, lists, e);
      }
      FilledUp(ever, Holders(now), MaxValue(before));
    }
  }

  lemma HighestIsIn(etors: seq<Etor>)
    requires etors != []
    ensures HasId(Holders(etors), MaxValue(etors))
  {
    var i :| 0 <= i < |etors| && etors[i].value == MaxValue(etors);
    assert Holder(etors[i].name, etors[i].value) in Holders(etors);
  }

  /** Adding ids that fill up from one already there. */
  lemma FilledUp(ever: set<Holder>, now: set<Holder>, max: int)
    requires GapFree(ever) && HasId(ever, max)
    requires forall h :: h in now && h !in ever ==> h.id > max
    requires forall h, id :: h in now && h !in ever && max < id <= h.id ==> HasId(now, id)
    ensures GapFree(now + ever)
  {
    var top :| top in ever && top.id == max;
    forall a, b, id: int | a in now + ever && b in now + ever && a.id <= id <= b.id
      ensures HasId(now + ever, id)
    {
      if b in ever {
        assert HasId(ever, id) by {
          assert a in ever || top.id <= id;
        }
        var h :| h in ever && h.id == id;
        assert h in now + ever;
      } else if id > max {
        assert HasId(now, id);
        var h :| h in now && h.id == id;
        assert h in now + ever;
      } else {
        assert a in ever && HasId(ever, id);
        var h :| h in ever && h.id == id;
        assert h in now + ever;
      }
    }
  }

  lemma {:induction false} EverGrows(file: seq<Etor>, prefix: string, lists: seq<seq<Item>>, n: nat)
    requires Regenerations(file, lists) && n <= |lists|
    ensures Ever(file, prefix, lists[..n]) <= Ever(file, prefix, lists)
    decreases |lists|
  {
    hide DistinctNames, DistinctItems, DistinctValues, After, Holders;
    if n == |lists| {
      assert lists[..n] == lists;
    } else {
      EverGrows(file, prefix, lists[..|lists| - 1], n);
      assert lists[..|lists| - 1][..n] == lists[..n];
    }
  }

  /** Keeping the highest id leaves the next ones unused; without gaps nothing else does. */
  lemma HighestKeptStep(file: seq<Etor>, prefix: string, lists: seq<seq<Item>>)
    requires Regenerations(file, lists) && lists != []
    ensures HighestKeptAt(file, prefix, lists) ==> NextUnusedAt(file, prefix, lists)
    ensures GapFree(Holders(Load(file, prefix))) && NextUnusedAt(file, prefix, lists) ==>
              HighestKeptAt(file, prefix, lists)
  {
    hide After, DistinctNames, DistinctItems, DistinctValues, Dict, MaxValue, Generate, Ever, GapFree, HasId, NewAmong;
    var init, items := lists[..|lists| - 1], lists[|lists| - 1];
    var before, ever := After(file, prefix, init), Ever(file, prefix, init);
    NewOrNone(before, prefix, items);
    if GapFree(Holders(Load(file, prefix))) && NextUnusedAt(file, prefix, lists) {
      StaysGapFree(file, prefix, init);
      HighestIsIn(before);
      NowIsEver(file, prefix, init);
      forall h | h in ever && HasNew(before, prefix, items)
        ensures h.id <= MaxValue(before)
      {
        if h.id > MaxValue(before) {
          var next := NextIsHad(ever, Holders(before), MaxValue(before), h);
        }
      }
    }
  }

  lemma NewOrNone(before: seq<Etor>, prefix: string, items: seq<Item>)
    ensures HasNew(before, prefix, items) <==> NewAmong(Dict(before), prefix, items, |items|) > 0
  {
    if NewAmong(Dict(before), prefix, items, |items|) == 0 {
      NoneNew(Dict(before), prefix, items);
    } else {
      var i := NthNew(Dict(before), prefix, items, |items|, 0);
    }
  }

  lemma NextIsHad(ever: set<Holder>, before: set<Holder>, max: int, lost: Holder) returns (h: Holder)
    requires GapFree(ever) && before <= ever && HasId(before, max) && lost in ever && max < lost.id
    ensures h in ever && h.id == max + 1
  {
    var top :| top in before && top.id == max;
    assert HasId(ever, max + 1);
    h :| h in ever && h.id == max + 1;
  }

  /** Simpler still: it is enough that the highest id there has ever been is still registered whenever a list has a new
      name; and, where ids start without gaps and no dropped name comes back, nothing less is. */
  lemma OneNameExactlyWhenHighestKept(file: seq<Etor>, prefix: string, lists: seq<seq<Item>>)
    requires Regenerations(file, lists)
    ensures HighestKept(file, prefix, lists) ==> OneNamePerId(Ever(file, prefix, lists))
    ensures GapFree(Holders(Load(file, prefix))) && NoReturn(file, prefix, lists) ==>
              (OneNamePerId(Ever(file, prefix, lists)) <==> HighestKept(file, prefix, lists))
  {
    hide DistinctNames, DistinctItems, DistinctValues, HighestKeptAt, NextUnusedAt, NoReturnAt, GapFree, Ever;
    OneNameExactlyWhenUnused(file, prefix, lists);
    forall n | 0 < n <= |lists|
      ensures HighestKeptAt(file, prefix, lists[..n]) ==> NextUnusedAt(file, prefix, lists[..n])
      ensures GapFree(Holders(Load(file, prefix))) && NextUnusedAt(file, prefix, lists[..n]) ==>
                HighestKeptAt(file, prefix, lists[..n])
    {
      HighestKeptStep(file, prefix, lists[..n]);
    }
  }

  /** And it can go wrong: B has id 2 and is dropped, then C is added and gets id 2. */
  lemma IdGoesToSecondName(prefix: string)
    ensures var file := [Etor("A", "", 1), Etor("B", "", 2)];
            var lists := [[Item("A", "")], [Item("A", ""), Item("C", "")]];
            && Regenerations(file, lists)
            && Holder(prefix + "B", 2) in Ever(file, prefix, lists)
            && Holder(prefix + "C", 2) in Ever(file, prefix, lists)
  {
    hide Ever, Generate, Dict;
    var file := [Etor("A", "", 1), Etor("B", "", 2)];
    var lists := [[Item("A", "")], [Item("A", ""), Item("C", "")]];
    assert Regenerations(file, lists) && Regenerations(file, lists[..1]) && Regenerations(file, []);
    assert lists[..1][..0] == [] == lists[..0] && lists[..1][0] == lists[0];
    var loaded := After(file, prefix, []);
    AfterStep(file, prefix, lists[..1]);
    AfterStep(file, prefix, lists);
    BothHaveTwo(prefix, loaded, After(file, prefix, lists[..1]), After(file, prefix, lists));
    EverGrows(file, prefix, lists, 0);
    NowIsEver(file, prefix, []);
    NowIsEver(file, prefix, lists);
  }

  lemma BothHaveTwo(prefix: string, loaded: seq<Etor>, before: seq<Etor>, now: seq<Etor>)
    requires loaded == Load([Etor("A", "", 1), Etor("B", "", 2)], prefix)
    requires before == Generate(loaded, prefix, [Item("A", "")]) && before != []
    requires now == Generate(before, prefix, [Item("A", ""), Item("C", "")])
    ensures Holder(prefix + "B", 2) in Holders(loaded) && Holder(prefix + "C", 2) in Holders(now)
  {
    hide Generate, Dict;
    assert loaded[0] == Etor(prefix + "A", "", 1) && loaded[1] == Etor(prefix + "B", "", 2);
    assert loaded[1] in loaded;
    assert forall x, y :: x != y ==> (prefix + [x])[|prefix|] != (prefix + [y])[|prefix|];
    var one, two := [Item("A", "")], [Item("A", ""), Item("C", "")];
    DictSpec(loaded);
    GenerateSpec(loaded, prefix, one);
    assert Has(before, prefix, one[0]);
    assert before[0].name == prefix + "A" && before[0].value == 1;
    DictSpec(before);
    assert prefix + "C" !in Dict(before) && prefix + "A" in Dict(before);
    assert NewAmong(Dict(before), prefix, two, 1) == 0;
    var e := EntryOfItem(before, prefix, two, 1);
    assert e in now;
  }
}
