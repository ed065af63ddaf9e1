/**
 The id registry of scripts/generate_ids.py: every function (and every extended structure) keeps the id it was given
 once, new ones get ids above all others, and the registry is written sorted by id with the name prefix cut off.
 */
module Registry {
  import opened Options
  import opened Sequences
  import opened Sorting

  datatype Etor = Etor(name: string, desc: string, value: int)

  /** What the specification asks an enumerator for: its name behind the prefix, and its description. */
  datatype Item = Item(suffix: string, desc: string)

  function ValueOf(e: Etor): real { e.value as real }

  function MaxValue(etors: seq<Etor>): (m: int)
    requires etors != []
    ensures exists i :: 0 <= i < |etors| && etors[i].value == m
    ensures forall i :: 0 <= i < |etors| ==> etors[i].value <= m
  {
    if |etors| == 1 then etors[0].value
    else
      var m := MaxValue(etors[1..]);
      assert forall i :: 0 < i < |etors| ==> etors[i] == etors[1..][i - 1];
      if etors[0].value > m then etors[0].value
      else
        assert exists i :: 0 <= i < |etors| && etors[i].value == m by {
          var i :| 0 <= i < |etors[1..]| && etors[1..][i].value == m;
          assert etors[i + 1].value == m;
        }
        m
  }

  /** The dictionary of an enumeration: of two entries with one name the later counts. */
  function Dict(etors: seq<Etor>): map<string, int> {
    if etors == [] then map[]
    else
      var last := etors[|etors| - 1];
      Dict(etors[..|etors| - 1])[last.name := last.value]
  }

  /** The enumerators for the items, in their order; `max` is the highest id given so far. */
  function Assign(ids: map<string, int>, prefix: string, items: seq<Item>, max: int): (r: seq<Etor>)
    ensures |r| == |items|
  {
    if items == [] then []
    else
      var name, desc := prefix + items[0].suffix, items[0].desc;
      if name in ids then [Etor(name, desc, ids[name])] + Assign(ids, prefix, items[1..], max)
      else [Etor(name, desc, max + 1)] + Assign(ids, prefix, items[1..], max + 1)
  }

  /** A regeneration, from a registry that is not empty. */
  function Generate(etors: seq<Etor>, prefix: string, items: seq<Item>): seq<Etor>
    requires etors != []
  {
    GenerateWith(Dict(etors), etors, prefix, items)
  }

  /** The same with the old ids looked up in any way. */
  function GenerateWith(ids: map<string, int>, etors: seq<Etor>, prefix: string, items: seq<Item>): seq<Etor>
    requires etors != []
  {
    SortBy(Assign(ids, prefix, items, MaxValue(etors)), ValueOf)
  }

  /** Cutting off the prefix for the registry file, and putting it back on loading. */
  function Strip(etors: seq<Etor>, prefix: string): seq<Etor>
    requires forall e :: e in etors ==> |prefix| <= |e.name|
  {
    seq(|etors|, i requires 0 <= i < |etors| => etors[i].(name := etors[i].name[|prefix|..]))
  }

  function Load(etors: seq<Etor>, prefix: string): seq<Etor> {
    seq(|etors|, i requires 0 <= i < |etors| => etors[i].(name := prefix + etors[i].name))
  }

  // ---------------------------------------------------------------- one regeneration

  ghost predicate DistinctNames(etors: seq<Etor>) {
    forall i, j :: 0 <= i < j < |etors| ==> etors[i].name != etors[j].name
  }

  ghost predicate DistinctItems(items: seq<Item>) {
    forall i, j :: 0 <= i < j < |items| ==> items[i].suffix != items[j].suffix
  }

  ghost predicate DistinctValues(etors: seq<Etor>) {
    forall i, j :: 0 <= i < j < |etors| ==> etors[i].value != etors[j].value
  }

  ghost predicate Increasing(etors: seq<Etor>) {
    forall i, j :: 0 <= i < j < |etors| ==> etors[i].value < etors[j].value
  }

  lemma {:induction false} DictSpec(etors: seq<Etor>)
    ensures forall n :: n in Dict(etors) ==> exists e :: e in etors && e.name == n && e.value == Dict(etors)[n]
    ensures forall e :: e in etors ==> e.name in Dict(etors)
    ensures DistinctNames(etors) ==> forall e :: e in etors ==> Dict(etors)[e.name] == e.value
    decreases |etors|
  {
    if etors != [] {
      var init, last := etors[..|etors| - 1], etors[|etors| - 1];
      DictSpec(init);
      assert forall e :: e in etors <==> e in init || e == last;
    }
  }

  /** How many of the first n items are new. */
  ghost function NewAmong(ids: map<string, int>, prefix: string, items: seq<Item>, n: nat): nat
    requires n <= |items|
  {
    if n == 0 then 0
    else (if prefix + items[0].suffix !in ids then 1 else 0) + NewAmong(ids, prefix, items[1..], n - 1)
  }

  /** New ids are handed out one after the other. */
  lemma {:induction false} NewIdsConsecutive(ids: map<string, int>, prefix: string, items: seq<Item>, max: int, i: nat)
    requires i < |items| && prefix + items[i].suffix !in ids
    ensures Assign(ids, prefix, items, max)[i].value == max + 1 + NewAmong(ids, prefix, items, i)
    decreases i
  {
    if i > 0 {
      NewIdsConsecutive(ids, prefix, items[1..], if prefix + items[0].suffix !in ids then max + 1 else max, i - 1);
    }
  }

  /** Item i gets its old id, or a new one above all given before it. */
  lemma {:induction false} AssignSpec(ids: map<string, int>, prefix: string, items: seq<Item>, max: int)
    ensures var r := Assign(ids, prefix, items, max);
            && (forall i :: 0 <= i < |items| ==> r[i].name == prefix + items[i].suffix && r[i].desc == items[i].desc)
            && (forall i :: 0 <= i < |items| && r[i].name in ids ==> r[i].value == ids[r[i].name])
            && (forall i :: 0 <= i < |items| && r[i].name !in ids ==> r[i].value > max)
            && (forall i, j :: 0 <= i < j < |items| && r[i].name !in ids && r[j].name !in ids ==>
                  r[i].value < r[j].value)
    decreases |items|
  {
    if items != [] {
      var isNew := prefix + items[0].suffix !in ids;
      AssignSpec(ids, prefix, items[1..], if isNew then max + 1 else max);
    }
  }

  /** The ids assigned are all different. */
  lemma AssignDistinct(etors: seq<Etor>, prefix: string, items: seq<Item>)
    requires etors != [] && DistinctNames(etors) && DistinctValues(etors) && DistinctItems(items)
    ensures var r := Assign(Dict(etors), prefix, items, MaxValue(etors)); DistinctNames(r) && DistinctValues(r)
  {
    var ids := Dict(etors);
    var r := Assign(ids, prefix, items, MaxValue(etors));
    DictSpec(etors);
    AssignSpec(ids, prefix, items, MaxValue(etors));
    forall i, j | 0 <= i < j < |r|
      ensures r[i].name != r[j].name
    {
      assert (prefix + items[i].suffix)[|prefix|..] == items[i].suffix;
      assert (prefix + items[j].suffix)[|prefix|..] == items[j].suffix;
    }
    forall i, j | 0 <= i < j < |r|
      ensures r[i].value != r[j].value
    {
      assert r[i].name != r[j].name;
    }
  }

  ghost predicate Has(etors: seq<Etor>, prefix: string, item: Item) {
    exists e :: e in etors && e.name == prefix + item.suffix && e.desc == item.desc
  }

  /** One regeneration: exactly the items asked for; old ids kept, new ids above every old one; written in strictly
      increasing order of id, names and ids distinct. */
  lemma GenerateSpec(etors: seq<Etor>, prefix: string, items: seq<Item>)
    requires etors != [] && DistinctNames(etors) && DistinctValues(etors) && DistinctItems(items)
    ensures var r := Generate(etors, prefix, items);
            && |r| == |items|
            && (forall i :: 0 <= i < |items| ==> Has(r, prefix, items[i]))
            && (forall e :: e in r && e.name in Dict(etors) ==> e.value == Dict(etors)[e.name])
            && (forall e :: e in r && e.name !in Dict(etors) ==> e.value > MaxValue(etors))
            && Increasing(r) && DistinctNames(r)
  {
    hide Dict, Assign, SortBy, SortedBy, DistinctNames, DistinctValues, DistinctItems, Increasing;
    var a := Assign(Dict(etors), prefix, items, MaxValue(etors));
    var r := Generate(etors, prefix, items);
    AssignSpec(Dict(etors), prefix, items, MaxValue(etors));
    AssignDistinct(etors, prefix, items);
    SortSorts(a, ValueOf);
    SortedDistinct(a, r);
    SameMembers(a, r);
    forall i | 0 <= i < |items|
      ensures Has(r, prefix, items[i])
    {
      assert a[i] in r;
    }
  }

  lemma SortedDistinct(a: seq<Etor>, r: seq<Etor>)
    requires DistinctNames(a) && DistinctValues(a) && multiset(a) == multiset(r) && SortedBy(r, ValueOf)
    ensures Increasing(r) && DistinctNames(r)
  {
    PermutationNoDuplicates(a, r);
    SameMembers(a, r);
    forall i, j | 0 <= i < j < |r|
      ensures r[i].value < r[j].value && r[i].name != r[j].name
    {
      assert r[i] in r && r[j] in r;
      assert ValueOf(r[i]) <= ValueOf(r[j]);
    }
  }

  // ---------------------------------------------------------------- any number of regenerations

  ghost predicate Prefixed(etors: seq<Etor>, prefix: string) {
    forall e :: e in etors ==> prefix <= e.name
  }

  lemma GenerateShape(etors: seq<Etor>, prefix: string, items: seq<Item>)
    requires etors != []
    ensures Prefixed(Generate(etors, prefix, items), prefix)
    ensures |Generate(etors, prefix, items)| == |items|
  {
    var a := Assign(Dict(etors), prefix, items, MaxValue(etors));
    AssignSpec(Dict(etors), prefix, items, MaxValue(etors));
    SortSorts(a, ValueOf);
    SameMembers(a, Generate(etors, prefix, items));
  }

  /** Stripping the prefix and putting it back undo each other. */
  lemma PrefixRoundTrip(etors: seq<Etor>, prefix: string)
    ensures Strip(Load(etors, prefix), prefix) == etors
    ensures Prefixed(etors, prefix) ==> Load(Strip(etors, prefix), prefix) == etors
  {
    forall i | 0 <= i < |etors|
      ensures (prefix + etors[i].name)[|prefix|..] == etors[i].name
    {
    }
    if Prefixed(etors, prefix) {
      forall i | 0 <= i < |etors|
        ensures prefix + etors[i].name[|prefix|..] == etors[i].name
      {
        assert etors[i] in etors;
      }
    }
  }

  /** The loaded registry after regenerating from the file for each list in turn, through the file each time. */
  ghost function After(file: seq<Etor>, prefix: string, lists: seq<seq<Item>>): (r: seq<Etor>)
    requires file != [] && forall m :: 0 <= m < |lists| ==> lists[m] != []
    ensures r != [] && Prefixed(r, prefix)
    decreases |lists|
  {
    if lists == [] then Load(file, prefix)
    else
      var before := After(file, prefix, lists[..|lists| - 1]);
      PrefixRoundTrip(before, prefix);
      GenerateShape(before, prefix, lists[|lists| - 1]);
      Generate(Load(Strip(before, prefix), prefix), prefix, lists[|lists| - 1])
  }

  ghost predicate Regenerations(file: seq<Etor>, lists: seq<seq<Item>>) {
    && file != [] && DistinctNames(file) && DistinctValues(file)
    && forall m :: 0 <= m < |lists| ==> lists[m] != [] && DistinctItems(lists[m])
  }

  lemma AfterStep(file: seq<Etor>, prefix: string, lists: seq<seq<Item>>)
    requires Regenerations(file, lists) && lists != []
    ensures After(file, prefix, lists)
            == Generate(After(file, prefix, lists[..|lists| - 1]), prefix, lists[|lists| - 1])
  {
    PrefixRoundTrip(After(file, prefix, lists[..|lists| - 1]), prefix);
  }

  /** Names and ids are distinct after every regeneration, and ids are in strictly increasing order. */
  lemma {:induction false} AlwaysDistinct(file: seq<Etor>, prefix: string, lists: seq<seq<Item>>)
    requires Regenerations(file, lists)
    ensures DistinctNames(After(file, prefix, lists)) && DistinctValues(After(file, prefix, lists))
    ensures lists != [] ==> Increasing(After(file, prefix, lists))
    decreases |lists|
  {
    if lists == [] {
      forall i, j | 0 <= i < j < |file|
        ensures prefix + file[i].name != prefix + file[j].name
      {
        assert (prefix + file[i].name)[|prefix|..] == file[i].name;
        assert (prefix + file[j].name)[|prefix|..] == file[j].name;
      }
    } else {
      AlwaysDistinct(file, prefix, lists[..|lists| - 1]);
      AfterStep(file, prefix, lists);
      GenerateSpec(After(file, prefix, lists[..|lists| - 1]), prefix, lists[|lists| - 1]);
    }
  }

  /** Each new id exceeds every id of the registry its regeneration started from. */
  lemma NewIdsAbove(file: seq<Etor>, prefix: string, lists: seq<seq<Item>>)
    requires Regenerations(file, lists) && lists != []
    ensures var before := After(file, prefix, lists[..|lists| - 1]);
            forall e, d :: e in After(file, prefix, lists) && e.name !in Dict(before) && d in before ==>
              e.value > d.value
  {
    hide Dict, Generate, DistinctNames, DistinctValues, DistinctItems, Increasing, Prefixed;
    AlwaysDistinct(file, prefix, lists[..|lists| - 1]);
    AfterStep(file, prefix, lists);
    GenerateSpec(After(file, prefix, lists[..|lists| - 1]), prefix, lists[|lists| - 1]);
  }

  ghost predicate Asks(items: seq<Item>, suffix: string) {
    exists i :: 0 <= i < |items| && items[i].suffix == suffix
  }

  ghost predicate Registered(etors: seq<Etor>, name: string, id: int) {
    name in Dict(etors) && Dict(etors)[name] == id
  }

  /** A name that has an id after n regenerations and is asked for ever after keeps it. */
  lemma {:induction false} IdsStable(file: seq<Etor>, prefix: string, lists: seq<seq<Item>>, n: nat, suffix: string,
                                     id: int)
    requires Regenerations(file, lists) && n <= |lists|
    requires forall m :: n <= m < |lists| ==> Asks(lists[m], suffix)
    ensures Registered(After(file, prefix, lists[..n]), prefix + suffix, id) ==>
              Registered(After(file, prefix, lists), prefix + suffix, id)
    decreases |lists|
  {
    hide Generate, DistinctNames, DistinctValues, DistinctItems, Increasing, Prefixed;
    if n == |lists| {
      assert lists[..n] == lists;
    } else if Registered(After(file, prefix, lists[..n]), prefix + suffix, id) {
      var init, items := lists[..|lists| - 1], lists[|lists| - 1];
      assert init[..n] == lists[..n];
      IdsStable(file, prefix, init, n, suffix, id);
      AfterStep(file, prefix, lists);
      AlwaysDistinct(file, prefix, init);
      KeptByGenerate(After(file, prefix, init), prefix, items, suffix);
    }
  }

  lemma KeptByGenerate(etors: seq<Etor>, prefix: string, items: seq<Item>, suffix: string)
    requires etors != [] && DistinctNames(etors) && DistinctValues(etors) && DistinctItems(items)
    requires prefix + suffix in Dict(etors) && Asks(items, suffix)
    ensures var ids := Dict(Generate(etors, prefix, items));
            prefix + suffix in ids && ids[prefix + suffix] == Dict(etors)[prefix + suffix]
  {
    GenerateSpec(etors, prefix, items);
    DictSpec(Generate(etors, prefix, items));
    var i :| 0 <= i < |items| && items[i].suffix == suffix;
    assert Has(Generate(etors, prefix, items), prefix, items[i]);
  }

  // ---------------------------------------------------------------- nothing changed

  /** Items whose names the dictionary knows get those ids, whatever the highest id is. */
  lemma {:induction false} AssignKnown(ids: map<string, int>, prefix: string, items: seq<Item>, max: int, r: seq<Etor>)
    requires |r| == |items|
    requires forall i :: 0 <= i < |r| ==> r[i].name == prefix + items[i].suffix && r[i].desc == items[i].desc
    requires forall i :: 0 <= i < |r| ==> r[i].name in ids && ids[r[i].name] == r[i].value
    ensures Assign(ids, prefix, items, max) == r
    decreases |items|
  {
    if items != [] {
      AssignKnown(ids, prefix, items[1..], max, r[1..]);
      assert r == [r[0]] + r[1..];
    }
  }

  /** Regenerating through the file for an unchanged list reproduces the registry, order, ids and descriptions. */
  lemma UnchangedListIsIdentity(etors: seq<Etor>, prefix: string, items: seq<Item>)
    requires etors != [] && DistinctNames(etors) && DistinctValues(etors)
    requires items != [] && DistinctItems(items)
    ensures var r := Generate(etors, prefix, items);
            && Prefixed(r, prefix) && r != []
            && Generate(Load(Strip(r, prefix), prefix), prefix, items) == r
  {
    hide Dict, SortBy, SortedBy, DistinctValues, DistinctItems, Increasing, Prefixed;
    var a := Assign(Dict(etors), prefix, items, MaxValue(etors));
    var r := Generate(etors, prefix, items);
    GenerateShape(etors, prefix, items);
    PrefixRoundTrip(r, prefix);
    AssignSpec(Dict(etors), prefix, items, MaxValue(etors));
    GenerateSpec(etors, prefix, items);
    DictSpec(r);
    SortSorts(a, ValueOf);
    SameMembers(a, r);
    assert forall i :: 0 <= i < |a| ==> a[i] in r;
    AssignKnown(Dict(r), prefix, items, MaxValue(r), a);
  }

  // ---------------------------------------------------------------- the generators

  const FUNCTION_PREFIX := "$X_FUNCTION_"
  const STRUCTURE_PREFIX := "$X_STRUCTURE_TYPE_"
  const EXPERIMENTAL := "$x_exp_"

  /** An extended structure: its name, and the enumerator its `stype` member is initialised with. */
  datatype Struct = Struct(name: string, suffix: string)

  /** Experimental structures get no enumerator; for the others the structure's name is the description. */
  function StructItems(structs: seq<Struct>): seq<Item> {
    if structs == [] then []
    else if EXPERIMENTAL <= structs[0].name then StructItems(structs[1..])
    else [Item(structs[0].suffix, structs[0].name)] + StructItems(structs[1..])
  }

  /** Item i is that of structure at[i]. */
  ghost predicate ItemsAt(items: seq<Item>, structs: seq<Struct>, at: seq<nat>) {
    |at| == |items| &&
    forall i :: 0 <= i < |at| ==> at[i] < |structs| && items[i] == Item(structs[at[i]].suffix, structs[at[i]].name)
  }

  /** The structures that get an enumerator are exactly those without the prefix, in their order. */
  lemma StructItemsSpec(structs: seq<Struct>) returns (at: seq<nat>)
    ensures ItemsAt(StructItems(structs), structs, at) && forall i, j :: 0 <= i < j < |at| ==> at[i] < at[j]
    ensures forall k: nat :: k in at <==> k < |structs| && !("$x_exp_" <= structs[k].name)
  {
    at := StructItemsFrom(structs, 0);
    assert structs[0..] == structs;
  }

  lemma {:induction false} StructItemsFrom(structs: seq<Struct>, n: nat) returns (at: seq<nat>)
    requires n <= |structs|
    ensures ItemsAt(StructItems(structs[n..]), structs, at) && forall i, j :: 0 <= i < j < |at| ==> at[i] < at[j]
    ensures forall k: nat :: k in at <==> n <= k < |structs| && !("$x_exp_" <= structs[k].name)
    decreases |structs| - n
  {
    if n == |structs| {
      at := [];
    } else {
      var rest := StructItemsFrom(structs, n + 1);
      assert structs[n..][1..] == structs[n + 1..];
      assert forall i :: 0 <= i < |rest| ==> rest[i] in rest;
      at := if "$x_exp_" <= structs[n].name then rest else [n] + rest;
    }
  }

  function FirstMatch(etors: seq<Etor>, name: string): Option<int> {
    if etors == [] then None
    else if etors[0].name == name then Some(etors[0].value)
    else FirstMatch(etors[1..], name)
  }

  /** The dictionary of first matches: of two entries with one name the earlier counts. */
  function FirstDict(etors: seq<Etor>): map<string, int> {
    if etors == [] then map[] else FirstDict(etors[1..])[etors[0].name := etors[0].value]
  }

  lemma {:induction false} FirstMatchSpec(etors: seq<Etor>, name: string)
    ensures FirstMatch(etors, name) == if name in FirstDict(etors) then Some(FirstDict(etors)[name]) else None
    ensures name in FirstDict(etors) ==> exists e :: e in etors && e.name == name && e.value == FirstDict(etors)[name]
    ensures name !in FirstDict(etors) ==> forall e :: e in etors ==> e.name != name
    decreases |etors|
  {
    if etors != [] {
      FirstMatchSpec(etors[1..], name);
      assert forall e :: e in etors <==> e == etors[0] || e in etors[1..];
    }
  }

  /** Of entries with one name the last counts in the dictionary. */
  lemma {:induction false} LastCounts(etors: seq<Etor>, i: nat)
    requires i < |etors| && forall j :: i < j < |etors| ==> etors[j].name != etors[i].name
    ensures etors[i].name in Dict(etors) && Dict(etors)[etors[i].name] == etors[i].value
    decreases |etors|
  {
    if i < |etors| - 1 {
      LastCounts(etors[..|etors| - 1], i);
    }
  }

  /** Of entries with one name the first is matched. */
  lemma {:induction false} FirstCounts(etors: seq<Etor>, i: nat)
    requires i < |etors| && forall j :: 0 <= j < i ==> etors[j].name != etors[i].name
    ensures FirstMatch(etors, etors[i].name) == Some(etors[i].value)
    decreases |etors|
  {
    if i > 0 {
      assert etors[i] == etors[1..][i - 1];
      FirstCounts(etors[1..], i - 1);
    }
  }

  /** While names are distinct, the first entry with a name is the only one. */
  lemma FirstMatchIsDict(etors: seq<Etor>)
    requires DistinctNames(etors)
    ensures FirstDict(etors) == Dict(etors)
  {
    DictSpec(etors);
    forall name
      ensures name in FirstDict(etors) <==> name in Dict(etors)
      ensures name in Dict(etors) ==> FirstDict(etors)[name] == Dict(etors)[name]
    {
      FirstMatchSpec(etors, name);
    }
  }

  /** One structure: what it adds, and the highest id after it. */
  lemma StructStep(ids: map<string, int>, prefix: string, structs: seq<Struct>, k: nat, max: int)
    requires k < |structs|
    ensures var name, rest := prefix + structs[k].suffix, StructItems(structs[k + 1..]);
            Assign(ids, prefix, StructItems(structs[k..]), max)
            == if EXPERIMENTAL <= structs[k].name then Assign(ids, prefix, rest, max)
               else if name in ids then [Etor(name, structs[k].name, ids[name])] + Assign(ids, prefix, rest, max)
               else [Etor(name, structs[k].name, max + 1)] + Assign(ids, prefix, rest, max + 1)
  {
    assert structs[k..][1..] == structs[k + 1..];
    if !(EXPERIMENTAL <= structs[k].name) {
      assert StructItems(structs[k..])[1..] == StructItems(structs[k + 1..]);
    }
  }

  lemma NoStructs(ids: map<string, int>, prefix: string, structs: seq<Struct>, max: int)
    ensures Assign(ids, prefix, StructItems(structs[|structs|..]), max) == [] && structs[0..] == structs
  {
  }

  lemma PrefixedNone(prefix: string)
    ensures Prefixed([], prefix)
  {
  }

  lemma PrefixedMore(etors: seq<Etor>, prefix: string, e: Etor)
    requires Prefixed(etors, prefix) && prefix <= e.name
    ensures Prefixed(etors + [e], prefix)
  {
  }

  lemma PrefixedSorted(etors: seq<Etor>, prefix: string)
    requires Prefixed(etors, prefix)
    ensures var r := SortBy(etors, ValueOf);
            Prefixed(r, prefix) && forall e :: e in r ==> |prefix| <= |e.name|
  {
    SortSorts(etors, ValueOf);
    SameMembers(etors, SortBy(etors, ValueOf));
  }

  class EnumType {
    var etors: seq<Etor>

    constructor (etors: seq<Etor>)
      ensures this.etors == etors
    {
      this.etors := etors;
    }

    /** The maximum of an empty enumeration raises, and leaves it as it was. */
    method GenerateFunctionType(functions: seq<Item>) returns (written: Option<seq<Etor>>)
      modifies this
      ensures old(etors) == [] ==> written == None && etors == []
      ensures old(etors) != [] ==> etors == Generate(old(etors), FUNCTION_PREFIX, functions)
      ensures old(etors) != [] ==> Prefixed(etors, "$X_FUNCTION_") && written == Some(Strip(etors, FUNCTION_PREFIX))
    {
      if etors == [] {
        return None;
      }
      var ids, max, prefix := Dict(etors), MaxValue(etors), FUNCTION_PREFIX;
      var registry: seq<Etor> := [];
      for k := 0 to |functions|
        invariant etors == old(etors)
        invariant registry + Assign(ids, prefix, functions[k..], max) == Assign(ids, prefix, functions, MaxValue(etors))
      {
        var name := prefix + functions[k].suffix;
        var id;
        if name in ids {
          id := ids[name];
        } else {
          max := max + 1;
          id := max;
        }
        assert functions[k..][1..] == functions[k + 1..];
        registry := registry + [Etor(name, functions[k].desc, id)];
      }
      assert registry == Assign(ids, prefix, functions, MaxValue(etors));
      GenerateShape(etors, prefix, functions);
      etors := SortBy(registry, ValueOf);
      written := Some(Strip(etors, prefix));
    }

    method GenerateStructureType(structs: seq<Struct>) returns (written: Option<seq<Etor>>)
      modifies this
      ensures old(etors) == [] ==> written == None && etors == []
      ensures old(etors) != [] ==>
        etors == GenerateWith(FirstDict(old(etors)), old(etors), STRUCTURE_PREFIX, StructItems(structs))
      ensures old(etors) != [] && DistinctNames(old(etors)) ==>
        etors == Generate(old(etors), STRUCTURE_PREFIX, StructItems(structs))
      ensures old(etors) != [] ==> Prefixed(etors, "$X_STRUCTURE_TYPE_")
      ensures old(etors) != [] ==> written == Some(Strip(etors, STRUCTURE_PREFIX))
    {
      hide DistinctNames, Dict, FirstDict, FirstMatch, SortBy, Prefixed, MaxValue, Assign, StructItems;
      if etors == [] {
        return None;
      }
      var max, prefix := MaxValue(etors), STRUCTURE_PREFIX;
      ghost var ids, items := FirstDict(etors), StructItems(structs);
      ghost var all := Assign(ids, prefix, items, max);
      var registry: seq<Etor> := [];
      PrefixedNone(prefix);
      NoStructs(ids, prefix, structs, max);
      for k := 0 to |structs|
        invariant etors == old(etors)
        invariant Prefixed(registry, prefix)
        invariant registry + Assign(ids, prefix, StructItems(structs[k..]), max) == all
      {
        StructStep(ids, prefix, structs, k, max);
        if EXPERIMENTAL <= structs[k].name {
          continue;
        }
        var name := prefix + structs[k].suffix;
        FirstMatchSpec(etors, name);
        var matched := FirstMatch(etors, name);
        var id;
        if matched.None? {
          max := max + 1;
          id := max;
        } else {
          id := matched.value;
        }
        PrefixedMore(registry, prefix, Etor(name, structs[k].name, id));
        registry := registry + [Etor(name, structs[k].name, id)];
      }
      NoStructs(ids, prefix, structs, max);
      assert registry == all;
      if DistinctNames(etors) {
        FirstMatchIsDict(etors);
      }
      etors := SortBy(registry, ValueOf);
      PrefixedSorted(registry, prefix);
      written := Some(Strip(etors, prefix));
    }
  }
}
