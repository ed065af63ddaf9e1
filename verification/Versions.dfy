/**
 Versions of specification objects: the ordering of scripts/version.py, and in scripts/parse_specs.py the check that the
 versions of parameters or members increase, and the filter by version. The check takes an item without a version to
 have its object's version; the filter takes it to have the default version.
 */
module Versions {
  import opened Options

  datatype Version = Version(major: nat, minor: nat) {
    predicate Less(other: Version) {
      major < other.major || (major == other.major && minor < other.minor)
    }

    predicate AtMost(other: Version) {
      Less(other) || this == other
    }
  }

  const DEFAULT := Version(0, 12)

  /** A parameter of a function or a member of a structure. */
  datatype Item = Item(name: string, version: Option<Version>)

  datatype Object = Object(version: Option<Version>, items: seq<Item>)

  function Or(v: Option<Version>, default: Version): Version {
    if v.Some? then v.value else default
  }

  function ObjectVersion(d: Object): Version { Or(d.version, DEFAULT) }

  /** The versions the check sees never decrease, from the object's own on. */
  ghost predicate Valid(d: Object) {
    var own := ObjectVersion(d);
    && (forall i :: 0 <= i < |d.items| ==> own.AtMost(Or(d.items[i].version, own)))
    && (forall i, j :: 0 <= i < j < |d.items| ==> Or(d.items[i].version, own).AtMost(Or(d.items[j].version, own)))
  }

  method Validate(d: Object) returns (ok: bool)
    ensures ok == Valid(d)
  {
    var own := ObjectVersion(d);
    var highest := own;
    for k := 0 to |d.items|
      invariant own.AtMost(highest)
      invariant forall i :: 0 <= i < k ==> own.AtMost(Or(d.items[i].version, own))
      invariant forall i :: 0 <= i < k ==> Or(d.items[i].version, own).AtMost(highest)
      invariant forall i, j :: 0 <= i < j < k ==> Or(d.items[i].version, own).AtMost(Or(d.items[j].version, own))
      invariant highest == if k == 0 then own else Or(d.items[k - 1].version, own)
    {
      var version := Or(d.items[k].version, own);
      if version.Less(highest) {
        return false;
      }
      highest := version;
    }
    return true;
  }

  predicate Kept(item: Item, max: Version) { Or(item.version, DEFAULT).AtMost(max) }

  function FilterItems(items: seq<Item>, max: Version): seq<Item> {
    if items == [] then []
    else FilterItems(items[..|items| - 1], max) + (if Kept(items[|items| - 1], max) then [items[|items| - 1]] else [])
  }

  function Filter(d: Object, max: Version): Option<Object> {
    if max.Less(ObjectVersion(d)) then None else Some(d.(items := FilterItems(d.items, max)))
  }

  method FilterVersion(d: Object, max: Version) returns (r: Option<Object>)
    ensures r == Filter(d, max)
  {
    if max.Less(ObjectVersion(d)) {
      return None;
    }
    var kept: seq<Item> := [];
    for k := 0 to |d.items|
      invariant kept == FilterItems(d.items[..k], max)
    {
      assert d.items[..k + 1][..k] == d.items[..k];
      if Kept(d.items[k], max) {
        kept := kept + [d.items[k]];
      }
    }
    assert d.items[..|d.items|] == d.items;
    return Some(d.(items := kept));
  }

  /** In numbers: an object survives if its version is not above the limit, and keeps the items whose versions are not,
      0.12 being the version of what has none. */
  lemma FilterKeeps(d: Object, max: Version, x: Item)
    ensures Filter(d, max).Some? <==> NotAbove(d.version, max)
    ensures Filter(d, max).Some? ==> Filter(d, max).value.version == d.version
    ensures Filter(d, max).Some? ==> (x in Filter(d, max).value.items <==> x in d.items && NotAbove(x.version, max))
  {
    ItemsKept(d.items, max, x);
  }

  ghost predicate NotAbove(v: Option<Version>, max: Version) {
    var major, minor := if v.Some? then v.value.major else 0, if v.Some? then v.value.minor else 12;
    major < max.major || (major == max.major && minor <= max.minor)
  }

  lemma {:induction false} ItemsKept(items: seq<Item>, max: Version, x: Item)
    ensures x in FilterItems(items, max) <==> x in items && NotAbove(x.version, max)
    decreases |items|
  {
    if items != [] {
      ItemsKept(items[..|items| - 1], max, x);
      assert items == items[..|items| - 1] + [items[|items| - 1]];
    }
  }

  // ---------------------------------------------------------------- prefixes

  predicate AllKept(items: seq<Item>, max: Version) { forall x :: x in items ==> Kept(x, max) }

  predicate NoneKept(items: seq<Item>, max: Version) { forall x :: x in items ==> !Kept(x, max) }

  lemma {:induction false} FilterFacts(items: seq<Item>, max: Version)
    ensures AllKept(FilterItems(items, max), max)
    ensures AllKept(items, max) ==> FilterItems(items, max) == items
    ensures FilterItems(items, max) == [] <==> NoneKept(items, max)
    decreases |items|
  {
    hide Kept;
    if items != [] {
      var init, last := items[..|items| - 1], items[|items| - 1];
      assert items == init + [last];
      FilterFacts(init, max);
      assert last in items;
    }
  }

  lemma {:induction false} FilterConcat(a: seq<Item>, b: seq<Item>, max: Version)
    ensures FilterItems(a + b, max) == FilterItems(a, max) + FilterItems(b, max)
    decreases |b|
  {
    if b == [] {
      assert a + b == a;
    } else {
      var init := b[..|b| - 1];
      FilterConcat(a, init, max);
      assert (a + b)[..|a + b| - 1] == a + init;
    }
  }

  /** Nothing is kept after something dropped. */
  ghost predicate KeepsFront(items: seq<Item>, max: Version) {
    forall i, j :: 0 <= i < j < |items| && Kept(items[j], max) ==> Kept(items[i], max)
  }

  lemma FilterIsPrefix(items: seq<Item>, max: Version)
    ensures FilterItems(items, max) <= items <==> KeepsFront(items, max)
  {
    hide FilterItems, Kept;
    if FilterItems(items, max) <= items {
      var n := |FilterItems(items, max)|;
      FilterFacts(items, max);
      Parts(items, n, max);
      assert forall i :: 0 <= i < n ==> items[i] in items[..n];
      assert forall j :: n <= j < |items| ==> items[j] in items[n..];
    }
    if KeepsFront(items, max) {
      var n := FrontLength(items, max);
      Parts(items, n, max);
    }
  }

  /** If the first n items are kept, the filter keeps just those exactly when it drops all others. */
  lemma Parts(items: seq<Item>, n: nat, max: Version)
    requires n <= |items| && AllKept(items[..n], max)
    ensures FilterItems(items, max) == items[..n] <==> NoneKept(items[n..], max)
  {
    hide FilterItems, AllKept, NoneKept;
    var a, b := items[..n], items[n..];
    assert items == a + b;
    FilterConcat(a, b, max);
    FilterFacts(a, max);
    FilterFacts(b, max);
  }

  lemma FrontLength(items: seq<Item>, max: Version) returns (n: nat)
    requires KeepsFront(items, max)
    ensures n <= |items| && AllKept(items[..n], max) && NoneKept(items[n..], max)
  {
    hide Kept;
    n := 0;
    while n < |items| && Kept(items[n], max)
      invariant n <= |items| && forall i :: 0 <= i < n ==> Kept(items[i], max)
    {
      n := n + 1;
    }
  }

  /** Every filter that the object itself survives keeps a prefix of its items. */
  ghost predicate PrefixStable(d: Object) {
    forall max :: Filter(d, max).Some? ==> Filter(d, max).value.items <= d.items
  }

  /** An item without a version stands before one with a version older than the default. */
  ghost predicate OldAfterUnversioned(d: Object) {
    exists i, j :: 0 <= i < j < |d.items| && d.items[i].version.None? && d.items[j].version.Some?
                   && d.items[j].version.value.Less(DEFAULT)
  }

  /** A validated object is prefix-stable exactly when no unversioned item stands before one older than the default. */
  lemma PrefixStableExactly(d: Object)
    requires Valid(d)
    ensures PrefixStable(d) <==> !OldAfterUnversioned(d)
  {
    if OldAfterUnversioned(d) {
      var i, j :| 0 <= i < j < |d.items| && d.items[i].version.None? && d.items[j].version.Some?
                  && d.items[j].version.value.Less(DEFAULT);
      var max := d.items[j].version.value;
      assert Kept(d.items[j], max) && !Kept(d.items[i], max);
      FilterIsPrefix(d.items, max);
      assert Filter(d, max).Some?;
    } else {
      forall max | Filter(d, max).Some?
        ensures Filter(d, max).value.items <= d.items
      {
        FilterIsPrefix(d.items, max);
      }
    }
  }

  /** Such objects pass validation: a filter at version 0.7 drops the first item of this one and keeps the second. */
  lemma ValidYetNotStable()
    ensures var d := Object(Some(Version(0, 6)), [Item("a", None), Item("b", Some(Version(0, 7)))]);
            && Valid(d) && !PrefixStable(d)
            && Filter(d, Version(0, 7)) == Some(d.(items := [Item("b", Some(Version(0, 7)))]))
  {
    hide FilterItems;
    var a, b := Item("a", None), Item("b", Some(Version(0, 7)));
    var d := Object(Some(Version(0, 6)), [a, b]);
    assert d.items[0].version.None? && d.items[1].version == Some(Version(0, 7));
    PrefixStableExactly(d);
    FilterPair(a, b, Version(0, 7));
  }

  lemma FilterPair(a: Item, b: Item, max: Version)
    requires !Kept(a, max) && Kept(b, max)
    ensures FilterItems([a, b], max) == [b]
  {
    assert [a, b][..1] == [a] && [a][..0] == [];
    assert FilterItems([], max) == [] && FilterItems([a], max) == [];
  }

  /** An object without a version of its own is prefix-stable, and a smaller version keeps a prefix of what a greater
      one keeps. */
  lemma UnversionedObject(d: Object, a: Version, b: Version)
    requires Valid(d) && d.version.None? && a.AtMost(b) && Filter(d, a).Some?
    ensures PrefixStable(d)
    ensures Filter(d, b).Some? && Filter(d, a).value.items <= Filter(d, b).value.items
  {
    PrefixStableExactly(d);
    FilterTwice(d, b, a);
    FilterIsPrefix(d.items, a);
    var kept := Filter(d, b).value.items;
    assert kept <= d.items;
    var x := FilterItems(d.items, a);
    assert x == FilterItems(kept, a);
    FilterShorter(kept, a);
  }

  lemma {:induction false} FilterShorter(items: seq<Item>, max: Version)
    ensures |FilterItems(items, max)| <= |items|
    decreases |items|
  {
    if items != [] {
      FilterShorter(items[..|items| - 1], max);
    }
  }

  /** Filtering twice keeps what filtering once at the smaller version keeps. */
  lemma FilterTwice(d: Object, a: Version, b: Version)
    ensures var smaller := if a.AtMost(b) then a else b;
            Filter(d, smaller) == if Filter(d, a).None? then None else Filter(Filter(d, a).value, b)
  {
    ItemsTwice(d.items, a, b);
  }

  lemma {:induction false} ItemsTwice(items: seq<Item>, a: Version, b: Version)
    ensures FilterItems(FilterItems(items, a), b) == FilterItems(items, if a.AtMost(b) then a else b)
    decreases |items|
  {
    if items != [] {
      var init, last := items[..|items| - 1], items[|items| - 1];
      ItemsTwice(init, a, b);
      FilterConcat(FilterItems(init, a), if Kept(last, a) then [last] else [], b);
      assert [last][..0] == [];
    }
  }
}
