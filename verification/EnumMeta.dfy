/**
 Enumeration metadata of scripts/parse_specs.py: enumerator values, their validation, and the checks that generated
 code makes from the metadata (a mask for flags, a maximum for the others).
 */
module EnumMeta {
  import opened Options
  import V = Versions

  /** How an enumerator's value may be written; Absent means one more than the previous value. */
  datatype Value = Version(major: nat, minor: nat) | Bit(n: nat) | Hex(h: nat) | Decimal(d: int) | Absent

  datatype Etor = Etor(name: string, value: Value)

  function Pow2(n: nat): nat { if n == 0 then 1 else 2 * Pow2(n - 1) }

  function EtorValue(v: Value, prev: int): int {
    match v
    case Version(major, minor) => major * 0x10000 + minor
    case Bit(n) => Pow2(n)
    case Hex(x) => x
    case Decimal(x) => x
    case Absent => prev + 1
  }

  /** How a version is encoded. */
  function Encoded(v: V.Version): int { EtorValue(Version(v.major, v.minor), -1) }

  /** An encoded version compares as the version does with all versions whose minor number is below 2^16 if and only if
      its own is. */
  lemma VersionsEncodeInOrder(a: V.Version)
    ensures (forall b: V.Version :: b.minor < 0x10000 ==> (a.Less(b) <==> Encoded(a) < Encoded(b)))
            <==> a.minor < 0x10000
  {
    var next := V.Version.Version(a.major + 1, 0);
    assert a.Less(next) && Encoded(next) == (a.major + 1) * 0x10000;
  }

  function Values(etors: seq<Etor>, prev: int): (r: seq<int>)
    ensures |r| == |etors|
  {
    if etors == [] then []
    else
      var v := EtorValue(etors[0].value, prev);
      [v] + Values(etors[1..], v)
  }

  /** Values are the numbers written; one that is not written is one more than the value before it. */
  lemma {:induction false} WrittenValues(etors: seq<Etor>, prev: int, i: nat)
    requires i < |etors|
    ensures var value, values := etors[i].value, Values(etors, prev);
            && (value.Decimal? ==> values[i] == value.d)
            && (value.Hex? ==> values[i] == value.h)
            && (value.Bit? ==> values[i] == Pow2(value.n))
            && (value.Version? && value.minor < 0x10000 ==>
                  values[i] / 0x10000 == value.major && values[i] % 0x10000 == value.minor)
            && (value.Absent? ==> values[i] == (if i == 0 then prev else values[i - 1]) + 1)
    decreases i
  {
    if i > 0 {
      WrittenValues(etors[1..], EtorValue(etors[0].value, prev), i - 1);
    }
  }

  /** An enumeration written in numbers. */
  ghost predicate InNumbers(etors: seq<Etor>) {
    forall i :: 0 <= i < |etors| ==> etors[i].value.Decimal? || etors[i].value.Hex?
  }

  ghost function Number(e: Etor): int
    requires e.value.Decimal? || e.value.Hex?
  {
    if e.value.Decimal? then e.value.d else e.value.h
  }

  lemma NumbersAreValues(etors: seq<Etor>)
    requires InNumbers(etors)
    ensures forall i :: 0 <= i < |etors| ==> Values(etors, -1)[i] == Number(etors[i])
  {
    hide Values;
    forall i | 0 <= i < |etors|
      ensures Values(etors, -1)[i] == Number(etors[i])
    {
      WrittenValues(etors, -1, i);
    }
  }

  /** Which enumerations written in numbers or in bits are valid. */
  lemma ValidExactly(etors: seq<Etor>)
    ensures InNumbers(etors) ==>
              (Valid(false, etors) <==> forall i :: 0 <= i < |etors| ==> Number(etors[i]) < 0x7fff_ffff)
    ensures Valid(true, etors) <==> forall i :: 0 <= i < |etors| ==> etors[i].value.Bit? && etors[i].value.n <= 30
  {
    hide Values;
    if InNumbers(etors) {
      NumbersAreValues(etors);
    }
    if forall i :: 0 <= i < |etors| ==> etors[i].value.Bit? {
      forall i | 0 <= i < |etors|
        ensures Values(etors, -1)[i] < 0x7fff_ffff <==> etors[i].value.n <= 30
      {
        WrittenValues(etors, -1, i);
        BitInRange(etors[i].value.n);
      }
    }
  }

  lemma BitInRange(n: nat)
    ensures Pow2(n) < 0x7fff_ffff <==> n <= 30
  {
    Pow2At31();
    if n <= 30 {
      Pow2Grows(n, 30);
    } else {
      Pow2Grows(31, n);
    }
  }

  /** The checks on values: flags and only flags are written as bits, and every value is below 0x7fffffff. */
  predicate Valid(isFlags: bool, etors: seq<Etor>) {
    && (forall i :: 0 <= i < |etors| ==> etors[i].value.Bit? == isFlags)
    && (var values := Values(etors, -1); forall i :: 0 <= i < |etors| ==> values[i] < 0x7fff_ffff)
  }

  method ValidateEtors(isFlags: bool, etors: seq<Etor>) returns (ok: bool)
    ensures ok == Valid(isFlags, etors)
  {
    var value := -1;
    for i := 0 to |etors|
      invariant forall j :: 0 <= j < i ==> etors[j].value.Bit? == isFlags
      invariant forall j :: 0 <= j < i ==> Values(etors, -1)[j] < 0x7fff_ffff
      invariant Values(etors, -1)[i..] == Values(etors[i..], value)
    {
      value := EtorValue(etors[i].value, value);
      assert value == Values(etors, -1)[i..][0];
      assert etors[i..][1..] == etors[i + 1..];
      assert Values(etors, -1)[i..][1..] == Values(etors, -1)[i + 1..];
      if etors[i].value.Bit? != isFlags || value >= 0x7fff_ffff {
        return false;
      }
    }
    return true;
  }

  // ---------------------------------------------------------------- bits of numbers

  /** Bit c of a number. */
  predicate HasBit(x: nat, c: nat) {
    if c == 0 then x % 2 == 1 else HasBit(x / 2, c - 1)
  }

  /** x | y. */
  function Or(x: nat, y: nat): (r: nat)
    ensures r >= x && r >= y
  {
    if x == 0 then y else (if x % 2 == 1 || y % 2 == 1 then 1 else 0) + 2 * Or(x / 2, y / 2)
  }

  /** The lowest w bits. */
  function Low(x: nat, w: nat): (r: nat)
    ensures r < Pow2(w)
  {
    if w == 0 then 0 else x % 2 + 2 * Low(x / 2, w - 1)
  }

  /** x & y on the lowest w bits. */
  function And(x: nat, y: nat, w: nat): (r: nat)
    ensures r < Pow2(w)
  {
    if w == 0 then 0 else (if x % 2 == 1 && y % 2 == 1 then 1 else 0) + 2 * And(x / 2, y / 2, w - 1)
  }

  lemma {:induction false} OrBits(x: nat, y: nat, c: nat)
    ensures HasBit(Or(x, y), c) <==> HasBit(x, c) || HasBit(y, c)
    decreases c
  {
    if x == 0 {
      ZeroBits(c);
    } else {
      var rest := Or(x / 2, y / 2);
      assert Or(x, y) == 2 * rest || Or(x, y) == 2 * rest + 1;
      if c > 0 {
        OrBits(x / 2, y / 2, c - 1);
      }
    }
  }

  lemma {:induction false} LowBits(x: nat, w: nat, c: nat)
    requires c < w
    ensures HasBit(Low(x, w), c) <==> HasBit(x, c)
    decreases c
  {
    if c > 0 {
      LowBits(x / 2, w - 1, c - 1);
    }
  }

  lemma {:induction false} AndBits(x: nat, y: nat, w: nat, c: nat)
    requires c < w
    ensures HasBit(And(x, y, w), c) <==> HasBit(x, c) && HasBit(y, c)
    decreases c
  {
    var rest := And(x / 2, y / 2, w - 1);
    assert And(x, y, w) == 2 * rest || And(x, y, w) == 2 * rest + 1;
    if c > 0 {
      AndBits(x / 2, y / 2, w - 1, c - 1);
    }
  }

  /** c_uint32(~x), for any width: the bits flip. */
  lemma {:induction false} ComplementBits(x: nat, w: nat, c: nat)
    requires c < w && x < Pow2(w)
    ensures HasBit(Pow2(w) - 1 - x, c) <==> !HasBit(x, c)
    decreases c
  {
    if c > 0 {
      ComplementBits(x / 2, w - 1, c - 1);
      assert (Pow2(w) - 1 - x) / 2 == Pow2(w - 1) - 1 - x / 2;
    }
  }

  lemma {:induction false} Pow2Bits(n: nat, c: nat)
    ensures HasBit(Pow2(n), c) <==> c == n
    decreases c
  {
    if n == 0 && c > 0 {
      ZeroBits(c - 1);
    } else if c > 0 {
      Pow2Bits(n - 1, c - 1);
    }
  }

  lemma {:induction false} ZeroBits(c: nat)
    ensures !HasBit(0, c)
    decreases c
  {
    if c > 0 {
      ZeroBits(c - 1);
    }
  }

  /** A number that is not zero has a bit. */
  lemma {:induction false} SomeBit(x: nat, w: nat) returns (c: nat)
    requires 0 < x < Pow2(w)
    ensures c < w && HasBit(x, c)
    decreases w
  {
    if x % 2 == 1 {
      c := 0;
    } else {
      var d := SomeBit(x / 2, w - 1);
      c := d + 1;
    }
  }

  // ---------------------------------------------------------------- flags

  const WORD := 32

  /** The union of the declared bits, of any width. */
  function BitMask(etors: seq<Etor>): (m: nat)
    requires forall i :: 0 <= i < |etors| ==> etors[i].value.Bit?
    ensures m == 0 <==> etors == []
  {
    if etors == [] then 0
    else
      var n := etors[|etors| - 1].value.n;
      Pow2Positive(n); Or(BitMask(etors[..|etors| - 1]), Pow2(n))
  }

  lemma {:induction false} Pow2Positive(n: nat)
    ensures Pow2(n) > 0
  {
    if n > 0 {
      Pow2Positive(n - 1);
    }
  }

  ghost predicate Declares(etors: seq<Etor>, c: nat) {
    exists i :: 0 <= i < |etors| && etors[i].value == Bit(c)
  }

  lemma {:induction false} BitMaskSpec(etors: seq<Etor>, c: nat)
    requires forall i :: 0 <= i < |etors| ==> etors[i].value.Bit?
    ensures HasBit(BitMask(etors), c) <==> Declares(etors, c)
    decreases |etors|
  {
    hide Or, HasBit, Pow2;
    if etors == [] {
      ZeroBits(c);
    } else {
      var init, n := etors[..|etors| - 1], etors[|etors| - 1].value.n;
      BitMaskSpec(init, c);
      OrBits(BitMask(init), Pow2(n), c);
      Pow2Bits(n, c);
      assert etors[|etors| - 1].value == Bit(n);
    }
  }

  /** The generated mask: the declared bits, complemented in an unsigned 32-bit word. */
  function FlagsMask(etors: seq<Etor>): (m: nat)
    requires forall i :: 0 <= i < |etors| ==> etors[i].value.Bit?
    ensures m < Pow2(WORD)
  {
    Pow2(WORD) - 1 - Low(BitMask(etors), WORD)
  }

  /** The generated check `MASK & value` fires exactly when the value has a bit that no enumerator declares. */
  lemma FlagCheckExact(etors: seq<Etor>, v: nat)
    requires forall i :: 0 <= i < |etors| ==> etors[i].value.Bit?
    ensures And(FlagsMask(etors), v, WORD) != 0 <==> exists c: nat :: c < WORD && HasBit(v, c) && !Declares(etors, c)
  {
    var r := And(FlagsMask(etors), v, WORD);
    if r != 0 {
      var c := SomeBit(r, WORD);
      UndeclaredBit(etors, v, c);
    }
    if c: nat :| c < WORD && HasBit(v, c) && !Declares(etors, c) {
      UndeclaredBit(etors, v, c);
      ZeroBits(c);
    }
  }

  lemma UndeclaredBit(etors: seq<Etor>, v: nat, c: nat)
    requires c < WORD && forall i :: 0 <= i < |etors| ==> etors[i].value.Bit?
    ensures HasBit(And(FlagsMask(etors), v, WORD), c) <==> HasBit(v, c) && !Declares(etors, c)
  {
    hide Low, And, HasBit, BitMask, Pow2, Declares;
    AndBits(FlagsMask(etors), v, WORD, c);
    ComplementBits(Low(BitMask(etors), WORD), WORD, c);
    LowBits(BitMask(etors), WORD, c);
    BitMaskSpec(etors, c);
  }

  lemma {:induction false} Pow2Grows(m: nat, n: nat)
    requires m <= n
    ensures Pow2(m) <= Pow2(n)
    decreases n - m
  {
    if m < n {
      Pow2Grows(m, n - 1);
    }
  }

  /** Validated flags leave the top bit of the word free, so that the check rejects every value that has it. */
  lemma ValidFlags(etors: seq<Etor>, v: nat)
    requires Valid(true, etors)
    ensures forall i :: 0 <= i < |etors| ==> etors[i].value.n <= 30
    ensures HasBit(v, 31) ==> And(FlagsMask(etors), v, WORD) != 0
  {
    hide FlagsMask, And, HasBit, Valid;
    ValidExactly(etors);
    FlagCheckExact(etors, v);
    assert !Declares(etors, 31);
  }

  lemma Pow2At31()
    ensures Pow2(31) == 0x8000_0000 && Pow2(30) == 0x4000_0000
  {
    assert Pow2(8) == 0x100;
    assert Pow2(16) == 0x1_0000;
    assert Pow2(24) == 0x100_0000;
  }

  // ---------------------------------------------------------------- the metadata

  /** For flags the mask of undeclared bits, if any is declared; for the others the name of the highest enumerator. */
  datatype Meta = Flags(limit: int, mask: Option<nat>) | Plain(max: string)

  ghost predicate Highest(values: seq<int>, i: nat) {
    && i < |values| && values[i] > -1
    && (forall j :: 0 <= j < |values| ==> values[j] <= values[i])
    && (forall j :: 0 <= j < i ==> values[j] < values[i])
  }

  /** A name of the first enumerator with the highest value. */
  ghost predicate NamesHighest(etors: seq<Etor>, name: string) {
    exists i :: 0 <= i < |etors| && Highest(Values(etors, -1), i) && name == etors[i].name
  }

  /** A plain enumeration without a value above -1 leaves the index of the maximum unset, which raises. */
  method GenerateMeta(isFlags: bool, etors: seq<Etor>) returns (meta: Option<Meta>)
    requires isFlags ==> forall i :: 0 <= i < |etors| ==> etors[i].value.Bit?
    ensures isFlags ==> meta.Some? && meta.value.Flags?
    ensures isFlags ==> meta.value.mask == if etors == [] then None else Some(FlagsMask(etors))
    ensures isFlags ==> forall i: nat :: Highest(Values(etors, -1), i) && Values(etors, -1)[i] != 0 ==>
                                           meta.value.limit == 2 * Values(etors, -1)[i] - 1
    ensures isFlags && etors == [] ==> meta.value.limit == -3
    ensures !isFlags ==> (meta.None? <==> forall i :: 0 <= i < |etors| ==> Values(etors, -1)[i] <= -1)
    ensures !isFlags && meta.Some? ==> meta.value.Plain? && NamesHighest(etors, meta.value.max)
  {
    hide EtorValue, Or;
    var value, maxValue := -1, -1;
    var maxIndex: Option<nat> := None;
    var mask: nat := 0;
    ghost var values := Values(etors, -1);
    for i := 0 to |etors|
      invariant values[i..] == Values(etors[i..], value)
      invariant isFlags ==> mask == BitMask(etors[..i])
      invariant maxValue >= -1 && forall j :: 0 <= j < i ==> values[j] <= maxValue
      invariant maxIndex.None? <==> maxValue == -1
      invariant maxIndex.Some? ==> maxIndex.value < i && values[maxIndex.value] == maxValue
      invariant maxIndex.Some? ==> forall j :: 0 <= j < maxIndex.value ==> values[j] < maxValue
    {
      value := EtorValue(etors[i].value, value);
      assert value == values[i..][0] && values[i..][1..] == values[i + 1..];
      assert etors[i..][1..] == etors[i + 1..];
      assert etors[..i + 1][..i] == etors[..i];
      if isFlags {
        mask := Or(mask, Pow2(etors[i].value.n));
      }
      if value > maxValue {
        maxValue, maxIndex := value, Some(i);
      }
    }
    assert etors[..|etors|] == etors;
    if isFlags {
      var limit := if maxValue != 0 then 2 * maxValue - 1 else 0;
      meta := Some(Flags(limit, if mask == 0 then None else Some(Pow2(WORD) - 1 - Low(mask, WORD))));
    } else if maxIndex.None? {
      meta := None;
    } else {
      assert Highest(values, maxIndex.value);
      meta := Some(Plain(etors[maxIndex.value].name));
    }
  }

  /** For an enumeration written in numbers the name found is that of the first enumerator with the greatest number. */
  lemma GreatestNumber(etors: seq<Etor>, name: string)
    requires InNumbers(etors) && NamesHighest(etors, name)
    ensures exists i :: 0 <= i < |etors| && etors[i].name == name && Number(etors[i]) >= 0
                        && (forall j :: 0 <= j < |etors| ==> Number(etors[j]) <= Number(etors[i]))
                        && (forall j :: 0 <= j < i ==> Number(etors[j]) < Number(etors[i]))
  {
    hide Values;
    NumbersAreValues(etors);
    var i :| 0 <= i < |etors| && Highest(Values(etors, -1), i) && name == etors[i].name;
    assert forall j :: 0 <= j < |etors| ==> Values(etors, -1)[j] == Number(etors[j]);
  }

  /** The value that a name stands for in generated code, where the names of enumerators are distinct. */
  ghost predicate Denotes(etors: seq<Etor>, name: string, value: int) {
    exists i :: 0 <= i < |etors| && etors[i].name == name && Values(etors, -1)[i] == value
  }

  ghost predicate NamesDiffer(etors: seq<Etor>) {
    forall i, j :: 0 <= i < j < |etors| ==> etors[i].name != etors[j].name
  }

  ghost predicate AllBelow(values: seq<int>, v: int) {
    forall j :: 0 <= j < |values| ==> values[j] < v
  }

  /** The generated `MAX < value`, with the name found by GenerateMeta, rejects exactly the values above every
      enumerator: never a declared one. */
  lemma PlainCheckExact(etors: seq<Etor>, name: string, max: int, v: int)
    requires NamesDiffer(etors) && NamesHighest(etors, name) && Denotes(etors, name, max)
    ensures max < v <==> AllBelow(Values(etors, -1), v)
  {
    hide Values, AllBelow, Highest;
    var i :| 0 <= i < |etors| && Highest(Values(etors, -1), i) && name == etors[i].name;
    var j :| 0 <= j < |etors| && etors[j].name == name && Values(etors, -1)[j] == max;
    assert i == j;
    BelowHighest(Values(etors, -1), i, v);
  }

  lemma BelowHighest(values: seq<int>, i: nat, v: int)
    requires Highest(values, i)
    ensures values[i] < v <==> AllBelow(values, v)
  {
  }
}
