/**
  `ScalarType`: the packing of a type description into an integer id, its C++ decoder, and the
  construction of the greatest finite value as the bits of an IEEE 754 double.
 */
module ScalarTypes {
  import opened Wrappers
  import opened Bits

  datatype NanRepr = NoNan | Ieee754 | ExtdRangeMaxMin
  {
    function Value(): nat {
      match this
      case NoNan => 0
      case Ieee754 => 1
      case ExtdRangeMaxMin => 2
    }
  }

  datatype ScalarType = ScalarType(exponent: int, mantissa: int, signed: bool, bias: int, finiteValuesOnly: bool, nanRepr: NanRepr)

  // ---------------------------------------------------------------------------------------
  // The id
  // ---------------------------------------------------------------------------------------

  /** A member and the number of bits it gets. */
  datatype Field = Field(member: int, width: nat)

  /** `int(member) & ((1 << width) - 1)`; a negative member gives its two's complement. */
  function Masked(f: Field): (r: nat)
    ensures r < Pow2(f.width)
  {
    f.member % Pow2(f.width)
  }

  function Offset(fields: seq<Field>): nat {
    if fields == [] then 0 else Offset(fields[..|fields| - 1]) + fields[|fields| - 1].width
  }

  /** `val | (int(member) & bit_mask) << offset`. */
  function OrField(val: nat, f: Field, offset: nat): (r: nat) {
    BitOr(val, Masked(f) * Pow2(offset))
  }

  /** `or_and_advance` applied to each field in turn. */
  function Pack(fields: seq<Field>): (r: nat) {
    if fields == [] then 0
    else
      var before := fields[..|fields| - 1];
      OrField(Pack(before), fields[|fields| - 1], Offset(before))
  }

  /** The fields occupy disjoint bit ranges: OR-ing is adding. */
  lemma {:induction false} PackIsSum(fields: seq<Field>)
    ensures Pack(fields) < Pow2(Offset(fields))
    ensures fields != [] ==>
              var before, f := fields[..|fields| - 1], fields[|fields| - 1];
              Pack(fields) == Pack(before) + Masked(f) * Pow2(Offset(before))
  {
    if fields != [] {
      var before, f := fields[..|fields| - 1], fields[|fields| - 1];
      PackIsSum(before);
      BitOrAbove(Pack(before), Masked(f), Offset(before), f.width);
    }
  }

  /** `(id >> offset) & ((1 << width) - 1)`. */
  function Extract(id: nat, offset: nat, width: nat): (r: nat) {
    id / Pow2(offset) % Pow2(width)
  }

  lemma ExtractTop(low: nat, x: nat, offset: nat, width: nat)
    requires low < Pow2(offset) && x < Pow2(width)
    ensures Extract(low + x * Pow2(offset), offset, width) == x
  {
    DivModUnique(low + x * Pow2(offset), Pow2(offset), x, low);
    DivModUnique(x, Pow2(width), 0, x);
  }

  /** Bits written above a field do not disturb it. */
  lemma ExtractBelow(low: nat, x: nat, offset: nat, width: nat, above: nat)
    requires offset + width <= above
    ensures Extract(low + x * Pow2(above), offset, width) == Extract(low, offset, width)
  {
    var gap := above - offset - width;
    var y := x * Pow2(gap);
    assert x * Pow2(above) == (y * Pow2(width)) * Pow2(offset) by {
      Pow2Add(gap + width, offset);
      Pow2Add(gap, width);
      Associate(x, Pow2(gap), Pow2(width));
      Associate(x, Pow2(gap) * Pow2(width), Pow2(offset));
    }
    DivOfSum(low, y * Pow2(width), Pow2(offset));
    DivOfSum(low / Pow2(offset), y, Pow2(width));
  }

  /** Reading back any field of the packed value gives the member reduced to its width. */
  lemma {:induction false} ExtractField(fields: seq<Field>, i: nat)
    requires i < |fields|
    ensures Extract(Pack(fields), Offset(fields[..i]), fields[i].width) == Masked(fields[i])
  {
    var n := |fields| - 1;
    var before, f := fields[..n], fields[n];
    PackIsSum(fields);
    PackIsSum(before);
    if i == n {
      ExtractTop(Pack(before), Masked(f), Offset(before), f.width);
    } else {
      ExtractField(before, i);
      assert before[..i] == fields[..i];
      OffsetMonotone(before, i);
      ExtractBelow(Pack(before), Masked(f), Offset(before[..i]), before[i].width, Offset(before));
    }
  }

  lemma {:induction false} OffsetMonotone(fields: seq<Field>, i: nat)
    requires i < |fields|
    ensures Offset(fields[..i]) + fields[i].width <= Offset(fields)
  {
    var n := |fields| - 1;
    if i < n {
      OffsetMonotone(fields[..n], i);
      assert fields[..n][..i] == fields[..i];
    }
  }

  /** The layout of the id. */
  function Fields(t: ScalarType): seq<Field> {
    [Field(t.exponent, 8), Field(t.mantissa, 8), Field(if t.signed then 1 else 0, 1), Field(t.bias, 32),
     Field(if t.finiteValuesOnly then 1 else 0, 1), Field(t.nanRepr.Value(), 8)]
  }

  /** `id`: the fields are OR-ed in one after the other; the assertion on 64 bits always holds. */
  method Id(t: ScalarType) returns (val: nat)
    ensures val == Pack(Fields(t))
    ensures val < Pow2(Offset(Fields(t))) && Offset(Fields(t)) == 58 <= 64
  {
    var fields := Fields(t);
    val := 0;
    var offset := 0;
    for i := 0 to |fields|
      invariant val == Pack(fields[..i]) && offset == Offset(fields[..i])
    {
      assert fields[..i + 1][..i] == fields[..i];
      val := OrField(val, fields[i], offset);
      offset := offset + fields[i].width;
    }
    assert fields[..|fields|] == fields;
    PackIsSum(fields);
    FieldOffsets(t);
    assert offset <= 64;
  }

  lemma FieldOffsets(t: ScalarType)
    ensures var fs := Fields(t);
            && Offset(fs[..0]) == 0 && Offset(fs[..1]) == 8 && Offset(fs[..2]) == 16 && Offset(fs[..3]) == 17
            && Offset(fs[..4]) == 49 && Offset(fs[..5]) == 50 && Offset(fs) == 58
  {
    var fs := Fields(t);
    assert fs[..1][..0] == fs[..0] && fs[..2][..1] == fs[..1] && fs[..3][..2] == fs[..2];
    assert fs[..4][..3] == fs[..3] && fs[..5][..4] == fs[..4] && fs[..6] == fs;
  }

  lemma PackSnoc(fields: seq<Field>, i: nat)
    requires i < |fields|
    ensures Pack(fields[..i + 1]) == Pack(fields[..i]) + Masked(fields[i]) * Pow2(Offset(fields[..i]))
  {
    assert fields[..i + 1][..i] == fields[..i];
    PackIsSum(fields[..i + 1]);
  }

  /** What field `i` adds to the packed value. */
  ghost function Part(fields: seq<Field>, i: nat): nat
    requires i < |fields|
  {
    Masked(fields[i]) * Pow2(Offset(fields[..i]))
  }

  ghost function Sum(parts: seq<nat>, n: nat): nat
    requires n <= |parts|
  {
    if n == 0 then 0 else Sum(parts, n - 1) + parts[n - 1]
  }

  lemma {:induction false} PackIsSumOfParts(fields: seq<Field>, parts: seq<nat>, n: nat)
    requires n <= |fields| == |parts| && forall i :: 0 <= i < |fields| ==> parts[i] == Part(fields, i)
    ensures Pack(fields[..n]) == Sum(parts, n)
  {
    if n > 0 {
      PackIsSumOfParts(fields, parts, n - 1);
      PackSnoc(fields, n - 1);
    }
  }

  lemma SumOfSix(parts: seq<nat>)
    requires |parts| == 6
    ensures Sum(parts, 6) == parts[0] + parts[1] + parts[2] + parts[3] + parts[4] + parts[5]
  {
    assert Sum(parts, 1) == parts[0] && Sum(parts, 2) == Sum(parts, 1) + parts[1] && Sum(parts, 3) == Sum(parts, 2) + parts[2];
    assert Sum(parts, 5) == Sum(parts, 4) + parts[4] && Sum(parts, 4) == Sum(parts, 3) + parts[3];
  }

  lemma SixParts(fields: seq<Field>, parts: seq<nat>)
    requires |fields| == |parts| == 6 && forall i :: 0 <= i < 6 ==> parts[i] == Part(fields, i)
    ensures Pack(fields) == parts[0] + parts[1] + parts[2] + parts[3] + parts[4] + parts[5]
  {
    PackIsSumOfParts(fields, parts, 6);
    assert fields[..6] == fields;
    SumOfSix(parts);
  }

  lemma OffsetPowers()
    ensures Pow2(0) == 1 && Pow2(8) == 0x100 && Pow2(16) == 0x1_0000 && Pow2(17) == 0x2_0000
    ensures Pow2(49) == 0x2_0000_0000_0000 && Pow2(50) == 0x4_0000_0000_0000
  {
    PowersUsed();
    Pow2Add(17, 32);
  }

  lemma FieldsMasked(t: ScalarType)
    ensures var fs := Fields(t);
            && Masked(fs[0]) == t.exponent % 0x100 && Masked(fs[1]) == t.mantissa % 0x100
            && Masked(fs[2]) == (if t.signed then 1 else 0) && Masked(fs[3]) == t.bias % 0x1_0000_0000
            && Masked(fs[4]) == (if t.finiteValuesOnly then 1 else 0)
            && Masked(fs[5]) == match t.nanRepr case NoNan => 0 case Ieee754 => 1 case ExtdRangeMaxMin => 2
  {
    PowersUsed();
    SmallFieldsMasked(t);
  }

  lemma PartIs(fields: seq<Field>, i: nat, value: nat, weight: nat)
    requires i < |fields| && Masked(fields[i]) == value && Pow2(Offset(fields[..i])) == weight
    ensures Part(fields, i) == value * weight
  {
  }

  /** The id spelt out: from the lowest bit exponent width, mantissa width, sign, bias, finite-only flag and NaN mode. */
  lemma IdIsSum(t: ScalarType)
    ensures Pack(Fields(t))
         == t.exponent % 0x100
            + t.mantissa % 0x100 * 0x100
            + (if t.signed then 1 else 0) * 0x1_0000
            + t.bias % 0x1_0000_0000 * 0x2_0000
            + (if t.finiteValuesOnly then 1 else 0) * 0x2_0000_0000_0000
            + (match t.nanRepr case NoNan => 0 case Ieee754 => 1 case ExtdRangeMaxMin => 2) * 0x4_0000_0000_0000
  {
    var fs := Fields(t);
    var parts := [Part(fs, 0), Part(fs, 1), Part(fs, 2), Part(fs, 3), Part(fs, 4), Part(fs, 5)];
    SixParts(fs, parts);
    FieldOffsets(t);
    OffsetPowers();
    FieldsMasked(t);
    PartIs(fs, 0, t.exponent % 0x100, 1);
    PartIs(fs, 1, t.mantissa % 0x100, 0x100);
    PartIs(fs, 2, if t.signed then 1 else 0, 0x1_0000);
    PartIs(fs, 3, t.bias % 0x1_0000_0000, 0x2_0000);
    PartIs(fs, 4, if t.finiteValuesOnly then 1 else 0, 0x2_0000_0000_0000);
    PartIs(fs, 5, match t.nanRepr case NoNan => 0 case Ieee754 => 1 case ExtdRangeMaxMin => 2, 0x4_0000_0000_0000);
  }

  /** The C++ `from_id`, with the bias read as a signed 32-bit number. */
  function FromId(id: nat): (t: ScalarType) {
    FromFields(Extract(id, 0, 8), Extract(id, 8, 8), Extract(id, 16, 1), Extract(id, 17, 32), Extract(id, 49, 1), Extract(id, 50, 8))
  }

  function FromFields(exponent: nat, mantissa: nat, signed: nat, bias: nat, finite: nat, nan: nat): (t: ScalarType) {
    ScalarType(exponent, mantissa, signed == 1, if bias < 0x8000_0000 then bias else bias - 0x1_0000_0000, finite == 1,
               if nan == 0 then NoNan else if nan == 1 then Ieee754 else ExtdRangeMaxMin)
  }

  /** Every member fits its width. */
  ghost predicate Fits(t: ScalarType) {
    0 <= t.exponent < 256 && 0 <= t.mantissa < 256 && -0x8000_0000 <= t.bias < 0x8000_0000
  }

  lemma PowersUsed()
    ensures Pow2(1) == 2 && Pow2(8) == 256 && Pow2(16) == 0x1_0000 && Pow2(32) == 0x1_0000_0000
  {
    assert Pow2(4) == 16;
    Pow2Add(4, 4);
    Pow2Add(8, 8);
    Pow2Add(16, 16);
  }

  /** The bit ranges of `id` hold the members of `t`. */
  ghost predicate Holds(id: nat, t: ScalarType) {
    var fs := Fields(t);
    && Extract(id, 0, 8) == Masked(fs[0]) && Extract(id, 8, 8) == Masked(fs[1])
    && Extract(id, 16, 1) == Masked(fs[2]) && Extract(id, 17, 32) == Masked(fs[3])
    && Extract(id, 49, 1) == Masked(fs[4]) && Extract(id, 50, 8) == Masked(fs[5])
  }

  lemma ExtractedFields(t: ScalarType, id: nat)
    requires id == Pack(Fields(t))
    ensures Holds(id, t)
  {
    var fs := Fields(t);
    FieldOffsets(t);
    ExtractField(fs, 0);
    ExtractField(fs, 1);
    ExtractField(fs, 2);
    ExtractField(fs, 3);
    ExtractField(fs, 4);
    ExtractField(fs, 5);
  }

  lemma HeldIsDecoded(t: ScalarType, id: nat)
    requires Fits(t) && Holds(id, t)
    ensures FromId(id) == t
  {
    MaskedIsDecoded(t);
  }

  lemma MaskedIsDecoded(t: ScalarType)
    requires Fits(t)
    ensures var fs := Fields(t);
            FromFields(Masked(fs[0]), Masked(fs[1]), Masked(fs[2]), Masked(fs[3]), Masked(fs[4]), Masked(fs[5])) == t
  {
    SmallFieldsMasked(t);
    ByteMasked(t.exponent);
    ByteMasked(t.mantissa);
    BiasDecoded(t.bias);
  }

  lemma ByteMasked(x: int)
    requires 0 <= x < 256
    ensures Masked(Field(x, 8)) == x
  {
  }

  /** A signed 32-bit number is recovered from its two's complement. */
  lemma BiasDecoded(b: int)
    requires -0x8000_0000 <= b < 0x8000_0000
    ensures var m := Masked(Field(b, 32)); b == if m < 0x8000_0000 then m else m - 0x1_0000_0000
  {
    PowersUsed();
    if b >= 0 {
      MaskSmall(b, 0x1_0000_0000);
    } else {
      DivModUnique(b, 0x1_0000_0000, -1, b + 0x1_0000_0000);
    }
  }

  /** Round trip: a type whose members fit is recovered from its id. */
  lemma IdRoundTrip(t: ScalarType)
    requires Fits(t)
    ensures FromId(Pack(Fields(t))) == t
  {
    var id := Pack(Fields(t));
    ExtractedFields(t, id);
    HeldIsDecoded(t, id);
  }

  lemma MaskSmall(x: int, d: int)
    requires 0 <= x < d
    ensures x % d == x
  {
  }

  /** The members agree modulo the field widths. */
  ghost predicate SameBits(s: ScalarType, t: ScalarType) {
    && s.exponent % 256 == t.exponent % 256 && s.mantissa % 256 == t.mantissa % 256
    && s.bias % 0x1_0000_0000 == t.bias % 0x1_0000_0000
    && s.signed == t.signed && s.finiteValuesOnly == t.finiteValuesOnly && s.nanRepr == t.nanRepr
  }

  /** Each field of the two types is masked to the same bits. */
  ghost predicate SameMasked(s: ScalarType, t: ScalarType) {
    var fs, ft := Fields(s), Fields(t);
    && Masked(fs[0]) == Masked(ft[0]) && Masked(fs[1]) == Masked(ft[1]) && Masked(fs[2]) == Masked(ft[2])
    && Masked(fs[3]) == Masked(ft[3]) && Masked(fs[4]) == Masked(ft[4]) && Masked(fs[5]) == Masked(ft[5])
  }

  lemma SmallFieldsMasked(t: ScalarType)
    ensures Masked(Fields(t)[2]) == (if t.signed then 1 else 0) && Masked(Fields(t)[4]) == (if t.finiteValuesOnly then 1 else 0)
    ensures Masked(Fields(t)[5]) == t.nanRepr.Value()
  {
  }

  lemma SameBitsIff(s: ScalarType, t: ScalarType)
    ensures SameBits(s, t) <==> SameMasked(s, t)
  {
    PowersUsed();
    SmallFieldsMasked(s);
    SmallFieldsMasked(t);
  }

  lemma SameHeld(s: ScalarType, t: ScalarType, id: nat)
    requires Holds(id, s) && Holds(id, t)
    ensures SameMasked(s, t)
  {
  }

  lemma SamePacked(s: ScalarType, t: ScalarType)
    requires SameMasked(s, t)
    ensures Pack(Fields(s)) == Pack(Fields(t))
  {
    PackCongruent(Fields(s), Fields(t));
  }

  /** Two types share an id exactly when their members agree modulo the field widths. */
  lemma IdsEqualIff(s: ScalarType, t: ScalarType)
    ensures Pack(Fields(s)) == Pack(Fields(t)) <==> SameBits(s, t)
    ensures Fits(s) && Fits(t) ==> (SameBits(s, t) <==> s == t)
  {
    var id := Pack(Fields(s));
    SameBitsIff(s, t);
    if id == Pack(Fields(t)) {
      ExtractedFields(s, id);
      ExtractedFields(t, id);
      SameHeld(s, t, id);
    }
    if SameBits(s, t) {
      SamePacked(s, t);
      if Fits(s) && Fits(t) {
        IdRoundTrip(s);
        IdRoundTrip(t);
      }
    }
  }

  lemma {:induction false} PackCongruent(a: seq<Field>, b: seq<Field>)
    requires |a| == |b|
    requires forall i :: 0 <= i < |a| ==> Masked(a[i]) == Masked(b[i]) && a[i].width == b[i].width
    ensures Pack(a) == Pack(b) && Offset(a) == Offset(b)
  {
    if a != [] {
      PackCongruent(a[..|a| - 1], b[..|b| - 1]);
    }
  }

  // ---------------------------------------------------------------------------------------
  // The greatest finite value
  // ---------------------------------------------------------------------------------------

  /** A floating-point type as its constructors admit it. */
  ghost predicate IsFloat(t: ScalarType) {
    t.exponent >= 1 && t.mantissa >= 1
  }

  function MaxMantissa(t: ScalarType): int
    requires t.mantissa >= 1
  {
    Pow2(t.mantissa) - (if t.nanRepr.ExtdRangeMaxMin? then 2 else 1)
  }

  function MaxExponent(t: ScalarType): int
    requires t.exponent >= 1
  {
    Pow2(t.exponent) - (if t.nanRepr.Ieee754? then 2 else 1)
  }

  function ExponentBias(t: ScalarType): int
    requires t.exponent >= 1
  {
    Pow2(t.exponent - 1) - 1
  }

  /** The assertions of `_floating_point_max_int` hold. */
  predicate FitsDouble(t: ScalarType) {
    t.mantissa <= 52 && t.exponent <= 11 && (t.nanRepr.Ieee754? || t.exponent < 11)
  }

  lemma ExponentInRange(t: ScalarType)
    requires IsFloat(t) && FitsDouble(t)
    ensures 0 <= ExponentBias(t) <= 1023
    ensures 0 <= MaxMantissa(t) < Pow2(t.mantissa)
    ensures 1023 <= MaxExponent(t) - ExponentBias(t) + 1023 <= 2046
    ensures MaxExponent(t) == 0 <==> t.nanRepr.Ieee754? && t.exponent == 1
  {
    assert Pow2(t.exponent) == 2 * Pow2(t.exponent - 1);
    assert Pow2(t.mantissa) == 2 * Pow2(t.mantissa - 1);
    assert Pow2(10) == 1024 by {
      Pow2Add(5, 5);
    }
    Pow2Monotone(t.exponent - 1, 10);
    if t.exponent <= 10 {
      assert Pow2(10) == 2 * Pow2(9);
      Pow2Monotone(t.exponent - 1, 9);
    }
    if t.exponent >= 2 {
      Pow2Monotone(1, t.exponent - 1);
    }
  }

  /** The exponent, in the encoding of a double, of the greatest finite value. */
  function MaxExponentDouble(t: ScalarType): (r: nat)
    requires IsFloat(t) && FitsDouble(t)
  {
    ExponentInRange(t);
    MaxExponent(t) - ExponentBias(t) + 1023
  }

  /** The final expression of `_floating_point_max_int`, for a double with a mantissa of `width` bits. */
  function MaxBits(t: ScalarType, width: nat): (r: nat)
    requires IsFloat(t) && FitsDouble(t) && t.mantissa <= width
  {
    ExponentInRange(t);
    BitOr(MaxMantissa(t) * Pow2(width - t.mantissa), MaxExponentDouble(t) * Pow2(width))
  }

  /** `_floating_point_max_int`; None stands for a failed assertion. */
  function FloatingPointMaxInt(t: ScalarType): (r: Option<nat>)
    requires IsFloat(t)
  {
    if FitsDouble(t) then Some(MaxBits(t, 52)) else None
  }

  /**
    The value, in units of the least positive one, of a positive finite floating-point number with
    a mantissa of `width` bits (section 3.4 of IEEE 754-2008).
   */
  ghost function Units(bits: nat, width: nat): (r: nat) {
    NatDivMod(bits, Pow2(width));
    Magnitude(bits / Pow2(width), bits % Pow2(width), width)
  }

  /** Exponent code 0 is subnormal; above it the leading bit is implied. */
  ghost function Magnitude(e: nat, m: nat, width: nat): (r: nat) {
    if e == 0 then m else (Pow2(width) + m) * Pow2(e - 1)
  }

  /** The value of the bits of a double, in units of 2^-1074. */
  ghost function DoubleUnits(bits: nat): (r: nat) {
    Units(bits, 52)
  }

  /** `(e, m)` encodes a finite value of the type; the no-NaN mode is taken as finite-only. */
  ghost predicate FiniteCode(t: ScalarType, e: nat, m: nat)
    requires IsFloat(t)
  {
    && e < Pow2(t.exponent) && m < Pow2(t.mantissa)
    && match t.nanRepr
       case Ieee754 => e != Pow2(t.exponent) - 1
       case ExtdRangeMaxMin => !(e == Pow2(t.exponent) - 1 && m == Pow2(t.mantissa) - 1)
       case NoNan => true
  }

  /** The value of a code in units of the type's own least positive value. */
  ghost function OwnUnits(t: ScalarType, e: nat, m: nat): (r: nat)
    requires t.mantissa >= 1
  {
    Magnitude(e, m, t.mantissa)
  }

  /**
    The value of a code of the type in units of 2^(1 - 1023 - width): the type's own unit is
    2^(1 - bias - mantissa).
   */
  ghost function TypeUnits(t: ScalarType, e: nat, m: nat, width: nat): (r: nat)
    requires IsFloat(t) && FitsDouble(t) && t.mantissa <= width
  {
    ExponentInRange(t);
    OwnUnits(t, e, m) * Pow2((width - t.mantissa) + (1023 - ExponentBias(t)))
  }

  /** `units` is the value of some finite code and no finite code exceeds it. */
  ghost predicate IsGreatest(t: ScalarType, units: nat, width: nat)
    requires IsFloat(t) && FitsDouble(t) && t.mantissa <= width
  {
    && (exists e: nat, m: nat :: FiniteCode(t, e, m) && TypeUnits(t, e, m, width) == units)
    && (forall e: nat, m: nat :: FiniteCode(t, e, m) ==> TypeUnits(t, e, m, width) <= units)
  }

  /** Mantissa and exponent OR-ed together decode to themselves. */
  lemma UnitsOfParts(low: nat, e: nat, width: nat)
    requires low < Pow2(width)
    ensures Units(BitOr(low, e * Pow2(width)), width) == Magnitude(e, low, width)
  {
    BitOrDisjoint(low, e, width);
    DivModUnique(low + e * Pow2(width), Pow2(width), e, low);
  }

  /** A mantissa of `bits` bits shifted to the top of a wider one. */
  lemma UnitsOfShifted(m: nat, bits: nat, e: nat, width: nat)
    requires bits <= width && m < Pow2(bits) && e >= 1
    ensures Units(BitOr(m * Pow2(width - bits), e * Pow2(width)), width) == (Pow2(bits) + m) * Pow2(width - bits) * Pow2(e - 1)
  {
    var shift := Pow2(width - bits);
    Pow2Add(bits, width - bits);
    MulBelow(m, Pow2(bits), shift);
    Distribute(Pow2(bits), m, shift);
    UnitsOfParts(m * shift, e, width);
  }

  /** What the produced bits decode to. */
  lemma MaxBitsUnits(t: ScalarType, width: nat)
    requires IsFloat(t) && FitsDouble(t) && t.mantissa <= width
    ensures MaxExponentDouble(t) >= 1 && MaxMantissa(t) >= 0
    ensures Units(MaxBits(t, width), width)
         == (Pow2(t.mantissa) + MaxMantissa(t)) * Pow2(width - t.mantissa) * Pow2(MaxExponentDouble(t) - 1)
  {
    ExponentInRange(t);
    UnitsOfShifted(MaxMantissa(t), t.mantissa, MaxExponentDouble(t), width);
  }

  lemma MagnitudeBelowNext(e: nat, m: nat, width: nat)
    requires m < Pow2(width)
    ensures Magnitude(e, m, width) <= Pow2(e) * Pow2(width)
  {
    if e > 0 {
      ScaleUp(Pow2(width) + m, 2 * Pow2(width), Pow2(e - 1));
      assert 2 * Pow2(width) * Pow2(e - 1) == Pow2(e) * Pow2(width) by {
        Associate(2, Pow2(width), Pow2(e - 1));
        Associate(2, Pow2(e - 1), Pow2(width));
      }
    }
  }

  lemma MagnitudeAtLeast(e: nat, m: nat, width: nat)
    requires e > 0
    ensures Pow2(e - 1) * Pow2(width) <= Magnitude(e, m, width)
  {
    ScaleUp(Pow2(width), Pow2(width) + m, Pow2(e - 1));
  }

  /** The order of codes is the order of values. */
  lemma MagnitudeMonotone(e: nat, m: nat, e': nat, m': nat, width: nat)
    requires m < Pow2(width) && m' < Pow2(width)
    requires e < e' || (e == e' && m <= m')
    ensures Magnitude(e, m, width) <= Magnitude(e', m', width)
  {
    if e < e' {
      MagnitudeBelowNext(e, m, width);
      Pow2Monotone(e, e' - 1);
      ScaleUp(Pow2(e), Pow2(e' - 1), Pow2(width));
      MagnitudeAtLeast(e', m', width);
    } else if e > 0 {
      ScaleUp(Pow2(width) + m, Pow2(width) + m', Pow2(e - 1));
    }
  }

  lemma Regroup(a: nat, x: nat, y: nat, z: nat)
    ensures a * x * (y * z) == a * y * (x * z)
  {
  }

  /** Above the subnormal range the produced bits are a value of the type. */
  lemma MaxIsTypeValue(t: ScalarType, width: nat)
    requires IsFloat(t) && FitsDouble(t) && t.mantissa <= width && MaxExponent(t) >= 1
    ensures MaxMantissa(t) >= 0
    ensures Units(MaxBits(t, width), width) == TypeUnits(t, MaxExponent(t), MaxMantissa(t), width)
  {
    MaxBitsUnits(t, width);
    ExponentInRange(t);
    var a, e, b := Pow2(t.mantissa) + MaxMantissa(t), MaxExponent(t), ExponentBias(t);
    var s := width - t.mantissa;
    assert MaxExponentDouble(t) - 1 == (e - 1) + (1023 - b);
    Pow2Add(e - 1, 1023 - b);
    Pow2Add(s, 1023 - b);
    Regroup(a, Pow2(s), Pow2(e - 1), Pow2(1023 - b));
  }

  lemma HalfBelow(m: nat, a: nat, s: nat, k: nat)
    requires 2 * m < a
    ensures m * Pow2(s + (k + 1)) < a * Pow2(s) * Pow2(k)
  {
    var unit := Pow2(s + k);
    Pow2Add(s, k);
    Associate(a, Pow2(s), Pow2(k));
    assert Pow2(s + (k + 1)) == 2 * unit;
    Associate(m, 2, unit);
    MulBelow(2 * m, a, unit);
  }

  lemma OneBitExponents(t: ScalarType)
    requires IsFloat(t) && FitsDouble(t) && t.nanRepr.Ieee754? && t.exponent == 1
    ensures ExponentBias(t) == 0 && MaxExponentDouble(t) == 1023 && Pow2(t.exponent) == 2
  {
    ExponentInRange(t);
  }

  /** In the IEEE mode with a one-bit exponent the produced value exceeds every finite one. */
  lemma OneBitExponentTooLarge(t: ScalarType, width: nat, e: nat, m: nat)
    requires IsFloat(t) && FitsDouble(t) && t.mantissa <= width && t.nanRepr.Ieee754? && t.exponent == 1
    requires FiniteCode(t, e, m)
    ensures TypeUnits(t, e, m, width) < Units(MaxBits(t, width), width)
  {
    MaxBitsUnits(t, width);
    OneBitExponents(t);
    HalfBelow(m, Pow2(t.mantissa) + MaxMantissa(t), width - t.mantissa, MaxExponentDouble(t) - 1);
  }

  /**
    The produced double is the greatest finite value of the type, for every type whose constructor
    and assertions admit it, except in the IEEE mode with a one-bit exponent: then the largest
    usable exponent code is the subnormal one, which the construction treats as normal.
   */
  lemma MaxIsGreatest(t: ScalarType, width: nat)
    requires IsFloat(t) && FitsDouble(t) && t.mantissa <= width
    ensures IsGreatest(t, Units(MaxBits(t, width), width), width) <==> !(t.nanRepr.Ieee754? && t.exponent == 1)
  {
    ExponentInRange(t);
    var units := Units(MaxBits(t, width), width);
    if t.nanRepr.Ieee754? && t.exponent == 1 {
      forall e: nat, m: nat | FiniteCode(t, e, m)
        ensures TypeUnits(t, e, m, width) < units
      {
        OneBitExponentTooLarge(t, width, e, m);
      }
    } else {
      MaxIsTypeValue(t, width);
      var e, m := MaxExponent(t), MaxMantissa(t);
      assert FiniteCode(t, e, m);
      forall e': nat, m': nat | FiniteCode(t, e', m')
        ensures TypeUnits(t, e', m', width) <= units
      {
        MagnitudeMonotone(e', m', e, m, t.mantissa);
        ScaleUp(OwnUnits(t, e', m'), OwnUnits(t, e, m), Pow2((width - t.mantissa) + (1023 - ExponentBias(t))));
      }
    }
  }

  /**
    `_floating_point_max` has a result for every mantissa of up to 52 bits and exponent of up to 11, or
    up to 10 where the greatest exponent code is finite. The result is the greatest finite value of
    the type, with that one exception.
   */
  lemma FloatingPointMaxIsGreatestIff(t: ScalarType)
    requires IsFloat(t)
    ensures FloatingPointMaxInt(t).Some? <==> t.mantissa <= 52 && t.exponent <= if t.nanRepr.Ieee754? then 11 else 10
    ensures FloatingPointMaxInt(t).Some? ==>
              (IsGreatest(t, DoubleUnits(FloatingPointMaxInt(t).value), 52) <==> !(t.nanRepr.Ieee754? && t.exponent == 1))
  {
    if FloatingPointMaxInt(t).Some? {
      MaxIsGreatest(t, 52);
    }
  }
}
