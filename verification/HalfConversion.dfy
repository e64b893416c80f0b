/** cl_half.h: conversion of binary floating-point patterns to binary16 in four rounding modes, and back.
    The two narrowing routines of the header differ only in the constants of their source format. */
module HalfConversion {
  import opened Powers
  import opened FloatFormat
  import opened Rounding

  /** The formats the routines are written for: more digits than a half, and subnormals below half of the
      smallest half subnormal. */
  predicate Narrowable(fmt: Format) {
    fmt.p >= 12 && fmt.emax >= 27
  }

  lemma FloatAndDoubleNarrow()
    ensures Narrowable(FLOAT) && Narrowable(DOUBLE)
  {
  }

  function Exact(fmt: Format, f: Fields): nat
    requires fmt.Valid()
  {
    Magnitude(fmt, f.exp, f.mant)
  }

  /** Units of the source format in the smallest half subnormal. */
  function Units(fmt: Format): (r: nat)
    requires Narrowable(fmt)
    ensures r > 0
  {
    Pow2(Gap(HALF, fmt))
  }

  /** A payload with the quiet bit set. */
  function Quiet(payload: nat): (r: nat)
    requires payload < 0x400
    ensures r < 0x400 && r >= payload
  {
    if (payload / 0x200) % 2 == 1 then payload else payload + 0x200
  }

  lemma PayloadFits(fmt: Format, mant: nat)
    requires Narrowable(fmt) && mant < fmt.MantSize()
    ensures Shr(mant, fmt.p - 11) < 0x400
  {
    Pow2Add(10, fmt.p - 11);
    HalfMantSize();
    assert Pow2(10) == 2 * Pow2(9);
    ShiftBelow(mant, fmt.p - 11, 0x400);
  }

  /** What a narrowing must return beside the sign: a NaN stays a quiet NaN with the leading payload
      bits; infinity stays infinity; a number is correctly rounded. */
  ghost predicate NarrowsTo(fmt: Format, f: Fields, mode: Mode, mag: nat)
    requires Narrowable(fmt) && WellFormed(fmt, f)
  {
    if IsNaN(fmt, f) then
      PayloadFits(fmt, f.mant);
      mag == HALF_INFINITY + Quiet(Shr(f.mant, fmt.p - 11))
    else if IsFinite(fmt, f) then
      RoundedBy(mode, f.sign == 1, Units(fmt), Exact(fmt, f), mag)
    else
      mag == HALF_INFINITY
  }

  /** h is a correct half for the source pattern: its sign bit is the source's, the rest as above. */
  ghost predicate Narrows(fmt: Format, bits: nat, mode: Mode, h: nat)
    requires Narrowable(fmt) && IsPattern(fmt, bits)
  {
    EncodeDecode(fmt, bits);
    var f := Decode(fmt, bits);
    h / 0x8000 == f.sign && NarrowsTo(fmt, f, mode, h % 0x8000)
  }

  // ---------- the out-of-range cases ----------

  /** cl_half_handle_overflow */
  function HandleOverflow(mode: Mode, sign: nat): nat {
    if mode == RTZ then sign * 0x8000 + HALF_MAX_FINITE
    else if mode == RTP && sign != 0 then 0x8000 + HALF_MAX_FINITE
    else if mode == RTN && sign == 0 then HALF_MAX_FINITE
    else sign * 0x8000 + HALF_INFINITY
  }

  /** cl_half_handle_underflow */
  function HandleUnderflow(mode: Mode, sign: nat): nat {
    if mode == RTP && sign == 0 then sign * 0x8000 + 1
    else if mode == RTN && sign != 0 then sign * 0x8000 + 1
    else sign * 0x8000
  }

  lemma OverflowRounds(mode: Mode, sign: nat, s: nat, x: nat) returns (mag: nat)
    requires sign <= 1 && s > 0 && x >= Scaled(s, HALF_INFINITY)
    ensures HandleOverflow(mode, sign) == sign * 0x8000 + mag && mag < 0x8000
    ensures RoundedBy(mode, sign == 1, s, x, mag)
  {
    Overflows(s, x);
    mag := HandleOverflow(mode, sign) - sign * 0x8000;
  }

  lemma UnderflowRounds(mode: Mode, sign: nat, s: nat, x: nat) returns (mag: nat)
    requires sign <= 1 && 0 < 2 * x < s
    ensures HandleUnderflow(mode, sign) == sign * 0x8000 + mag && mag < 0x8000
    ensures RoundedBy(mode, sign == 1, s, x, mag)
  {
    assert HalfValue(0) == 0 && HalfValue(1) == 1;
    assert Scaled(s, 0) == 0 && Scaled(s, 1) == s;
    BracketDown(s, x, 0);
    BracketUp(s, x, 0);
    BracketNearest(s, x, 0);
    mag := HandleUnderflow(mode, sign) - sign * 0x8000;
  }

  // ---------- the rounding step ----------

  /** A truncated mantissa rounded by what was dropped: the next one is 2 * halfway away from it. */
  function Rounded(mode: Mode, negative: bool, truncated: nat, rest: nat, halfway: nat): nat {
    if TakesUpper(mode, negative, truncated % 2 == 1, rest, 2 * halfway - rest) then truncated + 1 else truncated
  }

  /** Truncation to mantissa q below exponent field hExp drops rest * w; one unit in the last place is
      2 * halfway * w. */
  lemma RoundStep(mode: Mode, negative: bool, s: nat, x: nat, hExp: nat, q: nat, rest: nat, halfway: nat, w: nat)
    requires s > 0 && w > 0 && hExp * 0x400 + q <= HALF_MAX_FINITE && rest < 2 * halfway
    requires x == Scaled(s, hExp * 0x400 + q) + rest * w
    requires Scaled(s, hExp * 0x400 + q + 1) == Scaled(s, hExp * 0x400 + q) + (2 * halfway) * w
    ensures RoundedBy(mode, negative, s, x,
              hExp * 0x400 + Rounded(mode, negative, q, rest, halfway))
  {
    var t := hExp * 0x400 + q;
    assert t % 2 == q % 2;
    RestInUnits(rest, halfway, w);
    BracketRounds(mode, negative, s, x, t);
  }

  lemma RestInUnits(rest: nat, halfway: nat, w: nat)
    requires w > 0 && rest < 2 * halfway
    ensures var below, above := rest * w, (2 * halfway) * w - rest * w;
            above > 0 && (below == 0 <==> rest == 0)
            && (below < above <==> rest < halfway) && (below > above <==> rest > halfway)
  {
    ScaleOrder(w, 0, rest);
    ScaleOrder(w, rest, 2 * halfway);
    ScaleOrder(w, rest, 2 * halfway - rest);
    ScaleOrder(w, 2 * halfway - rest, rest);
    assert (2 * halfway - rest) * w == (2 * halfway) * w - rest * w;
  }

  // ---------- where the truncated pattern lies ----------

  lemma InfinityScaled(g: nat, k: nat)
    requires k == 30
    ensures Scaled(Pow2(g), HALF_INFINITY) == Pow2(10 + k + g)
  {
    HalfMantSize();
    assert 0x7C00 / 1024 == 31 && 0x7C00 % 1024 == 0;
    MagnitudeIsProduct(HALF, k + 1, 0);
    Pow2Add(10, k);
    assert Pow2(10) == 2 * Pow2(9);
    Pow2Add(10 + k, g);
  }

  lemma SourceAtLeast(fmt: Format, f: Fields)
    requires fmt.Valid() && f.exp >= 1
    ensures Exact(fmt, f) >= Pow2(fmt.p - 1 + f.exp - 1)
  {
    MagnitudeIsProduct(fmt, f.exp, f.mant);
    Pow2Add(fmt.p - 1, f.exp - 1);
    MulMonotone(fmt.MantSize(), fmt.MantSize() + f.mant, Pow2(f.exp - 1));
  }

  /** Exponents at which an exactly represented value leaves the range of the halves. */
  lemma OverflowRange(fmt: Format, f: Fields)
    requires Narrowable(fmt) && f.exp - fmt.emax + 1 >= 16
    ensures Exact(fmt, f) >= Scaled(Units(fmt), HALF_INFINITY)
  {
    var g, k := Gap(HALF, fmt), 30;
    InfinityScaled(g, k);
    SourceAtLeast(fmt, f);
    Pow2Monotone(10 + k + g, fmt.p - 1 + f.exp - 1);
  }

  lemma UnderflowRange(fmt: Format, f: Fields)
    requires Narrowable(fmt) && f.mant < fmt.MantSize() && f.exp - fmt.emax + 1 < -25
    requires f.exp != 0 || f.mant != 0
    ensures 0 < 2 * Exact(fmt, f) < Units(fmt)
  {
    var g := Gap(HALF, fmt);
    assert 2 * fmt.MantSize() == Pow2(fmt.p);
    if f.exp == 0 {
      Pow2Monotone(fmt.p, g);
    } else {
      MagnitudeIsProduct(fmt, f.exp, f.mant);
      ScaleOrder(Pow2(f.exp - 1), 0, fmt.MantSize() + f.mant);
      ScaleOrder(Pow2(f.exp - 1), fmt.MantSize() + f.mant, Pow2(fmt.p));
      Pow2Add(fmt.p, f.exp - 1);
      Pow2Monotone(fmt.p + f.exp - 1 + 1, g);
      assert Pow2(fmt.p + f.exp - 1 + 1) == 2 * Pow2(fmt.p + f.exp - 1);
    }
  }

  lemma SplitProduct(q: nat, l: nat, r: nat, e: nat)
    ensures (q * l + r) * e == q * (l * e) + r * e
  {
    MulAssociative(q, l, e);
    var ql := q * l;
    assert (ql + r) * e == ql * e + r * e;
  }

  /** The exact value of a half pattern and of its successor, in terms of its significand. */
  lemma HalfPattern(hExp: nat, q: nat, s: nat)
    requires q < 0x400
    ensures var t, sig := hExp * 0x400 + q, if hExp == 0 then q else 0x400 + q;
            var unit := Pow2(if hExp == 0 then 0 else hExp - 1) * s;
            Scaled(s, t) == sig * unit && Scaled(s, t + 1) == sig * unit + unit
  {
    var t, sig, k := hExp * 0x400 + q, if hExp == 0 then q else 0x400 + q, if hExp == 0 then 0 else hExp - 1;
    assert t / 1024 == hExp && t % 1024 == q;
    HalfMantSize();
    HalfSpacing(t);
    if hExp > 0 {
      MagnitudeIsProduct(HALF, hExp, q);
    }
    ValueTimes(HalfValue(t), HalfValue(t + 1), sig, Pow2(k), s);
  }

  lemma ValueTimes(v: nat, v': nat, sig: nat, p: nat, s: nat)
    requires v == sig * p && v' == v + p
    ensures v * s == sig * (p * s) && v' * s == sig * (p * s) + p * s
  {
    MulAssociative(sig, p, s);
    assert (v + p) * s == v * s + p * s;
  }

  /** Cutting the lowest lsb bits off sig leaves the half mantissa below exponent field hExp; what is cut
      off and one unit in the last place, in the source's own units. */
  ghost predicate Truncates(fmt: Format, f: Fields, hExp: nat, sig: nat, lsb: nat)
    requires Narrowable(fmt) && f.exp >= 1
  {
    var t, w, s := hExp * 0x400 + Shr(sig, lsb), Pow2(f.exp - 1), Units(fmt);
    && Shr(sig, lsb) < 0x400
    && Exact(fmt, f) == Scaled(s, t) + (LowBits(sig, lsb)) * w
    && Scaled(s, t + 1) == Scaled(s, t) + Pow2(lsb) * w
  }

  /** The pattern the normal path truncates to, and what it drops. */
  lemma NormalPath(fmt: Format, f: Fields)
    requires Narrowable(fmt) && WellFormed(fmt, f) && -14 <= f.exp - fmt.emax + 1 <= 15
    ensures Truncates(fmt, f, f.exp - fmt.emax + 1 + 15, f.mant, fmt.p - 11)
  {
    PayloadFits(fmt, f.mant);
    var lsb, hExp, g := fmt.p - 11, f.exp - fmt.emax + 1 + 15, Gap(HALF, fmt);
    var q, r, w := Shr(f.mant, lsb), LowBits(f.mant, lsb), Pow2(f.exp - 1);
    HalfPattern(hExp, q, Pow2(g));
    Pow2Add(hExp - 1, g);
    Pow2Add(lsb, f.exp - 1);
    NormalSignificand(fmt, f.mant);
    MagnitudeIsProduct(fmt, f.exp, f.mant);
    SplitProduct(0x400 + q, Pow2(lsb), r, w);
  }

  lemma NormalSignificand(fmt: Format, mant: nat)
    requires Narrowable(fmt)
    ensures var k := fmt.p - 11;
            fmt.MantSize() + mant == (0x400 + Shr(mant, k)) * Pow2(k) + LowBits(mant, k)
  {
    var k := fmt.p - 11;
    Pow2Add(10, k);
    HalfMantSize();
    assert Pow2(10) == 2 * Pow2(9);
    ShiftSplits(mant, k);
    assert (0x400 + Shr(mant, k)) * Pow2(k) == 0x400 * Pow2(k) + Shr(mant, k) * Pow2(k);
  }

  lemma SubnormalPattern(t: nat, s: nat)
    requires t < 0x400
    ensures Scaled(s, t) == t * s && Scaled(s, t + 1) == t * s + s
  {
    HalfMantSize();
    HalfSpacing(t);
    assert t / 1024 == 0 && t % 1024 == t;
    assert (t + 1) * s == t * s + s;
  }

  lemma SubnormalSplit(t: nat, r: nat, lsb: nat, e1: nat, s: nat)
    requires t < 0x400 && s == Pow2(lsb + e1)
    ensures (t * Pow2(lsb) + r) * Pow2(e1) == Scaled(s, t) + r * Pow2(e1)
    ensures Scaled(s, t + 1) == Scaled(s, t) + Pow2(lsb) * Pow2(e1)
  {
    SubnormalPattern(t, s);
    Pow2Add(lsb, e1);
    SplitProduct(t, Pow2(lsb), r, Pow2(e1));
  }

  /** The pattern the subnormal path truncates to, and what it drops. */
  lemma SubnormalPath(fmt: Format, f: Fields, lsb: nat)
    requires Narrowable(fmt) && WellFormed(fmt, f) && -25 <= f.exp - fmt.emax + 1 < -14
    requires lsb == -(f.exp - fmt.emax + 1) + (fmt.p - 25)
    ensures f.exp >= 1 && lsb >= 1
    ensures Truncates(fmt, f, 0, fmt.MantSize() + f.mant, lsb)
  {
    var sig := fmt.MantSize() + f.mant;
    SubnormalFits(fmt, f.mant, lsb);
    MagnitudeIsProduct(fmt, f.exp, f.mant);
    ShiftSplits(sig, lsb);
    SubnormalSplit(Shr(sig, lsb), LowBits(sig, lsb), lsb, f.exp - 1, Units(fmt));
  }

  lemma SubnormalFits(fmt: Format, mant: nat, lsb: nat)
    requires Narrowable(fmt) && mant < fmt.MantSize() && lsb >= fmt.p - 10
    ensures Shr(fmt.MantSize() + mant, lsb) < 0x400
  {
    Pow2Add(10, lsb);
    Pow2Monotone(fmt.p, 10 + lsb);
    HalfMantSize();
    assert Pow2(10) == 2 * Pow2(9);
    ShiftBelow(fmt.MantSize() + mant, lsb, 0x400);
  }

  // ---------- the routines ----------

  /** The switch over the rounding mode. */
  method Round(mode: Mode, sign: nat, truncated: nat, rest: nat, halfway: nat) returns (hMant: nat)
    requires sign <= 1
    ensures hMant == Rounded(mode, sign == 1, truncated, rest, halfway)
  {
    hMant := truncated;
    match mode {
      case RTE =>
        if rest > halfway {
          hMant := hMant + 1;
        } else if rest == halfway {
          if hMant % 2 == 1 {
            hMant := hMant + 1;
          }
        }
      case RTZ =>
      case RTP =>
        if rest != 0 && sign == 0 {
          hMant := hMant + 1;
        }
      case RTN =>
        if rest != 0 && sign != 0 {
          hMant := hMant + 1;
        }
    }
  }

  /** The bits kept, the bits dropped, and half a unit in the last place. */
  method Cut(fMant: nat, lsbPos: nat) returns (truncated: nat, rest: nat, halfway: nat)
    requires lsbPos >= 1
    ensures truncated == Shr(fMant, lsbPos) && rest == LowBits(fMant, lsbPos)
    ensures 2 * halfway == Pow2(lsbPos) && rest < 2 * halfway
  {
    ShiftSplits(fMant, lsbPos);
    truncated := Shr(fMant, lsbPos);
    halfway := Pow2(lsbPos - 1);
    rest := LowBits(fMant, lsbPos);
  }

  /** The carry of a mantissa that rounding has filled up. */
  method Carry(hExp0: nat, hMant0: nat) returns (hExp: nat, hMant: nat)
    requires hMant0 <= 0x400
    ensures hExp * 0x400 + hMant == hExp0 * 0x400 + hMant0 && hMant < 0x400
  {
    hExp, hMant := hExp0, hMant0;
    if (hMant / 0x400) % 2 == 1 {
      hExp := hExp + 1;
      hMant := 0;
    }
  }

  lemma TruncatedRounds(fmt: Format, f: Fields, mode: Mode, hExp: nat, sig: nat, lsb: nat, halfway: nat, t: nat)
    requires Narrowable(fmt) && f.exp >= 1 && hExp <= 30 && Truncates(fmt, f, hExp, sig, lsb)
    requires 2 * halfway == Pow2(lsb) && t == Shr(sig, lsb)
    ensures RoundedBy(mode, f.sign == 1, Units(fmt), Exact(fmt, f),
              hExp * 0x400 + Rounded(mode, f.sign == 1, t, LowBits(sig, lsb), halfway))
  {
    ShiftSplits(sig, lsb);
    RoundStep(mode, f.sign == 1, Units(fmt), Exact(fmt, f), hExp, t, LowBits(sig, lsb), halfway, Pow2(f.exp - 1));
  }

  /** The common end of both paths: truncate, round, and carry into the exponent. */
  method RoundAndCarry(fmt: Format, f: Fields, mode: Mode, hExp0: nat, fMant: nat, lsbPos: nat) returns (h: nat)
    requires Narrowable(fmt) && f.exp >= 1 && f.sign <= 1 && hExp0 <= 30 && lsbPos >= 1
    requires Truncates(fmt, f, hExp0, fMant, lsbPos)
    ensures h / 0x8000 == f.sign && RoundedBy(mode, f.sign == 1, Units(fmt), Exact(fmt, f), h % 0x8000)
  {
    var truncated, rest, halfway := Cut(fMant, lsbPos);
    TruncatedRounds(fmt, f, mode, hExp0, fMant, lsbPos, halfway, truncated);
    var hMant := Round(mode, f.sign, truncated, rest, halfway);
    ghost var mag := hExp0 * 0x400 + hMant;
    var hExp;
    hExp, hMant := Carry(hExp0, hMant);
    h := f.sign * 0x8000 + hExp * 0x400 + hMant;
    DivModUnique(h, f.sign, mag, 0x8000);
  }

  /** A value within the range of the halves. */
  method RoundInRange(fmt: Format, f: Fields, mode: Mode) returns (h: nat)
    requires Narrowable(fmt) && WellFormed(fmt, f) && -25 <= f.exp - fmt.emax + 1 <= 15
    ensures h / 0x8000 == f.sign && RoundedBy(mode, f.sign == 1, Units(fmt), Exact(fmt, f), h % 0x8000)
  {
    var exp := f.exp - fmt.emax + 1;
    if exp < -14 {
      var lsbPos := -exp + (fmt.p - 25);
      SubnormalPath(fmt, f, lsbPos);
      h := RoundAndCarry(fmt, f, mode, 0, fmt.MantSize() + f.mant, lsbPos);
    } else {
      NormalPath(fmt, f);
      h := RoundAndCarry(fmt, f, mode, exp + HALF.emax - 1, f.mant, fmt.p - HALF.p);
    }
  }

  /** From the extracted fields on: special values and range checks first. */
  method HalfFromFields(fmt: Format, f: Fields, mode: Mode) returns (h: nat)
    requires Narrowable(fmt) && WellFormed(fmt, f)
    ensures h / 0x8000 == f.sign && NarrowsTo(fmt, f, mode, h % 0x8000)
  {
    var exp := f.exp - fmt.emax + 1;
    if f.exp == fmt.ExpOnes() {
      if f.mant != 0 {
        PayloadFits(fmt, f.mant);
        h := f.sign * 0x8000 + HALF_INFINITY + Quiet(Shr(f.mant, fmt.p - HALF.p));
      } else {
        h := f.sign * 0x8000 + HALF_INFINITY;
      }
    } else {
      h := HalfFromNumber(fmt, f, mode);
    }
  }

  method HalfFromNumber(fmt: Format, f: Fields, mode: Mode) returns (h: nat)
    requires Narrowable(fmt) && WellFormed(fmt, f) && IsFinite(fmt, f)
    ensures h / 0x8000 == f.sign && RoundedBy(mode, f.sign == 1, Units(fmt), Exact(fmt, f), h % 0x8000)
  {
    var exp := f.exp - fmt.emax + 1;
    if f.exp == 0 && f.mant == 0 {
      ExactRounding(mode, f.sign == 1, Units(fmt), 0);
      return f.sign * 0x8000;
    }
    if exp >= 16 {
      OverflowRange(fmt, f);
      ghost var mag := OverflowRounds(mode, f.sign, Units(fmt), Exact(fmt, f));
      h := HandleOverflow(mode, f.sign);
      DivModUnique(h, f.sign, mag, 0x8000);
    } else if exp < -13 - 11 - 1 {
      UnderflowRange(fmt, f);
      ghost var mag := UnderflowRounds(mode, f.sign, Units(fmt), Exact(fmt, f));
      h := HandleUnderflow(mode, f.sign);
      DivModUnique(h, f.sign, mag, 0x8000);
    } else {
      h := RoundInRange(fmt, f, mode);
    }
  }

  /** cl_half_from_float and cl_half_from_double. */
  method HalfFrom(fmt: Format, bits: nat, mode: Mode) returns (h: nat)
    requires Narrowable(fmt) && IsPattern(fmt, bits)
    ensures h < 0x1_0000 && Narrows(fmt, bits, mode, h)
  {
    EncodeDecode(fmt, bits);
    var sign := bits / fmt.SignSize();
    var fExp := (bits / fmt.MantSize()) % (2 * fmt.emax);
    var fMant := bits % fmt.MantSize();
    h := HalfFromFields(fmt, Fields(sign, fExp, fMant), mode);
  }
}
