/** Halves and floats by their bits: the patterns that widening and narrowing give, for whole ranges and for the
    values that the tests of cl_half.h try. */
module HalfPatterns {
  import opened Powers
  import opened FloatFormat
  import opened Rounding
  import opened HalfConversion
  import opened HalfWidening
  import opened HalfTheorems

  // ---------- widened halves ----------

  lemma HalfFields(h: nat) returns (f: Fields)
    requires h < 0x1_0000
    ensures IsPattern(HALF, h) && f == Decode(HALF, h) && WellFormed(HALF, f)
    ensures f == Fields(h / 0x8000, (h / 0x400) % 32, h % 0x400)
  {
    DecodeHalf(h);
    EncodeDecode(HALF, h);
    f := Decode(HALF, h);
  }

  /** The bits of a float, from its fields. */
  lemma FloatBits(wide: nat, g: Fields)
    requires IsPattern(FLOAT, wide) && g == Decode(FLOAT, wide)
    ensures wide == g.sign * 0x8000_0000 + g.exp * 0x80_0000 + g.mant
  {
    FloatLayout(wide);
    Recombined(wide);
  }

  lemma Recombined(x: nat)
    ensures x == x / 0x8000_0000 * 0x8000_0000 + (x / 0x80_0000) % 256 * 0x80_0000 + x % 0x80_0000
  {
    var q := x / 0x80_0000;
    assert x / 0x8000_0000 == q / 256;
  }

  lemma FieldsWiden(f: Fields, g: Fields)
    requires Widenable(HALF, FLOAT) && WellFormed(HALF, f) && f.mant < 0x400 && WidensTo(HALF, FLOAT, f, g)
    ensures g.sign == f.sign
    ensures 1 <= f.exp <= 30 ==> g.exp == f.exp + 112 && g.mant == f.mant * 0x2000
    ensures f.exp == 31 ==> g.exp == 255
    ensures f.exp == 31 && f.mant == 0 ==> g.mant == 0
    ensures f.exp == 31 && f.mant != 0 ==>
              g.mant == f.mant * 0x2000 + if f.mant >= 0x200 then 0 else 0x40_0000
  {
    assert Pow2(13) == 0x2000;
    if 1 <= f.exp <= 30 {
      NormalWidens(f, g, 13);
    } else if f.exp == 31 && f.mant != 0 {
      assert Pow2(22) == 0x40_0000;
    }
  }

  lemma NormalWidens(f: Fields, g: Fields, d: nat)
    requires Widenable(HALF, FLOAT) && WellFormed(HALF, f) && WidensTo(HALF, FLOAT, f, g)
    requires 1 <= f.exp <= 30 && d == 13
    ensures g == Fields(f.sign, f.exp + 112, f.mant * Pow2(d))
  {
    NormalKeepsValue(HALF, FLOAT, f);
    WidensToOnce(HALF, FLOAT, f, g, Fields(f.sign, f.exp + 112, f.mant * Pow2(d)));
  }

  /** A half as a float: in the normal range the exponent grows by 112 and the mantissa moves up by 13; infinities
      and NaNs have all ones in the exponent, and a NaN keeps its payload and gains the quiet bit. */
  lemma WidenedBits(h: nat, wide: nat)
    requires h < 0x1_0000 && IsPattern(HALF, h) && Widenable(HALF, FLOAT) && Widens(HALF, FLOAT, h, wide)
    ensures var sign, exp, mant := h / 0x8000 * 0x8000_0000, (h / 0x400) % 32, h % 0x400 * 0x2000;
            && (1 <= exp <= 30 ==> wide == sign + (exp + 112) * 0x80_0000 + mant)
            && (exp == 31 && mant == 0 ==> wide == sign + 0x7F80_0000)
            && (exp == 31 && mant != 0 ==>
                  wide == sign + 0x7F80_0000 + mant + if (h / 0x200) % 2 == 1 then 0 else 0x40_0000)
  {
    var f := HalfFields(h);
    var g := Decode(FLOAT, wide);
    FieldsWiden(f, g);
    FloatBits(wide, g);
    QuietBit(h);
  }

  lemma QuietBit(h: nat)
    ensures (h / 0x200) % 2 == 1 <==> h % 0x400 >= 0x200
  {
  }

  // ---------- narrowed floats ----------

  lemma TheHalf(fmt: Format, bits: nat, f: Fields, mode: Mode, mag: nat, h: nat)
    requires Narrowable(fmt) && IsPattern(fmt, bits) && f == Decode(fmt, bits) && WellFormed(fmt, f)
    requires NarrowsTo(fmt, f, mode, mag) && mag < 0x8000
    ensures Narrows(fmt, bits, mode, h) <==> h == f.sign * 0x8000 + mag
  {
    if Narrows(fmt, bits, mode, h) {
      NarrowsToOnce(fmt, f, mode, h % 0x8000, mag);
    }
  }

  lemma FloatFields(bits: nat) returns (f: Fields)
    requires bits < 0x1_0000_0000
    ensures Narrowable(FLOAT) && IsPattern(FLOAT, bits) && f == Decode(FLOAT, bits) && WellFormed(FLOAT, f)
    ensures f == Fields(bits / 0x8000_0000, (bits / 0x80_0000) % 256, bits % 0x80_0000)
  {
    FloatLayout(bits);
    EncodeDecode(FLOAT, bits);
    f := Decode(FLOAT, bits);
  }

  lemma PowerOfTwo(fmt: Format, exp: nat)
    requires fmt.Valid() && exp >= 1
    ensures Magnitude(fmt, exp, 0) == Pow2(fmt.p + exp - 2)
  {
    MagnitudeIsProduct(fmt, exp, 0);
    Pow2Add(fmt.p - 1, exp - 1);
  }

  lemma OneInUnits(fmt: Format, exp: nat, one: nat)
    requires Narrowable(fmt) && exp == fmt.emax - 1 && one == 0x3C00
    ensures Magnitude(fmt, exp, 0) == Scaled(Units(fmt), one)
  {
    PowerOfTwo(fmt, exp);
    var halfExp := one / 1024;
    PowerOfTwo(HALF, halfExp);
    Pow2Add(HALF.p + halfExp - 2, Gap(HALF, fmt));
  }

  lemma OneIs3C00(fmt: Format, f: Fields, mode: Mode)
    requires Narrowable(fmt) && WellFormed(fmt, f) && f.exp == fmt.emax - 1 && f.mant == 0
    ensures NarrowsTo(fmt, f, mode, 0x3C00)
  {
    var one := 0x3C00;
    OneInUnits(fmt, f.exp, one);
    ExactRounding(mode, f.sign == 1, Units(fmt), one);
  }

  /** The infinities, in every mode. */
  lemma InfinityNarrows(mode: Mode, bits: nat, h: nat)
    requires bits == 0x7F80_0000 || bits == 0xFF80_0000
    ensures Narrowable(FLOAT) && IsPattern(FLOAT, bits)
    ensures Narrows(FLOAT, bits, mode, h) <==> h == if bits == 0x7F80_0000 then 0x7C00 else 0xFC00
  {
    var f := FloatFields(bits);
    InfinityIs7C00(FLOAT, f, mode);
    TheHalf(FLOAT, bits, f, mode, 0x7C00, h);
  }

  lemma InfinityIs7C00(fmt: Format, f: Fields, mode: Mode)
    requires Narrowable(fmt) && WellFormed(fmt, f) && f.exp == fmt.ExpOnes() && f.mant == 0
    ensures NarrowsTo(fmt, f, mode, 0x7C00)
  {
  }

  /** 1.0 and -1.0 are the halves 0x3C00 and 0xBC00 in every mode, and no others. */
  lemma OneNarrows(mode: Mode, bits: nat, h: nat)
    requires bits == 0x3F80_0000 || bits == 0xBF80_0000
    ensures Narrowable(FLOAT) && IsPattern(FLOAT, bits)
    ensures Narrows(FLOAT, bits, mode, h) <==> h == if bits == 0x3F80_0000 then 0x3C00 else 0xBC00
  {
    var f := FloatFields(bits);
    OneIs3C00(FLOAT, f, mode);
    TheHalf(FLOAT, bits, f, mode, 0x3C00, h);
  }

  /** 2^-25 lies halfway between zero and the smallest half; the tie goes to zero, which is even. */
  lemma HalfOfSmallest(fmt: Format, f: Fields, mode: Mode, mag: nat)
    requires Narrowable(fmt) && WellFormed(fmt, f) && f.exp == fmt.emax - 26 && f.mant == 0
    requires mag == if mode == (if f.sign == 1 then RTN else RTP) then 1 else 0
    ensures NarrowsTo(fmt, f, mode, mag)
  {
    PowerOfTwo(fmt, f.exp);
    var s, x := Units(fmt), Exact(fmt, f);
    assert s == 2 * x;
    assert HalfValue(0) == 0 && HalfValue(1) == 1;
    assert Scaled(s, 0) == 0 && Scaled(s, 1) == s;
    BracketRounds(mode, f.sign == 1, s, x, 0);
  }

  lemma TinyNarrows(mode: Mode, bits: nat, h: nat)
    requires bits == 0x3300_0000 || bits == 0xB300_0000
    ensures Narrowable(FLOAT) && IsPattern(FLOAT, bits)
    ensures Narrows(FLOAT, bits, mode, h) <==>
            h == if bits == 0x3300_0000 then (if mode == RTP then 0x0001 else 0x0000)
                 else if mode == RTN then 0x8001 else 0x8000
  {
    var f := FloatFields(bits);
    var mag := if mode == (if f.sign == 1 then RTN else RTP) then 1 else 0;
    HalfOfSmallest(FLOAT, f, mode, mag);
    TheHalf(FLOAT, bits, f, mode, mag, h);
  }

  /** From 2^16 on: infinity or the largest half, by mode and sign. */
  lemma OutOfRange(fmt: Format, f: Fields, mode: Mode, mag: nat)
    requires Narrowable(fmt) && WellFormed(fmt, f) && IsFinite(fmt, f) && f.exp >= fmt.emax + 15
    requires mag == if mode == RTE || mode == (if f.sign == 1 then RTN else RTP) then 0x7C00 else 0x7BFF
    ensures NarrowsTo(fmt, f, mode, mag)
  {
    OverflowRange(fmt, f);
    Overflows(Units(fmt), Exact(fmt, f));
  }

  /** Every float from 2^16 on that is not infinite, such as 66504.0, the largest half plus 1000. */
  lemma HugeNarrows(mode: Mode, bits: nat, sign: nat, h: nat)
    requires bits < 0x1_0000_0000 && 143 <= (bits / 0x80_0000) % 256 < 255 && sign == bits / 0x8000_0000
    ensures Narrowable(FLOAT) && IsPattern(FLOAT, bits)
    ensures Narrows(FLOAT, bits, mode, h) <==>
            h == sign * 0x8000 + if mode == RTE || mode == (if sign == 1 then RTN else RTP) then 0x7C00 else 0x7BFF
  {
    var f := FloatFields(bits);
    var mag := if mode == RTE || mode == (if sign == 1 then RTN else RTP) then 0x7C00 else 0x7BFF;
    OutOfRange(FLOAT, f, mode, mag);
    TheHalf(FLOAT, bits, f, mode, mag, h);
  }
}
