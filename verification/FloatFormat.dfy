/** Binary interchange formats (section 3.4 of IEEE 754-2008), generic in mantissa width and exponent
    range, and the exact values of their patterns as scaled integers. */
module FloatFormat {
  import opened Powers

  /** p is the number of significand digits (MANT_DIG), emax the largest exponent (MAX_EXP). */
  datatype Format = Format(p: nat, emax: nat) {
    predicate Valid() {
      p >= 2 && emax >= 2
    }

    /** One more than the largest stored mantissa. */
    function MantSize(): (r: nat)
      requires Valid()
      ensures r >= 2
    {
      2 * Pow2(p - 2)
    }

    /** The exponent field of infinities and NaNs. */
    function ExpOnes(): nat
      requires Valid()
    {
      2 * emax - 1
    }

    /** Number of patterns of one sign. */
    function SignSize(): (r: nat)
      requires Valid()
      ensures r > 0
    {
      var r := 2 * emax * MantSize();
      MulMonotone(1, 2 * emax, MantSize());
      r
    }
  }

  const HALF := Format(11, 16)
  const FLOAT := Format(24, 128)
  const DOUBLE := Format(53, 1024)

  datatype Fields = Fields(sign: nat, exp: nat, mant: nat)

  predicate WellFormed(fmt: Format, f: Fields)
    requires fmt.Valid()
  {
    f.sign <= 1 && f.exp <= fmt.ExpOnes() && f.mant < fmt.MantSize()
  }

  /** A pattern from its fields; the fields do not overlap, so joining them is adding them. */
  function Encode(fmt: Format, f: Fields): nat
    requires fmt.Valid()
  {
    f.sign * fmt.SignSize() + f.exp * fmt.MantSize() + f.mant
  }

  function Quotient(x: nat, d: nat): nat
    requires d > 0
  {
    x / d
  }

  function Decode(fmt: Format, bits: nat): Fields
    requires fmt.Valid()
  {
    Fields(Quotient(bits, fmt.SignSize()), Quotient(bits, fmt.MantSize()) % (2 * fmt.emax), bits % fmt.MantSize())
  }

  predicate IsPattern(fmt: Format, bits: nat)
    requires fmt.Valid()
  {
    bits < 2 * fmt.SignSize()
  }

  lemma DecodeEncode(fmt: Format, f: Fields)
    requires fmt.Valid() && WellFormed(fmt, f)
    ensures IsPattern(fmt, Encode(fmt, f)) && Decode(fmt, Encode(fmt, f)) == f
  {
    var n, e2, s := fmt.MantSize(), 2 * fmt.emax, fmt.SignSize();
    var bits := Encode(fmt, f);
    MulMonotone(f.exp + 1, e2, n);
    assert (f.exp + 1) * n == f.exp * n + n;
    MulMonotone(0, f.exp, n);
    DivModUnique(bits, f.sign, f.exp * n + f.mant, s);
    assert bits == (f.sign * e2 + f.exp) * n + f.mant by {
      assert f.sign * (e2 * n) == (f.sign * e2) * n;
      assert (f.sign * e2 + f.exp) * n == (f.sign * e2) * n + f.exp * n;
    }
    DivModUnique(bits, f.sign * e2 + f.exp, f.mant, n);
    DivModUnique(f.sign * e2 + f.exp, f.sign, f.exp, e2);
  }

  lemma EncodeDecode(fmt: Format, bits: nat)
    requires fmt.Valid() && IsPattern(fmt, bits)
    ensures WellFormed(fmt, Decode(fmt, bits)) && Encode(fmt, Decode(fmt, bits)) == bits
  {
    var n, e2, s := fmt.MantSize(), 2 * fmt.emax, fmt.SignSize();
    DivisionEquation(bits, s);
    DivisionEquation(bits, n);
    DivisionEquation(bits / n, e2);
    DivDiv(bits, n, e2);
    assert n * e2 == s;
    var sign, e := bits / s, (bits / n) % e2;
    if sign >= 2 {
      MulMonotone(2, sign, s);
    }
    assert (sign * e2 + e) * n == sign * s + e * n by {
      assert (sign * e2) * n == sign * (e2 * n);
      assert (sign * e2 + e) * n == (sign * e2) * n + e * n;
    }
  }

  lemma MantSizes()
    ensures HALF.MantSize() == 0x400 && FLOAT.MantSize() == 0x80_0000 && DOUBLE.MantSize() == 0x10_0000_0000_0000
  {
    assert Pow2(7) == 128 && Pow2(9) == 512;
    assert Pow2(22) == 0x40_0000;
    Pow2Add(22, 22);
    Pow2Add(7, 44);
  }

  /** The 32 bits of a float: one of sign, eight of exponent, 23 of mantissa. */
  lemma FloatLayout(bits: nat)
    ensures IsPattern(FLOAT, bits) <==> bits < 0x1_0000_0000
    ensures Decode(FLOAT, bits) == Fields(bits / 0x8000_0000, (bits / 0x80_0000) % 256, bits % 0x80_0000)
  {
    MantSizes();
    assert FLOAT.SignSize() == 0x8000_0000;
  }

  /** The 64 bits of a double: one of sign, eleven of exponent, 52 of mantissa. */
  lemma DoubleLayout(bits: nat)
    ensures IsPattern(DOUBLE, bits) <==> bits < 0x1_0000_0000_0000_0000
    ensures Decode(DOUBLE, bits) ==
            Fields(bits / 0x8000_0000_0000_0000, (bits / 0x10_0000_0000_0000) % 2048, bits % 0x10_0000_0000_0000)
  {
    MantSizes();
    assert DOUBLE.SignSize() == 0x8000_0000_0000_0000;
  }

  // ---------- values ----------

  predicate IsFinite(fmt: Format, f: Fields)
    requires fmt.Valid()
  {
    f.exp < fmt.ExpOnes()
  }

  predicate IsNaN(fmt: Format, f: Fields)
    requires fmt.Valid()
  {
    f.exp == fmt.ExpOnes() && f.mant != 0
  }

  /** Magnitude in units of the smallest subnormal, 2^(3 - emax - p): the stored mantissa, with the
      implicit leading one from exponent field 1 on, doubled by every further exponent. The formula also
      gives infinity the magnitude that the next binade would start with. */
  function Magnitude(fmt: Format, exp: nat, mant: nat): nat
    requires fmt.Valid()
  {
    if exp == 0 then mant
    else if exp == 1 then fmt.MantSize() + mant
    else 2 * Magnitude(fmt, exp - 1, mant)
  }

  lemma {:induction false} MagnitudeIsProduct(fmt: Format, exp: nat, mant: nat)
    requires fmt.Valid() && exp >= 1
    ensures Magnitude(fmt, exp, mant) == (fmt.MantSize() + mant) * Pow2(exp - 1)
  {
    if exp > 1 {
      MagnitudeIsProduct(fmt, exp - 1, mant);
      assert Pow2(exp - 1) == 2 * Pow2(exp - 2);
    }
  }

  /** How often the smallest subnormal of one format fits into that of a coarser one, as an exponent. */
  function Gap(coarse: Format, fine: Format): nat
    requires coarse.p <= fine.p && coarse.emax <= fine.emax
  {
    fine.p + fine.emax - coarse.p - coarse.emax
  }

  /** The smallest subnormals are 2^-24 of a half, 2^-149 of a float and 2^-1074 of a double. */
  lemma Gaps()
    ensures Gap(HALF, FLOAT) == 149 - 24 && Gap(HALF, DOUBLE) == 1074 - 24 && Gap(FLOAT, DOUBLE) == 1074 - 149
  {
  }

  // ---------- magnitudes of the half format ----------

  const HALF_INFINITY: nat := 0x7C00
  const HALF_MAX_FINITE: nat := 0x7BFF

  /** Value of the half pattern h without its sign, in units of 2^-24. */
  function HalfValue(h: nat): nat {
    Magnitude(HALF, h / 1024, h % 1024)
  }

  lemma HalfMantSize()
    ensures HALF.MantSize() == 1024
  {
    assert Pow2(9) == 512 by {
      assert Pow2(4) == 16;
    }
  }

  lemma {:induction false} MagnitudeSpacing(fmt: Format, exp: nat, mant: nat)
    requires fmt.Valid()
    ensures Magnitude(fmt, exp, mant + 1) == Magnitude(fmt, exp, mant) + Pow2(if exp == 0 then 0 else exp - 1)
    ensures Magnitude(fmt, exp + 1, 0) ==
            Magnitude(fmt, exp, fmt.MantSize() - 1) + Pow2(if exp == 0 then 0 else exp - 1)
  {
    if exp > 1 {
      MagnitudeSpacing(fmt, exp - 1, mant);
    }
  }

  /** The distance from a half pattern to the next is one unit in the last place, across exponents too. */
  lemma HalfSpacing(h: nat)
    ensures HalfValue(h + 1) == HalfValue(h) + Pow2(if h / 1024 == 0 then 0 else h / 1024 - 1)
  {
    HalfMantSize();
    var e, m := h / 1024, h % 1024;
    MagnitudeSpacing(HALF, e, m);
    if m == 1023 {
      assert (h + 1) / 1024 == e + 1 && (h + 1) % 1024 == 0;
    } else {
      assert (h + 1) / 1024 == e && (h + 1) % 1024 == m + 1;
    }
  }

  lemma {:induction false} HalfIncreases(g: nat, h: nat)
    requires g < h
    ensures HalfValue(g) < HalfValue(h)
  {
    HalfSpacing(h - 1);
    if g < h - 1 {
      HalfIncreases(g, h - 1);
    }
  }

  /** Half patterns are ordered as their values are. */
  lemma HalfOrder(g: nat, h: nat)
    ensures g < h <==> HalfValue(g) < HalfValue(h)
    ensures g <= h <==> HalfValue(g) <= HalfValue(h)
  {
    if g < h {
      HalfIncreases(g, h);
    } else if h < g {
      HalfIncreases(h, g);
    }
  }
}
