/** What users of cl_half.h rely on, for every pattern and every rounding mode: one result per input and
    mode, independence of the source format, order, symmetry and round trips. */
module HalfTheorems {
  import opened Powers
  import opened FloatFormat
  import opened Rounding
  import opened HalfConversion
  import opened HalfWidening

  // ---------- one result ----------

  lemma NarrowsToOnce(fmt: Format, f: Fields, mode: Mode, m1: nat, m2: nat)
    requires Narrowable(fmt) && WellFormed(fmt, f) && NarrowsTo(fmt, f, mode, m1) && NarrowsTo(fmt, f, mode, m2)
    ensures m1 == m2
  {
    if IsFinite(fmt, f) {
      RoundedOnce(mode, f.sign == 1, Units(fmt), Exact(fmt, f), m1, m2);
    }
  }

  /** Pattern and mode determine the half. */
  lemma NarrowsOnce(fmt: Format, bits: nat, mode: Mode, h1: nat, h2: nat)
    requires Narrowable(fmt) && IsPattern(fmt, bits) && Narrows(fmt, bits, mode, h1) && Narrows(fmt, bits, mode, h2)
    ensures h1 == h2
  {
    EncodeDecode(fmt, bits);
    NarrowsToOnce(fmt, Decode(fmt, bits), mode, h1 % 0x8000, h2 % 0x8000);
  }

  // ---------- float and double agree ----------

  /** A value has the same half whichever format it comes from. */
  lemma SameValueSameHalf(fmt1: Format, f1: Fields, fmt2: Format, f2: Fields, mode: Mode, mag: nat)
    requires Narrowable(fmt1) && WellFormed(fmt1, f1) && IsFinite(fmt1, f1)
    requires Narrowable(fmt2) && WellFormed(fmt2, f2) && IsFinite(fmt2, f2)
    requires f1.sign == f2.sign && Exact(fmt1, f1) * Units(fmt2) == Exact(fmt2, f2) * Units(fmt1)
    ensures NarrowsTo(fmt1, f1, mode, mag) <==> NarrowsTo(fmt2, f2, mode, mag)
  {
    RoundedInAnyUnit(mode, f1.sign == 1, Units(fmt2), Units(fmt1), Exact(fmt1, f1), mag);
    RoundedInAnyUnit(mode, f2.sign == 1, Units(fmt1), Units(fmt2), Exact(fmt2, f2), mag);
    assert Units(fmt1) * Units(fmt2) == Units(fmt2) * Units(fmt1);
  }

  lemma {:induction false} ShiftOfMultiple(x: nat, d: nat, k: nat)
    ensures Shr(x * Pow2(d), d + k) == Shr(x, k)
  {
    if d > 0 {
      MulDouble(x, Pow2(d - 1));
      ShiftOfMultiple(x, d - 1, k);
    }
  }

  lemma {:induction false} ShiftOfSum(x: nat, y: nat, k: nat)
    ensures Shr(x + y * Pow2(k), k) == Shr(x, k) + y
  {
    if k > 0 {
      MulDouble(y, Pow2(k - 1));
      ShiftOfSum(x / 2, y, k - 1);
      assert (x + 2 * (y * Pow2(k - 1))) / 2 == x / 2 + y * Pow2(k - 1);
    }
  }

  lemma QuietBitOfShift(m: nat, k: nat)
    requires Shr(m, k) < 0x400
    ensures (Shr(m, k) / 0x200) % 2 == 1 <==> m >= 0x200 * Pow2(k)
  {
    ShiftSplits(m, k);
    ScaleOrder(Pow2(k), Shr(m, k), 0x200);
    if Shr(m, k) < 0x200 {
      MulMonotone(Shr(m, k) + 1, 0x200, Pow2(k));
    } else {
      MulMonotone(0x200, Shr(m, k), Pow2(k));
    }
  }

  /** The quiet bit of a format, in units of the last payload bit that a half keeps. */
  lemma QuietUnit(fmt: Format)
    requires Narrowable(fmt)
    ensures Pow2(fmt.p - 2) == 0x200 * Pow2(fmt.p - 11)
  {
    Pow2Add(9, fmt.p - 11);
    HalfMantSize();
  }

  /** A NaN keeps its leading payload bits whether it is narrowed at once or widened first. */
  lemma SamePayload(from: Format, to: Format, mant: nat)
    requires Widenable(from, to) && Narrowable(from) && Narrowable(to) && mant < from.MantSize()
    ensures Shr(mant, from.p - 11) < 0x400 && Shr(WidePayload(from, to, mant), to.p - 11) < 0x400
    ensures Quiet(Shr(WidePayload(from, to, mant), to.p - 11)) == Quiet(Shr(mant, from.p - 11))
  {
    var d, k := to.p - from.p, to.p - 11;
    var m := mant * Pow2(d);
    PayloadFits(from, mant);
    PayloadFits(to, WidePayload(from, to, mant));
    PayloadInRange(from, to, mant);
    PayloadFits(to, m);
    ShiftOfMultiple(mant, d, from.p - 11);
    QuietBitOfShift(m, k);
    QuietUnit(to);
    if m < Pow2(to.p - 2) {
      ShiftOfSum(m, 0x200, k);
    }
  }

  /** Narrowing directly and narrowing after an exact widening give the same bits, for every pattern and
      mode, NaNs, infinities and subnormals included. */
  lemma WidenThenNarrow(from: Format, to: Format, bits: nat, wide: nat, mode: Mode, h: nat)
    requires Widenable(from, to) && Narrowable(from) && Narrowable(to)
    requires IsPattern(from, bits) && Widens(from, to, bits, wide)
    ensures Narrows(from, bits, mode, h) <==> Narrows(to, wide, mode, h)
  {
    EncodeDecode(from, bits);
    EncodeDecode(to, wide);
    var f, g := Decode(from, bits), Decode(to, wide);
    if IsNaN(from, f) {
      SamePayload(from, to, f.mant);
    } else if IsFinite(from, f) {
      Pow2Add(Gap(from, to), Gap(HALF, from));
      MulAssociative(Exact(from, f), Pow2(Gap(from, to)), Units(from));
      SameValueSameHalf(from, f, to, g, mode, h % 0x8000);
    }
  }

  /** The two routines of the header, on a float and on the same float as a double. */
  lemma FloatAndDoubleAgree(bits: nat, wide: nat, mode: Mode, h: nat)
    requires IsPattern(FLOAT, bits) && Widens(FLOAT, DOUBLE, bits, wide)
    ensures Narrows(FLOAT, bits, mode, h) <==> Narrows(DOUBLE, wide, mode, h)
  {
    HalfFloatDoubleWiden();
    WidenThenNarrow(FLOAT, DOUBLE, bits, wide, mode, h);
  }

  // ---------- order ----------

  function SignedExact(fmt: Format, f: Fields): int
    requires fmt.Valid()
  {
    var x: int := Exact(fmt, f);
    if f.sign == 1 then -x else x
  }

  /** The value of a half in units of 2^-24; infinities count as the values after the largest finite. */
  function SignedHalf(h: nat): int {
    var x: int := HalfValue(h % 0x8000);
    if h / 0x8000 == 1 then -x else x
  }

  lemma {:induction false} LaterBinadeIsLarger(fmt: Format, e: nat, m: nat, e2: nat)
    requires fmt.Valid() && m < fmt.MantSize() && e < e2
    ensures Magnitude(fmt, e, m) < Magnitude(fmt, e2, 0)
    decreases e2
  {
    if e2 > 1 {
      if e > 1 {
        LaterBinadeIsLarger(fmt, e - 1, m, e2 - 1);
      } else {
        LaterBinadeIsLarger(fmt, 0, fmt.MantSize() - 1, e2 - 1);
      }
    }
  }

  lemma NarrowsWithin(fmt: Format, f: Fields, mode: Mode, mag: nat)
    requires Narrowable(fmt) && WellFormed(fmt, f) && !IsNaN(fmt, f) && NarrowsTo(fmt, f, mode, mag)
    ensures mag <= HALF_INFINITY
  {
  }

  lemma MagnitudesMonotone(fmt: Format, f: Fields, g: Fields, mode: Mode, mf: nat, mg: nat)
    requires Narrowable(fmt) && WellFormed(fmt, f) && WellFormed(fmt, g) && !IsNaN(fmt, f) && !IsNaN(fmt, g)
    requires f.sign == g.sign && Exact(fmt, f) <= Exact(fmt, g)
    requires NarrowsTo(fmt, f, mode, mf) && NarrowsTo(fmt, g, mode, mg)
    ensures mf <= mg
  {
    if IsFinite(fmt, g) {
      LaterBinadeIsLarger(fmt, g.exp, g.mant, fmt.ExpOnes());
      RoundedMonotone(mode, f.sign == 1, Units(fmt), Exact(fmt, f), Exact(fmt, g), mf, mg);
    } else {
      NarrowsWithin(fmt, f, mode, mf);
    }
  }

  lemma ZeroNarrowsToZero(fmt: Format, f: Fields, mode: Mode, mag: nat)
    requires Narrowable(fmt) && WellFormed(fmt, f) && Exact(fmt, f) == 0 && NarrowsTo(fmt, f, mode, mag)
    ensures mag == 0
  {
    if f.exp >= 1 {
      MagnitudeIsProduct(fmt, f.exp, f.mant);
      MulMonotone(1, fmt.MantSize() + f.mant, Pow2(f.exp - 1));
    }
    ExactRounding(mode, f.sign == 1, Units(fmt), 0);
    RoundedOnce(mode, f.sign == 1, Units(fmt), 0, mag, 0);
  }

  /** Narrowing in one mode never reverses the order of two values, infinities included. */
  lemma NarrowingIsMonotone(fmt: Format, b1: nat, b2: nat, mode: Mode, h1: nat, h2: nat)
    requires Narrowable(fmt) && IsPattern(fmt, b1) && IsPattern(fmt, b2)
    requires !IsNaN(fmt, Decode(fmt, b1)) && !IsNaN(fmt, Decode(fmt, b2))
    requires Narrows(fmt, b1, mode, h1) && Narrows(fmt, b2, mode, h2)
    requires SignedExact(fmt, Decode(fmt, b1)) <= SignedExact(fmt, Decode(fmt, b2))
    ensures SignedHalf(h1) <= SignedHalf(h2)
  {
    EncodeDecode(fmt, b1);
    EncodeDecode(fmt, b2);
    var f, g := Decode(fmt, b1), Decode(fmt, b2);
    var m1, m2 := h1 % 0x8000, h2 % 0x8000;
    HalfOrder(m1, m2);
    HalfOrder(m2, m1);
    if f.sign == g.sign == 0 {
      MagnitudesMonotone(fmt, f, g, mode, m1, m2);
    } else if f.sign == g.sign {
      MagnitudesMonotone(fmt, g, f, mode, m2, m1);
    } else if f.sign == 0 {
      ZeroNarrowsToZero(fmt, f, mode, m1);
      ZeroNarrowsToZero(fmt, g, mode, m2);
    }
  }

  /** The directed roundings enclose the nearest one; rounding towards zero takes the one of them that
      does not exceed the exact magnitude. */
  lemma ModesAreOrdered(fmt: Format, bits: nat, rtn: nat, rte: nat, rtp: nat, rtz: nat)
    requires Narrowable(fmt) && IsPattern(fmt, bits) && !IsNaN(fmt, Decode(fmt, bits))
    requires Narrows(fmt, bits, RTN, rtn) && Narrows(fmt, bits, RTE, rte)
    requires Narrows(fmt, bits, RTP, rtp) && Narrows(fmt, bits, RTZ, rtz)
    ensures SignedHalf(rtn) <= SignedHalf(rte) <= SignedHalf(rtp)
    ensures rtz == if Decode(fmt, bits).sign == 0 then rtn else rtp
    ensures IsFinite(fmt, Decode(fmt, bits)) ==> Scaled(Units(fmt), rtz % 0x8000) <= Exact(fmt, Decode(fmt, bits))
  {
    EncodeDecode(fmt, bits);
    var f := Decode(fmt, bits);
    var n, e, p, z := rtn % 0x8000, rte % 0x8000, rtp % 0x8000, rtz % 0x8000;
    if IsFinite(fmt, f) {
      var s, x := Units(fmt), Exact(fmt, f);
      if f.sign == 1 {
        NearestBetween(s, x, p, e, n);
        RoundedOnce(RTZ, true, s, x, z, p);
      } else {
        NearestBetween(s, x, n, e, p);
        RoundedOnce(RTZ, false, s, x, z, n);
      }
      HalfOrder(n, e);
      HalfOrder(e, p);
      HalfOrder(p, e);
      HalfOrder(e, n);
    }
  }

  // ---------- symmetry ----------

  function Mirror(mode: Mode): Mode {
    match mode
    case RTP => RTN
    case RTN => RTP
    case _ => mode
  }

  /** A pattern with its sign bit flipped. */
  function Negated(fmt: Format, bits: nat): nat
    requires fmt.Valid()
  {
    if bits < fmt.SignSize() then bits + fmt.SignSize() else bits - fmt.SignSize()
  }

  lemma NegatedFields(fmt: Format, bits: nat)
    requires fmt.Valid() && IsPattern(fmt, bits)
    ensures IsPattern(fmt, Negated(fmt, bits))
    ensures var f := Decode(fmt, bits);
            f.sign <= 1 && Decode(fmt, Negated(fmt, bits)) == f.(sign := 1 - f.sign)
  {
    EncodeDecode(fmt, bits);
    var f := Decode(fmt, bits);
    var g := f.(sign := 1 - f.sign);
    DecodeEncode(fmt, g);
    FlipSign(f.sign, fmt.SignSize(), f.exp * fmt.MantSize() + f.mant, bits);
    assert Encode(fmt, g) == Negated(fmt, bits);
  }

  lemma FlipSign(sign: nat, size: nat, rest: nat, bits: nat)
    requires sign <= 1 && bits == sign * size + rest && (bits < size <==> sign == 0)
    ensures (1 - sign) * size + rest == if bits < size then bits + size else bits - size
  {
    if sign == 0 {
      assert sign * size == 0;
    }
  }

  /** Narrowing the negated value in the mirrored mode gives the negated half. */
  lemma NegationMirrors(fmt: Format, bits: nat, mode: Mode, h: nat, h': nat)
    requires Narrowable(fmt) && IsPattern(fmt, bits) && h < 0x1_0000
    requires h' == if h < 0x8000 then h + 0x8000 else h - 0x8000
    ensures IsPattern(fmt, Negated(fmt, bits))
    ensures Narrows(fmt, bits, mode, h) <==> Narrows(fmt, Negated(fmt, bits), Mirror(mode), h')
  {
    NegatedFields(fmt, bits);
    EncodeDecode(fmt, bits);
    EncodeDecode(fmt, Negated(fmt, bits));
    var f, g := Decode(fmt, bits), Decode(fmt, Negated(fmt, bits));
    assert h' % 0x8000 == h % 0x8000 && h' / 0x8000 == 1 - h / 0x8000;
    assert NarrowsTo(fmt, f, mode, h % 0x8000) <==> NarrowsTo(fmt, g, Mirror(mode), h % 0x8000);
  }

  // ---------- round trips ----------

  lemma DecodeHalf(h: nat)
    requires h < 0x1_0000
    ensures IsPattern(HALF, h)
    ensures Decode(HALF, h) == Fields(h / 0x8000, (h % 0x8000) / 1024, (h % 0x8000) % 1024)
  {
    HalfMantSize();
    assert HALF.SignSize() == 0x8000;
  }

  /** Every half that is not a NaN comes back unchanged from being widened and narrowed, in every mode. */
  lemma RoundTrip(fmt: Format, h: nat, wide: nat, mode: Mode, r: nat)
    requires Narrowable(fmt) && Widenable(HALF, fmt) && h < 0x1_0000
    requires IsPattern(HALF, h) && Widens(HALF, fmt, h, wide) && !IsNaN(HALF, Decode(HALF, h))
    ensures Narrows(fmt, wide, mode, r) <==> r == h
  {
    DecodeHalf(h);
    EncodeDecode(HALF, h);
    EncodeDecode(fmt, wide);
    var f, g, mag := Decode(HALF, h), Decode(fmt, wide), h % 0x8000;
    assert NarrowsTo(fmt, g, mode, mag) by {
      if IsFinite(HALF, f) {
        assert Exact(HALF, f) == HalfValue(mag);
        ExactRounding(mode, g.sign == 1, Units(fmt), mag);
      } else {
        HalfMantSize();
      }
    }
    if Narrows(fmt, wide, mode, r) {
      NarrowsToOnce(fmt, g, mode, r % 0x8000, mag);
    }
  }

  lemma ShiftBack(x: nat, d: nat)
    ensures Shr(x * Pow2(d), d) == x
  {
    ShiftOfSum(0, x, d);
    ShiftOfNothing(d);
  }

  lemma PayloadReturns(fmt: Format, mant: nat)
    requires Narrowable(fmt) && Widenable(HALF, fmt) && mant < HALF.MantSize() == 0x400
    ensures Shr(WidePayload(HALF, fmt, mant), fmt.p - 11) == Quiet(mant)
  {
    var d := fmt.p - 11;
    QuietUnit(fmt);
    QuietShift(mant, d);
  }

  lemma QuietShift(mant: nat, d: nat)
    requires mant < 0x400
    ensures var m := mant * Pow2(d);
            Shr(if m >= 0x200 * Pow2(d) then m else m + 0x200 * Pow2(d), d) == Quiet(mant)
  {
    ScaleOrder(Pow2(d), mant, 0x200);
    ShiftBack(mant, d);
    ShiftOfSum(mant * Pow2(d), 0x200, d);
  }

  lemma {:induction false} ShiftOfNothing(k: nat)
    ensures Shr(0, k) == 0
  {
    if k > 0 {
      ShiftOfNothing(k - 1);
    }
  }

  lemma NaNFieldsReturn(fmt: Format, f: Fields, g: Fields, mode: Mode, mag: nat)
    requires Narrowable(fmt) && Widenable(HALF, fmt) && WellFormed(HALF, f) && f.mant < 0x400
    requires IsNaN(HALF, f) && WidensTo(HALF, fmt, f, g)
    ensures NarrowsTo(fmt, g, mode, mag) <==> mag == HALF_INFINITY + Quiet(f.mant)
  {
    HalfMantSize();
    PayloadReturns(fmt, f.mant);
  }

  lemma QuietHalf(h: nat, sign: nat, m: nat)
    requires sign <= 1 && m < 0x400 && h == sign * 0x8000 + HALF_INFINITY + m
    ensures var q := if (h / 0x200) % 2 == 1 then h else h + 0x200;
            q / 0x8000 == sign && q % 0x8000 == HALF_INFINITY + Quiet(m)
  {
  }

  /** A NaN comes back with its quiet bit set and is otherwise unchanged. */
  lemma RoundTripOfNaN(fmt: Format, h: nat, wide: nat, mode: Mode, r: nat)
    requires Narrowable(fmt) && Widenable(HALF, fmt) && h < 0x1_0000
    requires IsPattern(HALF, h) && Widens(HALF, fmt, h, wide) && IsNaN(HALF, Decode(HALF, h))
    ensures Narrows(fmt, wide, mode, r) <==> r == if (h / 0x200) % 2 == 1 then h else h + 0x200
  {
    DecodeHalf(h);
    EncodeDecode(HALF, h);
    EncodeDecode(fmt, wide);
    var f := Decode(HALF, h);
    assert h == f.sign * 0x8000 + HALF_INFINITY + f.mant;
    NaNFieldsReturn(fmt, f, Decode(fmt, wide), mode, r % 0x8000);
    QuietHalf(h, f.sign, f.mant);
  }

  // ---------- one widened pattern ----------

  /** A magnitude has one pair of fields. */
  lemma MagnitudeOnce(fmt: Format, e: nat, m: nat, e2: nat, m2: nat)
    requires fmt.Valid() && m < fmt.MantSize() && m2 < fmt.MantSize() && e <= e2
    requires Magnitude(fmt, e, m) == Magnitude(fmt, e2, m2)
    ensures e == e2 && m == m2
  {
    if e2 >= 1 {
      var n, w := fmt.MantSize(), Pow2(e2 - 1);
      MagnitudeIsProduct(fmt, e2, m2);
      if e < e2 {
        LaterBinadeIsLarger(fmt, e, m, e2);
        MagnitudeIsProduct(fmt, e2, 0);
        ScaleOrder(w, n, n + m2);
      } else {
        MagnitudeIsProduct(fmt, e2, m);
        ScaleOrder(w, n + m, n + m2);
        ScaleOrder(w, n + m2, n + m);
      }
    }
  }

  lemma WidensToOnce(from: Format, to: Format, f: Fields, g1: Fields, g2: Fields)
    requires Widenable(from, to) && WellFormed(from, f) && WidensTo(from, to, f, g1) && WidensTo(from, to, f, g2)
    ensures g1 == g2
  {
    if IsFinite(from, f) {
      if g1.exp <= g2.exp {
        MagnitudeOnce(to, g1.exp, g1.mant, g2.exp, g2.mant);
      } else {
        MagnitudeOnce(to, g2.exp, g2.mant, g1.exp, g1.mant);
      }
    }
  }

  /** A pattern widens to one pattern only. */
  lemma WidensOnce(from: Format, to: Format, bits: nat, w1: nat, w2: nat)
    requires Widenable(from, to) && IsPattern(from, bits)
    requires Widens(from, to, bits, w1) && Widens(from, to, bits, w2)
    ensures w1 == w2
  {
    EncodeDecode(from, bits);
    WidensToOnce(from, to, Decode(from, bits), Decode(to, w1), Decode(to, w2));
    EncodeDecode(to, w1);
    EncodeDecode(to, w2);
  }
}
