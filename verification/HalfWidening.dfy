/** cl_half_to_float, generic in both formats: a narrower pattern is turned into a wider one of the same
    value, a subnormal by shifting its leading one into the implicit place. */
module HalfWidening {
  import opened Powers
  import opened FloatFormat
  import opened Rounding
  import opened HalfConversion

  /** The wider format has the digits, and exponents for every normalised subnormal. */
  predicate Widenable(from: Format, to: Format) {
    from.Valid() && to.Valid() && from.p <= to.p && from.emax + from.p <= to.emax + 1
  }

  lemma HalfFloatDoubleWiden()
    ensures Widenable(HALF, FLOAT) && Widenable(FLOAT, DOUBLE) && Widenable(HALF, DOUBLE)
  {
  }

  /** Payload of a widened NaN: shifted to the wider mantissa, quiet bit set. */
  function WidePayload(from: Format, to: Format, mant: nat): (r: nat)
    requires Widenable(from, to) && mant < from.MantSize()
    ensures 0 < r < to.MantSize()
  {
    PayloadInRange(from, to, mant);
    var m := mant * Pow2(to.p - from.p);
    if m >= Pow2(to.p - 2) then m else m + Pow2(to.p - 2)
  }

  lemma PayloadInRange(from: Format, to: Format, mant: nat)
    requires Widenable(from, to) && mant < from.MantSize()
    ensures mant * Pow2(to.p - from.p) < to.MantSize()
  {
    var d := to.p - from.p;
    ScaleOrder(Pow2(d), mant, from.MantSize());
    Pow2Add(from.p - 1, d);
  }

  /** What a widening must return: same sign; a NaN becomes a quiet NaN with the same leading payload;
      infinity stays infinity; a number keeps its exact value. */
  ghost predicate WidensTo(from: Format, to: Format, f: Fields, g: Fields)
    requires Widenable(from, to) && WellFormed(from, f)
  {
    && WellFormed(to, g) && g.sign == f.sign
    && if IsNaN(from, f) then g.exp == to.ExpOnes() && g.mant == WidePayload(from, to, f.mant)
       else if IsFinite(from, f) then IsFinite(to, g) && Exact(to, g) == Exact(from, f) * Pow2(Gap(from, to))
       else g.exp == to.ExpOnes() && g.mant == 0
  }

  ghost predicate Widens(from: Format, to: Format, bits: nat, wide: nat)
    requires Widenable(from, to) && IsPattern(from, bits)
  {
    EncodeDecode(from, bits);
    IsPattern(to, wide) && WidensTo(from, to, Decode(from, bits), Decode(to, wide))
  }

  lemma NormalKeepsValue(from: Format, to: Format, f: Fields)
    requires Widenable(from, to) && WellFormed(from, f) && IsFinite(from, f) && f.exp >= 1
    ensures WidensTo(from, to, f, Fields(f.sign, f.exp + to.emax - from.emax, f.mant * Pow2(to.p - from.p)))
  {
    var d, x := to.p - from.p, to.emax - from.emax;
    PayloadInRange(from, to, f.mant);
    MagnitudeIsProduct(from, f.exp, f.mant);
    MagnitudeIsProduct(to, f.exp + x, f.mant * Pow2(d));
    Pow2Add(f.exp - 1, x);
    Pow2Add(x, d);
    WideSignificand(from, to, f.mant);
    Regroup(from.MantSize() + f.mant, Pow2(d), Pow2(f.exp - 1), Pow2(x));
  }

  lemma WideSignificand(from: Format, to: Format, mant: nat)
    requires Widenable(from, to)
    ensures to.MantSize() + mant * Pow2(to.p - from.p) == (from.MantSize() + mant) * Pow2(to.p - from.p)
  {
    var d := to.p - from.p;
    Pow2Add(from.p - 1, d);
    SplitProduct(1, from.MantSize(), mant, Pow2(d));
  }

  lemma Regroup(a: nat, d: nat, e: nat, x: nat)
    ensures (a * d) * (e * x) == (a * e) * (x * d)
  {
    MulAssociative(a, d, e * x);
    MulAssociative(a, e, x * d);
    MulAssociative(d, e, x);
    MulAssociative(e, x, d);
    assert d * (e * x) == e * (x * d);
  }

  lemma ShiftBounded(fmt: Format, mant: nat, k: nat)
    requires fmt.Valid() && mant >= 1 && mant * Pow2(k) < 2 * fmt.MantSize()
    ensures k < fmt.p
  {
    MulMonotone(1, mant, Pow2(k));
    if k >= fmt.p {
      Pow2Monotone(fmt.p, k);
    }
  }

  /** A subnormal with its leading one shifted into the implicit place by k. */
  lemma SubnormalKeepsValue(from: Format, to: Format, f: Fields, k: nat, m: nat)
    requires Widenable(from, to) && WellFormed(from, f) && f.exp == 0 && k >= 1 && f.mant >= 1
    requires m == f.mant * Pow2(k) && from.MantSize() <= m < 2 * from.MantSize()
    ensures k < from.p
    ensures WidensTo(from, to, f,
              Fields(f.sign, to.emax - from.emax + 1 - k, (m - from.MantSize()) * Pow2(to.p - from.p)))
  {
    ShiftBounded(from, f.mant, k);
    var d, x := to.p - from.p, to.emax - from.emax;
    PayloadInRange(from, to, m - from.MantSize());
    MagnitudeIsProduct(to, x + 1 - k, (m - from.MantSize()) * Pow2(d));
    WideSignificand(from, to, m - from.MantSize());
    Pow2Add(k, x - k);
    Pow2Add(x, d);
    ShiftedValue(f.mant, Pow2(k), Pow2(d), Pow2(x - k));
  }

  lemma ShiftedValue(a: nat, k: nat, d: nat, y: nat)
    ensures ((a * k) * d) * y == a * ((k * y) * d)
  {
    MulAssociative(a * k, d, y);
    MulAssociative(a, k, d * y);
    MulAssociative(k, y, d);
    MulAssociative(k, d, y);
    assert k * (d * y) == (k * y) * d;
  }

  lemma LeadingBit(fmt: Format, m: nat)
    requires fmt.Valid() && m < 2 * fmt.MantSize()
    ensures Shr(m, fmt.p - 1) % 2 == 0 <==> m < fmt.MantSize()
  {
    ShiftSplits(m, fmt.p - 1);
    ShiftBelow(m, fmt.p - 1, 2);
    if Shr(m, fmt.p - 1) == 0 {
      assert 0 * Pow2(fmt.p - 1) == 0;
    }
  }

  /** The loop that shifts the leading one of a subnormal mantissa into the implicit place. */
  method Normalize(fmt: Format, mant: nat) returns (m: nat, shift: nat)
    requires fmt.Valid() && 1 <= mant < fmt.MantSize()
    ensures shift >= 1 && m == mant * Pow2(shift) && fmt.MantSize() <= m < 2 * fmt.MantSize()
  {
    m, shift := mant, 0;
    while Shr(m, fmt.p - 1) % 2 == 0
      invariant 1 <= m < 2 * fmt.MantSize() && m == mant * Pow2(shift)
      invariant shift == 0 ==> m < fmt.MantSize()
      decreases 2 * fmt.MantSize() - m
    {
      LeadingBit(fmt, m);
      MulDouble(mant, Pow2(shift));
      m := m * 2;
      shift := shift + 1;
    }
    LeadingBit(fmt, m);
  }

  method WidenSubnormal(from: Format, to: Format, f: Fields) returns (g: Fields)
    requires Widenable(from, to) && WellFormed(from, f) && f.exp == 0 && f.mant != 0
    ensures WidensTo(from, to, f, g)
  {
    var wExp := f.exp - from.emax + 1 + to.emax - 1;
    var m, shift := Normalize(from, f.mant);
    SubnormalKeepsValue(from, to, f, shift, m);
    g := Fields(f.sign, wExp - (shift - 1), (m - from.MantSize()) * Pow2(to.p - from.p));
  }

  lemma SpecialsKeepValue(from: Format, to: Format, f: Fields)
    requires Widenable(from, to) && WellFormed(from, f)
    ensures IsNaN(from, f) ==> WidensTo(from, to, f, Fields(f.sign, to.ExpOnes(), WidePayload(from, to, f.mant)))
    ensures f.exp == from.ExpOnes() && f.mant == 0 ==> WidensTo(from, to, f, Fields(f.sign, to.ExpOnes(), 0))
    ensures f.exp == 0 && f.mant == 0 ==> WidensTo(from, to, f, Fields(f.sign, 0, 0))
  {
  }

  method WidenFields(from: Format, to: Format, f: Fields) returns (g: Fields)
    requires Widenable(from, to) && WellFormed(from, f)
    ensures WidensTo(from, to, f, g)
  {
    SpecialsKeepValue(from, to, f);
    if f.exp == from.ExpOnes() {
      g := Fields(f.sign, to.ExpOnes(), if f.mant != 0 then WidePayload(from, to, f.mant) else 0);
    } else if f.exp == 0 {
      if f.mant == 0 {
        g := Fields(f.sign, 0, 0);
      } else {
        g := WidenSubnormal(from, to, f);
      }
    } else {
      NormalKeepsValue(from, to, f);
      var exp := f.exp - from.emax + 1;
      g := Fields(f.sign, exp + to.emax - 1, f.mant * Pow2(to.p - from.p));
    }
  }

  /** cl_half_to_float, for any pair of formats. */
  method Widen(from: Format, to: Format, bits: nat) returns (wide: nat)
    requires Widenable(from, to) && IsPattern(from, bits)
    ensures Widens(from, to, bits, wide)
  {
    EncodeDecode(from, bits);
    var g := WidenFields(from, to, Decode(from, bits));
    DecodeEncode(to, g);
    wide := Encode(to, g);
  }
}
