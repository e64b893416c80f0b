/** The conversions of cl_half.h applied one after the other, to floats, doubles and halves. */
module HalfRuns {
  import opened FloatFormat
  import opened Rounding
  import opened HalfConversion
  import opened HalfTheorems
  import opened HalfWidening

  /** A float narrowed directly, and through a double of the same value: the same half, and a correct one, for
      every pattern. */
  method NarrowBothWays(bits: nat, mode: Mode) returns (direct: nat, wide: nat, through: nat)
    requires bits < 0x1_0000_0000
    ensures IsPattern(FLOAT, bits) && Widenable(FLOAT, DOUBLE) && Widens(FLOAT, DOUBLE, bits, wide)
    ensures Narrowable(FLOAT) && Narrows(FLOAT, bits, mode, direct)
    ensures wide < 0x1_0000_0000_0000_0000 && direct == through < 0x1_0000
  {
    FloatLayout(bits);
    FloatAndDoubleNarrow();
    HalfFloatDoubleWiden();
    direct := HalfFrom(FLOAT, bits, mode);
    wide := Widen(FLOAT, DOUBLE, bits);
    DoubleLayout(wide);
    through := HalfFrom(DOUBLE, wide, mode);
    FloatAndDoubleAgree(bits, wide, mode, direct);
    NarrowsOnce(DOUBLE, wide, mode, direct, through);
  }

  /** Every half widened to float or double and narrowed in any mode returns; a NaN gains its quiet bit. */
  method ThereAndBack(h: nat, double: bool, mode: Mode) returns (r: nat)
    requires h < 0x1_0000
    ensures r == if h % 0x8000 > 0x7C00 && (h / 0x200) % 2 == 0 then h + 0x200 else h
  {
    DecodeHalf(h);
    FloatAndDoubleNarrow();
    HalfFloatDoubleWiden();
    var fmt := if double then DOUBLE else FLOAT;
    var wide := Widen(HALF, fmt, h);
    r := HalfFrom(fmt, wide, mode);
    if IsNaN(HALF, Decode(HALF, h)) {
      RoundTripOfNaN(fmt, h, wide, mode, r);
    } else {
      RoundTrip(fmt, h, wide, mode, r);
    }
  }

  /** A number narrowed to a half does not become a NaN. */
  lemma NarrowedIsNoNaN(fmt: Format, bits: nat, mode: Mode, h: nat)
    requires Narrowable(fmt) && IsPattern(fmt, bits) && !IsNaN(fmt, Decode(fmt, bits))
    requires h < 0x1_0000 && Narrows(fmt, bits, mode, h)
    ensures IsPattern(HALF, h) && !IsNaN(HALF, Decode(HALF, h))
  {
    EncodeDecode(fmt, bits);
    NarrowsWithin(fmt, Decode(fmt, bits), mode, h % 0x8000);
    DecodeHalf(h);
  }

  /** Narrowing, widening and narrowing again, in whichever modes, is narrowing once. */
  method NarrowWidenNarrow(fmt: Format, bits: nat, mode: Mode, again: Mode) returns (once: nat, twice: nat)
    requires Narrowable(fmt) && Widenable(HALF, fmt) && IsPattern(fmt, bits) && !IsNaN(fmt, Decode(fmt, bits))
    ensures twice == once
  {
    once := HalfFrom(fmt, bits, mode);
    NarrowedIsNoNaN(fmt, bits, mode, once);
    var wide := Widen(HALF, fmt, once);
    twice := HalfFrom(fmt, wide, again);
    RoundTrip(fmt, once, wide, again, twice);
  }
}
