/** Correct rounding to binary16 (sections 4.3.1, 4.3.2 and 7.4 of IEEE 754-2008), stated on exact
    magnitudes without reference to any algorithm, and what follows from it.

    A magnitude x is a number of units, of which s make up the smallest half subnormal. */
module Rounding {
  import opened Powers
  import opened FloatFormat

  datatype Mode = RTE | RTZ | RTP | RTN

  function Scaled(s: nat, g: nat): nat {
    HalfValue(g) * s
  }

  lemma ScaleOrder(c: nat, x: nat, y: nat)
    requires c > 0
    ensures x <= y <==> x * c <= y * c
    ensures x < y <==> x * c < y * c
  {
    if x < y {
      MulMonotone(x + 1, y, c);
    } else {
      MulMonotone(y, x, c);
    }
    if y < x {
      MulMonotone(y + 1, x, c);
    }
  }

  lemma ScaledOrder(s: nat, g: nat, h: nat)
    requires s > 0
    ensures g < h <==> Scaled(s, g) < Scaled(s, h)
    ensures g <= h <==> Scaled(s, g) <= Scaled(s, h)
  {
    HalfOrder(g, h);
    ScaleOrder(s, HalfValue(g), HalfValue(h));
  }

  function Distance(x: nat, y: nat): nat {
    if x <= y then y - x else x - y
  }

  /** The largest finite half no greater than x. */
  ghost predicate RoundedDown(s: nat, x: nat, h: nat) {
    && h <= HALF_MAX_FINITE && Scaled(s, h) <= x
    && forall g: nat :: g <= HALF_MAX_FINITE && Scaled(s, g) <= x ==> Scaled(s, g) <= Scaled(s, h)
  }

  /** The least finite half no less than x, or infinity if there is none. */
  ghost predicate RoundedUp(s: nat, x: nat, h: nat) {
    && h <= HALF_INFINITY && (h == HALF_INFINITY || x <= Scaled(s, h))
    && forall g: nat :: g <= HALF_MAX_FINITE && x <= Scaled(s, g) ==> Scaled(s, h) <= Scaled(s, g)
  }

  /** The nearest half, the one with an even last digit when two are equally near. Infinity stands for
      the value the next binade would start with: so magnitudes of at least the largest finite half
      plus half a unit in its last place go to infinity, as section 4.3.1 asks. */
  ghost predicate RoundedToNearest(s: nat, x: nat, h: nat) {
    && h <= HALF_INFINITY
    && forall g: nat :: g <= HALF_INFINITY ==>
         && Distance(x, Scaled(s, h)) <= Distance(x, Scaled(s, g))
         && (g != h && Distance(x, Scaled(s, h)) == Distance(x, Scaled(s, g)) ==> h % 2 == 0)
  }

  /** The pattern h, without its sign, is the correct rounding of a value of the given sign and magnitude. */
  ghost predicate RoundedBy(mode: Mode, negative: bool, s: nat, x: nat, h: nat) {
    match mode
    case RTE => RoundedToNearest(s, x, h)
    case RTZ => RoundedDown(s, x, h)
    case RTP => if negative then RoundedDown(s, x, h) else RoundedUp(s, x, h)
    case RTN => if negative then RoundedUp(s, x, h) else RoundedDown(s, x, h)
  }

  // ---------- between two neighbours ----------

  /** x lies at t or between t and its successor. */
  ghost predicate Bracketed(s: nat, x: nat, t: nat) {
    t <= HALF_MAX_FINITE && Scaled(s, t) <= x < Scaled(s, t + 1)
  }

  lemma BracketDown(s: nat, x: nat, t: nat)
    requires s > 0 && Bracketed(s, x, t)
    ensures RoundedDown(s, x, t)
  {
    forall g: nat | g <= HALF_MAX_FINITE && Scaled(s, g) <= x ensures Scaled(s, g) <= Scaled(s, t) {
      ScaledOrder(s, g, t + 1);
      ScaledOrder(s, g, t);
    }
  }

  lemma BracketUp(s: nat, x: nat, t: nat)
    requires s > 0 && Bracketed(s, x, t)
    ensures RoundedUp(s, x, if x == Scaled(s, t) then t else t + 1)
  {
    var h := if x == Scaled(s, t) then t else t + 1;
    forall g: nat | g <= HALF_MAX_FINITE && x <= Scaled(s, g) ensures Scaled(s, h) <= Scaled(s, g) {
      ScaledOrder(s, t, g);
      ScaledOrder(s, t + 1, g);
    }
  }

  /** Every half is at least as far from x as the neighbour on its side. */
  lemma NeighbourIsCloser(s: nat, x: nat, t: nat, g: nat)
    requires s > 0 && Bracketed(s, x, t)
    ensures g <= t ==> Distance(x, Scaled(s, g)) >= x - Scaled(s, t)
    ensures g < t ==> Distance(x, Scaled(s, g)) > x - Scaled(s, t)
    ensures g > t ==> Distance(x, Scaled(s, g)) >= Scaled(s, t + 1) - x
    ensures g > t + 1 ==> Distance(x, Scaled(s, g)) > Scaled(s, t + 1) - x
  {
    ScaledOrder(s, g, t);
    ScaledOrder(s, t + 1, g);
  }

  lemma BracketNearest(s: nat, x: nat, t: nat)
    requires s > 0 && Bracketed(s, x, t)
    ensures var below, above := x - Scaled(s, t), Scaled(s, t + 1) - x;
            RoundedToNearest(s, x, if below < above || (below == above && t % 2 == 0) then t else t + 1)
  {
    var below, above := x - Scaled(s, t), Scaled(s, t + 1) - x;
    var h := if below < above || (below == above && t % 2 == 0) then t else t + 1;
    assert Distance(x, Scaled(s, h)) == if below < above then below else above;
    forall g: nat | g <= HALF_INFINITY
      ensures Distance(x, Scaled(s, h)) <= Distance(x, Scaled(s, g))
      ensures g != h && Distance(x, Scaled(s, h)) == Distance(x, Scaled(s, g)) ==> h % 2 == 0
    {
      NeighbourIsCloser(s, x, t, g);
    }
  }

  /** Which of the two neighbours a mode takes, from the distances to them. */
  predicate TakesUpper(mode: Mode, negative: bool, odd: bool, below: nat, above: int) {
    match mode
    case RTE => below > above || (below == above && odd)
    case RTZ => false
    case RTP => below != 0 && !negative
    case RTN => below != 0 && negative
  }

  lemma BracketRounds(mode: Mode, negative: bool, s: nat, x: nat, t: nat)
    requires s > 0 && Bracketed(s, x, t)
    ensures RoundedBy(mode, negative, s, x,
              if TakesUpper(mode, negative, t % 2 == 1, x - Scaled(s, t), Scaled(s, t + 1) - x) then t + 1 else t)
  {
    BracketDown(s, x, t);
    BracketUp(s, x, t);
    BracketNearest(s, x, t);
  }

  /** Beyond the largest finite half by a whole unit: largest finite or infinity, by direction. */
  lemma Overflows(s: nat, x: nat)
    requires s > 0 && x >= Scaled(s, HALF_INFINITY)
    ensures RoundedDown(s, x, HALF_MAX_FINITE)
    ensures RoundedUp(s, x, HALF_INFINITY)
    ensures RoundedToNearest(s, x, HALF_INFINITY)
  {
    forall g: nat | g <= HALF_INFINITY
      ensures g <= HALF_MAX_FINITE ==> Scaled(s, g) <= Scaled(s, HALF_MAX_FINITE) <= x
      ensures Scaled(s, g) <= Scaled(s, HALF_INFINITY)
      ensures g < HALF_INFINITY ==> Scaled(s, g) < Scaled(s, HALF_INFINITY)
    {
      ScaledOrder(s, g, HALF_MAX_FINITE);
      ScaledOrder(s, HALF_MAX_FINITE, HALF_INFINITY);
      ScaledOrder(s, g, HALF_INFINITY);
    }
  }

  // ---------- consequences ----------

  /** A magnitude and mode have one correct rounding. */
  lemma RoundedOnce(mode: Mode, negative: bool, s: nat, x: nat, h1: nat, h2: nat)
    requires s > 0 && RoundedBy(mode, negative, s, x, h1) && RoundedBy(mode, negative, s, x, h2)
    ensures h1 == h2
  {
    RoundedMonotone(mode, negative, s, x, x, h1, h2);
    RoundedMonotone(mode, negative, s, x, x, h2, h1);
  }

  /** Two nearest halves would both be even, and the half between them nearer. */
  lemma NearestOnce(s: nat, x: nat, g: nat, h: nat)
    requires s > 0 && g <= h && RoundedToNearest(s, x, g) && RoundedToNearest(s, x, h)
    ensures g == h
  {
    ScaledOrder(s, g, g + 1);
    ScaledOrder(s, g + 1, h);
    assert Distance(x, Scaled(s, g)) == Distance(x, Scaled(s, h));
  }

  lemma NearestMonotone(s: nat, x: nat, y: nat, hx: nat, hy: nat)
    requires s > 0 && x <= y && RoundedToNearest(s, x, hx) && RoundedToNearest(s, y, hy)
    ensures hx <= hy
  {
    assert Distance(x, Scaled(s, hx)) <= Distance(x, Scaled(s, hy));
    assert Distance(y, Scaled(s, hy)) <= Distance(y, Scaled(s, hx));
    ScaledOrder(s, hy, hx);
    if hy < hx {
      NearestOnce(s, x, hy, hx);
    }
  }

  /** Rounding never reverses an order. */
  lemma RoundedMonotone(mode: Mode, negative: bool, s: nat, x: nat, y: nat, hx: nat, hy: nat)
    requires s > 0 && x <= y && RoundedBy(mode, negative, s, x, hx) && RoundedBy(mode, negative, s, y, hy)
    ensures hx <= hy
  {
    ScaledOrder(s, hx, hy);
    if mode == RTE {
      NearestMonotone(s, x, y, hx, hy);
    }
  }

  /** A half is its own rounding in every mode. */
  lemma ExactRounding(mode: Mode, negative: bool, s: nat, h: nat)
    requires s > 0 && h <= HALF_MAX_FINITE
    ensures RoundedBy(mode, negative, s, Scaled(s, h), h)
  {
    ScaledOrder(s, h, h + 1);
    BracketDown(s, Scaled(s, h), h);
    BracketUp(s, Scaled(s, h), h);
    BracketNearest(s, Scaled(s, h), h);
  }

  /** Rounding to nearest lies between the two directed roundings. */
  lemma NearestBetween(s: nat, x: nat, down: nat, nearest: nat, up: nat)
    requires s > 0 && RoundedDown(s, x, down) && RoundedToNearest(s, x, nearest) && RoundedUp(s, x, up)
    ensures down <= nearest <= up
  {
    ScaledOrder(s, nearest, down);
    ScaledOrder(s, up, nearest);
    assert Distance(x, Scaled(s, nearest)) <= Distance(x, Scaled(s, down));
    assert Distance(x, Scaled(s, nearest)) <= Distance(x, Scaled(s, up));
  }

  // ---------- the unit does not matter ----------

  lemma MulAssociative(a: int, b: int, c: int)
    ensures a * (b * c) == (a * b) * c
  {
  }

  lemma ScaleDistance(c: nat, x: nat, y: nat)
    requires c > 0
    ensures Distance(x * c, y * c) == Distance(x, y) * c
  {
    ScaleOrder(c, x, y);
    assert (y - x) * c == y * c - x * c;
    assert (x - y) * c == x * c - y * c;
  }

  lemma ScaleUnits(c: nat, s: nat, x: nat, g: nat)
    requires c > 0
    ensures Scaled(s * c, g) == Scaled(s, g) * c
    ensures Scaled(s, g) <= x <==> Scaled(s * c, g) <= x * c
    ensures x <= Scaled(s, g) <==> x * c <= Scaled(s * c, g)
    ensures Distance(x * c, Scaled(s * c, g)) == Distance(x, Scaled(s, g)) * c
  {
    MulAssociative(HalfValue(g), s, c);
    ScaleOrder(c, x, Scaled(s, g));
    ScaleOrder(c, Scaled(s, g), x);
    ScaleDistance(c, x, Scaled(s, g));
  }

  /** Measuring in units c times smaller changes no rounding. */
  lemma RoundedInAnyUnit(mode: Mode, negative: bool, c: nat, s: nat, x: nat, h: nat)
    requires c > 0
    ensures RoundedBy(mode, negative, s, x, h) <==> RoundedBy(mode, negative, s * c, x * c, h)
  {
    ScaleUnits(c, s, x, h);
    forall g: nat
      ensures Scaled(s, g) <= x <==> Scaled(s * c, g) <= x * c
      ensures x <= Scaled(s, g) <==> x * c <= Scaled(s * c, g)
      ensures Scaled(s, g) <= Scaled(s, h) <==> Scaled(s * c, g) <= Scaled(s * c, h)
      ensures Scaled(s, h) <= Scaled(s, g) <==> Scaled(s * c, h) <= Scaled(s * c, g)
      ensures Distance(x, Scaled(s, h)) <= Distance(x, Scaled(s, g)) <==>
              Distance(x * c, Scaled(s * c, h)) <= Distance(x * c, Scaled(s * c, g))
      ensures Distance(x, Scaled(s, g)) <= Distance(x, Scaled(s, h)) <==>
              Distance(x * c, Scaled(s * c, g)) <= Distance(x * c, Scaled(s * c, h))
    {
      ScaleUnits(c, s, x, g);
      ScaleUnits(c, s, Scaled(s, h), g);
      ScaleUnits(c, s, Scaled(s, g), h);
      ScaleOrder(c, Distance(x, Scaled(s, h)), Distance(x, Scaled(s, g)));
      ScaleOrder(c, Distance(x, Scaled(s, g)), Distance(x, Scaled(s, h)));
    }
  }
}
