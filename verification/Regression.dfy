/** The closed forms of linear_regression.cpp and parabolic_regression.cpp, over exact reals: what they
    solve, when they are defined, and that they are least-squares fits. */
module Regression {
  import opened LeastSquares

  // ---------- the spread of the abscissae ----------

  /** The denominator of the line: N * sumXX - sumX * sumX. */
  function SpreadOf(n: real, sumX: real, sumXX: real): real {
    n * sumXX - sumX * sumX
  }

  function Spread(ps: seq<Pt>): real {
    SpreadOf(XSum(ps, 0), XSum(ps, 1), XSum(ps, 2))
  }

  function Offset(t: real): Pt -> real {
    (p: Pt) => p.x - t
  }

  lemma SquaredOffset(x: real, t: real)
    ensures Square(x - t) == (-2.0 * t) * Power(x, 1) + ((t * t) * Power(x, 0) + Power(x, 2))
  {
    assert Power(x, 1) == x * 1.0 && Power(x, 2) == x * Power(x, 1);
    SquareOfDifference(x, t);
  }

  function Combined(a: real, j: nat, k: nat): Pt -> real {
    (p: Pt) => a * Power(p.x, j) + Power(p.x, k)
  }

  lemma OffsetAt(p: Pt, t: real)
    ensures Squared(Offset(t))(p) == (-2.0 * t) * XPower(1)(p) + Combined(t * t, 0, 2)(p)
  {
    SquaredOffset(p.x, t);
    assert Squared(Offset(t))(p) == Square(p.x - t);
  }

  lemma SumOfOffsets(ps: seq<Pt>, t: real, a: real, b: real)
    requires a == -2.0 * t && b == t * t
    ensures Total(ps, Squared(Offset(t))) == Times(a, XSum(ps, 1)) + Times(b, XSum(ps, 0)) + XSum(ps, 2)
  {
    forall p: Pt ensures Squared(Offset(t))(p) == a * XPower(1)(p) + Combined(b, 0, 2)(p) {
      OffsetAt(p, t);
    }
    TotalLinear(ps, Squared(Offset(t)), a, XPower(1), Combined(b, 0, 2));
    TotalLinear(ps, Combined(b, 0, 2), b, XPower(0), XPower(2));
  }

  lemma SumOfSquaredOffsets(ps: seq<Pt>, t: real)
    ensures Total(ps, Squared(Offset(t))) == XSum(ps, 2) - 2.0 * t * XSum(ps, 1) + t * t * XSum(ps, 0)
  {
    SumOfOffsets(ps, t, -2.0 * t, t * t);
    OffsetAlgebra(Total(ps, Squared(Offset(t))), XSum(ps, 0), XSum(ps, 1), XSum(ps, 2), t);
  }

  lemma OffsetAlgebra(total: real, x0: real, x1: real, x2: real, t: real)
    requires total == Times(-2.0 * t, x1) + Times(t * t, x0) + x2
    ensures total == x2 - 2.0 * t * x1 + t * t * x0
  {
  }

  lemma SpreadAlgebra(n: real, s1: real, s2: real, x: real)
    ensures (1.0 + n) * (x * x + s2) - (x + s1) * (x + s1) == (n * s2 - s1 * s1) + (s2 - 2.0 * x * s1 + x * x * n)
  {
  }

  /** Lagrange's identity, one point at a time: the spread grows by the squared distances to the point. */
  lemma SpreadGrows(ps: seq<Pt>)
    requires ps != []
    ensures Spread(ps) == Spread(ps[1..]) + Total(ps[1..], Squared(Offset(ps[0].x)))
  {
    var x, rest := ps[0].x, ps[1..];
    SumOfSquaredOffsets(rest, x);
    SpreadAlgebra(XSum(rest, 0), XSum(rest, 1), XSum(rest, 2), x);
    assert Power(x, 0) == 1.0;
    assert Power(x, 1) == x * Power(x, 0) == x;
    assert Power(x, 2) == x * Power(x, 1) == x * x;
    assert XSum(ps, 0) == 1.0 + XSum(rest, 0) && XSum(ps, 1) == x + XSum(rest, 1);
    assert XSum(ps, 2) == x * x + XSum(rest, 2);
  }

  lemma OffsetsVanish(ps: seq<Pt>, t: real)
    ensures Total(ps, Squared(Offset(t))) >= 0.0
    ensures Total(ps, Squared(Offset(t))) == 0.0 <==> forall i :: 0 <= i < |ps| ==> ps[i].x == t
  {
    forall p: Pt ensures Squared(Offset(t))(p) >= 0.0 && (Squared(Offset(t))(p) == 0.0 <==> p.x == t) {
      SquareSign(p.x - t);
    }
    TotalNonNegative(ps, Squared(Offset(t)));
    assert forall i :: 0 <= i < |ps| ==> (Squared(Offset(t))(ps[i]) == 0.0 <==> ps[i].x == t);
  }

  /** The denominator is never negative, and positive exactly when two abscissae differ. */
  lemma {:induction false} SpreadPositive(ps: seq<Pt>)
    ensures Spread(ps) >= 0.0
    ensures Spread(ps) != 0.0 <==> TwoDistinct(ps)
  {
    if ps != [] {
      var rest := ps[1..];
      SpreadPositive(rest);
      SpreadGrows(ps);
      OffsetsVanish(rest, ps[0].x);
      assert forall i :: 0 < i < |ps| ==> ps[i] == rest[i - 1];
      assert forall i :: 0 <= i < |rest| ==> rest[i] == ps[i + 1];
      if Spread(ps) == 0.0 {
        assert forall i :: 0 <= i < |ps| ==> ps[i].x == ps[0].x;
      } else if Spread(rest) != 0.0 {
        var i, j :| 0 <= i < |rest| && 0 <= j < |rest| && rest[i].x != rest[j].x;
        assert ps[i + 1].x != ps[j + 1].x;
      } else {
        var i :| 0 <= i < |rest| && rest[i].x != ps[0].x;
        assert ps[i + 1].x != ps[0].x;
      }
    }
  }

  // ---------- the line ----------

  /** a0 * s0 + a1 * s1 */
  function Combination(a0: real, s0: real, a1: real, s1: real): real {
    Times(a0, s0) + Times(a1, s1)
  }

  lemma LineMoments(ps: seq<Pt>, a0: real, a1: real, k: nat)
    ensures Moments(ps, [a0, a1], k) == Combination(a0, XSum(ps, k), a1, XSum(ps, k + 1))
  {
    assert [a0, a1][1..] == [a1] && [a1][1..] == [];
    assert Moments(ps, [a1], k + 1) == Times(a1, XSum(ps, k + 1)) + Moments(ps, [], k + 2);
  }

  /** The two normal equations of a line, multiplied out. */
  lemma LineSolves(n: real, sx: real, sxx: real, sy: real, sxy: real, a0: real, a1: real)
    requires n * sxx - sx * sx != 0.0
    requires a0 * (n * sxx - sx * sx) == sy * sxx - sx * sxy
    requires a1 * (n * sxx - sx * sx) == n * sxy - sx * sy
    ensures a0 * n + a1 * sx == sy && a0 * sx + a1 * sxx == sxy
  {
    var d := n * sxx - sx * sx;
    assert (a0 * n + a1 * sx - sy) * d == n * (a0 * d) + sx * (a1 * d) - sy * d;
    assert n * (sy * sxx - sx * sxy) + sx * (n * sxy - sx * sy) - sy * d == 0.0;
    ProductZero(a0 * n + a1 * sx - sy, d);
    assert (a0 * sx + a1 * sxx - sxy) * d == sx * (a0 * d) + sxx * (a1 * d) - sxy * d;
    assert sx * (sy * sxx - sx * sxy) + sxx * (n * sxy - sx * sy) - sxy * d == 0.0;
    ProductZero(a0 * sx + a1 * sxx - sxy, d);
  }

  /** The coefficients A0 and A1 as the host computes them from its sums. */
  function FittedLine(n: real, sumX: real, sumXX: real, sumY: real, sumXY: real): (c: seq<real>)
    requires n * sumXX - sumX * sumX != 0.0
    ensures |c| == 2
  {
    [ (sumY * sumXX - sumX * sumXY) / (n * sumXX - sumX * sumX),
      (n * sumXY - sumX * sumY) / (n * sumXX - sumX * sumX) ]
  }

  function LineThrough(ps: seq<Pt>): (c: seq<real>)
    requires Spread(ps) != 0.0
    ensures |c| == 2
  {
    FittedLine(XSum(ps, 0), XSum(ps, 1), XSum(ps, 2), YSum(ps, 0), YSum(ps, 1))
  }

  lemma QuotientTimes(a: real, d: real)
    requires d != 0.0
    ensures (a / d) * d == a
  {
  }

  lemma LineIsNormal(ps: seq<Pt>)
    requires Spread(ps) != 0.0
    ensures Normal(ps, LineThrough(ps))
  {
    var n, sx, sxx, sy, sxy := XSum(ps, 0), XSum(ps, 1), XSum(ps, 2), YSum(ps, 0), YSum(ps, 1);
    var c := LineThrough(ps);
    QuotientTimes(sy * sxx - sx * sxy, n * sxx - sx * sx);
    QuotientTimes(n * sxy - sx * sy, n * sxx - sx * sx);
    LineSolves(n, sx, sxx, sy, sxy, c[0], c[1]);
    assert c == [c[0], c[1]];
    forall k: nat | k < |c| ensures Total(ps, ResidualPower(c, k)) == 0.0 {
      ResidualSums(ps, c, k);
      LineMoments(ps, c[0], c[1], k);
    }
  }

  lemma LinesAgreeingTwice(b: seq<real>, c: seq<real>, u: real, v: real)
    requires |b| == |c| == 2 && u != v
    requires Value(Minus(b, c), u) == 0.0 && Value(Minus(b, c), v) == 0.0
    ensures b == c
  {
    var d := Minus(b, c);
    assert d == [d[0], d[1]];
    LineValue(d[0], d[1], u);
    LineValue(d[0], d[1], v);
    LineWithTwoRoots(d[0], d[1], u, v);
  }

  /** The fitted line is the one line of least squared error, whenever two abscissae differ. */
  lemma LineIsLeast(ps: seq<Pt>, b: seq<real>)
    requires TwoDistinct(ps) && |b| == 2
    ensures Spread(ps) != 0.0
    ensures SquaredError(ps, LineThrough(ps)) <= SquaredError(ps, b)
    ensures SquaredError(ps, LineThrough(ps)) == SquaredError(ps, b) ==> b == LineThrough(ps)
  {
    SpreadPositive(ps);
    LineIsNormal(ps);
    LeastLineIsUnique(ps, LineThrough(ps), b);
  }

  lemma LeastLineIsUnique(ps: seq<Pt>, c: seq<real>, b: seq<real>)
    requires TwoDistinct(ps) && |b| == |c| == 2 && Normal(ps, c)
    ensures SquaredError(ps, c) <= SquaredError(ps, b)
    ensures SquaredError(ps, c) == SquaredError(ps, b) ==> b == c
  {
    NormalIsLeast(ps, c, b);
    if SquaredError(ps, c) == SquaredError(ps, b) {
      var i, j :| 0 <= i < |ps| && 0 <= j < |ps| && ps[i].x != ps[j].x;
      LinesAgreeingTwice(b, c, ps[i].x, ps[j].x);
    }
  }

  // ---------- the determinant of the parabola's normal equations ----------

  function Determinant3By3(a1: real, b1: real, c1: real, a2: real, b2: real, c2: real,
                           a3: real, b3: real, c3: real): real {
    a1 * b2 * c3 - a1 * b3 * c2 + (a3 * b1 * c2 - a2 * b1 * c3) + (a2 * b3 * c1 - a3 * b2 * c1)
  }

  /** detA of the host program, from the sums of powers. */
  function DetA(ps: seq<Pt>): real {
    var n, sx, sxx, sxxx, sxxxx := XSum(ps, 0), XSum(ps, 1), XSum(ps, 2), XSum(ps, 3), XSum(ps, 4);
    Determinant3By3(n, sx, sxx, sx, sxx, sxxx, sxx, sxxx, sxxxx)
  }

  /** The points (x, x^2). */
  function Squares(ps: seq<Pt>): (qs: seq<Pt>)
    ensures |qs| == |ps| && forall i :: 0 <= i < |ps| ==> qs[i] == Pt(ps[i].x, Square(ps[i].x))
  {
    if ps == [] then [] else [Pt(ps[0].x, Square(ps[0].x))] + Squares(ps[1..])
  }

  lemma SquarePower(x: real, k: nat)
    ensures Times(Square(x), Power(x, k)) == Power(x, k + 2)
  {
    assert Power(x, k + 2) == x * Power(x, k + 1);
    Regroup(x, x, Power(x, k));
  }

  lemma {:induction false} SumsOfSquares(ps: seq<Pt>, k: nat)
    ensures XSum(Squares(ps), k) == XSum(ps, k)
    ensures YSum(Squares(ps), k) == XSum(ps, k + 2)
    decreases ps
  {
    if ps != [] {
      SumsOfSquares(ps[1..], k);
      assert Squares(ps)[1..] == Squares(ps[1..]);
      SquarePower(ps[0].x, k);
      assert YPower(k)(Squares(ps)[0]) == Times(Square(ps[0].x), Power(ps[0].x, k));
    }
  }

  function Ordinate(): Pt -> real {
    (p: Pt) => p.y
  }

  lemma ResidualTimes(r: real, y: real, v: real)
    requires r == y - v
    ensures Square(r) == -1.0 * Times(r, v) + Times(r, y)
  {
    Distribute(r, y, -v);
  }

  /** The error of a solution is its residual weighed with the ordinates alone. */
  lemma ErrorOfSolution(ps: seq<Pt>, c: seq<real>)
    requires Normal(ps, c)
    ensures SquaredError(ps, c) == Total(ps, Product(ResidualOf(c), Ordinate()))
  {
    forall p: Pt
      ensures Squared(ResidualOf(c))(p) == -1.0 * Cross(c, c, 0)(p) + Product(ResidualOf(c), Ordinate())(p)
    {
      ResidualTimes(Residual(c, p), p.y, Value(c, p.x));
      TimesOne(Residual(c, p), Power(p.x, 0));
      assert ResidualPower(c, 0)(p) == Residual(c, p);
      assert Cross(c, c, 0)(p) == Times(Residual(c, p), Value(c, p.x));
    }
    TotalLinear(ps, Squared(ResidualOf(c)), -1.0, Cross(c, c, 0), Product(ResidualOf(c), Ordinate()));
    CrossVanishes(ps, c, c, 0);
  }

  /** On the points (x, x^2), ordinates are x^2: the error of a solution is its second residual sum. */
  lemma {:induction false} OrdinateIsSquare(ps: seq<Pt>, c: seq<real>)
    ensures Total(Squares(ps), Product(ResidualOf(c), Ordinate())) == Total(Squares(ps), ResidualPower(c, 2))
    decreases ps
  {
    if ps != [] {
      var q := Squares(ps)[0];
      OrdinateIsSquare(ps[1..], c);
      assert Squares(ps)[1..] == Squares(ps[1..]);
      assert Power(q.x, 1) == q.x * Power(q.x, 0) == q.x;
      assert Power(q.x, 2) == q.x * Power(q.x, 1) == q.y;
      assert ResidualPower(c, 2)(q) == Times(Residual(c, q), Power(q.x, 2));
      assert Product(ResidualOf(c), Ordinate())(q) == Times(Residual(c, q), q.y);
    }
  }

  lemma ResidualOnSquares(ps: seq<Pt>, c: seq<real>, k: nat)
    requires |c| == 2
    ensures Total(Squares(ps), ResidualPower(c, k)) ==
            XSum(ps, k + 2) - Combination(c[0], XSum(ps, k), c[1], XSum(ps, k + 1))
  {
    ResidualSums(Squares(ps), c, k);
    assert c == [c[0], c[1]];
    LineMoments(Squares(ps), c[0], c[1], k);
    SumsOfSquares(ps, k);
    SumsOfSquares(ps, k + 1);
  }

  lemma NormalOnSquares(ps: seq<Pt>, c: seq<real>, k: nat)
    requires |c| == 2 && Normal(Squares(ps), c) && k < 2
    ensures XSum(ps, k + 2) == Combination(c[0], XSum(ps, k), c[1], XSum(ps, k + 1))
  {
    ResidualOnSquares(ps, c, k);
  }

  lemma ErrorOnSquares(ps: seq<Pt>, c: seq<real>)
    requires |c| == 2 && Normal(Squares(ps), c)
    ensures SquaredError(Squares(ps), c) == XSum(ps, 4) - Combination(c[0], XSum(ps, 2), c[1], XSum(ps, 3))
  {
    ResidualOnSquares(ps, c, 2);
    ErrorOfSolution(Squares(ps), c);
    OrdinateIsSquare(ps, c);
  }

  lemma DetOfColumns(a1: real, b1: real, a2: real, b2: real, a3: real, b3: real, s: real, t: real, e: real)
    ensures Determinant3By3(a1, b1, s * a1 + t * b1, a2, b2, s * a2 + t * b2, a3, b3, s * a3 + t * b3 + e) ==
            (a1 * b2 - a2 * b1) * e
  {
  }

  /** Subtracting from the last column its projection on the others leaves only the error there. */
  lemma DetOfSums(n: real, sx: real, sxx: real, sxxx: real, sxxxx: real, a0: real, a1: real, e: real)
    requires sxx == Combination(a0, n, a1, sx) && sxxx == Combination(a0, sx, a1, sxx)
    requires e == sxxxx - Combination(a0, sxx, a1, sxxx)
    ensures Determinant3By3(n, sx, sxx, sx, sxx, sxxx, sxx, sxxx, sxxxx) == Times(SpreadOf(n, sx, sxx), e)
  {
    DetOfColumns(n, sx, sx, sxx, sxx, sxxx, a0, a1, e);
  }

  /** detA is the spread of the abscissae times the error of the best line through the points (x, x^2). */
  lemma DetFactors(ps: seq<Pt>, c: seq<real>)
    requires |c| == 2 && Normal(Squares(ps), c)
    ensures DetA(ps) == Times(Spread(ps), SquaredError(Squares(ps), c))
  {
    NormalOnSquares(ps, c, 0);
    NormalOnSquares(ps, c, 1);
    ErrorOnSquares(ps, c);
    DetOfSums(XSum(ps, 0), XSum(ps, 1), XSum(ps, 2), XSum(ps, 3), XSum(ps, 4), c[0], c[1],
              SquaredError(Squares(ps), c));
  }

  lemma SquaresKeepSpread(ps: seq<Pt>)
    ensures Spread(Squares(ps)) == Spread(ps)
  {
    SumsOfSquares(ps, 0);
    SumsOfSquares(ps, 1);
    SumsOfSquares(ps, 2);
  }
}
