/** findParabolla of parabolic_regression.cpp: Cramer's rule on the normal equations, when its
    determinant vanishes, and what it computes otherwise (exact reals). */
module ParabolicFit {
  import opened LeastSquares
  import opened Regression

  // ---------- when detA vanishes ----------

  /** The line that meets the parabola x^2 at u and v. */
  function Secant(u: real, v: real): (c: seq<real>)
    ensures |c| == 2
  {
    [-(u * v), u + v]
  }

  lemma SecantMeets(u: real, v: real, x: real)
    requires x == u || x == v
    ensures Value(Secant(u, v), x) == Square(x)
  {
    LineValue(-(u * v), u + v, x);
    Distribute(x, u, v);
  }

  lemma SecantFits(ps: seq<Pt>, u: real, v: real)
    requires forall i :: 0 <= i < |ps| ==> ps[i].x == u || ps[i].x == v
    ensures forall i :: 0 <= i < |ps| ==> Squares(ps)[i].y == Value(Secant(u, v), Squares(ps)[i].x)
    ensures SquaredError(Squares(ps), Secant(u, v)) == 0.0
  {
    forall i | 0 <= i < |ps| ensures Squares(ps)[i].y == Value(Secant(u, v), Squares(ps)[i].x) {
      SecantMeets(u, v, ps[i].x);
    }
    ErrorIsNonNegative(Squares(ps), Secant(u, v));
  }

  lemma LeastOfZero(qs: seq<Pt>, c: seq<real>, b: seq<real>)
    requires Normal(qs, c) && |b| == |c| && SquaredError(qs, b) == 0.0
    ensures SquaredError(qs, c) == 0.0
  {
    ErrorIsNonNegative(qs, c);
    NormalIsLeast(qs, c, b);
  }

  /** Two abscissae leave no error on the points (x, x^2). */
  lemma TwoLeaveNoError(ps: seq<Pt>, c: seq<real>, u: real, v: real)
    requires |c| == 2 && Normal(Squares(ps), c)
    requires forall i :: 0 <= i < |ps| ==> ps[i].x == u || ps[i].x == v
    ensures SquaredError(Squares(ps), c) == 0.0
  {
    SecantFits(ps, u, v);
    LeastOfZero(Squares(ps), c, Secant(u, v));
  }

  /** Three abscissae always leave an error: a line meets the parabola x^2 at most twice. */
  lemma ThreeLeaveError(ps: seq<Pt>, c: seq<real>)
    requires |c| == 2 && ThreeDistinct(ps)
    ensures SquaredError(Squares(ps), c) > 0.0
  {
    ErrorIsNonNegative(Squares(ps), c);
    var i, j, k :| 0 <= i < |ps| && 0 <= j < |ps| && 0 <= k < |ps| &&
      ps[i].x != ps[j].x && ps[i].x != ps[k].x && ps[j].x != ps[k].x;
    LineMeetsTwice(c, ps[i].x, ps[j].x, ps[k].x);
    assert Squares(ps)[i] == Pt(ps[i].x, Square(ps[i].x)) && Squares(ps)[j] == Pt(ps[j].x, Square(ps[j].x));
    assert Squares(ps)[k] == Pt(ps[k].x, Square(ps[k].x));
  }

  lemma LineMeetsTwice(c: seq<real>, u: real, v: real, w: real)
    requires |c| == 2 && u != v && u != w && v != w
    ensures Square(u) != Value(c, u) || Square(v) != Value(c, v) || Square(w) != Value(c, w)
  {
    assert c == [c[0], c[1]];
    OnLineAndSquare(c[0], c[1], u);
    OnLineAndSquare(c[0], c[1], v);
    OnLineAndSquare(c[0], c[1], w);
    if c[0] + u * (c[1] + u * -1.0) == 0.0 && c[0] + v * (c[1] + v * -1.0) == 0.0 &&
       c[0] + w * (c[1] + w * -1.0) == 0.0 {
      ParabolaWithThreeRoots(c[0], c[1], -1.0, u, v, w);
    }
  }

  lemma OnLineAndSquare(a: real, b: real, x: real)
    ensures Square(x) == Value([a, b], x) ==> a + x * (b + x * -1.0) == 0.0
  {
    LineValue(a, b, x);
    Distribute(x, b, x * -1.0);
  }

  lemma ZeroErrorIsNormal(ps: seq<Pt>, c: seq<real>)
    requires forall i :: 0 <= i < |ps| ==> ps[i].y == Value(c, ps[i].x)
    ensures Normal(ps, c)
  {
    forall k: nat | k < |c| ensures Total(ps, ResidualPower(c, k)) == 0.0 {
      ZeroResiduals(ps, c, k);
    }
  }

  lemma {:induction false} ZeroResiduals(ps: seq<Pt>, c: seq<real>, k: nat)
    requires forall i :: 0 <= i < |ps| ==> ps[i].y == Value(c, ps[i].x)
    ensures Total(ps, ResidualPower(c, k)) == 0.0
    decreases ps
  {
    if ps != [] {
      ZeroResiduals(ps[1..], c, k);
      assert Residual(c, ps[0]) == 0.0;
      assert Times(0.0, Power(ps[0].x, k)) == 0.0;
    }
  }

  lemma EqualAbscissae(ps: seq<Pt>)
    requires !TwoDistinct(ps)
    ensures DetA(ps) == 0.0
  {
    SpreadPositive(ps);
    var t := if ps == [] then 0.0 else ps[0].x;
    var c := Secant(t, t);
    SecantFits(ps, t, t);
    ZeroErrorIsNormal(Squares(ps), c);
    DetFactors(ps, c);
  }

  /** The host's test of detA against zero tells exactly whether at least three abscissae differ. */
  lemma DetVanishes(ps: seq<Pt>)
    ensures DetA(ps) >= 0.0
    ensures DetA(ps) != 0.0 <==> ThreeDistinct(ps)
  {
    SpreadPositive(ps);
    if !TwoDistinct(ps) {
      EqualAbscissae(ps);
    } else {
      SquaresKeepSpread(ps);
      var c := LineThrough(Squares(ps));
      LineIsNormal(Squares(ps));
      DetFactors(ps, c);
      if ThreeDistinct(ps) {
        ThreeLeaveError(ps, c);
        PositiveProduct(Spread(ps), SquaredError(Squares(ps), c));
      } else {
        var i, j :| 0 <= i < |ps| && 0 <= j < |ps| && ps[i].x != ps[j].x;
        forall k | 0 <= k < |ps| ensures ps[k].x == ps[i].x || ps[k].x == ps[j].x {
        }
        TwoLeaveNoError(ps, c, ps[i].x, ps[j].x);
      }
    }
  }

  // ---------- Cramer's rule ----------

  /** Cramer's rule, row by row. */
  lemma CramerFirstRow(a1: real, b1: real, c1: real, d1: real, a2: real, b2: real, c2: real, d2: real,
                       a3: real, b3: real, c3: real, d3: real)
    ensures a1 * Determinant3By3(d1, b1, c1, d2, b2, c2, d3, b3, c3)
          + b1 * Determinant3By3(a1, d1, c1, a2, d2, c2, a3, d3, c3)
          + c1 * Determinant3By3(a1, b1, d1, a2, b2, d2, a3, b3, d3)
         == d1 * Determinant3By3(a1, b1, c1, a2, b2, c2, a3, b3, c3)
  {
  }

  /** The coefficients of the host: detA0 / detA, detA1 / detA, detA2 / detA. */
  function Cramer(n: real, sumX: real, sumXX: real, sumXXX: real, sumXXXX: real,
                  sumY: real, sumXY: real, sumXXY: real): (c: seq<real>)
    requires Determinant3By3(n, sumX, sumXX, sumX, sumXX, sumXXX, sumXX, sumXXX, sumXXXX) != 0.0
    ensures |c| == 3
  {
    var detA := Determinant3By3(n, sumX, sumXX, sumX, sumXX, sumXXX, sumXX, sumXXX, sumXXXX);
    var detA0 := Determinant3By3(sumY, sumX, sumXX, sumXY, sumXX, sumXXX, sumXXY, sumXXX, sumXXXX);
    var detA1 := Determinant3By3(n, sumY, sumXX, sumX, sumXY, sumXXX, sumXX, sumXXY, sumXXXX);
    var detA2 := Determinant3By3(n, sumX, sumY, sumX, sumXX, sumXY, sumXX, sumXXX, sumXXY);
    [detA0 / detA, detA1 / detA, detA2 / detA]
  }

  /** a row times the quotients is its right-hand side, if it is so times the determinants. */
  lemma RowOfQuotients(a: real, b: real, c: real, d: real, x: real, y: real, z: real, det: real)
    requires det != 0.0 && a * x + b * y + c * z == d * det
    ensures Times(x / det, a) + Times(y / det, b) + Times(z / det, c) == d
  {
    var x', y', z' := x / det, y / det, z / det;
    QuotientTimes(x, det);
    QuotientTimes(y, det);
    QuotientTimes(z, det);
    var r := x' * a + y' * b + z' * c - d;
    assert r * det == a * (x' * det) + b * (y' * det) + c * (z' * det) - d * det;
    ProductZero(r, det);
  }

  lemma CramerSecondRow(a1: real, b1: real, c1: real, d1: real, a2: real, b2: real, c2: real, d2: real,
                        a3: real, b3: real, c3: real, d3: real)
    ensures a2 * Determinant3By3(d1, b1, c1, d2, b2, c2, d3, b3, c3)
          + b2 * Determinant3By3(a1, d1, c1, a2, d2, c2, a3, d3, c3)
          + c2 * Determinant3By3(a1, b1, d1, a2, b2, d2, a3, b3, d3)
         == d2 * Determinant3By3(a1, b1, c1, a2, b2, c2, a3, b3, c3)
  {
  }

  lemma CramerThirdRow(a1: real, b1: real, c1: real, d1: real, a2: real, b2: real, c2: real, d2: real,
                       a3: real, b3: real, c3: real, d3: real)
    ensures a3 * Determinant3By3(d1, b1, c1, d2, b2, c2, d3, b3, c3)
          + b3 * Determinant3By3(a1, d1, c1, a2, d2, c2, a3, d3, c3)
          + c3 * Determinant3By3(a1, b1, d1, a2, b2, d2, a3, b3, d3)
         == d3 * Determinant3By3(a1, b1, c1, a2, b2, c2, a3, b3, c3)
  {
  }

  // Cramer's coefficients solve the three normal equations.

  lemma FirstEquation(n: real, sx: real, sxx: real, sxxx: real, sxxxx: real, sy: real, sxy: real, sxxy: real)
    requires Determinant3By3(n, sx, sxx, sx, sxx, sxxx, sxx, sxxx, sxxxx) != 0.0
    ensures var c := Cramer(n, sx, sxx, sxxx, sxxxx, sy, sxy, sxxy);
            Times(c[0], n) + Times(c[1], sx) + Times(c[2], sxx) == sy
  {
    var detA0 := Determinant3By3(sy, sx, sxx, sxy, sxx, sxxx, sxxy, sxxx, sxxxx);
    var detA1 := Determinant3By3(n, sy, sxx, sx, sxy, sxxx, sxx, sxxy, sxxxx);
    var detA2 := Determinant3By3(n, sx, sy, sx, sxx, sxy, sxx, sxxx, sxxy);
    CramerFirstRow(n, sx, sxx, sy, sx, sxx, sxxx, sxy, sxx, sxxx, sxxxx, sxxy);
    RowOfQuotients(n, sx, sxx, sy, detA0, detA1, detA2,
                   Determinant3By3(n, sx, sxx, sx, sxx, sxxx, sxx, sxxx, sxxxx));
  }

  lemma SecondEquation(n: real, sx: real, sxx: real, sxxx: real, sxxxx: real, sy: real, sxy: real, sxxy: real)
    requires Determinant3By3(n, sx, sxx, sx, sxx, sxxx, sxx, sxxx, sxxxx) != 0.0
    ensures var c := Cramer(n, sx, sxx, sxxx, sxxxx, sy, sxy, sxxy);
            Times(c[0], sx) + Times(c[1], sxx) + Times(c[2], sxxx) == sxy
  {
    var detA0 := Determinant3By3(sy, sx, sxx, sxy, sxx, sxxx, sxxy, sxxx, sxxxx);
    var detA1 := Determinant3By3(n, sy, sxx, sx, sxy, sxxx, sxx, sxxy, sxxxx);
    var detA2 := Determinant3By3(n, sx, sy, sx, sxx, sxy, sxx, sxxx, sxxy);
    CramerSecondRow(n, sx, sxx, sy, sx, sxx, sxxx, sxy, sxx, sxxx, sxxxx, sxxy);
    RowOfQuotients(sx, sxx, sxxx, sxy, detA0, detA1, detA2,
                   Determinant3By3(n, sx, sxx, sx, sxx, sxxx, sxx, sxxx, sxxxx));
  }

  lemma ThirdEquation(n: real, sx: real, sxx: real, sxxx: real, sxxxx: real, sy: real, sxy: real, sxxy: real)
    requires Determinant3By3(n, sx, sxx, sx, sxx, sxxx, sxx, sxxx, sxxxx) != 0.0
    ensures var c := Cramer(n, sx, sxx, sxxx, sxxxx, sy, sxy, sxxy);
            Times(c[0], sxx) + Times(c[1], sxxx) + Times(c[2], sxxxx) == sxxy
  {
    var detA0 := Determinant3By3(sy, sx, sxx, sxy, sxx, sxxx, sxxy, sxxx, sxxxx);
    var detA1 := Determinant3By3(n, sy, sxx, sx, sxy, sxxx, sxx, sxxy, sxxxx);
    var detA2 := Determinant3By3(n, sx, sy, sx, sxx, sxy, sxx, sxxx, sxxy);
    CramerThirdRow(n, sx, sxx, sy, sx, sxx, sxxx, sxy, sxx, sxxx, sxxxx, sxxy);
    RowOfQuotients(sxx, sxxx, sxxxx, sxxy, detA0, detA1, detA2,
                   Determinant3By3(n, sx, sxx, sx, sxx, sxxx, sxx, sxxx, sxxxx));
  }

  function ParabolaThrough(ps: seq<Pt>): (c: seq<real>)
    requires DetA(ps) != 0.0
    ensures |c| == 3
  {
    Cramer(XSum(ps, 0), XSum(ps, 1), XSum(ps, 2), XSum(ps, 3), XSum(ps, 4), YSum(ps, 0), YSum(ps, 1), YSum(ps, 2))
  }

  lemma ParabolaMoments(ps: seq<Pt>, a: real, b: real, c: real, k: nat)
    ensures Moments(ps, [a, b, c], k) ==
            Times(a, XSum(ps, k)) + Times(b, XSum(ps, k + 1)) + Times(c, XSum(ps, k + 2))
  {
    assert [a, b, c][1..] == [b, c];
    LineMoments(ps, b, c, k + 1);
  }

  lemma ParabolaEquation(ps: seq<Pt>, k: nat)
    requires DetA(ps) != 0.0 && k < 3
    ensures var c := ParabolaThrough(ps);
            Times(c[0], XSum(ps, k)) + Times(c[1], XSum(ps, k + 1)) + Times(c[2], XSum(ps, k + 2)) == YSum(ps, k)
  {
    var n, sx, sxx, sxxx, sxxxx := XSum(ps, 0), XSum(ps, 1), XSum(ps, 2), XSum(ps, 3), XSum(ps, 4);
    if k == 0 {
      FirstEquation(n, sx, sxx, sxxx, sxxxx, YSum(ps, 0), YSum(ps, 1), YSum(ps, 2));
    } else if k == 1 {
      SecondEquation(n, sx, sxx, sxxx, sxxxx, YSum(ps, 0), YSum(ps, 1), YSum(ps, 2));
    } else {
      ThirdEquation(n, sx, sxx, sxxx, sxxxx, YSum(ps, 0), YSum(ps, 1), YSum(ps, 2));
    }
  }

  lemma ParabolaIsNormal(ps: seq<Pt>)
    requires DetA(ps) != 0.0
    ensures Normal(ps, ParabolaThrough(ps))
  {
    var c := ParabolaThrough(ps);
    assert c == [c[0], c[1], c[2]];
    forall k: nat | k < |c| ensures Total(ps, ResidualPower(c, k)) == 0.0 {
      ParabolaEquation(ps, k);
      ResidualSums(ps, c, k);
      ParabolaMoments(ps, c[0], c[1], c[2], k);
    }
  }

  lemma ParabolasAgreeingThrice(b: seq<real>, c: seq<real>, u: real, v: real, w: real)
    requires |b| == |c| == 3 && u != v && u != w && v != w
    requires Value(Minus(b, c), u) == 0.0 && Value(Minus(b, c), v) == 0.0 && Value(Minus(b, c), w) == 0.0
    ensures b == c
  {
    var d := Minus(b, c);
    assert d == [d[0], d[1], d[2]];
    ParabolaValue(d[0], d[1], d[2], u);
    ParabolaValue(d[0], d[1], d[2], v);
    ParabolaValue(d[0], d[1], d[2], w);
    ParabolaWithThreeRoots(d[0], d[1], d[2], u, v, w);
  }

  lemma LeastParabolaIsUnique(ps: seq<Pt>, c: seq<real>, b: seq<real>)
    requires ThreeDistinct(ps) && |b| == |c| == 3 && Normal(ps, c)
    ensures SquaredError(ps, c) <= SquaredError(ps, b)
    ensures SquaredError(ps, c) == SquaredError(ps, b) ==> b == c
  {
    NormalIsLeast(ps, c, b);
    if SquaredError(ps, c) == SquaredError(ps, b) {
      var i, j, k :| 0 <= i < |ps| && 0 <= j < |ps| && 0 <= k < |ps| &&
        ps[i].x != ps[j].x && ps[i].x != ps[k].x && ps[j].x != ps[k].x;
      ParabolasAgreeingThrice(b, c, ps[i].x, ps[j].x, ps[k].x);
    }
  }

  /** With three different abscissae, Cramer's parabola is the one parabola of least squared error. */
  lemma ParabolaIsLeast(ps: seq<Pt>, b: seq<real>)
    requires ThreeDistinct(ps) && |b| == 3
    ensures DetA(ps) != 0.0
    ensures SquaredError(ps, ParabolaThrough(ps)) <= SquaredError(ps, b)
    ensures SquaredError(ps, ParabolaThrough(ps)) == SquaredError(ps, b) ==> b == ParabolaThrough(ps)
  {
    DetVanishes(ps);
    ParabolaIsNormal(ps);
    LeastParabolaIsUnique(ps, ParabolaThrough(ps), b);
  }

  /** Data that lie on a parabola give it back exactly. */
  lemma ParabolaRecovered(ps: seq<Pt>, b: seq<real>)
    requires ThreeDistinct(ps) && |b| == 3
    requires forall i :: 0 <= i < |ps| ==> ps[i].y == Value(b, ps[i].x)
    ensures DetA(ps) != 0.0 && ParabolaThrough(ps) == b
  {
    ParabolaIsLeast(ps, b);
    ErrorIsNonNegative(ps, b);
    ErrorIsNonNegative(ps, ParabolaThrough(ps));
  }
}
