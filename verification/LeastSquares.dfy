/** Sums over data points and the algebra of least squares, over exact reals and for polynomials of any
    degree. A polynomial is the sequence of its coefficients, constant term first. */
module LeastSquares {

  datatype Pt = Pt(x: real, y: real)

  function Power(x: real, k: nat): real {
    if k == 0 then 1.0 else x * Power(x, k - 1)
  }

  /** Sum of a quantity over the points. */
  function Total(ps: seq<Pt>, f: Pt -> real): real {
    if ps == [] then 0.0 else f(ps[0]) + Total(ps[1..], f)
  }

  lemma Distribute(a: real, b: real, c: real)
    ensures a * (b + c) == a * b + a * c
  {
  }

  lemma Regroup(a: real, b: real, c: real)
    ensures (a * b) * c == a * (b * c) == b * (a * c)
  {
  }

  /** Totals are linear. */
  lemma {:induction false} TotalLinear(ps: seq<Pt>, h: Pt -> real, a: real, f: Pt -> real, g: Pt -> real)
    requires forall p :: h(p) == a * f(p) + g(p)
    ensures Total(ps, h) == a * Total(ps, f) + Total(ps, g)
  {
    if ps == [] {
      assert a * 0.0 == 0.0;
    } else {
      TotalLinear(ps[1..], h, a, f, g);
      Distribute(a, f(ps[0]), Total(ps[1..], f));
    }
  }

  lemma {:induction false} TotalNonNegative(ps: seq<Pt>, f: Pt -> real)
    requires forall p :: f(p) >= 0.0
    ensures Total(ps, f) >= 0.0
    ensures Total(ps, f) == 0.0 <==> forall i :: 0 <= i < |ps| ==> f(ps[i]) == 0.0
  {
    if ps != [] {
      TotalNonNegative(ps[1..], f);
      assert forall i :: 0 < i < |ps| ==> ps[i] == ps[1..][i - 1];
      assert forall i :: 0 <= i < |ps| - 1 ==> ps[1..][i] == ps[i + 1];
    }
  }

  lemma {:induction false} TotalOfZero(ps: seq<Pt>, f: Pt -> real)
    requires forall p :: f(p) == 0.0
    ensures Total(ps, f) == 0.0
  {
    if ps != [] {
      TotalOfZero(ps[1..], f);
    }
  }

  lemma {:induction false} TotalAppend(a: seq<Pt>, b: seq<Pt>, f: Pt -> real)
    ensures Total(a + b, f) == Total(a, f) + Total(b, f)
  {
    if a == [] {
      assert a + b == b;
    } else {
      assert (a + b)[1..] == a[1..] + b;
      TotalAppend(a[1..], b, f);
    }
  }

  function Times(a: real, b: real): real {
    a * b
  }

  function XPower(k: nat): Pt -> real {
    (p: Pt) => Power(p.x, k)
  }

  function YPower(k: nat): Pt -> real {
    (p: Pt) => Times(p.y, Power(p.x, k))
  }

  /** Sum of x^k over the points. */
  function XSum(ps: seq<Pt>, k: nat): real {
    Total(ps, XPower(k))
  }

  /** Sum of y x^k over the points. */
  function YSum(ps: seq<Pt>, k: nat): real {
    Total(ps, YPower(k))
  }

  lemma {:induction false} XSumCounts(ps: seq<Pt>)
    ensures XSum(ps, 0) == |ps| as real
  {
    if ps != [] {
      XSumCounts(ps[1..]);
    }
  }

  function Value(c: seq<real>, x: real): real {
    if c == [] then 0.0 else c[0] + x * Value(c[1..], x)
  }

  function Square(v: real): real {
    Times(v, v)
  }

  lemma PositiveProduct(a: real, b: real)
    requires a > 0.0 && b > 0.0
    ensures Times(a, b) > 0.0
  {
  }

  lemma NegatedProduct(a: real, b: real)
    ensures Times(-a, -b) == Times(a, b)
  {
  }

  lemma SquareSign(v: real)
    ensures v == 0.0 ==> Square(v) == 0.0
    ensures v != 0.0 ==> Square(v) > 0.0
  {
    if v > 0.0 {
      PositiveProduct(v, v);
    } else if v < 0.0 {
      PositiveProduct(-v, -v);
      NegatedProduct(v, v);
    }
  }

  function Residual(c: seq<real>, p: Pt): real {
    p.y - Value(c, p.x)
  }

  function ResidualOf(c: seq<real>): Pt -> real {
    (p: Pt) => Residual(c, p)
  }

  function ValueOf(d: seq<real>): Pt -> real {
    (p: Pt) => Value(d, p.x)
  }

  function Squared(f: Pt -> real): Pt -> real {
    (p: Pt) => Square(f(p))
  }

  function Product(f: Pt -> real, g: Pt -> real): Pt -> real {
    (p: Pt) => Times(f(p), g(p))
  }

  /** Residual times x^k: the k-th normal equation says that its total vanishes. */
  function ResidualPower(c: seq<real>, k: nat): Pt -> real {
    (p: Pt) => Times(Residual(c, p), Power(p.x, k))
  }

  /** Sum of the squared residuals. */
  function SquaredError(ps: seq<Pt>, c: seq<real>): real {
    Total(ps, Squared(ResidualOf(c)))
  }

  /** Every point adds the square of its vertical distance to the curve. */
  lemma ErrorOfOneMore(p: Pt, ps: seq<Pt>, c: seq<real>)
    ensures SquaredError([], c) == 0.0
    ensures SquaredError([p] + ps, c) == (p.y - Value(c, p.x)) * (p.y - Value(c, p.x)) + SquaredError(ps, c)
  {
    assert ([p] + ps)[1..] == ps;
    assert Squared(ResidualOf(c))(p) == Square(p.y - Value(c, p.x));
  }

  lemma ErrorIsNonNegative(ps: seq<Pt>, c: seq<real>)
    ensures SquaredError(ps, c) >= 0.0
    ensures SquaredError(ps, c) == 0.0 <==> forall i :: 0 <= i < |ps| ==> ps[i].y == Value(c, ps[i].x)
  {
    forall p: Pt
      ensures Squared(ResidualOf(c))(p) >= 0.0 && (Squared(ResidualOf(c))(p) == 0.0 <==> p.y == Value(c, p.x))
    {
      SquareSign(Residual(c, p));
    }
    TotalNonNegative(ps, Squared(ResidualOf(c)));
    assert forall i :: 0 <= i < |ps| ==> (Squared(ResidualOf(c))(ps[i]) == 0.0 <==> ps[i].y == Value(c, ps[i].x));
  }

  // ---------- the normal equations, in terms of the sums the kernels compute ----------

  /** Sum over j of c[j] times the sum of x^(k+j). */
  function Moments(ps: seq<Pt>, c: seq<real>, k: nat): real {
    if c == [] then 0.0 else Times(c[0], XSum(ps, k)) + Moments(ps, c[1..], k + 1)
  }

  function WeightedValue(c: seq<real>, k: nat): Pt -> real {
    (p: Pt) => Times(Power(p.x, k), Value(c, p.x))
  }

  lemma WeightedTerm(w: real, c0: real, x: real, v: real)
    ensures Times(w, c0 + x * v) == c0 * w + Times(x * w, v)
  {
    Distribute(w, c0, x * v);
    Regroup(x, w, v);
  }

  lemma WeightedSplits(c: seq<real>, k: nat, p: Pt)
    requires c != []
    ensures WeightedValue(c, k)(p) == c[0] * XPower(k)(p) + WeightedValue(c[1..], k + 1)(p)
  {
    var w, v := Power(p.x, k), Value(c[1..], p.x);
    WeightedTerm(w, c[0], p.x, v);
    assert Value(c, p.x) == c[0] + p.x * v;
    assert WeightedValue(c, k)(p) == Times(w, Value(c, p.x));
    assert Power(p.x, k + 1) == p.x * w;
    assert WeightedValue(c[1..], k + 1)(p) == Times(Power(p.x, k + 1), v);
  }

  lemma {:induction false} MomentsAreTotals(ps: seq<Pt>, c: seq<real>, k: nat)
    ensures Total(ps, WeightedValue(c, k)) == Moments(ps, c, k)
    decreases c
  {
    if c == [] {
      forall p: Pt ensures WeightedValue(c, k)(p) == 0.0 {
        assert Times(Power(p.x, k), 0.0) == 0.0;
      }
      TotalOfZero(ps, WeightedValue(c, k));
    } else {
      MomentsAreTotals(ps, c[1..], k + 1);
      forall p: Pt ensures WeightedValue(c, k)(p) == c[0] * XPower(k)(p) + WeightedValue(c[1..], k + 1)(p) {
        WeightedSplits(c, k, p);
      }
      TotalLinear(ps, WeightedValue(c, k), c[0], XPower(k), WeightedValue(c[1..], k + 1));
    }
  }

  /** The k-th normal equation is linear in the coefficients, with sums of powers for coefficients. */
  lemma ResidualSums(ps: seq<Pt>, c: seq<real>, k: nat)
    ensures Total(ps, ResidualPower(c, k)) == YSum(ps, k) - Moments(ps, c, k)
  {
    forall p: Pt ensures ResidualPower(c, k)(p) == -1.0 * WeightedValue(c, k)(p) + YPower(k)(p) {
      DifferenceTimes(p.y, Value(c, p.x), Power(p.x, k));
      assert ResidualPower(c, k)(p) == Times(Residual(c, p), Power(p.x, k));
    }
    TotalLinear(ps, ResidualPower(c, k), -1.0, WeightedValue(c, k), YPower(k));
    MomentsAreTotals(ps, c, k);
  }

  lemma DifferenceTimes(y: real, v: real, w: real)
    ensures Times(y - v, w) == Times(y, w) - Times(w, v)
  {
  }

  /** The polynomial satisfies as many normal equations as it has coefficients. */
  ghost predicate Normal(ps: seq<Pt>, c: seq<real>) {
    forall k: nat :: k < |c| ==> Total(ps, ResidualPower(c, k)) == 0.0
  }

  // ---------- solutions of the normal equations are least ----------

  function Cross(c: seq<real>, d: seq<real>, k: nat): Pt -> real {
    (p: Pt) => Times(ResidualPower(c, k)(p), Value(d, p.x))
  }

  lemma CrossTerm(r: real, w: real, d0: real, x: real, v: real)
    ensures Times(Times(r, w), d0 + x * v) == d0 * Times(r, w) + Times(Times(r, x * w), v)
  {
    WeightedTerm(r * w, d0, x, v);
    Regroup(x, r, w);
  }

  lemma CrossSplits(c: seq<real>, d: seq<real>, k: nat, p: Pt)
    requires d != []
    ensures Cross(c, d, k)(p) == d[0] * ResidualPower(c, k)(p) + Cross(c, d[1..], k + 1)(p)
  {
    var r, w, v := Residual(c, p), Power(p.x, k), Value(d[1..], p.x);
    CrossTerm(r, w, d[0], p.x, v);
    assert Value(d, p.x) == d[0] + p.x * v;
    assert ResidualPower(c, k)(p) == Times(r, w);
    assert Cross(c, d, k)(p) == Times(Times(r, w), Value(d, p.x));
    assert Power(p.x, k + 1) == p.x * w;
    assert ResidualPower(c, k + 1)(p) == Times(r, Power(p.x, k + 1));
    assert Cross(c, d[1..], k + 1)(p) == Times(Times(r, Power(p.x, k + 1)), v);
  }

  /** Residuals of a solution are orthogonal to every polynomial of its degree. */
  lemma {:induction false} CrossVanishes(ps: seq<Pt>, c: seq<real>, d: seq<real>, k: nat)
    requires Normal(ps, c) && k + |d| <= |c|
    ensures Total(ps, Cross(c, d, k)) == 0.0
    decreases d
  {
    if d == [] {
      forall p: Pt ensures Cross(c, d, k)(p) == 0.0 {
        assert Times(ResidualPower(c, k)(p), 0.0) == 0.0;
      }
      TotalOfZero(ps, Cross(c, d, k));
    } else {
      CrossVanishes(ps, c, d[1..], k + 1);
      forall p: Pt ensures Cross(c, d, k)(p) == d[0] * ResidualPower(c, k)(p) + Cross(c, d[1..], k + 1)(p) {
        CrossSplits(c, d, k, p);
      }
      TotalLinear(ps, Cross(c, d, k), d[0], ResidualPower(c, k), Cross(c, d[1..], k + 1));
      assert Total(ps, ResidualPower(c, k)) == 0.0;
    }
  }

  function Minus(a: seq<real>, b: seq<real>): (d: seq<real>)
    requires |a| == |b|
    ensures |d| == |a| && forall i :: 0 <= i < |a| ==> d[i] == a[i] - b[i]
  {
    if a == [] then [] else [a[0] - b[0]] + Minus(a[1..], b[1..])
  }

  lemma {:induction false} ValueOfMinus(a: seq<real>, b: seq<real>, x: real)
    requires |a| == |b|
    ensures Value(Minus(a, b), x) == Value(a, x) - Value(b, x)
    decreases a
  {
    if a != [] {
      ValueOfMinus(a[1..], b[1..], x);
      assert Minus(a, b)[1..] == Minus(a[1..], b[1..]);
      Distribute(x, Value(a[1..], x), -Value(b[1..], x));
    }
  }

  lemma SquareOfDifference(r: real, v: real)
    ensures Square(r - v) == Square(r) - 2.0 * Times(r, v) + Square(v)
  {
    assert (r - v) * (r - v) == r * r - 2.0 * (r * v) + v * v;
  }

  function Sum(f: Pt -> real, g: Pt -> real): Pt -> real {
    (p: Pt) => f(p) + g(p)
  }

  lemma SquaresOfDifference(ps: seq<Pt>, r: Pt -> real, v: Pt -> real, d: Pt -> real)
    requires forall p :: d(p) == r(p) - v(p)
    ensures Total(ps, Squared(d)) == Total(ps, Squared(r)) - 2.0 * Total(ps, Product(r, v)) + Total(ps, Squared(v))
  {
    forall p: Pt ensures Squared(d)(p) == -2.0 * Product(r, v)(p) + Sum(Squared(r), Squared(v))(p) {
      SquareOfDifference(r(p), v(p));
    }
    TotalLinear(ps, Squared(d), -2.0, Product(r, v), Sum(Squared(r), Squared(v)));
    TotalLinear(ps, Sum(Squared(r), Squared(v)), 1.0, Squared(r), Squared(v));
  }

  lemma {:induction false} TotalSame(ps: seq<Pt>, f: Pt -> real, g: Pt -> real)
    requires forall p :: f(p) == g(p)
    ensures Total(ps, f) == Total(ps, g)
  {
    if ps != [] {
      TotalSame(ps[1..], f, g);
    }
  }

  lemma TimesOne(r: real, w: real)
    requires w == 1.0
    ensures Times(r, w) == r
  {
  }

  /** How the squared error of any polynomial relates to that of a solution. */
  lemma ErrorExpansion(ps: seq<Pt>, c: seq<real>, b: seq<real>)
    requires |b| == |c|
    ensures SquaredError(ps, b) ==
            SquaredError(ps, c) - 2.0 * Total(ps, Cross(c, Minus(b, c), 0)) + Total(ps, Squared(ValueOf(Minus(b, c))))
  {
    var d := Minus(b, c);
    forall p: Pt ensures ResidualOf(b)(p) == ResidualOf(c)(p) - ValueOf(d)(p) {
      ValueOfMinus(b, c, p.x);
    }
    SquaresOfDifference(ps, ResidualOf(c), ValueOf(d), ResidualOf(b));
    forall p: Pt ensures Product(ResidualOf(c), ValueOf(d))(p) == Cross(c, d, 0)(p) {
      TimesOne(Residual(c, p), Power(p.x, 0));
      assert ResidualOf(c)(p) == Residual(c, p);
      assert ResidualPower(c, 0)(p) == Times(Residual(c, p), Power(p.x, 0));
      assert ResidualPower(c, 0)(p) == Residual(c, p);
      assert ValueOf(d)(p) == Value(d, p.x);
      assert Product(ResidualOf(c), ValueOf(d))(p) == Times(ResidualOf(c)(p), ValueOf(d)(p));
      assert Cross(c, d, 0)(p) == Times(ResidualPower(c, 0)(p), Value(d, p.x));
    }
    TotalSame(ps, Product(ResidualOf(c), ValueOf(d)), Cross(c, d, 0));
  }

  /** A solution of the normal equations is a least-squares polynomial: any other polynomial of its degree
      is worse by the sum of the squared differences at the abscissae. */
  lemma NormalIsLeast(ps: seq<Pt>, c: seq<real>, b: seq<real>)
    requires Normal(ps, c) && |b| == |c|
    ensures SquaredError(ps, b) == SquaredError(ps, c) + Total(ps, Squared(ValueOf(Minus(b, c))))
    ensures SquaredError(ps, c) <= SquaredError(ps, b)
    ensures SquaredError(ps, b) == SquaredError(ps, c) ==>
              forall i :: 0 <= i < |ps| ==> Value(Minus(b, c), ps[i].x) == 0.0
  {
    ErrorExpansion(ps, c, b);
    CrossVanishes(ps, c, Minus(b, c), 0);
    forall p: Pt
      ensures Squared(ValueOf(Minus(b, c)))(p) >= 0.0
      ensures Squared(ValueOf(Minus(b, c)))(p) == 0.0 <==> Value(Minus(b, c), p.x) == 0.0
    {
      SquareSign(Value(Minus(b, c), p.x));
    }
    TotalNonNegative(ps, Squared(ValueOf(Minus(b, c))));
    if SquaredError(ps, b) == SquaredError(ps, c) {
      forall i | 0 <= i < |ps| ensures Value(Minus(b, c), ps[i].x) == 0.0 {
        assert Squared(ValueOf(Minus(b, c)))(ps[i]) == 0.0;
      }
    }
  }

  // ---------- distinct abscissae ----------

  ghost predicate TwoDistinct(ps: seq<Pt>) {
    exists i, j :: 0 <= i < |ps| && 0 <= j < |ps| && ps[i].x != ps[j].x
  }

  ghost predicate ThreeDistinct(ps: seq<Pt>) {
    exists i, j, k :: 0 <= i < |ps| && 0 <= j < |ps| && 0 <= k < |ps| &&
      ps[i].x != ps[j].x && ps[i].x != ps[k].x && ps[j].x != ps[k].x
  }

  lemma LineValue(a: real, b: real, x: real)
    ensures Value([a, b], x) == a + x * b
  {
    var c := [a, b];
    assert c[1..] == [b] && [b][1..] == [];
    assert Value([b], x) == b + x * Value([], x);
  }

  lemma ParabolaValue(a: real, b: real, c: real, x: real)
    ensures Value([a, b, c], x) == a + x * (b + x * c)
  {
    assert [a, b, c][1..] == [b, c];
    LineValue(b, c, x);
  }

  lemma ProductZero(a: real, b: real)
    requires a * b == 0.0 && b != 0.0
    ensures a == 0.0
  {
  }

  /** A line that vanishes at two places is the zero line. */
  lemma LineWithTwoRoots(a: real, b: real, u: real, v: real)
    requires u != v && a + u * b == 0.0 && a + v * b == 0.0
    ensures a == 0.0 && b == 0.0
  {
    Distribute(b, u, -v);
    ProductZero(b, u - v);
  }

  /** A parabola that vanishes at three places is the zero parabola. */
  lemma ParabolaWithThreeRoots(a: real, b: real, c: real, u: real, v: real, w: real)
    requires u != v && u != w && v != w
    requires a + u * (b + u * c) == 0.0 && a + v * (b + v * c) == 0.0 && a + w * (b + w * c) == 0.0
    ensures a == 0.0 && b == 0.0 && c == 0.0
  {
    Chord(a, b, c, u, v);
    Chord(a, b, c, u, w);
    ProductZero(b + (u + v) * c, u - v);
    ProductZero(b + (u + w) * c, u - w);
    assert (b + u * c) + v * c == 0.0 && (b + u * c) + w * c == 0.0;
    LineWithTwoRoots(b + u * c, c, v, w);
  }

  lemma Chord(a: real, b: real, c: real, u: real, v: real)
    ensures (a + u * (b + u * c)) - (a + v * (b + v * c)) == (b + (u + v) * c) * (u - v)
  {
    assert u * (b + u * c) == u * b + (u * u) * c;
    assert v * (b + v * c) == v * b + (v * v) * c;
    assert (u + v) * (u - v) == u * u - v * v;
    assert (b + (u + v) * c) * (u - v) == b * (u - v) + ((u + v) * (u - v)) * c;
  }
}
