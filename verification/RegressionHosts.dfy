/** The kernels of linear_regression.cpp and parabolic_regression.cpp as a whole, and the host programs
    around them: load, reduce, sum over the groups, solve. */
module RegressionHosts {
  import opened WorkItems
  import opened LeastSquares
  import opened Reduction
  import opened Regression
  import opened ParabolicFit
  import opened Scatter

  /** The quantities a kernel accumulates, one per local array. */
  type Features = Pt -> seq<real>

  function LinearFeatures(): Features {
    (p: Pt) => [p.x, p.y, p.x * p.x, p.x * p.y]
  }

  /** In the order X, Y, XX, XY, XXY, XXX, XXXX. */
  function ParabolicFeatures(): Features {
    (p: Pt) =>
      var xx := p.x * p.x;
      [p.x, p.y, xx, p.x * p.y, xx * p.y, xx * p.x, xx * xx]
  }

  function Feature(features: Features, a: nat): Pt -> real {
    (p: Pt) => if a < |features(p)| then features(p)[a] else 0.0
  }

  /** What the work-item of a global id starts from: beyond the data an uninitialised value. */
  function LanePoint(points: seq<Pt>, junk: nat -> Pt, gid: nat): Pt {
    if gid < |points| then points[gid] else junk(gid)
  }

  /** What lane l holds in array a once the group has loaded its points. */
  function LoadedCell(points: seq<Pt>, junk: nat -> Pt, features: Features, group: nat): nat -> real {
    (c: nat) => Feature(features, c / 64)(LanePoint(points, junk, 64 * group + c % 64))
  }

  lemma LaneCell(points: seq<Pt>, junk: nat -> Pt, features: Features, group: nat, lane: nat, a: nat)
    requires lane < 64 && a < |features(LanePoint(points, junk, 64 * group + lane))|
    ensures LoadedCell(points, junk, features, group)(a * 64 + lane) ==
            features(LanePoint(points, junk, 64 * group + lane))[a]
  {
  }

  ghost predicate IsLoaded(m: seq<real>, points: seq<Pt>, junk: nat -> Pt, features: Features, group: nat) {
    forall c: nat :: c < |m| ==> m[c] == LoadedCell(points, junk, features, group)(c)
  }

  /** The stores of one lane, into its cell of every local array. */
  method LoadLane(points: seq<Pt>, junk: nat -> Pt, features: Features, arrays: nat, group: nat, lane: nat)
      returns (p: seq<Instr<real>>)
    requires lane < 64 && |features(LanePoint(points, junk, 64 * group + lane))| == arrays
    ensures p == Writes(Strided(0, 64, lane, arrays), LoadedCell(points, junk, features, group))
  {
    var values := features(LanePoint(points, junk, 64 * group + lane));
    p := [];
    for a := 0 to arrays
      invariant p == Writes(Strided(0, 64, lane, a), LoadedCell(points, junk, features, group))
    {
      LaneCell(points, junk, features, group, lane, a);
      WritesAppend(Strided(0, 64, lane, a), a * 64 + lane, LoadedCell(points, junk, features, group));
      p := p + [Store(a * 64 + lane, Const(values[a]))];
    }
  }

  /** The load of a group, under any scheduler. */
  method Load(points: seq<Pt>, junk: nat -> Pt, features: Features, arrays: nat, group: nat)
      returns (mem: array<real>)
    requires forall p :: |features(p)| == arrays
    ensures fresh(mem) && mem.Length == 64 * arrays && IsLoaded(mem[..], points, junk, features, group)
  {
    var ps: seq<seq<Instr<real>>> := [];
    for lane := 0 to 64
      invariant |ps| == lane
      invariant AreWrites(ps, StridedCells(64, arrays), LoadedCell(points, junk, features, group))
    {
      var p := LoadLane(points, junk, features, arrays, group, lane);
      OneMoreItem(ps, p, StridedCells(64, arrays), LoadedCell(points, junk, features, group));
      ps := ps + [p];
    }
    mem := new real[64 * arrays];
    StridedDealt(64, arrays);
    LaunchWrites(mem, ps, StridedCells(64, arrays), StridedOwner(64, arrays),
                 LoadedCell(points, junk, features, group));
  }

  ghost predicate LaneHolds(points: seq<Pt>, f: Pt -> real, lo: nat, m: seq<real>, base: nat, i: nat)
    requires lo + i < |points| && base + i < |m|
  {
    m[base + i] == f(points[lo + i])
  }

  /** The lanes in range of an array, summed. */
  lemma {:induction false} LaneTotals(points: seq<Pt>, f: Pt -> real, lo: nat, m: seq<real>, base: nat, n: nat)
    requires lo + n <= |points| && base + n <= |m|
    requires forall i: nat :: i < n ==> LaneHolds(points, f, lo, m, base, i)
    ensures CellSum(m, base, n) == Total(points[lo..lo + n], f)
  {
    if n > 0 {
      LaneTotals(points, f, lo, m, base, n - 1);
      assert points[lo..lo + n] == points[lo..lo + n - 1] + [points[lo + n - 1]];
      TotalAppend(points[lo..lo + n - 1], [points[lo + n - 1]], f);
      assert LaneHolds(points, f, lo, m, base, n - 1);
    }
  }

  /** The lanes that a group has loaded from n points in range. */
  lemma LoadedTotal(points: seq<Pt>, junk: nat -> Pt, features: Features, arrays: nat, group: nat, m: seq<real>,
                    a: nat, n: nat)
    requires |m| == 64 * arrays && a < arrays
    requires IsLoaded(m, points, junk, features, group)
    requires n <= 64 && 64 * group + n <= |points|
    ensures CellSum(m, 64 * a, n) == Total(points[64 * group..64 * group + n], Feature(features, a))
  {
    forall i: nat | i < n ensures LaneHolds(points, Feature(features, a), 64 * group, m, 64 * a, i) {
      var c := 64 * a + i;
      assert m[c] == LoadedCell(points, junk, features, group)(c);
    }
    LaneTotals(points, Feature(features, a), 64 * group, m, 64 * a, n);
  }

  /** One sum for each local array: over n of its cells. */
  ghost predicate CellSums(sums: seq<real>, m: seq<real>, arrays: nat, n: nat)
    requires |m| == 64 * arrays && n <= 64
  {
    |sums| == arrays && forall a: nat :: a < arrays ==> sums[a] == CellSum(m, 64 * a, n)
  }

  /** One sum for each quantity: over the given points. */
  ghost predicate TotalsOf(sums: seq<real>, points: seq<Pt>, features: Features, arrays: nat) {
    |sums| == arrays && forall a: nat :: a < arrays ==> sums[a] == Total(points, Feature(features, a))
  }

  lemma LoadedTotals(points: seq<Pt>, junk: nat -> Pt, features: Features, arrays: nat, group: nat, m: seq<real>,
                     sums: seq<real>, n: nat)
    requires |m| == 64 * arrays && IsLoaded(m, points, junk, features, group)
    requires n <= 64 && 64 * group + n <= |points| && CellSums(sums, m, arrays, n)
    ensures TotalsOf(sums, points[64 * group..64 * group + n], features, arrays)
  {
    forall a: nat | a < arrays
      ensures sums[a] == Total(points[64 * group..64 * group + n], Feature(features, a))
    {
      LoadedTotal(points, junk, features, arrays, group, m, a, n);
    }
  }

  /** The reduction, and what work-item 0 writes for the group. */
  method ReducedSums(mem: array<real>, arrays: nat, tail: nat) returns (sums: seq<real>)
    requires mem.Length == 64 * arrays && tail >= 1
    modifies mem
    ensures CellSums(sums, old(mem[..]), arrays, Min(64, tail))
  {
    Reduce(mem, arrays, tail);
    sums := seq(arrays, a requires 0 <= a < arrays reads mem => mem[64 * a]);
  }

  /** The reduction of what a group has loaded, with tail points left from its first one on. */
  method SumLoaded(mem: array<real>, points: seq<Pt>, ghost junk: nat -> Pt, ghost features: Features, arrays: nat,
                   ghost group: nat, tail: nat, ghost n: nat)
      returns (sums: seq<real>)
    requires mem.Length == 64 * arrays && IsLoaded(mem[..], points, junk, features, group)
    requires tail >= 1 && n == Min(64, tail) && 64 * group + n <= |points|
    modifies mem
    ensures TotalsOf(sums, points[64 * group..64 * group + n], features, arrays)
  {
    ghost var loaded := mem[..];
    sums := ReducedSums(mem, arrays, tail);
    LoadedTotals(points, junk, features, arrays, group, loaded, sums, n);
  }

  /** The kernel for one work-group. Its sums are those of the points in range, whatever the
      uninitialised lanes hold; a group that starts past the end writes nothing. */
  method Group(points: seq<Pt>, junk: nat -> Pt, features: Features, arrays: nat, group: nat)
      returns (written: bool, sums: seq<real>)
    requires forall p :: |features(p)| == arrays
    requires |points| < 0x8000_0000
    ensures written <==> 64 * group < |points|
    ensures written ==> |sums| == arrays
    ensures written ==> forall a :: 0 <= a < arrays ==>
              sums[a] == Total(points[64 * group..64 * group + Min(64, |points| - 64 * group)], Feature(features, a))
  {
    var mem := Load(points, junk, features, arrays, group);
    written := 64 * group < |points|;
    sums := [];
    if written {
      var tail := (|points| - 64 * group) % 0x1_0000_0000;
      sums := SumLoaded(mem, points, junk, features, arrays, group, tail, Min(64, tail));
    }
  }

  /** The host's sums over the groups of the launch, num_of_work_groups = N / 64. */
  method SumGroups(points: seq<Pt>, junk: nat -> Pt, features: Features, arrays: nat) returns (totals: seq<real>)
    requires forall p :: |features(p)| == arrays
    requires |points| < 0x8000_0000
    ensures |totals| == arrays
    ensures forall a :: 0 <= a < arrays ==>
              totals[a] == Total(points[..64 * (|points| / 64)], Feature(features, a))
  {
    var groups := |points| / 64;
    totals := seq(arrays, _ => 0.0);
    for g := 0 to groups
      invariant |totals| == arrays
      invariant forall a :: 0 <= a < arrays ==> totals[a] == Total(points[..64 * g], Feature(features, a))
    {
      var written, sums := Group(points, junk, features, arrays, g);
      forall a | 0 <= a < arrays
        ensures totals[a] + sums[a] == Total(points[..64 * (g + 1)], Feature(features, a))
      {
        assert points[..64 * (g + 1)] == points[..64 * g] + points[64 * g..64 * g + 64];
        TotalAppend(points[..64 * g], points[64 * g..64 * g + 64], Feature(features, a));
      }
      totals := seq(arrays, a requires 0 <= a < arrays && arrays == |totals| == |sums| => totals[a] + sums[a]);
    }
  }

  // ---------- linear_regression.cpp ----------

  datatype Line = Line(a0: real, a1: real) | DivisionByZero

  /** The totals of the line kernel are the sums of powers. */
  lemma LinearTotals(ps: seq<Pt>)
    ensures Total(ps, Feature(LinearFeatures(), 0)) == XSum(ps, 1)
    ensures Total(ps, Feature(LinearFeatures(), 1)) == YSum(ps, 0)
    ensures Total(ps, Feature(LinearFeatures(), 2)) == XSum(ps, 2)
    ensures Total(ps, Feature(LinearFeatures(), 3)) == YSum(ps, 1)
  {
    forall p: Pt
      ensures Feature(LinearFeatures(), 0)(p) == XPower(1)(p) && Feature(LinearFeatures(), 1)(p) == YPower(0)(p)
      ensures Feature(LinearFeatures(), 2)(p) == XPower(2)(p) && Feature(LinearFeatures(), 3)(p) == YPower(1)(p)
    {
      LowPowers(p.x);
      TimesCommutes(p.y, p.x);
    }
    TotalSame(ps, Feature(LinearFeatures(), 0), XPower(1));
    TotalSame(ps, Feature(LinearFeatures(), 1), YPower(0));
    TotalSame(ps, Feature(LinearFeatures(), 2), XPower(2));
    TotalSame(ps, Feature(LinearFeatures(), 3), YPower(1));
  }

  lemma LowPowers(x: real)
    ensures Power(x, 0) == 1.0 && Power(x, 1) == x && Power(x, 2) == x * x
  {
    assert Power(x, 1) == x * Power(x, 0);
    assert Power(x, 2) == x * Power(x, 1);
  }

  lemma TimesCommutes(a: real, b: real)
    ensures Times(a, b) == b * a && Times(a, 1.0) == a
  {
  }

  /** The closed form of the host; floating-point division by zero is kept apart. */
  method SolveLine(n: real, sumX: real, sumY: real, sumXX: real, sumXY: real) returns (line: Line)
    ensures SpreadOf(n, sumX, sumXX) == 0.0 ==> line == DivisionByZero
    ensures SpreadOf(n, sumX, sumXX) != 0.0 ==>
              line.Line? && [line.a0, line.a1] == FittedLine(n, sumX, sumXX, sumY, sumXY)
  {
    if n * sumXX - sumX * sumX == 0.0 {
      return DivisionByZero;
    }
    line := Line((sumY * sumXX - sumX * sumXY) / (n * sumXX - sumX * sumX),
                 (n * sumXY - sumX * sumY) / (n * sumXX - sumX * sumX));
  }

  lemma LineBeatsAll(points: seq<Pt>)
    requires TwoDistinct(points)
    ensures Spread(points) != 0.0
    ensures forall b: seq<real> :: |b| == 2 ==> SquaredError(points, LineThrough(points)) <= SquaredError(points, b)
    ensures forall b: seq<real> :: |b| == 2 && b != LineThrough(points) ==>
              SquaredError(points, LineThrough(points)) < SquaredError(points, b)
  {
    SpreadPositive(points);
    forall b: seq<real> | |b| == 2
      ensures SquaredError(points, LineThrough(points)) <= SquaredError(points, b)
      ensures b != LineThrough(points) ==> SquaredError(points, LineThrough(points)) < SquaredError(points, b)
    {
      LineIsLeast(points, b);
    }
  }

  /** The host program on N points, N a multiple of the work-group size: the coefficients of the fitted
      line, which is the one line of least squared error whenever two abscissae differ. */
  method LinearRegression(points: seq<Pt>, junk: nat -> Pt) returns (line: Line)
    requires |points| % 64 == 0 && |points| < 0x8000_0000
    ensures line.DivisionByZero? <==> !TwoDistinct(points)
    ensures line.Line? ==> forall b: seq<real> :: |b| == 2 ==>
              SquaredError(points, [line.a0, line.a1]) <= SquaredError(points, b)
    ensures line.Line? ==> forall b: seq<real> :: |b| == 2 && b != [line.a0, line.a1] ==>
              SquaredError(points, [line.a0, line.a1]) < SquaredError(points, b)
  {
    var sums := SumGroups(points, junk, LinearFeatures(), 4);
    assert points[..64 * (|points| / 64)] == points;
    LinearTotals(points);
    XSumCounts(points);
    SpreadPositive(points);
    line := SolveLine(|points| as real, sums[0], sums[1], sums[2], sums[3]);
    if TwoDistinct(points) {
      LineBeatsAll(points);
      assert LineThrough(points) == [line.a0, line.a1];
    }
  }

  // ---------- parabolic_regression.cpp ----------

  lemma ParabolicTotals(ps: seq<Pt>)
    ensures Total(ps, Feature(ParabolicFeatures(), 0)) == XSum(ps, 1)
    ensures Total(ps, Feature(ParabolicFeatures(), 1)) == YSum(ps, 0)
    ensures Total(ps, Feature(ParabolicFeatures(), 2)) == XSum(ps, 2)
    ensures Total(ps, Feature(ParabolicFeatures(), 3)) == YSum(ps, 1)
    ensures Total(ps, Feature(ParabolicFeatures(), 4)) == YSum(ps, 2)
    ensures Total(ps, Feature(ParabolicFeatures(), 5)) == XSum(ps, 3)
    ensures Total(ps, Feature(ParabolicFeatures(), 6)) == XSum(ps, 4)
  {
    forall p: Pt
      ensures Feature(ParabolicFeatures(), 0)(p) == XPower(1)(p) && Feature(ParabolicFeatures(), 1)(p) == YPower(0)(p)
      ensures Feature(ParabolicFeatures(), 2)(p) == XPower(2)(p) && Feature(ParabolicFeatures(), 3)(p) == YPower(1)(p)
      ensures Feature(ParabolicFeatures(), 4)(p) == YPower(2)(p)
      ensures Feature(ParabolicFeatures(), 5)(p) == XPower(3)(p) && Feature(ParabolicFeatures(), 6)(p) == XPower(4)(p)
    {
      LowPowers(p.x);
      TimesCommutes(p.y, p.x);
      TimesCommutes(p.y, p.x * p.x);
      HighPowers(p.x);
    }
    TotalSame(ps, Feature(ParabolicFeatures(), 0), XPower(1));
    TotalSame(ps, Feature(ParabolicFeatures(), 1), YPower(0));
    TotalSame(ps, Feature(ParabolicFeatures(), 2), XPower(2));
    TotalSame(ps, Feature(ParabolicFeatures(), 3), YPower(1));
    TotalSame(ps, Feature(ParabolicFeatures(), 4), YPower(2));
    TotalSame(ps, Feature(ParabolicFeatures(), 5), XPower(3));
    TotalSame(ps, Feature(ParabolicFeatures(), 6), XPower(4));
  }

  lemma HighPowers(x: real)
    ensures Power(x, 3) == (x * x) * x && Power(x, 4) == (x * x) * (x * x)
  {
    LowPowers(x);
    assert Power(x, 3) == x * Power(x, 2);
    assert Power(x, 4) == x * Power(x, 3);
    Regroup(x, x, x);
    Regroup(x, x, x * x);
  }

  /** findParabolla. The coefficients and the flag come in through pointers: they keep the values they
      had wherever the function does not assign them. */
  method FindParabola(a: seq<real>, n: int, sumX: real, sumXX: real, sumXXX: real, sumXXXX: real,
                      sumY: real, sumXY: real, sumXXY: real, resultValid: bool)
      returns (a': seq<real>, resultValid': bool)
    requires |a| == 3
    ensures var detA := Determinant3By3(n as real, sumX, sumXX, sumX, sumXX, sumXXX, sumXX, sumXXX, sumXXXX);
            if detA == 0.0 then a' == a && !resultValid'
            else a' == Cramer(n as real, sumX, sumXX, sumXXX, sumXXXX, sumY, sumXY, sumXXY) &&
                 resultValid' == resultValid
  {
    a', resultValid' := a, resultValid;
    var detA := Determinant3By3(n as real, sumX, sumXX, sumX, sumXX, sumXXX, sumXX, sumXXX, sumXXXX);
    if 0.0 == detA {
      resultValid' := false;
      return;
    }
    var detA0 := Determinant3By3(sumY, sumX, sumXX, sumXY, sumXX, sumXXX, sumXXY, sumXXX, sumXXXX);
    var detA1 := Determinant3By3(n as real, sumY, sumXX, sumX, sumXY, sumXXX, sumXX, sumXXY, sumXXXX);
    var detA2 := Determinant3By3(n as real, sumX, sumY, sumX, sumXX, sumXY, sumXX, sumXXX, sumXXY);
    a' := [detA0 / detA, detA1 / detA, detA2 / detA];
  }

  /** The host program on N points, N a multiple of the work-group size. The flag is handed in as the
      uninitialised variable holds it: the coefficients are the least-squares parabola exactly when three
      abscissae differ, but they are reported only if the flag happened to be true. */
  method ParabolicRegression(points: seq<Pt>, junk: nat -> Pt, a: seq<real>, uninitialised: bool)
      returns (a': seq<real>, reported: bool)
    requires |points| % 64 == 0 && |points| < 0x8000_0000 && |a| == 3
    ensures |a'| == 3
    ensures reported <==> uninitialised && ThreeDistinct(points)
    ensures !ThreeDistinct(points) ==> a' == a
    ensures ThreeDistinct(points) ==> forall b: seq<real> :: |b| == 3 ==>
              SquaredError(points, a') <= SquaredError(points, b)
    ensures ThreeDistinct(points) ==> forall b: seq<real> :: |b| == 3 && b != a' ==>
              SquaredError(points, a') < SquaredError(points, b)
  {
    var s := SumGroups(points, junk, ParabolicFeatures(), 7);
    assert points[..64 * (|points| / 64)] == points;
    ParabolicTotals(points);
    XSumCounts(points);
    DetVanishes(points);
    a', reported := FindParabola(a, |points|, s[0], s[2], s[5], s[6], s[1], s[3], s[4], uninitialised);
    if ThreeDistinct(points) {
      assert a' == ParabolaThrough(points);
      forall b: seq<real> | |b| == 3
        ensures SquaredError(points, a') <= SquaredError(points, b)
        ensures b != a' ==> SquaredError(points, a') < SquaredError(points, b)
      {
        ParabolaIsLeast(points, b);
      }
    }
  }
}
