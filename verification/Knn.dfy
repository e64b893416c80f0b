/** knn_classification.cpp: distances to a match point, computed and then sorted together with the
    points they belong to. The distance buffer occupies the cells below n of the device memory, the
    point buffer the n cells after it. */
module Knn {
  import opened Powers
  import opened WorkItems
  import opened BitonicNetwork
  import BitonicSort

  datatype Point = Point(x: int, y: int, classification: int)

  datatype Cell = Distance(d: real) | Record(p: Point)

  /** A distance and the point stored beside it. */
  datatype Row = Row(d: real, p: Point)

  function RowKey(r: Row): real {
    r.d
  }

  function SquaredDistance(from: Point, to: Point): (r: nat)
    ensures r == 0 <==> from.x == to.x && from.y == to.y
  {
    SquareFacts(from.x - to.x);
    SquareFacts(from.y - to.y);
    (from.x - to.x) * (from.x - to.x) + (from.y - to.y) * (from.y - to.y)
  }

  lemma SquareFacts(a: int)
    ensures a * a >= 0 && (a * a == 0 <==> a == 0)
  {
  }

  lemma OppositeSquare(a: int, b: int)
    ensures (a - b) * (a - b) == (b - a) * (b - a)
  {
  }

  /** The measure is that of Pythagoras: points on a line with an axis are apart by the square of their difference
      there, and over a corner of a rectangle the squares add up. */
  lemma Pythagoras(a: Point, b: Point, corner: Point)
    requires corner.x == a.x && corner.y == b.y
    ensures a.y == b.y ==> SquaredDistance(a, b) == (b.x - a.x) * (b.x - a.x)
    ensures a.x == b.x ==> SquaredDistance(a, b) == (b.y - a.y) * (b.y - a.y)
    ensures SquaredDistance(a, corner) + SquaredDistance(corner, b) == SquaredDistance(a, b) == SquaredDistance(b, a)
  {
    OppositeSquare(a.x, b.x);
    OppositeSquare(a.y, b.y);
  }

  /** The square root is left abstract: whatever function the device computes. */
  function PointDistance(root: nat -> real, from: Point, to: Point): real {
    root(SquaredDistance(from, to))
  }

  /** The buffers hold distances and points respectively; the distances may still be arbitrary. */
  ghost predicate Typed(m: seq<Cell>, n: nat) {
    && |m| == 2 * n
    && (forall c :: 0 <= c < n ==> m[c].Distance?)
    && (forall c :: n <= c < 2 * n ==> m[c].Record?)
  }

  function Rows(m: seq<Cell>, n: nat): (r: seq<Row>)
    requires Typed(m, n)
    ensures |r| == n
  {
    seq(n, c requires 0 <= c < n => Row(m[c].d, m[n + c].p))
  }

  function Points(m: seq<Cell>, n: nat): (r: seq<Point>)
    requires Typed(m, n)
    ensures |r| == n
  {
    seq(n, c requires 0 <= c < n => m[n + c].p)
  }

  /** The rows the distance kernel is meant to produce. */
  function MeasuredRows(root: nat -> real, points: seq<Point>, match_: Point): (r: seq<Row>)
    ensures |r| == |points|
  {
    seq(|points|, c requires 0 <= c < |points| => Row(PointDistance(root, points[c], match_), points[c]))
  }

  // ---------- the distance kernel ----------

  function MeasureLoaded(root: nat -> real, match_: Point): seq<Cell> -> Cell {
    (regs: seq<Cell>) =>
      if |regs| > 0 && regs[0].Record? then Distance(PointDistance(root, regs[0].p, match_)) else Distance(0.0)
  }

  function DistanceProgram(n: nat, root: nat -> real, match_: Point, gid: nat): seq<Instr<Cell>> {
    [Load(n + gid), Store(gid, MeasureLoaded(root, match_))]
  }

  function DistancePrograms(n: nat, root: nat -> real, match_: Point): (ps: seq<seq<Instr<Cell>>>)
    ensures |ps| == n
  {
    seq(n, gid requires 0 <= gid => DistanceProgram(n, root, match_, gid))
  }

  lemma DistanceCells(n: nat, root: nat -> real, match_: Point, gid: nat, c: nat)
    ensures var p := DistanceProgram(n, root, match_, gid);
            && (Touches(p, c) <==> c == gid || c == n + gid)
            && (Stores(p, c) <==> c == gid)
  {
    var p := DistanceProgram(n, root, match_, gid);
    assert p[0].addr == n + gid && p[1].addr == gid && p[1].Store?;
  }

  lemma DistancesAreRaceFree(n: nat, root: nat -> real, match_: Point)
    ensures RaceFree(DistancePrograms(n, root, match_), 2 * n)
  {
    var ps := DistancePrograms(n, root, match_);
    forall i, j, c: nat | 0 <= i < |ps| && 0 <= j < |ps| && i != j && Stores(ps[i], c) ensures !Touches(ps[j], c) {
      DistanceCells(n, root, match_, i, c);
      DistanceCells(n, root, match_, j, c);
    }
  }

  lemma SoloDistance(n: nat, root: nat -> real, match_: Point, gid: nat, m: seq<Cell>)
    requires Typed(m, n) && gid < n
    ensures SoloMemory(DistanceProgram(n, root, match_, gid), m)[gid] ==
            Distance(PointDistance(root, m[n + gid].p, match_))
  {
    var p := DistanceProgram(n, root, match_, gid);
    assert Solo(p, m, 1) == (Thread(1, [m[n + gid]]), m) by {
      assert Solo(p, m, 0) == (Thread(0, []), m);
      assert [] + [m[n + gid]] == [m[n + gid]];
    }
  }

  /** Point c has been measured and left where it was. */
  ghost predicate MeasuredCell(n: nat, root: nat -> real, match_: Point, m: seq<Cell>, m': seq<Cell>, c: nat)
    requires Typed(m, n) && c < n && |m'| == |m|
  {
    m'[c] == Distance(PointDistance(root, m[n + c].p, match_)) && m'[n + c] == m[n + c]
  }

  /** Under any scheduler the distance kernel measures every point and moves none. */
  lemma DistancesMeasured(n: nat, root: nat -> real, match_: Point, m: seq<Cell>, m': seq<Cell>)
    requires Typed(m, n) && RaceFree(DistancePrograms(n, root, match_), |m|)
    requires IsLaunch(DistancePrograms(n, root, match_), m, m')
    ensures Typed(m', n) && Rows(m', n) == MeasuredRows(root, Points(m, n), match_)
  {
    var ps := DistancePrograms(n, root, match_);
    forall c: nat | c < n ensures MeasuredCell(n, root, match_, m, m', c) {
      DistanceCells(n, root, match_, c, c);
      SoloDistance(n, root, match_, c, m);
      assert m'[c] == SoloMemory(ps[c], m)[c];
      forall i | 0 <= i < |ps| ensures !Stores(ps[i], n + c) {
        DistanceCells(n, root, match_, i, n + c);
      }
    }
    forall c: nat | c < n ensures m'[c].Distance? {
      assert MeasuredCell(n, root, match_, m, m', c);
    }
    forall c: nat | n <= c < 2 * n ensures m'[c].Record? {
      assert MeasuredCell(n, root, match_, m, m', c - n);
    }
    forall c: nat | c < n ensures Rows(m', n)[c] == MeasuredRows(root, Points(m, n), match_)[c] {
      assert MeasuredCell(n, root, match_, m, m', c);
    }
  }

  // ---------- the sorting kernel ----------

  function LoadedDistance(regs: seq<Cell>, i: nat): real {
    if i < |regs| && regs[i].Distance? then regs[i].d else 0.0
  }

  function LoadedPoint(regs: seq<Cell>, i: nat): Point {
    if i < |regs| && regs[i].Record? then regs[i].p else Point(0, 0, 0)
  }

  /** leftElement < rightElement, from the registers in the order of the loads. */
  predicate CompareResult(regs: seq<Cell>) {
    LoadedDistance(regs, 0) < LoadedDistance(regs, 2)
  }

  function LesserElement(regs: seq<Cell>): Cell {
    Distance(if CompareResult(regs) then LoadedDistance(regs, 0) else LoadedDistance(regs, 2))
  }

  function GreaterElement(regs: seq<Cell>): Cell {
    Distance(if CompareResult(regs) then LoadedDistance(regs, 2) else LoadedDistance(regs, 0))
  }

  function LesserPoint(regs: seq<Cell>): Cell {
    Record(if CompareResult(regs) then LoadedPoint(regs, 1) else LoadedPoint(regs, 3))
  }

  function GreaterPoint(regs: seq<Cell>): Cell {
    Record(if CompareResult(regs) then LoadedPoint(regs, 3) else LoadedPoint(regs, 1))
  }

  function PairProgram(n: nat, left: nat, right: nat, first: nat, second: nat): seq<Instr<Cell>> {
    [ Load(left), Load(n + left), Load(right), Load(n + right),
      Store(first, LesserElement), Store(n + first, LesserPoint),
      Store(second, GreaterElement), Store(n + second, GreaterPoint) ]
  }

  function SortProgram(n: nat, stage: nat, k: nat, t: nat): seq<Instr<Cell>> {
    var left, right := LeftId(t, Pow2(k)), RightId(t, Pow2(k));
    var sameDirection := (t / Pow2(stage)) % 2 == 1;
    PairProgram(n, left, right, if sameDirection then right else left, if sameDirection then left else right)
  }

  function SortPrograms(n: nat, stage: nat, k: nat): (ps: seq<seq<Instr<Cell>>>)
    ensures |ps| == n / 2
  {
    seq(n / 2, t requires 0 <= t => SortProgram(n, stage, k, t))
  }

  lemma PairCells(n: nat, l: nat, r: nat, x: nat, y: nat, c: nat)
    requires {x, y} == {l, r}
    ensures var p := PairProgram(n, l, r, x, y);
            && (Touches(p, c) <==> c in {l, r, n + l, n + r})
            && (Stores(p, c) <==> c in {l, r, n + l, n + r})
  {
    var p := PairProgram(n, l, r, x, y);
    assert p[0].addr == l && p[1].addr == n + l && p[2].addr == r && p[3].addr == n + r;
    assert p[4].addr == x && p[5].addr == n + x && p[6].addr == y && p[7].addr == n + y;
    assert x in {l, r} && y in {l, r} && l in {x, y} && r in {x, y};
    assert p[4].Store? && p[5].Store? && p[6].Store? && p[7].Store?;
  }

  /** Alone, a work-item leaves the lesser row at x and the greater row at y. */
  lemma SoloPair(n: nat, l: nat, r: nat, x: nat, y: nat, m: seq<Cell>)
    requires Typed(m, n) && l < n && r < n && l != r && {x, y} == {l, r}
    ensures var p := PairProgram(n, l, r, x, y);
            && Addressable(p, |m|)
            && var m' := SoloMemory(p, m);
            var a, b := Row(m[l].d, m[n + l].p), Row(m[r].d, m[n + r].p);
            && m'[x] == Distance(Lesser(RowKey, a, b).d) && m'[n + x] == Record(Lesser(RowKey, a, b).p)
            && m'[y] == Distance(Greater(RowKey, a, b).d) && m'[n + y] == Record(Greater(RowKey, a, b).p)
  {
    var p := PairProgram(n, l, r, x, y);
    assert x in {l, r} && y in {l, r} && x != y;
    var regs := [m[l], m[n + l], m[r], m[n + r]];
    LoadsFirst(p, m, 4);
    assert Solo(p, m, 4).0.regs == regs;
    assert Solo(p, m, 5) == (Thread(5, regs), m[x := LesserElement(regs)]);
    var m5 := Solo(p, m, 5).1;
    assert Solo(p, m, 6) == (Thread(6, regs), m5[n + x := LesserPoint(regs)]);
    var m6 := Solo(p, m, 6).1;
    assert Solo(p, m, 7) == (Thread(7, regs), m6[y := GreaterElement(regs)]);
    var m7 := Solo(p, m, 7).1;
    assert Solo(p, m, 8) == (Thread(8, regs), m7[n + y := GreaterPoint(regs)]);
  }

  lemma SortIsRaceFree(n: nat, stage: nat, k: nat)
    requires n % Pow2(k + 1) == 0
    ensures RaceFree(SortPrograms(n, stage, k), 2 * n)
  {
    var ps := SortPrograms(n, stage, k);
    forall i | 0 <= i < |ps| ensures Addressable(ps[i], 2 * n) {
      ItemInBounds(n, k, i);
    }
    forall i, j, c: nat | 0 <= i < |ps| && 0 <= j < |ps| && i != j && Stores(ps[i], c) ensures !Touches(ps[j], c) {
      SortCells(n, stage, k, i, c);
      SortCells(n, stage, k, j, c);
      ItemInBounds(n, k, i);
      ItemInBounds(n, k, j);
      DistinctItems(i, j, Pow2(k));
    }
  }

  lemma SortCells(n: nat, stage: nat, k: nat, t: nat, c: nat)
    ensures var l, r, p := LeftId(t, Pow2(k)), RightId(t, Pow2(k)), SortProgram(n, stage, k, t);
            && (Touches(p, c) <==> c in {l, r, n + l, n + r})
            && (Stores(p, c) <==> c in {l, r, n + l, n + r})
  {
    var l, r := LeftId(t, Pow2(k)), RightId(t, Pow2(k));
    if (t / Pow2(stage)) % 2 == 1 {
      PairCells(n, l, r, r, l, c);
    } else {
      PairCells(n, l, r, l, r, c);
    }
  }

  /** Row c as the memory holds it. */
  ghost predicate HoldsRow(m: seq<Cell>, n: nat, c: nat, row: Row)
    requires c < n && |m| == 2 * n
  {
    m[c] == Distance(row.d) && m[n + c] == Record(row.p)
  }

  lemma SoloDirected(n: nat, l: nat, r: nat, up: bool, m: seq<Cell>)
    requires Typed(m, n) && l < r < n
    ensures var p := PairProgram(n, l, r, if up then l else r, if up then r else l);
            var rows := Exchange(RowKey, Rows(m, n), l, r, up);
            && Addressable(p, |m|)
            && HoldsRow(SoloMemory(p, m), n, l, rows[l]) && HoldsRow(SoloMemory(p, m), n, r, rows[r])
  {
    SoloPair(n, l, r, if up then l else r, if up then r else l, m);
    assert Rows(m, n)[l] == Row(m[l].d, m[n + l].p) && Rows(m, n)[r] == Row(m[r].d, m[n + r].p);
  }

  /** Alone, a work-item exchanges its pair of rows. */
  lemma SoloRows(n: nat, stage: nat, k: nat, t: nat, m: seq<Cell>)
    requires Typed(m, n) && RightId(t, Pow2(k)) < n
    ensures Addressable(SortProgram(n, stage, k, t), |m|)
    ensures var l, r := LeftId(t, Pow2(k)), RightId(t, Pow2(k));
            var m' := SoloMemory(SortProgram(n, stage, k, t), m);
            var rows := Exchange(RowKey, Rows(m, n), l, r, (t / Pow2(stage)) % 2 == 0);
            HoldsRow(m', n, l, rows[l]) && HoldsRow(m', n, r, rows[r])
  {
    SoloDirected(n, LeftId(t, Pow2(k)), RightId(t, Pow2(k)), (t / Pow2(stage)) % 2 == 0, m);
  }

  lemma LaunchRow(m: seq<Cell>, m': seq<Cell>, n: nat, stage: nat, k: nat, c: nat)
    requires Typed(m, n) && n % Pow2(k + 1) == 0 && k <= stage && c < n
    requires RaceFree(SortPrograms(n, stage, k), |m|) && IsLaunch(SortPrograms(n, stage, k), m, m')
    ensures HoldsRow(m', n, c, Pass(RowKey, Rows(m, n), stage, k)[c])
  {
    var t := OwnerOfCell(n, k, c);
    var ps := SortPrograms(n, stage, k);
    ItemInBounds(n, k, t);
    SortCells(n, stage, k, t, c);
    SortCells(n, stage, k, t, n + c);
    assert ps[t] == SortProgram(n, stage, k, t);
    assert m'[c] == SoloMemory(ps[t], m)[c] && m'[n + c] == SoloMemory(ps[t], m)[n + c];
    SoloRows(n, stage, k, t, m);
    PassOfItem(RowKey, Rows(m, n), stage, k, t);
    DirectionOfItem(t, k, stage);
  }

  /** Whatever the interleaving of the accesses to the two buffers, a launch is one pass on the rows. */
  lemma LaunchIsPass(m: seq<Cell>, m': seq<Cell>, n: nat, stage: nat, k: nat)
    requires Typed(m, n) && n % Pow2(k + 1) == 0 && k <= stage
    requires RaceFree(SortPrograms(n, stage, k), |m|) && IsLaunch(SortPrograms(n, stage, k), m, m')
    ensures Typed(m', n) && Rows(m', n) == Pass(RowKey, Rows(m, n), stage, k)
  {
    forall c: nat | c < n ensures HoldsRow(m', n, c, Pass(RowKey, Rows(m, n), stage, k)[c]) {
      LaunchRow(m, m', n, stage, k, c);
    }
    RowsHeld(m', n, Pass(RowKey, Rows(m, n), stage, k));
  }

  lemma RowsHeld(m: seq<Cell>, n: nat, rows: seq<Row>)
    requires |m| == 2 * n && |rows| == n && forall c: nat :: c < n ==> HoldsRow(m, n, c, rows[c])
    ensures Typed(m, n) && Rows(m, n) == rows
  {
    forall c | n <= c < 2 * n ensures m[c].Record? {
      assert HoldsRow(m, n, c - n, rows[c - n]);
    }
    forall c: nat | c < n ensures m[c].Distance? && Row(m[c].d, m[n + c].p) == rows[c] {
      assert HoldsRow(m, n, c, rows[c]);
    }
  }

  // ---------- the host ----------

  method Measure(mem: array<Cell>, n: nat, root: nat -> real, match_: Point)
    requires Typed(mem[..], n)
    modifies mem
    ensures Typed(mem[..], n) && Rows(mem[..], n) == MeasuredRows(root, Points(old(mem[..]), n), match_)
  {
    ghost var m := mem[..];
    DistancesAreRaceFree(n, root, match_);
    Launch(mem, DistancePrograms(n, root, match_));
    DistancesMeasured(n, root, match_, m, mem[..]);
  }

  method LaunchPass(mem: array<Cell>, n: nat, stage: nat, passOfStage: nat)
    requires Typed(mem[..], n) && passOfStage <= stage && n % Pow2(stage - passOfStage + 1) == 0
    modifies mem
    ensures Typed(mem[..], n)
    ensures Rows(mem[..], n) == Pass(RowKey, Rows(old(mem[..]), n), stage, stage - passOfStage)
  {
    ghost var m := mem[..];
    SortIsRaceFree(n, stage, stage - passOfStage);
    Launch(mem, SortPrograms(n, stage, stage - passOfStage));
    LaunchIsPass(m, mem[..], n, stage, stage - passOfStage);
  }

  method RunPass(mem: array<Cell>, n: nat, stage: nat, passOfStage: nat, ghost exponent: nat)
    requires Typed(mem[..], n) && n == Pow2(exponent) && passOfStage <= stage < exponent
    requires MidStage(RowKey, Rows(mem[..], n), stage, Pow2(stage + 1 - passOfStage))
    modifies mem
    ensures Typed(mem[..], n) && MidStage(RowKey, Rows(mem[..], n), stage, Pow2(stage - passOfStage))
    ensures multiset(Rows(mem[..], n)) == multiset(Rows(old(mem[..]), n))
  {
    BitonicSort.PowerDivides(exponent, stage - passOfStage + 1);
    PassAdvances(RowKey, Rows(mem[..], n), stage, stage - passOfStage);
    PassPermutes(RowKey, Rows(mem[..], n), stage, stage - passOfStage);
    LaunchPass(mem, n, stage, passOfStage);
  }

  method RunStage(mem: array<Cell>, n: nat, stage: nat, ghost exponent: nat)
    requires Typed(mem[..], n) && n == Pow2(exponent) && stage < exponent
    requires BlocksSorted(RowKey, Rows(mem[..], n), stage)
    modifies mem
    ensures Typed(mem[..], n) && BlocksSorted(RowKey, Rows(mem[..], n), stage + 1)
    ensures multiset(Rows(mem[..], n)) == multiset(Rows(old(mem[..]), n))
  {
    StageStarts(RowKey, Rows(mem[..], n), stage);
    for passOfStage := 0 to stage + 1
      invariant Typed(mem[..], n)
      invariant MidStage(RowKey, Rows(mem[..], n), stage, Pow2(stage + 1 - passOfStage))
      invariant multiset(Rows(mem[..], n)) == multiset(Rows(old(mem[..]), n))
    {
      RunPass(mem, n, stage, passOfStage, exponent);
    }
    StageEnds(RowKey, Rows(mem[..], n), stage);
  }

  /** What a classification run leaves, for the points it was given: their measured rows, rearranged
      in the order of their distances. */
  ghost predicate Classified(rows: seq<Row>, points: seq<Point>, root: nat -> real, match_: Point) {
    && multiset(rows) == multiset(MeasuredRows(root, points, match_))
    && forall i, j :: 0 <= i < j < |rows| ==> rows[i].d <= rows[j].d
  }

  /** The host program on 2^exponent points: measure, sort, and show the first k rows. */
  method Classify(mem: array<Cell>, n: nat, ghost exponent: nat, root: nat -> real, match_: Point, k: nat)
      returns (shown: seq<Row>)
    requires Typed(mem[..], n) && n == Pow2(exponent) && k <= n
    modifies mem
    ensures Typed(mem[..], n) && Classified(Rows(mem[..], n), Points(old(mem[..]), n), root, match_)
    ensures shown == Rows(mem[..], n)[..k]
  {
    Measure(mem, n, root, match_);
    var numStages, temp := 0, n;
    while temp > 1
      invariant numStages <= exponent && temp == Pow2(exponent - numStages)
    {
      temp := temp / 2;
      numStages := numStages + 1;
    }
    assert numStages == exponent;
    SingletonsSorted(RowKey, Rows(mem[..], n));
    for stage := 0 to numStages
      invariant Typed(mem[..], n)
      invariant BlocksSorted(RowKey, Rows(mem[..], n), stage)
      invariant multiset(Rows(mem[..], n)) == multiset(MeasuredRows(root, Points(old(mem[..]), n), match_))
    {
      RunStage(mem, n, stage, exponent);
    }
    LastStage(RowKey, Rows(mem[..], n), exponent);
    shown := Show(mem, n, k);
  }

  /** The host's loop over the first k rows. */
  method Show(mem: array<Cell>, n: nat, k: nat) returns (shown: seq<Row>)
    requires Typed(mem[..], n) && k <= n
    ensures shown == Rows(mem[..], n)[..k]
  {
    shown := [];
    for i := 0 to k
      invariant shown == Rows(mem[..], n)[..i]
    {
      shown := shown + [Row(mem[i].d, mem[n + i].p)];
    }
  }

  // ---------- what the shown rows mean ----------

  /** Every distance is still that of the point beside it. */
  lemma RowsStayMeasured(rows: seq<Row>, points: seq<Point>, root: nat -> real, match_: Point, i: nat)
    requires Classified(rows, points, root, match_) && i < |rows|
    ensures rows[i].d == root(SquaredDistance(rows[i].p, match_))
  {
    assert rows[i] in multiset(rows);
    assert rows[i] in MeasuredRows(root, points, match_);
  }

  function PointsOf(rows: seq<Row>): (r: seq<Point>)
    ensures |r| == |rows|
  {
    seq(|rows|, i requires 0 <= i < |rows| => rows[i].p)
  }

  function Without<T>(b: seq<T>, i: nat): seq<T>
    requires i < |b|
  {
    b[..i] + b[i + 1..]
  }

  lemma WithoutElement<T>(b: seq<T>, i: nat)
    requires i < |b|
    ensures multiset(b) == multiset(Without(b, i)) + multiset{b[i]}
  {
    assert b == b[..i] + ([b[i]] + b[i + 1..]);
  }

  /** Taking one equal element from each does not change whether two sequences are rearrangements. */
  lemma WithoutEqual<T>(a: seq<T>, i: nat, b: seq<T>, j: nat)
    requires i < |a| && j < |b| && a[i] == b[j]
    ensures multiset(a) == multiset(b) <==> multiset(Without(a, i)) == multiset(Without(b, j))
  {
    WithoutElement(a, i);
    WithoutElement(b, j);
    assert multiset(Without(a, i)) == multiset(a) - multiset{a[i]};
    assert multiset(Without(b, j)) == multiset(b) - multiset{b[j]};
  }

  lemma PointsWithout(b: seq<Row>, i: nat)
    requires i < |b|
    ensures PointsOf(Without(b, i)) == Without(PointsOf(b), i)
  {
  }

  /** Rearranged rows carry rearranged points. */
  lemma {:induction false} RearrangedRows(a: seq<Row>, b: seq<Row>)
    requires multiset(a) == multiset(b)
    ensures multiset(PointsOf(a)) == multiset(PointsOf(b))
  {
    if a == [] {
      assert |multiset(b)| == 0;
    } else {
      var i := Find(b, a[0]);
      WithoutEqual(a, 0, b, i);
      RearrangedRows(Without(a, 0), Without(b, i));
      PointsWithout(a, 0);
      PointsWithout(b, i);
      WithoutEqual(PointsOf(a), 0, PointsOf(b), i);
    }
  }

  lemma Find(b: seq<Row>, row: Row) returns (i: nat)
    requires row in multiset(b)
    ensures i < |b| && b[i] == row
  {
    i :| 0 <= i < |b| && b[i] == row;
  }

  /** The run loses and invents no point. */
  lemma PointsArePermuted(rows: seq<Row>, points: seq<Point>, root: nat -> real, match_: Point)
    requires Classified(rows, points, root, match_)
    ensures multiset(PointsOf(rows)) == multiset(points)
  {
    RearrangedRows(rows, MeasuredRows(root, points, match_));
    assert PointsOf(MeasuredRows(root, points, match_)) == points;
  }

  /** If the device's square root never reverses two arguments, a point left outside the first k rows can
      be truly nearer than one inside only where the root does not tell the two apart. */
  lemma NearestFirst(rows: seq<Row>, points: seq<Point>, root: nat -> real, match_: Point, i: nat, j: nat)
    requires Classified(rows, points, root, match_) && i < j < |rows|
    requires forall a: nat, b: nat :: a <= b ==> root(a) <= root(b)
    ensures SquaredDistance(rows[i].p, match_) <= SquaredDistance(rows[j].p, match_) || rows[i].d == rows[j].d
    ensures (forall a: nat, b: nat :: a < b ==> root(a) < root(b)) ==>
              SquaredDistance(rows[i].p, match_) <= SquaredDistance(rows[j].p, match_)
  {
    RowsStayMeasured(rows, points, root, match_, i);
    RowsStayMeasured(rows, points, root, match_, j);
    var a, b := SquaredDistance(rows[i].p, match_), SquaredDistance(rows[j].p, match_);
    if b < a {
      assert root(b) <= root(a);
    }
  }
}
