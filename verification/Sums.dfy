/** Finite sums over index ranges, with the two rearrangements that parallel index arithmetic needs:
    exchanging nested ranges and cutting a range into rows. */
module Sums {
  import opened Powers

  function Sum(n: nat, f: nat -> int): int {
    if n == 0 then 0 else Sum(n - 1, f) + f(n - 1)
  }

  lemma {:induction false} SumSame(n: nat, f: nat -> int, g: nat -> int)
    requires forall i: nat :: i < n ==> f(i) == g(i)
    ensures Sum(n, f) == Sum(n, g)
  {
    if n > 0 {
      SumSame(n - 1, f, g);
    }
  }

  lemma {:induction false} SumAdd(n: nat, h: nat -> int, f: nat -> int, g: nat -> int)
    requires forall i: nat :: i < n ==> h(i) == f(i) + g(i)
    ensures Sum(n, h) == Sum(n, f) + Sum(n, g)
  {
    if n > 0 {
      SumAdd(n - 1, h, f, g);
    }
  }

  lemma {:induction false} SumScaled(n: nat, h: nat -> int, c: int, f: nat -> int)
    requires forall i: nat :: i < n ==> h(i) == c * f(i)
    ensures Sum(n, h) == c * Sum(n, f)
  {
    if n > 0 {
      SumScaled(n - 1, h, c, f);
      assert c * (Sum(n - 1, f) + f(n - 1)) == c * Sum(n - 1, f) + c * f(n - 1);
    }
  }

  lemma {:induction false} SumConstant(n: nat, f: nat -> int, c: int)
    requires forall i: nat :: i < n ==> f(i) == c
    ensures Sum(n, f) == n * c
  {
    if n > 0 {
      SumConstant(n - 1, f, c);
      assert n * c == (n - 1) * c + c;
    }
  }

  /** A range that is zero everywhere but at one index. */
  lemma {:induction false} SumSingle(n: nat, f: nat -> int, k: nat)
    requires k < n && forall i: nat :: i < n && i != k ==> f(i) == 0
    ensures Sum(n, f) == f(k)
  {
    if k == n - 1 {
      SumConstant(n - 1, f, 0);
    } else {
      SumSingle(n - 1, f, k);
    }
  }

  /** Two ranges that differ at one index only. */
  lemma SumButOne(n: nat, h: nat -> int, f: nat -> int, g: nat -> int, k: nat)
    requires forall i: nat :: i < n ==> h(i) == f(i) + g(i)
    requires k < n && forall i: nat :: i < n && i != k ==> g(i) == 0
    ensures Sum(n, h) == Sum(n, f) + g(k)
  {
    SumAdd(n, h, f, g);
    SumSingle(n, g, k);
  }

  /** Ones and zeros add up to a number of indices. */
  lemma {:induction false} SumCounts(n: nat, f: nat -> int, p: nat -> bool)
    requires forall i: nat :: i < n ==> f(i) == if p(i) then 1 else 0
    ensures Sum(n, f) == |set i: nat | i < n && p(i)|
  {
    var s := set i: nat | i < n && p(i);
    if n > 0 {
      SumCounts(n - 1, f, p);
      assert s - {n - 1} == set i: nat | i < n - 1 && p(i);
    }
  }

  function Shifted(f: nat -> int, d: nat): nat -> int {
    (i: nat) => f(d + i)
  }

  lemma {:induction false} SumSplit(n: nat, k: nat, f: nat -> int)
    ensures Sum(n + k, f) == Sum(n, f) + Sum(k, Shifted(f, n))
  {
    if k > 0 {
      SumSplit(n, k - 1, f);
    }
  }

  /** Row i of a table. */
  function Row(f: (nat, nat) -> int, i: nat): nat -> int {
    (j: nat) => f(i, j)
  }

  function Column(f: (nat, nat) -> int, j: nat): nat -> int {
    (i: nat) => f(i, j)
  }

  function RowSums(f: (nat, nat) -> int, n: nat): nat -> int {
    (i: nat) => Sum(n, Row(f, i))
  }

  function ColumnSums(f: (nat, nat) -> int, m: nat): nat -> int {
    (j: nat) => Sum(m, Column(f, j))
  }

  /** Nested ranges may be exchanged. */
  lemma {:induction false} SumSwap(m: nat, n: nat, f: (nat, nat) -> int)
    ensures Sum(m, RowSums(f, n)) == Sum(n, ColumnSums(f, m))
  {
    if m == 0 {
      SumConstant(n, ColumnSums(f, 0), 0);
    } else {
      SumSwap(m - 1, n, f);
      forall j: nat | j < n ensures ColumnSums(f, m)(j) == ColumnSums(f, m - 1)(j) + Row(f, m - 1)(j) {
      }
      SumAdd(n, ColumnSums(f, m), ColumnSums(f, m - 1), Row(f, m - 1));
    }
  }

  /** Row totals and column totals add up to the same. */
  lemma SumByColumns(m: nat, n: nat, t: (nat, nat) -> int, f: nat -> int, g: nat -> int)
    requires forall i: nat :: i < m ==> f(i) == RowSums(t, n)(i)
    requires forall j: nat :: j < n ==> g(j) == ColumnSums(t, m)(j)
    ensures Sum(m, f) == Sum(n, g)
  {
    SumSame(m, f, RowSums(t, n));
    SumSwap(m, n, t);
    SumSame(n, ColumnSums(t, m), g);
  }

  /** A range of m rows of n indices, as a table. */
  function Rows(g: nat -> int, n: nat): (nat, nat) -> int {
    (i: nat, j: nat) => g(i * n + j)
  }

  /** A range may be cut into rows. */
  lemma {:induction false} SumFlatten(m: nat, n: nat, g: nat -> int)
    ensures Sum(m * n, g) == Sum(m, RowSums(Rows(g, n), n))
  {
    if m == 0 {
      assert m * n == 0;
    } else {
      SumFlatten(m - 1, n, g);
      assert m * n == (m - 1) * n + n;
      SumSplit((m - 1) * n, n, g);
      SumSame(n, Shifted(g, (m - 1) * n), Row(Rows(g, n), m - 1));
    }
  }

  /** A table read row by row. */
  function RowMajor(f: (nat, nat) -> int, n: nat): nat -> int
    requires n > 0
  {
    (k: nat) => f(k / n, k % n)
  }

  lemma RowMajorCell(f: (nat, nat) -> int, n: nat, i: nat, j: nat)
    requires j < n
    ensures RowMajor(f, n)(i * n + j) == f(i, j)
  {
    RowColumn(i, n, j);
  }

  lemma SumRowMajor(m: nat, n: nat, f: (nat, nat) -> int)
    requires n > 0
    ensures Sum(m * n, RowMajor(f, n)) == Sum(m, RowSums(f, n))
  {
    var g := RowMajor(f, n);
    SumFlatten(m, n, g);
    forall i: nat | i < m ensures RowSums(Rows(g, n), n)(i) == RowSums(f, n)(i) {
      forall j: nat | j < n ensures Row(Rows(g, n), i)(j) == Row(f, i)(j) {
        RowMajorCell(f, n, i, j);
      }
      SumSame(n, Row(Rows(g, n), i), Row(f, i));
    }
    SumSame(m, RowSums(Rows(g, n), n), RowSums(f, n));
  }

  /** Walking the rows column by column, as work-items with a stride do, covers the same range. */
  lemma SumStrided(m: nat, n: nat, g: nat -> int)
    ensures Sum(n, ColumnSums(Rows(g, n), m)) == Sum(m * n, g)
  {
    SumSwap(m, n, Rows(g, n));
    SumFlatten(m, n, g);
  }

  // ---------- tables and tiles ----------

  function TableSum(f: (nat, nat) -> int, m: nat, n: nat): int {
    Sum(m, RowSums(f, n))
  }

  /** The tile of height a and width b in tile row y and tile column x. */
  function Tile(f: (nat, nat) -> int, a: nat, b: nat, y: nat, x: nat): (nat, nat) -> int {
    (i: nat, j: nat) => f(y * a + i, x * b + j)
  }

  function TileSums(f: (nat, nat) -> int, a: nat, b: nat): (nat, nat) -> int {
    (y: nat, x: nat) => TableSum(Tile(f, a, b, y, x), a, b)
  }

  /** The sums of row i of each tile in tile row y. */
  function StripSums(f: (nat, nat) -> int, a: nat, b: nat, y: nat): (nat, nat) -> int {
    (x: nat, i: nat) => Sum(b, Row(Tile(f, a, b, y, x), i))
  }

  lemma TileRow(f: (nat, nat) -> int, a: nat, b: nat, y: nat, n: nat)
    ensures Sum(n, Row(TileSums(f, a, b), y)) == Sum(a, Row(Rows(RowSums(f, n * b), a), y))
  {
    var strips := StripSums(f, a, b, y);
    forall x: nat | x < n ensures Row(TileSums(f, a, b), y)(x) == RowSums(strips, a)(x) {
      SumSame(a, RowSums(Tile(f, a, b, y, x), b), Row(strips, x));
    }
    SumSame(n, Row(TileSums(f, a, b), y), RowSums(strips, a));
    SumSwap(n, a, strips);
    forall i: nat | i < a ensures ColumnSums(strips, n)(i) == Row(Rows(RowSums(f, n * b), a), y)(i) {
      var line := Row(f, y * a + i);
      SumFlatten(n, b, line);
      forall x: nat | x < n ensures Column(strips, i)(x) == RowSums(Rows(line, b), b)(x) {
        SumSame(b, Row(Tile(f, a, b, y, x), i), Row(Rows(line, b), x));
      }
      SumSame(n, Column(strips, i), RowSums(Rows(line, b), b));
    }
    SumSame(a, ColumnSums(strips, n), Row(Rows(RowSums(f, n * b), a), y));
  }

  lemma SumReadsRow(n: nat, f: nat -> int, g: nat -> int, i: nat)
    requires forall j: nat :: j < n ==> f(j) == g(i * n + j)
    ensures Sum(n, f) == RowSums(Rows(g, n), n)(i)
  {
    SumSame(n, f, Row(Rows(g, n), i));
  }

  /** A range that reads a table row by row sums the table. */
  lemma SumReadsTable(k: nat, f: nat -> int, t: (nat, nat) -> int, m: nat, n: nat)
    requires n > 0 && k == m * n && forall l: nat :: l < k ==> f(l) == RowMajor(t, n)(l)
    ensures Sum(k, f) == TableSum(t, m, n)
  {
    SumRowMajor(m, n, t);
    SumSame(k, f, RowMajor(t, n));
  }

  /** Summing tile by tile sums the whole table. */
  lemma SumTiled(f: (nat, nat) -> int, a: nat, b: nat, m: nat, n: nat)
    ensures TableSum(TileSums(f, a, b), m, n) == TableSum(f, m * a, n * b)
  {
    var g := RowSums(f, n * b);
    SumFlatten(m, a, g);
    forall y: nat | y < m ensures RowSums(TileSums(f, a, b), n)(y) == RowSums(Rows(g, a), a)(y) {
      TileRow(f, a, b, y, n);
    }
    SumSame(m, RowSums(TileSums(f, a, b), n), RowSums(Rows(g, a), a));
  }

  lemma TableSame(f: (nat, nat) -> int, g: (nat, nat) -> int, m: nat, n: nat)
    requires forall y: nat, x: nat :: y < m && x < n ==> f(y, x) == g(y, x)
    ensures TableSum(f, m, n) == TableSum(g, m, n)
  {
    forall y: nat | y < m ensures RowSums(f, n)(y) == RowSums(g, n)(y) {
      SumSame(n, Row(f, y), Row(g, y));
    }
    SumSame(m, RowSums(f, n), RowSums(g, n));
  }

  lemma TableConstant(f: (nat, nat) -> int, m: nat, n: nat, c: int)
    requires forall y: nat, x: nat :: y < m && x < n ==> f(y, x) == c
    ensures TableSum(f, m, n) == m * (n * c)
  {
    forall y: nat | y < m ensures RowSums(f, n)(y) == n * c {
      SumConstant(n, Row(f, y), c);
    }
    SumConstant(m, RowSums(f, n), n * c);
  }

  function Combined(f: (nat, nat) -> int, c: int, g: (nat, nat) -> int): (nat, nat) -> int {
    (y: nat, x: nat) => f(y, x) + c * g(y, x)
  }

  function Multiples(f: nat -> int, c: int): nat -> int {
    (i: nat) => c * f(i)
  }

  lemma SumCombined(n: nat, h: nat -> int, f: nat -> int, c: int, g: nat -> int)
    requires forall i: nat :: i < n ==> h(i) == f(i) + c * g(i)
    ensures Sum(n, h) == Sum(n, f) + c * Sum(n, g)
  {
    SumScaled(n, Multiples(g, c), c, g);
    SumAdd(n, h, f, Multiples(g, c));
  }

  lemma TableCombined(f: (nat, nat) -> int, c: int, g: (nat, nat) -> int, m: nat, n: nat)
    ensures TableSum(Combined(f, c, g), m, n) == TableSum(f, m, n) + c * TableSum(g, m, n)
  {
    forall y: nat | y < m ensures RowSums(Combined(f, c, g), n)(y) == RowSums(f, n)(y) + c * RowSums(g, n)(y) {
      SumCombined(n, Row(Combined(f, c, g), y), Row(f, y), c, Row(g, y));
    }
    SumCombined(m, RowSums(Combined(f, c, g), n), RowSums(f, n), c, RowSums(g, n));
  }

  lemma {:induction false} SumVanishes(n: nat, f: nat -> int)
    requires forall i: nat :: i < n ==> f(i) >= 0
    ensures Sum(n, f) >= 0
    ensures Sum(n, f) == 0 <==> forall i: nat :: i < n ==> f(i) == 0
  {
    if n > 0 {
      SumVanishes(n - 1, f);
    }
  }

  lemma RowVanishes(f: (nat, nat) -> int, n: nat, y: nat)
    requires forall x: nat :: x < n ==> f(y, x) >= 0
    ensures RowSums(f, n)(y) >= 0
    ensures RowSums(f, n)(y) == 0 <==> forall x: nat :: x < n ==> f(y, x) == 0
  {
    SumVanishes(n, Row(f, y));
    assert forall x: nat :: Row(f, y)(x) == f(y, x);
  }

  lemma TableVanishes(f: (nat, nat) -> int, m: nat, n: nat)
    requires forall y: nat, x: nat :: y < m && x < n ==> f(y, x) >= 0
    ensures TableSum(f, m, n) == 0 <==> forall y: nat, x: nat :: y < m && x < n ==> f(y, x) == 0
  {
    forall y: nat | y < m ensures RowSums(f, n)(y) >= 0 {
      RowVanishes(f, n, y);
    }
    SumVanishes(m, RowSums(f, n));
    if TableSum(f, m, n) == 0 {
      forall y: nat, x: nat | y < m && x < n ensures f(y, x) == 0 {
        RowVanishes(f, n, y);
      }
    } else if forall y: nat, x: nat :: y < m && x < n ==> f(y, x) == 0 {
      forall y: nat | y < m ensures RowSums(f, n)(y) == 0 {
        RowVanishes(f, n, y);
      }
    }
  }

  function Sheet(f: (nat, nat, nat) -> int, v: nat): (nat, nat) -> int {
    (y: nat, x: nat) => f(v, y, x)
  }

  /** The sums over the first index of a three-dimensional table. */
  function Pile(f: (nat, nat, nat) -> int, k: nat): (nat, nat) -> int {
    (y: nat, x: nat) => Sum(k, Through(f, y, x))
  }

  function Through(f: (nat, nat, nat) -> int, y: nat, x: nat): nat -> int {
    (v: nat) => f(v, y, x)
  }

  function SheetSums(f: (nat, nat, nat) -> int, m: nat, n: nat): nat -> int {
    (v: nat) => TableSum(Sheet(f, v), m, n)
  }

  function SheetRows(f: (nat, nat, nat) -> int, n: nat): (nat, nat) -> int {
    (v: nat, y: nat) => Sum(n, Row(Sheet(f, v), y))
  }

  function Slice(f: (nat, nat, nat) -> int, y: nat): (nat, nat) -> int {
    (v: nat, x: nat) => f(v, y, x)
  }

  lemma SlicePile(f: (nat, nat, nat) -> int, k: nat, n: nat, y: nat)
    ensures Sum(k, Column(SheetRows(f, n), y)) == Sum(n, Row(Pile(f, k), y))
  {
    forall v: nat | v < k ensures Column(SheetRows(f, n), y)(v) == RowSums(Slice(f, y), n)(v) {
      SumSame(n, Row(Sheet(f, v), y), Row(Slice(f, y), v));
    }
    SumSame(k, Column(SheetRows(f, n), y), RowSums(Slice(f, y), n));
    SumSwap(k, n, Slice(f, y));
    forall x: nat | x < n ensures ColumnSums(Slice(f, y), k)(x) == Row(Pile(f, k), y)(x) {
      SumSame(k, Column(Slice(f, y), x), Through(f, y, x));
    }
    SumSame(n, ColumnSums(Slice(f, y), k), Row(Pile(f, k), y));
  }

  /** Adding up sheets adds up cell by cell. */
  lemma SumOfSheets(f: (nat, nat, nat) -> int, k: nat, m: nat, n: nat)
    ensures Sum(k, SheetSums(f, m, n)) == TableSum(Pile(f, k), m, n)
  {
    var t := SheetRows(f, n);
    forall v: nat | v < k ensures SheetSums(f, m, n)(v) == RowSums(t, m)(v) {
      SumSame(m, RowSums(Sheet(f, v), n), Row(t, v));
    }
    SumSame(k, SheetSums(f, m, n), RowSums(t, m));
    SumSwap(k, m, t);
    forall y: nat | y < m ensures ColumnSums(t, k)(y) == RowSums(Pile(f, k), n)(y) {
      SlicePile(f, k, n, y);
    }
    SumSame(m, ColumnSums(t, k), RowSums(Pile(f, k), n));
  }

  // ---------- counting in sequences ----------

  function CountIn(s: seq<nat>, b: nat): nat {
    if s == [] then 0 else (if s[0] == b then 1 else 0) + CountIn(s[1..], b)
  }

  lemma {:induction false} CountAppend(s: seq<nat>, t: seq<nat>, b: nat)
    ensures CountIn(s + t, b) == CountIn(s, b) + CountIn(t, b)
  {
    if s == [] {
      assert s + t == t;
    } else {
      assert (s + t)[1..] == s[1..] + t;
      CountAppend(s[1..], t, b);
    }
  }
}
