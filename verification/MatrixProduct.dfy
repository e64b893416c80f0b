/** The matrix kernels of chapter 8 against the triple loop that checks them, in exact arithmetic.

    A global buffer that a kernel only reads is a function of its index; the buffer C and the local copy lA of a
    row of A are shared memories written by work-items in any order. */
module MatrixProduct {
  import opened Powers
  import opened Scatter
  import opened Sums
  import opened WorkItems

  type Buffer = nat -> int

  function Terms(a: Buffer, b: Buffer, dim: nat, i: nat, j: nat): nat -> int {
    (k: nat) => a(i * dim + k) * b(k * dim + j)
  }

  /** The entry in row i and column j of the product. */
  function Entry(a: Buffer, b: Buffer, dim: nat, i: nat, j: nat): int {
    Sum(dim, Terms(a, b, dim, i, j))
  }

  /** The product, row by row. */
  function Product(a: Buffer, b: Buffer, dim: nat): nat -> int
    requires dim > 0
  {
    (c: nat) => Entry(a, b, dim, c / dim, c % dim)
  }

  lemma ProductCell(a: Buffer, b: Buffer, dim: nat, i: nat, j: nat)
    requires j < dim
    ensures Product(a, b, dim)(i * dim + j) == Entry(a, b, dim, i, j)
  {
    RowColumn(i, dim, j);
  }

  /** The matrix that is one in row p and column q and zero elsewhere. */
  function Unit(dim: nat, p: nat, q: nat): Buffer {
    (c: nat) => if c == p * dim + q then 1 else 0
  }

  lemma UnitCell(dim: nat, p: nat, q: nat, i: nat, k: nat)
    requires q < dim && k < dim
    ensures Unit(dim, p, q)(i * dim + k) == if i == p && k == q then 1 else 0
  {
    RowColumn(i, dim, k);
    RowColumn(p, dim, q);
  }

  /** From the left, such a matrix moves row q to row p. */
  lemma UnitTimes(b: Buffer, dim: nat, p: nat, q: nat, i: nat, j: nat)
    requires p < dim && q < dim && i < dim && j < dim
    ensures Product(Unit(dim, p, q), b, dim)(i * dim + j) == if i == p then b(q * dim + j) else 0
  {
    ProductCell(Unit(dim, p, q), b, dim, i, j);
    var terms := Terms(Unit(dim, p, q), b, dim, i, j);
    forall k: nat | k < dim ensures terms(k) == if i == p && k == q then b(q * dim + j) else 0 {
      UnitCell(dim, p, q, i, k);
    }
    SumSingle(dim, terms, q);
  }

  /** The product is additive in its left factor. */
  lemma ProductAdds(a: Buffer, a': Buffer, a'': Buffer, b: Buffer, dim: nat, c: nat)
    requires dim > 0 && forall k: nat :: a''(k) == a(k) + a'(k)
    ensures Product(a'', b, dim)(c) == Product(a, b, dim)(c) + Product(a', b, dim)(c)
  {
    var i, j := c / dim, c % dim;
    forall k: nat | k < dim
      ensures Terms(a'', b, dim, i, j)(k) == Terms(a, b, dim, i, j)(k) + Terms(a', b, dim, i, j)(k)
    {
      TermAdds(a(i * dim + k), a'(i * dim + k), b(k * dim + j));
    }
    SumAdd(dim, Terms(a'', b, dim, i, j), Terms(a, b, dim, i, j), Terms(a', b, dim, i, j));
  }

  lemma TermAdds(x: int, y: int, z: int)
    ensures (x + y) * z == x * z + y * z
  {
  }

  // ---------- the check on the host ----------

  /** The triple loop. */
  method GoldenValues(a: Buffer, b: Buffer, dim: nat) returns (golden: array<int>)
    requires dim > 0
    ensures fresh(golden) && golden.Length == dim * dim
    ensures forall c: nat :: c < golden.Length ==> golden[c] == Product(a, b, dim)(c)
  {
    golden := new int[dim * dim];
    for i := 0 to dim
      invariant i * dim <= golden.Length
      invariant forall c: nat :: c < i * dim ==> golden[c] == Product(a, b, dim)(c)
    {
      CellInside(i, dim - 1, dim, dim);
      for j := 0 to dim
        invariant forall c: nat :: c < i * dim + j ==> golden[c] == Product(a, b, dim)(c)
      {
        GoldenCell(a, b, dim, i, j, golden);
      }
    }
  }

  /** The inner loop, on a cell of the result. */
  method GoldenCell(a: Buffer, b: Buffer, dim: nat, i: nat, j: nat, golden: array<int>)
    requires j < dim && i * dim + j < golden.Length
    modifies golden
    ensures golden[i * dim + j] == Product(a, b, dim)(i * dim + j)
    ensures forall c: nat :: c < golden.Length && c != i * dim + j ==> golden[c] == old(golden[c])
  {
    ghost var cell := i * dim + j;
    golden[i * dim + j] := 0;
    for k := 0 to dim
      invariant golden[cell] == Sum(k, Terms(a, b, dim, i, j))
      invariant forall c: nat :: c < golden.Length && c != cell ==> golden[c] == old(golden[c])
    {
      golden[i * dim + j] := golden[i * dim + j] + a(i * dim + k) * b(k * dim + j);
    }
    ProductCell(a, b, dim, i, j);
  }

  /** The comparison gives up after ten differences, which does not change its verdict. */
  method ResultIsCorrect(a: Buffer, b: Buffer, test: array<int>, dim: nat) returns (result: bool)
    requires dim > 0 && test.Length == dim * dim
    ensures result <==> forall c: nat :: c < test.Length ==> test[c] == Product(a, b, dim)(c)
  {
    var golden := GoldenValues(a, b, dim);
    result := true;
    var errorCount, i := 10, 0;
    while i < dim * dim && errorCount != 0
      invariant 0 <= i <= dim * dim && 0 <= errorCount <= 10
      invariant errorCount < 10 <==> !result
      invariant result <==> forall c: nat :: c < i ==> test[c] == golden[c]
    {
      if golden[i] != test[i] {
        errorCount := errorCount - 1;
        result := false;
      }
      i := i + 1;
    }
  }

  // ---------- one entry per work-item ----------

  function OneCell(w: nat): seq<nat> {
    [w]
  }

  function Same(c: nat): nat {
    c
  }

  lemma OneCellDealt(n: nat)
    ensures Dealt(OneCell, Same, n, n)
  {
  }

  method Dot(a: Buffer, b: Buffer, dim: nat, iRow: nat, iCol: nat) returns (result: int)
    ensures result == Entry(a, b, dim, iRow, iCol)
  {
    result := 0;
    for i := 0 to dim
      invariant result == Sum(i, Terms(a, b, dim, iRow, iCol))
    {
      result := result + a(iRow * dim + i) * b(i * dim + iCol);
    }
  }

  lemma OneWrite(a: Buffer, b: Buffer, dim: nat, iRow: nat, iCol: nat, result: int)
    requires iCol < dim && result == Entry(a, b, dim, iRow, iCol)
    ensures [Store(iRow * dim + iCol, Const(result))] == Writes(OneCell(iRow * dim + iCol), Product(a, b, dim))
  {
    ProductCell(a, b, dim, iRow, iCol);
    assert OneCell(iRow * dim + iCol) == [] + [iRow * dim + iCol];
    WritesAppend([], iRow * dim + iCol, Product(a, b, dim));
  }

  /** MatrixMul_kernel_basic. */
  method Basic(a: Buffer, b: Buffer, dim: nat) returns (product: array<int>)
    requires dim > 0
    ensures fresh(product) && product.Length == dim * dim
    ensures forall c: nat :: c < product.Length ==> product[c] == Product(a, b, dim)(c)
  {
    product := new int[dim * dim];
    var ps: seq<seq<Instr<int>>> := [];
    for iRow := 0 to dim
      invariant |ps| == iRow * dim && AreWrites(ps, OneCell, Product(a, b, dim))
    {
      CellInside(iRow, 0, dim, dim);
      for iCol := 0 to dim
        invariant |ps| == iRow * dim + iCol && AreWrites(ps, OneCell, Product(a, b, dim))
      {
        var result := Dot(a, b, dim, iRow, iCol);
        OneWrite(a, b, dim, iRow, iCol, result);
        ps := ps + [[Store(iRow * dim + iCol, Const(result))]];
      }
    }
    OneCellDealt(dim * dim);
    LaunchWrites(product, ps, OneCell, Same, Product(a, b, dim));
  }

  // ---------- four entries per work-item ----------

  datatype Float4 = Float4(x: int, y: int, z: int, w: int)

  function Times(u: Float4, v: Float4): Float4 {
    Float4(u.x * v.x, u.y * v.y, u.z * v.z, u.w * v.w)
  }

  function Plus(u: Float4, v: Float4): Float4 {
    Float4(u.x + v.x, u.y + v.y, u.z + v.z, u.w + v.w)
  }

  function Total(u: Float4): int {
    u.x + u.y + u.z + u.w
  }

  /** A buffer of floats read as a buffer of float4. */
  function Vectors(a: Buffer): nat -> Float4 {
    (i: nat) => Float4(a(4 * i), a(4 * i + 1), a(4 * i + 2), a(4 * i + 3))
  }

  function FourCells(w: nat): seq<nat> {
    [4 * w, 4 * w + 1, 4 * w + 2, 4 * w + 3]
  }

  function OwnerOfFour(c: nat): nat {
    c / 4
  }

  lemma FourCellsDealt(n: nat)
    ensures Dealt(FourCells, OwnerOfFour, n, 4 * n)
  {
  }

  /** Where vector i of row iRow of A, and vector x of row 4 i + r of B, lie. */
  lemma VectorIndices(iRow: nat, i: nat, x: nat, r: nat, rowElements: nat)
    ensures 4 * (iRow * rowElements + i) == iRow * (4 * rowElements) + 4 * i
    ensures 4 * (4 * rowElements * i + r * rowElements + x) == (4 * i + r) * (4 * rowElements) + 4 * x
  {
  }

  lemma FourTerms(i: nat, f: nat -> int)
    ensures Sum(4 * (i + 1), f) == Sum(4 * i, f) + f(4 * i) + f(4 * i + 1) + f(4 * i + 2) + f(4 * i + 3)
  {
    assert Sum(4 * i + 4, f) == Sum(4 * i + 3, f) + f(4 * i + 3);
    assert Sum(4 * i + 3, f) == Sum(4 * i + 2, f) + f(4 * i + 2);
    assert Sum(4 * i + 2, f) == Sum(4 * i + 1, f) + f(4 * i + 1);
  }

  /** The four columns of four vectors of B. */
  function Gathered(v: seq<Float4>, q: nat): Float4
    requires |v| == 4 && q < 4
  {
    if q == 0 then Float4(v[0].x, v[1].x, v[2].x, v[3].x)
    else if q == 1 then Float4(v[0].y, v[1].y, v[2].y, v[3].y)
    else if q == 2 then Float4(v[0].z, v[1].z, v[2].z, v[3].z)
    else Float4(v[0].w, v[1].w, v[2].w, v[3].w)
  }

  /** Vector x of row 4 i + r of B, where the kernel looks for it. */
  function BVector(b: Buffer, dim: nat, rowElements: nat, i: nat, x: nat, r: nat): Float4 {
    Vectors(b)(dim * i + r * rowElements + x)
  }

  function RowsOfB(b: Buffer, dim: nat, rowElements: nat, i: nat, x: nat): seq<Float4> {
    [BVector(b, dim, rowElements, i, x, 0), BVector(b, dim, rowElements, i, x, 1),
     BVector(b, dim, rowElements, i, x, 2), BVector(b, dim, rowElements, i, x, 3)]
  }

  lemma VectorOfA(a: Buffer, rowElements: nat, iRow: nat, i: nat)
    ensures var c := iRow * (4 * rowElements) + 4 * i;
            Vectors(a)(iRow * rowElements + i) == Float4(a(c), a(c + 1), a(c + 2), a(c + 3))
  {
    VectorIndices(iRow, i, 0, 0, rowElements);
  }

  function BEntry(b: Buffer, dim: nat, i: nat, r: nat, col: nat): int {
    b((4 * i + r) * dim + col)
  }

  lemma VectorOfB(b: Buffer, dim: nat, rowElements: nat, i: nat, x: nat, r: nat)
    requires dim == 4 * rowElements
    ensures BVector(b, dim, rowElements, i, x, r) ==
            Float4(BEntry(b, dim, i, r, 4 * x), BEntry(b, dim, i, r, 4 * x + 1),
                   BEntry(b, dim, i, r, 4 * x + 2), BEntry(b, dim, i, r, 4 * x + 3))
  {
    VectorIndices(0, i, x, r, rowElements);
  }

  /** Column col of rows 4 i to 4 i + 3 of B. */
  function ColumnOfB(b: Buffer, dim: nat, i: nat, col: nat): Float4 {
    Float4(BEntry(b, dim, i, 0, col), BEntry(b, dim, i, 1, col), BEntry(b, dim, i, 2, col), BEntry(b, dim, i, 3, col))
  }

  lemma GatheredColumn(b: Buffer, dim: nat, rowElements: nat, i: nat, x: nat, q: nat)
    requires dim == 4 * rowElements && q < 4
    ensures Gathered(RowsOfB(b, dim, rowElements, i, x), q) == ColumnOfB(b, dim, i, 4 * x + q)
  {
    VectorOfB(b, dim, rowElements, i, x, 0);
    VectorOfB(b, dim, rowElements, i, x, 1);
    VectorOfB(b, dim, rowElements, i, x, 2);
    VectorOfB(b, dim, rowElements, i, x, 3);
  }

  lemma FourProducts(a: Buffer, b: Buffer, dim: nat, iRow: nat, i: nat, col: nat, before: Float4)
    requires Total(before) == Sum(4 * i, Terms(a, b, dim, iRow, col))
    ensures var c := iRow * dim + 4 * i;
            Total(Plus(before, Times(Float4(a(c), a(c + 1), a(c + 2), a(c + 3)), ColumnOfB(b, dim, i, col)))) ==
            Sum(4 * (i + 1), Terms(a, b, dim, iRow, col))
  {
    FourTerms(i, Terms(a, b, dim, iRow, col));
  }

  /** One of the four updates in a round of the loop. */
  function AddVector(r: Float4, a: Buffer, b: Buffer, dim: nat, rowElements: nat, iRow: nat, x: nat, i: nat, q: nat)
    : Float4
    requires q < 4
  {
    Plus(r, Times(Vectors(a)(iRow * rowElements + i), Gathered(RowsOfB(b, dim, rowElements, i, x), q)))
  }

  /** It adds four terms of the entry. */
  lemma VectorStep(a: Buffer, b: Buffer, dim: nat, rowElements: nat, iRow: nat, x: nat, i: nat, q: nat, r: Float4)
    requires dim == 4 * rowElements && q < 4 && Adds(r, a, b, dim, iRow, 4 * x + q, i)
    ensures Adds(AddVector(r, a, b, dim, rowElements, iRow, x, i, q), a, b, dim, iRow, 4 * x + q, i + 1)
  {
    VectorOfA(a, rowElements, iRow, i);
    GatheredColumn(b, dim, rowElements, i, x, q);
    FourProducts(a, b, dim, iRow, i, 4 * x + q, r);
  }

  /** A result vector after i vectors of A: its lanes add up to the first 4 i terms. */
  ghost predicate Adds(r: Float4, a: Buffer, b: Buffer, dim: nat, iRow: nat, col: nat, i: nat) {
    Total(r) == Sum(4 * i, Terms(a, b, dim, iRow, col))
  }

  /** The loop of one work-item over the vectors of its row of A, for one of its four entries. */
  method DotVector(a: Buffer, b: Buffer, dim: nat, rowElements: nat, iRow: nat, x: nat, q: nat) returns (result: int)
    requires dim == 4 * rowElements && q < 4
    ensures result == Entry(a, b, dim, iRow, 4 * x + q)
  {
    var r := Float4(0, 0, 0, 0);
    for i := 0 to rowElements
      invariant Adds(r, a, b, dim, iRow, 4 * x + q, i)
    {
      VectorStep(a, b, dim, rowElements, iRow, x, i, q, r);
      r := AddVector(r, a, b, dim, rowElements, iRow, x, i, q);
    }
    result := Total(r);
  }

  /** One work-item: the loops for its four entries read the same vectors and do not affect one another. */
  method DotVectors(a: Buffer, b: Buffer, dim: nat, rowElements: nat, iRow: nat, x: nat) returns (results: seq<int>)
    requires dim == 4 * rowElements
    ensures |results| == 4 && forall q: nat :: q < 4 ==> results[q] == Entry(a, b, dim, iRow, 4 * x + q)
  {
    results := [];
    for q := 0 to 4
      invariant |results| == q && forall p: nat :: p < q ==> results[p] == Entry(a, b, dim, iRow, 4 * x + p)
    {
      var result := DotVector(a, b, dim, rowElements, iRow, x, q);
      results := results + [result];
    }
  }

  function FourStores(c: nat, results: seq<int>): seq<Instr<int>>
    requires |results| == 4
  {
    [Store(c, Const(results[0])), Store(c + 1, Const(results[1])), Store(c + 2, Const(results[2])),
     Store(c + 3, Const(results[3]))]
  }

  lemma FourStoresAreWrites(c: nat, results: seq<int>, f: nat -> int)
    requires |results| == 4 && forall q: nat :: q < 4 ==> results[q] == f(c + q)
    ensures FourStores(c, results) == Writes([c, c + 1, c + 2, c + 3], f)
  {
    assert results[0] == f(c + 0) && results[1] == f(c + 1) && results[2] == f(c + 2) && results[3] == f(c + 3);
    WritesAppend([], c, f);
    WritesAppend([c], c + 1, f);
    WritesAppend([c, c + 1], c + 2, f);
    WritesAppend([c, c + 1, c + 2], c + 3, f);
    assert [] + [c] == [c] && [c] + [c + 1] == [c, c + 1] && [c, c + 1] + [c + 2] == [c, c + 1, c + 2];
    assert [c, c + 1, c + 2] + [c + 3] == [c, c + 1, c + 2, c + 3];
  }

  lemma FourResults(a: Buffer, b: Buffer, dim: nat, rowElements: nat, iRow: nat, x: nat, q: nat)
    requires dim == 4 * rowElements && x < rowElements && q < 4
    ensures iRow * dim + x * 4 == 4 * (iRow * rowElements + x)
    ensures Product(a, b, dim)(iRow * dim + x * 4 + q) == Entry(a, b, dim, iRow, 4 * x + q)
  {
    VectorIndices(iRow, x, 0, 0, rowElements);
    ProductCell(a, b, dim, iRow, 4 * x + q);
  }

  lemma FourWrites(a: Buffer, b: Buffer, dim: nat, rowElements: nat, iRow: nat, x: nat, w: nat, c: nat,
                   results: seq<int>)
    requires dim == 4 * rowElements && x < rowElements && w == iRow * rowElements + x && c == iRow * dim + x * 4
    requires |results| == 4 && forall q: nat :: q < 4 ==> results[q] == Entry(a, b, dim, iRow, 4 * x + q)
    ensures FourStores(c, results) == Writes(FourCells(w), Product(a, b, dim))
  {
    FourResults(a, b, dim, rowElements, iRow, x, 0);
    forall q: nat | q < 4 ensures results[q] == Product(a, b, dim)(c + q) {
      FourResults(a, b, dim, rowElements, iRow, x, q);
    }
    FourStoresAreWrites(c, results, Product(a, b, dim));
  }

  /** One work-item, the w-th of the launch. */
  method VectorItem(a: Buffer, b: Buffer, dim: nat, rowElements: nat, iRow: nat, x: nat, ghost w: nat)
    returns (p: seq<Instr<int>>)
    requires dim == 4 * rowElements && x < rowElements && w == iRow * rowElements + x
    ensures p == Writes(FourCells(w), Product(a, b, dim))
  {
    var results := DotVectors(a, b, dim, rowElements, iRow, x);
    var c := iRow * dim + x * 4;
    FourWrites(a, b, dim, rowElements, iRow, x, w, c, results);
    p := FourStores(c, results);
  }

  /** One row of work-items. */
  method VectorRow(a: Buffer, b: Buffer, dim: nat, rowElements: nat, iRow: nat, done: seq<seq<Instr<int>>>)
    returns (ps: seq<seq<Instr<int>>>)
    requires dim > 0 && dim == 4 * rowElements
    requires |done| == iRow * rowElements && AreWrites(done, FourCells, Product(a, b, dim))
    ensures |ps| == |done| + rowElements && AreWrites(ps, FourCells, Product(a, b, dim))
  {
    ps := done;
    for x := 0 to rowElements
      invariant |ps| == |done| + x && AreWrites(ps, FourCells, Product(a, b, dim))
    {
      var p := VectorItem(a, b, dim, rowElements, iRow, x, |ps|);
      ps := ps + [p];
    }
  }

  /** MatrixMul_kernel_basic_vector4. */
  method BasicVector4(a: Buffer, b: Buffer, dim: nat) returns (product: array<int>)
    requires dim > 0 && dim % 4 == 0
    ensures fresh(product) && product.Length == dim * dim
    ensures forall c: nat :: c < product.Length ==> product[c] == Product(a, b, dim)(c)
  {
    var rowElements := dim / 4;
    var ps := VectorPrograms(a, b, dim, rowElements);
    product := new int[dim * dim];
    FourCellsDealt(dim * rowElements);
    VectorIndices(dim, 0, 0, 0, rowElements);
    LaunchWrites(product, ps, FourCells, OwnerOfFour, Product(a, b, dim));
  }

  method VectorPrograms(a: Buffer, b: Buffer, dim: nat, rowElements: nat) returns (ps: seq<seq<Instr<int>>>)
    requires dim > 0 && dim == 4 * rowElements
    ensures |ps| == dim * rowElements && AreWrites(ps, FourCells, Product(a, b, dim))
  {
    ps := [];
    for iRow := 0 to dim
      invariant |ps| == iRow * rowElements && AreWrites(ps, FourCells, Product(a, b, dim))
    {
      CellInside(iRow, 0, dim, rowElements);
      ps := VectorRow(a, b, dim, rowElements, iRow, ps);
    }
  }

  // ---------- copying a row ----------

  /** Work-item l copies n consecutive cells. */
  function BlockCells(n: nat): nat -> seq<nat> {
    (l: nat) => Strided(l * n, 1, 0, n)
  }

  function BlockOwner(n: nat): nat -> nat
    requires n > 0
  {
    (c: nat) => c / n
  }

  lemma BlocksDealt(step: nat, n: nat)
    requires n > 0
    ensures Dealt(BlockCells(n), BlockOwner(n), step, step * n)
  {
    forall c: nat | c < step * n ensures BlockOwner(n)(c) < step {
      QuotientBelow(c, step, n);
    }
    forall l: nat, c: nat | l < step ensures DealtCell(BlockCells(n), BlockOwner(n), step * n, l, c) {
      if c in Strided(l * n, 1, 0, n) {
        var j := InStrided(l * n, 1, 0, n, c);
        RowColumn(l, n, j);
        CellInside(l, j, step, n);
      }
      if c < step * n && c / n == l {
        DivisionEquation(c, n);
        StridedHas(l * n, 1, 0, n, c % n);
      }
    }
  }

  /** Row iRow of a matrix with dim columns. */
  function RowOf(a: Buffer, dim: nat, iRow: nat): Buffer {
    (c: nat) => a(iRow * dim + c)
  }

  /** The copy loop of one work-item: numElements cells from base on, step apart. */
  method CopyCells(row: Buffer, base: nat, step: nat, l: nat, numElements: nat) returns (p: seq<Instr<int>>)
    ensures p == Writes(Strided(base, step, l, numElements), row)
  {
    p := [];
    for i := 0 to numElements
      invariant p == Writes(Strided(base, step, l, i), row)
    {
      var c := base + i * step + l;
      WritesAppend(Strided(base, step, l, i), c, row);
      p := p + [Store(c, Const(row(c)))];
    }
  }

  /** A local copy of row iRow. */
  ghost predicate HoldsRow(lA: seq<int>, a: Buffer, dim: nat, iRow: nat) {
    |lA| == dim && forall c: nat :: c < dim ==> lA[c] == RowOf(a, dim, iRow)(c)
  }

  function CopiedCells(localSize: nat, numElements: nat, blocks: bool): nat -> seq<nat> {
    if blocks then BlockCells(numElements) else StridedCells(localSize, numElements)
  }

  method CopyPrograms(a: Buffer, dim: nat, iRow: nat, localSize: nat, numElements: nat, blocks: bool)
    returns (ps: seq<seq<Instr<int>>>)
    ensures |ps| == localSize && AreWrites(ps, CopiedCells(localSize, numElements, blocks), RowOf(a, dim, iRow))
  {
    ps := [];
    for l := 0 to localSize
      invariant |ps| == l && AreWrites(ps, CopiedCells(localSize, numElements, blocks), RowOf(a, dim, iRow))
    {
      var p;
      if blocks {
        p := CopyCells(RowOf(a, dim, iRow), l * numElements, 1, 0, numElements);
      } else {
        p := CopyCells(RowOf(a, dim, iRow), 0, localSize, l, numElements);
      }
      ps := ps + [p];
    }
  }

  /** A with its columns from covered on replaced by what the local memory held there. */
  function Patched(a: Buffer, junk: Buffer, dim: nat, covered: nat): Buffer
    requires dim > 0
  {
    (i: nat) => if i % dim < covered then a(i) else junk(i)
  }

  lemma PatchedCell(a: Buffer, junk: Buffer, dim: nat, covered: nat, iRow: nat, c: nat)
    requires c < dim
    ensures RowOf(Patched(a, junk, dim, covered), dim, iRow)(c) ==
            if c < covered then RowOf(a, dim, iRow)(c) else RowOf(junk, dim, iRow)(c)
  {
    RowColumn(iRow, dim, c);
  }

  /** A group of localSize work-items copies row iRow of A to its local memory, either in blocks or with a
      stride; after the barrier it is only read. What is not copied stays as it was. */
  method LoadRow(a: Buffer, junk: Buffer, dim: nat, iRow: nat, localSize: nat, numElements: nat, blocks: bool)
    returns (copy: seq<int>)
    requires localSize > 0 && dim > 0 && numElements * localSize <= dim
    requires blocks ==> numElements > 0 && dim == localSize * numElements
    ensures HoldsRow(copy, Patched(a, junk, dim, numElements * localSize), dim, iRow)
  {
    var ps := CopyPrograms(a, dim, iRow, localSize, numElements, blocks);
    var lA := new int[dim](c requires 0 <= c => RowOf(junk, dim, iRow)(c));
    if blocks {
      BlocksDealt(localSize, numElements);
      LaunchWrites(lA, ps, BlockCells(numElements), BlockOwner(numElements), RowOf(a, dim, iRow));
    } else {
      StridedPartlyDealt(localSize, numElements, dim);
      LaunchWrites(lA, ps, StridedCells(localSize, numElements), StridedOwner(localSize, numElements),
                   RowOf(a, dim, iRow));
    }
    copy := lA[..];
    forall c: nat | c < dim
      ensures copy[c] == RowOf(Patched(a, junk, dim, numElements * localSize), dim, iRow)(c)
    {
      PatchedCell(a, junk, dim, numElements * localSize, iRow, c);
    }
  }

  lemma WholeRowHeld(lA: seq<int>, a: Buffer, junk: Buffer, dim: nat, iRow: nat)
    requires dim > 0 && HoldsRow(lA, Patched(a, junk, dim, dim), dim, iRow)
    ensures HoldsRow(lA, a, dim, iRow)
  {
    forall c: nat | c < dim ensures lA[c] == RowOf(a, dim, iRow)(c) {
      PatchedCell(a, junk, dim, dim, iRow, c);
    }
  }

  // ---------- a local copy of the row of A ----------

  /** The loop over the local copy. */
  method DotLocal(lA: seq<int>, ghost a: Buffer, b: Buffer, dim: nat, ghost iRow: nat, iCol: nat) returns (result: int)
    requires HoldsRow(lA, a, dim, iRow)
    ensures result == Entry(a, b, dim, iRow, iCol)
  {
    result := 0;
    for i := 0 to dim
      invariant result == Sum(i, Terms(a, b, dim, iRow, iCol))
    {
      ghost var c: nat := i;
      assert lA[c] == RowOf(a, dim, iRow)(c);
      result := result + lA[i] * b(i * dim + iCol);
    }
  }

  /** One group: localSize neighbouring entries of row iRow. */
  method LocalGroup(a: Buffer, b: Buffer, localSize: nat, numElements: nat, iRow: nat, g: nat, blocks: bool,
                    done: seq<seq<Instr<int>>>)
    returns (ps: seq<seq<Instr<int>>>)
    requires localSize > 0 && g < numElements && numElements * localSize > 0
    requires |done| == iRow * (numElements * localSize) + g * localSize
    requires AreWrites(done, OneCell, Product(a, b, numElements * localSize))
    ensures |ps| == |done| + localSize && AreWrites(ps, OneCell, Product(a, b, numElements * localSize))
  {
    var dim := numElements * localSize;
    var lA := LoadRow(a, a, dim, iRow, localSize, numElements, blocks);
    WholeRowHeld(lA, a, a, dim, iRow);
    ps := done;
    for localIdx := 0 to localSize
      invariant |ps| == |done| + localIdx && AreWrites(ps, OneCell, Product(a, b, dim))
    {
      var iCol := g * localSize + localIdx;
      CellInside(g, localIdx, numElements, localSize);
      var result := DotLocal(lA, a, b, dim, iRow, iCol);
      OneWrite(a, b, dim, iRow, iCol, result);
      ps := ps + [[Store(iRow * dim + iCol, Const(result))]];
    }
  }

  /** One row of groups. */
  method LocalRow(a: Buffer, b: Buffer, localSize: nat, numElements: nat, iRow: nat, blocks: bool,
                  done: seq<seq<Instr<int>>>)
    returns (ps: seq<seq<Instr<int>>>)
    requires localSize > 0 && numElements * localSize > 0 && |done| == iRow * (numElements * localSize)
    requires AreWrites(done, OneCell, Product(a, b, numElements * localSize))
    ensures |ps| == |done| + numElements * localSize
    ensures AreWrites(ps, OneCell, Product(a, b, numElements * localSize))
  {
    ps := done;
    for g := 0 to numElements
      invariant |ps| == |done| + g * localSize && AreWrites(ps, OneCell, Product(a, b, numElements * localSize))
    {
      CellInside(g, 0, numElements, localSize);
      ps := LocalGroup(a, b, localSize, numElements, iRow, g, blocks, ps);
    }
  }

  /** MatrixMul_kernel_localA (in blocks) and MatrixMul_kernel_localA_coallesced (with a stride). */
  method LocalA(a: Buffer, b: Buffer, localSize: nat, numElements: nat, blocks: bool) returns (product: array<int>)
    requires localSize > 0 && numElements > 0 && numElements * localSize > 0
    ensures var dim := numElements * localSize;
            fresh(product) && product.Length == dim * dim &&
            forall c: nat :: c < product.Length ==> product[c] == Product(a, b, dim)(c)
  {
    var dim := numElements * localSize;
    var ps: seq<seq<Instr<int>>> := [];
    for iRow := 0 to dim
      invariant |ps| == iRow * dim && AreWrites(ps, OneCell, Product(a, b, dim))
    {
      CellInside(iRow, 0, dim, dim);
      ps := LocalRow(a, b, localSize, numElements, iRow, blocks, ps);
    }
    product := new int[dim * dim];
    OneCellDealt(dim * dim);
    LaunchWrites(product, ps, OneCell, Same, Product(a, b, dim));
  }

  // ---------- a row per group ----------

  /** Work-item w of the launch is work-item w % localSize of row w / localSize. */
  function RowCells(dim: nat, localSize: nat, n: nat): nat -> seq<nat>
    requires localSize > 0
  {
    (w: nat) => Strided(w / localSize * dim, localSize, w % localSize, n)
  }

  function Item(row: nat, localSize: nat, lane: nat): nat {
    row * localSize + lane
  }

  /** The cells in the columns from covered on belong to no work-item. */
  function RowOwner(dim: nat, localSize: nat, covered: nat): nat -> nat
    requires localSize > 0 && dim > 0
  {
    (c: nat) => if c % dim < covered then Item(c / dim, localSize, c % dim % localSize) else Item(dim, localSize, 0)
  }

  lemma OwnerOf(dim: nat, row: nat, column: nat, j: nat, l: nat, step: nat, covered: nat)
    requires l < step && column == j * step + l && column < covered <= dim
    ensures RowOwner(dim, step, covered)(row * dim + column) == Item(row, step, l)
  {
    RowColumn(row, dim, column);
    RowColumn(j, step, l);
  }

  lemma CellOfRow(dim: nat, c: nat, step: nat, n: nat) returns (j: nat)
    requires step > 0 && dim > 0 && c % dim < n * step
    ensures j < n && c == c / dim * dim + j * step + c % dim % step
  {
    var r := c % dim;
    DivisionEquation(c, dim);
    DivisionEquation(r, step);
    j := r / step;
    QuotientBelow(r, n, step);
  }

  lemma OwnerInside(dim: nat, c: nat, localSize: nat, covered: nat)
    requires localSize > 0 && dim > 0 && c < dim * dim
    ensures RowOwner(dim, localSize, covered)(c) < Item(dim, localSize, 0) <==> c % dim < covered
  {
    QuotientBelow(c, dim, dim);
    CellInside(c / dim, c % dim % localSize, dim, localSize);
  }

  lemma RowCellsOwned(dim: nat, localSize: nat, n: nat, covered: nat, row: nat, l: nat, c: nat)
    requires l < localSize && row < dim && covered == n * localSize && covered <= dim
    requires c in Strided(row * dim, localSize, l, n)
    ensures c < dim * dim && RowOwner(dim, localSize, covered)(c) == Item(row, localSize, l)
  {
    var j := InStrided(row * dim, localSize, l, n, c);
    var column := j * localSize + l;
    CellInside(j, l, n, localSize);
    OwnerOf(dim, row, column, j, l, localSize, covered);
    CellInside(row, column, dim, dim);
  }

  lemma CellsOfRowOwned(dim: nat, localSize: nat, n: nat, covered: nat, w: nat, c: nat)
    requires localSize > 0 && dim > 0 && covered == n * localSize && covered <= dim
    requires w < Item(dim, localSize, 0) && c in RowCells(dim, localSize, n)(w)
    ensures c < dim * dim && RowOwner(dim, localSize, covered)(c) == w
  {
    DivisionEquation(w, localSize);
    QuotientBelow(w, dim, localSize);
    RowCellsOwned(dim, localSize, n, covered, w / localSize, w % localSize, c);
  }

  lemma OwnedRowCells(dim: nat, localSize: nat, n: nat, covered: nat, w: nat, c: nat)
    requires localSize > 0 && dim > 0 && covered == n * localSize
    requires w < Item(dim, localSize, 0) && RowOwner(dim, localSize, covered)(c) == w
    ensures c in RowCells(dim, localSize, n)(w)
  {
    var row, l := c / dim, c % dim % localSize;
    var j := CellOfRow(dim, c, localSize, n);
    RowColumn(row, localSize, l);
    StridedHas(row * dim, localSize, l, n, j);
  }

  /** No entry of C is written by two work-items. */
  lemma RowsPartlyDealt(dim: nat, localSize: nat, n: nat, covered: nat)
    requires localSize > 0 && dim > 0 && covered == n * localSize && covered <= dim
    ensures PartlyDealt(RowCells(dim, localSize, n), RowOwner(dim, localSize, covered), Item(dim, localSize, 0),
                        dim * dim)
  {
    forall w: nat, c: nat | w < Item(dim, localSize, 0)
      ensures DealtCell(RowCells(dim, localSize, n), RowOwner(dim, localSize, covered), dim * dim, w, c)
    {
      if c in RowCells(dim, localSize, n)(w) {
        CellsOfRowOwned(dim, localSize, n, covered, w, c);
      }
      if RowOwner(dim, localSize, covered)(c) == w {
        OwnedRowCells(dim, localSize, n, covered, w, c);
      }
    }
  }

  /** The columns below the last multiple of the local size. */
  function Covered(dim: nat, localSize: nat): (covered: nat)
    requires localSize > 0
    ensures covered <= dim < covered + localSize && covered % localSize == 0
    ensures covered == dim <==> dim % localSize == 0
  {
    DivisionEquation(dim, localSize);
    DivModUnique(dim / localSize * localSize, dim / localSize, 0, localSize);
    dim / localSize * localSize
  }

  lemma AllOwned(dim: nat, localSize: nat)
    requires localSize > 0 && dim > 0
    ensures forall c: nat :: c < dim * dim ==> RowOwner(dim, localSize, dim)(c) < Item(dim, localSize, 0)
  {
    forall c: nat | c < dim * dim ensures RowOwner(dim, localSize, dim)(c) < Item(dim, localSize, 0) {
      OwnerInside(dim, c, localSize, dim);
    }
  }

  /** The last entry of the first row lies in the last column. */
  lemma LastColumnUnowned(dim: nat, localSize: nat, covered: nat)
    requires localSize > 0 && covered < dim
    ensures dim - 1 < dim * dim && RowOwner(dim, localSize, covered)(dim - 1) >= Item(dim, localSize, 0)
  {
    CellInside(0, dim - 1, dim, dim);
    RowColumn(0, dim, dim - 1);
    OwnerInside(dim, dim - 1, localSize, covered);
  }

  /** Every entry of C is written exactly when the local size divides dim. */
  lemma RowsDealtIff(dim: nat, localSize: nat)
    requires localSize > 0 && dim > 0
    ensures var owner := RowOwner(dim, localSize, Covered(dim, localSize));
            Dealt(RowCells(dim, localSize, dim / localSize), owner, Item(dim, localSize, 0), dim * dim) <==>
            dim % localSize == 0
  {
    var covered := Covered(dim, localSize);
    RowsPartlyDealt(dim, localSize, dim / localSize, covered);
    if dim % localSize == 0 {
      AllOwned(dim, localSize);
    } else {
      LastColumnUnowned(dim, localSize, covered);
    }
  }

  /** One entry of the row, from global memory or from the local copy. */
  method DotEither(a: Buffer, local: bool, lA: seq<int>, b: Buffer, dim: nat, iRow: nat, iCol: nat, ghost from: Buffer)
    returns (result: int)
    requires if local then HoldsRow(lA, from, dim, iRow) else from == a
    ensures result == Entry(from, b, dim, iRow, iCol)
  {
    if local {
      result := DotLocal(lA, from, b, dim, iRow, iCol);
    } else {
      result := Dot(a, b, dim, iRow, iCol);
    }
  }

  lemma RowWrite(a: Buffer, b: Buffer, dim: nat, iRow: nat, step: nat, l: nat, j: nat, n: nat, result: int)
    requires l < step && j < n && n * step <= dim && result == Entry(a, b, dim, iRow, j * step + l)
    ensures Writes(Strided(iRow * dim, step, l, j + 1), Product(a, b, dim)) ==
            Writes(Strided(iRow * dim, step, l, j), Product(a, b, dim)) +
            [Store(iRow * dim + j * step + l, Const(result))]
  {
    CellInside(j, l, n, step);
    ProductCell(a, b, dim, iRow, j * step + l);
    WritesAppend(Strided(iRow * dim, step, l, j), iRow * dim + j * step + l, Product(a, b, dim));
  }

  /** One work-item: every localSize-th entry of its row; there is one group per row, so that its global and its
      local index agree. */
  method RowItem(a: Buffer, local: bool, lA: seq<int>, b: Buffer, dim: nat, localSize: nat, numElements: nat, iRow: nat,
                 localIdx: nat, ghost from: Buffer)
    returns (p: seq<Instr<int>>)
    requires localIdx < localSize && dim > 0 && numElements * localSize <= dim
    requires if local then HoldsRow(lA, from, dim, iRow) else from == a
    ensures p == Writes(Strided(iRow * dim, localSize, localIdx, numElements), Product(from, b, dim))
  {
    var iCol := localIdx;
    p := [];
    for j := 0 to numElements
      invariant p == Writes(Strided(iRow * dim, localSize, localIdx, j), Product(from, b, dim))
    {
      var result := DotEither(a, local, lA, b, dim, iRow, j * localSize + localIdx, from);
      RowWrite(from, b, dim, iRow, localSize, localIdx, j, numElements, result);
      p := p + [Store(iRow * dim + j * localSize + iCol, Const(result))];
    }
  }

  lemma CellsOfItem(dim: nat, localSize: nat, n: nat, iRow: nat, localIdx: nat)
    requires localIdx < localSize
    ensures RowCells(dim, localSize, n)(iRow * localSize + localIdx) == Strided(iRow * dim, localSize, localIdx, n)
  {
    RowColumn(iRow, localSize, localIdx);
  }

  /** The factor that a row kernel multiplies with B: A, or what the local copies hold of it. */
  function Factor(a: Buffer, junk: Buffer, dim: nat, covered: nat, local: bool): Buffer
    requires dim > 0
  {
    if local then Patched(a, junk, dim, covered) else a
  }

  /** One group. */
  method RowGroup(a: Buffer, junk: Buffer, b: Buffer, dim: nat, localSize: nat, numElements: nat, iRow: nat,
                  local: bool, ghost from: Buffer, done: seq<seq<Instr<int>>>)
    returns (ps: seq<seq<Instr<int>>>)
    requires localSize > 0 && dim > 0 && numElements * localSize <= dim && |done| == Item(iRow, localSize, 0)
    requires from == Factor(a, junk, dim, numElements * localSize, local)
    requires AreWrites(done, RowCells(dim, localSize, numElements), Product(from, b, dim))
    ensures |ps| == |done| + localSize
    ensures AreWrites(ps, RowCells(dim, localSize, numElements), Product(from, b, dim))
  {
    var lA := [];
    if local {
      lA := LoadRow(a, junk, dim, iRow, localSize, numElements, false);
    }
    ps := done;
    for localIdx := 0 to localSize
      invariant |ps| == |done| + localIdx
      invariant AreWrites(ps, RowCells(dim, localSize, numElements), Product(from, b, dim))
    {
      var p := RowItem(a, local, lA, b, dim, localSize, numElements, iRow, localIdx, from);
      CellsOfItem(dim, localSize, numElements, iRow, localIdx);
      ps := ps + [p];
    }
  }

  method RowPrograms(a: Buffer, junk: Buffer, b: Buffer, dim: nat, localSize: nat, numElements: nat, local: bool,
                     ghost from: Buffer)
    returns (ps: seq<seq<Instr<int>>>)
    requires localSize > 0 && dim > 0 && numElements * localSize <= dim
    requires from == Factor(a, junk, dim, numElements * localSize, local)
    ensures |ps| == Item(dim, localSize, 0)
    ensures AreWrites(ps, RowCells(dim, localSize, numElements), Product(from, b, dim))
  {
    ps := [];
    for iRow := 0 to dim
      invariant |ps| == Item(iRow, localSize, 0)
      invariant AreWrites(ps, RowCells(dim, localSize, numElements), Product(from, b, dim))
    {
      CellInside(iRow, 0, dim, localSize);
      ps := RowGroup(a, junk, b, dim, localSize, numElements, iRow, local, from, ps);
    }
  }

  /** With all columns copied, it is the product. */
  lemma WholeFactor(a: Buffer, junk: Buffer, b: Buffer, dim: nat, local: bool, c: nat)
    requires dim > 0
    ensures Product(Factor(a, junk, dim, dim, local), b, dim)(c) == Product(a, b, dim)(c)
  {
    var from, i, j := Factor(a, junk, dim, dim, local), c / dim, c % dim;
    forall k: nat | k < dim ensures Terms(from, b, dim, i, j)(k) == Terms(a, b, dim, i, j)(k) {
      RowColumn(i, dim, k);
    }
    SumSame(dim, Terms(from, b, dim, i, j), Terms(a, b, dim, i, j));
  }

  /** What cell c of C holds after a row kernel that found before in it. */
  function RowResult(a: Buffer, b: Buffer, dim: nat, localSize: nat, local: bool, junk: Buffer, c: nat,
                     before: int): int
    requires localSize > 0 && dim > 0
  {
    var covered := Covered(dim, localSize);
    if c % dim < covered then Product(Factor(a, junk, dim, covered, local), b, dim)(c) else before
  }

  /** On any dim: columns that are not covered are kept; the others hold the product, of which the local form takes the
      terms from covered on with what the local memory held. */
  lemma PartResult(a: Buffer, b: Buffer, dim: nat, localSize: nat, local: bool, junk: Buffer, i: nat, j: nat,
                   before: int)
    requires localSize > 0 && j < dim
    ensures var covered := Covered(dim, localSize);
            var cell := RowResult(a, b, dim, localSize, local, junk, i * dim + j, before);
            if j >= covered then cell == before
            else if !local then cell == Entry(a, b, dim, i, j)
            else cell == Sum(covered, Terms(a, b, dim, i, j)) +
                         Sum(dim - covered, Shifted(Terms(junk, b, dim, i, j), covered))
  {
    var covered := Covered(dim, localSize);
    var from := Factor(a, junk, dim, covered, local);
    RowColumn(i, dim, j);
    ProductCell(from, b, dim, i, j);
    if local {
      var terms := Terms(from, b, dim, i, j);
      forall k: nat | k < dim
        ensures terms(k) == if k < covered then Terms(a, b, dim, i, j)(k) else Terms(junk, b, dim, i, j)(k)
      {
        RowColumn(i, dim, k);
      }
      SumSplit(covered, dim - covered, terms);
      SumSame(covered, terms, Terms(a, b, dim, i, j));
      SumSame(dim - covered, Shifted(terms, covered), Shifted(Terms(junk, b, dim, i, j), covered));
    }
  }

  lemma WholeResult(a: Buffer, b: Buffer, dim: nat, localSize: nat, local: bool, junk: Buffer, c: nat, before: int)
    requires localSize > 0 && dim > 0
    ensures dim % localSize == 0 ==>
              RowResult(a, b, dim, localSize, local, junk, c, before) == Product(a, b, dim)(c)
  {
    if dim % localSize == 0 {
      WholeFactor(a, junk, b, dim, local, c);
    }
  }

  /** MatrixMul_kernel_coallesced_row and MatrixMul_kernel_localA_coallesced_row, on any dim: the columns below the
      last multiple of the local size are written, the others keep what C held. The local form multiplies with the
      columns of A that it has copied, and with what its local memory held in the others. */
  method CoalescedRow(a: Buffer, b: Buffer, dim: nat, localSize: nat, local: bool, junk: Buffer, product: array<int>)
    requires localSize > 0 && dim > 0 && product.Length == dim * dim
    modifies product
    ensures forall c: nat :: c < product.Length ==>
              product[c] == RowResult(a, b, dim, localSize, local, junk, c, old(product[c]))
    ensures dim % localSize == 0 ==> forall c: nat :: c < product.Length ==> product[c] == Product(a, b, dim)(c)
  {
    var numElements := dim / localSize;
    ghost var covered := Covered(dim, localSize);
    ghost var from := Factor(a, junk, dim, covered, local);
    ghost var owner := RowOwner(dim, localSize, covered);
    RowsPartlyDealt(dim, localSize, numElements, covered);
    var ps := RowPrograms(a, junk, b, dim, localSize, numElements, local, from);
    LaunchWrites(product, ps, RowCells(dim, localSize, numElements), owner, Product(from, b, dim));
    forall c: nat | c < product.Length
      ensures product[c] == RowResult(a, b, dim, localSize, local, junk, c, old(product[c]))
      ensures dim % localSize == 0 ==> product[c] == Product(a, b, dim)(c)
    {
      OwnerInside(dim, c, localSize, covered);
      WholeResult(a, b, dim, localSize, local, junk, c, old(product[c]));
    }
  }
}
