/** The bitonic sorting network of bitonic_sort.cpp and knn_classification.cpp as a function on
    buffers, and the proof that its stages sort. Elements are compared through a key. */
module BitonicNetwork {
  import opened Powers

  // ---------- addresses of a work-item ----------

  /** Lower cell of work-item t at pair distance d. */
  function LeftId(t: nat, d: nat): nat
    requires d > 0
  {
    t % d + (t / d) * (2 * d)
  }

  function RightId(t: nat, d: nat): nat
    requires d > 0
  {
    LeftId(t, d) + d
  }

  /** The work-item whose pair contains cell c. */
  function ItemOf(c: nat, d: nat): nat
    requires d > 0
  {
    var block: nat := c / (2 * d);
    block * d + c % d
  }

  predicate InLowerHalf(c: nat, d: nat)
    requires d > 0
  {
    c % (2 * d) < d
  }

  /** Whether the block of width 2^(stage+1) that holds cell c is sorted upwards. */
  predicate Upwards(c: nat, stage: nat) {
    (c / Pow2(stage + 1)) % 2 == 0
  }

  lemma LeftCoordinates(t: nat, d: nat)
    requires d > 0
    ensures LeftId(t, d) / (2 * d) == t / d && LeftId(t, d) % (2 * d) == t % d
    ensures RightId(t, d) / (2 * d) == t / d && RightId(t, d) % (2 * d) == t % d + d
  {
    DivModUnique(LeftId(t, d), t / d, t % d, 2 * d);
    DivModUnique(RightId(t, d), t / d, t % d + d, 2 * d);
  }

  lemma ModDouble(c: nat, d: nat)
    requires d > 0
    ensures c % d == if InLowerHalf(c, d) then c % (2 * d) else c % (2 * d) - d
  {
    var q, r := c / (2 * d), c % (2 * d);
    DivisionEquation(c, 2 * d);
    if r < d {
      assert c == (2 * q) * d + r;
      DivModUnique(c, 2 * q, r, d);
    } else {
      assert c == (2 * q + 1) * d + (r - d) by {
        assert q * (2 * d) == (2 * q) * d;
        assert (2 * q + 1) * d == (2 * q) * d + d;
      }
      DivModUnique(c, 2 * q + 1, r - d, d);
    }
  }

  /** The pairs of all work-items partition the cells: cell c belongs to ItemOf(c) and to no other. */
  lemma PairsPartition(t: nat, c: nat, d: nat)
    requires d > 0
    ensures (c == LeftId(t, d) || c == RightId(t, d)) <==> t == ItemOf(c, d)
    ensures c == LeftId(ItemOf(c, d), d) <==> InLowerHalf(c, d)
  {
    LeftCoordinates(t, d);
    ModDouble(c, d);
    DivisionEquation(c, 2 * d);
    var t' := ItemOf(c, d);
    DivModUnique(t', c / (2 * d), c % d, d);
    LeftCoordinates(t', d);
    if c == LeftId(t, d) {
      ModDouble(LeftId(t, d), d);
      DivisionEquation(t, d);
    } else if c == RightId(t, d) {
      ModDouble(RightId(t, d), d);
      DivisionEquation(t, d);
    }
  }

  /** On a buffer of m blocks the work-items are numbered 0 to m * d - 1 and stay inside it. */
  lemma PairsInBounds(t: nat, d: nat, m: nat)
    requires d > 0
    ensures t < m * d <==> LeftId(t, d) < m * (2 * d)
    ensures t < m * d <==> RightId(t, d) < m * (2 * d)
  {
    DivisionEquation(t, d);
    if t / d < m {
      MulMonotone(t / d + 1, m, d);
      assert (t / d + 1) * d == (t / d) * d + d;
      MulMonotone(t / d + 1, m, 2 * d);
      assert (t / d + 1) * (2 * d) == (t / d) * (2 * d) + 2 * d;
    } else {
      MulMonotone(m, t / d, d);
      MulMonotone(m, t / d, 2 * d);
    }
  }

  lemma SameQuotient(x: nat, y: nat, a: nat, b: nat, e: nat)
    requires a > 0 && b > 0 && e > 0 && x / a == y / b
    ensures a * e > 0 && b * e > 0 && x / (a * e) == y / (b * e)
  {
    DivDiv(x, a, e);
    DivDiv(y, b, e);
  }

  lemma BlockQuotient(t: nat, c: nat, k: nat, stage: nat)
    requires k <= stage && t / Pow2(k) == c / Pow2(k + 1)
    ensures t / Pow2(stage) == c / Pow2(stage + 1)
  {
    Pow2Add(k, stage - k);
    Pow2Add(k + 1, stage - k);
    SameQuotient(t, c, Pow2(k), Pow2(k + 1), Pow2(stage - k));
  }

  /** The kernel takes the direction from the work-item, the network from the cell: they agree. */
  lemma DirectionOfItem(t: nat, k: nat, stage: nat)
    requires k <= stage
    ensures (t / Pow2(stage)) % 2 == 0 <==> Upwards(LeftId(t, Pow2(k)), stage)
    ensures (t / Pow2(stage)) % 2 == 0 <==> Upwards(RightId(t, Pow2(k)), stage)
  {
    LeftCoordinates(t, Pow2(k));
    BlockQuotient(t, LeftId(t, Pow2(k)), k, stage);
    BlockQuotient(t, RightId(t, Pow2(k)), k, stage);
  }

  // ---------- one pass ----------

  function Lesser<T>(key: T -> real, x: T, y: T): T {
    if key(x) < key(y) then x else y
  }

  function Greater<T>(key: T -> real, x: T, y: T): T {
    if key(x) < key(y) then y else x
  }

  /** The content of cell c after the pass of pair distance 2^k within the given stage. */
  function PassCell<T>(key: T -> real, a: seq<T>, stage: nat, k: nat, c: nat): T
    requires c < |a| && |a| % Pow2(k + 1) == 0
  {
    var d := Pow2(k);
    PartnerInBounds(|a|, d, c);
    if InLowerHalf(c, d) then
      if Upwards(c, stage) then Lesser(key, a[c], a[c + d]) else Greater(key, a[c], a[c + d])
    else
      if Upwards(c, stage) then Greater(key, a[c - d], a[c]) else Lesser(key, a[c - d], a[c])
  }

  function Pass<T>(key: T -> real, a: seq<T>, stage: nat, k: nat): (r: seq<T>)
    requires |a| % Pow2(k + 1) == 0
    ensures |r| == |a|
  {
    seq(|a|, c requires 0 <= c < |a| => PassCell(key, a, stage, k, c))
  }

  lemma PartnerInBounds(len: nat, d: nat, c: nat)
    requires d > 0 && len % (2 * d) == 0 && c < len
    ensures InLowerHalf(c, d) ==> c + d < len && !InLowerHalf(c + d, d) && (c + d) / (2 * d) == c / (2 * d)
    ensures !InLowerHalf(c, d) ==> c >= d && InLowerHalf(c - d, d) && (c - d) / (2 * d) == c / (2 * d)
  {
    var q, r, m := c / (2 * d), c % (2 * d), len / (2 * d);
    DivisionEquation(c, 2 * d);
    DivisionEquation(len, 2 * d);
    if m <= q {
      MulMonotone(m, q, 2 * d);
    }
    MulMonotone(q + 1, m, 2 * d);
    assert (q + 1) * (2 * d) == q * (2 * d) + 2 * d;
    if r < d {
      DivModUnique(c + d, q, r + d, 2 * d);
    } else {
      MulMonotone(0, q, 2 * d);
      DivModUnique(c - d, q, r - d, 2 * d);
    }
  }

  // ---------- a half-cleaner on one block, seen through a threshold ----------

  /** Seen through the threshold v, the cells lo to hi are one run of one kind inside the other kind:
      the cells at or above v are exactly those of [p, q), or exactly the others. */
  ghost predicate Run<T>(key: T -> real, a: seq<T>, lo: nat, hi: nat, v: real, p: nat, q: nat, flip: bool)
    requires hi <= |a|
  {
    lo <= p <= q <= hi && forall i :: lo <= i < hi ==> (key(a[i]) >= v <==> ((p <= i < q) != flip))
  }

  ghost predicate Bitonic<T>(key: T -> real, a: seq<T>, lo: nat, hi: nat, v: real)
    requires hi <= |a|
  {
    exists p: nat, q: nat, flip :: Run(key, a, lo, hi, v, p, q, flip)
  }

  /** The lower half of b keeps the smaller (up) or larger (down) element of each pair, as seen
      through the threshold. */
  ghost predicate HalfCleaned<T>(key: T -> real, a: seq<T>, b: seq<T>, lo: nat, d: nat, v: real, up: bool)
    requires lo + 2 * d <= |a| == |b|
  {
    forall i, j :: lo <= i < lo + d && j == i + d ==>
      var x, y := key(a[i]) >= v, key(a[j]) >= v;
      && (key(b[i]) >= v <==> if up then x && y else x || y)
      && (key(b[j]) >= v <==> if up then x || y else x && y)
  }

  /** All cells lie on the same side of the threshold. */
  ghost predicate Clean<T>(key: T -> real, a: seq<T>, lo: nat, hi: nat, v: real, above: bool)
    requires hi <= |a|
  {
    forall i :: lo <= i < hi ==> (key(a[i]) >= v <==> above)
  }

  /** Counting from the run [p, q): one half of b collects the pairs lying inside it altogether, the
      other half the pairs with a cell inside it. */
  lemma CleanedPair<T>(key: T -> real, a: seq<T>, b: seq<T>, lo: nat, d: nat, v: real, up: bool, p: nat, q: nat,
                       flip: bool, i: nat)
    requires lo + 2 * d <= |a| == |b| && lo <= i < lo + d
    requires Run(key, a, lo, lo + 2 * d, v, p, q, flip) && HalfCleaned(key, a, b, lo, d, v, up)
    ensures var both := if up != flip then i else i + d;
            key(b[both]) >= v <==> ((p <= i < q && p <= i + d < q) != flip)
    ensures var either := if up != flip then i + d else i;
            key(b[either]) >= v <==> ((p <= i < q || p <= i + d < q) != flip)
  {
    var j := i + d;
    assert key(a[i]) >= v <==> ((p <= i < q) != flip);
    assert key(a[j]) >= v <==> ((p <= j < q) != flip);
    if up == flip {
      assert key(b[j]) >= v <==> if up then key(a[i]) >= v || key(a[j]) >= v else key(a[i]) >= v && key(a[j]) >= v;
    }
  }

  ghost predicate PairsInside<T>(key: T -> real, b: seq<T>, base: nat, lo: nat, d: nat, v: real,
                                 p: nat, q: nat, flip: bool)
    requires base + d <= |b|
  {
    forall i :: base <= i < base + d ==>
      (key(b[i]) >= v <==> ((p <= i - base + lo < q && p <= i - base + lo + d < q) != flip))
  }

  ghost predicate PairsMeeting<T>(key: T -> real, b: seq<T>, base: nat, lo: nat, d: nat, v: real,
                                  p: nat, q: nat, flip: bool)
    requires base + d <= |b|
  {
    forall i :: base <= i < base + d ==>
      (key(b[i]) >= v <==> ((p <= i - base + lo < q || p <= i - base + lo + d < q) != flip))
  }

  /** The half at base collects the pairs inside [p, q) altogether: it is clean unless the run is
      longer than half the block. */
  lemma BothHalf<T>(key: T -> real, b: seq<T>, base: nat, lo: nat, d: nat, v: real, p: nat, q: nat, flip: bool)
    requires base + d <= |b| && lo <= p <= q <= lo + 2 * d
    requires PairsInside(key, b, base, lo, d, v, p, q, flip)
    ensures Bitonic(key, b, base, base + d, v)
    ensures q - d <= p ==> Clean(key, b, base, base + d, v, flip)
  {
    if q - d <= p {
      assert Run(key, b, base, base + d, v, base, base, flip);
    } else {
      assert Run(key, b, base, base + d, v, p - lo + base, q - d - lo + base, flip);
    }
  }

  /** The half at base collects the pairs with a cell inside [p, q): it is clean if the run is at least
      half the block. */
  lemma EitherHalf<T>(key: T -> real, b: seq<T>, base: nat, lo: nat, d: nat, v: real, p: nat, q: nat, flip: bool)
    requires base + d <= |b| && lo <= p <= q <= lo + 2 * d
    requires PairsMeeting(key, b, base, lo, d, v, p, q, flip)
    ensures Bitonic(key, b, base, base + d, v)
    ensures q - d >= p ==> Clean(key, b, base, base + d, v, !flip)
  {
    if q - d >= p {
      assert Run(key, b, base, base + d, v, base, base, !flip);
    } else if q <= lo + d {
      assert Run(key, b, base, base + d, v, p - lo + base, q - lo + base, flip);
    } else if lo + d <= p {
      assert Run(key, b, base, base + d, v, p - d - lo + base, q - d - lo + base, flip);
    } else {
      assert Run(key, b, base, base + d, v, q - d - lo + base, p - lo + base, !flip);
    }
  }

  lemma CleanedHalves<T>(key: T -> real, a: seq<T>, b: seq<T>, lo: nat, d: nat, v: real, up: bool, p: nat, q: nat,
                         flip: bool)
    requires lo + 2 * d <= |a| == |b|
    requires Run(key, a, lo, lo + 2 * d, v, p, q, flip) && HalfCleaned(key, a, b, lo, d, v, up)
    ensures PairsInside(key, b, if up != flip then lo else lo + d, lo, d, v, p, q, flip)
    ensures PairsMeeting(key, b, if up != flip then lo + d else lo, lo, d, v, p, q, flip)
  {
    var both := if up != flip then lo else lo + d;
    forall i | both <= i < both + d
      ensures key(b[i]) >= v <==> ((p <= i - both + lo < q && p <= i - both + lo + d < q) != flip)
    {
      CleanedPair(key, a, b, lo, d, v, up, p, q, flip, i - both + lo);
    }
    var either := if up != flip then lo + d else lo;
    forall i | either <= i < either + d
      ensures key(b[i]) >= v <==> ((p <= i - either + lo < q || p <= i - either + lo + d < q) != flip)
    {
      CleanedPair(key, a, b, lo, d, v, up, p, q, flip, i - either + lo);
    }
  }

  /** The 0-1 heart of the network: from a bitonic block a half-cleaner makes two bitonic halves, and
      one of them lies on its own side of the threshold altogether. */
  lemma HalfCleaner<T>(key: T -> real, a: seq<T>, b: seq<T>, lo: nat, d: nat, v: real, up: bool)
    requires lo + 2 * d <= |a| == |b|
    requires Bitonic(key, a, lo, lo + 2 * d, v) && HalfCleaned(key, a, b, lo, d, v, up)
    ensures Bitonic(key, b, lo, lo + d, v) && Bitonic(key, b, lo + d, lo + 2 * d, v)
    ensures Clean(key, b, lo, lo + d, v, !up) || Clean(key, b, lo + d, lo + 2 * d, v, up)
  {
    var p: nat, q: nat, flip :| Run(key, a, lo, lo + 2 * d, v, p, q, flip);
    CleanedHalves(key, a, b, lo, d, v, up, p, q, flip);
    BothHalf(key, b, if up != flip then lo else lo + d, lo, d, v, p, q, flip);
    EitherHalf(key, b, if up != flip then lo + d else lo, lo, d, v, p, q, flip);
  }

  // ---------- one pass on the whole buffer ----------

  ghost predicate BitonicBlock<T>(key: T -> real, a: seq<T>, lo: nat, w: nat, v: real)
    requires lo + w <= |a|
  {
    Bitonic(key, a, lo, lo + w, v)
  }

  /** Every aligned block of width w is bitonic, whatever the threshold. */
  ghost predicate BlocksBitonic<T>(key: T -> real, a: seq<T>, w: nat)
    requires w > 0
  {
    forall lo: nat, v: real :: lo + w <= |a| && lo % w == 0 ==> BitonicBlock(key, a, lo, w, v)
  }

  /** The keys of cells i before j are in the order of the direction given. */
  predicate InOrder<T>(key: T -> real, x: T, y: T, up: bool) {
    if up then key(x) <= key(y) else key(x) >= key(y)
  }

  /** Within a block of width 2^(stage+1), the aligned blocks of width w are in order as wholes. */
  ghost predicate BlocksOrdered<T>(key: T -> real, a: seq<T>, stage: nat, w: nat)
    requires w > 0
  {
    forall i, j :: 0 <= i < j < |a| && i / Pow2(stage + 1) == j / Pow2(stage + 1) && i / w < j / w ==>
      InOrder(key, a[i], a[j], Upwards(i, stage))
  }

  /** What holds before the pass of pair distance w / 2 of the stage. */
  ghost predicate MidStage<T>(key: T -> real, a: seq<T>, stage: nat, w: nat)
    requires w > 0
  {
    BlocksBitonic(key, a, w) && BlocksOrdered(key, a, stage, w)
  }

  lemma SameDirection(i: nat, j: nat, k: nat, stage: nat)
    requires k <= stage && i / Pow2(k + 1) == j / Pow2(k + 1)
    ensures i / Pow2(stage + 1) == j / Pow2(stage + 1) && (Upwards(i, stage) <==> Upwards(j, stage))
  {
    Pow2Add(k + 1, stage - k);
    SameQuotient(i, j, Pow2(k + 1), Pow2(k + 1), Pow2(stage - k));
  }

  lemma OffsetInBlock(lo: nat, w: nat, i: nat)
    requires w > 0 && lo % w == 0 && lo <= i < lo + w
    ensures i / w == lo / w && i % w == i - lo
  {
    DivisionEquation(lo, w);
    DivModUnique(i, lo / w, i - lo, w);
  }

  /** The cells i and i + d of an aligned block are partners and share its direction. */
  lemma PartnersInBlock(k: nat, stage: nat, lo: nat, i: nat)
    requires k <= stage && lo % Pow2(k + 1) == 0 && lo <= i < lo + Pow2(k)
    ensures InLowerHalf(i, Pow2(k)) && !InLowerHalf(i + Pow2(k), Pow2(k))
    ensures Upwards(i, stage) == Upwards(i + Pow2(k), stage) == Upwards(lo, stage)
  {
    var d := Pow2(k);
    OffsetInBlock(lo, 2 * d, i);
    OffsetInBlock(lo, 2 * d, i + d);
    SameDirection(i, lo, k, stage);
    SameDirection(i + d, lo, k, stage);
  }

  /** b holds the pair (i, j) of a, exchanged into the direction given. */
  ghost predicate PairExchanged<T>(key: T -> real, a: seq<T>, b: seq<T>, i: nat, j: nat, up: bool)
    requires i < |a| == |b| && j < |a|
  {
    && b[i] == (if up then Lesser(key, a[i], a[j]) else Greater(key, a[i], a[j]))
    && b[j] == (if up then Greater(key, a[i], a[j]) else Lesser(key, a[i], a[j]))
  }

  /** What a pass leaves in the two cells of a pair of an aligned block. */
  lemma PassPair<T>(key: T -> real, a: seq<T>, stage: nat, k: nat, lo: nat, i: nat, j: nat)
    requires |a| % Pow2(k + 1) == 0 && k <= stage
    requires lo % Pow2(k + 1) == 0 && lo <= i < lo + Pow2(k) && j == i + Pow2(k) < |a|
    ensures PairExchanged(key, a, Pass(key, a, stage, k), i, j, Upwards(lo, stage))
  {
    PartnersInBlock(k, stage, lo, i);
    assert Pass(key, a, stage, k)[i] == PassCell(key, a, stage, k, i);
    assert Pass(key, a, stage, k)[j] == PassCell(key, a, stage, k, j);
  }

  lemma ExchangedIsCleaned<T>(key: T -> real, a: seq<T>, b: seq<T>, lo: nat, d: nat, v: real, up: bool)
    requires lo + 2 * d <= |a| == |b|
    requires forall i, j :: lo <= i < lo + d && j == i + d ==> PairExchanged(key, a, b, i, j, up)
    ensures HalfCleaned(key, a, b, lo, d, v, up)
  {
    forall i, j | lo <= i < lo + d && j == i + d
      ensures var x, y := key(a[i]) >= v, key(a[j]) >= v;
              && (key(b[i]) >= v <==> if up then x && y else x || y)
              && (key(b[j]) >= v <==> if up then x || y else x && y)
    {
      assert PairExchanged(key, a, b, i, j, up);
    }
  }

  lemma PassCleans<T>(key: T -> real, a: seq<T>, stage: nat, k: nat, lo: nat, v: real)
    requires |a| % Pow2(k + 1) == 0 && k <= stage
    requires lo + Pow2(k + 1) <= |a| && lo % Pow2(k + 1) == 0
    ensures HalfCleaned(key, a, Pass(key, a, stage, k), lo, Pow2(k), v, Upwards(lo, stage))
  {
    var b, up := Pass(key, a, stage, k), Upwards(lo, stage);
    forall i, j | lo <= i < lo + Pow2(k) && j == i + Pow2(k) ensures PairExchanged(key, a, b, i, j, up) {
      PassPair(key, a, stage, k, lo, i, j);
    }
    ExchangedIsCleaned(key, a, b, lo, Pow2(k), v, up);
  }

  lemma HalfAligned(lo: nat, d: nat)
    requires d > 0 && lo % d == 0
    ensures lo % (2 * d) == 0 || (lo >= d && (lo - d) % (2 * d) == 0)
  {
    DivisionEquation(lo, d);
    var q := lo / d;
    if q % 2 == 0 {
      assert lo == (q / 2) * (2 * d);
      DivModUnique(lo, q / 2, 0, 2 * d);
    } else {
      assert q == 2 * (q / 2) + 1;
      assert q * d == (q / 2) * (2 * d) + d;
      MulMonotone(1, q, d);
      DivModUnique(lo - d, q / 2, 0, 2 * d);
    }
  }

  lemma AlignedRoom(len: nat, lo: nat, d: nat)
    requires d > 0 && len % (2 * d) == 0 && lo % (2 * d) == 0 && lo < len
    ensures lo + 2 * d <= len
  {
    DivisionEquation(lo, 2 * d);
    DivisionEquation(len, 2 * d);
    if lo / (2 * d) >= len / (2 * d) {
      MulMonotone(len / (2 * d), lo / (2 * d), 2 * d);
    }
    MulMonotone(lo / (2 * d) + 1, len / (2 * d), 2 * d);
    assert (lo / (2 * d) + 1) * (2 * d) == lo / (2 * d) * (2 * d) + 2 * d;
  }

  lemma PassBlocksBitonic<T>(key: T -> real, a: seq<T>, stage: nat, k: nat)
    requires |a| % Pow2(k + 1) == 0 && k <= stage && BlocksBitonic(key, a, Pow2(k + 1))
    ensures BlocksBitonic(key, Pass(key, a, stage, k), Pow2(k))
  {
    var d := Pow2(k);
    var b := Pass(key, a, stage, k);
    forall lo: nat, v: real | lo + d <= |b| && lo % d == 0 ensures BitonicBlock(key, b, lo, d, v) {
      HalfAligned(lo, d);
      var base := if lo % (2 * d) == 0 then lo else lo - d;
      AlignedRoom(|a|, base, d);
      assert BitonicBlock(key, a, base, 2 * d, v);
      PassCleans(key, a, stage, k, base, v);
      HalfCleaner(key, a, b, base, d, v, Upwards(base, stage));
    }
  }

  /** Two cells of one pass block, one in each half, come out in order. */
  lemma HalvesInOrder<T>(key: T -> real, a: seq<T>, stage: nat, k: nat, lo: nat, i: nat, j: nat)
    requires |a| % Pow2(k + 1) == 0 && k <= stage && BlocksBitonic(key, a, Pow2(k + 1))
    requires lo % Pow2(k + 1) == 0 && lo <= i < lo + Pow2(k) <= j < lo + Pow2(k + 1) <= |a|
    ensures InOrder(key, Pass(key, a, stage, k)[i], Pass(key, a, stage, k)[j], Upwards(lo, stage))
  {
    var d := Pow2(k);
    var b := Pass(key, a, stage, k);
    var up := Upwards(lo, stage);
    var v := if up then key(b[i]) else key(b[j]);
    assert BitonicBlock(key, a, lo, 2 * d, v);
    PassCleans(key, a, stage, k, lo, v);
    HalfCleaner(key, a, b, lo, d, v, up);
  }

  /** A pass moves elements only within blocks of width 2^(k+1). */
  lemma PassStaysInBlock<T>(key: T -> real, a: seq<T>, stage: nat, k: nat, c: nat) returns (c': nat)
    requires |a| % Pow2(k + 1) == 0 && c < |a|
    ensures c' < |a| && c' / Pow2(k + 1) == c / Pow2(k + 1) && Pass(key, a, stage, k)[c] == a[c']
  {
    var d := Pow2(k);
    PartnerInBounds(|a|, d, c);
    c' := if Pass(key, a, stage, k)[c] == a[c] then c else if InLowerHalf(c, d) then c + d else c - d;
  }

  lemma HalfOfCell(lo: nat, d: nat, i: nat)
    requires d > 0 && lo % (2 * d) == 0 && lo <= i < lo + 2 * d
    ensures i / d == if i < lo + d then 2 * (lo / (2 * d)) else 2 * (lo / (2 * d)) + 1
  {
    var q := lo / (2 * d);
    DivisionEquation(lo, 2 * d);
    assert lo == (2 * q) * d;
    if i < lo + d {
      DivModUnique(i, 2 * q, i - lo, d);
    } else {
      assert (2 * q + 1) * d == lo + d;
      DivModUnique(i, 2 * q + 1, i - lo - d, d);
    }
  }

  lemma PassOrdersBlocks<T>(key: T -> real, a: seq<T>, stage: nat, k: nat, i: nat, j: nat)
    requires |a| % Pow2(k + 1) == 0 && k <= stage && BlocksOrdered(key, a, stage, Pow2(k + 1))
    requires i < j < |a| && i / Pow2(stage + 1) == j / Pow2(stage + 1) && i / Pow2(k + 1) < j / Pow2(k + 1)
    ensures InOrder(key, Pass(key, a, stage, k)[i], Pass(key, a, stage, k)[j], Upwards(i, stage))
  {
    var i' := PassStaysInBlock(key, a, stage, k, i);
    var j' := PassStaysInBlock(key, a, stage, k, j);
    SameDirection(i, i', k, stage);
    SameDirection(j, j', k, stage);
    if j' <= i' {
      DivMonotone(j', i', Pow2(k + 1));
    }
  }

  lemma BlockBase(i: nat, w: nat) returns (lo: nat)
    requires w > 0
    ensures lo % w == 0 && lo / w == i / w && lo <= i < lo + w
  {
    lo := i - i % w;
    DivisionEquation(i, w);
    DivModUnique(lo, i / w, 0, w);
  }

  lemma SameBlockHalves(len: nat, d: nat, i: nat, j: nat) returns (lo: nat)
    requires d > 0 && len % (2 * d) == 0
    requires i < j < len && i / (2 * d) == j / (2 * d) && i / d < j / d
    ensures lo % (2 * d) == 0 && lo / (2 * d) == i / (2 * d) && lo <= i < lo + d <= j < lo + 2 * d <= len
  {
    lo := BlockBase(i, 2 * d);
    var lo' := BlockBase(j, 2 * d);
    DivisionEquation(lo, 2 * d);
    DivisionEquation(lo', 2 * d);
    assert lo' == lo;
    AlignedRoom(len, lo, d);
    HalfOfCell(lo, d, i);
    HalfOfCell(lo, d, j);
  }

  lemma PassOrdersHalves<T>(key: T -> real, a: seq<T>, stage: nat, k: nat, i: nat, j: nat)
    requires |a| % Pow2(k + 1) == 0 && k <= stage && BlocksBitonic(key, a, Pow2(k + 1))
    requires i < j < |a| && i / Pow2(k + 1) == j / Pow2(k + 1) && i / Pow2(k) < j / Pow2(k)
    ensures InOrder(key, Pass(key, a, stage, k)[i], Pass(key, a, stage, k)[j], Upwards(i, stage))
  {
    var lo := SameBlockHalves(|a|, Pow2(k), i, j);
    SameDirection(i, lo, k, stage);
    HalvesInOrder(key, a, stage, k, lo, i, j);
  }

  /** One pass halves the width of the bitonic blocks and puts the new halves in order. */
  lemma PassAdvances<T>(key: T -> real, a: seq<T>, stage: nat, k: nat)
    requires |a| % Pow2(k + 1) == 0 && k <= stage && MidStage(key, a, stage, Pow2(k + 1))
    ensures MidStage(key, Pass(key, a, stage, k), stage, Pow2(k))
  {
    PassBlocksBitonic(key, a, stage, k);
    var b := Pass(key, a, stage, k);
    forall i, j | 0 <= i < j < |b| && i / Pow2(stage + 1) == j / Pow2(stage + 1) && i / Pow2(k) < j / Pow2(k)
      ensures InOrder(key, b[i], b[j], Upwards(i, stage))
    {
      DivMonotone(i, j, Pow2(k + 1));
      if i / Pow2(k + 1) < j / Pow2(k + 1) {
        PassOrdersBlocks(key, a, stage, k, i, j);
      } else {
        PassOrdersHalves(key, a, stage, k, i, j);
      }
    }
  }

  // ---------- from stage to stage ----------

  /** What holds before stage s: every aligned block of 2^s cells is sorted, ascending for an even
      block index and descending for an odd one. */
  ghost predicate BlocksSorted<T>(key: T -> real, a: seq<T>, s: nat) {
    forall i, j :: 0 <= i < j < |a| && i / Pow2(s) == j / Pow2(s) ==>
      InOrder(key, a[i], a[j], (i / Pow2(s)) % 2 == 0)
  }

  lemma SingletonsSorted<T>(key: T -> real, a: seq<T>)
    ensures BlocksSorted(key, a, 0)
  {
  }

  /** A sorted stretch crosses a threshold once. */
  lemma {:induction false} Crossing<T>(key: T -> real, a: seq<T>, lo: nat, hi: nat, v: real, up: bool) returns (p: nat)
    requires lo <= hi <= |a|
    requires forall i, j :: lo <= i < j < hi ==> InOrder(key, a[i], a[j], up)
    ensures lo <= p <= hi
    ensures forall i :: lo <= i < hi ==> (key(a[i]) >= v <==> ((i >= p) == up))
    decreases hi - lo
  {
    if lo == hi {
      p := lo;
    } else if (key(a[hi - 1]) >= v) == up {
      p := Crossing(key, a, lo, hi - 1, v, up);
    } else {
      p := hi;
      forall i | lo <= i < hi ensures key(a[i]) >= v <==> !up {
        assert i < hi - 1 ==> InOrder(key, a[i], a[hi - 1], up);
      }
    }
  }

  /** An ascending and a descending half make a bitonic block. */
  lemma UpDownBitonic<T>(key: T -> real, a: seq<T>, lo: nat, d: nat, v: real)
    requires lo + 2 * d <= |a|
    requires forall i, j :: lo <= i < j < lo + d ==> InOrder(key, a[i], a[j], true)
    requires forall i, j :: lo + d <= i < j < lo + 2 * d ==> InOrder(key, a[i], a[j], false)
    ensures BitonicBlock(key, a, lo, 2 * d, v)
  {
    var p := Crossing(key, a, lo, lo + d, v, true);
    var q := Crossing(key, a, lo + d, lo + 2 * d, v, false);
    assert Run(key, a, lo, lo + 2 * d, v, p, q, false);
  }

  lemma StageStarts<T>(key: T -> real, a: seq<T>, stage: nat)
    requires BlocksSorted(key, a, stage)
    ensures MidStage(key, a, stage, Pow2(stage + 1))
  {
    var d := Pow2(stage);
    forall lo: nat, v: real | lo + 2 * d <= |a| && lo % (2 * d) == 0 ensures BitonicBlock(key, a, lo, 2 * d, v) {
      forall i, j | lo <= i < j < lo + d ensures InOrder(key, a[i], a[j], true) {
        HalfOfCell(lo, d, i);
        HalfOfCell(lo, d, j);
      }
      forall i, j | lo + d <= i < j < lo + 2 * d ensures InOrder(key, a[i], a[j], false) {
        HalfOfCell(lo, d, i);
        HalfOfCell(lo, d, j);
      }
      UpDownBitonic(key, a, lo, d, v);
    }
  }

  lemma StageEnds<T>(key: T -> real, a: seq<T>, stage: nat)
    requires MidStage(key, a, stage, 1)
    ensures BlocksSorted(key, a, stage + 1)
  {
  }

  /** A buffer of 2^n cells is one ascending block before stage n. */
  lemma LastStage<T>(key: T -> real, a: seq<T>, n: nat)
    requires |a| == Pow2(n) && BlocksSorted(key, a, n)
    ensures forall i, j :: 0 <= i < j < |a| ==> key(a[i]) <= key(a[j])
  {
    forall i, j | 0 <= i < j < |a| ensures key(a[i]) <= key(a[j]) {
      DivModUnique(i, 0, i, Pow2(n));
      DivModUnique(j, 0, j, Pow2(n));
      assert InOrder(key, a[i], a[j], true);
    }
  }

  // ---------- a pass only rearranges ----------

  /** The compare-exchange of one pair. */
  function Exchange<T>(key: T -> real, a: seq<T>, l: nat, r: nat, up: bool): (b: seq<T>)
    requires l < r < |a|
    ensures |b| == |a|
  {
    if up then a[l := Lesser(key, a[l], a[r])][r := Greater(key, a[l], a[r])]
    else a[l := Greater(key, a[l], a[r])][r := Lesser(key, a[l], a[r])]
  }

  datatype Pair = Pair(left: nat, right: nat, up: bool)

  ghost predicate PairsWithin(pairs: seq<Pair>, len: nat) {
    forall t :: 0 <= t < |pairs| ==> pairs[t].left < pairs[t].right < len
  }

  ghost predicate PairsApart(pairs: seq<Pair>) {
    forall t, u :: 0 <= t < u < |pairs| ==>
      pairs[t].left != pairs[u].left && pairs[t].left != pairs[u].right &&
      pairs[t].right != pairs[u].left && pairs[t].right != pairs[u].right
  }

  /** The first count pairs exchanged one after the other. */
  function Exchanges<T>(key: T -> real, a: seq<T>, pairs: seq<Pair>, count: nat): (r: seq<T>)
    requires count <= |pairs| && PairsWithin(pairs, |a|)
    ensures |r| == |a|
  {
    if count == 0 then a
    else
      var p := pairs[count - 1];
      Exchange(key, Exchanges(key, a, pairs, count - 1), p.left, p.right, p.up)
  }

  lemma SwapKeepsMultiset<T>(a: seq<T>, l: nat, r: nat, x: T, y: T)
    requires l < r < |a| && ((x == a[l] && y == a[r]) || (x == a[r] && y == a[l]))
    ensures multiset(a[l := x][r := y]) == multiset(a)
  {
  }

  lemma ExchangePermutes<T>(key: T -> real, a: seq<T>, l: nat, r: nat, up: bool)
    requires l < r < |a|
    ensures multiset(Exchange(key, a, l, r, up)) == multiset(a)
  {
    var x, y := Lesser(key, a[l], a[r]), Greater(key, a[l], a[r]);
    if up {
      SwapKeepsMultiset(a, l, r, x, y);
    } else {
      SwapKeepsMultiset(a, l, r, y, x);
    }
  }

  lemma {:induction false} ExchangesPermute<T>(key: T -> real, a: seq<T>, pairs: seq<Pair>, count: nat)
    requires count <= |pairs| && PairsWithin(pairs, |a|)
    ensures multiset(Exchanges(key, a, pairs, count)) == multiset(a)
  {
    if count > 0 {
      var p := pairs[count - 1];
      ExchangesPermute(key, a, pairs, count - 1);
      ExchangePermutes(key, Exchanges(key, a, pairs, count - 1), p.left, p.right, p.up);
    }
  }

  /** When no two pairs share a cell, each pair is exchanged as in the original buffer. */
  lemma {:induction false} ExchangesOfPair<T>(key: T -> real, a: seq<T>, pairs: seq<Pair>, count: nat, t: nat)
    requires count <= |pairs| && PairsWithin(pairs, |a|) && PairsApart(pairs) && t < |pairs|
    ensures var p, r := pairs[t], Exchanges(key, a, pairs, count);
            var b := if t < count then Exchange(key, a, p.left, p.right, p.up) else a;
            r[p.left] == b[p.left] && r[p.right] == b[p.right]
  {
    if count > 0 {
      ExchangesOfPair(key, a, pairs, count - 1, t);
      if count - 1 < t {
        assert PairsApart(pairs) && pairs[count - 1].left != pairs[t].left;
      } else if t < count - 1 {
        assert PairsApart(pairs) && pairs[t].left != pairs[count - 1].left;
      }
    }
  }

  /** The pairs of all work-items of a pass. */
  function PassPairs(len: nat, stage: nat, k: nat): (r: seq<Pair>)
    ensures |r| == len / 2
  {
    seq(len / 2, t requires 0 <= t => Pair(LeftId(t, Pow2(k)), RightId(t, Pow2(k)), Upwards(LeftId(t, Pow2(k)), stage)))
  }

  lemma ItemInBounds(len: nat, k: nat, t: nat)
    requires len % Pow2(k + 1) == 0
    ensures t < len / 2 <==> RightId(t, Pow2(k)) < len
    ensures t < len / 2 <==> LeftId(t, Pow2(k)) < len
  {
    var d := Pow2(k);
    var m := len / (2 * d);
    DivisionEquation(len, 2 * d);
    assert len == 2 * (m * d);
    PairsInBounds(t, d, m);
  }

  lemma DistinctItems(t: nat, u: nat, d: nat)
    requires d > 0 && t != u
    ensures LeftId(t, d) != LeftId(u, d) && LeftId(t, d) != RightId(u, d)
    ensures RightId(t, d) != LeftId(u, d) && RightId(t, d) != RightId(u, d)
  {
    PairsPartition(t, LeftId(t, d), d);
    PairsPartition(u, LeftId(t, d), d);
    PairsPartition(t, RightId(t, d), d);
    PairsPartition(u, RightId(t, d), d);
  }

  lemma PassPairsApart(len: nat, stage: nat, k: nat)
    requires len % Pow2(k + 1) == 0
    ensures PairsWithin(PassPairs(len, stage, k), len) && PairsApart(PassPairs(len, stage, k))
  {
    var pairs := PassPairs(len, stage, k);
    forall t | 0 <= t < |pairs| ensures pairs[t].left < pairs[t].right < len {
      ItemInBounds(len, k, t);
    }
    forall t, u | 0 <= t < u < |pairs|
      ensures pairs[t].left != pairs[u].left && pairs[t].left != pairs[u].right
      ensures pairs[t].right != pairs[u].left && pairs[t].right != pairs[u].right
    {
      DistinctItems(t, u, Pow2(k));
    }
  }

  /** The work-item that owns a cell, and the place of the cell in its pair. */
  lemma OwnerOfCell(len: nat, k: nat, c: nat) returns (t: nat)
    requires len % Pow2(k + 1) == 0 && c < len
    ensures t < len / 2
    ensures c == if InLowerHalf(c, Pow2(k)) then LeftId(t, Pow2(k)) else RightId(t, Pow2(k))
  {
    t := ItemOf(c, Pow2(k));
    PairsPartition(t, c, Pow2(k));
    ItemInBounds(len, k, t);
  }

  /** The exchange of work-item t leaves in its pair what the pass leaves there. */
  lemma PassOfItem<T>(key: T -> real, a: seq<T>, stage: nat, k: nat, t: nat)
    requires |a| % Pow2(k + 1) == 0 && k <= stage && t < |a| / 2
    ensures var p := PassPairs(|a|, stage, k)[t];
            && p.left < p.right < |a|
            && Pass(key, a, stage, k)[p.left] == Exchange(key, a, p.left, p.right, p.up)[p.left]
            && Pass(key, a, stage, k)[p.right] == Exchange(key, a, p.left, p.right, p.up)[p.right]
  {
    var l := LeftId(t, Pow2(k));
    ItemInBounds(|a|, k, t);
    DirectionOfItem(t, k, stage);
    LeftCoordinates(t, Pow2(k));
    var lo := BlockBase(l, Pow2(k + 1));
    DivisionEquation(l, Pow2(k + 1));
    DivisionEquation(lo, Pow2(k + 1));
    SameDirection(l, lo, k, stage);
    PassPair(key, a, stage, k, lo, l, l + Pow2(k));
  }

  lemma ExchangesCell<T>(key: T -> real, a: seq<T>, stage: nat, k: nat, c: nat)
    requires |a| % Pow2(k + 1) == 0 && k <= stage && c < |a|
    requires PairsWithin(PassPairs(|a|, stage, k), |a|) && PairsApart(PassPairs(|a|, stage, k))
    ensures Exchanges(key, a, PassPairs(|a|, stage, k), |a| / 2)[c] == Pass(key, a, stage, k)[c]
  {
    var t := OwnerOfCell(|a|, k, c);
    ExchangesOfPair(key, a, PassPairs(|a|, stage, k), |a| / 2, t);
    PassOfItem(key, a, stage, k, t);
  }

  lemma PassPermutes<T>(key: T -> real, a: seq<T>, stage: nat, k: nat)
    requires |a| % Pow2(k + 1) == 0 && k <= stage
    ensures multiset(Pass(key, a, stage, k)) == multiset(a)
  {
    var pairs := PassPairs(|a|, stage, k);
    PassPairsApart(|a|, stage, k);
    var r := Exchanges(key, a, pairs, |pairs|);
    forall c | 0 <= c < |a| ensures r[c] == Pass(key, a, stage, k)[c] {
      ExchangesCell(key, a, stage, k, c);
    }
    assert r == Pass(key, a, stage, k);
    ExchangesPermute(key, a, pairs, |pairs|);
  }
}
