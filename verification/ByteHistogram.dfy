/** The histograms of chapters 3 and 4: every work-item of a group of 16 counts 256 pixels in its own byte
    counters, which are then merged within the group and by the host. A byte counter that reaches 256 is
    back at zero.

    Channel c of work-item l owns the cells from (16 * c + l) * 256 on. */
module ByteHistogram {
  import opened WorkItems
  import opened Scatter
  import opened Sums

  datatype Pixel = Pixel(r: nat, g: nat, b: nat)

  predicate IsPixel(p: Pixel) {
    p.r < 256 && p.g < 256 && p.b < 256
  }

  function Channel(p: Pixel, c: nat): nat {
    if c == 0 then p.r else if c == 1 then p.g else p.b
  }

  /** The channels of a packed pixel: value & 0xFF, (value & 0xFF00) >> 8, (value & 0xFF0000) >> 16. */
  function Unpack(value: nat): (p: Pixel)
    ensures IsPixel(p)
  {
    Pixel(value % 256, (value / 256) % 256, (value / 65536) % 256)
  }

  /** The channels are the three low bytes, red the lowest; what lies above them is not looked at. */
  lemma UnpackedBytes(value: nat)
    ensures var p := Unpack(value);
            p == Pixel(Channel(p, 0), Channel(p, 1), Channel(p, 2)) &&
            value == Channel(p, 0) + 0x100 * Channel(p, 1) + 0x1_0000 * Channel(p, 2) +
                     0x100_0000 * (value / 0x100_0000)
  {
    assert value / 256 / 256 == value / 0x1_0000 && value / 0x1_0000 / 256 == value / 0x100_0000;
  }

  /** Bins per channel, and pixels per work-item. */
  const BINS: nat := 256
  const STRIP: nat := 256

  /** The pixels of a work-item, in the order it reads them. */
  type Strip = nat -> Pixel

  ghost predicate IsStrip(strip: Strip) {
    forall k: nat :: k < STRIP ==> IsPixel(strip(k))
  }

  // ---------- counting one strip ----------

  function IncrementByte(regs: seq<nat>): nat {
    if |regs| == 0 then 0 else (regs[|regs| - 1] + 1) % 256
  }

  function Increment(x: nat): seq<Instr<nat>> {
    [Load(x), Store(x, IncrementByte)]
  }

  /** The increments of the given cells, one after the other. */
  function Increments(cells: seq<nat>): seq<Instr<nat>> {
    if cells == [] then [] else Increments(cells[..|cells| - 1]) + Increment(cells[|cells| - 1])
  }

  function PixelCells(l: nat, p: Pixel): seq<nat> {
    [l * 256 + p.r, (16 + l) * 256 + p.g, (32 + l) * 256 + p.b]
  }

  function StripCells(l: nat, strip: Strip, n: nat): seq<nat> {
    if n == 0 then [] else StripCells(l, strip, n - 1) + PixelCells(l, strip(n - 1))
  }

  function Zero(c: nat): nat {
    0
  }

  /** The strip in which pixel k has the value k in every channel: its cells are the counters to clear. */
  function Ramp(k: nat): Pixel {
    Pixel(k, k, k)
  }

  function OwnCells(l: nat): seq<nat> {
    StripCells(l, Ramp, STRIP)
  }

  /** A work-item clears its counters and then counts. Chapter 3 puts a barrier in between, chapter 4 does
      not, so the orders of chapter 3 are among those of chapter 4. */
  function StripProgram(l: nat, strip: Strip): seq<Instr<nat>> {
    Writes(OwnCells(l), Zero) + Increments(StripCells(l, strip, STRIP))
  }

  lemma {:induction false} OwnCell(l: nat, c: nat, v: nat, n: nat)
    requires c < 3 && v < n
    ensures (16 * c + l) * 256 + v in StripCells(l, Ramp, n)
  {
    if v == n - 1 {
      var p := PixelCells(l, Ramp(n - 1));
      assert p[c] == (16 * c + l) * 256 + v;
    } else {
      OwnCell(l, c, v, n - 1);
    }
  }

  lemma OneIncrement(p: seq<Instr<nat>>, m: seq<nat>, x: nat)
    requires Addressable(p, |m|) && x < |m|
    ensures Addressable(p + Increment(x), |m|)
    ensures SoloMemory(p + Increment(x), m) == SoloMemory(p, m)[x := (SoloMemory(p, m)[x] + 1) % 256]
  {
    var q, n := p + Increment(x), |p|;
    assert Addressable(q, |m|);
    SoloPrefix(p, Increment(x), m, n);
    var s := Solo(p, m, n);
    assert q[n] == Load(x) && q[n + 1] == Store(x, IncrementByte);
    assert Solo(q, m, n + 1) == (Thread(n + 1, s.0.regs + [s.1[x]]), s.1);
  }

  lemma ModStep(a: nat, b: nat)
    ensures ((a + b) % 256 + 1) % 256 == (a + (b + 1)) % 256
  {
  }

  lemma CountLast(cells: seq<nat>, c: nat)
    requires cells != []
    ensures CountIn(cells, c) == CountIn(cells[..|cells| - 1], c) + if cells[|cells| - 1] == c then 1 else 0
  {
    var init, x := cells[..|cells| - 1], cells[|cells| - 1];
    assert cells == init + [x];
    CountAppend(init, [x], c);
    assert CountIn([x], c) == if x == c then 1 else 0;
  }

  /** Increments add their number to every cell, modulo 256. */
  lemma {:induction false} SoloCounts(p: seq<Instr<nat>>, cells: seq<nat>, m: seq<nat>, c: nat)
    requires Addressable(p, |m|) && forall k :: 0 <= k < |cells| ==> cells[k] < |m|
    requires c < |m| && SoloMemory(p, m)[c] < 256
    ensures Addressable(p + Increments(cells), |m|)
    ensures SoloMemory(p + Increments(cells), m)[c] == (SoloMemory(p, m)[c] + CountIn(cells, c)) % 256
  {
    if cells == [] {
      assert p + Increments(cells) == p;
    } else {
      var init, x := cells[..|cells| - 1], cells[|cells| - 1];
      SoloCounts(p, init, m, c);
      OneIncrement(p + Increments(init), m, x);
      assert p + Increments(cells) == (p + Increments(init)) + Increment(x);
      CountLast(cells, c);
      ModStep(SoloMemory(p, m)[c], CountIn(init, c));
    }
  }

  /** One for every pixel of the strip whose channel has the value v. */
  function Has(strip: Strip, c: nat, v: nat): nat -> int {
    (k: nat) => if Channel(strip(k), c) == v then 1 else 0
  }

  lemma {:induction false} CellsCount(l: nat, strip: Strip, n: nat, c: nat, v: nat)
    requires l < 16 && c < 3 && v < 256 && n <= STRIP && IsStrip(strip)
    ensures CountIn(StripCells(l, strip, n), (16 * c + l) * 256 + v) == Sum(n, Has(strip, c, v))
  {
    if n > 0 {
      var p, x := strip(n - 1), (16 * c + l) * 256 + v;
      CellsCount(l, strip, n - 1, c, v);
      CountAppend(StripCells(l, strip, n - 1), PixelCells(l, p), x);
      assert IsPixel(p);
      CountOfThree(l * 256 + p.r, (16 + l) * 256 + p.g, (32 + l) * 256 + p.b, x);
    }
  }

  lemma CountOfThree(a: nat, b: nat, c: nat, x: nat)
    ensures CountIn([a, b, c], x) == (if a == x then 1 else 0) + (if b == x then 1 else 0) + (if c == x then 1 else 0)
  {
    assert [a, b, c][1..] == [b, c] && [b, c][1..] == [c] && [c][1..] == [];
    assert CountIn([c], x) == (if c == x then 1 else 0) + CountIn([], x);
    assert CountIn([b, c], x) == (if b == x then 1 else 0) + CountIn([c], x);
    assert CountIn([a, b, c], x) == (if a == x then 1 else 0) + CountIn([b, c], x);
  }

  lemma {:induction false} CellsBelong(l: nat, strip: Strip, n: nat)
    requires l < 16 && n <= STRIP && IsStrip(strip)
    ensures forall k :: 0 <= k < |StripCells(l, strip, n)| ==>
              StripCells(l, strip, n)[k] < 12288 && (StripCells(l, strip, n)[k] / 256) % 16 == l
  {
    if n > 0 {
      CellsBelong(l, strip, n - 1);
      assert IsPixel(strip(n - 1));
    }
  }

  lemma {:induction false} IncrementsTouch(cells: seq<nat>, c: nat)
    ensures Touches(Increments(cells), c) <==> c in cells
    ensures Stores(Increments(cells), c) <==> c in cells
  {
    if cells != [] {
      var init, x := cells[..|cells| - 1], cells[|cells| - 1];
      IncrementsTouch(init, c);
      var p, n := Increments(cells), |Increments(init)|;
      assert p[n] == Load(x) && p[n + 1] == Store(x, IncrementByte);
      assert forall k :: 0 <= k < n ==> p[k] == Increments(init)[k];
      assert cells == init + [x];
    }
  }

  lemma TouchesEither(p: seq<Instr<nat>>, q: seq<Instr<nat>>, c: nat)
    requires Touches(p + q, c)
    ensures Touches(p, c) || Touches(q, c)
  {
    var k :| 0 <= k < |p + q| && (p + q)[k].addr == c;
    if k >= |p| {
      assert q[k - |p|].addr == c;
    }
  }

  /** A work-item touches no counters but its own. */
  lemma TouchesOwn(l: nat, strip: Strip, c: nat)
    requires l < 16 && IsStrip(strip) && Touches(StripProgram(l, strip), c)
    ensures c < 12288 && (c / 256) % 16 == l
  {
    TouchesEither(Writes(OwnCells(l), Zero), Increments(StripCells(l, strip, STRIP)), c);
    WritesTouch(OwnCells(l), Zero, c);
    IncrementsTouch(StripCells(l, strip, STRIP), c);
    CellsBelong(l, Ramp, STRIP);
    CellsBelong(l, strip, STRIP);
  }

  // ---------- one work-group ----------

  function StripPrograms(strips: nat -> Strip): (ps: seq<seq<Instr<nat>>>)
    ensures |ps| == 16
  {
    seq(16, l requires 0 <= l => StripProgram(l, strips(l)))
  }

  /** Every work-item stays in its own counters. */
  lemma StripsAreRaceFree(strips: nat -> Strip)
    requires forall l: nat :: l < 16 ==> IsStrip(strips(l))
    ensures RaceFree(StripPrograms(strips), 12288)
  {
    var ps := StripPrograms(strips);
    forall l, c: nat | 0 <= l < 16 && Touches(ps[l], c) ensures c < 12288 && (c / 256) % 16 == l {
      TouchesOwn(l, strips(l), c);
    }
    forall l | 0 <= l < 16 ensures Addressable(ps[l], 12288) {
      forall k | 0 <= k < |ps[l]| ensures ps[l][k].addr < 12288 {
        assert Touches(ps[l], ps[l][k].addr);
      }
    }
    forall i, j, c: nat | 0 <= i < 16 && 0 <= j < 16 && i != j && Stores(ps[i], c) ensures !Touches(ps[j], c) {
      StoreTouches(ps[i], c);
    }
  }

  /** What a byte counter shows after a strip: the count, unless the strip is constant. */
  function ByteCount(strip: Strip, c: nat, v: nat): nat {
    Sum(STRIP, Has(strip, c, v)) % 256
  }

  /** Whether all pixels of a strip have the same value v in channel c. */
  ghost predicate Constant(strip: Strip, c: nat, v: nat) {
    forall k: nat :: k < STRIP ==> Channel(strip(k), c) == v
  }

  lemma {:induction false} CountBounded(strip: Strip, c: nat, v: nat, n: nat)
    ensures 0 <= Sum(n, Has(strip, c, v)) <= n
    ensures Sum(n, Has(strip, c, v)) == n <==> forall k: nat :: k < n ==> Channel(strip(k), c) == v
  {
    if n > 0 {
      CountBounded(strip, c, v, n - 1);
    }
  }

  /** The wrap-around of a byte counter loses exactly the constant strips. */
  lemma ByteCountMisses(strip: Strip, c: nat, v: nat)
    ensures ByteCount(strip, c, v) == Sum(STRIP, Has(strip, c, v)) - if Constant(strip, c, v) then 256 else 0
  {
    CountBounded(strip, c, v, STRIP);
  }

  /** Whatever the counters held before, and in whatever order the work-items run. */
  lemma CountedCell(strips: nat -> Strip, m: seq<nat>, m': seq<nat>, l: nat, c: nat, v: nat)
    requires forall i: nat :: i < 16 ==> IsStrip(strips(i))
    requires |m| == 12288 && RaceFree(StripPrograms(strips), |m|) && IsLaunch(StripPrograms(strips), m, m')
    requires l < 16 && c < 3 && v < 256
    ensures m'[(16 * c + l) * 256 + v] == ByteCount(strips(l), c, v)
  {
    StoresCounter(strips(l), l, c, v);
    SoloCounter(strips(l), m, l, c, v);
    assert StripPrograms(strips)[l] == StripProgram(l, strips(l));
  }

  lemma StoresCounter(strip: Strip, l: nat, c: nat, v: nat)
    requires c < 3 && v < 256
    ensures Stores(StripProgram(l, strip), (16 * c + l) * 256 + v)
  {
    var x := (16 * c + l) * 256 + v;
    OwnCell(l, c, v, STRIP);
    WritesTouch(OwnCells(l), Zero, x);
    StoresFirst(Writes(OwnCells(l), Zero), Increments(StripCells(l, strip, STRIP)), x);
  }

  lemma StoresFirst(p: seq<Instr<nat>>, q: seq<Instr<nat>>, x: nat)
    requires Stores(p, x)
    ensures Stores(p + q, x)
  {
    var k :| 0 <= k < |p| && p[k].Store? && p[k].addr == x;
    assert (p + q)[k] == p[k];
  }

  lemma CellsInRange(l: nat, strip: Strip, size: nat)
    requires l < 16 && IsStrip(strip) && size == 12288
    ensures forall k :: 0 <= k < |StripCells(l, strip, STRIP)| ==> StripCells(l, strip, STRIP)[k] < size
  {
    CellsBelong(l, strip, STRIP);
  }

  lemma ClearedCell(m: seq<nat>, l: nat, c: nat, v: nat)
    requires l < 16 && c < 3 && v < 256 && |m| == 12288
    ensures Addressable(Writes(OwnCells(l), Zero), |m|)
    ensures SoloMemory(Writes(OwnCells(l), Zero), m)[(16 * c + l) * 256 + v] == 0
  {
    CellsInRange(l, Ramp, 12288);
    OwnCell(l, c, v, STRIP);
    SoloWrites(OwnCells(l), Zero, m, (16 * c + l) * 256 + v);
  }

  lemma CountedFromZero(p: seq<Instr<nat>>, cells: seq<nat>, m: seq<nat>, x: nat)
    requires Addressable(p, |m|) && forall k :: 0 <= k < |cells| ==> cells[k] < |m|
    requires x < |m| && SoloMemory(p, m)[x] == 0
    ensures Addressable(p + Increments(cells), |m|)
    ensures SoloMemory(p + Increments(cells), m)[x] == CountIn(cells, x) % 256
  {
    SoloCounts(p, cells, m, x);
  }

  lemma CellsCountModulo(l: nat, strip: Strip, c: nat, v: nat)
    requires IsStrip(strip) && l < 16 && c < 3 && v < 256
    ensures CountIn(StripCells(l, strip, STRIP), (16 * c + l) * 256 + v) % 256 == ByteCount(strip, c, v)
  {
    CellsCount(l, strip, STRIP, c, v);
  }

  lemma SoloCounter(strip: Strip, m: seq<nat>, l: nat, c: nat, v: nat)
    requires IsStrip(strip) && l < 16 && c < 3 && v < 256 && |m| == 12288
    ensures Addressable(StripProgram(l, strip), |m|)
    ensures SoloMemory(StripProgram(l, strip), m)[(16 * c + l) * 256 + v] == ByteCount(strip, c, v)
  {
    ClearedCell(m, l, c, v);
    CellsInRange(l, strip, |m|);
    CountedFromZero(Writes(OwnCells(l), Zero), StripCells(l, strip, STRIP), m, (16 * c + l) * 256 + v);
    CellsCountModulo(l, strip, c, v);
  }

  // ---------- merging ----------

  function ByteCounts(strips: nat -> Strip, c: nat, v: nat): nat -> int {
    (s: nat) => ByteCount(strips(s), c, v)
  }

  /** Work-items per group. */
  const GROUP: nat := 16

  /** Bin v of a group. */
  function GroupBin(strips: nat -> Strip, c: nat, v: nat): int {
    Sum(GROUP, ByteCounts(strips, c, v))
  }

  /** The counters of the group hold the byte counts of the strips. */
  ghost predicate Counted(shared: seq<nat>, strips: nat -> Strip) {
    |shared| == 12288 &&
    forall l: nat, c: nat, v: nat :: l < 16 && c < 3 && v < 256 ==> CounterHolds(shared, strips, l, c, v)
  }

  ghost predicate CounterHolds(shared: seq<nat>, strips: nat -> Strip, l: nat, c: nat, v: nat)
    requires |shared| == 12288 && l < 16 && c < 3 && v < 256
  {
    shared[(16 * c + l) * 256 + v] == ByteCount(strips(l), c, v)
  }

  /** Clearing and counting in local memory of unknown contents, under any scheduler. */
  method Count(strips: nat -> Strip) returns (shared: array<nat>)
    requires forall l: nat :: l < 16 ==> IsStrip(strips(l))
    ensures fresh(shared) && Counted(shared[..], strips)
  {
    shared := new nat[12288];
    ghost var m := shared[..];
    StripsAreRaceFree(strips);
    Launch(shared, StripPrograms(strips));
    forall l: nat, c: nat, v: nat | l < 16 && c < 3 && v < 256 ensures CounterHolds(shared[..], strips, l, c, v) {
      CountedCell(strips, m, shared[..], l, c, v);
    }
  }

  /** Reading one counter. */
  function Counter(shared: seq<nat>, ghost strips: nat -> Strip, c: nat, l: nat, v: nat): (count: nat)
    requires Counted(shared, strips) && c < 3 && l < 16 && v < 256
    ensures count == ByteCounts(strips, c, v)(l)
  {
    assert CounterHolds(shared, strips, l, c, v);
    shared[(16 * c + l) * 256 + v]
  }

  /** The inner loop of the merge: one bin over all work-items of the group. */
  method MergeBin(shared: seq<nat>, ghost strips: nat -> Strip, c: nat, v: nat) returns (binCount: int)
    requires Counted(shared, strips) && c < 3 && v < 256
    ensures binCount == GroupBin(strips, c, v)
  {
    binCount := 0;
    for j := 0 to GROUP
      invariant binCount == Sum(j, ByteCounts(strips, c, v))
    {
      binCount := binCount + Counter(shared, strips, c, j, v);
    }
  }

  /** The bin that a work-item writes in step i of the merge: chapter 3 deals the bins out in turn,
      chapter 4 in runs of 16. */
  function BinOf(interleaved: bool, localId: nat, i: nat): (v: nat)
    requires localId < 16 && i < 16
    ensures v < 256
  {
    if interleaved then i * 16 + localId else localId * 16 + i
  }

  function OwnerOf(interleaved: bool): nat -> nat {
    (v: nat) => if interleaved then v % 16 else v / 16
  }

  function StepOf(interleaved: bool, v: nat): nat {
    if interleaved then v / 16 else v % 16
  }

  /** Every bin is written in exactly one step of one work-item. */
  lemma BinsDealtOnce(interleaved: bool, v: nat, localId: nat, i: nat)
    requires v < 256 && localId < 16 && i < 16
    ensures OwnerOf(interleaved)(v) < 16 && StepOf(interleaved, v) < 16
    ensures BinOf(interleaved, localId, i) == v <==>
            OwnerOf(interleaved)(v) == localId && StepOf(interleaved, v) == i
  {
  }

  /** The bins of the first n steps of a work-item. */
  function BinsOf(interleaved: bool, localId: nat, n: nat): seq<nat>
    requires localId < 16 && n <= 16
  {
    if n == 0 then [] else BinsOf(interleaved, localId, n - 1) + [BinOf(interleaved, localId, n - 1)]
  }

  function ItemBins(interleaved: bool): nat -> seq<nat> {
    (localId: nat) => if localId < 16 then BinsOf(interleaved, localId, GROUP) else []
  }

  lemma {:induction false} InBinsOf(interleaved: bool, localId: nat, n: nat, v: nat)
    requires localId < 16 && n <= 16
    ensures v in BinsOf(interleaved, localId, n) <==>
            v < 256 && OwnerOf(interleaved)(v) == localId && StepOf(interleaved, v) < n
  {
    if n > 0 {
      InBinsOf(interleaved, localId, n - 1, v);
      if v < 256 {
        BinsDealtOnce(interleaved, v, localId, n - 1);
      }
    }
  }

  lemma BinsDealt(interleaved: bool)
    ensures Dealt(ItemBins(interleaved), OwnerOf(interleaved), 16, 256)
  {
    forall w: nat, v: nat | w < 16 ensures DealtCell(ItemBins(interleaved), OwnerOf(interleaved), 256, w, v) {
      InBinsOf(interleaved, w, GROUP, v);
      if v < 256 {
        BinsDealtOnce(interleaved, v, w, 0);
      }
    }
  }

  function MergedBins(strips: nat -> Strip, c: nat): nat -> int {
    (v: nat) => GroupBin(strips, c, v)
  }

  /** The merge loop of one work-item. */
  method MergeItem(shared: seq<nat>, ghost strips: nat -> Strip, c: nat, interleaved: bool, localId: nat)
    returns (p: seq<Instr<int>>)
    requires Counted(shared, strips) && c < 3 && localId < 16
    ensures p == Writes(BinsOf(interleaved, localId, GROUP), MergedBins(strips, c))
  {
    p := [];
    for i := 0 to GROUP
      invariant p == Writes(BinsOf(interleaved, localId, i), MergedBins(strips, c))
    {
      var v := BinOf(interleaved, localId, i);
      var binCount := MergeBin(shared, strips, c, v);
      WritesAppend(BinsOf(interleaved, localId, i), v, MergedBins(strips, c));
      p := p + [Store(v, Const(binCount))];
    }
  }

  method MergePrograms(shared: seq<nat>, ghost strips: nat -> Strip, c: nat, interleaved: bool)
    returns (ps: seq<seq<Instr<int>>>)
    requires Counted(shared, strips) && c < 3
    ensures |ps| == GROUP && AreWrites(ps, ItemBins(interleaved), MergedBins(strips, c))
  {
    ps := [];
    for localId := 0 to GROUP
      invariant |ps| == localId && AreWrites(ps, ItemBins(interleaved), MergedBins(strips, c))
    {
      var p := MergeItem(shared, strips, c, interleaved, localId);
      OneMoreItem(ps, p, ItemBins(interleaved), MergedBins(strips, c));
      ps := ps + [p];
    }
  }

  ghost predicate IsMerged(merged: seq<int>, strips: nat -> Strip, c: nat) {
    |merged| == 256 && forall v: nat :: v < 256 ==> merged[v] == GroupBin(strips, c, v)
  }

  /** The merge of a group, under any scheduler: whichever way the bins are dealt out, each is written once. */
  method Merge(shared: seq<nat>, ghost strips: nat -> Strip, c: nat, interleaved: bool) returns (merged: seq<int>)
    requires Counted(shared, strips) && c < 3
    ensures IsMerged(merged, strips, c)
  {
    var ps := MergePrograms(shared, strips, c, interleaved);
    var bins := new int[256];
    BinsDealt(interleaved);
    LaunchWrites(bins, ps, ItemBins(interleaved), OwnerOf(interleaved), MergedBins(strips, c));
    merged := bins[..];
    assert forall v: nat :: v < 256 ==> merged[v] == MergedBins(strips, c)(v);
  }

  /** One work-group: the three channels of bins, from one count. */
  method Group(strips: nat -> Strip, interleaved: bool) returns (bins: seq<seq<int>>)
    requires forall l: nat :: l < 16 ==> IsStrip(strips(l))
    ensures |bins| == 3 && forall c: nat :: c < 3 ==> IsMerged(bins[c], strips, c)
  {
    var shared := Count(strips);
    var counters := shared[..];
    var r := Merge(counters, strips, 0, interleaved);
    var g := Merge(counters, strips, 1, interleaved);
    var b := Merge(counters, strips, 2, interleaved);
    bins := [r, g, b];
  }

  // ---------- what the bins mean ----------

  function StripTotals(strips: nat -> Strip, c: nat, v: nat): nat -> int {
    (s: nat) => Sum(STRIP, Has(strips(s), c, v))
  }

  ghost function ConstantFlags(strips: nat -> Strip, c: nat, v: nat): nat -> int {
    (s: nat) => if Constant(strips(s), c, v) then 1 else 0
  }

  ghost function Lost(strips: nat -> Strip, c: nat, v: nat): nat -> int {
    (s: nat) => 256 * ConstantFlags(strips, c, v)(s)
  }

  /** Merged byte counts are the true counts less 256 for every constant strip. */
  lemma MergedCount(strips: nat -> Strip, n: nat, c: nat, v: nat)
    ensures Sum(n, ByteCounts(strips, c, v)) ==
            Sum(n, StripTotals(strips, c, v)) - 256 * Sum(n, ConstantFlags(strips, c, v))
  {
    forall s: nat | s < n
      ensures StripTotals(strips, c, v)(s) == ByteCounts(strips, c, v)(s) + Lost(strips, c, v)(s)
    {
      ByteCountMisses(strips(s), c, v);
      assert StripTotals(strips, c, v)(s) == Sum(STRIP, Has(strips(s), c, v));
      assert ByteCounts(strips, c, v)(s) == ByteCount(strips(s), c, v);
      assert Lost(strips, c, v)(s) == 256 * ConstantFlags(strips, c, v)(s);
      assert ConstantFlags(strips, c, v)(s) == if Constant(strips(s), c, v) then 1 else 0;
    }
    SumAdd(n, StripTotals(strips, c, v), ByteCounts(strips, c, v), Lost(strips, c, v));
    SumScaled(n, Lost(strips, c, v), 256, ConstantFlags(strips, c, v));
  }

  lemma {:induction false} FlagsVanish(strips: nat -> Strip, n: nat, c: nat, v: nat)
    ensures Sum(n, ConstantFlags(strips, c, v)) >= 0
    ensures Sum(n, ConstantFlags(strips, c, v)) == 0 <==> forall s: nat :: s < n ==> !Constant(strips(s), c, v)
  {
    if n > 0 {
      FlagsVanish(strips, n - 1, c, v);
    }
  }

  // ---------- all bins of a strip ----------

  function StripTable(strip: Strip, c: nat): (nat, nat) -> int {
    (v: nat, k: nat) => Has(strip, c, v)(k)
  }

  /** What a strip adds to the total over all bins of a channel. */
  ghost function StripShare(strip: Strip, c: nat): int {
    if Constant(strip, c, Channel(strip(0), c)) then 0 else 256
  }

  function StripBins(strip: Strip, c: nat): nat -> int {
    (v: nat) => ByteCount(strip, c, v)
  }

  function TrueBins(strip: Strip, c: nat): nat -> int {
    (v: nat) => Sum(STRIP, Has(strip, c, v))
  }

  ghost function LostBins(strip: Strip, c: nat): nat -> int {
    (v: nat) => if Constant(strip, c, v) then 256 else 0
  }

  /** Every pixel is in one bin. */
  lemma PixelInOneBin(strip: Strip, c: nat, k: nat)
    requires IsPixel(strip(k)) && c < 3
    ensures ColumnSums(StripTable(strip, c), BINS)(k) == 1
  {
    var x, column := Channel(strip(k), c), Column(StripTable(strip, c), k);
    forall v: nat ensures column(v) == if x == v then 1 else 0 {
      assert column(v) == Has(strip, c, v)(k);
    }
    SumSingle(BINS, column, x);
  }

  lemma TrueBinsTotal(strip: Strip, c: nat)
    requires IsStrip(strip) && c < 3
    ensures Sum(BINS, TrueBins(strip, c)) == 256
  {
    RowsAndColumns(strip, c);
    SumOfOnes(STRIP);
  }

  lemma RowsAndColumns(strip: Strip, c: nat)
    requires IsStrip(strip) && c < 3
    ensures Sum(BINS, TrueBins(strip, c)) == Sum(STRIP, Ones())
  {
    BinsAreRows(strip, c);
    PixelsAreColumns(strip, c);
    SumByColumns(BINS, STRIP, StripTable(strip, c), TrueBins(strip, c), Ones());
  }

  lemma SumOfOnes(n: nat)
    ensures Sum(n, Ones()) == n
  {
    SumConstant(n, Ones(), 1);
  }

  lemma BinsAreRows(strip: Strip, c: nat)
    ensures forall v: nat :: v < BINS ==> TrueBins(strip, c)(v) == RowSums(StripTable(strip, c), STRIP)(v)
  {
    forall v: nat | v < BINS ensures TrueBins(strip, c)(v) == RowSums(StripTable(strip, c), STRIP)(v) {
      TrueBin(strip, c, v);
    }
  }

  lemma PixelsAreColumns(strip: Strip, c: nat)
    requires IsStrip(strip) && c < 3
    ensures forall k: nat :: k < STRIP ==> Ones()(k) == ColumnSums(StripTable(strip, c), BINS)(k)
  {
    forall k: nat | k < STRIP ensures Ones()(k) == ColumnSums(StripTable(strip, c), BINS)(k) {
      PixelInOneBin(strip, c, k);
    }
  }

  lemma TrueBin(strip: Strip, c: nat, v: nat)
    ensures TrueBins(strip, c)(v) == RowSums(StripTable(strip, c), STRIP)(v)
  {
    SumSame(STRIP, Has(strip, c, v), Row(StripTable(strip, c), v));
  }

  function Ones(): nat -> int {
    (k: nat) => 1
  }

  lemma BinLost(strip: Strip, c: nat, v: nat)
    ensures TrueBins(strip, c)(v) == StripBins(strip, c)(v) + LostBins(strip, c)(v)
    ensures v != Channel(strip(0), c) ==> LostBins(strip, c)(v) == 0
  {
    ByteCountMisses(strip, c, v);
    assert Constant(strip, c, v) ==> Channel(strip(0), c) == v;
  }

  lemma LostOrShared(strip: Strip, c: nat)
    ensures LostBins(strip, c)(Channel(strip(0), c)) + StripShare(strip, c) == 256
  {
  }

  lemma BinsLost(strip: Strip, c: nat, x: nat)
    requires x == Channel(strip(0), c)
    ensures forall v: nat :: v < BINS ==> TrueBins(strip, c)(v) == StripBins(strip, c)(v) + LostBins(strip, c)(v)
    ensures forall v: nat :: v < BINS && v != x ==> LostBins(strip, c)(v) == 0
  {
    forall v: nat | v < BINS
      ensures TrueBins(strip, c)(v) == StripBins(strip, c)(v) + LostBins(strip, c)(v)
      ensures v != x ==> LostBins(strip, c)(v) == 0
    {
      BinLost(strip, c, v);
    }
  }

  lemma BinsAndLost(strip: Strip, c: nat, x: nat)
    requires x < 256 && x == Channel(strip(0), c)
    ensures Sum(BINS, TrueBins(strip, c)) == Sum(BINS, StripBins(strip, c)) + LostBins(strip, c)(x)
  {
    BinsLost(strip, c, x);
    SumButOne(BINS, TrueBins(strip, c), StripBins(strip, c), LostBins(strip, c), x);
  }

  /** The byte counters of a strip add up to its 256 pixels, or to nothing when it is constant. */
  lemma StripBinsTotal(strip: Strip, c: nat)
    requires IsStrip(strip) && c < 3
    ensures Sum(BINS, StripBins(strip, c)) == StripShare(strip, c)
  {
    assert IsPixel(strip(0));
    TrueBinsTotal(strip, c);
    BinsAndLost(strip, c, Channel(strip(0), c));
    LostOrShared(strip, c);
  }
}
