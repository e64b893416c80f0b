/** The hosts of chapters 3 and 4: how the image is dealt out to work-groups, and what the merged bins mean. */
module ByteHistogramHosts {
  import opened Sums
  import opened ByteHistogram

  // ---------- the intermediate buffer ----------

  /** Row w holds the bins of work-group w, channel by channel. */
  type Intermediate = seq<seq<seq<int>>>

  function GroupBins(mid: Intermediate, c: nat, v: nat): nat -> int {
    (w: nat) => if w < |mid| && c < |mid[w]| && v < |mid[w][c]| then mid[w][c][v] else 0
  }

  predicate HasThree(row: seq<seq<int>>) {
    |row| == 3 && |row[0]| == 256 && |row[1]| == 256 && |row[2]| == 256
  }

  ghost predicate HasBins(mid: Intermediate) {
    forall w :: 0 <= w < |mid| ==> HasThree(mid[w])
  }

  /** The host adds up the bins of all groups. */
  method AddGroups(mid: Intermediate, c: nat) returns (deviceBin: seq<int>)
    requires HasBins(mid) && c < 3
    ensures |deviceBin| == 256 && forall v: nat :: v < 256 ==> deviceBin[v] == Sum(|mid|, GroupBins(mid, c, v))
  {
    var bins := new int[256](_ => 0);
    for i := 0 to |mid|
      invariant forall v: nat :: v < 256 ==> bins[v] == Sum(i, GroupBins(mid, c, v))
    {
      ghost var w: nat := i;
      for j := 0 to 256
        invariant forall v: nat :: v < 256 ==>
                    bins[v] == Sum(i, GroupBins(mid, c, v)) + if v < j then GroupBins(mid, c, v)(w) else 0
      {
        assert HasThree(mid[i]);
        bins[j] := bins[j] + mid[i][c][j];
      }
    }
    deviceBin := bins[..];
  }

  method AddChannels(mid: Intermediate) returns (deviceBins: seq<seq<int>>)
    requires HasBins(mid)
    ensures HasThree(deviceBins)
    ensures forall c: nat, v: nat :: c < 3 && v < 256 ==> deviceBins[c][v] == Sum(|mid|, GroupBins(mid, c, v))
  {
    var r := AddGroups(mid, 0);
    var g := AddGroups(mid, 1);
    var b := AddGroups(mid, 2);
    deviceBins := [r, g, b];
  }

  lemma AppendGroup(mid: Intermediate, row: seq<seq<int>>, c: nat, v: nat)
    requires c < |row| && v < |row[c]|
    ensures Sum(|mid + [row]|, GroupBins(mid + [row], c, v)) == Sum(|mid|, GroupBins(mid, c, v)) + row[c][v]
  {
    SumSame(|mid|, GroupBins(mid + [row], c, v), GroupBins(mid, c, v));
  }

  // ---------- chapter 3: a buffer of packed pixels ----------

  /** The pixels of a buffer of packed values. */
  function Unpacked(data: nat -> nat): nat -> Pixel {
    (i: nat) => Unpack(data(i))
  }

  ghost predicate IsImage(image: nat -> Pixel) {
    forall i: nat :: IsPixel(image(i))
  }

  function StripOf(image: nat -> Pixel, s: nat): Strip {
    (k: nat) => image(s * STRIP + k)
  }

  function Strips(image: nat -> Pixel): nat -> Strip {
    (s: nat) => StripOf(image, s)
  }

  /** Work-item l of group g has the global index g * groupSize + l. */
  function GroupStrips(image: nat -> Pixel, g: nat): nat -> Strip {
    (l: nat) => StripOf(image, g * GROUP + l)
  }

  lemma GroupOfStrips(image: nat -> Pixel, g: nat)
    requires IsImage(image)
    ensures forall l: nat :: IsStrip(GroupStrips(image, g)(l))
  {
    forall l: nat ensures IsStrip(GroupStrips(image, g)(l)) {
      assert GroupStrips(image, g)(l) == StripOf(image, g * GROUP + l);
    }
  }

  /** One for every pixel of the buffer whose channel has the value v. */
  function PixelHas(image: nat -> Pixel, c: nat, v: nat): nat -> int {
    (i: nat) => if Channel(image(i), c) == v then 1 else 0
  }

  /** The true count. */
  lemma PixelsCounted(image: nat -> Pixel, n: nat, c: nat, v: nat)
    ensures Sum(n, PixelHas(image, c, v)) == |set i: nat | i < n && Channel(image(i), c) == v|
  {
    var p := (i: nat) => Channel(image(i), c) == v;
    SumCounts(n, PixelHas(image, c, v), p);
    assert (set i: nat | i < n && p(i)) == set i: nat | i < n && Channel(image(i), c) == v;
  }

  function BufferGroup(image: nat -> Pixel, c: nat, v: nat): nat -> int {
    (g: nat) => GroupBin(GroupStrips(image, g), c, v)
  }

  lemma OneGroup(image: nat -> Pixel, g: nat, c: nat, v: nat)
    ensures BufferGroup(image, c, v)(g) == RowSums(Rows(ByteCounts(Strips(image), c, v), GROUP), GROUP)(g)
  {
    var counts := ByteCounts(GroupStrips(image, g), c, v);
    forall l: nat | l < GROUP ensures counts(l) == ByteCounts(Strips(image), c, v)(g * GROUP + l) {
      assert GroupStrips(image, g)(l) == Strips(image)(g * GROUP + l);
    }
    SumReadsRow(GROUP, counts, ByteCounts(Strips(image), c, v), g);
  }

  /** The groups together cover the strips. */
  lemma GroupsCoverStrips(image: nat -> Pixel, groups: nat, c: nat, v: nat)
    ensures Sum(groups, BufferGroup(image, c, v)) == Sum(groups * GROUP, ByteCounts(Strips(image), c, v))
  {
    var f := RowSums(Rows(ByteCounts(Strips(image), c, v), GROUP), GROUP);
    SumFlatten(groups, GROUP, ByteCounts(Strips(image), c, v));
    forall g: nat | g < groups ensures BufferGroup(image, c, v)(g) == f(g) {
      OneGroup(image, g, c, v);
    }
    SumSame(groups, BufferGroup(image, c, v), f);
  }

  lemma OneStrip(image: nat -> Pixel, s: nat, c: nat, v: nat)
    ensures StripTotals(Strips(image), c, v)(s) == RowSums(Rows(PixelHas(image, c, v), STRIP), STRIP)(s)
  {
    SumReadsRow(STRIP, Has(StripOf(image, s), c, v), PixelHas(image, c, v), s);
  }

  /** The strips together cover the pixels. */
  lemma StripsCoverPixels(image: nat -> Pixel, n: nat, c: nat, v: nat)
    ensures Sum(n, ByteCounts(Strips(image), c, v)) ==
            Sum(n * STRIP, PixelHas(image, c, v)) - 256 * Sum(n, ConstantFlags(Strips(image), c, v))
  {
    var f := RowSums(Rows(PixelHas(image, c, v), STRIP), STRIP);
    SumFlatten(n, STRIP, PixelHas(image, c, v));
    forall s: nat | s < n ensures StripTotals(Strips(image), c, v)(s) == f(s) {
      OneStrip(image, s, c, v);
    }
    SumSame(n, StripTotals(Strips(image), c, v), f);
    MergedCount(Strips(image), n, c, v);
  }

  /** Bin v of the histogram of a buffer: only whole groups of 16 * 256 pixels are visited. */
  ghost function BufferCount(image: nat -> Pixel, groups: nat, c: nat, v: nat): int {
    Sum(groups * GROUP * STRIP, PixelHas(image, c, v)) - 256 * Sum(groups * GROUP, ConstantFlags(Strips(image), c, v))
  }

  /** The sum over the groups' merged bins is the count over their pixels, less 256 for every constant strip. */
  lemma BufferBin(image: nat -> Pixel, groups: nat, c: nat, v: nat)
    ensures Sum(groups, BufferGroup(image, c, v)) == BufferCount(image, groups, c, v)
  {
    GroupsCoverStrips(image, groups, c, v);
    StripsCoverPixels(image, groups * GROUP, c, v);
  }

  /** The intermediate buffer holds the bins of the first groups. */
  ghost predicate Collected(mid: Intermediate, image: nat -> Pixel) {
    forall c: nat, v: nat :: c < 3 && v < 256 ==>
      Sum(|mid|, GroupBins(mid, c, v)) == Sum(|mid|, BufferGroup(image, c, v))
  }

  lemma CollectBin(mid: Intermediate, image: nat -> Pixel, bins: seq<seq<int>>, c: nat, v: nat)
    requires Sum(|mid|, GroupBins(mid, c, v)) == Sum(|mid|, BufferGroup(image, c, v))
    requires c < |bins| && v < 256 && IsMerged(bins[c], GroupStrips(image, |mid|), c)
    ensures Sum(|mid + [bins]|, GroupBins(mid + [bins], c, v)) == Sum(|mid| + 1, BufferGroup(image, c, v))
  {
    var g: nat := |mid|;
    AppendGroup(mid, bins, c, v);
    assert BufferGroup(image, c, v)(g) == bins[c][v];
  }

  lemma Collect(mid: Intermediate, image: nat -> Pixel, bins: seq<seq<int>>)
    requires Collected(mid, image) && |bins| == 3
    requires forall c: nat :: c < 3 ==> IsMerged(bins[c], GroupStrips(image, |mid|), c)
    ensures Collected(mid + [bins], image) && HasThree(bins)
  {
    forall c: nat, v: nat | c < 3 && v < 256
      ensures Sum(|mid + [bins]|, GroupBins(mid + [bins], c, v)) == Sum(|mid + [bins]|, BufferGroup(image, c, v))
    {
      CollectBin(mid, image, bins, c, v);
    }
    assert IsMerged(bins[0], GroupStrips(image, |mid|), 0) && IsMerged(bins[1], GroupStrips(image, |mid|), 1);
    assert IsMerged(bins[2], GroupStrips(image, |mid|), 2);
  }

  /** The kernel over all groups. */
  method BufferKernel(image: nat -> Pixel, groups: nat) returns (mid: Intermediate)
    requires IsImage(image)
    ensures |mid| == groups && HasBins(mid) && Collected(mid, image)
  {
    mid := [];
    for g := 0 to groups
      invariant |mid| == g && HasBins(mid) && Collected(mid, image)
    {
      var strips := GroupStrips(image, g);
      GroupOfStrips(image, g);
      var bins := Group(strips, true);
      Collect(mid, image, bins);
      mid := mid + [bins];
    }
  }

  lemma UnpackedImage(data: nat -> nat)
    ensures IsImage(Unpacked(data))
  {
    forall i: nat ensures IsPixel(Unpacked(data)(i)) {
      assert Unpacked(data)(i) == Unpack(data(i));
    }
  }

  /** The kernel and the host's sums. */
  method BufferBins(image: nat -> Pixel, groups: nat) returns (deviceBins: seq<seq<int>>)
    requires IsImage(image)
    ensures HasThree(deviceBins)
    ensures forall c: nat, v: nat :: c < 3 && v < 256 ==> deviceBins[c][v] == BufferCount(image, groups, c, v)
  {
    var mid := BufferKernel(image, groups);
    forall c: nat, v: nat | c < 3 && v < 256
      ensures Sum(|mid|, GroupBins(mid, c, v)) == BufferCount(image, groups, c, v)
    {
      BufferBin(image, groups, c, v);
    }
    deviceBins := AddChannels(mid);
  }

  /** The whole program for a buffer of n packed pixels. */
  method BufferHistogram(data: nat -> nat, n: nat) returns (deviceBins: seq<seq<int>>)
    ensures HasThree(deviceBins)
    ensures forall c: nat, v: nat :: c < 3 && v < 256 ==>
              deviceBins[c][v] == BufferCount(Unpacked(data), n / 4096, c, v)
  {
    UnpackedImage(data);
    deviceBins := BufferBins(Unpacked(data), n / 4096);
  }

  /** Bin v is the true count exactly when no visited strip is constantly v. */
  lemma BufferExact(image: nat -> Pixel, groups: nat, c: nat, v: nat)
    ensures BufferCount(image, groups, c, v) == Sum(groups * GROUP * STRIP, PixelHas(image, c, v)) <==>
            forall s: nat :: s < groups * GROUP ==> !Constant(StripOf(image, s), c, v)
  {
    FlagsVanish(Strips(image), groups * GROUP, c, v);
    assert forall s: nat :: Strips(image)(s) == StripOf(image, s);
  }

  function Black(i: nat): Pixel {
    Pixel(0, 0, 0)
  }

  /** One group of black pixels: bin 0 of each channel is empty, where it should hold all 4096. */
  lemma BlackBuffer(c: nat)
    requires c < 3
    ensures Sum(1 * GROUP * STRIP, PixelHas(Black, c, 0)) == 4096 && BufferCount(Black, 1, c, 0) == 0
  {
    forall s: nat | s < 1 * GROUP ensures ConstantFlags(Strips(Black), c, 0)(s) == 1 {
      assert Strips(Black)(s) == StripOf(Black, s);
      assert Constant(StripOf(Black, s), c, 0);
    }
    SumConstant(1 * GROUP, ConstantFlags(Strips(Black), c, 0), 1);
    forall i: nat ensures PixelHas(Black, c, 0)(i) == 1 {
      assert Black(i) == Pixel(0, 0, 0);
    }
    SumConstant(1 * GROUP * STRIP, PixelHas(Black, c, 0), 1);
  }

  ghost function BufferCounts(image: nat -> Pixel, groups: nat, c: nat): nat -> int {
    (v: nat) => BufferCount(image, groups, c, v)
  }

  ghost function Shares(image: nat -> Pixel, c: nat): nat -> int {
    (s: nat) => StripShare(StripOf(image, s), c)
  }

  function BinTable(image: nat -> Pixel, c: nat): (nat, nat) -> int {
    (v: nat, s: nat) => ByteCount(StripOf(image, s), c, v)
  }

  lemma BinRow(image: nat -> Pixel, groups: nat, c: nat, v: nat)
    ensures BufferCounts(image, groups, c)(v) == RowSums(BinTable(image, c), groups * GROUP)(v)
  {
    StripsCoverPixels(image, groups * GROUP, c, v);
    SumSame(groups * GROUP, ByteCounts(Strips(image), c, v), Row(BinTable(image, c), v));
  }

  lemma BinColumn(image: nat -> Pixel, c: nat, s: nat)
    requires c < 3 && IsImage(image)
    ensures ColumnSums(BinTable(image, c), BINS)(s) == Shares(image, c)(s)
  {
    StripBinsTotal(StripOf(image, s), c);
    SumSame(BINS, Column(BinTable(image, c), s), StripBins(StripOf(image, s), c));
  }

  /** All bins of a channel together: 256 for every visited strip that is not constant. */
  lemma BufferTotal(image: nat -> Pixel, groups: nat, c: nat)
    requires c < 3 && IsImage(image)
    ensures Sum(BINS, BufferCounts(image, groups, c)) == Sum(groups * GROUP, Shares(image, c))
  {
    var strips, t := groups * GROUP, BinTable(image, c);
    forall v: nat | v < BINS ensures BufferCounts(image, groups, c)(v) == RowSums(t, strips)(v) {
      BinRow(image, groups, c, v);
    }
    forall s: nat | s < strips ensures Shares(image, c)(s) == ColumnSums(t, BINS)(s) {
      BinColumn(image, c, s);
    }
    SumByColumns(BINS, strips, t, BufferCounts(image, groups, c), Shares(image, c));
  }

  // ---------- chapter 4: a two-dimensional image ----------

  /** Row, column. */
  type Picture = (nat, nat) -> Pixel

  ghost predicate IsPicture(picture: Picture) {
    forall y: nat, x: nat :: IsPixel(picture(y, x))
  }

  /** Side of a tile in pixels, and of a work-group in tiles. */
  const SIDE: nat := 16
  const LOCAL: nat := 4

  /** The 16 by 16 tile of the work-item with global index (tx, ty), row by row. */
  function TileStrip(picture: Picture, ty: nat, tx: nat): Strip {
    (k: nat) => picture(ty * SIDE + k / SIDE, tx * SIDE + k % SIDE)
  }

  /** The tiles of a 4 by 4 work-group. */
  function GroupTiles(picture: Picture, gy: nat, gx: nat): nat -> Strip {
    (l: nat) => TileStrip(picture, gy * LOCAL + l / LOCAL, gx * LOCAL + l % LOCAL)
  }

  /** One for every pixel of the image whose channel has the value v. */
  function PictureHas(picture: Picture, c: nat, v: nat): (nat, nat) -> int {
    (y: nat, x: nat) => if Channel(picture(y, x), c) == v then 1 else 0
  }

  function TileCounts(picture: Picture, c: nat, v: nat): (nat, nat) -> int {
    (ty: nat, tx: nat) => ByteCount(TileStrip(picture, ty, tx), c, v)
  }

  ghost function ConstantTiles(picture: Picture, c: nat, v: nat): (nat, nat) -> int {
    (ty: nat, tx: nat) => if Constant(TileStrip(picture, ty, tx), c, v) then 1 else 0
  }

  function PictureGroups(picture: Picture, c: nat, v: nat): (nat, nat) -> int {
    (gy: nat, gx: nat) => GroupBin(GroupTiles(picture, gy, gx), c, v)
  }

  lemma TileInGroup(picture: Picture, c: nat, v: nat, gy: nat, gx: nat, l: nat)
    ensures ByteCounts(GroupTiles(picture, gy, gx), c, v)(l) ==
            RowMajor(Tile(TileCounts(picture, c, v), LOCAL, LOCAL, gy, gx), LOCAL)(l)
  {
    assert GroupTiles(picture, gy, gx)(l) == TileStrip(picture, gy * LOCAL + l / LOCAL, gx * LOCAL + l % LOCAL);
  }

  lemma GroupOfTiles(picture: Picture, c: nat, v: nat, gy: nat, gx: nat)
    ensures PictureGroups(picture, c, v)(gy, gx) == TileSums(TileCounts(picture, c, v), LOCAL, LOCAL)(gy, gx)
  {
    var tile := Tile(TileCounts(picture, c, v), LOCAL, LOCAL, gy, gx);
    forall l: nat | l < GROUP ensures ByteCounts(GroupTiles(picture, gy, gx), c, v)(l) == RowMajor(tile, LOCAL)(l) {
      TileInGroup(picture, c, v, gy, gx, l);
    }
    SumReadsTable(GROUP, ByteCounts(GroupTiles(picture, gy, gx), c, v), tile, LOCAL, LOCAL);
  }

  lemma PixelInTile(picture: Picture, c: nat, v: nat, ty: nat, tx: nat, k: nat)
    ensures Has(TileStrip(picture, ty, tx), c, v)(k) ==
            RowMajor(Tile(PictureHas(picture, c, v), SIDE, SIDE, ty, tx), SIDE)(k)
  {
  }

  lemma TileOfPixels(picture: Picture, c: nat, v: nat, ty: nat, tx: nat)
    ensures Sum(STRIP, Has(TileStrip(picture, ty, tx), c, v)) ==
            TileSums(PictureHas(picture, c, v), SIDE, SIDE)(ty, tx)
  {
    var tile := Tile(PictureHas(picture, c, v), SIDE, SIDE, ty, tx);
    forall k: nat | k < STRIP ensures Has(TileStrip(picture, ty, tx), c, v)(k) == RowMajor(tile, SIDE)(k) {
      PixelInTile(picture, c, v, ty, tx, k);
    }
    SumReadsTable(STRIP, Has(TileStrip(picture, ty, tx), c, v), tile, SIDE, SIDE);
  }

  /** Byte counts are true counts less 256 for a constant tile. */
  lemma TileCount(picture: Picture, c: nat, v: nat, ty: nat, tx: nat)
    ensures TileCounts(picture, c, v)(ty, tx) ==
            Combined(TileSums(PictureHas(picture, c, v), SIDE, SIDE), -256, ConstantTiles(picture, c, v))(ty, tx)
  {
    TileOfPixels(picture, c, v, ty, tx);
    ByteCountMisses(TileStrip(picture, ty, tx), c, v);
  }

  /** Bin v of the histogram of an image of gy by gx work-groups. */
  ghost function PictureCount(picture: Picture, gy: nat, gx: nat, c: nat, v: nat): int {
    TableSum(PictureHas(picture, c, v), gy * LOCAL * SIDE, gx * LOCAL * SIDE)
    - 256 * TableSum(ConstantTiles(picture, c, v), gy * LOCAL, gx * LOCAL)
  }

  lemma TilesCoverPixels(picture: Picture, m: nat, n: nat, c: nat, v: nat)
    ensures TableSum(TileCounts(picture, c, v), m, n) ==
            TableSum(PictureHas(picture, c, v), m * SIDE, n * SIDE) - 256 * TableSum(ConstantTiles(picture, c, v), m, n)
  {
    var pixels, flags := TileSums(PictureHas(picture, c, v), SIDE, SIDE), ConstantTiles(picture, c, v);
    forall ty: nat, tx: nat ensures TileCounts(picture, c, v)(ty, tx) == Combined(pixels, -256, flags)(ty, tx) {
      TileCount(picture, c, v, ty, tx);
    }
    TableSame(TileCounts(picture, c, v), Combined(pixels, -256, flags), m, n);
    TableCombined(pixels, -256, flags, m, n);
    SumTiled(PictureHas(picture, c, v), SIDE, SIDE, m, n);
  }

  /** The work-groups cover the tiles, and the tiles the image. */
  lemma PictureBin(picture: Picture, gy: nat, gx: nat, c: nat, v: nat)
    ensures TableSum(PictureGroups(picture, c, v), gy, gx) == PictureCount(picture, gy, gx, c, v)
  {
    var tiles := TileCounts(picture, c, v);
    forall y: nat, x: nat ensures PictureGroups(picture, c, v)(y, x) == TileSums(tiles, LOCAL, LOCAL)(y, x) {
      GroupOfTiles(picture, c, v, y, x);
    }
    TableSame(PictureGroups(picture, c, v), TileSums(tiles, LOCAL, LOCAL), gy, gx);
    SumTiled(tiles, LOCAL, LOCAL, gy, gx);
    TilesCoverPixels(picture, gy * LOCAL, gx * LOCAL, c, v);
  }

  /** Bin v is the true count exactly when no tile is constantly v. */
  lemma PictureExact(picture: Picture, gy: nat, gx: nat, c: nat, v: nat)
    ensures PictureCount(picture, gy, gx, c, v) ==
            TableSum(PictureHas(picture, c, v), gy * LOCAL * SIDE, gx * LOCAL * SIDE) <==>
            forall ty: nat, tx: nat :: ty < gy * LOCAL && tx < gx * LOCAL ==>
              !Constant(TileStrip(picture, ty, tx), c, v)
  {
    TableVanishes(ConstantTiles(picture, c, v), gy * LOCAL, gx * LOCAL);
    assert forall ty: nat, tx: nat :: ConstantTiles(picture, c, v)(ty, tx) == 0 <==>
                                      !Constant(TileStrip(picture, ty, tx), c, v);
  }

  function BlackPicture(y: nat, x: nat): Pixel {
    Pixel(0, 0, 0)
  }

  lemma BlackCell(c: nat, y: nat, x: nat)
    ensures PictureHas(BlackPicture, c, 0)(y, x) == 1
  {
    assert Channel(BlackPicture(y, x), c) == 0;
  }

  lemma BlackTile(c: nat, ty: nat, tx: nat)
    ensures ConstantTiles(BlackPicture, c, 0)(ty, tx) == 1
  {
    assert Constant(TileStrip(BlackPicture, ty, tx), c, 0);
  }

  /** One group of 64 by 64 black pixels: the same. */
  lemma BlackTiles(c: nat)
    requires c < 3
    ensures TableSum(PictureHas(BlackPicture, c, 0), 1 * LOCAL * SIDE, 1 * LOCAL * SIDE) == 4096
    ensures PictureCount(BlackPicture, 1, 1, c, 0) == 0
  {
    forall y: nat, x: nat ensures PictureHas(BlackPicture, c, 0)(y, x) == 1 {
      BlackCell(c, y, x);
    }
    forall ty: nat, tx: nat ensures ConstantTiles(BlackPicture, c, 0)(ty, tx) == 1 {
      BlackTile(c, ty, tx);
    }
    TableConstant(PictureHas(BlackPicture, c, 0), 1 * LOCAL * SIDE, 1 * LOCAL * SIDE, 1);
    TableConstant(ConstantTiles(BlackPicture, c, 0), 1 * LOCAL, 1 * LOCAL, 1);
  }

  function TileBins(picture: Picture, c: nat): (nat, nat, nat) -> int {
    (v: nat, ty: nat, tx: nat) => ByteCount(TileStrip(picture, ty, tx), c, v)
  }

  ghost function TileShares(picture: Picture, c: nat): (nat, nat) -> int {
    (ty: nat, tx: nat) => StripShare(TileStrip(picture, ty, tx), c)
  }

  ghost function PictureCounts(picture: Picture, gy: nat, gx: nat, c: nat): nat -> int {
    (v: nat) => PictureCount(picture, gy, gx, c, v)
  }

  lemma TileShare(picture: Picture, c: nat, ty: nat, tx: nat)
    requires c < 3 && IsPicture(picture)
    ensures Pile(TileBins(picture, c), BINS)(ty, tx) == TileShares(picture, c)(ty, tx)
  {
    StripBinsTotal(TileStrip(picture, ty, tx), c);
    SumSame(BINS, Through(TileBins(picture, c), ty, tx), StripBins(TileStrip(picture, ty, tx), c));
  }

  lemma PictureSheet(picture: Picture, gy: nat, gx: nat, c: nat, v: nat)
    ensures PictureCounts(picture, gy, gx, c)(v) == SheetSums(TileBins(picture, c), gy * LOCAL, gx * LOCAL)(v)
  {
    TilesCoverPixels(picture, gy * LOCAL, gx * LOCAL, c, v);
    TableSame(TileCounts(picture, c, v), Sheet(TileBins(picture, c), v), gy * LOCAL, gx * LOCAL);
  }

  /** All bins of a channel together: 256 for every tile that is not constant. */
  lemma PictureTotal(picture: Picture, gy: nat, gx: nat, c: nat)
    requires c < 3 && IsPicture(picture)
    ensures Sum(BINS, PictureCounts(picture, gy, gx, c)) == TableSum(TileShares(picture, c), gy * LOCAL, gx * LOCAL)
  {
    var f, m, n := TileBins(picture, c), gy * LOCAL, gx * LOCAL;
    forall v: nat | v < BINS ensures PictureCounts(picture, gy, gx, c)(v) == SheetSums(f, m, n)(v) {
      PictureSheet(picture, gy, gx, c, v);
    }
    SumSame(BINS, PictureCounts(picture, gy, gx, c), SheetSums(f, m, n));
    SumOfSheets(f, BINS, m, n);
    forall ty: nat, tx: nat ensures Pile(f, BINS)(ty, tx) == TileShares(picture, c)(ty, tx) {
      TileShare(picture, c, ty, tx);
    }
    TableSame(Pile(f, BINS), TileShares(picture, c), m, n);
  }

  /** The rows written before work-group (x, y), in the order of the offsets y * gx + x. */
  ghost predicate CollectedTiles(mid: Intermediate, picture: Picture, gx: nat, y: nat, x: nat) {
    forall c: nat, v: nat :: c < 3 && v < 256 ==> TilesInBin(mid, picture, gx, y, x, c, v)
  }

  ghost predicate TilesInBin(mid: Intermediate, picture: Picture, gx: nat, y: nat, x: nat, c: nat, v: nat) {
    Sum(|mid|, GroupBins(mid, c, v)) ==
    TableSum(PictureGroups(picture, c, v), y, gx) + Sum(x, Row(PictureGroups(picture, c, v), y))
  }

  lemma CollectTile(mid: Intermediate, picture: Picture, gx: nat, y: nat, x: nat, bins: seq<seq<int>>, c: nat, v: nat)
    requires TilesInBin(mid, picture, gx, y, x, c, v) && c < |bins| && v < 256
    requires IsMerged(bins[c], GroupTiles(picture, y, x), c)
    ensures TilesInBin(mid + [bins], picture, gx, y, x + 1, c, v)
  {
    AppendGroup(mid, bins, c, v);
    assert PictureGroups(picture, c, v)(y, x) == bins[c][v];
  }

  lemma CollectTiles(mid: Intermediate, picture: Picture, gx: nat, y: nat, x: nat, bins: seq<seq<int>>, next: nat)
    requires CollectedTiles(mid, picture, gx, y, x) && |bins| == 3 && next == x + 1
    requires forall c: nat :: c < 3 ==> IsMerged(bins[c], GroupTiles(picture, y, x), c)
    ensures CollectedTiles(mid + [bins], picture, gx, y, next) && HasThree(bins)
  {
    var after := mid + [bins];
    forall c: nat, v: nat | c < 3 && v < 256 ensures TilesInBin(after, picture, gx, y, next, c, v) {
      CollectTile(mid, picture, gx, y, x, bins, c, v);
    }
    assert IsMerged(bins[0], GroupTiles(picture, y, x), 0) && IsMerged(bins[1], GroupTiles(picture, y, x), 1);
    assert IsMerged(bins[2], GroupTiles(picture, y, x), 2);
  }

  lemma RowCollected(mid: Intermediate, picture: Picture, gx: nat, y: nat, c: nat, v: nat)
    requires TilesInBin(mid, picture, gx, y, gx, c, v)
    ensures TilesInBin(mid, picture, gx, y + 1, 0, c, v)
  {
    assert Sum(gx, Row(PictureGroups(picture, c, v), y)) == RowSums(PictureGroups(picture, c, v), gx)(y);
  }

  lemma NextRow(mid: Intermediate, picture: Picture, gx: nat, y: nat, next: nat)
    requires CollectedTiles(mid, picture, gx, y, gx) && next == y + 1
    ensures CollectedTiles(mid, picture, gx, next, 0)
  {
    forall c: nat, v: nat | c < 3 && v < 256 ensures TilesInBin(mid, picture, gx, next, 0, c, v) {
      RowCollected(mid, picture, gx, y, c, v);
    }
  }

  lemma OffsetStep(y: nat, gx: nat)
    ensures (y + 1) * gx == y * gx + gx
  {
  }

  /** All rows of bins are in place that were written before work-group (x, y). */
  ghost predicate InPlace(mid: Intermediate, count: nat, picture: Picture, gx: nat, y: nat, x: nat) {
    |mid| == count && HasBins(mid) && CollectedTiles(mid, picture, gx, y, x)
  }

  method PictureGroup(done: Intermediate, picture: Picture, gx: nat, y: nat, x: nat, ghost next: nat, ghost count: nat)
    returns (mid: Intermediate)
    requires IsPicture(picture) && InPlace(done, count, picture, gx, y, x) && next == x + 1
    ensures InPlace(mid, count + 1, picture, gx, y, next)
  {
    var bins := Group(GroupTiles(picture, y, x), false);
    CollectTiles(done, picture, gx, y, x, bins, next);
    mid := done + [bins];
  }

  /** One row of work-groups. */
  method PictureRow(done: Intermediate, picture: Picture, gx: nat, y: nat, ghost next: nat, ghost count: nat)
    returns (mid: Intermediate)
    requires IsPicture(picture) && InPlace(done, count, picture, gx, y, 0) && next == y + 1
    ensures InPlace(mid, count + gx, picture, gx, next, 0)
  {
    mid := done;
    for x := 0 to gx
      invariant InPlace(mid, count + x, picture, gx, y, x)
    {
      mid := PictureGroup(mid, picture, gx, y, x, x + 1, count + x);
    }
    NextRow(mid, picture, gx, y, next);
  }

  function Groups(gy: nat, gx: nat): nat {
    gy * gx
  }

  /** The kernel over all groups of a gy by gx grid. */
  method PictureKernel(picture: Picture, gy: nat, gx: nat) returns (mid: Intermediate)
    requires IsPicture(picture)
    ensures InPlace(mid, Groups(gy, gx), picture, gx, gy, 0)
  {
    mid := [];
    for y := 0 to gy
      invariant InPlace(mid, Groups(y, gx), picture, gx, y, 0)
    {
      mid := PictureRow(mid, picture, gx, y, y + 1, Groups(y, gx));
      OffsetStep(y, gx);
    }
  }

  // ---------- sizes of images ----------

  /** The launch is accepted for sides of which the blocks of 16 fill whole work-groups of 4. */
  predicate Fits(side: nat) {
    side / 16 % 4 == 0
  }

  /** A work-group is 64 pixels wide and high; less than a block of 16 is left over. */
  lemma GroupsPerSide(side: nat)
    ensures side / 16 / 4 == side / 64
    ensures Fits(side) <==> side % 64 < 16
  {
  }

  /** Rows of the intermediate buffers, which the host reads altogether. */
  function RowsRead(width: nat, height: nat): nat {
    width * height / (16 * 16 * 16)
  }

  lemma AreaSplits(a: nat, r: nat, b: nat, q: nat)
    ensures (64 * a + r) * (64 * b + q) == 4096 * (b * a) + (64 * (a * q + b * r) + r * q)
  {
    assert (64 * a + r) * (64 * b + q) == (64 * a) * (64 * b) + (64 * a) * q + r * (64 * b) + r * q;
  }

  /** The pixels that no work-item visits. */
  function LeftOver(width: nat, height: nat): nat {
    64 * (width / 64 * (height % 64) + height / 64 * (width % 64)) + width % 64 * (height % 64)
  }

  /** The host never reads fewer rows than the work-groups write, and no other rows exactly when fewer than 4096
      pixels are left over. */
  lemma RowsReadAreWritten(width: nat, height: nat)
    ensures height / 64 * (width / 64) <= RowsRead(width, height)
    ensures RowsRead(width, height) == height / 64 * (width / 64) <==> LeftOver(width, height) < 4096
    ensures width % 64 == 0 && height % 64 == 0 ==> LeftOver(width, height) == 0
  {
    AreaSplits(width / 64, width % 64, height / 64, height % 64);
    WholeRows(width * height, height / 64 * (width / 64), LeftOver(width, height));
  }

  lemma WholeRows(area: nat, rows: nat, rest: nat)
    requires area == 4096 * rows + rest
    ensures rows <= area / 4096 && (area / 4096 == rows <==> rest < 4096)
  {
  }

  /** An image that is launched, with 9 rows read and 8 written. */
  lemma RowNeverWritten()
    ensures Fits(143) && Fits(271) && RowsRead(143, 271) == 9 && 271 / 64 * (143 / 64) == 8
  {
  }

  /** What the buffers hold where no work-group writes. */
  type Unwritten = (nat, nat, nat) -> int

  function UnwrittenBins(junk: Unwritten, from: nat, c: nat, v: nat): nat -> int {
    (i: nat) => junk(from + i, c, v)
  }

  function UnwrittenRow(junk: Unwritten, w: nat): (row: seq<seq<int>>)
    ensures HasThree(row)
  {
    seq(3, (c: nat) => seq(256, (v: nat) => junk(w, c, v)))
  }

  /** The rows from |mid| on, as they were. */
  method WithUnwritten(mid: Intermediate, junk: Unwritten, count: nat) returns (rows: Intermediate)
    requires HasBins(mid)
    ensures |rows| == |mid| + count && HasBins(rows)
    ensures forall c: nat, v: nat :: c < 3 && v < 256 ==>
              Sum(|rows|, GroupBins(rows, c, v)) ==
              Sum(|mid|, GroupBins(mid, c, v)) + Sum(count, UnwrittenBins(junk, |mid|, c, v))
  {
    rows := mid;
    for i := 0 to count
      invariant |rows| == |mid| + i && HasBins(rows)
      invariant forall c: nat, v: nat :: c < 3 && v < 256 ==>
                  Sum(|rows|, GroupBins(rows, c, v)) ==
                  Sum(|mid|, GroupBins(mid, c, v)) + Sum(i, UnwrittenBins(junk, |mid|, c, v))
    {
      var row := UnwrittenRow(junk, |mid| + i);
      forall c: nat, v: nat | c < 3 && v < 256
        ensures Sum(|rows + [row]|, GroupBins(rows + [row], c, v)) ==
                Sum(|mid|, GroupBins(mid, c, v)) + Sum(i + 1, UnwrittenBins(junk, |mid|, c, v))
      {
        AppendGroup(rows, row, c, v);
      }
      rows := rows + [row];
    }
  }

  // ---------- the whole program of chapter 4 ----------

  /** The host's sums over the rows that were written and those that were not. */
  ghost predicate SumsOfRows(deviceBins: seq<seq<int>>, mid: Intermediate, junk: Unwritten, more: nat) {
    HasThree(deviceBins) &&
    forall c: nat, v: nat :: c < 3 && v < 256 ==> deviceBins[c][v] == RowTotal(mid, junk, more, c, v)
  }

  function RowTotal(mid: Intermediate, junk: Unwritten, more: nat, c: nat, v: nat): int {
    Sum(|mid|, GroupBins(mid, c, v)) + Sum(more, UnwrittenBins(junk, |mid|, c, v))
  }

  method AddRows(mid: Intermediate, junk: Unwritten, more: nat) returns (deviceBins: seq<seq<int>>)
    requires HasBins(mid)
    ensures SumsOfRows(deviceBins, mid, junk, more)
  {
    var buffers := WithUnwritten(mid, junk, more);
    deviceBins := AddChannels(buffers);
  }

  /** The counts of gy by gx work-groups, and what the given number of rows held that none of them wrote. */
  ghost predicate CountsAndRows(deviceBins: seq<seq<int>>, picture: Picture, gy: nat, gx: nat, junk: Unwritten,
                                written: nat, more: nat) {
    HasThree(deviceBins) &&
    forall c: nat, v: nat :: c < 3 && v < 256 ==>
      deviceBins[c][v] == CountAndRows(picture, gy, gx, junk, written, more, c, v)
  }

  ghost function CountAndRows(picture: Picture, gy: nat, gx: nat, junk: Unwritten, written: nat, more: nat, c: nat,
                              v: nat): int {
    PictureCount(picture, gy, gx, c, v) + Sum(more, UnwrittenBins(junk, written, c, v))
  }

  lemma CollectedBin(mid: Intermediate, picture: Picture, gy: nat, gx: nat, c: nat, v: nat)
    requires CollectedTiles(mid, picture, gx, gy, 0) && c < 3 && v < 256
    ensures Sum(|mid|, GroupBins(mid, c, v)) == PictureCount(picture, gy, gx, c, v)
  {
    assert TilesInBin(mid, picture, gx, gy, 0, c, v);
    PictureBin(picture, gy, gx, c, v);
  }

  lemma CollectedBins(deviceBins: seq<seq<int>>, mid: Intermediate, picture: Picture, gy: nat, gx: nat, junk: Unwritten,
                      more: nat)
    requires CollectedTiles(mid, picture, gx, gy, 0) && SumsOfRows(deviceBins, mid, junk, more)
    ensures CountsAndRows(deviceBins, picture, gy, gx, junk, |mid|, more)
  {
    forall c: nat, v: nat | c < 3 && v < 256
      ensures deviceBins[c][v] == CountAndRows(picture, gy, gx, junk, |mid|, more, c, v)
    {
      CollectedBin(mid, picture, gy, gx, c, v);
    }
  }

  /** The kernel and the host's sums over the given number of rows. */
  method PictureBins(picture: Picture, gy: nat, gx: nat, junk: Unwritten, rows: nat) returns (deviceBins: seq<seq<int>>)
    requires IsPicture(picture) && Groups(gy, gx) <= rows
    ensures CountsAndRows(deviceBins, picture, gy, gx, junk, Groups(gy, gx), rows - Groups(gy, gx))
  {
    var mid := PictureKernel(picture, gy, gx);
    var more := rows - |mid|;
    deviceBins := AddRows(mid, junk, more);
    CollectedBins(deviceBins, mid, picture, gy, gx, junk, more);
  }

  /** Bin v as the host computes it: the count over the visited pixels less 256 for every constant tile, and
      whatever the rows hold that are read but never written. */
  ghost function HostBin(picture: Picture, width: nat, height: nat, junk: Unwritten, c: nat, v: nat): int
    requires height / 64 * (width / 64) <= RowsRead(width, height)
  {
    var written := height / 64 * (width / 64);
    CountAndRows(picture, height / 64, width / 64, junk, written, RowsRead(width, height) - written, c, v)
  }

  /** The whole program, for every image that is launched. */
  method PictureHistogram(picture: Picture, width: nat, height: nat, junk: Unwritten)
    returns (deviceBins: seq<seq<int>>)
    requires IsPicture(picture) && Fits(width) && Fits(height)
    ensures HasThree(deviceBins) && height / 64 * (width / 64) <= RowsRead(width, height)
    ensures forall c: nat, v: nat :: c < 3 && v < 256 ==>
              deviceBins[c][v] == HostBin(picture, width, height, junk, c, v)
  {
    GroupsPerSide(width);
    GroupsPerSide(height);
    RowsReadAreWritten(width, height);
    deviceBins := PictureBins(picture, height / 16 / 4, width / 16 / 4, junk, RowsRead(width, height));
  }

  /** When fewer than 4096 pixels are left over, what the buffers held before does not matter. */
  lemma OnlyWrittenRows(picture: Picture, width: nat, height: nat, junk: Unwritten, c: nat, v: nat)
    requires LeftOver(width, height) < 4096
    ensures height / 64 * (width / 64) <= RowsRead(width, height)
    ensures HostBin(picture, width, height, junk, c, v) == PictureCount(picture, height / 64, width / 64, c, v)
  {
    RowsReadAreWritten(width, height);
  }

  /** Otherwise it does: two contents of the buffers give two results. */
  lemma UnwrittenRowsMatter(picture: Picture, width: nat, height: nat, c: nat, v: nat)
    requires LeftOver(width, height) >= 4096
    ensures height / 64 * (width / 64) < RowsRead(width, height)
    ensures HostBin(picture, width, height, (w, d, u) => 1, c, v) !=
            HostBin(picture, width, height, (w, d, u) => 0, c, v)
  {
    RowsReadAreWritten(width, height);
    var written := height / 64 * (width / 64);
    var n := RowsRead(width, height) - written;
    SumConstant(n, UnwrittenBins((w, d, u) => 1, written, c, v), 1);
    SumConstant(n, UnwrittenBins((w, d, u) => 0, written, c, v), 0);
  }

  /** For sides that are multiples of 64 the bin counts the whole image. */
  lemma WholeImage(picture: Picture, width: nat, height: nat, junk: Unwritten, c: nat, v: nat)
    requires width % 64 == 0 && height % 64 == 0
    ensures height / 64 * (width / 64) <= RowsRead(width, height)
    ensures HostBin(picture, width, height, junk, c, v) ==
            TableSum(PictureHas(picture, c, v), height, width) -
            256 * TableSum(ConstantTiles(picture, c, v), height / 16, width / 16)
  {
    RowsReadAreWritten(width, height);
    OnlyWrittenRows(picture, width, height, junk, c, v);
    assert height / 64 * LOCAL * SIDE == height && width / 64 * LOCAL * SIDE == width;
    assert height / 64 * LOCAL == height / 16 && width / 64 * LOCAL == width / 16;
  }
}
