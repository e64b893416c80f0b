/** The histograms of chapter 8: work-groups of 256 work-items that walk the image with a stride and count
    the x channel with atomic increments on a shared array, and the host's sum over the groups. */
module AtomicHistogram {
  import opened Powers
  import opened Sums

  /** The x channel of the pixel at an index; what lies beyond the image is arbitrary. */
  type Image = nat -> nat

  ghost predicate IsImage(image: Image) {
    forall i: nat :: image(i) < 256
  }

  // ---------- atomic increments under any scheduler ----------

  /** Occurrences of b in the programs of the first n work-items. */
  function CountAll(work: seq<seq<nat>>, b: nat): nat {
    if work == [] then 0 else CountIn(work[0], b) + CountAll(work[1..], b)
  }

  function Outstanding(work: seq<seq<nat>>): nat {
    if work == [] then 0 else |work[0]| + Outstanding(work[1..])
  }

  lemma {:induction false} FirstDone(work: seq<seq<nat>>, i: nat, b: nat)
    requires i < |work| && work[i] != []
    ensures CountAll(work, b) == CountAll(work[i := work[i][1..]], b) + if work[i][0] == b then 1 else 0
    ensures Outstanding(work[i := work[i][1..]]) < Outstanding(work)
  {
    if i == 0 {
      assert work[0 := work[0][1..]][1..] == work[1..];
    } else {
      FirstDone(work[1..], i - 1, b);
      assert work[i := work[i][1..]][1..] == work[1..][i - 1 := work[1..][i - 1][1..]];
    }
  }

  lemma {:induction false} NothingLeft(work: seq<seq<nat>>, b: nat)
    requires forall i :: 0 <= i < |work| ==> work[i] == []
    ensures CountAll(work, b) == 0
  {
    if work != [] {
      NothingLeft(work[1..], b);
    }
  }

  /** As long as a work-item has increments left, the scheduler lets any one of them do its next. Whatever
      it picks, every cell ends increased by the number of times the work-items address it. */
  method AtomicLaunch(shared: array<nat>, programs: seq<seq<nat>>)
    requires forall i, k :: 0 <= i < |programs| && 0 <= k < |programs[i]| ==> programs[i][k] < shared.Length
    modifies shared
    ensures forall b :: 0 <= b < shared.Length ==> shared[b] == old(shared[b]) + CountAll(programs, b)
  {
    var work := programs;
    while exists i :: 0 <= i < |work| && work[i] != []
      invariant forall i, k :: 0 <= i < |work| && 0 <= k < |work[i]| ==> work[i][k] < shared.Length
      invariant forall b :: 0 <= b < shared.Length ==>
                  shared[b] + CountAll(work, b) == old(shared[b]) + CountAll(programs, b)
      decreases Outstanding(work)
    {
      var i :| 0 <= i < |work| && work[i] != [];
      var cell := work[i][0];
      forall b: nat ensures CountAll(work, b) == CountAll(work[i := work[i][1..]], b) + (if cell == b then 1 else 0) {
        FirstDone(work, i, b);
      }
      FirstDone(work, i, 0);
      shared[cell] := shared[cell] + 1;
      work := work[i := work[i][1..]];
    }
    forall b | 0 <= b < shared.Length ensures CountAll(work, b) == 0 {
      NothingLeft(work, b);
    }
  }

  // ---------- one work-group ----------

  /** One for every pixel up to the limit that falls into bin b. */
  function Hits(image: Image, limit: nat, b: nat): nat -> int {
    (i: nat) => if i <= limit && image(i) == b then 1 else 0
  }

  /** The bins that work-item l of a group increments in its first steps. */
  function Visits(image: Image, limit: nat, offset: nat, l: nat, steps: nat): seq<nat> {
    if steps == 0 then []
    else
      var index := offset + (steps - 1) * 256 + l;
      Visits(image, limit, offset, l, steps - 1) + if index <= limit then [image(index)] else []
  }

  /** The hits of a group, as a table of steps and work-items. */
  function GroupTable(image: Image, limit: nat, b: nat, offset: nat): (nat, nat) -> int {
    Rows(Shifted(Hits(image, limit, b), offset), 256)
  }

  lemma {:induction false} VisitsCount(image: Image, limit: nat, b: nat, offset: nat, l: nat, steps: nat)
    ensures CountIn(Visits(image, limit, offset, l, steps), b) ==
            Sum(steps, Column(GroupTable(image, limit, b, offset), l))
  {
    if steps > 0 {
      VisitsCount(image, limit, b, offset, l, steps - 1);
      var index := offset + (steps - 1) * 256 + l;
      var last := if index <= limit then [image(index)] else [];
      CountAppend(Visits(image, limit, offset, l, steps - 1), last, b);
      assert Column(GroupTable(image, limit, b, offset), l)(steps - 1) == Hits(image, limit, b)(index);
      assert CountIn(last, b) == Hits(image, limit, b)(index);
    }
  }

  /** Once the index has passed the limit, the remaining steps add nothing. */
  lemma {:induction false} VisitsStop(image: Image, limit: nat, offset: nat, l: nat, steps: nat, more: nat)
    requires steps <= more && offset + steps * 256 + l > limit
    ensures Visits(image, limit, offset, l, more) == Visits(image, limit, offset, l, steps)
  {
    if steps < more {
      VisitsStop(image, limit, offset, l, steps, more - 1);
    }
  }

  lemma {:induction false} VisitsAreBins(image: Image, limit: nat, offset: nat, l: nat, steps: nat)
    requires IsImage(image)
    ensures forall k :: 0 <= k < |Visits(image, limit, offset, l, steps)| ==>
              Visits(image, limit, offset, l, steps)[k] < 256
  {
    if steps > 0 {
      VisitsAreBins(image, limit, offset, l, steps - 1);
    }
  }

  /** The loop of the kernel: the increments of one work-item, in order. */
  method WorkItem(image: Image, limit: nat, offset: nat, l: nat, elements: int) returns (bins: seq<nat>)
    ensures bins == Visits(image, limit, offset, l, if elements < 0 then 0 else elements)
  {
    bins := [];
    var i := 0;
    while i < elements
      invariant 0 <= i && (i <= elements || i == 0)
      invariant bins == Visits(image, limit, offset, l, i)
    {
      var index := offset + i * 256 + l;
      if index > limit {
        VisitsStop(image, limit, offset, l, i, elements);
        break;
      }
      bins := bins + [image(index)];
      i := i + 1;
    }
  }

  lemma {:induction false} ProgramsCount(image: Image, limit: nat, b: nat, offset: nat, steps: nat,
                                         programs: seq<seq<nat>>, l: nat)
    requires l <= |programs|
    requires forall i: nat :: i < |programs| ==> programs[i] == Visits(image, limit, offset, i, steps)
    ensures CountAll(programs[..l], b) == Sum(l, ColumnSums(GroupTable(image, limit, b, offset), steps))
  {
    if l == 0 {
      assert programs[..0] == [];
    } else {
      ProgramsCount(image, limit, b, offset, steps, programs, l - 1);
      assert programs[..l] == programs[..l - 1] + [programs[l - 1]];
      CountAllAppend(programs[..l - 1], [programs[l - 1]], b);
      VisitsCount(image, limit, b, offset, l - 1, steps);
      assert ColumnSums(GroupTable(image, limit, b, offset), steps)(l - 1) ==
             Sum(steps, Column(GroupTable(image, limit, b, offset), l - 1));
    }
  }

  lemma {:induction false} CountAllAppend(s: seq<seq<nat>>, t: seq<seq<nat>>, b: nat)
    ensures CountAll(s + t, b) == CountAll(s, b) + CountAll(t, b)
  {
    if s == [] {
      assert s + t == t;
    } else {
      assert (s + t)[1..] == s[1..] + t;
      CountAllAppend(s[1..], t, b);
    }
  }

  lemma ProgramsCountHits(image: Image, limit: nat, b: nat, offset: nat, steps: nat, programs: seq<seq<nat>>)
    requires |programs| == 256
    requires forall i: nat :: i < |programs| ==> programs[i] == Visits(image, limit, offset, i, steps)
    ensures CountAll(programs, b) == Sum(steps * 256, Shifted(Hits(image, limit, b), offset))
  {
    ProgramsCount(image, limit, b, offset, steps, programs, 256);
    assert programs[..256] == programs;
    SumStrided(steps, 256, Shifted(Hits(image, limit, b), offset));
  }

  method Programs(image: Image, limit: nat, offset: nat, elements: int) returns (programs: seq<seq<nat>>)
    requires IsImage(image)
    ensures |programs| == 256
    ensures forall i: nat :: i < 256 ==>
              programs[i] == Visits(image, limit, offset, i, if elements < 0 then 0 else elements)
    ensures forall i, k :: 0 <= i < |programs| && 0 <= k < |programs[i]| ==> programs[i][k] < 256
  {
    ghost var steps := if elements < 0 then 0 else elements;
    programs := [];
    for l := 0 to 256
      invariant |programs| == l
      invariant forall i: nat :: i < l ==> programs[i] == Visits(image, limit, offset, i, steps)
    {
      var bins := WorkItem(image, limit, offset, l, elements);
      programs := programs + [bins];
    }
    forall i, k | 0 <= i < |programs| && 0 <= k < |programs[i]| ensures programs[i][k] < 256 {
      VisitsAreBins(image, limit, offset, i, steps);
    }
  }

  /** One work-group: clear, count, write out. Its bins are the hits in a contiguous stretch of the image,
      and the arrays for G and B receive the same values as the one for R. */
  method Group(image: Image, limit: nat, offset: nat, elements: int)
      returns (binR: seq<nat>, binG: seq<nat>, binB: seq<nat>)
    requires IsImage(image)
    ensures |binR| == 256 && binG == binR && binB == binR
    ensures forall b: nat :: b < 256 ==>
              binR[b] == Sum((if elements < 0 then 0 else elements) * 256, Shifted(Hits(image, limit, b), offset))
  {
    var shared := new nat[256](_ => 0);
    var programs := Programs(image, limit, offset, elements);
    AtomicLaunch(shared, programs);
    binR := shared[..];
    binG := shared[..];
    binB := shared[..];
    forall b: nat | b < 256
      ensures binR[b] == Sum((if elements < 0 then 0 else elements) * 256, Shifted(Hits(image, limit, b), offset))
    {
      ProgramsCountHits(image, limit, b, offset, if elements < 0 then 0 else elements, programs);
    }
  }

  // ---------- the persistent groups of histogram_cu.cpp ----------

  /** Elements per work-item as the host computes them. */
  function Elements(total: nat, groups: nat): nat
    requires groups > 0
  {
    (total + groups * 256 - 1) / (groups * 256)
  }

  /** The least number with which the work-items reach every pixel. */
  lemma ElementsSuffice(total: nat, groups: nat)
    requires groups > 0
    ensures var e, n := Elements(total, groups), groups * 256;
            total <= e * n && forall k: nat :: total <= k * n ==> e <= k
  {
    var e, n := Elements(total, groups), groups * 256;
    DivisionEquation(total + n - 1, n);
    forall k: nat | total <= k * n ensures e <= k {
      if k < e {
        MulMonotone(k + 1, e, n);
      }
    }
  }

  /** Elements per work-item of the last group. When the group starts past the image the kernel mixes
      signed and unsigned arithmetic: any value may result. */
  function LastElements(total: nat, offset: nat, wrapped: int): int {
    if offset <= total then (total - offset + 256 - 1) / 256 else wrapped
  }

  /** Pixels in bin b: the sequential histogram. */
  function Histogram(image: Image, total: nat, b: nat): int {
    Sum(total, Hits(image, total, b))
  }

  /** It counts the pixels of the image with that value. */
  lemma HistogramCounts(image: Image, total: nat, b: nat)
    ensures Histogram(image, total, b) == |set i: nat | i < total && image(i) == b|
  {
    var p := (i: nat) => image(i) == b;
    SumCounts(total, Hits(image, total, b), p);
    assert (set i: nat | i < total && p(i)) == set i: nat | i < total && image(i) == b;
  }

  /** The image ends where the last group starts or later, and is made of full rows of 256 pixels. */
  predicate EndsOnRow(total: nat, groups: nat)
    requires groups > 0
  {
    total % 256 == 0 && total >= (groups - 1) * (256 * Elements(total, groups))
  }

  /** Beyond the index the guard still admits there are no hits. */
  lemma {:induction false} NoHitsBeyond(image: Image, total: nat, b: nat, n: nat)
    requires n > total
    ensures Sum(n, Hits(image, total, b)) == Histogram(image, total, b) + if image(total) == b then 1 else 0
  {
    if n > total + 1 {
      NoHitsBeyond(image, total, b, n - 1);
    }
  }

  /** The stretches of all groups together. */
  lemma StretchesTogether(g: nat -> int, groups: nat, stretch: nat, last: nat)
    ensures Sum(groups, RowSums(Rows(g, stretch), stretch)) + Sum(last, Shifted(g, groups * stretch)) ==
            Sum(groups * stretch + last, g)
  {
    SumFlatten(groups, stretch, g);
    SumSplit(groups * stretch, last, g);
  }

  lemma MultipleOf256(a: nat, e: nat)
    ensures (a * (256 * e)) % 256 == 0
  {
    assert a * (256 * e) == (a * e) * 256;
  }

  lemma LastStretchEnds(total: nat, offset: nat, wrapped: int)
    requires offset % 256 == 0
    ensures var e := LastElements(total, offset, wrapped);
            var end := offset + (if e < 0 then 0 else e) * 256;
            if total % 256 == 0 && total >= offset then end == total else end > total
  {
  }

  /** Where the last group starts. */
  function LastOffset(total: nat, groups: nat): nat
    requires groups > 0
  {
    (groups - 1) * (256 * Elements(total, groups))
  }

  /** All cells walked over by all groups, from the first on. */
  function Walked(total: nat, groups: nat, wrapped: int): nat
    requires groups > 0
  {
    var e := LastElements(total, LastOffset(total, groups), wrapped);
    LastOffset(total, groups) + (if e < 0 then 0 else e) * 256
  }

  /** The groups' stretches end exactly at the image's end, or else they include the cell after it. */
  lemma WhereTheWalkEnds(total: nat, groups: nat, wrapped: int)
    requires groups > 0
    ensures if EndsOnRow(total, groups) then Walked(total, groups, wrapped) == total
            else Walked(total, groups, wrapped) > total
  {
    MultipleOf256(groups - 1, Elements(total, groups));
    LastStretchEnds(total, LastOffset(total, groups), wrapped);
  }

  /** What the host reads in bin b. */
  function DeviceBin(image: Image, total: nat, groups: nat, b: nat): int
    requires groups > 0
  {
    Histogram(image, total, b) + if !EndsOnRow(total, groups) && image(total) == b then 1 else 0
  }

  lemma WalkedHits(image: Image, total: nat, groups: nat, wrapped: int, b: nat)
    requires groups > 0
    ensures Sum(Walked(total, groups, wrapped), Hits(image, total, b)) == DeviceBin(image, total, groups, b)
  {
    WhereTheWalkEnds(total, groups, wrapped);
    if !EndsOnRow(total, groups) {
      NoHitsBeyond(image, total, b, Walked(total, groups, wrapped));
    }
  }

  /** One group's bins added to the host's. */
  method Merge(bins: array<int>, group: seq<nat>)
    requires bins.Length == 256 == |group|
    modifies bins
    ensures forall b :: 0 <= b < 256 ==> bins[b] == old(bins[b]) + group[b]
  {
    for j := 0 to 256
      invariant forall b :: 0 <= b < 256 ==> bins[b] == old(bins[b]) + if b < j then group[b] else 0
    {
      bins[j] := bins[j] + group[j];
    }
  }

  /** One launched group and its part of the host's final loop. */
  method AddGroup(binR: array<int>, binG: array<int>, binB: array<int>, image: Image, limit: nat, offset: nat,
                  elements: int)
    requires IsImage(image) && binR != binG && binR != binB && binG != binB
    requires binR.Length == binG.Length == binB.Length == 256
    requires binG[..] == binR[..] && binB[..] == binR[..]
    modifies binR, binG, binB
    ensures forall b: nat :: b < 256 ==>
              binR[b] == old(binR[b]) +
                         Sum((if elements < 0 then 0 else elements) * 256, Shifted(Hits(image, limit, b), offset))
    ensures binG[..] == binR[..] && binB[..] == binR[..]
  {
    assert forall j :: 0 <= j < 256 ==> binG[..][j] == binR[..][j] && binB[..][j] == binR[..][j];
    var r, g, b := Group(image, limit, offset, elements);
    Merge(binR, r);
    Merge(binG, g);
    Merge(binB, b);
  }

  /** The hits in the stretches of the first n groups. */
  function StretchHits(image: Image, total: nat, b: nat, stretch: nat, n: nat): int {
    Sum(n, RowSums(Rows(Hits(image, total, b), stretch), stretch))
  }

  lemma NextStretch(image: Image, total: nat, b: nat, g: nat, elements: nat)
    ensures StretchHits(image, total, b, 256 * elements, g + 1) ==
            StretchHits(image, total, b, 256 * elements, g) +
            Sum(elements * 256, Shifted(Hits(image, total, b), g * 256 * elements))
  {
    StretchOfGroup(image, total, b, g, elements);
  }

  lemma AllStretches(image: Image, total: nat, groups: nat, wrapped: int, b: nat)
    requires groups > 0
    ensures var e := LastElements(total, LastOffset(total, groups), wrapped);
            StretchHits(image, total, b, 256 * Elements(total, groups), groups - 1) +
            Sum((if e < 0 then 0 else e) * 256, Shifted(Hits(image, total, b), LastOffset(total, groups))) ==
            DeviceBin(image, total, groups, b)
  {
    var e := LastElements(total, LastOffset(total, groups), wrapped);
    StretchesTogether(Hits(image, total, b), groups - 1, 256 * Elements(total, groups), (if e < 0 then 0 else e) * 256);
    WalkedHits(image, total, groups, wrapped, b);
  }

  /** The host program of histogram_cu.cpp: every bin of every channel is the sequential count of the x
      channel, but for one more hit of the cell after the image unless the image ends on a row that the
      last group reaches. */
  method PersistentHistogram(image: Image, total: nat, groups: nat, wrapped: int)
      returns (deviceBinR: array<int>, deviceBinG: array<int>, deviceBinB: array<int>)
    requires IsImage(image) && groups > 0
    ensures deviceBinR.Length == deviceBinG.Length == deviceBinB.Length == 256
    ensures forall b: nat :: b < 256 ==> deviceBinR[b] == DeviceBin(image, total, groups, b)
    ensures deviceBinG[..] == deviceBinR[..] && deviceBinB[..] == deviceBinR[..]
  {
    deviceBinR, deviceBinG, deviceBinB := new int[256](_ => 0), new int[256](_ => 0), new int[256](_ => 0);
    var elements := Elements(total, groups);
    for g := 0 to groups - 1
      invariant forall b: nat :: b < 256 ==> deviceBinR[b] == StretchHits(image, total, b, 256 * elements, g)
      invariant deviceBinG[..] == deviceBinR[..] && deviceBinB[..] == deviceBinR[..]
    {
      forall b: nat | b < 256
        ensures StretchHits(image, total, b, 256 * elements, g + 1) ==
                StretchHits(image, total, b, 256 * elements, g) +
                Sum(elements * 256, Shifted(Hits(image, total, b), g * 256 * elements))
      {
        NextStretch(image, total, b, g, elements);
      }
      AddGroup(deviceBinR, deviceBinG, deviceBinB, image, total, g * 256 * elements, elements);
    }
    var offset := LastOffset(total, groups);
    forall b: nat | b < 256 {
      AllStretches(image, total, groups, wrapped, b);
    }
    AddGroup(deviceBinR, deviceBinG, deviceBinB, image, total, offset, LastElements(total, offset, wrapped));
  }

  lemma StretchOfGroup(image: Image, total: nat, b: nat, g: nat, elements: nat)
    ensures var stretch := 256 * elements;
            g * 256 * elements == g * stretch &&
            Sum(elements * 256, Shifted(Hits(image, total, b), g * 256 * elements)) ==
            RowSums(Rows(Hits(image, total, b), stretch), stretch)(g)
  {
    var stretch := 256 * elements;
    assert g * 256 * elements == g * stretch;
    SumSame(stretch, Shifted(Hits(image, total, b), g * stretch), Row(Rows(Hits(image, total, b), stretch), g));
  }

  // ---------- the host's check ----------

  function HitTable(image: Image, limit: nat): (nat, nat) -> int {
    (b: nat, i: nat) => Hits(image, limit, b)(i)
  }

  /** Every pixel is in exactly one bin: the sequential bins add up to the number of pixels. */
  lemma HistogramTotals(image: Image, total: nat)
    requires IsImage(image)
    ensures Sum(256, RowSums(HitTable(image, total), total)) == total
  {
    SumSwap(256, total, HitTable(image, total));
    forall i: nat | i < total ensures ColumnSums(HitTable(image, total), 256)(i) == 1 {
      assert image(i) < 256;
      forall b: nat ensures Column(HitTable(image, total), i)(b) == (if image(i) == b then 1 else 0) {
        assert Column(HitTable(image, total), i)(b) == HitTable(image, total)(b, i);
        assert HitTable(image, total)(b, i) == Hits(image, total, b)(i);
      }
      SumSingle(256, Column(HitTable(image, total), i), image(i));
    }
    SumConstant(total, ColumnSums(HitTable(image, total), 256), 1);
  }

  function DeviceBins(image: Image, total: nat, groups: nat): nat -> int
    requires groups > 0
  {
    (b: nat) => DeviceBin(image, total, groups, b)
  }

  function ExtraHit(image: Image, total: nat): nat -> int {
    (b: nat) => if image(total) == b then 1 else 0
  }

  /** The host's plausibility check, that the bins add up to the number of pixels, succeeds exactly when the
      histogram is exact; otherwise one pixel too many is counted. */
  lemma DeviceTotals(image: Image, total: nat, groups: nat)
    requires IsImage(image) && groups > 0
    ensures Sum(256, DeviceBins(image, total, groups)) == total + if EndsOnRow(total, groups) then 0 else 1
    ensures EndsOnRow(total, groups) <==>
            forall b: nat :: b < 256 ==> DeviceBin(image, total, groups, b) == Histogram(image, total, b)
  {
    HistogramTotals(image, total);
    var plain := RowSums(HitTable(image, total), total);
    forall b: nat ensures plain(b) == Histogram(image, total, b) {
      SumSame(total, Row(HitTable(image, total), b), Hits(image, total, b));
    }
    if EndsOnRow(total, groups) {
      SumSame(256, DeviceBins(image, total, groups), plain);
    } else {
      SumAdd(256, DeviceBins(image, total, groups), plain, ExtraHit(image, total));
      SumSingle(256, ExtraHit(image, total), image(total));
      assert DeviceBin(image, total, groups, image(total)) != Histogram(image, total, image(total));
    }
  }

  /** Pixels that share out evenly among all work-items are counted exactly. */
  lemma EvenShares(image: Image, each: nat, groups: nat, b: nat)
    requires groups > 0
    ensures var total := each * (groups * 256);
            Elements(total, groups) == each && EndsOnRow(total, groups) &&
            DeviceBin(image, total, groups, b) == Histogram(image, total, b)
  {
    var n := groups * 256;
    var total := each * n;
    DivModUnique(total + n - 1, each, n - 1, n);
    MultipleOf256(groups, each);
    MulMonotone(groups - 1, groups, 256 * each);
    assert groups * (256 * each) == total;
  }

  /** A thousand pixels on four groups: the last group reaches the end in mid-row, and the cell after the image is
      counted. */
  lemma ThousandPixels(image: Image)
    ensures !EndsOnRow(1000, 4)
    ensures DeviceBin(image, 1000, 4, image(1000)) == Histogram(image, 1000, image(1000)) + 1
  {
  }

  // ---------- histogram.cpp: one pass of 256 x 256 pixels per group ----------

  /** The host program of chapter 8's first version: groups of 65536 pixels without a guard. What does not
      fill a group is not counted. */
  method BlockHistogram(image: Image, total: nat)
      returns (deviceBinR: array<int>, deviceBinG: array<int>, deviceBinB: array<int>)
    requires IsImage(image)
    ensures deviceBinR.Length == deviceBinG.Length == deviceBinB.Length == 256
    ensures forall b: nat :: b < 256 ==> deviceBinR[b] == Histogram(image, (total / 65536) * 65536, b)
    ensures deviceBinG[..] == deviceBinR[..] && deviceBinB[..] == deviceBinR[..]
  {
    var groups := total / 65536;
    ghost var covered := groups * 65536;
    deviceBinR, deviceBinG, deviceBinB := new int[256](_ => 0), new int[256](_ => 0), new int[256](_ => 0);
    for g := 0 to groups
      invariant forall b: nat :: b < 256 ==> deviceBinR[b] == StretchHits(image, covered, b, 256 * 256, g)
      invariant deviceBinG[..] == deviceBinR[..] && deviceBinB[..] == deviceBinR[..]
    {
      forall b: nat | b < 256
        ensures StretchHits(image, covered, b, 256 * 256, g + 1) ==
                StretchHits(image, covered, b, 256 * 256, g) +
                Sum(256 * 256, Shifted(Hits(image, covered, b), g * 256 * 256))
      {
        NextStretch(image, covered, b, g, 256);
      }
      AddGroup(deviceBinR, deviceBinG, deviceBinB, image, groups * 65536, g * 256 * 256, 256);
    }
    forall b: nat | b < 256 ensures deviceBinR[b] == Histogram(image, covered, b) {
      SumFlatten(groups, 65536, Hits(image, covered, b));
    }
  }
}
