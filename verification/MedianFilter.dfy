/** The median filter of chapter 9: each work-item loads the window around its pixel and moves the largest
    values to the end, one bubble pass at a time, before it reads one cell. */
module MedianFilter {
  import opened Powers

  datatype Pixel = Pixel(x: real, y: real, z: real, w: real)

  // ---------- order statistics ----------

  /** The number of values below v. */
  function Below(s: seq<real>, v: real): nat {
    if s == [] then 0 else Below(s[..|s| - 1], v) + if s[|s| - 1] < v then 1 else 0
  }

  function Above(s: seq<real>, v: real): nat {
    if s == [] then 0 else Above(s[..|s| - 1], v) + if s[|s| - 1] > v then 1 else 0
  }

  /** Value v stands at index k when s is put in order. */
  predicate IsOrderStatistic(s: seq<real>, k: nat, v: real) {
    Below(s, v) <= k < |s| - Above(s, v)
  }

  lemma {:induction false} Apart(s: seq<real>, v: real, w: real)
    requires v < w
    ensures |s| - Above(s, v) <= Below(s, w)
  {
    if s != [] {
      Apart(s[..|s| - 1], v, w);
    }
  }

  lemma OrderStatisticUnique(s: seq<real>, k: nat, v: real, w: real)
    requires IsOrderStatistic(s, k, v) && IsOrderStatistic(s, k, w)
    ensures v == w
  {
    if v < w {
      Apart(s, v, w);
    } else if w < v {
      Apart(s, w, v);
    }
  }

  lemma {:induction false} CountsAppend(s: seq<real>, t: seq<real>, v: real)
    ensures Below(s + t, v) == Below(s, v) + Below(t, v)
    ensures Above(s + t, v) == Above(s, v) + Above(t, v)
  {
    if t == [] {
      assert s + t == s;
    } else {
      CountsAppend(s, t[..|t| - 1], v);
      assert (s + t)[..|s + t| - 1] == s + t[..|t| - 1];
    }
  }

  lemma CountsInsert(s: seq<real>, x: real, t: seq<real>, v: real)
    ensures Below(s + [x] + t, v) == Below(s + t, v) + if x < v then 1 else 0
    ensures Above(s + [x] + t, v) == Above(s + t, v) + if x > v then 1 else 0
  {
    CountsAppend(s + [x], t, v);
    CountsAppend(s, t, v);
    assert (s + [x])[..|s|] == s;
  }

  /** The last value of s, taken out of t. */
  lemma TakeOut(s: seq<real>, t: seq<real>) returns (i: nat)
    requires s != [] && multiset(s) == multiset(t)
    ensures i < |t| && t[i] == s[|s| - 1] && t == t[..i] + [t[i]] + t[i + 1..]
    ensures multiset(s[..|s| - 1]) == multiset(t[..i] + t[i + 1..])
  {
    var init, last := s[..|s| - 1], s[|s| - 1];
    assert s == init + [last];
    assert last in multiset(t);
    i :| 0 <= i < |t| && t[i] == last;
    assert t == t[..i] + [last] + t[i + 1..];
    assert multiset(init) == multiset(s) - multiset{last} == multiset(t[..i] + t[i + 1..]);
  }

  /** Counting does not depend on the order. */
  lemma {:induction false} CountsPermute(s: seq<real>, t: seq<real>, v: real)
    requires multiset(s) == multiset(t)
    ensures |s| == |t| && Below(s, v) == Below(t, v) && Above(s, v) == Above(t, v)
    decreases |s|
  {
    assert |multiset(s)| == |s| && |multiset(t)| == |t|;
    if s != [] {
      var i := TakeOut(s, t);
      CountsPermute(s[..|s| - 1], t[..i] + t[i + 1..], v);
      CountsInsert(t[..i], t[i], t[i + 1..], v);
    }
  }

  /** From index t on, s is in its final order. */
  predicate SortedFrom(s: seq<real>, t: nat) {
    (forall i, j :: t <= i <= j < |s| ==> s[i] <= s[j]) &&
    (forall i, j :: 0 <= i < t <= j < |s| ==> s[i] <= s[j])
  }

  lemma {:induction false} FewBelow(s: seq<real>, k: nat, v: real)
    requires k <= |s| && forall i :: k <= i < |s| ==> v <= s[i]
    ensures Below(s, v) <= k
    decreases |s|
  {
    if s != [] {
      FewBelow(s[..|s| - 1], if k < |s| then k else k - 1, v);
    }
  }

  lemma {:induction false} FewAbove(s: seq<real>, k: nat, v: real)
    requires k <= |s| && forall i :: 0 <= i < k ==> s[i] <= v
    ensures Above(s, v) <= |s| - k
    decreases |s|
  {
    if s != [] {
      FewAbove(s[..|s| - 1], if k < |s| then k else k - 1, v);
    }
  }

  lemma FinalCell(s: seq<real>, t: nat, k: nat)
    requires SortedFrom(s, t) && t <= k < |s|
    ensures IsOrderStatistic(s, k, s[k])
  {
    FewBelow(s, k, s[k]);
    FewAbove(s, k + 1, s[k]);
  }

  // ---------- bubble passes ----------

  function Swapped(s: seq<real>, j: nat): seq<real>
    requires j + 1 < |s|
  {
    s[j := s[j + 1]][j + 1 := s[j]]
  }

  lemma SwapKeeps(s: seq<real>, j: nat)
    requires j + 1 < |s|
    ensures multiset(Swapped(s, j)) == multiset(s)
  {
    var a, x, y, b := s[..j], s[j], s[j + 1], s[j + 2..];
    assert s == a + [x] + [y] + b;
    assert Swapped(s, j) == a + [y] + [x] + b;
  }

  /** Within a pass: cell j holds the largest of the first j + 1, and the cells from totalNumber on are final. */
  predicate Bubbling(s: seq<real>, was: seq<real>, totalNumber: nat, j: nat) {
    |s| == |was| && j < totalNumber <= |s| && s[totalNumber..] == was[totalNumber..] &&
    (forall k :: 0 <= k < j ==> s[k] <= s[j]) &&
    (forall i, k :: 0 <= i < totalNumber <= k < |s| ==> s[i] <= s[k])
  }

  lemma BubbleStep(s: seq<real>, was: seq<real>, totalNumber: nat, j: nat)
    requires Bubbling(s, was, totalNumber, j) && j + 1 < totalNumber
    ensures Bubbling(if s[j] > s[j + 1] then Swapped(s, j) else s, was, totalNumber, j + 1)
  {
  }

  lemma PassDone(s: seq<real>, was: seq<real>, totalNumber: nat)
    requires 0 < totalNumber && SortedFrom(was, totalNumber) && Bubbling(s, was, totalNumber, totalNumber - 1)
    ensures SortedFrom(s, totalNumber - 1)
  {
    forall i, j | totalNumber - 1 <= i <= j < |s| ensures s[i] <= s[j] {
      if totalNumber <= i {
        assert s[i] == s[totalNumber..][i - totalNumber] && s[j] == s[totalNumber..][j - totalNumber];
        assert was[i] <= was[j];
      }
    }
  }

  /** One pass over the first totalNumber cells: the largest of them ends up last. */
  method Pass(pixels: array<real>, totalNumber: nat, ghost n: nat)
    requires 0 < totalNumber <= n <= pixels.Length && SortedFrom(pixels[..n], totalNumber)
    modifies pixels
    ensures multiset(pixels[..n]) == multiset(old(pixels[..n])) && SortedFrom(pixels[..n], totalNumber - 1)
    ensures pixels[n..] == old(pixels[n..])
  {
    ghost var was := pixels[..n];
    for j := 0 to totalNumber - 1
      invariant multiset(pixels[..n]) == multiset(was) && Bubbling(pixels[..n], was, totalNumber, j)
      invariant pixels[n..] == old(pixels[n..])
    {
      ghost var s := pixels[..n];
      BubbleStep(s, was, totalNumber, j);
      SwapKeeps(s, j);
      if pixels[j] > pixels[j + 1] {
        var tmp := pixels[j];
        pixels[j] := pixels[j + 1];
        pixels[j + 1] := tmp;
        assert pixels[..n] == Swapped(s, j);
      }
    }
    PassDone(pixels[..n], was, totalNumber);
  }

  /** Passes that shrink by one cell each: after rank of them the rank largest values are in their final cells. */
  method Passes(pixels: array<real>, n: nat, rank: nat)
    requires rank <= n <= pixels.Length
    modifies pixels
    ensures multiset(pixels[..n]) == multiset(old(pixels[..n])) && SortedFrom(pixels[..n], n - rank)
    ensures pixels[n..] == old(pixels[n..])
  {
    var totalNumber := n;
    for i := 0 to rank
      invariant totalNumber == n - i
      invariant multiset(pixels[..n]) == multiset(old(pixels[..n])) && SortedFrom(pixels[..n], totalNumber)
      invariant pixels[n..] == old(pixels[n..])
    {
      Pass(pixels, totalNumber, n);
      totalNumber := totalNumber - 1;
    }
  }

  // ---------- the window ----------

  /** An image of positive size, read with CLK_ADDRESS_CLAMP_TO_EDGE. */
  datatype Image = Image(width: nat, height: nat, at: (int, int) -> Pixel)

  function Clamp(v: int, size: nat): int {
    if v < 0 then 0 else if v >= size then size - 1 else v
  }

  function Difference(a: int, b: int): nat {
    if a < b then b - a else a - b
  }

  /** An index is moved to the nearest one inside the image. */
  lemma ClampIsNearest(v: int, size: nat, u: int)
    requires 0 <= u < size
    ensures 0 <= Clamp(v, size) < size
    ensures Difference(v, Clamp(v, size)) <= Difference(v, u)
    ensures Difference(v, Clamp(v, size)) == Difference(v, u) ==> u == Clamp(v, size)
  {
  }

  function Read(image: Image, x: int, y: int): Pixel {
    image.at(Clamp(x, image.width), Clamp(y, image.height))
  }

  /** The pixel that is loaded into cell k: column by column around (x, y). */
  function WindowPixel(image: Image, x: int, y: int, half: nat, k: nat): Pixel {
    Read(image, x - half + k / (2 * half + 1), y - half + k % (2 * half + 1))
  }

  function Window(image: Image, x: int, y: int, half: nat, n: nat): seq<real> {
    seq(n, (k: nat) => WindowPixel(image, x, y, half, k).x)
  }

  lemma WindowGrows(image: Image, x: int, y: int, half: nat, n: nat)
    ensures Window(image, x, y, half, n + 1) == Window(image, x, y, half, n) + [WindowPixel(image, x, y, half, n).x]
  {
  }

  /** Every pixel of the square around (x, y) has its own cell, column by column. */
  lemma WindowCell(image: Image, x: int, y: int, half: nat, i: int, j: int, n: nat)
    requires 0 <= i + half <= 2 * half && 0 <= j + half <= 2 * half
    requires n > (i + half) * (2 * half + 1) + j + half
    ensures Window(image, x, y, half, n)[(i + half) * (2 * half + 1) + j + half] ==
            image.at(Clamp(x + i, image.width), Clamp(y + j, image.height)).x
  {
    RowColumn(i + half, 2 * half + 1, j + half);
  }

  /** One column of the window. */
  method LoadColumn(image: Image, x: int, y: int, half: nat, i: int, pixels: array<real>, pixelValue: Pixel)
    returns (last: Pixel)
    requires 0 <= i + half <= 2 * half && (i + half + 1) * (2 * half + 1) <= pixels.Length
    requires pixels[..(i + half) * (2 * half + 1)] == Window(image, x, y, half, (i + half) * (2 * half + 1))
    modifies pixels
    ensures (i + half + 1) * (2 * half + 1) == (i + half) * (2 * half + 1) + 2 * half + 1
    ensures pixels[..(i + half + 1) * (2 * half + 1)] == Window(image, x, y, half, (i + half + 1) * (2 * half + 1))
    ensures pixels[(i + half + 1) * (2 * half + 1)..] == old(pixels[(i + half + 1) * (2 * half + 1)..])
    ensures last == Read(image, x + i, y + half)
  {
    var side, column := 2 * half + 1, i + half;
    var index := column * side;
    assert (column + 1) * side == index + side;
    ghost var stop := index + side;
    var j: int := 0 - half;
    last := pixelValue;
    while j <= half
      invariant 0 <= j + half <= side && index == column * side + j + half
      invariant pixels[..index] == Window(image, x, y, half, index) && pixels[stop..] == old(pixels[stop..])
      invariant j + half > 0 ==> last == Read(image, x + i, y + j - 1)
    {
      last := Read(image, x + i, y + j);
      RowColumn(column, side, j + half);
      WindowGrows(image, x, y, half, index);
      pixels[index] := last.x;
      assert pixels[..index + 1] == Window(image, x, y, half, index) + [last.x];
      index := index + 1;
      j := j + 1;
    }
  }

  /** Loading the whole window; the cells behind it keep what they held. */
  method LoadWindow(image: Image, x: int, y: int, half: nat, pixels: array<real>, pixelValue: Pixel)
    returns (last: Pixel)
    requires (2 * half + 1) * (2 * half + 1) <= pixels.Length
    modifies pixels
    ensures pixels[..(2 * half + 1) * (2 * half + 1)] == Window(image, x, y, half, (2 * half + 1) * (2 * half + 1))
    ensures pixels[(2 * half + 1) * (2 * half + 1)..] == old(pixels[(2 * half + 1) * (2 * half + 1)..])
    ensures last == Read(image, x + half, y + half)
  {
    var side := 2 * half + 1;
    ghost var size := side * side;
    var i: int := 0 - half;
    last := pixelValue;
    while i <= half
      invariant 0 <= i + half <= side && (i + half) * side <= size
      invariant pixels[..(i + half) * side] == Window(image, x, y, half, (i + half) * side)
      invariant pixels[size..] == old(pixels[size..])
      invariant i + half > 0 ==> last == Read(image, x + i - 1, y + half)
    {
      MulMonotone(i + half + 1, side, side);
      ghost var next := (i + half + 1) * side;
      ghost var before := pixels[..];
      last := LoadColumn(image, x, y, half, i, pixels, last);
      assert pixels[size..] == pixels[next..][size - next..] == before[next..][size - next..] == before[size..];
      i := i + 1;
    }
  }

  // ---------- the kernel ----------

  /** float oldPixels[9] */
  const CELLS: nat := 9

  /** C division: towards zero. */
  function HalfWindow(windowSize: int): int {
    if windowSize >= 0 then windowSize / 2 else -(-windowSize / 2)
  }

  /** Cells that the load writes. */
  function Loaded(windowSize: int): nat {
    var half := HalfWindow(windowSize);
    if half < 0 then 0 else (2 * half + 1) * (2 * half + 1)
  }

  /** Cells that the passes go over. */
  function TotalNumber(windowSize: int): nat {
    windowSize * windowSize
  }

  /** The cells of the private array that the kernel accesses: the load writes the first ones in turn, pass i goes
      over the pairs j, j + 1 of the first TotalNumber - i cells, and one cell is read in the end. */
  ghost predicate Accesses(windowSize: int, c: nat) {
    var total := TotalNumber(windowSize);
    c < Loaded(windowSize) ||
    (exists i: nat, j: nat :: i < total / 2 + 1 && InPass(total, i, j) && (c == j || c == j + 1)) ||
    c == total / 2 + 1
  }

  predicate InPass(total: nat, i: nat, j: nat) {
    j < total - i - 1
  }

  ghost predicate NeverOutside(windowSize: int) {
    forall c: nat :: Accesses(windowSize, c) ==> c < CELLS
  }

  /** The three largest accesses. */
  predicate Fits(windowSize: int) {
    Loaded(windowSize) <= CELLS && TotalNumber(windowSize) <= CELLS && TotalNumber(windowSize) / 2 + 1 < CELLS
  }

  lemma LastPairAccessed(windowSize: int)
    requires TotalNumber(windowSize) >= 2
    ensures Accesses(windowSize, TotalNumber(windowSize) - 1)
  {
    var total := TotalNumber(windowSize);
    assert InPass(total, 0, total - 2);
  }

  lemma FitsIsNeverOutside(windowSize: int)
    ensures Fits(windowSize) <==> NeverOutside(windowSize)
  {
    var total := TotalNumber(windowSize);
    if NeverOutside(windowSize) {
      if Loaded(windowSize) > 0 {
        assert Accesses(windowSize, Loaded(windowSize) - 1);
      }
      if total >= 2 {
        LastPairAccessed(windowSize);
      }
      assert Accesses(windowSize, total / 2 + 1);
    }
  }

  lemma FitsIff(windowSize: int)
    ensures Fits(windowSize) <==> -3 <= windowSize <= 3
  {
    if windowSize > 3 {
      MulMonotone(4, windowSize, 4);
      MulMonotone(4, windowSize, windowSize);
    } else if windowSize < -3 {
      MulMonotone(4, -windowSize, 4);
      MulMonotone(4, -windowSize, -windowSize);
    }
  }

  /** Every access stays inside the nine cells exactly for windows of at most 3 by 3. */
  lemma InsideIff(windowSize: int)
    ensures NeverOutside(windowSize) <==> -3 <= windowSize <= 3
  {
    FitsIff(windowSize);
    FitsIsNeverOutside(windowSize);
  }

  /** The cells that the passes go over, before the first pass: those of the window, or what the array held. */
  function Unsorted(image: Image, x: int, y: int, windowSize: int, was: seq<real>): seq<real>
    requires Fits(windowSize) && |was| == CELLS
  {
    if windowSize > 0 then Window(image, x, y, HalfWindow(windowSize), TotalNumber(windowSize))
    else was[..TotalNumber(windowSize)]
  }

  /** The pixel that the result is put into: the last one loaded, if any. */
  function LastLoaded(image: Image, x: int, y: int, windowSize: int, unset: Pixel): Pixel {
    var half := HalfWindow(windowSize);
    if half < 0 then unset else Read(image, x + half, y + half)
  }

  /** For the windows that fit: the half width, and the pixel that is loaded last. */
  lemma WindowsThatFit(image: Image, x: int, y: int, windowSize: int, unset: Pixel)
    requires Fits(windowSize)
    ensures windowSize == 2 || windowSize == 3 ==>
              HalfWindow(windowSize) == 1 && LastLoaded(image, x, y, windowSize, unset) == Read(image, x + 1, y + 1)
    ensures -1 <= windowSize <= 1 ==>
              HalfWindow(windowSize) == 0 && LastLoaded(image, x, y, windowSize, unset) == Read(image, x, y)
    ensures windowSize == -2 || windowSize == -3 ==>
              HalfWindow(windowSize) == -1 && LastLoaded(image, x, y, windowSize, unset) == unset
    ensures -3 <= windowSize <= 3
  {
    FitsIff(windowSize);
  }

  /** The load of the kernel. */
  method Load(image: Image, x: int, y: int, windowSize: int, oldPixels: array<real>, unset: Pixel)
    returns (pixelValue: Pixel)
    requires Fits(windowSize) && oldPixels.Length == CELLS
    modifies oldPixels
    ensures !(-1 <= windowSize <= 1) ==>
              oldPixels[..TotalNumber(windowSize)] == Unsorted(image, x, y, windowSize, old(oldPixels[..]))
    ensures -1 <= windowSize <= 1 ==> oldPixels[1] == old(oldPixels[1])
    ensures pixelValue == LastLoaded(image, x, y, windowSize, unset)
  {
    FitsIff(windowSize);
    var half := HalfWindow(windowSize);
    if half < 0 {
      return unset;
    }
    ghost var size := (2 * half + 1) * (2 * half + 1);
    pixelValue := LoadWindow(image, x, y, half, oldPixels, unset);
    if windowSize > 1 {
      assert windowSize == 2 || windowSize == 3;
      WindowPrefix(image, x, y, half, TotalNumber(windowSize), size, oldPixels[..]);
    } else {
      assert oldPixels[1] == oldPixels[size..][0] == old(oldPixels[size..])[0];
    }
  }

  /** The value written for a pixel is order statistic n / 2 + 1 of the n cells that the passes go over; for a
      window of at most one pixel it is what the array held in a cell that is never loaded. Windows larger than
      3 by 3 do not fit the array. */
  method MedianKernel(image: Image, x: int, y: int, windowSize: int, oldPixels: array<real>, unset: Pixel)
    returns (outside: bool, out: Pixel)
    requires oldPixels.Length == CELLS
    modifies oldPixels
    ensures (outside <==> !Fits(windowSize)) && (outside <==> !NeverOutside(windowSize))
    ensures -1 <= windowSize <= 1 ==> out.x == old(oldPixels[1])
    ensures !outside && !(-1 <= windowSize <= 1) ==>
              IsOrderStatistic(Unsorted(image, x, y, windowSize, old(oldPixels[..])), TotalNumber(windowSize) / 2 + 1,
                               out.x)
    ensures !outside ==>
              var last := LastLoaded(image, x, y, windowSize, unset); out == Pixel(out.x, last.y, last.z, last.w)
  {
    FitsIff(windowSize);
    FitsIsNeverOutside(windowSize);
    if !Fits(windowSize) {
      return true, unset;
    }
    outside := false;
    var pixelValue := Load(image, x, y, windowSize, oldPixels, unset);
    var totalNumber := windowSize * windowSize;
    var rank := totalNumber / 2 + 1;
    out := RankCell(oldPixels, totalNumber, rank, pixelValue);
  }

  /** The passes, of which there is one more than cells when there are none, and the final read. */
  method RankCell(oldPixels: array<real>, totalNumber: nat, rank: nat, pixelValue: Pixel) returns (out: Pixel)
    requires totalNumber <= oldPixels.Length && rank == totalNumber / 2 + 1 < oldPixels.Length
    modifies oldPixels
    ensures out == pixelValue.(x := out.x)
    ensures rank < totalNumber ==> IsOrderStatistic(old(oldPixels[..totalNumber]), rank, out.x)
    ensures rank >= totalNumber ==> out.x == old(oldPixels[rank])
  {
    ghost var was := oldPixels[..totalNumber];
    Passes(oldPixels, totalNumber, if totalNumber == 0 then 0 else rank);
    if rank < totalNumber {
      var s := oldPixels[..totalNumber];
      FinalCell(s, totalNumber - rank, rank);
      CountsPermute(s, was, s[rank]);
    } else {
      assert oldPixels[rank] == oldPixels[totalNumber..][rank - totalNumber];
      assert old(oldPixels[rank]) == old(oldPixels[totalNumber..])[rank - totalNumber];
    }
    out := pixelValue.(x := oldPixels[rank]);
  }

  lemma WindowPrefix(image: Image, x: int, y: int, half: nat, n: nat, size: nat, s: seq<real>)
    requires n <= size <= |s| && s[..size] == Window(image, x, y, half, size)
    ensures s[..n] == Window(image, x, y, half, n)
  {
    forall k | 0 <= k < n ensures s[k] == Window(image, x, y, half, n)[k] {
      assert s[k] == s[..size][k];
    }
  }

  // ---------- against the median ----------

  /** For an odd window the median stands at index n / 2. */
  predicate IsMedian(window: seq<real>, v: real) {
    IsOrderStatistic(window, |window| / 2, v)
  }

  /** The value written is the median exactly when fewer than n / 2 pixels of the window lie above the median;
      otherwise it is larger. */
  lemma WrittenIsMedian(window: seq<real>, median: real, written: real)
    requires |window| % 2 == 1 && |window| > 1
    requires IsMedian(window, median) && IsOrderStatistic(window, |window| / 2 + 1, written)
    ensures written == median <==> Above(window, median) < |window| / 2
    ensures median <= written
  {
    if Above(window, median) < |window| / 2 {
      OrderStatisticUnique(window, |window| / 2 + 1, median, written);
    }
    if written < median {
      Apart(window, written, median);
    }
  }

  /** Five dark and four bright pixels have a dark median; the filter writes a bright pixel. */
  lemma BrightOfNine()
    ensures var window := [0.0, 0.0, 0.0, 0.0, 0.0, 1.0, 1.0, 1.0, 1.0];
            IsMedian(window, 0.0) && IsOrderStatistic(window, |window| / 2 + 1, 1.0)
  {
    var dark, bright := [0.0, 0.0, 0.0, 0.0, 0.0], [1.0, 1.0, 1.0, 1.0];
    assert dark + bright == [0.0, 0.0, 0.0, 0.0, 0.0, 1.0, 1.0, 1.0, 1.0];
    var window := dark + bright;
    FinalCell(window, 0, 4);
    FinalCell(window, 0, 5);
  }
}
