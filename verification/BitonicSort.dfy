/** bitonic_sort.cpp: the kernel as a program of loads and stores, its launches under any scheduler,
    and the host's loops over stages and passes. */
module BitonicSort {
  import opened Powers
  import opened WorkItems
  import opened BitonicNetwork

  /** Integers are compared as they are; the network takes its keys from the reals. */
  function Key(x: int): real {
    x as real
  }

  function LesserLoaded(regs: seq<int>): int {
    if |regs| < 2 then 0 else if regs[0] < regs[1] then regs[0] else regs[1]
  }

  function GreaterLoaded(regs: seq<int>): int {
    if |regs| < 2 then 0 else if regs[0] < regs[1] then regs[1] else regs[0]
  }

  /** The accesses of work-item t: both cells are loaded, then the lesser element goes to the cell the
      direction names first and the greater one to the other. */
  function KernelProgram(stage: nat, k: nat, t: nat): seq<Instr<int>> {
    var left, right := LeftId(t, Pow2(k)), RightId(t, Pow2(k));
    var sameDirection := (t / Pow2(stage)) % 2 == 1;
    [ Load(left), Load(right),
      Store(if sameDirection then right else left, LesserLoaded),
      Store(if sameDirection then left else right, GreaterLoaded) ]
  }

  function KernelPrograms(len: nat, stage: nat, k: nat): (ps: seq<seq<Instr<int>>>)
    ensures |ps| == len / 2
  {
    seq(len / 2, t requires 0 <= t => KernelProgram(stage, k, t))
  }

  /** The kernel body, executed by one work-item without interruption. */
  method Kernel(input: array<int>, stage: nat, passOfStage: nat, threadId: nat)
    requires passOfStage <= stage
    requires RightId(threadId, Pow2(stage - passOfStage)) < input.Length
    modifies input
    ensures Addressable(KernelProgram(stage, stage - passOfStage, threadId), input.Length)
    ensures input[..] == SoloMemory(KernelProgram(stage, stage - passOfStage, threadId), old(input[..]))
  {
    var pairDistance := Pow2(stage - passOfStage);
    var blockWidth := 2 * pairDistance;
    var leftId := threadId % pairDistance + (threadId / pairDistance) * blockWidth;
    var rightId := leftId + pairDistance;
    SoloExchange(stage, stage - passOfStage, threadId, input[..]);
    var leftElement := input[leftId];
    var rightElement := input[rightId];
    var sameDirection := (threadId / Pow2(stage)) % 2;
    if sameDirection != 0 {
      leftId, rightId := rightId, leftId;
    }
    var compareResult := leftElement < rightElement;
    var greater := if compareResult then rightElement else leftElement;
    var lesser := if compareResult then leftElement else rightElement;
    input[leftId] := lesser;
    input[rightId] := greater;
  }

  lemma SoloOfPair<T>(l: nat, r: nat, x: nat, y: nat, f: seq<T> -> T, g: seq<T> -> T, m: seq<T>)
    requires l < |m| && r < |m| && x < |m| && y < |m|
    ensures var p := [Load(l), Load(r), Store(x, f), Store(y, g)];
            Addressable(p, |m|) && SoloMemory(p, m) == m[x := f([m[l], m[r]])][y := g([m[l], m[r]])]
  {
    var p := [Load(l), Load(r), Store(x, f), Store(y, g)];
    var regs := [m[l], m[r]];
    assert Solo(p, m, 1) == (Thread(1, [m[l]]), m) by {
      assert Solo(p, m, 0) == (Thread(0, []), m);
      assert [] + [m[l]] == [m[l]];
    }
    assert Solo(p, m, 2) == (Thread(2, regs), m) by {
      assert [m[l]] + [m[r]] == regs;
    }
    assert Solo(p, m, 3) == (Thread(3, regs), m[x := f(regs)]);
  }

  /** Alone, a work-item exchanges its pair. */
  lemma SoloExchange(stage: nat, k: nat, t: nat, m: seq<int>)
    requires RightId(t, Pow2(k)) < |m|
    ensures var p := KernelProgram(stage, k, t);
            && Addressable(p, |m|)
            && SoloMemory(p, m) ==
               Exchange(Key, m, LeftId(t, Pow2(k)), RightId(t, Pow2(k)), (t / Pow2(stage)) % 2 == 0)
  {
    var left, right := LeftId(t, Pow2(k)), RightId(t, Pow2(k));
    if (t / Pow2(stage)) % 2 == 1 {
      SoloOfPair(left, right, right, left, LesserLoaded, GreaterLoaded, m);
    } else {
      SoloOfPair(left, right, left, right, LesserLoaded, GreaterLoaded, m);
    }
  }

  lemma ProgramCells(stage: nat, k: nat, t: nat, c: nat)
    ensures var p := KernelProgram(stage, k, t);
            && (Touches(p, c) <==> c == LeftId(t, Pow2(k)) || c == RightId(t, Pow2(k)))
            && (Stores(p, c) <==> c == LeftId(t, Pow2(k)) || c == RightId(t, Pow2(k)))
  {
    var p := KernelProgram(stage, k, t);
    assert p[0].addr == LeftId(t, Pow2(k)) && p[1].addr == RightId(t, Pow2(k));
    assert p[2].Store? && p[3].Store?;
    assert {p[2].addr, p[3].addr} == {LeftId(t, Pow2(k)), RightId(t, Pow2(k))};
  }

  /** In a pass no two work-items share a cell. */
  lemma PassIsRaceFree(len: nat, stage: nat, k: nat)
    requires len % Pow2(k + 1) == 0
    ensures RaceFree(KernelPrograms(len, stage, k), len)
  {
    var ps := KernelPrograms(len, stage, k);
    forall i | 0 <= i < |ps| ensures Addressable(ps[i], len) {
      ItemInBounds(len, k, i);
    }
    forall i, j, c: nat | 0 <= i < |ps| && 0 <= j < |ps| && i != j && Stores(ps[i], c) ensures !Touches(ps[j], c) {
      ProgramCells(stage, k, i, c);
      ProgramCells(stage, k, j, c);
      DistinctItems(i, j, Pow2(k));
    }
  }

  /** The same work-items on a buffer with more cells. */
  lemma RaceFreeOnMore(len: nat, size: nat, stage: nat, k: nat)
    requires len % Pow2(k + 1) == 0 && len <= size
    ensures RaceFree(KernelPrograms(len, stage, k), size)
  {
    PassIsRaceFree(len, stage, k);
  }

  lemma ExchangeOnMore(m: seq<int>, len: nat, l: nat, r: nat, up: bool)
    requires l < r < len <= |m|
    ensures Exchange(Key, m, l, r, up)[l] == Exchange(Key, m[..len], l, r, up)[l]
    ensures Exchange(Key, m, l, r, up)[r] == Exchange(Key, m[..len], l, r, up)[r]
  {
  }

  lemma LaunchedCell(m: seq<int>, m': seq<int>, len: nat, stage: nat, k: nat, c: nat)
    requires len <= |m| && len % Pow2(k + 1) == 0 && k <= stage && c < len
    requires RaceFree(KernelPrograms(len, stage, k), |m|) && IsLaunch(KernelPrograms(len, stage, k), m, m')
    ensures m'[c] == Pass(Key, m[..len], stage, k)[c]
  {
    var ps := KernelPrograms(len, stage, k);
    var t := OwnerOfCell(len, k, c);
    ProgramCells(stage, k, t, c);
    ItemInBounds(len, k, t);
    SoloExchange(stage, k, t, m);
    assert m'[c] == SoloMemory(ps[t], m)[c];
    ExchangeOnMore(m, len, LeftId(t, Pow2(k)), RightId(t, Pow2(k)), (t / Pow2(stage)) % 2 == 0);
    PassOfItem(Key, m[..len], stage, k, t);
    DirectionOfItem(t, k, stage);
  }

  lemma UntouchedCell(m: seq<int>, m': seq<int>, len: nat, stage: nat, k: nat, c: nat)
    requires len % Pow2(k + 1) == 0 && len <= c < |m|
    requires RaceFree(KernelPrograms(len, stage, k), |m|) && IsLaunch(KernelPrograms(len, stage, k), m, m')
    ensures m'[c] == m[c]
  {
    var ps := KernelPrograms(len, stage, k);
    forall i | 0 <= i < |ps| ensures !Stores(ps[i], c) {
      ProgramCells(stage, k, i, c);
      ItemInBounds(len, k, i);
    }
  }

  /** Whatever the interleaving, a launch of the kernel is one pass of the network on the cells that have a
      work-item; cells behind them keep what they held. */
  lemma LaunchIsPassOfPrefix(m: seq<int>, m': seq<int>, len: nat, stage: nat, k: nat)
    requires len <= |m| && len % Pow2(k + 1) == 0 && k <= stage
    requires RaceFree(KernelPrograms(len, stage, k), |m|) && IsLaunch(KernelPrograms(len, stage, k), m, m')
    ensures m'[..len] == Pass(Key, m[..len], stage, k) && m'[len..] == m[len..]
  {
    forall c: nat | c < len ensures m'[c] == Pass(Key, m[..len], stage, k)[c] {
      LaunchedCell(m, m', len, stage, k, c);
    }
    forall c: nat | len <= c < |m| ensures m'[c] == m[c] {
      UntouchedCell(m, m', len, stage, k, c);
    }
  }

  lemma LaunchIsPass(m: seq<int>, m': seq<int>, stage: nat, k: nat)
    requires |m| % Pow2(k + 1) == 0 && k <= stage
    requires RaceFree(KernelPrograms(|m|, stage, k), |m|)
    requires IsLaunch(KernelPrograms(|m|, stage, k), m, m')
    ensures m' == Pass(Key, m, stage, k)
  {
    LaunchIsPassOfPrefix(m, m', |m|, stage, k);
    assert m[..|m|] == m && m'[..|m|] == m';
  }

  /** The work-items run one after the other compute the same pass. */
  lemma OneByOneIsPass(m: seq<int>, stage: nat, k: nat)
    requires |m| % Pow2(k + 1) == 0 && k <= stage
    ensures RaceFree(KernelPrograms(|m|, stage, k), |m|)
    ensures OneByOne(KernelPrograms(|m|, stage, k), m, |m| / 2) == Pass(Key, m, stage, k)
  {
    var ps := KernelPrograms(|m|, stage, k);
    PassIsRaceFree(|m|, stage, k);
    OneByOneIsLaunch(ps, m);
    LaunchIsPass(m, OneByOne(ps, m, |ps|), stage, k);
  }

  /** So does every interleaving of their loads and stores. */
  lemma EveryInterleavingIsPass(m: seq<int>, stage: nat, k: nat, st: Machine<int>, schedule: seq<nat>)
    requires |m| % Pow2(k + 1) == 0 && k <= stage
    requires Start(KernelPrograms(|m|, stage, k), m, st)
    requires forall n :: 0 <= n < |schedule| ==> schedule[n] < |m| / 2
    ensures RaceFree(KernelPrograms(|m|, stage, k), |m|)
    ensures var end := RunSchedule(KernelPrograms(|m|, stage, k), st, schedule);
            Finished(KernelPrograms(|m|, stage, k), end) ==> end.mem == Pass(Key, m, stage, k)
  {
    var ps := KernelPrograms(|m|, stage, k);
    PassIsRaceFree(|m|, stage, k);
    var end := RunSchedule(ps, st, schedule);
    if Finished(ps, end) {
      EverySchedule(ps, m, st, schedule);
      LaunchIsPass(m, end.mem, stage, k);
    }
  }

  /** One kernel launch, scheduled in any way, on len cells or one more: half as many work-items. */
  method LaunchPass(input: array<int>, stage: nat, passOfStage: nat, ghost len: nat)
    requires passOfStage <= stage && len % Pow2(stage - passOfStage + 1) == 0
    requires len <= input.Length && input.Length / 2 == len / 2
    modifies input
    ensures input[..len] == Pass(Key, old(input[..len]), stage, stage - passOfStage)
    ensures input[len..] == old(input[len..])
  {
    ghost var m := input[..];
    var ps := KernelPrograms(input.Length, stage, stage - passOfStage);
    assert ps == KernelPrograms(len, stage, stage - passOfStage);
    RaceFreeOnMore(len, input.Length, stage, stage - passOfStage);
    Launch(input, ps);
    LaunchIsPassOfPrefix(m, input[..], len, stage, stage - passOfStage);
    assert input[..][..len] == input[..len] && m[..len] == old(input[..len]);
    assert input[..][len..] == input[len..] && m[len..] == old(input[len..]);
  }

  lemma PowerDivides(n: nat, k: nat)
    requires k <= n
    ensures Pow2(n) % Pow2(k) == 0
  {
    Pow2Add(n - k, k);
    DivModUnique(Pow2(n), Pow2(n - k), 0, Pow2(k));
  }

  /** The lengths at which the host's n stages are launched with the work-items of 2^n cells. */
  predicate HasItemsOf(len: nat, n: nat) {
    Pow2(n) <= len && len / 2 == Pow2(n) / 2
  }

  /** One pass of a stage. */
  method RunPass(input: array<int>, stage: nat, passOfStage: nat, ghost n: nat)
    requires HasItemsOf(input.Length, n) && passOfStage <= stage < n
    requires MidStage(Key, input[..Pow2(n)], stage, Pow2(stage + 1 - passOfStage))
    modifies input
    ensures MidStage(Key, input[..Pow2(n)], stage, Pow2(stage - passOfStage))
    ensures multiset(input[..Pow2(n)]) == multiset(old(input[..Pow2(n)]))
    ensures input[Pow2(n)..] == old(input[Pow2(n)..])
  {
    PowerDivides(n, stage - passOfStage + 1);
    PassAdvances(Key, input[..Pow2(n)], stage, stage - passOfStage);
    PassPermutes(Key, input[..Pow2(n)], stage, stage - passOfStage);
    LaunchPass(input, stage, passOfStage, Pow2(n));
  }

  /** All passes of one stage: the sorted blocks double. */
  method RunStage(input: array<int>, stage: nat, ghost n: nat) returns (launches: nat)
    requires HasItemsOf(input.Length, n) && stage < n
    requires BlocksSorted(Key, input[..Pow2(n)], stage)
    modifies input
    ensures BlocksSorted(Key, input[..Pow2(n)], stage + 1)
    ensures multiset(input[..Pow2(n)]) == multiset(old(input[..Pow2(n)]))
    ensures input[Pow2(n)..] == old(input[Pow2(n)..])
    ensures launches == stage + 1
  {
    launches := 0;
    StageStarts(Key, input[..Pow2(n)], stage);
    for passOfStage := 0 to stage + 1
      invariant MidStage(Key, input[..Pow2(n)], stage, Pow2(stage + 1 - passOfStage))
      invariant multiset(input[..Pow2(n)]) == multiset(old(input[..Pow2(n)]))
      invariant input[Pow2(n)..] == old(input[Pow2(n)..])
      invariant launches == passOfStage
    {
      RunPass(input, stage, passOfStage, n);
      launches := launches + 1;
    }
    StageEnds(Key, input[..Pow2(n)], stage);
  }

  /** 1 + 2 + ... + n */
  function Triangle(n: nat): (r: nat)
    ensures r == n * (n + 1) / 2
  {
    if n == 0 then 0 else
    var r := Triangle(n - 1);
    assert (n - 1) * n + 2 * n == n * (n + 1);
    r + n
  }

  predicate Ascending(a: seq<int>) {
    forall i, j :: 0 <= i < j < |a| ==> a[i] <= a[j]
  }

  /** The first 2^n cells of a in ascending order, and the other cells as they were. */
  ghost predicate SortedPrefix(a: seq<int>, b: seq<int>, n: nat) {
    Pow2(n) <= |a| == |b| && Ascending(b[..Pow2(n)]) && multiset(b[..Pow2(n)]) == multiset(a[..Pow2(n)]) &&
    b[Pow2(n)..] == a[Pow2(n)..]
  }

  /** The host's number of stages. */
  method CountStages(len: nat, ghost n: nat) returns (numStages: nat)
    requires HasItemsOf(len, n)
    ensures numStages == n
  {
    numStages := 0;
    var temp := len;
    while temp > 1
      invariant numStages <= n && HasItemsOf(temp, n - numStages)
    {
      temp := temp / 2;
      numStages := numStages + 1;
    }
    assert numStages == n;
  }

  /** The host program on a buffer of 2^n cells: the buffer ends ascending, holds the elements it held, and the
      kernel was launched n(n+1)/2 times. A cell more, which has no work-item, is never touched. */
  method Sort(input: array<int>, ghost n: nat) returns (launches: nat)
    requires HasItemsOf(input.Length, n)
    modifies input
    ensures SortedPrefix(old(input[..]), input[..], n)
    ensures input.Length == Pow2(n) ==> Ascending(input[..]) && multiset(input[..]) == multiset(old(input[..]))
    ensures launches == n * (n + 1) / 2
  {
    var numStages := CountStages(input.Length, n);
    launches := 0;
    SingletonsSorted(Key, input[..Pow2(n)]);
    for stage := 0 to numStages
      invariant BlocksSorted(Key, input[..Pow2(n)], stage)
      invariant multiset(input[..Pow2(n)]) == multiset(old(input[..Pow2(n)]))
      invariant input[Pow2(n)..] == old(input[Pow2(n)..])
      invariant launches == Triangle(stage)
    {
      var passes := RunStage(input, stage, n);
      launches := launches + passes;
    }
    LastStage(Key, input[..Pow2(n)], n);
    KeysInOrder(input[..Pow2(n)]);
    PrefixOfAll(old(input[..]), n, old(input[..Pow2(n)]), old(input[Pow2(n)..]));
    PrefixOfAll(input[..], n, input[..Pow2(n)], input[Pow2(n)..]);
  }

  lemma PrefixOfAll(a: seq<int>, n: nat, first: seq<int>, rest: seq<int>)
    requires |first| == Pow2(n) && a == first + rest
    ensures a[..Pow2(n)] == first && a[Pow2(n)..] == rest && (|a| == Pow2(n) ==> a == first)
  {
  }

  lemma KeysInOrder(a: seq<int>)
    requires forall i, j :: 0 <= i < j < |a| ==> Key(a[i]) <= Key(a[j])
    ensures forall i, j :: 0 <= i < j < |a| ==> a[i] <= a[j]
  {
    forall i, j | 0 <= i < j < |a| ensures a[i] <= a[j] {
      assert Key(a[i]) <= Key(a[j]);
    }
  }

  // ---------- which lengths the host may use ----------

  /** Number of halvings until one cell is left: the host's number of stages. */
  function Stages(len: nat): (s: nat)
    ensures len >= 1 ==> Pow2(s) <= len < Pow2(s + 1)
  {
    if len <= 1 then 0 else 1 + Stages(len / 2)
  }

  /** Every access of every work-item of every launch stays inside the buffer; stage minus pass, the
      exponent of the pair distance, takes the values below the number of stages. */
  ghost predicate NeverOutside(len: nat) {
    forall k: nat, t: nat :: k < Stages(len) && t < len / 2 ==> RightId(t, Pow2(k)) < len
  }

  lemma ItemStaysInside(n: nat, k: nat, t: nat)
    requires k < n && t < Pow2(n) / 2
    ensures RightId(t, Pow2(k)) < Pow2(n)
  {
    PowerDivides(n, k + 1);
    ItemInBounds(Pow2(n), k, t);
  }

  lemma OneLess(q: nat, d: nat)
    ensures (q - 1) * d == q * d - d && (q - 1) * (2 * d) == 2 * (q * d) - 2 * d
  {
  }

  lemma LastPair(t: nat, d: nat, q: nat, half: nat)
    requires d > 0 && q > 0 && half == q * d && RightId(t, d) == 2 * half - 1
    ensures t == half - 1
  {
    var k, r := t / d, t % d;
    DivisionEquation(t, d);
    OneLess(q, d);
    DivModUnique(RightId(t, d), k, r + d, 2 * d);
    DivModUnique(RightId(t, d), q - 1, 2 * d - 1, 2 * d);
  }

  /** Among the items of a buffer of 2^n cells, only the last one reaches the last cell. */
  lemma LastCellOfLastItem(n: nat, k: nat, t: nat)
    requires k < n && RightId(t, Pow2(k)) == Pow2(n) - 1
    ensures t == Pow2(n) / 2 - 1
  {
    assert Pow2(n) == 2 * Pow2(n - 1);
    Pow2Add(n - k - 1, k);
    LastPair(t, Pow2(k), Pow2(n - k - 1), Pow2(n - 1));
  }

  /** With as many work-items as 2^n cells need, or one less, a buffer that lacks at most the last cell will do. */
  lemma PowerStaysInside(len: nat, n: nat)
    requires n > 0 && Stages(len) <= n
    requires len / 2 == Pow2(n) / 2 || (len == Pow2(n) - 1 && len / 2 == Pow2(n) / 2 - 1)
    ensures NeverOutside(len)
  {
    forall k: nat, t: nat | k < Stages(len) && t < len / 2 ensures RightId(t, Pow2(k)) < len {
      ItemStaysInside(n, k, t);
      if RightId(t, Pow2(k)) == Pow2(n) - 1 {
        LastCellOfLastItem(n, k, t);
      }
    }
  }

  /** In the first pass of the last stage the last work-item reaches past the end. */
  lemma LastItemOutside(len: nat, s: nat)
    requires 2 * Pow2(s) + 1 < len < 4 * Pow2(s) - 1 || (len % 2 == 0 && 2 * Pow2(s) < len < 4 * Pow2(s))
    ensures RightId(len / 2 - 1, Pow2(s)) >= len
  {
    var d, t := Pow2(s), len / 2 - 1;
    DivModUnique(t, 1, t - d, d);
  }

  /** The launches stay inside the buffer exactly when its length is a power of two, or one more (the last cell
      is then never touched), or one less (the last work-item is then never launched). */
  lemma InsideIff(len: nat)
    requires len >= 2
    ensures NeverOutside(len) <==>
            len == Pow2(Stages(len)) || len == Pow2(Stages(len)) + 1 || len == Pow2(Stages(len) + 1) - 1
  {
    var s := Stages(len);
    assert Pow2(s) == 2 * Pow2(s - 1) && Pow2(s + 1) == 2 * Pow2(s);
    if len == Pow2(s) || len == Pow2(s) + 1 {
      PowerStaysInside(len, s);
    } else if len == Pow2(s + 1) - 1 {
      PowerStaysInside(len, s + 1);
    } else {
      LastItemOutside(len, s - 1);
      assert RightId(len / 2 - 1, Pow2(s - 1)) >= len;
    }
  }

  /** The number of work-items of a launch, half the length, must be a multiple of the work-group size of 64. */
  predicate Launches(len: nat) {
    len / 2 > 0 && (len / 2) % 64 == 0
  }

  /** These are the multiples of 128, and one more. */
  lemma LaunchesIff(len: nat)
    ensures Launches(len) <==> exists groups: nat :: groups > 0 && (len == 128 * groups || len == 128 * groups + 1)
  {
    if Launches(len) {
      var groups := len / 128;
      assert groups > 0 && (len == 128 * groups || len == 128 * groups + 1);
    }
  }

  /** For the lengths that the host launches at all, half the length must be a power of two. */
  lemma LaunchedInsideIff(len: nat)
    requires Launches(len)
    ensures NeverOutside(len) <==> len / 2 == Pow2(Stages(len) - 1)
  {
    InsideIff(len);
    var s := Stages(len);
    HalfOfLaunched(len, Pow2(s - 1), Pow2(s), Pow2(s + 1));
  }

  lemma HalfOfLaunched(len: nat, p: nat, p2: nat, p4: nat)
    requires Launches(len) && p2 == 2 * p && p4 == 2 * p2
    ensures len == p2 || len == p2 + 1 || len == p4 - 1 <==> len / 2 == p
  {
    var half, groups := len / 2, len / 2 / 64;
    assert half == 64 * groups && (len == 2 * half || len == 2 * half + 1);
  }

  /** Of the lengths that are launched and stay inside, exactly the powers of two have every content sorted. */
  lemma SortsEveryContentIff(len: nat)
    requires Launches(len) && NeverOutside(len)
    ensures HasItemsOf(len, Stages(len))
    ensures len == Pow2(Stages(len)) <==>
            forall a: seq<int>, b: seq<int> :: |a| == len && SortedPrefix(a, b, Stages(len)) ==> Ascending(b)
  {
    var n := Stages(len);
    LaunchedInsideIff(len);
    assert Pow2(n) == 2 * Pow2(n - 1);
    if len == Pow2(n) {
      forall a: seq<int>, b: seq<int> | |a| == len && SortedPrefix(a, b, n) ensures Ascending(b) {
        assert b[..Pow2(n)] == b;
      }
    } else {
      var a := LastStays(n);
      assert |a| == len && SortedPrefix(a, a, n) && !Ascending(a);
    }
  }

  /** Sorted but for its last cell, which stays where it is. */
  lemma LastStays(n: nat) returns (a: seq<int>)
    ensures |a| == Pow2(n) + 1 && SortedPrefix(a, a, n) && !Ascending(a)
  {
    a := seq(Pow2(n), _ => 0) + [-1];
    assert a[0] == 0 && a[Pow2(n)] == -1;
    assert Ascending(a[..Pow2(n)]);
  }

  /** A multiple of 64 is not enough, even if its half is one, too: 384 cells are launched and left. */
  lemma MultipleOf64NotEnough()
    ensures 384 % 64 == 0 && Launches(384) && !NeverOutside(384)
  {
    InsideIff(384);
    assert Pow2(8) == 256 && Pow2(9) == 512 by {
      assert Pow2(4) == 16;
    }
    if Stages(384) <= 8 {
      Pow2Monotone(Stages(384), 8);
    }
  }
}
