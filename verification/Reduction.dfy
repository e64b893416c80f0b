/** The tree reduction of linear_regression.cpp and parabolic_regression.cpp: SUM_STEPs between barriers on
    the local arrays of a work-group of 64 lanes, and the host's sum over the groups (exact reals).

    The local arrays lie one after the other: lane i of array a is cell 64 * a + i. */
module Reduction {
  import opened WorkItems

  function AddLastLoaded(regs: seq<real>): real {
    if |regs| < 2 then 0.0 else regs[|regs| - 2] + regs[|regs| - 1]
  }

  /** The assignment of one array. */
  function AddProgram(x: nat, y: nat): seq<Instr<real>> {
    [Load(x), Load(y), Store(x, AddLastLoaded)]
  }

  /** The assignments of a SUM_STEP in lane i, array after array. */
  function StepProgram(arrays: nat, i: nat, w: nat): (p: seq<Instr<real>>)
    ensures |p| == 3 * arrays
  {
    if arrays == 0 then []
    else
      var base := 64 * (arrays - 1);
      StepProgram(arrays - 1, i, w) + AddProgram(base + i, base + i + w)
  }

  /** SUM_STEP(tail, i, w) */
  function SumStep(arrays: nat, tail: nat, w: nat, i: nat): seq<Instr<real>> {
    if i < w && i + w < tail then StepProgram(arrays, i, w) else []
  }

  function SumSteps(arrays: nat, tail: nat, w: nat): (ps: seq<seq<Instr<real>>>)
    ensures |ps| == 64
  {
    seq(64, i requires 0 <= i => SumStep(arrays, tail, w, i))
  }

  lemma ExtendedCells(q: seq<Instr<real>>, x: nat, y: nat, c: nat)
    ensures Stores(q + AddProgram(x, y), c) <==> Stores(q, c) || c == x
    ensures Touches(q + AddProgram(x, y), c) <==> Touches(q, c) || c == x || c == y
  {
    var p, n := q + AddProgram(x, y), |q|;
    assert p[n] == Load(x) && p[n + 1] == Load(y) && p[n + 2] == Store(x, AddLastLoaded);
    assert forall k :: 0 <= k < n ==> p[k] == q[k];
  }

  lemma {:induction false} StepCells(arrays: nat, i: nat, w: nat, c: nat)
    requires i < 64 && i + w < 64 && 0 < w
    ensures Stores(StepProgram(arrays, i, w), c) <==> c < 64 * arrays && c % 64 == i
    ensures Touches(StepProgram(arrays, i, w), c) <==> c < 64 * arrays && (c % 64 == i || c % 64 == i + w)
  {
    if arrays > 0 {
      var base := 64 * (arrays - 1);
      StepCells(arrays - 1, i, w, c);
      ExtendedCells(StepProgram(arrays - 1, i, w), base + i, base + i + w, c);
    }
  }

  /** A SUM_STEP is race free: the lanes that store are below w, the foreign lanes read are not. */
  lemma StepsAreRaceFree(arrays: nat, tail: nat, w: nat)
    requires 0 < w && 2 * w <= 64
    ensures RaceFree(SumSteps(arrays, tail, w), 64 * arrays)
  {
    var ps := SumSteps(arrays, tail, w);
    forall i | 0 <= i < 64 ensures Addressable(ps[i], 64 * arrays) {
      forall k | 0 <= k < |ps[i]| ensures ps[i][k].addr < 64 * arrays {
        assert Touches(ps[i], ps[i][k].addr);
        StepCells(arrays, i, w, ps[i][k].addr);
      }
    }
    forall i, j, c: nat | 0 <= i < 64 && 0 <= j < 64 && i != j && Stores(ps[i], c) ensures !Touches(ps[j], c) {
      StepCells(arrays, i, w, c);
      if j < w && j + w < tail {
        StepCells(arrays, j, w, c);
      }
    }
  }

  /** Three more instructions of a lane's SUM_STEP: x is the lane's own cell, y the one it adds. */
  lemma AddArray(p: seq<Instr<real>>, m: seq<real>, x: nat, y: nat)
    requires Addressable(p, |m|) && x < |m| && y < |m|
    ensures var p' := p + AddProgram(x, y);
            Addressable(p', |m|) &&
            SoloMemory(p', m) == SoloMemory(p, m)[x := SoloMemory(p, m)[x] + SoloMemory(p, m)[y]]
  {
    var tail := AddProgram(x, y);
    var p', n := p + tail, |p|;
    assert Addressable(p', |m|);
    SoloPrefix(p, tail, m, n);
    var s := Solo(p, m, n);
    assert p'[n] == tail[0] && p'[n + 1] == tail[1] && p'[n + 2] == tail[2];
    assert Solo(p', m, n + 1) == (Thread(n + 1, s.0.regs + [s.1[x]]), s.1);
    assert Solo(p', m, n + 2) == (Thread(n + 2, s.0.regs + [s.1[x]] + [s.1[y]]), s.1);
  }

  /** Whether a lane's SUM_STEP over the first arrays updates cell c. */
  predicate Updated(arrays: nat, i: nat, c: nat) {
    c < 64 * arrays && c % 64 == i
  }

  lemma OneMoreArray(arrays: nat, i: nat, c: nat)
    requires arrays > 0 && i < 64
    ensures Updated(arrays, i, c) <==> Updated(arrays - 1, i, c) || c == 64 * (arrays - 1) + i
    ensures c >= 64 * (arrays - 1) ==> !Updated(arrays - 1, i, c)
  {
  }

  lemma StepUnfolds(arrays: nat, i: nat, w: nat, m: seq<real>)
    requires arrays > 0 && i + w < 64 && |m| >= 64 * arrays && Addressable(StepProgram(arrays - 1, i, w), |m|)
    ensures Addressable(StepProgram(arrays, i, w), |m|)
    ensures var x, before := 64 * (arrays - 1) + i, SoloMemory(StepProgram(arrays - 1, i, w), m);
            SoloMemory(StepProgram(arrays, i, w), m) == before[x := before[x] + before[x + w]]
  {
    var x := 64 * (arrays - 1) + i;
    AddArray(StepProgram(arrays - 1, i, w), m, x, x + w);
  }

  /** Alone, lane i adds lane i + w to itself in every array. */
  lemma {:induction false} SoloStep(arrays: nat, i: nat, w: nat, m: seq<real>, c: nat)
    requires i + w < 64 && 0 < w && |m| >= 64 * arrays && c < |m|
    ensures Addressable(StepProgram(arrays, i, w), |m|)
    ensures SoloMemory(StepProgram(arrays, i, w), m)[c] == if Updated(arrays, i, c) then m[c] + m[c + w] else m[c]
  {
    if arrays > 0 {
      var x := 64 * (arrays - 1) + i;
      SoloStep(arrays - 1, i, w, m, c);
      SoloStep(arrays - 1, i, w, m, x);
      SoloStep(arrays - 1, i, w, m, x + w);
      StepUnfolds(arrays, i, w, m);
      OneMoreArray(arrays, i, c);
      OneMoreArray(arrays, i, x);
      OneMoreArray(arrays, i, x + w);
    }
  }

  /** Cell c after the step. */
  function Stepped(m: seq<real>, tail: nat, w: nat, c: nat): real
    requires c < |m| && c % 64 + w < 64 ==> c + w < |m|
    requires c < |m|
  {
    if c % 64 < w && c % 64 + w < tail && c % 64 + w < 64 then m[c] + m[c + w] else m[c]
  }

  lemma LaunchSteps(arrays: nat, tail: nat, w: nat, m: seq<real>, m': seq<real>, c: nat)
    requires 0 < w && 2 * w <= 64 && |m| == 64 * arrays && c < |m|
    requires RaceFree(SumSteps(arrays, tail, w), |m|) && IsLaunch(SumSteps(arrays, tail, w), m, m')
    ensures m'[c] == Stepped(m, tail, w, c)
  {
    var ps, i := SumSteps(arrays, tail, w), c % 64;
    if i < w && i + w < tail {
      StepCells(arrays, i, w, c);
      SoloStep(arrays, i, w, m, c);
      assert m'[c] == SoloMemory(ps[i], m)[c];
    } else {
      forall j | 0 <= j < 64 ensures !Stores(ps[j], c) {
        if j < w && j + w < tail {
          StepCells(arrays, j, w, c);
        }
      }
    }
  }

  // ---------- sums over lanes ----------

  /** Sum of n cells from base on. */
  function CellSum(m: seq<real>, base: nat, n: nat): real
    requires base + n <= |m|
  {
    if n == 0 then 0.0 else CellSum(m, base, n - 1) + m[base + n - 1]
  }

  lemma {:induction false} CellSumSplit(m: seq<real>, base: nat, n: nat, k: nat)
    requires base + n + k <= |m|
    ensures CellSum(m, base, n + k) == CellSum(m, base, n) + CellSum(m, base + n, k)
  {
    if k > 0 {
      CellSumSplit(m, base, n, k - 1);
    }
  }

  function Min(a: nat, b: nat): nat {
    if a < b then a else b
  }

  /** Lane l of the array at base has made its step. */
  ghost predicate LaneStepped(m: seq<real>, m': seq<real>, base: nat, tail: nat, w: nat, l: nat)
    requires |m'| == |m| && base + 64 <= |m| && l + w < 64
  {
    m'[base + l] == if l + w < tail then m[base + l] + m[base + l + w] else m[base + l]
  }

  /** In the first t lanes the step collects the first t of the lanes in range from w on. */
  lemma {:induction false} StepCollects(m: seq<real>, m': seq<real>, base: nat, tail: nat, w: nat, t: nat)
    requires |m'| == |m| && base + 64 <= |m| && 2 * w <= 64 && t <= w
    requires forall l: nat :: l < w ==> LaneStepped(m, m', base, tail, w, l)
    ensures var r := if tail <= w then 0 else Min(t, tail - w);
            CellSum(m', base, t) == CellSum(m, base, t) + CellSum(m, base + w, r)
  {
    if t > 0 {
      StepCollects(m, m', base, tail, w, t - 1);
      assert LaneStepped(m, m', base, tail, w, t - 1);
    }
  }

  /** A step halves the number of lanes that matter and keeps the sum over those in range. */
  lemma StepKeepsSum(m: seq<real>, m': seq<real>, base: nat, tail: nat, w: nat)
    requires |m'| == |m| && base + 64 <= |m| && 2 * w <= 64
    requires forall l: nat :: l < w ==> LaneStepped(m, m', base, tail, w, l)
    ensures CellSum(m', base, Min(w, tail)) == CellSum(m, base, Min(2 * w, tail))
  {
    StepCollects(m, m', base, tail, w, Min(w, tail));
    if tail > w {
      CellSumSplit(m, base, w, Min(w, tail - w));
    }
  }

  lemma AllSteppedSums(m: seq<real>, m': seq<real>, arrays: nat, tail: nat, w: nat)
    requires |m'| == |m| == 64 * arrays && 2 * w <= 64
    requires forall c :: 0 <= c < |m| ==> m'[c] == Stepped(m, tail, w, c)
    ensures forall a: nat :: a < arrays ==>
              CellSum(m', 64 * a, Min(w, tail)) == CellSum(m, 64 * a, Min(2 * w, tail))
  {
    forall a: nat | a < arrays
      ensures CellSum(m', 64 * a, Min(w, tail)) == CellSum(m, 64 * a, Min(2 * w, tail))
    {
      forall l: nat | l < w ensures LaneStepped(m, m', 64 * a, tail, w, l) {
        assert m'[64 * a + l] == Stepped(m, tail, w, 64 * a + l);
      }
      StepKeepsSum(m, m', 64 * a, tail, w);
    }
  }

  /** SUM_STEP with its barrier, under any scheduler. */
  method RunSumStep(mem: array<real>, arrays: nat, tail: nat, w: nat)
    requires mem.Length == 64 * arrays && 0 < w && 2 * w <= 64
    modifies mem
    ensures forall c :: 0 <= c < mem.Length ==> mem[c] == Stepped(old(mem[..]), tail, w, c)
    ensures forall a: nat :: a < arrays ==>
              CellSum(mem[..], 64 * a, Min(w, tail)) == CellSum(old(mem[..]), 64 * a, Min(2 * w, tail))
  {
    ghost var m := mem[..];
    StepsAreRaceFree(arrays, tail, w);
    Launch(mem, SumSteps(arrays, tail, w));
    forall c: nat | c < mem.Length ensures mem[..][c] == Stepped(m, tail, w, c) {
      LaunchSteps(arrays, tail, w, m, mem[..], c);
    }
    AllSteppedSums(m, mem[..], arrays, tail, w);
  }

  /** The six steps of the kernel: lane 0 of every array ends with the sum of the array's lanes in range,
      whatever the other lanes hold. */
  method Reduce(mem: array<real>, arrays: nat, tail: nat)
    requires mem.Length == 64 * arrays && tail >= 1
    modifies mem
    ensures forall a: nat :: a < arrays ==> mem[64 * a] == CellSum(old(mem[..]), 64 * a, Min(64, tail))
  {
    RunSumStep(mem, arrays, tail, 32);
    RunSumStep(mem, arrays, tail, 16);
    RunSumStep(mem, arrays, tail, 8);
    RunSumStep(mem, arrays, tail, 4);
    RunSumStep(mem, arrays, tail, 2);
    RunSumStep(mem, arrays, tail, 1);
    forall a: nat | a < arrays ensures mem[64 * a] == CellSum(old(mem[..]), 64 * a, Min(64, tail)) {
      assert CellSum(mem[..], 64 * a, 1) == mem[64 * a];
    }
  }
}
