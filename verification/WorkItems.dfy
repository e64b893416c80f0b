/** Work-items of a kernel between two barriers: straight-line programs of single loads and stores
    over one shared memory, run in every possible interleaving.

    Whatever the scheduler does, work-items whose stores no other work-item touches leave the memory
    that each of them would leave when run alone. */
module WorkItems {

  /** One access to shared memory. A store computes its value from the values loaded so far. */
  datatype Instr<!T> =
    | Load(addr: nat)
    | Store(addr: nat, value: seq<T> -> T)

  /** Private state of a work-item: next instruction and the values it has loaded, oldest first. */
  datatype Thread<T> = Thread(pc: nat, regs: seq<T>)

  datatype Machine<T> = Machine(mem: seq<T>, threads: seq<Thread<T>>)

  ghost predicate Stores<T>(p: seq<Instr<T>>, c: nat) {
    exists k :: 0 <= k < |p| && p[k].Store? && p[k].addr == c
  }

  ghost predicate Touches<T>(p: seq<Instr<T>>, c: nat) {
    exists k :: 0 <= k < |p| && p[k].addr == c
  }

  ghost predicate Owned<T>(ps: seq<seq<Instr<T>>>, c: nat) {
    exists i :: 0 <= i < |ps| && Stores(ps[i], c)
  }

  ghost predicate Addressable<T>(p: seq<Instr<T>>, size: nat) {
    forall k :: 0 <= k < |p| ==> p[k].addr < size
  }

  lemma StoreTouches<T>(p: seq<Instr<T>>, c: nat)
    requires Stores(p, c)
    ensures Touches(p, c)
  {
  }

  /** No work-item touches a cell that another one stores to. */
  ghost predicate RaceFree<T>(ps: seq<seq<Instr<T>>>, size: nat) {
    && (forall i :: 0 <= i < |ps| ==> Addressable(ps[i], size))
    && (forall i, j, c: nat :: 0 <= i < |ps| && 0 <= j < |ps| && i != j && Stores(ps[i], c) ==> !Touches(ps[j], c))
  }

  function NextThread<T>(p: seq<Instr<T>>, th: Thread<T>, mem: seq<T>): Thread<T>
    requires th.pc < |p| && Addressable(p, |mem|)
  {
    match p[th.pc]
    case Load(a) => Thread(th.pc + 1, th.regs + [mem[a]])
    case Store(_, _) => Thread(th.pc + 1, th.regs)
  }

  function NextMemory<T>(p: seq<Instr<T>>, th: Thread<T>, mem: seq<T>): (r: seq<T>)
    requires th.pc < |p| && Addressable(p, |mem|)
    ensures |r| == |mem|
  {
    match p[th.pc]
    case Load(_) => mem
    case Store(a, f) => mem[a := f(th.regs)]
  }

  /** The work-item alone on the memory, after k of its instructions. */
  function Solo<T>(p: seq<Instr<T>>, mem: seq<T>, k: nat): (r: (Thread<T>, seq<T>))
    requires k <= |p| && Addressable(p, |mem|)
    ensures r.0.pc == k && |r.1| == |mem|
  {
    if k == 0 then (Thread(0, []), mem)
    else
      var s := Solo(p, mem, k - 1);
      (NextThread(p, s.0, s.1), NextMemory(p, s.0, s.1))
  }

  function SoloMemory<T>(p: seq<Instr<T>>, mem: seq<T>): (r: seq<T>)
    requires Addressable(p, |mem|)
    ensures |r| == |mem|
  {
    Solo(p, mem, |p|).1
  }

  lemma {:induction false} SoloFrame<T>(p: seq<Instr<T>>, mem: seq<T>, k: nat, c: nat)
    requires k <= |p| && Addressable(p, |mem|) && c < |mem| && !Stores(p, c)
    ensures Solo(p, mem, k).1[c] == mem[c]
  {
    if k > 0 {
      SoloFrame(p, mem, k - 1, c);
    }
  }

  /** What follows does not change the beginning of a run. */
  lemma {:induction false} SoloPrefix<T>(p: seq<Instr<T>>, q: seq<Instr<T>>, m: seq<T>, k: nat)
    requires k <= |p| && Addressable(p, |m|) && Addressable(p + q, |m|)
    ensures Solo(p + q, m, k) == Solo(p, m, k)
  {
    if k > 0 {
      SoloPrefix(p, q, m, k - 1);
      assert (p + q)[k - 1] == p[k - 1];
    }
  }

  /** Leading loads fill the registers and leave the memory alone. */
  lemma {:induction false} LoadsFirst<T>(p: seq<Instr<T>>, m: seq<T>, k: nat)
    requires k <= |p| && Addressable(p, |m|) && forall i :: 0 <= i < k ==> p[i].Load?
    ensures Solo(p, m, k).1 == m
    ensures |Solo(p, m, k).0.regs| == k && forall i :: 0 <= i < k ==> Solo(p, m, k).0.regs[i] == m[p[i].addr]
  {
    if k > 0 {
      LoadsFirst(p, m, k - 1);
    }
  }

  /** The memory m' is what every work-item leaves in its own cells when run alone on m. */
  ghost predicate IsLaunch<T>(ps: seq<seq<Instr<T>>>, m: seq<T>, m': seq<T>)
    requires RaceFree(ps, |m|)
  {
    && |m'| == |m|
    && (forall i, c: nat :: 0 <= i < |ps| && c < |m| && Stores(ps[i], c) ==> m'[c] == SoloMemory(ps[i], m)[c])
    && (forall c: nat :: c < |m| && !Owned(ps, c) ==> m'[c] == m[c])
  }

  lemma LaunchUnique<T>(ps: seq<seq<Instr<T>>>, m: seq<T>, m1: seq<T>, m2: seq<T>)
    requires RaceFree(ps, |m|) && IsLaunch(ps, m, m1) && IsLaunch(ps, m, m2)
    ensures m1 == m2
  {
    forall c | 0 <= c < |m| ensures m1[c] == m2[c] {
      if Owned(ps, c) {
        var i :| 0 <= i < |ps| && Stores(ps[i], c);
        assert m1[c] == SoloMemory(ps[i], m)[c];
      }
    }
  }

  // ---------- every interleaving ----------

  /** Work-item i is where it would be alone on the memory m. */
  ghost predicate ThreadInStep<T>(p: seq<Instr<T>>, m: seq<T>, th: Thread<T>)
    requires Addressable(p, |m|)
  {
    th.pc <= |p| && th == Solo(p, m, th.pc).0
  }

  /** A cell of its own holds what it would hold. */
  ghost predicate CellInStep<T>(p: seq<Instr<T>>, m: seq<T>, pc: nat, mem: seq<T>, c: nat)
    requires Addressable(p, |m|) && pc <= |p| && |mem| == |m|
  {
    c < |m| && Stores(p, c) ==> mem[c] == Solo(p, m, pc).1[c]
  }

  ghost predicate InStep<T>(ps: seq<seq<Instr<T>>>, m: seq<T>, st: Machine<T>)
    requires RaceFree(ps, |m|)
  {
    && |st.mem| == |m| && |st.threads| == |ps|
    && (forall i :: 0 <= i < |ps| ==> ThreadInStep(ps[i], m, st.threads[i]))
    && (forall i, c: nat :: 0 <= i < |ps| ==> CellInStep(ps[i], m, st.threads[i].pc, st.mem, c))
    && (forall c: nat :: c < |m| && !Owned(ps, c) ==> st.mem[c] == m[c])
  }

  ghost predicate Start<T>(ps: seq<seq<Instr<T>>>, m: seq<T>, st: Machine<T>) {
    st.mem == m && |st.threads| == |ps| && forall i :: 0 <= i < |ps| ==> st.threads[i] == Thread(0, [])
  }

  ghost predicate Finished<T>(ps: seq<seq<Instr<T>>>, st: Machine<T>) {
    |st.threads| == |ps| && forall i :: 0 <= i < |ps| ==> st.threads[i].pc == |ps[i]|
  }

  /** Work-item i executes its next instruction; a finished work-item stays as it is. */
  function Step<T>(ps: seq<seq<Instr<T>>>, st: Machine<T>, i: nat): (r: Machine<T>)
    requires i < |ps| == |st.threads| && RaceFree(ps, |st.mem|)
    ensures |r.mem| == |st.mem| && |r.threads| == |ps|
  {
    var th := st.threads[i];
    if th.pc < |ps[i]| then
      Machine(NextMemory(ps[i], th, st.mem), st.threads[i := NextThread(ps[i], th, st.mem)])
    else
      st
  }

  lemma OnlyOwnerTouches<T>(ps: seq<seq<Instr<T>>>, size: nat, i: nat, j: nat, c: nat)
    requires RaceFree(ps, size) && i < |ps| && j < |ps| && i != j && Touches(ps[j], c)
    ensures !Stores(ps[i], c)
  {
  }

  lemma StartInStep<T>(ps: seq<seq<Instr<T>>>, m: seq<T>, st: Machine<T>)
    requires RaceFree(ps, |m|) && Start(ps, m, st)
    ensures InStep(ps, m, st)
  {
  }

  /** A work-item reads the cell it would read alone: nobody else can have stored to it. */
  lemma OwnView<T>(ps: seq<seq<Instr<T>>>, m: seq<T>, st: Machine<T>, i: nat, c: nat)
    requires RaceFree(ps, |m|) && InStep(ps, m, st) && i < |ps| && c < |m| && Touches(ps[i], c)
    ensures ThreadInStep(ps[i], m, st.threads[i])
    ensures st.mem[c] == Solo(ps[i], m, st.threads[i].pc).1[c]
  {
    assert CellInStep(ps[i], m, st.threads[i].pc, st.mem, c);
    if !Stores(ps[i], c) {
      forall j | 0 <= j < |ps| ensures !Stores(ps[j], c) {
        if j != i {
          OnlyOwnerTouches(ps, |m|, j, i, c);
        }
      }
      SoloFrame(ps[i], m, st.threads[i].pc, c);
    }
  }

  /** An instruction has the same effect wherever registers and the addressed cell agree. */
  lemma NextAgrees<T>(p: seq<Instr<T>>, m: seq<T>, th: Thread<T>, mem: seq<T>, c: nat)
    requires Addressable(p, |m|) && |mem| == |m| && th.pc < |p| && th == Solo(p, m, th.pc).0
    requires mem[p[th.pc].addr] == Solo(p, m, th.pc).1[p[th.pc].addr]
    ensures NextThread(p, th, mem) == Solo(p, m, th.pc + 1).0
    ensures c < |m| && mem[c] == Solo(p, m, th.pc).1[c] ==> NextMemory(p, th, mem)[c] == Solo(p, m, th.pc + 1).1[c]
  {
    var s := Solo(p, m, th.pc);
    assert Solo(p, m, th.pc + 1) == (NextThread(p, s.0, s.1), NextMemory(p, s.0, s.1));
  }

  lemma NextFrame<T>(p: seq<Instr<T>>, th: Thread<T>, mem: seq<T>, c: nat)
    requires th.pc < |p| && Addressable(p, |mem|) && c < |mem| && !Stores(p, c)
    ensures NextMemory(p, th, mem)[c] == mem[c]
  {
  }

  lemma StepCells<T>(ps: seq<seq<Instr<T>>>, m: seq<T>, st: Machine<T>, i: nat, j: nat, c: nat)
    requires RaceFree(ps, |m|) && InStep(ps, m, st) && i < |ps| && j < |ps|
    requires st.threads[i].pc < |ps[i]|
    ensures var st' := Step(ps, st, i);
            && ThreadInStep(ps[j], m, st'.threads[j])
            && CellInStep(ps[j], m, st'.threads[j].pc, st'.mem, c)
  {
    var th := st.threads[i];
    assert ThreadInStep(ps[j], m, st.threads[j]);
    assert CellInStep(ps[j], m, st.threads[j].pc, st.mem, c);
    if j == i {
      assert Touches(ps[i], ps[i][th.pc].addr);
      OwnView(ps, m, st, i, ps[i][th.pc].addr);
      NextAgrees(ps[i], m, th, st.mem, c);
    } else if c < |m| && Stores(ps[j], c) {
      StoreTouches(ps[j], c);
      OnlyOwnerTouches(ps, |m|, i, j, c);
      NextFrame(ps[i], th, st.mem, c);
    }
  }

  lemma StepInStep<T>(ps: seq<seq<Instr<T>>>, m: seq<T>, st: Machine<T>, i: nat)
    requires RaceFree(ps, |m|) && InStep(ps, m, st) && i < |ps|
    ensures InStep(ps, m, Step(ps, st, i))
  {
    if st.threads[i].pc < |ps[i]| {
      var st' := Step(ps, st, i);
      forall j | 0 <= j < |ps| ensures ThreadInStep(ps[j], m, st'.threads[j]) {
        StepCells(ps, m, st, i, j, 0);
      }
      forall j, c: nat | 0 <= j < |ps|
        ensures CellInStep(ps[j], m, st'.threads[j].pc, st'.mem, c)
      {
        StepCells(ps, m, st, i, j, c);
      }
      forall c: nat | c < |m| && !Owned(ps, c) ensures st'.mem[c] == m[c] {
        NextFrame(ps[i], st.threads[i], st.mem, c);
      }
    }
  }

  function RunSchedule<T>(ps: seq<seq<Instr<T>>>, st: Machine<T>, schedule: seq<nat>): (r: Machine<T>)
    requires |st.threads| == |ps| && RaceFree(ps, |st.mem|)
    requires forall n :: 0 <= n < |schedule| ==> schedule[n] < |ps|
    ensures |r.mem| == |st.mem| && |r.threads| == |ps|
    decreases schedule
  {
    if schedule == [] then st
    else RunSchedule(ps, Step(ps, st, schedule[0]), schedule[1..])
  }

  lemma {:induction false} ScheduleInStep<T>(ps: seq<seq<Instr<T>>>, m: seq<T>, st: Machine<T>, schedule: seq<nat>)
    requires RaceFree(ps, |m|) && InStep(ps, m, st)
    requires forall n :: 0 <= n < |schedule| ==> schedule[n] < |ps|
    ensures InStep(ps, m, RunSchedule(ps, st, schedule))
    decreases schedule
  {
    if schedule != [] {
      StepInStep(ps, m, st, schedule[0]);
      ScheduleInStep(ps, m, Step(ps, st, schedule[0]), schedule[1..]);
    }
  }

  /** Every schedule that lets all work-items finish ends in the memory that the work-items leave when they are
      run one after the other. */
  lemma EverySchedule<T>(ps: seq<seq<Instr<T>>>, m: seq<T>, st: Machine<T>, schedule: seq<nat>)
    requires RaceFree(ps, |m|) && Start(ps, m, st)
    requires forall n :: 0 <= n < |schedule| ==> schedule[n] < |ps|
    requires Finished(ps, RunSchedule(ps, st, schedule))
    ensures RunSchedule(ps, st, schedule).mem == OneByOne(ps, m, |ps|)
    ensures IsLaunch(ps, m, RunSchedule(ps, st, schedule).mem)
  {
    var end := RunSchedule(ps, st, schedule);
    ScheduleInStep(ps, m, st, schedule);
    EndIsOneByOne(ps, m, end);
  }

  lemma EndIsOneByOne<T>(ps: seq<seq<Instr<T>>>, m: seq<T>, end: Machine<T>)
    requires RaceFree(ps, |m|) && InStep(ps, m, end) && Finished(ps, end)
    ensures IsLaunch(ps, m, end.mem) && end.mem == OneByOne(ps, m, |ps|)
  {
    FinishedIsLaunch(ps, m, end);
    OneByOneIsLaunch(ps, m);
    LaunchUnique(ps, m, end.mem, OneByOne(ps, m, |ps|));
  }

  lemma FinishedIsLaunch<T>(ps: seq<seq<Instr<T>>>, m: seq<T>, st: Machine<T>)
    requires RaceFree(ps, |m|) && InStep(ps, m, st) && Finished(ps, st)
    ensures IsLaunch(ps, m, st.mem)
  {
    forall i, c: nat | 0 <= i < |ps| && c < |m| && Stores(ps[i], c)
      ensures st.mem[c] == SoloMemory(ps[i], m)[c]
    {
      assert CellInStep(ps[i], m, st.threads[i].pc, st.mem, c);
    }
  }

  // ---------- one work-item after the other ----------

  function OneByOne<T>(ps: seq<seq<Instr<T>>>, m: seq<T>, count: nat): (r: seq<T>)
    requires count <= |ps| && RaceFree(ps, |m|)
    ensures |r| == |m|
  {
    if count == 0 then m else SoloMemory(ps[count - 1], OneByOne(ps, m, count - 1))
  }

  /** Two memories agree on the cells a work-item touches. */
  ghost predicate Agree<T>(p: seq<Instr<T>>, m1: seq<T>, m2: seq<T>) {
    |m1| == |m2| && forall c :: 0 <= c < |m1| && Touches(p, c) ==> m1[c] == m2[c]
  }

  lemma StepAgrees<T>(p: seq<Instr<T>>, th: Thread<T>, m1: seq<T>, m2: seq<T>)
    requires th.pc < |p| && Addressable(p, |m1|) && Agree(p, m1, m2)
    ensures NextThread(p, th, m1) == NextThread(p, th, m2)
    ensures Agree(p, NextMemory(p, th, m1), NextMemory(p, th, m2))
  {
    assert Touches(p, p[th.pc].addr);
  }

  /** A run depends only on the cells it touches. */
  lemma {:induction false} SoloAgrees<T>(p: seq<Instr<T>>, m1: seq<T>, m2: seq<T>, k: nat)
    requires k <= |p| && |m1| == |m2| && Addressable(p, |m1|)
    requires Agree(p, m1, m2)
    ensures Solo(p, m1, k).0 == Solo(p, m2, k).0 && Agree(p, Solo(p, m1, k).1, Solo(p, m2, k).1)
  {
    if k > 0 {
      SoloAgrees(p, m1, m2, k - 1);
      StepAgrees(p, Solo(p, m1, k - 1).0, Solo(p, m1, k - 1).1, Solo(p, m2, k - 1).1);
    }
  }

  /** Before its turn, a work-item's cells are as they were at the beginning. */
  lemma {:induction false} NotYetTouched<T>(ps: seq<seq<Instr<T>>>, m: seq<T>, count: nat, j: nat, c: nat)
    requires count <= j < |ps| && RaceFree(ps, |m|) && c < |m| && Touches(ps[j], c)
    ensures OneByOne(ps, m, count)[c] == m[c]
  {
    if count > 0 {
      NotYetTouched(ps, m, count - 1, j, c);
      OnlyOwnerTouches(ps, |m|, count - 1, j, c);
      SoloFrame(ps[count - 1], OneByOne(ps, m, count - 1), |ps[count - 1]|, c);
    }
  }

  /** After its turn, they are as its solo run leaves them. */
  lemma {:induction false} DoneOnce<T>(ps: seq<seq<Instr<T>>>, m: seq<T>, count: nat, i: nat, c: nat)
    requires i < count <= |ps| && RaceFree(ps, |m|) && c < |m| && Stores(ps[i], c)
    ensures OneByOne(ps, m, count)[c] == SoloMemory(ps[i], m)[c]
  {
    StoreTouches(ps[i], c);
    if i == count - 1 {
      forall c' | 0 <= c' < |m| && Touches(ps[i], c') ensures OneByOne(ps, m, i)[c'] == m[c'] {
        NotYetTouched(ps, m, i, i, c');
      }
      SoloAgrees(ps[i], OneByOne(ps, m, i), m, |ps[i]|);
    } else {
      DoneOnce(ps, m, count - 1, i, c);
      OnlyOwnerTouches(ps, |m|, count - 1, i, c);
      SoloFrame(ps[count - 1], OneByOne(ps, m, count - 1), |ps[count - 1]|, c);
    }
  }

  lemma {:induction false} NeverOwned<T>(ps: seq<seq<Instr<T>>>, m: seq<T>, count: nat, c: nat)
    requires count <= |ps| && RaceFree(ps, |m|) && c < |m| && !Owned(ps, c)
    ensures OneByOne(ps, m, count)[c] == m[c]
  {
    if count > 0 {
      NeverOwned(ps, m, count - 1, c);
      SoloFrame(ps[count - 1], OneByOne(ps, m, count - 1), |ps[count - 1]|, c);
    }
  }

  /** Running the work-items one after the other is one of the runs every schedule agrees with. */
  lemma OneByOneIsLaunch<T>(ps: seq<seq<Instr<T>>>, m: seq<T>)
    requires RaceFree(ps, |m|)
    ensures IsLaunch(ps, m, OneByOne(ps, m, |ps|))
  {
    forall i, c: nat | 0 <= i < |ps| && c < |m| && Stores(ps[i], c)
      ensures OneByOne(ps, m, |ps|)[c] == SoloMemory(ps[i], m)[c]
    {
      DoneOnce(ps, m, |ps|, i, c);
    }
    forall c: nat | c < |m| && !Owned(ps, c) ensures OneByOne(ps, m, |ps|)[c] == m[c] {
      NeverOwned(ps, m, |ps|, c);
    }
  }

  // ---------- the launch on a real buffer ----------

  ghost function Remaining<T>(ps: seq<seq<Instr<T>>>, threads: seq<Thread<T>>): nat
    requires |threads| == |ps| && forall i :: 0 <= i < |ps| ==> threads[i].pc <= |ps[i]|
  {
    if |ps| == 0 then 0
    else |ps[0]| - threads[0].pc + Remaining(ps[1..], threads[1..])
  }

  lemma {:induction false} RemainingDrops<T>(ps: seq<seq<Instr<T>>>, threads: seq<Thread<T>>, i: nat, th: Thread<T>)
    requires |threads| == |ps| && forall j :: 0 <= j < |ps| ==> threads[j].pc <= |ps[j]|
    requires i < |ps| && threads[i].pc < th.pc <= |ps[i]|
    ensures Remaining(ps, threads[i := th]) < Remaining(ps, threads)
  {
    if i == 0 {
      assert threads[i := th][1..] == threads[1..];
    } else {
      assert threads[i := th][1..] == threads[1..][i - 1 := th];
      RemainingDrops(ps[1..], threads[1..], i - 1, th);
    }
  }

  /** Work-item p performs its next access on the shared buffer. */
  method Access<T>(mem: array<T>, p: seq<Instr<T>>, th: Thread<T>) returns (th': Thread<T>)
    requires th.pc < |p| && Addressable(p, mem.Length)
    modifies mem
    ensures th' == NextThread(p, th, old(mem[..])) && mem[..] == NextMemory(p, th, old(mem[..]))
  {
    match p[th.pc] {
      case Load(a) =>
        th' := Thread(th.pc + 1, th.regs + [mem[a]]);
      case Store(a, f) =>
        mem[a] := f(th.regs);
        th' := Thread(th.pc + 1, th.regs);
    }
  }

  /** A launch: as long as some work-item is unfinished, the scheduler picks any one of them and lets
      it perform its next load or store. */
  method Launch<T>(mem: array<T>, ps: seq<seq<Instr<T>>>)
    requires RaceFree(ps, mem.Length)
    modifies mem
    ensures IsLaunch(ps, old(mem[..]), mem[..])
  {
    ghost var m := mem[..];
    var threads: seq<Thread<T>> := seq(|ps|, _ => Thread(0, []));
    ghost var st := Machine(mem[..], threads);
    StartInStep(ps, m, st);
    while exists i :: 0 <= i < |ps| && threads[i].pc < |ps[i]|
      invariant st == Machine(mem[..], threads) && |threads| == |ps| && |st.mem| == |m|
      invariant InStep(ps, m, st)
      invariant forall i :: 0 <= i < |ps| ==> threads[i].pc <= |ps[i]|
      decreases Remaining(ps, threads)
    {
      var i :| 0 <= i < |ps| && threads[i].pc < |ps[i]|;
      StepInStep(ps, m, st, i);
      var th := Access(mem, ps[i], threads[i]);
      RemainingDrops(ps, threads, i, th);
      threads := threads[i := th];
      st := Step(ps, st, i);
    }
    FinishedIsLaunch(ps, m, st);
  }
}
