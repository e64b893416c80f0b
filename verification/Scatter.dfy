/** Launches in which the work-items only store: the cells are dealt out to the work-items, and every cell ends
    up with its own value. */
module Scatter {
  import opened Powers
  import opened WorkItems

  function Const<T>(v: T): seq<T> -> T {
    (regs: seq<T>) => v
  }

  /** Stores of f(c) to the given cells c, one after the other. */
  function Writes<T>(cells: seq<nat>, f: nat -> T): seq<Instr<T>> {
    if cells == [] then [] else
      Writes(cells[..|cells| - 1], f) + [Store(cells[|cells| - 1], Const(f(cells[|cells| - 1])))]
  }

  lemma WritesAppend<T>(cells: seq<nat>, c: nat, f: nat -> T)
    ensures Writes(cells + [c], f) == Writes(cells, f) + [Store(c, Const(f(c)))]
  {
    assert (cells + [c])[..|cells|] == cells;
  }

  lemma {:induction false} SoloWrites<T>(cells: seq<nat>, f: nat -> T, m: seq<T>, c: nat)
    requires forall k :: 0 <= k < |cells| ==> cells[k] < |m|
    requires c < |m|
    ensures Addressable(Writes(cells, f), |m|)
    ensures SoloMemory(Writes(cells, f), m)[c] == if c in cells then f(c) else m[c]
  {
    if cells != [] {
      var init, x := cells[..|cells| - 1], cells[|cells| - 1];
      SoloWrites(init, f, m, c);
      var p, n, store := Writes(init, f), |Writes(init, f)|, Store(x, Const(f(x)));
      SoloPrefix(p, [store], m, n);
      assert (p + [store])[n] == store;
      assert cells == init + [x];
    }
  }

  lemma {:induction false} WritesTouch<T>(cells: seq<nat>, f: nat -> T, c: nat)
    ensures Touches(Writes(cells, f), c) <==> c in cells
    ensures Stores(Writes(cells, f), c) <==> c in cells
  {
    if cells != [] {
      var init, x := cells[..|cells| - 1], cells[|cells| - 1];
      WritesTouch(init, f, c);
      var p, n := Writes(cells, f), |Writes(init, f)|;
      assert p[n] == Store(x, Const(f(x)));
      assert forall k :: 0 <= k < n ==> p[k] == Writes(init, f)[k];
      assert cells == init + [x];
    }
  }

  lemma OneMoreItem<T>(ps: seq<seq<Instr<T>>>, p: seq<Instr<T>>, cells: nat -> seq<nat>, f: nat -> T)
    requires AreWrites(ps, cells, f) && p == Writes(cells(|ps|), f)
    ensures AreWrites(ps + [p], cells, f)
  {
  }

  /** The cells of count work-items lie below size, and no cell belongs to two of them; an owner that is not one
      of them says that a cell belongs to none. */
  ghost predicate PartlyDealt(cells: nat -> seq<nat>, owner: nat -> nat, count: nat, size: nat) {
    forall w: nat, c: nat :: w < count ==> DealtCell(cells, owner, size, w, c)
  }

  /** Every cell below size belongs to one of count work-items, and is among that work-item's cells only. */
  ghost predicate Dealt(cells: nat -> seq<nat>, owner: nat -> nat, count: nat, size: nat) {
    (forall c: nat :: c < size ==> owner(c) < count) && PartlyDealt(cells, owner, count, size)
  }

  predicate DealtCell(cells: nat -> seq<nat>, owner: nat -> nat, size: nat, w: nat, c: nat) {
    c in cells(w) <==> c < size && owner(c) == w
  }

  ghost predicate AreWrites<T>(ps: seq<seq<Instr<T>>>, cells: nat -> seq<nat>, f: nat -> T) {
    forall w: nat :: w < |ps| ==> ps[w] == Writes(cells(w), f)
  }

  lemma WritesOwnOnly<T>(ps: seq<seq<Instr<T>>>, cells: nat -> seq<nat>, owner: nat -> nat, f: nat -> T, size: nat,
                      w: nat, c: nat)
    requires AreWrites(ps, cells, f) && PartlyDealt(cells, owner, |ps|, size) && w < |ps| && Touches(ps[w], c)
    ensures c < size && owner(c) == w
  {
    assert ps[w] == Writes(cells(w), f);
    WritesTouch(cells(w), f, c);
    assert DealtCell(cells, owner, size, w, c);
  }

  lemma DealtIsRaceFree<T>(ps: seq<seq<Instr<T>>>, cells: nat -> seq<nat>, owner: nat -> nat, f: nat -> T, size: nat)
    requires AreWrites(ps, cells, f) && PartlyDealt(cells, owner, |ps|, size)
    ensures RaceFree(ps, size)
  {
    forall w | 0 <= w < |ps| ensures Addressable(ps[w], size) {
      forall k | 0 <= k < |ps[w]| ensures ps[w][k].addr < size {
        WritesOwnOnly(ps, cells, owner, f, size, w, ps[w][k].addr);
      }
    }
    forall i, j, c: nat | 0 <= i < |ps| && 0 <= j < |ps| && i != j && Stores(ps[i], c) ensures !Touches(ps[j], c) {
      StoreTouches(ps[i], c);
      WritesOwnOnly(ps, cells, owner, f, size, i, c);
      if Touches(ps[j], c) {
        WritesOwnOnly(ps, cells, owner, f, size, j, c);
      }
    }
  }

  /** Whatever the order, a cell that belongs to a work-item ends up with f(c), and the others keep what they held. */
  lemma ScatteredCell<T>(ps: seq<seq<Instr<T>>>, cells: nat -> seq<nat>, owner: nat -> nat, f: nat -> T,
                         m: seq<T>, m': seq<T>, c: nat)
    requires AreWrites(ps, cells, f) && PartlyDealt(cells, owner, |ps|, |m|)
    requires RaceFree(ps, |m|) && IsLaunch(ps, m, m') && c < |m|
    ensures m'[c] == if owner(c) < |ps| then f(c) else m[c]
  {
    if owner(c) < |ps| {
      OwnedCell(ps, cells, owner, f, m, m', c);
    } else if Owned(ps, c) {
      var i :| 0 <= i < |ps| && Stores(ps[i], c);
      StoreTouches(ps[i], c);
      WritesOwnOnly(ps, cells, owner, f, |m|, i, c);
    }
  }

  lemma OwnedCell<T>(ps: seq<seq<Instr<T>>>, cells: nat -> seq<nat>, owner: nat -> nat, f: nat -> T,
                     m: seq<T>, m': seq<T>, c: nat)
    requires AreWrites(ps, cells, f) && PartlyDealt(cells, owner, |ps|, |m|)
    requires RaceFree(ps, |m|) && IsLaunch(ps, m, m') && c < |m| && owner(c) < |ps|
    ensures m'[c] == f(c)
  {
    var w := owner(c);
    assert ps[w] == Writes(cells(w), f);
    assert DealtCell(cells, owner, |m|, w, c);
    forall k | 0 <= k < |cells(w)| ensures cells(w)[k] < |m| {
      var d := cells(w)[k];
      assert DealtCell(cells, owner, |m|, w, d);
    }
    WritesTouch(cells(w), f, c);
    SoloWrites(cells(w), f, m, c);
    assert Stores(ps[w], c);
  }

  method LaunchWrites<T>(shared: array<T>, ps: seq<seq<Instr<T>>>, ghost cells: nat -> seq<nat>,
                         ghost owner: nat -> nat, ghost f: nat -> T)
    requires AreWrites(ps, cells, f) && PartlyDealt(cells, owner, |ps|, shared.Length)
    modifies shared
    ensures forall c: nat :: c < shared.Length ==>
              shared[c] == if owner(c) < |ps| then f(c) else old(shared[c])
  {
    ghost var m := shared[..];
    DealtIsRaceFree(ps, cells, owner, f, shared.Length);
    Launch(shared, ps);
    forall c: nat | c < shared.Length ensures shared[c] == if owner(c) < |ps| then f(c) else m[c] {
      ScatteredCell(ps, cells, owner, f, m, shared[..], c);
    }
  }

  // ---------- index patterns ----------

  /** The cells base + j * step + l for j < n. */
  function Strided(base: nat, step: nat, l: nat, n: nat): seq<nat> {
    if n == 0 then [] else Strided(base, step, l, n - 1) + [base + (n - 1) * step + l]
  }

  lemma {:induction false} InStrided(base: nat, step: nat, l: nat, n: nat, c: nat) returns (j: nat)
    requires c in Strided(base, step, l, n)
    ensures j < n && c == base + j * step + l
  {
    if c in Strided(base, step, l, n - 1) {
      j := InStrided(base, step, l, n - 1, c);
    } else {
      j := n - 1;
    }
  }

  lemma {:induction false} StridedHas(base: nat, step: nat, l: nat, n: nat, j: nat)
    requires j < n
    ensures base + j * step + l in Strided(base, step, l, n)
  {
    if j < n - 1 {
      StridedHas(base, step, l, n - 1, j);
    }
  }

  /** Work-item l of step has every step-th of n * step cells. */
  function StridedCells(step: nat, n: nat): nat -> seq<nat> {
    (l: nat) => Strided(0, step, l, n)
  }

  function StridedOwner(step: nat, n: nat): nat -> nat
    requires step > 0
  {
    (c: nat) => if c < n * step then c % step else step
  }

  lemma StridedDealtCell(step: nat, n: nat, size: nat, l: nat, c: nat)
    requires l < step && n * step <= size
    ensures DealtCell(StridedCells(step, n), StridedOwner(step, n), size, l, c)
  {
    if c in Strided(0, step, l, n) {
      StridedOwned(step, n, l, c);
    }
    if c < n * step && c % step == l {
      OwnedStrided(step, n, c);
    }
  }

  lemma StridedOwned(step: nat, n: nat, l: nat, c: nat)
    requires l < step && c in Strided(0, step, l, n)
    ensures c < n * step && c % step == l
  {
    var j := InStrided(0, step, l, n, c);
    RowColumn(j, step, l);
    CellInside(j, l, n, step);
  }

  lemma OwnedStrided(step: nat, n: nat, c: nat)
    requires step > 0 && c < n * step
    ensures c in Strided(0, step, c % step, n)
  {
    DivisionEquation(c, step);
    QuotientBelow(c, n, step);
    StridedHas(0, step, c % step, n, c / step);
  }

  lemma StridedPartlyDealt(step: nat, n: nat, size: nat)
    requires step > 0 && n * step <= size
    ensures PartlyDealt(StridedCells(step, n), StridedOwner(step, n), step, size)
  {
    forall l: nat, c: nat | l < step ensures DealtCell(StridedCells(step, n), StridedOwner(step, n), size, l, c) {
      StridedDealtCell(step, n, size, l, c);
    }
  }

  lemma StridedDealt(step: nat, n: nat)
    requires step > 0
    ensures Dealt(StridedCells(step, n), StridedOwner(step, n), step, n * step)
  {
    StridedPartlyDealt(step, n, n * step);
  }
}
