/**
 The cost/direction grid of the edit-script engine.

 Cell (i, j) describes how the prefix `a[..i]` is turned into the prefix
 `b[..j]`: its cost is the number of deletions plus insertions, and its
 direction records which neighbour the cheapest way comes from. There is no
 substitution; a diagonal step is free and only allowed between elements that
 the caller's `eq` relates.
 */
module Grid {

  /** The direction stored in a cell. */
  datatype BareOp = Del | Ins | Nop

  /** The third candidate of a cell: a real cost, or the sentinel `usize::MAX`
      used when the diagonal is not allowed. */
  datatype Bound = At(n: nat) | Max

  /** What a cell holds: its direction and its cost. */
  datatype Choice = Choice(op: BareOp, cost: nat)

  /** `x <= c`, where every real cost is below the sentinel. */
  predicate AtMost(x: nat, c: Bound) {
    c.Max? || x <= c.n
  }

  /** Picks the cheapest of the three candidates. Ties go to Del, then Ins,
      then Nop, so the tag names the FIRST candidate reaching the minimum. */
  function OpselMin(del: nat, ins: nat, diag: Bound): (r: Choice)
    ensures r.cost <= del && r.cost <= ins && AtMost(r.cost, diag)
    ensures r.op == Del ==> r.cost == del
    ensures r.op == Ins ==> r.cost == ins && r.cost < del
    ensures r.op == Nop ==> diag == At(r.cost) && r.cost < del && r.cost < ins
  {
    if del <= ins && AtMost(del, diag) then Choice(Del, del)
    else if AtMost(ins, diag) then Choice(Ins, ins)
    else Choice(Nop, diag.n)
  }

  /** The cell (i, j) of the grid filled for `a` and `b`. Row 0 holds pure
      insertions, column 0 pure deletions, and the origin keeps Nop. */
  function Cell<T>(a: seq<T>, b: seq<T>, eq: (T, T) -> bool, i: nat, j: nat): (r: Choice)
    requires i <= |a| && j <= |b|
    ensures r.op == Del ==> i > 0
    ensures r.op == Ins ==> j > 0
    ensures r.op == Nop ==> (i == 0 && j == 0) || (i > 0 && j > 0 && eq(a[i - 1], b[j - 1]))
    decreases i + j
  {
    if i == 0 && j == 0 then Choice(Nop, 0)
    else if i == 0 then Choice(Ins, j)
    else if j == 0 then Choice(Del, i)
    else
      OpselMin(Cell(a, b, eq, i - 1, j).cost + 1,
               Cell(a, b, eq, i, j - 1).cost + 1,
               if eq(a[i - 1], b[j - 1]) then At(Cell(a, b, eq, i - 1, j - 1).cost) else Max)
  }

  /** An interior cell is the cheapest of its three candidates. */
  lemma CellInterior<T>(a: seq<T>, b: seq<T>, eq: (T, T) -> bool, i: nat, j: nat)
    requires 0 < i <= |a| && 0 < j <= |b|
    ensures Cell(a, b, eq, i, j)
         == OpselMin(Cell(a, b, eq, i - 1, j).cost + 1, Cell(a, b, eq, i, j - 1).cost + 1,
                     if eq(a[i - 1], b[j - 1]) then At(Cell(a, b, eq, i - 1, j - 1).cost) else Max)
  {
  }

  /** A cell is never dearer than any neighbour it may step from. */
  lemma CellNeighbours<T>(a: seq<T>, b: seq<T>, eq: (T, T) -> bool, i: nat, j: nat)
    requires i <= |a| && j <= |b|
    ensures i > 0 ==> Cell(a, b, eq, i, j).cost <= Cell(a, b, eq, i - 1, j).cost + 1
    ensures j > 0 ==> Cell(a, b, eq, i, j).cost <= Cell(a, b, eq, i, j - 1).cost + 1
    ensures i > 0 && j > 0 && eq(a[i - 1], b[j - 1]) ==>
              Cell(a, b, eq, i, j).cost <= Cell(a, b, eq, i - 1, j - 1).cost
  {
  }

  /** The recorded direction names the neighbour the cost comes from. */
  lemma CellStep<T>(a: seq<T>, b: seq<T>, eq: (T, T) -> bool, i: nat, j: nat)
    requires i <= |a| && j <= |b|
    requires i > 0 || j > 0
    ensures Cell(a, b, eq, i, j).op == Del ==> Cell(a, b, eq, i, j).cost == Cell(a, b, eq, i - 1, j).cost + 1
    ensures Cell(a, b, eq, i, j).op == Ins ==> Cell(a, b, eq, i, j).cost == Cell(a, b, eq, i, j - 1).cost + 1
    ensures Cell(a, b, eq, i, j).op == Nop ==> Cell(a, b, eq, i, j).cost == Cell(a, b, eq, i - 1, j - 1).cost
  {
  }

  /** Turning i elements into j elements needs at least |i - j| edits. */
  lemma {:induction false} CostLowerBound<T>(a: seq<T>, b: seq<T>, eq: (T, T) -> bool, i: nat, j: nat)
    requires i <= |a| && j <= |b|
    ensures i <= j + Cell(a, b, eq, i, j).cost
    ensures j <= i + Cell(a, b, eq, i, j).cost
    decreases i + j
  {
    if i > 0 && j > 0 {
      CostLowerBound(a, b, eq, i - 1, j);
      CostLowerBound(a, b, eq, i, j - 1);
      CostLowerBound(a, b, eq, i - 1, j - 1);
      CellStep(a, b, eq, i, j);
    }
  }

  /** `p` is a sequence of steps leading from (0, 0) to (i, j): Del consumes an
      element of `a`, Ins one of `b`, and Nop one of each, related by `eq`. */
  predicate IsPath<T>(a: seq<T>, b: seq<T>, eq: (T, T) -> bool, p: seq<BareOp>, i: nat, j: nat)
    requires i <= |a| && j <= |b|
    decreases |p|
  {
    if p == [] then i == 0 && j == 0
    else
      match p[|p| - 1]
      case Del => i > 0 && IsPath(a, b, eq, p[..|p| - 1], i - 1, j)
      case Ins => j > 0 && IsPath(a, b, eq, p[..|p| - 1], i, j - 1)
      case Nop => i > 0 && j > 0 && eq(a[i - 1], b[j - 1]) && IsPath(a, b, eq, p[..|p| - 1], i - 1, j - 1)
  }

  /** How often the step `d` occurs in `p`. */
  function Count(p: seq<BareOp>, d: BareOp): nat
    decreases |p|
  {
    if p == [] then 0
    else Count(p[..|p| - 1], d) + (if p[|p| - 1] == d then 1 else 0)
  }

  /** The number of deletions and insertions along `p`. */
  function PathCost(p: seq<BareOp>): nat {
    Count(p, Del) + Count(p, Ins)
  }

  lemma CountSnoc(p: seq<BareOp>, x: BareOp, d: BareOp)
    ensures Count(p + [x], d) == Count(p, d) + (if x == d then 1 else 0)
  {
    assert (p + [x])[..|p|] == p;
  }

  /** A path to (i, j) consumes every element of `a[..i]` exactly once (by a
      Del or a diagonal) and every element of `b[..j]` exactly once. */
  lemma {:induction false} PathConsumes<T>(a: seq<T>, b: seq<T>, eq: (T, T) -> bool, p: seq<BareOp>, i: nat, j: nat)
    requires i <= |a| && j <= |b|
    requires IsPath(a, b, eq, p, i, j)
    ensures Count(p, Del) + Count(p, Nop) == i
    ensures Count(p, Ins) + Count(p, Nop) == j
    decreases |p|
  {
    if p != [] {
      var q := p[..|p| - 1];
      assert p == q + [p[|p| - 1]];
      CountSnoc(q, p[|p| - 1], Del);
      CountSnoc(q, p[|p| - 1], Ins);
      CountSnoc(q, p[|p| - 1], Nop);
      match p[|p| - 1]
      case Del => PathConsumes(a, b, eq, q, i - 1, j);
      case Ins => PathConsumes(a, b, eq, q, i, j - 1);
      case Nop => PathConsumes(a, b, eq, q, i - 1, j - 1);
    }
  }

  /** No path to (i, j) is cheaper than the cell's cost. */
  lemma {:induction false} CellIsOptimal<T>(a: seq<T>, b: seq<T>, eq: (T, T) -> bool, p: seq<BareOp>, i: nat, j: nat)
    requires i <= |a| && j <= |b|
    requires IsPath(a, b, eq, p, i, j)
    ensures Cell(a, b, eq, i, j).cost <= PathCost(p)
    decreases |p|
  {
    if p != [] {
      var q := p[..|p| - 1];
      assert p == q + [p[|p| - 1]];
      CountSnoc(q, p[|p| - 1], Del);
      CountSnoc(q, p[|p| - 1], Ins);
      CellNeighbours(a, b, eq, i, j);
      match p[|p| - 1]
      case Del => CellIsOptimal(a, b, eq, q, i - 1, j);
      case Ins => CellIsOptimal(a, b, eq, q, i, j - 1);
      case Nop => CellIsOptimal(a, b, eq, q, i - 1, j - 1);
    }
  }

  /** The path the backtrace follows from (i, j) back to the origin, in
      forward order. It is a path, and it reaches the cell's cost, so
      together with CellIsOptimal the cost is the cheapest possible. */
  function TracePath<T>(a: seq<T>, b: seq<T>, eq: (T, T) -> bool, i: nat, j: nat): (p: seq<BareOp>)
    requires i <= |a| && j <= |b|
    ensures IsPath(a, b, eq, p, i, j)
    ensures PathCost(p) == Cell(a, b, eq, i, j).cost
    decreases i + j
  {
    if i == 0 && j == 0 then []
    else
      CellStep(a, b, eq, i, j);
      var d := Cell(a, b, eq, i, j).op;
      var q := match d
        case Del => TracePath(a, b, eq, i - 1, j)
        case Ins => TracePath(a, b, eq, i, j - 1)
        case Nop => TracePath(a, b, eq, i - 1, j - 1);
      CountSnoc(q, d, Del);
      CountSnoc(q, d, Ins);
      assert (q + [d])[..|q|] == q;
      q + [d]
  }
}
