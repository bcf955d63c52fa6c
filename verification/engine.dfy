/**
 The edit-script engine as the program runs it: fill a cost grid and a
 direction grid, then walk back from the far corner, building the list of
 entries backwards and reversing it at the end.

 The method is proved to return exactly `Backtrace.DiffOps`, so every
 property proved of the pure script holds of what the engine computes.
 */
module Engine {
  import opened Ops
  import Grid
  import Backtrace

  /** Leaving (i, j) for (i', j') and pushing the entry of (i, j) onto the
      backwards list keeps the walk's invariant: the script still to come,
      followed by the reverse of the list, is the script of the whole grid. */
  lemma BacktraceStep<T>(a: seq<T>, b: seq<T>, eq: (T, T) -> bool, edit: T -> bool,
                         i: nat, j: nat, ops: seq<Op<T>>, i': nat, j': nat, ops': seq<Op<T>>)
    requires i <= |a| && j <= |b| && (i > 0 || j > 0)
    requires (i', j') == Backtrace.Prev(a, b, eq, i, j)
    requires ops' == Join(ops, [Backtrace.Entry(a, b, eq, edit, i, j)])
    requires Join(Backtrace.Script(a, b, eq, edit, i, j), Reverse(ops)) == Backtrace.DiffOps(a, b, eq, edit)
    ensures Join(Backtrace.Script(a, b, eq, edit, i', j'), Reverse(ops')) == Backtrace.DiffOps(a, b, eq, edit)
  {
    var x := Backtrace.Entry(a, b, eq, edit, i, j);
    ReverseJoin(ops, x);
    JoinAssoc(Backtrace.Script(a, b, eq, edit, i', j'), x, Reverse(ops));
  }

  /** Every cell of the two grids holds the cell the recurrence defines. */
  ghost predicate Filled<T>(a: seq<T>, b: seq<T>, eq: (T, T) -> bool, cost: array2<nat>, dir: array2<Grid.BareOp>)
    reads cost, dir
  {
    && cost.Length0 == dir.Length0 == |a| + 1
    && cost.Length1 == dir.Length1 == |b| + 1
    && forall k, l {:trigger cost[k, l]} {:trigger dir[k, l]} :: 0 <= k <= |a| && 0 <= l <= |b| ==>
         cost[k, l] == Grid.Cell(a, b, eq, k, l).cost && dir[k, l] == Grid.Cell(a, b, eq, k, l).op
  }

  /** Allocates the cost and direction grids and fills them: the borders
      first, then the interior row by row. */
  method FillGrid<T>(a: seq<T>, b: seq<T>, eq: (T, T) -> bool) returns (cost: array2<nat>, dir: array2<Grid.BareOp>)
    ensures fresh(cost) && fresh(dir)
    ensures Filled(a, b, eq, cost, dir)
  {
    var n, m := |a|, |b|;
    cost := new nat[n + 1, m + 1];
    dir := new Grid.BareOp[n + 1, m + 1];
    FillBorders(a, b, eq, cost, dir);

    var i := 1;
    while i <= n
      invariant 1 <= i <= n + 1
      invariant forall k, l {:trigger cost[k, l]} {:trigger dir[k, l]} :: 0 <= k < i && 0 <= l <= m ==>
                  cost[k, l] == Grid.Cell(a, b, eq, k, l).cost && dir[k, l] == Grid.Cell(a, b, eq, k, l).op
      invariant forall k {:trigger cost[k, 0]} {:trigger dir[k, 0]} :: 0 <= k <= n ==>
                  cost[k, 0] == Grid.Cell(a, b, eq, k, 0).cost && dir[k, 0] == Grid.Cell(a, b, eq, k, 0).op
    {
      FillRow(a, b, eq, cost, dir, i);
      i := i + 1;
    }
  }

  /** Row 0 holds j insertions, column 0 holds i deletions, and the origin
      keeps Nop. */
  method FillBorders<T>(a: seq<T>, b: seq<T>, eq: (T, T) -> bool, cost: array2<nat>, dir: array2<Grid.BareOp>)
    requires cost.Length0 == dir.Length0 == |a| + 1 && cost.Length1 == dir.Length1 == |b| + 1
    modifies cost, dir
    ensures forall l {:trigger cost[0, l]} {:trigger dir[0, l]} :: 0 <= l <= |b| ==>
              cost[0, l] == Grid.Cell(a, b, eq, 0, l).cost && dir[0, l] == Grid.Cell(a, b, eq, 0, l).op
    ensures forall k {:trigger cost[k, 0]} {:trigger dir[k, 0]} :: 0 <= k <= |a| ==>
              cost[k, 0] == Grid.Cell(a, b, eq, k, 0).cost && dir[k, 0] == Grid.Cell(a, b, eq, k, 0).op
  {
    var n, m := |a|, |b|;
    var j := 0;
    while j <= m
      invariant j <= m + 1
      invariant forall l :: 0 <= l < j ==> cost[0, l] == l && dir[0, l] == Grid.Ins
    {
      cost[0, j], dir[0, j] := j, Grid.Ins;
      j := j + 1;
    }
    var i := 0;
    while i <= n
      invariant i <= n + 1
      invariant forall l :: 0 < l <= m ==> cost[0, l] == l && dir[0, l] == Grid.Ins
      invariant forall k :: 0 <= k < i ==> cost[k, 0] == k && dir[k, 0] == Grid.Del
    {
      cost[i, 0], dir[i, 0] := i, Grid.Del;
      i := i + 1;
    }
    dir[0, 0] := Grid.Nop;
  }

  /** The choice for interior cell (i, j), read off the three neighbours:
      one more than the cell above (Del), one more than the cell to the left
      (Ins), or the diagonal's cost when the elements are related (Nop), with
      `usize::MAX` standing in for a forbidden diagonal. */
  method NextCell<T>(a: seq<T>, b: seq<T>, eq: (T, T) -> bool, cost: array2<nat>, i: nat, j: nat) returns (c: Grid.Choice)
    requires cost.Length0 == |a| + 1 && cost.Length1 == |b| + 1
    requires 0 < i <= |a| && 0 < j <= |b|
    requires cost[i - 1, j] == Grid.Cell(a, b, eq, i - 1, j).cost
    requires cost[i, j - 1] == Grid.Cell(a, b, eq, i, j - 1).cost
    requires cost[i - 1, j - 1] == Grid.Cell(a, b, eq, i - 1, j - 1).cost
    ensures c == Grid.Cell(a, b, eq, i, j)
  {
    Grid.CellInterior(a, b, eq, i, j);
    var del, ins := cost[i - 1, j] + 1, cost[i, j - 1] + 1;
    var diag := if eq(a[i - 1], b[j - 1]) then Grid.At(cost[i - 1, j - 1]) else Grid.Max;
    c := Grid.OpselMin(del, ins, diag);
  }

  /** Fills row i from left to right, each cell from its three neighbours
      above, to the left and diagonally above-left. */
  method FillRow<T>(a: seq<T>, b: seq<T>, eq: (T, T) -> bool, cost: array2<nat>, dir: array2<Grid.BareOp>, i: nat)
    requires cost.Length0 == dir.Length0 == |a| + 1 && cost.Length1 == dir.Length1 == |b| + 1
    requires 0 < i <= |a|
    requires forall k, l {:trigger cost[k, l]} {:trigger dir[k, l]} :: 0 <= k < i && 0 <= l <= |b| ==>
               cost[k, l] == Grid.Cell(a, b, eq, k, l).cost && dir[k, l] == Grid.Cell(a, b, eq, k, l).op
    requires forall k {:trigger cost[k, 0]} {:trigger dir[k, 0]} :: 0 <= k <= |a| ==>
               cost[k, 0] == Grid.Cell(a, b, eq, k, 0).cost && dir[k, 0] == Grid.Cell(a, b, eq, k, 0).op
    modifies cost, dir
    ensures forall k, l {:trigger cost[k, l]} {:trigger dir[k, l]} :: 0 <= k <= i && 0 <= l <= |b| ==>
              cost[k, l] == Grid.Cell(a, b, eq, k, l).cost && dir[k, l] == Grid.Cell(a, b, eq, k, l).op
    ensures forall k {:trigger cost[k, 0]} {:trigger dir[k, 0]} :: 0 <= k <= |a| ==>
              cost[k, 0] == Grid.Cell(a, b, eq, k, 0).cost && dir[k, 0] == Grid.Cell(a, b, eq, k, 0).op
  {
    var m := |b|;
    var j := 1;
    while j <= m
      invariant 1 <= j <= m + 1
      invariant forall k, l {:trigger cost[k, l]} {:trigger dir[k, l]} :: 0 <= k < i && 0 <= l <= m ==>
                  cost[k, l] == Grid.Cell(a, b, eq, k, l).cost && dir[k, l] == Grid.Cell(a, b, eq, k, l).op
      invariant forall k {:trigger cost[k, 0]} {:trigger dir[k, 0]} :: 0 <= k <= |a| ==>
                  cost[k, 0] == Grid.Cell(a, b, eq, k, 0).cost && dir[k, 0] == Grid.Cell(a, b, eq, k, 0).op
      invariant forall l {:trigger cost[i, l]} {:trigger dir[i, l]} :: 0 <= l < j ==>
                  cost[i, l] == Grid.Cell(a, b, eq, i, l).cost && dir[i, l] == Grid.Cell(a, b, eq, i, l).op
    {
      var c := NextCell(a, b, eq, cost, i, j);
      dir[i, j], cost[i, j] := c.op, c.cost;
      j := j + 1;
    }
  }

  /** One step of the walk: follows the direction recorded at (i, j) and
      pushes the entry of that step onto the backwards list. A deletion or
      insertion whose element is not editable is pushed as a run of 1. */
  method WalkStep<T>(a: seq<T>, b: seq<T>, eq: (T, T) -> bool, edit: T -> bool, dir: array2<Grid.BareOp>,
                     i: nat, j: nat, ops: seq<Op<T>>) returns (i': nat, j': nat, ops': seq<Op<T>>)
    requires dir.Length0 == |a| + 1 && dir.Length1 == |b| + 1
    requires i <= |a| && j <= |b| && (i > 0 || j > 0)
    requires dir[i, j] == Grid.Cell(a, b, eq, i, j).op
    ensures (i', j') == Backtrace.Prev(a, b, eq, i, j)
    ensures ops' == Join(ops, [Backtrace.Entry(a, b, eq, edit, i, j)])
  {
    match dir[i, j]
    case Nop =>
      i', j' := i - 1, j - 1;
      ops' := PushNop(ops);
    case Ins =>
      i', j' := i, j - 1;
      if edit(b[j']) {
        JoinSingle(ops, Ins(b[j']));
        ops' := ops + [Ins(b[j'])];
      } else {
        ops' := PushNop(ops);
      }
    case Del =>
      i', j' := i - 1, j;
      if edit(a[i']) {
        JoinSingle(ops, Del(a[i']));
        ops' := ops + [Del(a[i'])];
      } else {
        ops' := PushNop(ops);
      }
  }

  /** Walks from the far corner back to the origin along the recorded
      directions, pushing each step's entry onto a list built backwards,
      and returns that list reversed. */
  method WalkBack<T>(a: seq<T>, b: seq<T>, eq: (T, T) -> bool, edit: T -> bool, dir: array2<Grid.BareOp>) returns (r: seq<Op<T>>)
    requires dir.Length0 == |a| + 1 && dir.Length1 == |b| + 1
    requires forall k, l {:trigger dir[k, l]} :: 0 <= k <= |a| && 0 <= l <= |b| ==> dir[k, l] == Grid.Cell(a, b, eq, k, l).op
    ensures r == Backtrace.DiffOps(a, b, eq, edit)
  {
    var i: nat, j: nat := |a|, |b|;
    var ops: seq<Op<T>> := [];
    JoinEmpty(Backtrace.DiffOps(a, b, eq, edit));
    while i != 0 || j != 0
      invariant i <= |a| && j <= |b|
      invariant Join(Backtrace.Script(a, b, eq, edit, i, j), Reverse(ops)) == Backtrace.DiffOps(a, b, eq, edit)
      decreases i + j
    {
      var i', j', ops' := WalkStep(a, b, eq, edit, dir, i, j, ops);
      BacktraceStep(a, b, eq, edit, i, j, ops, i', j', ops');
      i, j, ops := i', j', ops';
    }
    JoinEmpty(Reverse(ops));
    r := Reverse(ops);
  }

  /** Computes the edit script that turns `a` into `b`, where `eq` says which
      elements may be matched and `edit` which deletions and insertions are
      shown. */
  method ComputeDiffOps<T>(a: seq<T>, b: seq<T>, eq: (T, T) -> bool, edit: T -> bool) returns (r: seq<Op<T>>)
    ensures r == Backtrace.DiffOps(a, b, eq, edit)
    ensures Coalesced(r)
  {
    var cost, dir := FillGrid(a, b, eq);
    r := WalkBack(a, b, eq, edit, dir);
  }
}
