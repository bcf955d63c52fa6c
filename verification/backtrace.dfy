/**
 The edit script the engine returns, as a pure function of the grid.

 The backtrace walks from (|a|, |b|) to the origin along the recorded
 directions. `Script(.., i, j)` is the forward-order script produced for the
 walk from (i, j): the script of the cell the direction points to, followed
 by the entry of this step. A diagonal step is always a run of 1; a Del or
 Ins whose element is not editable is recorded as a run of 1 as well.
 */
module Backtrace {
  import opened Ops
  import Grid

  /** The cell the recorded direction of (i, j) points back to. */
  function Prev<T>(a: seq<T>, b: seq<T>, eq: (T, T) -> bool, i: nat, j: nat): (r: (nat, nat))
    requires i <= |a| && j <= |b| && (i > 0 || j > 0)
    ensures r.0 <= i && r.1 <= j && r.0 + r.1 < i + j
  {
    match Grid.Cell(a, b, eq, i, j).op
    case Del => (i - 1, j)
    case Ins => (i, j - 1)
    case Nop => (i - 1, j - 1)
  }

  /** The entry the backtrace records when it leaves (i, j). */
  function Entry<T>(a: seq<T>, b: seq<T>, eq: (T, T) -> bool, edit: T -> bool, i: nat, j: nat): Op<T>
    requires i <= |a| && j <= |b| && (i > 0 || j > 0)
  {
    match Grid.Cell(a, b, eq, i, j).op
    case Del => if edit(a[i - 1]) then Del(a[i - 1]) else Nop(1)
    case Ins => if edit(b[j - 1]) then Ins(b[j - 1]) else Nop(1)
    case Nop => Nop(1)
  }

  /** The forward script for turning `a[..i]` into `b[..j]`. Its runs are
      coalesced: each has length at least 1 and no two are adjacent. */
  function Script<T>(a: seq<T>, b: seq<T>, eq: (T, T) -> bool, edit: T -> bool, i: nat, j: nat): (r: seq<Op<T>>)
    requires i <= |a| && j <= |b|
    ensures Coalesced(r)
    decreases i + j
  {
    if i == 0 && j == 0 then []
    else
      var (i', j') := Prev(a, b, eq, i, j);
      var s := Script(a, b, eq, edit, i', j');
      var x := Entry(a, b, eq, edit, i, j);
      JoinCoalesced(s, [x]);
      Join(s, [x])
  }

  /** The script of a cell, given its step and the script it steps to. */
  lemma ScriptStep<T>(a: seq<T>, b: seq<T>, eq: (T, T) -> bool, edit: T -> bool, i: nat, j: nat,
                      i': nat, j': nat, s: seq<Op<T>>, x: Op<T>)
    requires i <= |a| && j <= |b| && (i > 0 || j > 0)
    requires Prev(a, b, eq, i, j) == (i', j') && Entry(a, b, eq, edit, i, j) == x
    requires Script(a, b, eq, edit, i', j') == s
    ensures Script(a, b, eq, edit, i, j) == Join(s, [x])
  {
  }

  /** The script for the whole of `a` and `b`. */
  function DiffOps<T>(a: seq<T>, b: seq<T>, eq: (T, T) -> bool, edit: T -> bool): seq<Op<T>> {
    Script(a, b, eq, edit, |a|, |b|)
  }

  /** A step walks over at most one element of each input, and a visible
      Del or Ins carries the editable element it walks over. */
  lemma EntryWalks<T>(a: seq<T>, b: seq<T>, eq: (T, T) -> bool, edit: T -> bool, i: nat, j: nat)
    requires i <= |a| && j <= |b| && (i > 0 || j > 0)
    ensures var p := Prev(a, b, eq, i, j);
            i - p.0 <= 1 && j - p.1 <= 1
    ensures var p, x := Prev(a, b, eq, i, j), Entry(a, b, eq, edit, i, j);
            x.Del? ==> a[p.0..i] == [x.x] && edit(x.x)
    ensures var p, x := Prev(a, b, eq, i, j), Entry(a, b, eq, edit, i, j);
            x.Ins? ==> b[p.1..j] == [x.x] && edit(x.x)
  {
    match Grid.Cell(a, b, eq, i, j).op
    case Del => assert a[i - 1..i] == [a[i - 1]];
    case Ins => assert b[j - 1..j] == [b[j - 1]];
    case Nop =>
  }

  /** Extending `y` by at most one element and `x` by at most that element
      keeps `x` a subsequence of `y`. */
  lemma SubseqStep<T>(x: seq<T>, y: seq<T>, walked: seq<T>, e: seq<T>)
    requires IsSubseq(x, y)
    requires |walked| <= 1 && |e| <= |walked|
    requires |e| == 1 ==> e == walked
    ensures IsSubseq(x + e, y + walked)
  {
    if |e| == 1 {
      SubseqExtendBoth(x, y, e[0]);
    } else if |walked| == 1 {
      assert x + e == x;
      SubseqExtendRight(x, y, walked[0]);
      assert y + walked == y + [walked[0]];
    } else {
      assert x + e == x && y + walked == y;
    }
  }

  /** One backtrace step keeps the deleted elements an in-order selection of
      editable elements of what has been walked over of `a`. */
  lemma DeletedStep<T>(s: seq<Op<T>>, x: Op<T>, pre: seq<T>, walked: seq<T>, edit: T -> bool)
    requires IsSubseq(Deleted(s), pre)
    requires forall d <- Deleted(s) :: edit(d)
    requires |walked| <= 1
    requires x.Del? ==> walked == [x.x] && edit(x.x)
    ensures IsSubseq(Deleted(Join(s, [x])), pre + walked)
    ensures forall d <- Deleted(Join(s, [x])) :: edit(d)
  {
    JoinDeleted(s, [x]);
    DeletedOne(x);
    SubseqStep(Deleted(s), pre, walked, DelOf(x));
  }

  /** One backtrace step keeps the inserted elements an in-order selection of
      editable elements of what has been walked over of `b`. */
  lemma InsertedStep<T>(s: seq<Op<T>>, x: Op<T>, pre: seq<T>, walked: seq<T>, edit: T -> bool)
    requires IsSubseq(Inserted(s), pre)
    requires forall d <- Inserted(s) :: edit(d)
    requires |walked| <= 1
    requires x.Ins? ==> walked == [x.x] && edit(x.x)
    ensures IsSubseq(Inserted(Join(s, [x])), pre + walked)
    ensures forall d <- Inserted(Join(s, [x])) :: edit(d)
  {
    JoinInserted(s, [x]);
    InsertedOne(x);
    SubseqStep(Inserted(s), pre, walked, InsOf(x));
  }

  /** Every deleted element is editable and the deleted elements occur in
      `a` in the same order. */
  lemma {:induction false} DeletionsComeFromA<T>(a: seq<T>, b: seq<T>, eq: (T, T) -> bool, edit: T -> bool, i: nat, j: nat)
    requires i <= |a| && j <= |b|
    ensures IsSubseq(Deleted(Script(a, b, eq, edit, i, j)), a[..i])
    ensures forall x <- Deleted(Script(a, b, eq, edit, i, j)) :: edit(x)
    decreases i + j
  {
    if i > 0 || j > 0 {
      var (i', j') := Prev(a, b, eq, i, j);
      DeletionsComeFromA(a, b, eq, edit, i', j');
      var walked := a[i'..i];
      Cut(a, i', i);
      EntryWalks(a, b, eq, edit, i, j);
      DeletedStep(Script(a, b, eq, edit, i', j'), Entry(a, b, eq, edit, i, j), a[..i'], walked, edit);
    }
  }

  /** Every inserted element is editable and the inserted elements occur in
      `b` in the same order. */
  lemma {:induction false} InsertionsComeFromB<T>(a: seq<T>, b: seq<T>, eq: (T, T) -> bool, edit: T -> bool, i: nat, j: nat)
    requires i <= |a| && j <= |b|
    ensures IsSubseq(Inserted(Script(a, b, eq, edit, i, j)), b[..j])
    ensures forall y <- Inserted(Script(a, b, eq, edit, i, j)) :: edit(y)
    decreases i + j
  {
    if i > 0 || j > 0 {
      var (i', j') := Prev(a, b, eq, i, j);
      InsertionsComeFromB(a, b, eq, edit, i', j');
      var walked := b[j'..j];
      Cut(b, j', j);
      EntryWalks(a, b, eq, edit, i, j);
      InsertedStep(Script(a, b, eq, edit, i', j'), Entry(a, b, eq, edit, i, j), b[..j'], walked, edit);
    }
  }

  /** One step adds one visible edit exactly when its entry is a Del or an
      Ins. */
  lemma EditCountStep<T>(s: seq<Op<T>>, x: Op<T>)
    ensures EditCount(Join(s, [x])) == EditCount(s) + (if x.Nop? then 0 else 1)
  {
    JoinDeleted(s, [x]);
    JoinInserted(s, [x]);
    DeletedOne(x);
    InsertedOne(x);
  }

  /** The script never shows more edits than the cell's cost. */
  lemma {:induction false} EditCountAtMostCost<T>(a: seq<T>, b: seq<T>, eq: (T, T) -> bool, edit: T -> bool, i: nat, j: nat)
    requires i <= |a| && j <= |b|
    ensures EditCount(Script(a, b, eq, edit, i, j)) <= Grid.Cell(a, b, eq, i, j).cost
    decreases i + j
  {
    if i > 0 || j > 0 {
      var (i', j') := Prev(a, b, eq, i, j);
      EditCountAtMostCost(a, b, eq, edit, i', j');
      EditCountStep(Script(a, b, eq, edit, i', j'), Entry(a, b, eq, edit, i, j));
      Grid.CellStep(a, b, eq, i, j);
    }
  }

  /** When every element involved is editable, the script shows exactly as
      many edits as the cell's cost: every step that costs shows. */
  lemma {:induction false} EditCountIsCost<T>(a: seq<T>, b: seq<T>, eq: (T, T) -> bool, edit: T -> bool, i: nat, j: nat)
    requires i <= |a| && j <= |b|
    requires forall k :: 0 <= k < i ==> edit(a[k])
    requires forall k :: 0 <= k < j ==> edit(b[k])
    ensures EditCount(Script(a, b, eq, edit, i, j)) == Grid.Cell(a, b, eq, i, j).cost
    decreases i + j
  {
    if i > 0 || j > 0 {
      var (i', j') := Prev(a, b, eq, i, j);
      EditCountIsCost(a, b, eq, edit, i', j');
      EditCountStep(Script(a, b, eq, edit, i', j'), Entry(a, b, eq, edit, i, j));
      Grid.CellStep(a, b, eq, i, j);
    }
  }

  /** When every element is editable, the script walks over exactly `i`
      elements of `a` and `j` elements of `b`. */
  lemma {:induction false} ScriptCoversInputs<T>(a: seq<T>, b: seq<T>, eq: (T, T) -> bool, edit: T -> bool, i: nat, j: nat)
    requires i <= |a| && j <= |b|
    requires forall k :: 0 <= k < i ==> edit(a[k])
    requires forall k :: 0 <= k < j ==> edit(b[k])
    ensures ASide(Script(a, b, eq, edit, i, j)) == i
    ensures BSide(Script(a, b, eq, edit, i, j)) == j
    decreases i + j
  {
    if i > 0 || j > 0 {
      var (i', j') := Prev(a, b, eq, i, j);
      ScriptCoversInputs(a, b, eq, edit, i', j');
      var s := Script(a, b, eq, edit, i', j');
      var x := Entry(a, b, eq, edit, i, j);
      JoinMeasures(s, [x]);
      ASideOne(x);
      BSideOne(x);
    }
  }

  /** A prefix is a shorter prefix followed by the slice between them. */
  lemma Cut<T>(a: seq<T>, m: nat, n: nat)
    requires m <= n <= |a|
    ensures a[..n] == a[..m] + a[m..n]
  {
  }

  /** One step extends what the script plays by what its entry emits on the
      elements of the first sequence it walks over. */
  lemma ReplayStep<T>(s: seq<Op<T>>, x: Op<T>, pre: seq<T>, walked: seq<T>)
    requires ASide(s) == |pre| && AStep(x) == |walked|
    ensures ASide(Join(s, [x])) == |pre + walked|
    ensures Replay(Join(s, [x]), pre + walked) == Replay(s, pre) + Emit(x, walked)
  {
    ReplayExtend(s, x, pre + walked);
    assert (pre + walked)[..|pre|] == pre;
    assert (pre + walked)[|pre|..] == walked;
  }

  /** With exact matching and every element editable, the entry recorded when
      leaving (i, j) walks over `a[i'..i]` and emits exactly `b[j'..j]`. */
  lemma EntryEmits<T>(a: seq<T>, b: seq<T>, eq: (T, T) -> bool, edit: T -> bool, i: nat, j: nat)
    requires i <= |a| && j <= |b| && (i > 0 || j > 0)
    requires i > 0 && j > 0 && eq(a[i - 1], b[j - 1]) ==> a[i - 1] == b[j - 1]
    requires i > 0 ==> edit(a[i - 1])
    requires j > 0 ==> edit(b[j - 1])
    ensures AStep(Entry(a, b, eq, edit, i, j)) == i - Prev(a, b, eq, i, j).0
    ensures Emit(Entry(a, b, eq, edit, i, j), a[Prev(a, b, eq, i, j).0..i]) == b[Prev(a, b, eq, i, j).1..j]
  {
    match Grid.Cell(a, b, eq, i, j).op
    case Del =>
    case Ins =>
    case Nop => assert a[i - 1..i] == [a[i - 1]];
  }

  /** With exact matching and every element editable, playing the script
      over `a[..i]` yields `b[..j]`. */
  lemma {:induction false} ReplayRebuildsTarget<T>(a: seq<T>, b: seq<T>, eq: (T, T) -> bool, edit: T -> bool, i: nat, j: nat)
    requires i <= |a| && j <= |b|
    requires forall k, l :: 0 <= k < i && 0 <= l < j && eq(a[k], b[l]) ==> a[k] == b[l]
    requires forall k :: 0 <= k < i ==> edit(a[k])
    requires forall k :: 0 <= k < j ==> edit(b[k])
    ensures ASide(Script(a, b, eq, edit, i, j)) == i
    ensures Replay(Script(a, b, eq, edit, i, j), a[..i]) == b[..j]
    decreases i + j
  {
    ScriptCoversInputs(a, b, eq, edit, i, j);
    if i > 0 || j > 0 {
      var (i', j') := Prev(a, b, eq, i, j);
      ReplayRebuildsTarget(a, b, eq, edit, i', j');
      var s, x := Script(a, b, eq, edit, i', j'), Entry(a, b, eq, edit, i, j);
      assert Script(a, b, eq, edit, i, j) == Join(s, [x]);
      EntryEmits(a, b, eq, edit, i, j);
      ReplayStep(s, x, a[..i'], a[i'..i]);
      Cut(a, i', i);
      Cut(b, j', j);
    }
  }

  /** The whole script, replayed over `a`, rebuilds `b`. */
  lemma ReplayRebuildsB<T>(a: seq<T>, b: seq<T>, eq: (T, T) -> bool, edit: T -> bool)
    requires forall k, l :: 0 <= k < |a| && 0 <= l < |b| && eq(a[k], b[l]) ==> a[k] == b[l]
    requires forall x :: edit(x)
    ensures Replay(DiffOps(a, b, eq, edit), a) == b
  {
    ReplayRebuildsTarget(a, b, eq, edit, |a|, |b|);
    assert a[..|a|] == a && b[..|b|] == b;
  }

  /** Along a diagonal of elements related by `eq` every cell is free and
      points back along the diagonal. */
  lemma {:induction false} EqualPrefixCells<T>(a: seq<T>, b: seq<T>, eq: (T, T) -> bool, k: nat)
    requires k <= |a| && k <= |b|
    requires forall t :: 0 <= t < k ==> eq(a[t], b[t])
    ensures Grid.Cell(a, b, eq, k, k) == Grid.Choice(Grid.Nop, 0)
  {
    if k > 0 {
      EqualPrefixCells(a, b, eq, k - 1);
      Grid.CostLowerBound(a, b, eq, k - 1, k);
      Grid.CostLowerBound(a, b, eq, k, k - 1);
    }
  }

  /** Prefixes of length k related element by element give one run of
      length k, or nothing. */
  lemma {:induction false} EqualPrefixes<T>(a: seq<T>, b: seq<T>, eq: (T, T) -> bool, edit: T -> bool, k: nat)
    requires k <= |a| && k <= |b|
    requires forall t :: 0 <= t < k ==> eq(a[t], b[t])
    ensures Script(a, b, eq, edit, k, k) == if k == 0 then [] else [Nop(k)]
  {
    if k > 0 {
      EqualPrefixes(a, b, eq, edit, k - 1);
      EqualPrefixCells(a, b, eq, k);
      assert Prev(a, b, eq, k, k) == (k - 1, k - 1);
      assert Entry(a, b, eq, edit, k, k) == Nop(1);
      if k > 1 {
        JoinTwoRuns<T>(k - 1, 1);
      } else {
        JoinEmpty<T>([Nop(1)]);
      }
    }
  }

  /** Identical inputs give one run over everything, or nothing at all. */
  lemma IdenticalInputs<T>(a: seq<T>, eq: (T, T) -> bool, edit: T -> bool)
    requires forall t :: 0 <= t < |a| ==> eq(a[t], a[t])
    ensures DiffOps(a, a, eq, edit) == if |a| == 0 then [] else [Nop(|a|)]
  {
    EqualPrefixes(a, a, eq, edit, |a|);
  }

  /** From an empty first input, every element of `b` is inserted in order. */
  lemma {:induction false} FromEmpty<T>(b: seq<T>, eq: (T, T) -> bool, edit: T -> bool, j: nat)
    requires j <= |b|
    requires forall k :: 0 <= k < j ==> edit(b[k])
    ensures |Script([], b, eq, edit, 0, j)| == j
    ensures forall k :: 0 <= k < j ==> Script([], b, eq, edit, 0, j)[k] == Ins(b[k])
  {
    if j > 0 {
      FromEmpty(b, eq, edit, j - 1);
    }
  }

  /** Along the row of a related prefix of length k, every further cell is an
      insertion costing one per element. */
  lemma {:induction false} RowAfterPrefix<T>(a: seq<T>, b: seq<T>, eq: (T, T) -> bool, k: nat, j: nat)
    requires k <= |a| && k <= j <= |b|
    requires forall t :: 0 <= t < k ==> eq(a[t], b[t])
    ensures Grid.Cell(a, b, eq, k, j).cost == j - k
    ensures j > k ==> Grid.Cell(a, b, eq, k, j).op == Grid.Ins
    decreases j
  {
    if j == k {
      EqualPrefixCells(a, b, eq, k);
    } else {
      RowAfterPrefix(a, b, eq, k, j - 1);
      if k > 0 {
        Grid.CostLowerBound(a, b, eq, k - 1, j);
        Grid.CostLowerBound(a, b, eq, k - 1, j - 1);
      }
    }
  }

  /** Along the column of a related prefix of length k, every further cell is
      a deletion costing one per element. */
  lemma {:induction false} ColumnAfterPrefix<T>(a: seq<T>, b: seq<T>, eq: (T, T) -> bool, k: nat, i: nat)
    requires k <= i <= |a| && k <= |b|
    requires forall t :: 0 <= t < k ==> eq(a[t], b[t])
    ensures Grid.Cell(a, b, eq, i, k).cost == i - k
    ensures i > k ==> Grid.Cell(a, b, eq, i, k).op == Grid.Del
    decreases i
  {
    if i == k {
      EqualPrefixCells(a, b, eq, k);
    } else {
      ColumnAfterPrefix(a, b, eq, k, i - 1);
      if k > 0 {
        Grid.CostLowerBound(a, b, eq, i, k - 1);
        Grid.CostLowerBound(a, b, eq, i - 1, k - 1);
      }
    }
  }

  /** Past a related prefix of length k, when nothing after the prefix is
      editable, the script shows no change. */
  lemma {:induction false} InvisibleTails<T>(a: seq<T>, b: seq<T>, eq: (T, T) -> bool, edit: T -> bool, k: nat, i: nat, j: nat)
    requires k <= i <= |a| && k <= j <= |b|
    requires forall t :: 0 <= t < k ==> eq(a[t], b[t])
    requires forall t :: k <= t < |a| ==> !edit(a[t])
    requires forall t :: k <= t < |b| ==> !edit(b[t])
    ensures AllNop(Script(a, b, eq, edit, i, j))
    decreases i + j
  {
    if i == k && j == k {
      EqualPrefixes(a, b, eq, edit, k);
    } else {
      if i == k {
        RowAfterPrefix(a, b, eq, k, j);
      }
      if j == k {
        ColumnAfterPrefix(a, b, eq, k, i);
      }
      var (i', j') := Prev(a, b, eq, i, j);
      InvisibleTails(a, b, eq, edit, k, i', j');
      JoinAllNop(Script(a, b, eq, edit, i', j'), [Entry(a, b, eq, edit, i, j)]);
    }
  }

  /** Two inputs that share a prefix and differ only in non-editable tails
      produce a script without visible edits. */
  lemma SharedPrefixInvisibleTails<T>(p: seq<T>, u: seq<T>, v: seq<T>, eq: (T, T) -> bool, edit: T -> bool)
    requires forall t :: 0 <= t < |p| ==> eq(p[t], p[t])
    requires forall t :: 0 <= t < |u| ==> !edit(u[t])
    requires forall t :: 0 <= t < |v| ==> !edit(v[t])
    ensures AllNop(DiffOps(p + u, p + v, eq, edit))
  {
    var a, b := p + u, p + v;
    assert forall t :: |p| <= t < |a| ==> a[t] == u[t - |p|];
    assert forall t :: |p| <= t < |b| ==> b[t] == v[t - |p|];
    InvisibleTails(a, b, eq, edit, |p|, |a|, |b|);
  }

  /** With exact matching, a script without visible edits means the two
      inputs agree once their non-editable elements are dropped. */
  lemma {:induction false} UnchangedKeepsEditable<T>(a: seq<T>, b: seq<T>, eq: (T, T) -> bool, edit: T -> bool, i: nat, j: nat)
    requires i <= |a| && j <= |b|
    requires forall k, l :: 0 <= k < i && 0 <= l < j && eq(a[k], b[l]) ==> a[k] == b[l]
    requires AllNop(Script(a, b, eq, edit, i, j))
    ensures Keep(edit, a[..i]) == Keep(edit, b[..j])
    decreases i + j
  {
    if i > 0 || j > 0 {
      var (i', j') := Prev(a, b, eq, i, j);
      var s := Script(a, b, eq, edit, i', j');
      var x := Entry(a, b, eq, edit, i, j);
      JoinAllNop(s, [x]);
      assert x == [x][0];
      UnchangedKeepsEditable(a, b, eq, edit, i', j');
      match Grid.Cell(a, b, eq, i, j).op
      case Del =>
        assert a[..i][..i - 1] == a[..i - 1];
      case Ins =>
        assert b[..j][..j - 1] == b[..j - 1];
      case Nop =>
        assert a[..i][..i - 1] == a[..i - 1];
        assert b[..j][..j - 1] == b[..j - 1];
    }
  }
}
