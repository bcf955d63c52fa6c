/**
 Worked examples: the inputs the program's `main` feeds to the engine and to
 the line diff, with the results the model gives for them.
 */
module Examples {
  import opened Ops
  import Grid
  import Backtrace
  import opened Lines

  /** Exact equality on lines, the `eq` of the first demonstration. */
  const LineEq: (string, string) -> bool := (x: string, y: string) => x == y

  /** Every deletion and insertion shown, the `filter_edit` of the first
      demonstration. */
  const ShowAll: string -> bool := (x: string) => true

  /** The first demonstration: ["foo", "noh", "goh", "bar"] against
      ["foo", "noh", "baz", "bar"] keeps the shared lines as runs; on the
      tie between deleting "goh" and inserting "baz" the deletion is chosen
      at the cell, so the walk back meets it first and the forward script
      inserts before it deletes. */
  lemma FirstDemo()
    ensures Backtrace.DiffOps(["foo", "noh", "goh", "bar"], ["foo", "noh", "baz", "bar"], LineEq, ShowAll)
         == [Nop(2), Ins("baz"), Del("goh"), Nop(1)]
  {
    assert "goh"[0] != "baz"[0] && "goh"[0] != "bar"[0] && "bar"[2] != "baz"[2];
    OneReplacedLine("foo", "noh", "goh", "bar", "baz");
  }

  /** Two inputs of four lines that differ only in their third line: the
      shared lines become runs, and the replaced line is inserted, then
      deleted. */
  lemma OneReplacedLine(p: string, q: string, g: string, r: string, z: string)
    requires g != z && g != r && r != z
    ensures Backtrace.DiffOps([p, q, g, r], [p, q, z, r], LineEq, ShowAll) == [Nop(2), Ins(z), Del(g), Nop(1)]
  {
    var a, b := [p, q, g, r], [p, q, z, r];
    ReplacedLineCells(p, q, g, r, z);
    ReplacedLineHead(p, q, g, r, z);
    var s33: seq<Op<string>> := [Nop(2), Ins(z), Del(g)];
    assert Backtrace.Prev(a, b, LineEq, 4, 4) == (3, 3);
    assert Backtrace.Entry(a, b, LineEq, ShowAll, 4, 4) == Nop(1);
    Backtrace.ScriptStep(a, b, LineEq, ShowAll, 4, 4, 3, 3, s33, Nop(1));
    assert Join(s33, [Nop(1)]) == s33 + [Nop(1)];
  }

  /** The script up to the replaced line. */
  lemma ReplacedLineHead(p: string, q: string, g: string, r: string, z: string)
    requires g != z && g != r && r != z
    ensures Backtrace.Script([p, q, g, r], [p, q, z, r], LineEq, ShowAll, 3, 3) == [Nop(2), Ins(z), Del(g)]
  {
    var a, b := [p, q, g, r], [p, q, z, r];
    ReplacedLineCells(p, q, g, r, z);
    ReplacedLineInsert(p, q, g, r, z);
    var s23: seq<Op<string>> := [Nop(2), Ins(z)];
    assert Backtrace.Prev(a, b, LineEq, 3, 3) == (2, 3);
    assert Backtrace.Entry(a, b, LineEq, ShowAll, 3, 3) == Del(g);
    Backtrace.ScriptStep(a, b, LineEq, ShowAll, 3, 3, 2, 3, s23, Del(g));
    JoinSingle(s23, Del(g));
    assert s23 + [Del(g)] == [Nop(2), Ins(z), Del(g)];
  }

  /** The script up to the inserted line. */
  lemma ReplacedLineInsert(p: string, q: string, g: string, r: string, z: string)
    ensures Backtrace.Script([p, q, g, r], [p, q, z, r], LineEq, ShowAll, 2, 3) == [Nop(2), Ins(z)]
  {
    var a, b := [p, q, g, r], [p, q, z, r];
    var s22: seq<Op<string>> := [Nop(2)];
    SharedLinesRun(p, q, g, r, z);
    InsertAfterShared(p, q, g, r, z);
    Backtrace.ScriptStep(a, b, LineEq, ShowAll, 2, 3, 2, 2, s22, Ins(z));
    JoinSingle(s22, Ins(z));
    assert s22 + [Ins(z)] == [Nop(2), Ins(z)];
  }

  /** After the shared lines the walk back steps left, inserting. */
  lemma InsertAfterShared(p: string, q: string, g: string, r: string, z: string)
    ensures Backtrace.Prev([p, q, g, r], [p, q, z, r], LineEq, 2, 3) == (2, 2)
    ensures Backtrace.Entry([p, q, g, r], [p, q, z, r], LineEq, ShowAll, 2, 3) == Ins(z)
  {
    var a, b := [p, q, g, r], [p, q, z, r];
    assert a[0] == b[0] && a[1] == b[1];
    Backtrace.RowAfterPrefix(a, b, LineEq, 2, 3);
  }

  /** The two shared first lines are one run. */
  lemma SharedLinesRun(p: string, q: string, g: string, r: string, z: string)
    ensures Backtrace.Script([p, q, g, r], [p, q, z, r], LineEq, ShowAll, 2, 2) == [Nop(2)]
  {
    var a, b := [p, q, g, r], [p, q, z, r];
    assert a[0] == b[0] && a[1] == b[1];
    assert LineEq(a[0], b[0]) && LineEq(a[1], b[1]);
    Backtrace.EqualPrefixes(a, b, LineEq, ShowAll, 2);
  }

  /** The cells the walk back visits. */
  lemma ReplacedLineCells(p: string, q: string, g: string, r: string, z: string)
    requires g != z && g != r && r != z
    ensures var a, b := [p, q, g, r], [p, q, z, r];
      && Grid.Cell(a, b, LineEq, 2, 3) == Grid.Choice(Grid.Ins, 1)
      && Grid.Cell(a, b, LineEq, 3, 3) == Grid.Choice(Grid.Del, 2)
      && Grid.Cell(a, b, LineEq, 4, 4) == Grid.Choice(Grid.Nop, 2)
  {
    var a, b := [p, q, g, r], [p, q, z, r];
    Backtrace.RowAfterPrefix(a, b, LineEq, 2, 3);
    Backtrace.RowAfterPrefix(a, b, LineEq, 2, 4);
    Backtrace.ColumnAfterPrefix(a, b, LineEq, 2, 3);
    Backtrace.ColumnAfterPrefix(a, b, LineEq, 2, 4);
    assert Grid.Cell(a, b, LineEq, 3, 3) == Grid.Choice(Grid.Del, 2);
    assert Grid.Cell(a, b, LineEq, 3, 4).cost == 3;
    assert Grid.Cell(a, b, LineEq, 4, 3).cost == 3;
  }

  /** The ASCII digits, one choice of numeric characters. */
  predicate AsciiDigit(c: char) {
    '0' <= c <= '9'
  }

  /** "bar2224" and "bar234423" differ only in their numeric tails. */
  lemma NumericVariantsEqual()
    ensures LinesEqual(AsciiDigit, "bar2224", "bar234423")
  {
    assert "bar2224" == "bar" + "2224";
    assert "bar234423" == "bar" + "234423";
    NumericTailsEqual(AsciiDigit, "bar", "2224", "234423");
  }

  /** "baz5" and "qux3" differ in letters, so the oracle separates them. */
  lemma DifferentWordsUnequal()
    ensures !LinesEqual(AsciiDigit, "baz5", "qux3")
  {
    StripLetters("baz5", "baz");
    StripLetters("qux3", "qux");
    assert "baz"[0] != "qux"[0];
    if LinesEqual(AsciiDigit, "baz5", "qux3") {
      LinesEqualSound(AsciiDigit, "baz5", "qux3");
    }
  }

  /** Stripping a line made of letters followed by one digit. */
  lemma StripLetters(x: string, w: string)
    requires |x| == |w| + 1 && x[..|w|] == w && AsciiDigit(x[|w|])
    requires forall k :: 0 <= k < |w| ==> !AsciiDigit(w[k])
    ensures Strip(AsciiDigit, x) == w
  {
    KeepAll(NotNumeric(AsciiDigit), w);
  }

  /** Keeping every element keeps the sequence. */
  lemma {:induction false} KeepAll<T>(keep: T -> bool, s: seq<T>)
    requires forall k :: 0 <= k < |s| ==> keep(s[k])
    ensures Keep(keep, s) == s
    decreases |s|
  {
    if |s| > 0 {
      KeepAll(keep, s[..|s| - 1]);
    }
  }

  /** Stripping a two-character line. */
  lemma StripTwo(x: string)
    requires |x| == 2
    ensures Strip(AsciiDigit, x) == (if AsciiDigit(x[0]) then [] else [x[0]]) + (if AsciiDigit(x[1]) then [] else [x[1]])
  {
    var keep := NotNumeric(AsciiDigit);
    assert x[..2] == x && x[..2][..1] == x[..1] && x[..1][..0] == [];
    calc {
      Strip(AsciiDigit, x);
      Keep(keep, x[..1]) + (if keep(x[1]) then [x[1]] else []);
      Keep(keep, x[..1][..0]) + (if keep(x[0]) then [x[0]] else []) + (if keep(x[1]) then [x[1]] else []);
    }
  }

  /** The oracle is stricter than comparing lines with digits removed: "1x"
      and "x1" agree without their digits, but the tie-breaking grid pairs
      nothing usefully and the script is [Ins('x'), Nop(1), Del('x')]. */
  lemma StrippedEqualIsNotEnough()
    ensures Strip(AsciiDigit, "1x") == Strip(AsciiDigit, "x1")
    ensures Backtrace.DiffOps("1x", "x1", CharEq, NotNumeric(AsciiDigit)) == [Ins('x'), Nop(1), Del('x')]
    ensures !LinesEqual(AsciiDigit, "1x", "x1")
  {
    var a, b := "1x", "x1";
    var keep := NotNumeric(AsciiDigit);
    StripTwo(a);
    StripTwo(b);
    CrossedCells();
    var s11 := Backtrace.Script(a, b, CharEq, keep, 0, 1);
    assert s11 == [Ins('x')];
    var s12 := Backtrace.Script(a, b, CharEq, keep, 1, 2);
    assert s12 == Join(s11, [Nop(1)]);
    assert s12 == [Ins('x'), Nop(1)];
    assert Backtrace.Script(a, b, CharEq, keep, 2, 2) == Join(s12, [Del('x')]);
    JoinSingle(s12, Del('x'));
    assert [Ins('x'), Nop(1), Del('x')][0].Ins?;
  }

  /** The grid for "1x" against "x1". */
  lemma CrossedCells()
    ensures Grid.Cell("1x", "x1", CharEq, 1, 1) == Grid.Choice(Grid.Del, 2)
    ensures Grid.Cell("1x", "x1", CharEq, 1, 2) == Grid.Choice(Grid.Nop, 1)
    ensures Grid.Cell("1x", "x1", CharEq, 2, 2) == Grid.Choice(Grid.Del, 2)
  {
    var a, b := "1x", "x1";
    assert Grid.Cell(a, b, CharEq, 1, 1) == Grid.Choice(Grid.Del, 2);
    assert Grid.Cell(a, b, CharEq, 2, 1) == Grid.Choice(Grid.Nop, 1);
    assert Grid.Cell(a, b, CharEq, 1, 2) == Grid.Choice(Grid.Nop, 1);
  }

  /** A sharper case: "1a2" and "2a1" keep their letter in place and differ
      only in digits, yet the tie-breaking grid does not pair the letters, so
      the letter is inserted and deleted and the lines are not equal. */
  lemma SwappedDigitsUnequal()
    ensures Strip(AsciiDigit, "1a2") == Strip(AsciiDigit, "2a1")
    ensures Backtrace.DiffOps("1a2", "2a1", CharEq, NotNumeric(AsciiDigit))
         == [Nop(1), Ins('a'), Nop(1), Del('a'), Nop(1)]
    ensures !LinesEqual(AsciiDigit, "1a2", "2a1")
  {
    StripSwapped();
    SwappedScript();
    var r: seq<Op<char>> := [Nop(1), Ins('a'), Nop(1), Del('a'), Nop(1)];
    assert !r[1].Nop?;
  }

  /** Stripping the digits of "1a2" and "2a1" leaves "a" in both. */
  lemma StripSwapped()
    ensures Strip(AsciiDigit, "1a2") == "a" && Strip(AsciiDigit, "2a1") == "a"
  {
    var keep := NotNumeric(AsciiDigit);
    var x, y := "1a2", "2a1";
    assert x[..3] == x && x[..3][..2] == x[..2] && x[..2][..1] == x[..1] && x[..1][..0] == [];
    assert y[..3] == y && y[..3][..2] == y[..2] && y[..2][..1] == y[..1] && y[..1][..0] == [];
    assert Keep(keep, x[..1]) == [] && Keep(keep, y[..1]) == [];
    assert Keep(keep, x[..2]) == "a" && Keep(keep, y[..2]) == "a";
  }

  /** The script for "1a2" against "2a1": the walk back first hides the
      deletion of '2', then deletes 'a', then takes the diagonal on '1'. */
  lemma SwappedScript()
    ensures Backtrace.DiffOps("1a2", "2a1", CharEq, NotNumeric(AsciiDigit))
         == [Nop(1), Ins('a'), Nop(1), Del('a'), Nop(1)]
  {
    var a, b, keep := "1a2", "2a1", NotNumeric(AsciiDigit);
    SwappedCells();
    SwappedDeletion();
    var s23: seq<Op<char>> := [Nop(1), Ins('a'), Nop(1), Del('a')];
    assert !keep(a[2]);
    assert Backtrace.Entry(a, b, CharEq, keep, 3, 3) == Nop(1);
    Backtrace.ScriptStep(a, b, CharEq, keep, 3, 3, 2, 3, s23, Nop(1));
    assert Join(s23, [Nop(1)]) == s23 + [Nop(1)];
  }

  /** The step from the diagonal on '1' that deletes 'a'. */
  lemma SwappedDeletion()
    ensures Backtrace.Script("1a2", "2a1", CharEq, NotNumeric(AsciiDigit), 2, 3) == [Nop(1), Ins('a'), Nop(1), Del('a')]
  {
    var a, b, keep := "1a2", "2a1", NotNumeric(AsciiDigit);
    SwappedCells();
    SwappedStart();
    var s13: seq<Op<char>> := [Nop(1), Ins('a'), Nop(1)];
    assert keep(a[1]);
    assert Backtrace.Entry(a, b, CharEq, keep, 2, 3) == Del('a');
    Backtrace.ScriptStep(a, b, CharEq, keep, 2, 3, 1, 3, s13, Del('a'));
    JoinSingle(s13, Del('a'));
  }

  /** The walk back for "1a2" against "2a1" up to the diagonal on '1': a
      hidden insertion of '2', then the insertion of 'a', then the run. */
  lemma SwappedStart()
    ensures Backtrace.Script("1a2", "2a1", CharEq, NotNumeric(AsciiDigit), 1, 3) == [Nop(1), Ins('a'), Nop(1)]
  {
    var a, b, keep := "1a2", "2a1", NotNumeric(AsciiDigit);
    SwappedCells();
    SwappedInsertions();
    var s02: seq<Op<char>> := [Nop(1), Ins('a')];
    assert Backtrace.Entry(a, b, CharEq, keep, 1, 3) == Nop(1);
    Backtrace.ScriptStep(a, b, CharEq, keep, 1, 3, 0, 2, s02, Nop(1));
    assert Join(s02, [Nop(1)]) == s02 + [Nop(1)];
  }

  /** Along the top row: the '2' of "2a1" is hidden, the 'a' is inserted. */
  lemma SwappedInsertions()
    ensures Backtrace.Script("1a2", "2a1", CharEq, NotNumeric(AsciiDigit), 0, 2) == [Nop(1), Ins('a')]
  {
    var a, b, keep := "1a2", "2a1", NotNumeric(AsciiDigit);
    var e: seq<Op<char>> := [];
    var s01: seq<Op<char>> := [Nop(1)];
    assert !keep(b[0]) && keep(b[1]);
    assert Backtrace.Entry(a, b, CharEq, keep, 0, 1) == Nop(1);
    Backtrace.ScriptStep(a, b, CharEq, keep, 0, 1, 0, 0, e, Nop(1));
    JoinEmpty(s01);
    assert Backtrace.Entry(a, b, CharEq, keep, 0, 2) == Ins('a');
    Backtrace.ScriptStep(a, b, CharEq, keep, 0, 2, 0, 1, s01, Ins('a'));
    JoinSingle(s01, Ins('a'));
  }

  /** The grid for "1a2" against "2a1", row by row. */
  lemma SwappedCells()
    ensures Grid.Cell("1a2", "2a1", CharEq, 1, 3) == Grid.Choice(Grid.Nop, 2)
    ensures Grid.Cell("1a2", "2a1", CharEq, 2, 3) == Grid.Choice(Grid.Del, 3)
    ensures Grid.Cell("1a2", "2a1", CharEq, 3, 3) == Grid.Choice(Grid.Del, 4)
  {
    var a, b := "1a2", "2a1";
    assert Grid.Cell(a, b, CharEq, 1, 1) == Grid.Choice(Grid.Del, 2);
    assert Grid.Cell(a, b, CharEq, 1, 2) == Grid.Choice(Grid.Del, 3);
    assert Grid.Cell(a, b, CharEq, 1, 3) == Grid.Choice(Grid.Nop, 2);
    assert Grid.Cell(a, b, CharEq, 2, 1) == Grid.Choice(Grid.Del, 3);
    assert Grid.Cell(a, b, CharEq, 2, 2) == Grid.Choice(Grid.Nop, 2);
    assert Grid.Cell(a, b, CharEq, 2, 3) == Grid.Choice(Grid.Del, 3);
    assert Grid.Cell(a, b, CharEq, 3, 1) == Grid.Choice(Grid.Nop, 2);
    assert Grid.Cell(a, b, CharEq, 3, 2) == Grid.Choice(Grid.Del, 3);
    assert Grid.Cell(a, b, CharEq, 3, 3) == Grid.Choice(Grid.Del, 4);
  }

  /** A deletion hidden by the filter is recorded as a run of 1, so the run
      counts an element of the second sequence that is not there. */
  lemma HiddenDeletionIsRun()
    ensures Backtrace.DiffOps("1", "", CharEq, NotNumeric(AsciiDigit)) == [Nop(1)]
    ensures BSide(Backtrace.DiffOps("1", "", CharEq, NotNumeric(AsciiDigit))) == 1
  {
    var s: seq<Op<char>> := [Nop(1)];
    assert Grid.Cell("1", "", CharEq, 1, 0).op == Grid.Del;
    assert !NotNumeric(AsciiDigit)("1"[0]);
    assert Backtrace.Entry("1", "", CharEq, NotNumeric(AsciiDigit), 1, 0) == Nop(1);
    assert Backtrace.Script("1", "", CharEq, NotNumeric(AsciiDigit), 1, 0) == Join([], s);
    assert s[..0] == [];
  }
}
