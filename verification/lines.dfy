/**
 The line-level diff: the engine run over lines, with a numeric-tolerant
 line equality and an editability rule for whole lines.

 Two lines are equal when the engine, run over their characters with plain
 character equality and with numeric characters not editable, shows no
 visible edit. A line is editable unless every character of it is numeric.
 Which characters are numeric (Rust's `char::is_numeric`, a Unicode table)
 is a parameter `numeric` here; `AsciiDigit` is one instance, used by the
 worked examples.
 */
module Lines {
  import opened Ops
  import Grid
  import Backtrace
  import Engine

  /** Character equality, the oracle's `eq`. */
  const CharEq: (char, char) -> bool := (c: char, d: char) => c == d

  /** The oracle's editability: a character is shown as an edit unless it is
      numeric. */
  function NotNumeric(numeric: char -> bool): char -> bool {
    c => !numeric(c)
  }

  /** The numeric-tolerant line equality. */
  predicate LinesEqual(numeric: char -> bool, x: string, y: string) {
    AllNop(Backtrace.DiffOps(x, y, CharEq, NotNumeric(numeric)))
  }

  /** Every character of `x` is numeric; true of the empty line. */
  predicate AllNumeric(numeric: char -> bool, x: string) {
    forall k :: 0 <= k < |x| ==> numeric(x[k])
  }

  /** The line-level editability: a line is shown as an edit unless all of
      it is numeric. */
  function LineEditable(numeric: char -> bool): string -> bool {
    x => !AllNumeric(numeric, x)
  }

  /** The line with its numeric characters removed. */
  function Strip(numeric: char -> bool, x: string): string {
    Keep(NotNumeric(numeric), x)
  }

  /** The script the program computes for two sequences of lines. */
  function LineDiff(numeric: char -> bool, a: seq<string>, b: seq<string>): seq<Op<string>> {
    Backtrace.DiffOps(a, b, (x, y) => LinesEqual(numeric, x, y), LineEditable(numeric))
  }

  /** Runs the engine over lines with the line oracle and the line
      editability. */
  method Diff(numeric: char -> bool, a: seq<string>, b: seq<string>) returns (r: seq<Op<string>>)
    ensures r == LineDiff(numeric, a, b)
    ensures Coalesced(r)
  {
    r := Engine.ComputeDiffOps(a, b, (x, y) => LinesEqual(numeric, x, y), LineEditable(numeric));
  }

  /** Every line equals itself; in particular the empty line equals the
      empty line. */
  lemma LinesEqualReflexive(numeric: char -> bool, x: string)
    ensures LinesEqual(numeric, x, x)
  {
    Backtrace.IdenticalInputs(x, CharEq, NotNumeric(numeric));
  }

  /** Soundness of the oracle: lines it calls equal are equal once their
      numeric characters are removed. */
  lemma LinesEqualSound(numeric: char -> bool, x: string, y: string)
    requires LinesEqual(numeric, x, y)
    ensures Strip(numeric, x) == Strip(numeric, y)
  {
    assert x[..|x|] == x && y[..|y|] == y;
    Backtrace.UnchangedKeepsEditable(x, y, CharEq, NotNumeric(numeric), |x|, |y|);
  }

  /** Lines that share a prefix and differ only in numeric tails are equal. */
  lemma NumericTailsEqual(numeric: char -> bool, p: string, u: string, v: string)
    requires AllNumeric(numeric, u) && AllNumeric(numeric, v)
    ensures LinesEqual(numeric, p + u, p + v)
  {
    Backtrace.SharedPrefixInvisibleTails(p, u, v, CharEq, NotNumeric(numeric));
  }

  /** A line is editable exactly when it holds a character that is not
      numeric; so the empty line and all-numeric lines are never editable. */
  lemma LineEditableIff(numeric: char -> bool, x: string)
    ensures LineEditable(numeric)(x) <==> exists k :: 0 <= k < |x| && !numeric(x[k])
    ensures |x| == 0 ==> !LineEditable(numeric)(x)
  {
  }

  /** Every line the line diff deletes or inserts holds a non-numeric
      character. */
  lemma VisibleLinesHaveText(numeric: char -> bool, a: seq<string>, b: seq<string>)
    ensures forall x <- Deleted(LineDiff(numeric, a, b)) :: exists k :: 0 <= k < |x| && !numeric(x[k])
    ensures forall y <- Inserted(LineDiff(numeric, a, b)) :: exists k :: 0 <= k < |y| && !numeric(y[k])
  {
    var eq := (x, y) => LinesEqual(numeric, x, y);
    Backtrace.DeletionsComeFromA(a, b, eq, LineEditable(numeric), |a|, |b|);
    Backtrace.InsertionsComeFromB(a, b, eq, LineEditable(numeric), |a|, |b|);
  }

  /** The lines the line diff deletes occur in `a` in the same order, and
      the lines it inserts occur in `b` in the same order. */
  lemma VisibleLinesInOrder(numeric: char -> bool, a: seq<string>, b: seq<string>)
    ensures IsSubseq(Deleted(LineDiff(numeric, a, b)), a)
    ensures IsSubseq(Inserted(LineDiff(numeric, a, b)), b)
  {
    var eq := (x, y) => LinesEqual(numeric, x, y);
    Backtrace.DeletionsComeFromA(a, b, eq, LineEditable(numeric), |a|, |b|);
    Backtrace.InsertionsComeFromB(a, b, eq, LineEditable(numeric), |a|, |b|);
    assert a[..|a|] == a && b[..|b|] == b;
  }
}
