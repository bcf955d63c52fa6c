/**
 Edit scripts: sequences of `Op`, where a run of unchanged steps is a single
 `Nop(n)`. `Join` is the append-or-extend operation that keeps runs
 coalesced; the other functions here measure a script.
 */
module Ops {

  /** One entry of an edit script. */
  datatype Op<T> = Del(x: T) | Ins(x: T) | Nop(n: nat)

  /** Every run has length at least 1 and no two runs are adjacent. */
  predicate Coalesced<T>(s: seq<Op<T>>) {
    && (forall k :: 0 <= k < |s| && s[k].Nop? ==> s[k].n >= 1)
    && (forall k :: 0 < k < |s| && s[k].Nop? ==> !s[k - 1].Nop?)
  }

  /** The script shows no change at all. */
  predicate AllNop<T>(s: seq<Op<T>>) {
    forall k :: 0 <= k < |s| ==> s[k].Nop?
  }

  /** The elements an entry deletes (at most one). */
  function DelOf<T>(o: Op<T>): seq<T> {
    if o.Del? then [o.x] else []
  }

  /** The elements an entry inserts (at most one). */
  function InsOf<T>(o: Op<T>): seq<T> {
    if o.Ins? then [o.x] else []
  }

  /** How many elements of the first sequence an entry walks over. */
  function AStep<T>(o: Op<T>): nat {
    match o
    case Del(_) => 1
    case Ins(_) => 0
    case Nop(n) => n
  }

  /** How many elements of the second sequence an entry walks over. */
  function BStep<T>(o: Op<T>): nat {
    match o
    case Del(_) => 0
    case Ins(_) => 1
    case Nop(n) => n
  }

  /** The deleted elements, in script order. */
  function Deleted<T>(s: seq<Op<T>>): seq<T>
    decreases |s|
  {
    if |s| == 0 then [] else DelOf(s[0]) + Deleted(s[1..])
  }

  /** The inserted elements, in script order. */
  function Inserted<T>(s: seq<Op<T>>): seq<T>
    decreases |s|
  {
    if |s| == 0 then [] else InsOf(s[0]) + Inserted(s[1..])
  }

  /** The number of visible edits. */
  function EditCount<T>(s: seq<Op<T>>): nat {
    |Deleted(s)| + |Inserted(s)|
  }

  /** How many elements of the first sequence the script walks over. */
  function ASide<T>(s: seq<Op<T>>): nat
    decreases |s|
  {
    if |s| == 0 then 0 else ASide(s[..|s| - 1]) + AStep(s[|s| - 1])
  }

  /** How many elements of the second sequence the script walks over. */
  function BSide<T>(s: seq<Op<T>>): nat
    decreases |s|
  {
    if |s| == 0 then 0 else BSide(s[..|s| - 1]) + BStep(s[|s| - 1])
  }

  /** What one entry emits, given the elements of the first sequence it
      walks over: a run copies them, Del emits nothing, Ins its element. */
  function Emit<T>(o: Op<T>, c: seq<T>): seq<T> {
    match o
    case Del(_) => []
    case Ins(y) => [y]
    case Nop(_) => c
  }

  /** Plays the script over `a`; the last entry works on the last elements
      of `a` it walks over (on all of `a` when it would walk over more than
      `a` holds). */
  function Replay<T>(s: seq<Op<T>>, a: seq<T>): seq<T>
    decreases |s|
  {
    if |s| == 0 then []
    else
      var k := if AStep(s[|s| - 1]) <= |a| then AStep(s[|s| - 1]) else |a|;
      Replay(s[..|s| - 1], a[..|a| - k]) + Emit(s[|s| - 1], a[|a| - k..])
  }


  lemma DeletedOne<T>(o: Op<T>)
    ensures Deleted([o]) == DelOf(o)
  {
    assert [o][1..] == [];
  }

  lemma {:induction false} DeletedConcat<T>(s: seq<Op<T>>, t: seq<Op<T>>)
    ensures Deleted(s + t) == Deleted(s) + Deleted(t)
    decreases |s|
  {
    if |s| == 0 {
      assert s + t == t;
    } else {
      assert (s + t)[1..] == s[1..] + t;
      DeletedConcat(s[1..], t);
    }
  }

  lemma InsertedOne<T>(o: Op<T>)
    ensures Inserted([o]) == InsOf(o)
  {
    assert [o][1..] == [];
  }

  lemma {:induction false} InsertedConcat<T>(s: seq<Op<T>>, t: seq<Op<T>>)
    ensures Inserted(s + t) == Inserted(s) + Inserted(t)
    decreases |s|
  {
    if |s| == 0 {
      assert s + t == t;
    } else {
      assert (s + t)[1..] == s[1..] + t;
      InsertedConcat(s[1..], t);
    }
  }

  lemma {:induction false} ASideConcat<T>(s: seq<Op<T>>, t: seq<Op<T>>)
    ensures ASide(s + t) == ASide(s) + ASide(t)
    decreases |t|
  {
    if |t| == 0 {
      assert s + t == s;
    } else {
      assert (s + t)[..|s + t| - 1] == s + t[..|t| - 1];
      ASideConcat(s, t[..|t| - 1]);
    }
  }


  lemma {:induction false} BSideConcat<T>(s: seq<Op<T>>, t: seq<Op<T>>)
    ensures BSide(s + t) == BSide(s) + BSide(t)
    decreases |t|
  {
    if |t| == 0 {
      assert s + t == s;
    } else {
      assert (s + t)[..|s + t| - 1] == s + t[..|t| - 1];
      BSideConcat(s, t[..|t| - 1]);
    }
  }


  /** Appends `t` to `s`, merging the last run of `s` with the first run of
      `t` when both are runs. */
  function Join<T>(s: seq<Op<T>>, t: seq<Op<T>>): seq<Op<T>> {
    if |s| > 0 && |t| > 0 && s[|s| - 1].Nop? && t[0].Nop? then
      s[..|s| - 1] + [Nop(s[|s| - 1].n + t[0].n)] + t[1..]
    else
      s + t
  }

  /** Join loses no edit and walks over as many elements as its two parts
      together. */
  lemma JoinMeasures<T>(s: seq<Op<T>>, t: seq<Op<T>>)
    ensures Deleted(Join(s, t)) == Deleted(s) + Deleted(t)
    ensures Inserted(Join(s, t)) == Inserted(s) + Inserted(t)
    ensures ASide(Join(s, t)) == ASide(s) + ASide(t)
    ensures BSide(Join(s, t)) == BSide(s) + BSide(t)
  {
    JoinDeleted(s, t);
    JoinInserted(s, t);
    JoinASide(s, t);
    JoinBSide(s, t);
  }

  lemma JoinDeleted<T>(s: seq<Op<T>>, t: seq<Op<T>>)
    ensures Deleted(Join(s, t)) == Deleted(s) + Deleted(t)
  {
    if |s| > 0 && |t| > 0 && s[|s| - 1].Nop? && t[0].Nop? {
      var s', t' := s[..|s| - 1], t[1..];
      var p, q := s[|s| - 1].n, t[0].n;
      assert s == s' + [Nop(p)] && t == [Nop(q)] + t';
      assert Join(s, t) == (s' + [Nop(p + q)]) + t';
      DeletedOne<T>(Nop(p));
      DeletedOne<T>(Nop(q));
      DeletedOne<T>(Nop(p + q));
      DeletedConcat(s', [Nop(p)]);
      DeletedConcat([Nop(q)], t');
      DeletedConcat(s', [Nop(p + q)]);
      DeletedConcat(s' + [Nop(p + q)], t');
      assert Deleted(s) == Deleted(s') && Deleted(t) == Deleted(t');
      assert Deleted(s' + [Nop(p + q)]) == Deleted(s');
    } else {
      DeletedConcat(s, t);
    }
  }

  lemma JoinInserted<T>(s: seq<Op<T>>, t: seq<Op<T>>)
    ensures Inserted(Join(s, t)) == Inserted(s) + Inserted(t)
  {
    if |s| > 0 && |t| > 0 && s[|s| - 1].Nop? && t[0].Nop? {
      var s', t' := s[..|s| - 1], t[1..];
      var p, q := s[|s| - 1].n, t[0].n;
      assert s == s' + [Nop(p)] && t == [Nop(q)] + t';
      assert Join(s, t) == (s' + [Nop(p + q)]) + t';
      InsertedOne<T>(Nop(p));
      InsertedOne<T>(Nop(q));
      InsertedOne<T>(Nop(p + q));
      InsertedConcat(s', [Nop(p)]);
      InsertedConcat([Nop(q)], t');
      InsertedConcat(s', [Nop(p + q)]);
      InsertedConcat(s' + [Nop(p + q)], t');
      assert Inserted(s) == Inserted(s') && Inserted(t) == Inserted(t');
      assert Inserted(s' + [Nop(p + q)]) == Inserted(s');
    } else {
      InsertedConcat(s, t);
    }
  }

  lemma JoinASide<T>(s: seq<Op<T>>, t: seq<Op<T>>)
    ensures ASide(Join(s, t)) == ASide(s) + ASide(t)
  {
    if |s| > 0 && |t| > 0 && s[|s| - 1].Nop? && t[0].Nop? {
      var s', t' := s[..|s| - 1], t[1..];
      var p, q := s[|s| - 1].n, t[0].n;
      assert s == s' + [Nop(p)] && t == [Nop(q)] + t';
      assert Join(s, t) == (s' + [Nop(p + q)]) + t';
      ASideConcat(s', [Nop(p)]);
      ASideConcat([Nop(q)], t');
      ASideConcat(s', [Nop(p + q)]);
      ASideConcat(s' + [Nop(p + q)], t');
    } else {
      ASideConcat(s, t);
    }
  }

  lemma JoinBSide<T>(s: seq<Op<T>>, t: seq<Op<T>>)
    ensures BSide(Join(s, t)) == BSide(s) + BSide(t)
  {
    if |s| > 0 && |t| > 0 && s[|s| - 1].Nop? && t[0].Nop? {
      var s', t' := s[..|s| - 1], t[1..];
      var p, q := s[|s| - 1].n, t[0].n;
      assert s == s' + [Nop(p)] && t == [Nop(q)] + t';
      assert Join(s, t) == (s' + [Nop(p + q)]) + t';
      BSideConcat(s', [Nop(p)]);
      BSideConcat([Nop(q)], t');
      BSideConcat(s', [Nop(p + q)]);
      BSideConcat(s' + [Nop(p + q)], t');
    } else {
      BSideConcat(s, t);
    }
  }

  lemma ASideOne<T>(o: Op<T>)
    ensures ASide([o]) == AStep(o)
  {
    assert [o][..0] == [];
  }

  lemma BSideOne<T>(o: Op<T>)
    ensures BSide([o]) == BStep(o)
  {
    assert [o][..0] == [];
  }

  /** Appending one entry plays what the script played on the first part of
      `a` and then what the entry emits on the rest, even when the entry
      merges into a run. */
  lemma ReplayExtend<T>(s: seq<Op<T>>, x: Op<T>, a: seq<T>)
    requires ASide(s) + AStep(x) == |a|
    ensures ASide(Join(s, [x])) == |a|
    ensures Replay(Join(s, [x]), a) == Replay(s, a[..ASide(s)]) + Emit(x, a[ASide(s)..])
  {
    if |s| > 0 && s[|s| - 1].Nop? && x.Nop? {
      ReplayMerge(s, x, a);
    } else {
      ReplayAppend(s, x, a);
    }
  }

  /** A run joined onto a run is one longer run. */
  lemma JoinRuns<T>(s: seq<Op<T>>, p: nat, q: nat)
    ensures Join(s + [Nop(p)], [Nop(q)]) == s + [Nop(p + q)]
  {
    var s1 := s + [Nop(p)];
    assert s1[..|s1| - 1] == s;
  }

  lemma ReplayMerge<T>(s: seq<Op<T>>, x: Op<T>, a: seq<T>)
    requires |s| > 0 && s[|s| - 1].Nop? && x.Nop?
    requires ASide(s) + AStep(x) == |a|
    ensures ASide(Join(s, [x])) == |a|
    ensures Replay(Join(s, [x]), a) == Replay(s, a[..ASide(s)]) + Emit(x, a[ASide(s)..])
  {
    var s', p := SplitLast(s);
    JoinRuns(s', p, x.n);
    ReplayRuns(s', p, x.n, a);
  }

  /** A script ending in a run is some script followed by that run. */
  lemma SplitLast<T>(s: seq<Op<T>>) returns (s': seq<Op<T>>, p: nat)
    requires |s| > 0 && s[|s| - 1].Nop?
    ensures s == s' + [Nop(p)]
  {
    s', p := s[..|s| - 1], s[|s| - 1].n;
  }

  /** Replay of a script with one more entry at its end. */
  lemma ReplaySnoc<T>(s: seq<Op<T>>, x: Op<T>, a: seq<T>)
    requires ASide(s) + AStep(x) == |a|
    ensures ASide(s + [x]) == |a|
    ensures Replay(s + [x], a) == Replay(s, a[..ASide(s)]) + Emit(x, a[ASide(s)..])
  {
    var r := s + [x];
    assert r[..|r| - 1] == s;
  }

  lemma ReplayAppend<T>(s: seq<Op<T>>, x: Op<T>, a: seq<T>)
    requires ASide(s) + AStep(x) == |a|
    requires !(|s| > 0 && s[|s| - 1].Nop? && x.Nop?)
    ensures ASide(Join(s, [x])) == |a|
    ensures Replay(Join(s, [x]), a) == Replay(s, a[..ASide(s)]) + Emit(x, a[ASide(s)..])
  {
    assert Join(s, [x]) == s + [x];
    ReplaySnoc(s, x, a);
  }

  /** Cutting `a` at m and n, m <= n, in either order. */
  lemma Cuts<T>(a: seq<T>, m: nat, n: nat)
    requires m <= n <= |a|
    ensures a[..n][..m] == a[..m]
    ensures a[..n][m..] + a[n..] == a[m..]
  {
  }

  lemma ConcatAssoc<T>(x: seq<T>, y: seq<T>, z: seq<T>)
    ensures (x + y) + z == x + (y + z)
  {
  }

  /** Two adjacent runs of p and q play like one run of p + q. */
  lemma ReplayRuns<T>(s: seq<Op<T>>, p: nat, q: nat, a: seq<T>)
    requires ASide(s) + p + q == |a|
    ensures ASide(s + [Nop(p + q)]) == |a|
    ensures ASide(s + [Nop(p)]) == ASide(s) + p
    ensures Replay(s + [Nop(p + q)], a)
         == Replay(s + [Nop(p)], a[..ASide(s) + p]) + a[ASide(s) + p..]
  {
    var m := ASide(s);
    var n := m + p;
    ReplaySnoc(s, Nop(p + q), a);
    ReplaySnoc(s, Nop(p), a[..n]);
    var head := Replay(s, a[..m]);
    Cuts(a, m, n);
    assert Replay(s + [Nop(p)], a[..n]) == head + a[..n][m..];
    ConcatAssoc(head, a[..n][m..], a[n..]);
  }

  /** Join keeps runs coalesced. */
  lemma JoinCoalesced<T>(s: seq<Op<T>>, t: seq<Op<T>>)
    requires Coalesced(s) && Coalesced(t)
    ensures Coalesced(Join(s, t))
  {
    var r := Join(s, t);
    if |s| > 0 && |t| > 0 && s[|s| - 1].Nop? && t[0].Nop? {
      assert forall k :: 0 <= k < |s| - 1 ==> r[k] == s[k];
      assert forall k :: |s| <= k < |r| ==> r[k] == t[k - |s| + 1];
    } else {
      assert forall k :: 0 <= k < |s| ==> r[k] == s[k];
      assert forall k :: |s| <= k < |r| ==> r[k] == t[k - |s|];
    }
  }

  /** The join shows no change exactly when neither part does. */
  lemma JoinAllNop<T>(s: seq<Op<T>>, t: seq<Op<T>>)
    ensures AllNop(Join(s, t)) <==> AllNop(s) && AllNop(t)
  {
    var r := Join(s, t);
    if |s| > 0 && |t| > 0 && s[|s| - 1].Nop? && t[0].Nop? {
      assert forall k :: 0 <= k < |s| - 1 ==> r[k] == s[k];
      assert forall k :: |s| <= k < |r| ==> r[k] == t[k - |s| + 1];
      if AllNop(r) {
        forall k | 0 < k < |t| ensures t[k].Nop? {
          assert r[k + |s| - 1] == t[k];
        }
      }
    } else {
      assert forall k :: 0 <= k < |s| ==> r[k] == s[k];
      assert forall k :: |s| <= k < |r| ==> r[k] == t[k - |s|];
      if AllNop(r) {
        forall k | 0 <= k < |t| ensures t[k].Nop? {
          assert r[k + |s|] == t[k];
        }
      }
    }
  }

  /** A deletion or insertion never merges. */
  lemma JoinSingle<T>(s: seq<Op<T>>, x: Op<T>)
    requires !x.Nop?
    ensures Join(s, [x]) == s + [x]
  {
  }

  /** Join with nothing changes nothing. */
  lemma JoinEmpty<T>(s: seq<Op<T>>)
    ensures Join(s, []) == s && Join([], s) == s
  {
    assert s + [] == s && [] + s == s;
  }

  /** A script starting with a run is that run followed by some script. */
  lemma SplitFirst<T>(t: seq<Op<T>>) returns (q: nat, t': seq<Op<T>>)
    requires |t| > 0 && t[0].Nop?
    ensures t == [Nop(q)] + t'
  {
    q, t' := t[0].n, t[1..];
  }

  /** Join merges a run ending the first part into a run starting the second. */
  lemma JoinMerges<T>(s: seq<Op<T>>, p: nat, q: nat, t: seq<Op<T>>)
    ensures Join(s + [Nop(p)], [Nop(q)] + t) == s + [Nop(p + q)] + t
  {
    var s1, t1 := s + [Nop(p)], [Nop(q)] + t;
    assert s1[..|s1| - 1] == s && t1[1..] == t;
  }

  /** Two runs joined are one run. */
  lemma JoinTwoRuns<T>(p: nat, q: nat)
    ensures Join<T>([Nop(p)], [Nop(q)]) == [Nop(p + q)]
  {
    var none: seq<Op<T>> := [];
    var one: seq<Op<T>> := [Nop(q)];
    var both: seq<Op<T>> := [Nop(p + q)];
    JoinMergesFront(p, q, none);
    assert one + none == one && both + none == both;
  }

  /** Join is associative around a single entry. */
  lemma JoinAssoc<T>(s: seq<Op<T>>, x: Op<T>, t: seq<Op<T>>)
    ensures Join(Join(s, [x]), t) == Join(s, Join([x], t))
  {
    var headRun := |s| > 0 && s[|s| - 1].Nop?;
    var tailRun := |t| > 0 && t[0].Nop?;
    if x.Nop? && headRun && tailRun {
      var s', p := SplitLast(s);
      var q, t' := SplitFirst(t);
      AssocBoth(s', p, x.n, q, t');
    } else if x.Nop? && headRun {
      var s', p := SplitLast(s);
      AssocHead(s', p, x.n, t);
    } else if x.Nop? && tailRun {
      var q, t' := SplitFirst(t);
      AssocTail(s, x.n, q, t');
    } else {
      AssocPlain(s, x, t);
    }
  }

  lemma AssocBoth<T>(s: seq<Op<T>>, p: nat, m: nat, q: nat, t: seq<Op<T>>)
    ensures Join(Join(s + [Nop(p)], [Nop(m)]), [Nop(q)] + t)
         == Join(s + [Nop(p)], Join([Nop(m)], [Nop(q)] + t))
  {
    JoinRuns(s, p, m);
    JoinMergesFront(m, q, t);
    JoinMerges(s, p + m, q, t);
    JoinMerges(s, p, m + q, t);
  }

  /** A single run joined onto a script starting with a run merges with it. */
  lemma JoinMergesFront<T>(m: nat, q: nat, t: seq<Op<T>>)
    ensures Join([Nop(m)], [Nop(q)] + t) == [Nop(m + q)] + t
  {
    var t1 := [Nop(q)] + t;
    assert t1[1..] == t;
  }

  lemma AssocHead<T>(s: seq<Op<T>>, p: nat, m: nat, t: seq<Op<T>>)
    requires !(|t| > 0 && t[0].Nop?)
    ensures Join(Join(s + [Nop(p)], [Nop(m)]), t) == Join(s + [Nop(p)], Join([Nop(m)], t))
  {
    JoinMerges(s, p, m, []);
    assert Join([Nop(m)], t) == [Nop(m)] + t;
    assert Join(s + [Nop(p + m)], t) == s + [Nop(p + m)] + t;
    JoinMerges(s, p, m, t);
  }

  lemma AssocTail<T>(s: seq<Op<T>>, m: nat, q: nat, t: seq<Op<T>>)
    requires !(|s| > 0 && s[|s| - 1].Nop?)
    ensures Join(Join(s, [Nop(m)]), [Nop(q)] + t) == Join(s, Join([Nop(m)], [Nop(q)] + t))
  {
    assert Join(s, [Nop(m)]) == s + [Nop(m)];
    JoinMerges(s, m, q, t);
    JoinMerges([], m, q, t);
    assert Join(s, [Nop(m + q)] + t) == s + [Nop(m + q)] + t;
  }

  lemma AssocPlain<T>(s: seq<Op<T>>, x: Op<T>, t: seq<Op<T>>)
    requires !x.Nop? || (!(|s| > 0 && s[|s| - 1].Nop?) && !(|t| > 0 && t[0].Nop?))
    ensures Join(Join(s, [x]), t) == Join(s, Join([x], t))
  {
    assert Join(s, [x]) == s + [x];
    assert Join([x], t) == [x] + t;
    assert Join(s + [x], t) == s + [x] + t;
    assert Join(s, [x] + t) == s + ([x] + t);
  }

  /** The reverse of a sequence. */
  function Reverse<T>(s: seq<T>): (r: seq<T>)
    ensures |r| == |s|
    ensures forall k :: 0 <= k < |s| ==> r[k] == s[|s| - 1 - k]
    decreases |s|
  {
    if s == [] then [] else [s[|s| - 1]] + Reverse(s[..|s| - 1])
  }

  /** The backtrace loop's run-extending push on a list that is built
      backwards: extend the run at the end, or start a new run of length 1. */
  function PushNop<T>(ops: seq<Op<T>>): (r: seq<Op<T>>)
    ensures r == Join(ops, [Nop(1)])
  {
    if |ops| > 0 && ops[|ops| - 1].Nop? then ops[..|ops| - 1] + [Nop(ops[|ops| - 1].n + 1)]
    else ops + [Nop(1)]
  }

  lemma ReverseSnoc<T>(s: seq<T>, x: T)
    ensures Reverse(s + [x]) == [x] + Reverse(s)
  {
    assert (s + [x])[..|s|] == s;
  }

  /** Pushing onto the backwards list is joining in front of the forward one. */
  lemma ReverseJoin<T>(ops: seq<Op<T>>, x: Op<T>)
    ensures Reverse(Join(ops, [x])) == Join([x], Reverse(ops))
  {
    if |ops| > 0 && ops[|ops| - 1].Nop? && x.Nop? {
      var ops', p := SplitLast(ops);
      ReverseRuns(ops', p, x.n);
    } else {
      ReversePlain(ops, x);
    }
  }

  lemma ReverseRuns<T>(s: seq<Op<T>>, p: nat, q: nat)
    ensures Reverse(Join(s + [Nop(p)], [Nop(q)])) == Join([Nop(q)], Reverse(s + [Nop(p)]))
  {
    JoinRuns(s, p, q);
    ReverseSnoc(s, Nop(p + q));
    ReverseSnoc(s, Nop(p));
    JoinMergesFront(q, p, Reverse(s));
  }

  lemma ReversePlain<T>(s: seq<Op<T>>, x: Op<T>)
    requires !(|s| > 0 && s[|s| - 1].Nop? && x.Nop?)
    ensures Reverse(Join(s, [x])) == Join([x], Reverse(s))
  {
    assert Join(s, [x]) == s + [x];
    ReverseSnoc(s, x);
    if |s| > 0 {
      assert Reverse(s)[0] == s[|s| - 1];
    }
  }

  /** `x` is `y` with some elements left out, the rest kept in order. */
  ghost predicate IsSubseq<T>(x: seq<T>, y: seq<T>)
    decreases |y|
  {
    && |x| <= |y|
    && (|x| == 0
        || (x[|x| - 1] == y[|y| - 1] && IsSubseq(x[..|x| - 1], y[..|y| - 1]))
        || IsSubseq(x, y[..|y| - 1]))
  }

  lemma SubseqExtendBoth<T>(x: seq<T>, y: seq<T>, e: T)
    requires IsSubseq(x, y)
    ensures IsSubseq(x + [e], y + [e])
  {
    assert (x + [e])[..|x|] == x;
    assert (y + [e])[..|y|] == y;
  }

  lemma SubseqExtendRight<T>(x: seq<T>, y: seq<T>, e: T)
    requires IsSubseq(x, y)
    ensures IsSubseq(x, y + [e])
  {
    assert (y + [e])[..|y|] == y;
  }

  /** The elements of `s` that satisfy `keep`, in order. */
  function Keep<T>(keep: T -> bool, s: seq<T>): seq<T>
    decreases |s|
  {
    if |s| == 0 then []
    else Keep(keep, s[..|s| - 1]) + (if keep(s[|s| - 1]) then [s[|s| - 1]] else [])
  }
}
