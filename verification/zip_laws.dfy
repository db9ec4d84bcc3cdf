/** Laws of the or node (`|`): the operands are walked in lockstep, one
    record per step made of the step's dicts, and operands of different
    lengths end the walk with the length mismatch error. */
module ZipLaws {
  import opened Wrappers
  import opened Values
  import opened Records
  import opened Algebra
  import opened Cdict
  import opened ProductLaws

  /** The values the traces yield at step `k`, in operand order, skipping
      the traces that have none there. */
  function Column(os: seq<Outcome>, k: nat): seq<Value>
  {
    ColumnFrom(os, k, 0)
  }

  /** That column from trace `j` on. */
  function ColumnFrom(os: seq<Outcome>, k: nat, j: nat): seq<Value>
    decreases |os| - j
  {
    if |os| <= j then []
    else (if k < |os[j].yielded| then [os[j].yielded[k]] else []) + ColumnFrom(os, k, j + 1)
  }

  /** When every trace from `j` on has a value at step `k`, the column
      from `j` holds one value per trace, each that trace's value. */
  lemma {:induction false} ColumnFromSpec(os: seq<Outcome>, k: nat, j: nat)
    requires j <= |os|
    requires forall i :: j <= i < |os| ==> k < |os[i].yielded|
    ensures |ColumnFrom(os, k, j)| == |os| - j
    ensures forall i :: 0 <= i < |os| - j ==> ColumnFrom(os, k, j)[i] == os[j + i].yielded[k]
    decreases |os| - j
  {
    if j < |os| {
      ColumnFromSpec(os, k, j + 1);
      var col, rest := ColumnFrom(os, k, j), ColumnFrom(os, k, j + 1);
      assert col == [os[j].yielded[k]] + rest;
      forall i | 0 < i < |os| - j
        ensures col[i] == os[j + i].yielded[k]
      {
        assert col[i] == rest[i - 1];
        assert j + 1 + (i - 1) == j + i;
      }
    }
  }

  /** When every trace has a value at step `k`, the column holds one value
      per trace, each that trace's value at the step. */
  lemma ColumnSpec(os: seq<Outcome>, k: nat)
    requires forall j :: 0 <= j < |os| ==> k < |os[j].yielded|
    ensures |Column(os, k)| == |os|
    ensures forall j :: 0 <= j < |os| ==> Column(os, k)[j] == os[j].yielded[k]
  {
    ColumnFromSpec(os, k, 0);
    assert forall j :: 0 <= j < |os| ==> os[0 + j] == os[j];
  }

  /** Every trace yielded only dicts. */
  predicate RecordYields(os: seq<Outcome>)
  {
    forall j :: 0 <= j < |os| ==> AllRecords(os[j].yielded)
  }

  /** Every trace yielded exactly `m` values. */
  predicate SameLength(os: seq<Outcome>, m: nat)
  {
    forall j :: 0 <= j < |os| ==> |os[j].yielded| == m
  }

  /** Every trace has values for the steps before `m`. */
  predicate Reaches(os: seq<Outcome>, m: nat)
  {
    forall j :: 0 <= j < |os| ==> m <= |os[j].yielded|
  }

  /** There are traces, the shortest yielded `m` values, and every trace
      of that length completed without raising. A longer trace may raise
      after its values: the walk stops at step `m` before reaching it. */
  predicate Completes(os: seq<Outcome>, m: nat)
  {
    && 0 < |os|
    && Reaches(os, m)
    && (forall j :: 0 <= j < |os| && |os[j].yielded| == m ==> os[j].raised.None?)
    && (exists j :: 0 <= j < |os| && |os[j].yielded| == m)
  }

  /** Every trace has values for the steps before `m`; at step `m` trace
      `e` raises, and every trace before it is pulled without raising (it
      still has a value, or has just run out). */
  predicate RaisesAt(os: seq<Outcome>, m: nat, e: nat)
  {
    && Reaches(os, m)
    && e < |os| && |os[e].yielded| == m && os[e].raised.Some?
    && (forall j :: 0 <= j < e ==> Pull(os[j], m).Ok?)
  }

  /** The record step `k` yields when the traces yield dicts: `dict` of
      the step's items, the last write winning. */
  function StepRecord(os: seq<Outcome>, k: nat): Value
    requires RecordYields(os)
    requires forall j :: 0 <= j < |os| ==> k < |os[j].yielded|
  {
    ColumnSpec(os, k);
    Rec(ToDict(Items(Column(os, k))))
  }

  /** One unfolding of `Eval` on an or node. */
  lemma EvalOr(ns: seq<Node>)
    ensures Eval(Or(ns)) == ZipFrom(Traces(ns), 0)
  {
  }

  /** A step at which every trace still has a value goes on with the next
      step after the step's row. */
  lemma ZipStep(os: seq<Outcome>, k: nat)
    requires |os| > 0
    requires forall j :: 0 <= j < |os| ==> k < |os[j].yielded|
    ensures ZipFrom(os, k) == Then(ZipRow(Column(os, k)), ZipFrom(os, k + 1))
  {
    PullAllSpec(os, k);
    var slots := PullAll(os, k).value;
    HeadsSpec(slots, 0);
    AnyLeftSpec(slots, 0);
    ColumnSpec(os, k);
    assert forall j :: 0 <= j < |slots| ==> slots[0 + j] == slots[j];
    assert Heads(slots, 0).value == Column(os, k);
  }

  /** The step at which the shortest trace (of length `m`) has run out:
      the walk stops cleanly when every trace has, and raises the length
      mismatch when some still has values. */
  lemma ZipEnd(os: seq<Outcome>, m: nat)
    requires Completes(os, m)
    ensures ZipFrom(os, m) ==
      if SameLength(os, m) then Done([]) else Fail(LengthMismatch)
  {
    PullAllSpec(os, m);
    var slots := PullAll(os, m).value;
    assert forall j :: 0 <= j < |os| ==> (slots[j].None? <==> |os[j].yielded| == m);
    HeadsSpec(slots, 0);
    AnyLeftSpec(slots, 0);
  }

  /** The columns of the steps before `m`. */
  function Cols(os: seq<Outcome>, m: nat): (cs: seq<seq<Value>>)
    ensures |cs| == m
    ensures forall s :: 0 <= s < m ==> cs[s] == Column(os, s)
  {
    seq(m, s requires 0 <= s < m => Column(os, s))
  }

  /** On dict-yielding traces each step's row is the step's record. */
  lemma RowOf(os: seq<Outcome>, k: nat)
    requires RecordYields(os)
    requires forall j :: 0 <= j < |os| ==> k < |os[j].yielded|
    ensures ZipRow(Column(os, k)) == Done([StepRecord(os, k)])
  {
    ColumnSpec(os, k);
  }

  /** The zip and the reference reading take the same step at `k`. */
  lemma ZipRunStep(os: seq<Outcome>, k: nat, m: nat, r: Option<Error>)
    requires k < m && |os| > 0 && Reaches(os, m)
    requires ZipFrom(os, k + 1) == Chain(ZipRow, Cols(os, m), k + 1, r)
    ensures ZipFrom(os, k) == Chain(ZipRow, Cols(os, m), k, r)
  {
    ZipStep(os, k);
  }

  /** The walk from step `k` over traces that complete, the shortest with
      length `m`: the rows of steps `k` to `m - 1`, then a clean stop when
      all the lengths agree and the length mismatch error when they do
      not. */
  lemma {:induction false} ZipRun(os: seq<Outcome>, k: nat, m: nat)
    requires Completes(os, m) && k <= m
    ensures ZipFrom(os, k) == Chain(ZipRow, Cols(os, m), k, if SameLength(os, m) then None else Some(LengthMismatch))
    decreases m - k
  {
    if k == m {
      ZipRunEnd(os, m);
    } else {
      ZipRun(os, k + 1, m);
      ZipRunStep(os, k, m, if SameLength(os, m) then None else Some(LengthMismatch));
    }
  }

  /** The walk from step `m` is the end of the reference reading. */
  lemma ZipRunEnd(os: seq<Outcome>, m: nat)
    requires Completes(os, m)
    ensures ZipFrom(os, m) == Chain(ZipRow, Cols(os, m), m, if SameLength(os, m) then None else Some(LengthMismatch))
  {
    var r := if SameLength(os, m) then None else Some(LengthMismatch);
    ZipEnd(os, m);
    assert Chain(ZipRow, Cols(os, m), m, r) == Outcome([], r);
  }

  /** When a trace raises at step `m`, before any trace that raises there,
      and every trace has values for the steps before, the
      walk yields the rows of steps `k` to `m - 1` and then raises that
      trace's error: the walk pulls the operands in order. */
  lemma {:induction false} ZipRaises(os: seq<Outcome>, k: nat, m: nat, e: nat)
    requires RaisesAt(os, m, e) && k <= m
    ensures ZipFrom(os, k) == Chain(ZipRow, Cols(os, m), k, os[e].raised)
    decreases m - k
  {
    if k == m {
      ZipRaisesEnd(os, m, e);
      assert Chain(ZipRow, Cols(os, m), m, os[e].raised) == Outcome([], os[e].raised);
    } else {
      ZipRaises(os, k + 1, m, e);
      ZipRunStep(os, k, m, os[e].raised);
    }
  }

  /** The step at which trace `e` raises ends the walk with its error. */
  lemma ZipRaisesEnd(os: seq<Outcome>, m: nat, e: nat)
    requires RaisesAt(os, m, e)
    ensures ZipFrom(os, m) == Fail(os[e].raised.value)
  {
    FirstPullError(os, m, 0, e);
  }

  /** An operand that has just run out does not hide the error of a later
      one at the same step: the later error is what the walk raises. */
  lemma ExhaustedBeforeRaise()
    ensures ZipFrom([Done([]), Fail(NotARecord)], 0) == Fail(NotARecord)
  {
    ZipRaisesEnd([Done([]), Fail(NotARecord)], 0, 1);
  }

  /** The pulls from iterator `j` on report the error of the first pull
      that raises. */
  lemma {:induction false} FirstPullError(os: seq<Outcome>, k: nat, j: nat, e: nat)
    requires j <= e < |os| && Pull(os[e], k).Err?
    requires forall i :: j <= i < e ==> Pull(os[i], k).Ok?
    ensures PullFrom(os, k, j) == Err(Pull(os[e], k).error)
    decreases e - j
  {
    if j < e {
      FirstPullError(os, k, j + 1, e);
    }
  }

  /** The zip of traces that complete with dicts, the shortest with
      length `m`: one record per step up to `m`, each the step's record,
      then a clean stop exactly when all the lengths agree and the length
      mismatch error otherwise. */
  lemma OrTraces(os: seq<Outcome>, m: nat)
    requires RecordYields(os) && Completes(os, m)
    ensures |ZipFrom(os, 0).yielded| == m
    ensures forall s :: 0 <= s < m ==> ZipFrom(os, 0).yielded[s] == StepRecord(os, s)
    ensures ZipFrom(os, 0).raised == if SameLength(os, m) then None else Some(LengthMismatch)
  {
    var r := if SameLength(os, m) then None else Some(LengthMismatch);
    ZipRun(os, 0, m);
    var cols := Cols(os, m);
    forall s | 0 <= s < m ensures ZipRow(cols[s]) == Done([StepRecord(os, s)]) {
      RowOf(os, s);
    }
    ChainSinglesAll(ZipRow, cols, r);
  }

  /** An operand longer than the shortest may raise after its values:
      the walk meets the shortest operand's end first and raises the
      length mismatch, so the longer operand's own error is never reached. */
  lemma LongerOperandRaises(x: Value, y0: Value, y1: Value, y2: Value, e: Error)
    requires x.Rec? && y0.Rec? && y1.Rec? && y2.Rec?
    ensures var os := [Done([x]), Outcome([y0, y1, y2], Some(e))];
      ZipFrom(os, 0) == Outcome([StepRecord(os, 0)], Some(LengthMismatch))
  {
    var os := [Done([x]), Outcome([y0, y1, y2], Some(e))];
    assert !SameLength(os, 1) by {
      assert |os[1].yielded| == 3;
    }
    assert |os[0].yielded| == 1 && os[0].raised.None?;
    OrTraces(os, 1);
  }

  /** `a | b | ...` over operands that complete with dicts: one record per
      step, as many as the shortest operand yields; the walk ends cleanly
      exactly when all operands have that length, and raises the length
      mismatch error otherwise. */
  lemma OrEval(ns: seq<Node>, m: nat)
    requires RecordFactors(ns)
    requires forall j :: 0 <= j < |ns| ==> m <= |Eval(ns[j]).yielded|
    requires exists j :: 0 <= j < |ns| && |Eval(ns[j]).yielded| == m
    ensures RecordYields(Traces(ns))
    ensures forall j :: 0 <= j < |ns| ==> m <= |Traces(ns)[j].yielded|
    ensures |Eval(Or(ns)).yielded| == m
    ensures forall i :: 0 <= i < m ==> Eval(Or(ns)).yielded[i] == StepRecord(Traces(ns), i)
    ensures Eval(Or(ns)).raised.None? <==> forall j :: 0 <= j < |ns| ==> |Eval(ns[j]).yielded| == m
    ensures Eval(Or(ns)).raised.Some? ==> Eval(Or(ns)).raised == Some(LengthMismatch)
  {
    TraceFacts(ns, m);
    OrTraces(Traces(ns), m);
    EvalOr(ns);
  }

  /** What the operands' traces inherit from the operands. */
  lemma TraceFacts(ns: seq<Node>, m: nat)
    requires RecordFactors(ns)
    requires forall j :: 0 <= j < |ns| ==> m <= |Eval(ns[j]).yielded|
    requires exists j :: 0 <= j < |ns| && |Eval(ns[j]).yielded| == m
    ensures RecordYields(Traces(ns)) && Completes(Traces(ns), m)
    ensures SameLength(Traces(ns), m) <==> forall j :: 0 <= j < |ns| ==> |Eval(ns[j]).yielded| == m
  {
    var os := Traces(ns);
    assert forall j :: 0 <= j < |ns| ==> os[j] == Eval(ns[j]);
    var j :| 0 <= j < |ns| && |Eval(ns[j]).yielded| == m;
    assert |os[j].yielded| == m;
  }

  /** An or node over no operands yields nothing. */
  lemma OrEmpty()
    ensures Eval(Or([])) == Done([])
  {
    EvalOr([]);
  }

  /** Two traces of equal length yielding dicts zip to one record per
      step, record `i` being `dict` of the first trace's value `i`
      followed by the second's. */
  lemma PairZip(xs: seq<Value>, ys: seq<Value>, i: nat)
    requires AllRecords(xs) && AllRecords(ys) && |xs| == |ys|
    requires i < |xs|
    ensures ZipFrom([Done(xs), Done(ys)], 0).raised.None?
    ensures |ZipFrom([Done(xs), Done(ys)], 0).yielded| == |xs|
    ensures ZipFrom([Done(xs), Done(ys)], 0).yielded[i] == Rec(ToDict(xs[i].fields + ys[i].fields))
  {
    var os := [Done(xs), Done(ys)];
    assert |os[0].yielded| == |xs|;
    assert SameLength(os, |xs|);
    OrTraces(os, |xs|);
    ColumnSpec(os, i);
    assert Column(os, i) == [xs[i], ys[i]];
    ItemsPair(xs[i], ys[i]);
  }

  /** Two dict-yielding traces where the second is shorter: one record per
      step of the shorter, then the length mismatch error. */
  lemma ShortZip(xs: seq<Value>, ys: seq<Value>)
    requires AllRecords(xs) && AllRecords(ys) && |ys| < |xs|
    ensures ZipFrom([Done(xs), Done(ys)], 0).raised == Some(LengthMismatch)
    ensures |ZipFrom([Done(xs), Done(ys)], 0).yielded| == |ys|
  {
    var os := [Done(xs), Done(ys)];
    assert |os[1].yielded| == |ys|;
    assert |os[0].yielded| != |ys|;
    OrTraces(os, |ys|);
  }

  /** `a | b` over two operands of equal length yielding dicts: record `i`
      is `dict` of `a`'s record `i` followed by `b`'s, so on a shared key
      `b`'s value wins. */
  lemma ZipTwo(a: Node, b: Node, xs: seq<Value>, ys: seq<Value>, i: nat)
    requires Eval(a) == Done(xs) && Eval(b) == Done(ys)
    requires AllRecords(xs) && AllRecords(ys) && |xs| == |ys|
    requires i < |xs|
    ensures Eval(Zip(a, b)).raised.None?
    ensures |Eval(Zip(a, b)).yielded| == |xs|
    ensures Eval(Zip(a, b)).yielded[i] == Rec(ToDict(xs[i].fields + ys[i].fields))
  {
    PairTraces(a, b, xs, ys);
    PairZip(xs, ys, i);
  }

  /** `a | b` where `b` yields fewer dicts than `a`: the records of the
      steps both can take, then the length mismatch error. */
  lemma ZipShorter(a: Node, b: Node, xs: seq<Value>, ys: seq<Value>)
    requires Eval(a) == Done(xs) && Eval(b) == Done(ys)
    requires AllRecords(xs) && AllRecords(ys) && |ys| < |xs|
    ensures Eval(Zip(a, b)).raised == Some(LengthMismatch)
    ensures |Eval(Zip(a, b)).yielded| == |ys|
  {
    PairTraces(a, b, xs, ys);
    ShortZip(xs, ys);
  }

  /** `a | b` zips the traces of `a` and `b`. */
  lemma PairTraces(a: Node, b: Node, xs: seq<Value>, ys: seq<Value>)
    requires Eval(a) == Done(xs) && Eval(b) == Done(ys)
    ensures Eval(Zip(a, b)) == ZipFrom([Done(xs), Done(ys)], 0)
  {
    EvalOr([a, b]);
    assert Traces([a, b]) == [Done(xs), Done(ys)];
  }
}
