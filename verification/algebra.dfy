/** The expression algebra of cdict/main.py: the four node kinds, what
    iterating each one yields, and the public constructors and operators.

    Iterating a node runs a Python generator, which yields some values and
    then either stops or raises. `Eval` returns exactly that trace: the
    values yielded and the error raised after them, if any. */
module Algebra {
  import opened Wrappers
  import opened Seqs
  import opened Values
  import opened Records

  datatype Error =
    | CannotMultiply  // the assertion in `_cdict_product.__init__`
    | LengthMismatch  // the `ValueError` of `safe_zip`
    | NotARecord      // `d.items()` on a yielded value that is not a dict

  /** The trace of one iteration: values yielded, then the error raised. */
  datatype Outcome = Outcome(yielded: seq<Value>, raised: Option<Error>)

  function Done(vs: seq<Value>): Outcome
  {
    Outcome(vs, None)
  }

  function Fail(e: Error): Outcome
  {
    Outcome([], Some(e))
  }

  /** `yield from a` followed by `yield from b`: an error in `a` ends the
      iteration before `b` starts. */
  function Then(a: Outcome, b: Outcome): Outcome
  {
    if a.raised.Some? then a else Outcome(a.yielded + b.yielded, b.raised)
  }

  /** The traces run one after another. */
  function ThenAll(os: seq<Outcome>): Outcome
  {
    if |os| == 0 then Done([]) else Then(os[0], ThenAll(os[1..]))
  }

  /** The outcomes `f(c)` of the rows `c` of `rows` from `j` on, one after
      another, stopping at the first that raises, then ending with `r`:
      a loop that turns each row into values. */
  function Chain(f: seq<Value> -> Outcome, rows: seq<seq<Value>>, j: nat, r: Option<Error>): Outcome
    decreases |rows| - j
  {
    if |rows| <= j then Outcome([], r) else Then(f(rows[j]), Chain(f, rows, j + 1, r))
  }

  /** When every row from `j` on gives a single value, the loop yields
      those values in row order and then ends with `r`. */
  lemma {:induction false} ChainSingles(f: seq<Value> -> Outcome, rows: seq<seq<Value>>, j: nat, r: Option<Error>)
    requires j <= |rows|
    requires forall i :: j <= i < |rows| ==> f(rows[i]).raised.None? && |f(rows[i]).yielded| == 1
    ensures Chain(f, rows, j, r).raised == r
    ensures |Chain(f, rows, j, r).yielded| == |rows| - j
    ensures forall i :: j <= i < |rows| ==> Chain(f, rows, j, r).yielded[i - j] == f(rows[i]).yielded[0]
    decreases |rows| - j
  {
    if j < |rows| {
      ChainSingles(f, rows, j + 1, r);
    }
  }

  /** `ChainSingles` for the whole of `rows`. */
  lemma ChainSinglesAll(f: seq<Value> -> Outcome, rows: seq<seq<Value>>, r: Option<Error>)
    requires forall i :: 0 <= i < |rows| ==> f(rows[i]).raised.None? && |f(rows[i]).yielded| == 1
    ensures Chain(f, rows, 0, r).raised == r
    ensures |Chain(f, rows, 0, r).yielded| == |rows|
    ensures forall i :: 0 <= i < |rows| ==> Chain(f, rows, 0, r).yielded[i] == f(rows[i]).yielded[0]
  {
    ChainSingles(f, rows, 0, r);
    forall i | 0 <= i < |rows|
      ensures Chain(f, rows, 0, r).yielded[i] == f(rows[i]).yielded[0]
    {
      assert i - 0 == i;
    }
  }

  /** When row `e` is the first from `j` on that raises, and the rows before
      it give a single value each, the loop yields those values, then what
      row `e` yields, and raises its error: the rows after it are never
      reached. */
  lemma {:induction false} ChainStop(f: seq<Value> -> Outcome, rows: seq<seq<Value>>, j: nat, e: nat, r: Option<Error>)
    requires j <= e < |rows| && f(rows[e]).raised.Some?
    requires forall i :: j <= i < e ==> f(rows[i]).raised.None? && |f(rows[i]).yielded| == 1
    ensures Chain(f, rows, j, r).raised == f(rows[e]).raised
    ensures |Chain(f, rows, j, r).yielded| == e - j + |f(rows[e]).yielded|
    ensures forall i :: j <= i < e ==> Chain(f, rows, j, r).yielded[i - j] == f(rows[i]).yielded[0]
    decreases e - j
  {
    if j < e {
      ChainStop(f, rows, j + 1, e, r);
    }
  }
  /** `ChainStop` from the first row on. */
  lemma ChainStopAll(f: seq<Value> -> Outcome, rows: seq<seq<Value>>, e: nat, r: Option<Error>)
    requires e < |rows| && f(rows[e]).raised.Some?
    requires forall i :: 0 <= i < e ==> f(rows[i]).raised.None? && |f(rows[i]).yielded| == 1
    ensures Chain(f, rows, 0, r).raised == f(rows[e]).raised
    ensures |Chain(f, rows, 0, r).yielded| == e + |f(rows[e]).yielded|
    ensures forall i :: 0 <= i < e ==> Chain(f, rows, 0, r).yielded[i] == f(rows[i]).yielded[0]
  {
    ChainStop(f, rows, 0, e, r);
    forall i | 0 <= i < e
      ensures Chain(f, rows, 0, r).yielded[i] == f(rows[i]).yielded[0]
    {
      assert i - 0 == i;
    }
  }


  /** An expression node. `Apply`'s function is the flat-map body; `map`
      builds one that returns a singleton. */
  datatype Node =
    | Sum(items: seq<Item>)
    | Apply(fn: Value -> seq<Value>, inner: Node)
    | Product(factors: seq<Node>)
    | Or(branches: seq<Node>)

  /** An item of a sum: a raw value, a dict whose field values may be
      nodes, or a node. A raw record counts as a dict with constant
      fields, as `isinstance(d, dict)` does not tell them apart. */
  datatype Item = Raw(v: Value) | Dict(fields: seq<(string, Field)>) | Sub(node: Node)

  /** A field value of a dict item: a constant, or a node fanned out. */
  datatype Field = Const(c: Value) | Stream(node: Node)

  /** `tuple(it)` of each input in order, as `itertools.product` does
      before producing anything: the first input that raises decides the
      error. */
  function Materialize(os: seq<Outcome>): (r: Result<seq<seq<Value>>, Error>)
    ensures r.Ok? <==> forall i :: 0 <= i < |os| ==> os[i].raised.None?
    ensures r.Ok? ==> |r.value| == |os| && forall i :: 0 <= i < |os| ==> r.value[i] == os[i].yielded
  {
    if |os| == 0 then Ok([])
    else if os[0].raised.Some? then Err(os[0].raised.value)
    else
      match Materialize(os[1..])
      case Err(e) => Err(e)
      case Ok(rest) =>
        assert forall i :: 1 <= i < |os| ==> os[i] == os[1..][i - 1];
        Ok([os[0].yielded] + rest)
  }

  /** Keys paired with the values of one combination. */
  function ZipKeys(ks: seq<string>, vs: seq<Value>): (r: Pairs)
    requires |ks| == |vs|
    ensures Keys(r) == ks
  {
    seq(|ks|, i requires 0 <= i < |ks| => (ks[i], vs[i]))
  }

  /** The dict fan-out of `_cdict_sum.__iter__`: one record per
      combination of the field streams, keys as in the dict. */
  function FanOut(ks: seq<string>, cols: seq<Outcome>): Outcome
    requires |ks| == |cols|
  {
    match Materialize(cols)
    case Err(e) => Fail(e)
    case Ok(streams) =>
      var rows := CartProd(streams);
      Done(seq(|rows|, i requires 0 <= i < |rows| => Rec(ToDict(ZipKeys(ks, rows[i])))))
  }

  predicate AllRecords(vs: seq<Value>)
  {
    forall i :: 0 <= i < |vs| ==> vs[i].Rec?
  }

  /** `sum((list(d.items()) for d in ds), [])`. */
  function Items(ds: seq<Value>): Pairs
    requires AllRecords(ds)
  {
    ItemsFrom(ds, 0)
  }

  /** The items of the dicts `ds[j..]`, in order. */
  function ItemsFrom(ds: seq<Value>, j: nat): Pairs
    requires AllRecords(ds)
    decreases |ds| - j
  {
    if |ds| <= j then [] else ds[j].fields + ItemsFrom(ds, j + 1)
  }

  /** The record a product yields for one combination, or the error of
      calling `items()` on a non-dict. */
  function ProductRow(row: seq<Value>): Outcome
  {
    if AllRecords(row) then Done([Rec(Resolve(Items(row)))]) else Fail(NotARecord)
  }

  /** `_cdict_product.__iter__` over the traces of its factors. */
  function ProductOf(os: seq<Outcome>): Outcome
  {
    match Materialize(os)
    case Err(e) => Fail(e)
    case Ok(streams) => ProductRows(CartProd(streams))
  }

  /** The combinations turned into records one by one, stopping at the
      first that holds a non-dict. */
  function ProductRows(rows: seq<seq<Value>>): Outcome
  {
    Chain(ProductRow, rows, 0, None)
  }

  /** The record the zip yields for one step: `dict(...)` of the
      concatenated items, the last write winning. */
  function ZipRow(row: seq<Value>): Outcome
  {
    if AllRecords(row) then Done([Rec(ToDict(Items(row)))]) else Fail(NotARecord)
  }

  /** `next()` on an iterator that has already produced `k` values:
      a value, exhaustion (`None`), or the error it raises. */
  function Pull(o: Outcome, k: nat): Result<Option<Value>, Error>
  {
    if k < |o.yielded| then Ok(Some(o.yielded[k]))
    else if o.raised.Some? then Err(o.raised.value)
    else Ok(None)
  }

  /** One step of `zip_longest`: every iterator pulled in order, the
      first error raised propagating. */
  function PullAll(os: seq<Outcome>, k: nat): Result<seq<Option<Value>>, Error>
  {
    PullFrom(os, k, 0)
  }

  /** The pulls of that step from iterator `j` on. */
  function PullFrom(os: seq<Outcome>, k: nat, j: nat): Result<seq<Option<Value>>, Error>
    decreases |os| - j
  {
    if |os| <= j then Ok([])
    else
      match Pull(os[j], k)
      case Err(e) => Err(e)
      case Ok(slot) =>
        match PullFrom(os, k, j + 1)
        case Err(e) => Err(e)
        case Ok(rest) => Ok([slot] + rest)
  }

  /** The pulls from iterator `j` on succeed exactly when each does, and
      then hold one slot per iterator, each that iterator's pull. */
  lemma {:induction false} PullFromSpec(os: seq<Outcome>, k: nat, j: nat)
    requires j <= |os|
    ensures PullFrom(os, k, j).Ok? <==> forall i :: j <= i < |os| ==> Pull(os[i], k).Ok?
    ensures PullFrom(os, k, j).Ok? ==> |PullFrom(os, k, j).value| == |os| - j
    ensures PullFrom(os, k, j).Ok? ==> forall i :: 0 <= i < |os| - j ==> PullFrom(os, k, j).value[i] == Pull(os[j + i], k).value
    decreases |os| - j
  {
    if j < |os| {
      PullFromSpec(os, k, j + 1);
    }
  }

  /** The step succeeds exactly when every pull does, and then holds one
      slot per iterator, each the result of that iterator's pull. */
  lemma PullAllSpec(os: seq<Outcome>, k: nat)
    ensures PullAll(os, k).Ok? <==> forall j :: 0 <= j < |os| ==> Pull(os[j], k).Ok?
    ensures PullAll(os, k).Ok? ==> |PullAll(os, k).value| == |os|
    ensures PullAll(os, k).Ok? ==> forall j :: 0 <= j < |os| ==> PullAll(os, k).value[j] == Pull(os[j], k).value
  {
    PullFromSpec(os, k, 0);
    assert forall j :: 0 <= j < |os| ==> os[0 + j] == os[j];
  }

  /** Some iterator of the step, from slot `j` on, still produced a value. */
  function AnyLeft(slots: seq<Option<Value>>, j: nat): bool
    decreases |slots| - j
  {
    j < |slots| && (slots[j].Some? || AnyLeft(slots, j + 1))
  }

  /** The step's values from slot `j` on when no iterator is exhausted;
      `None` when the tuple holds the sentinel. */
  function Heads(slots: seq<Option<Value>>, j: nat): Option<seq<Value>>
    decreases |slots| - j
  {
    if |slots| <= j then Some([])
    else if slots[j].None? then None
    else
      match Heads(slots, j + 1)
      case None => None
      case Some(rest) => Some([slots[j].value] + rest)
  }

  /** `AnyLeft` holds exactly when some slot from `j` on holds a value. */
  lemma {:induction false} AnyLeftSpec(slots: seq<Option<Value>>, j: nat)
    ensures AnyLeft(slots, j) <==> exists i :: j <= i < |slots| && slots[i].Some?
    decreases |slots| - j
  {
    if j < |slots| {
      AnyLeftSpec(slots, j + 1);
    }
  }

  /** `Heads` succeeds exactly when every slot from `j` on holds a value,
      and then lists those values in order. */
  lemma {:induction false} HeadsSpec(slots: seq<Option<Value>>, j: nat)
    requires j <= |slots|
    ensures Heads(slots, j).Some? <==> forall i :: j <= i < |slots| ==> slots[i].Some?
    ensures Heads(slots, j).Some? ==> |Heads(slots, j).value| == |slots| - j
    ensures Heads(slots, j).Some? ==> forall i :: 0 <= i < |slots| - j ==> Heads(slots, j).value[i] == slots[j + i].value
    decreases |slots| - j
  {
    if j < |slots| {
      HeadsSpec(slots, j + 1);
    }
  }

  /** A step that yields a tuple advanced the first iterator. */
  lemma ZipAdvances(os: seq<Outcome>, k: nat)
    requires PullAll(os, k).Ok? && AnyLeft(PullAll(os, k).value, 0)
    requires Heads(PullAll(os, k).value, 0).Some?
    ensures |os| > 0 && k < |os[0].yielded|
  {
    var slots := PullAll(os, k).value;
    PullAllSpec(os, k);
    HeadsSpec(slots, 0);
    AnyLeftSpec(slots, 0);
  }

  /** A bound on how many steps the zip can still take. */
  function ZipFuel(os: seq<Outcome>, k: nat): nat
  {
    if |os| == 0 || |os[0].yielded| <= k then 0 else |os[0].yielded| - k
  }

  /** `_cdict_or.__iter__` from step `k` on, over `safe_zip`: stop when
      every iterator is exhausted, raise the length mismatch when only
      some are, otherwise yield the step's record and go on. */
  function ZipFrom(os: seq<Outcome>, k: nat): Outcome
    decreases ZipFuel(os, k)
  {
    match PullAll(os, k)
    case Err(e) => Fail(e)
    case Ok(slots) =>
      if !AnyLeft(slots, 0) then Done([])
      else
        match Heads(slots, 0)
        case None => Fail(LengthMismatch)
        case Some(col) =>
          ZipAdvances(os, k);
          Then(ZipRow(col), ZipFrom(os, k + 1))
  }

  /** What iterating a node yields (`__iter__` of each node class). */
  function Eval(n: Node): Outcome
    decreases n
  {
    match n
    case Sum(items) => ThenAll(seq(|items|, i requires 0 <= i < |items| => EvalItem(items[i])))
    case Apply(f, inner) =>
      var o := Eval(inner);
      Outcome(FlatMap(f, o.yielded), o.raised)
    case Product(ns) => ProductOf(seq(|ns|, i requires 0 <= i < |ns| => Eval(ns[i])))
    case Or(ns) => ZipFrom(seq(|ns|, i requires 0 <= i < |ns| => Eval(ns[i])), 0)
  }

  /** What one item of a sum contributes. */
  function EvalItem(it: Item): Outcome
    decreases it
  {
    match it
    case Sub(n) => Eval(n)
    case Dict(fs) =>
      FanOut(FieldKeys(fs), seq(|fs|, i requires 0 <= i < |fs| => EvalField(fs[i].1)))
    case Raw(v) =>
      if v.Rec? then
        FanOut(Keys(v.fields), seq(|v.fields|, i requires 0 <= i < |v.fields| => Done([v.fields[i].1])))
      else Done([v])
  }

  /** The keys of a dict item's fields, in order. */
  function FieldKeys(fs: seq<(string, Field)>): seq<string>
  {
    seq(|fs|, i requires 0 <= i < |fs| => fs[i].0)
  }

  /** The stream of one field of a dict item. */
  function EvalField(f: Field): Outcome
    decreases f
  {
    match f
    case Const(c) => Done([c])
    case Stream(n) => Eval(n)
  }
}
