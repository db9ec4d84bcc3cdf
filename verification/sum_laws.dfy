/** Laws of the sum node (concatenation and dict fan-out) and of the
    apply node (flat-map, and `map` as its one-to-one case). */
module SumLaws {
  import opened Wrappers
  import opened Seqs
  import opened Values
  import opened Records
  import opened Algebra
  import opened Cdict

  /** Running generators one after another is associative. */
  lemma ThenAssociative(a: Outcome, b: Outcome, c: Outcome)
    ensures Then(Then(a, b), c) == Then(a, Then(b, c))
  {
    if a.raised.None? && b.raised.None? {
      assert (a.yielded + b.yielded) + c.yielded == a.yielded + (b.yielded + c.yielded);
    }
  }

  /** An empty generator after a trace changes nothing. */
  lemma ThenDone(o: Outcome)
    ensures Then(o, Done([])) == o
  {
    assert o.yielded + [] == o.yielded;
  }

  /** Running a concatenation of generators is running the two halves in
      turn. */
  lemma {:induction false} ThenAllAppend(xs: seq<Outcome>, ys: seq<Outcome>)
    ensures ThenAll(xs + ys) == Then(ThenAll(xs), ThenAll(ys))
  {
    if |xs| == 0 {
      assert xs + ys == ys;
      assert [] + ThenAll(ys).yielded == ThenAll(ys).yielded;
    } else {
      assert (xs + ys)[1..] == xs[1..] + ys;
      ThenAllAppend(xs[1..], ys);
      ThenAssociative(xs[0], ThenAll(xs[1..]), ThenAll(ys));
    }
  }

  function ItemTraces(items: seq<Item>): seq<Outcome>
  {
    seq(|items|, i requires 0 <= i < |items| => EvalItem(items[i]))
  }

  /** One unfolding of `Eval` on a sum. */
  lemma EvalSum(items: seq<Item>)
    ensures Eval(Sum(items)) == ThenAll(ItemTraces(items))
  {
  }

  lemma ThenAllOne(o: Outcome)
    ensures ThenAll([o]) == o
  {
    assert [o][1..] == [];
    ThenDone(o);
  }

  /** A sum over concatenated item lists yields the first sum's values,
      then the second's; an error in the first ends it. */
  lemma SumAppend(xs: seq<Item>, ys: seq<Item>)
    ensures Eval(Sum(xs + ys)) == Then(Eval(Sum(xs)), Eval(Sum(ys)))
  {
    EvalSum(xs + ys);
    EvalSum(xs);
    EvalSum(ys);
    ItemTracesAppend(xs, ys);
    ThenAllAppend(ItemTraces(xs), ItemTraces(ys));
  }

  lemma ItemTracesAppend(xs: seq<Item>, ys: seq<Item>)
    ensures ItemTraces(xs + ys) == ItemTraces(xs) + ItemTraces(ys)
  {
    assert forall i :: 0 <= i < |xs| ==> (xs + ys)[i] == xs[i];
    assert forall i :: |xs| <= i < |xs| + |ys| ==> (xs + ys)[i] == ys[i - |xs|];
  }

  /** A sum of one item yields what the item contributes. */
  lemma SumOne(it: Item)
    ensures Eval(Sum([it])) == EvalItem(it)
  {
    EvalSum([it]);
    assert ItemTraces([it]) == [EvalItem(it)];
    ThenAllOne(EvalItem(it));
  }

  /** `a + other` yields `a`'s values and then what `other` contributes
      as a sum item. */
  lemma AddEval(a: Node, other: Item)
    ensures Eval(Add(a, other)) == Then(Eval(a), EvalItem(other))
  {
    SumAppend([Sub(a)], [other]);
    assert [Sub(a)] + [other] == [Sub(a), other];
    SumOne(Sub(a));
    SumOne(other);
  }

  /** `A + B` for two nodes: the values of `A` followed by those of `B`,
      so `len(A + B) == len(A) + len(B)`; an error of `A` is raised
      before anything of `B` is produced. */
  lemma AddNodes(a: Node, b: Node)
    ensures Eval(a).raised.None? ==>
      Eval(Add(a, Sub(b))) == Outcome(Eval(a).yielded + Eval(b).yielded, Eval(b).raised)
    ensures Eval(a).raised.Some? ==> Eval(Add(a, Sub(b))) == Eval(a)
    ensures Len(a).Ok? && Len(b).Ok? ==> Len(Add(a, Sub(b))) == Ok(Len(a).value + Len(b).value)
  {
    AddOutcome(a, b);
    AddLen(a, b);
  }

  lemma AddOutcome(a: Node, b: Node)
    ensures Eval(a).raised.None? ==>
      Eval(Add(a, Sub(b))) == Outcome(Eval(a).yielded + Eval(b).yielded, Eval(b).raised)
    ensures Eval(a).raised.Some? ==> Eval(Add(a, Sub(b))) == Eval(a)
  {
    AddTrace(a, b);
    ThenParts(Eval(a), Eval(b));
  }

  lemma AddLen(a: Node, b: Node)
    ensures Len(a).Ok? && Len(b).Ok? ==> Len(Add(a, Sub(b))) == Ok(Len(a).value + Len(b).value)
  {
    hide Eval;
    var x, y := Eval(a), Eval(b);
    AddTrace(a, b);
    LengthThen(x, y);
    LenIs(a, x);
    LenIs(b, y);
    LenIs(Add(a, Sub(b)), Then(x, y));
  }

  /** `len` of a node is the length of its run. */
  lemma LenIs(n: Node, o: Outcome)
    requires Eval(n) == o
    ensures Len(n) == Length(o)
  {
  }

  /** Running `x` then `y` is as long as both together. */
  lemma LengthThen(x: Outcome, y: Outcome)
    ensures Length(x).Ok? && Length(y).Ok? ==>
      Length(Then(x, y)) == Ok(Length(x).value + Length(y).value)
  {
    ThenParts(x, y);
  }

  /** `a + b` for two nodes runs `a`, then `b`. */
  lemma AddTrace(a: Node, b: Node)
    ensures Eval(Add(a, Sub(b))) == Then(Eval(a), Eval(b))
  {
    AddEval(a, Sub(b));
  }

  /** What running `x` then `y` yields and raises. */
  lemma ThenParts(x: Outcome, y: Outcome)
    ensures x.raised.None? ==> Then(x, y) == Outcome(x.yielded + y.yielded, y.raised)
    ensures x.raised.Some? ==> Then(x, y) == x
    ensures |Then(x, y).yielded| == |x.yielded| + (if x.raised.None? then |y.yielded| else 0)
    ensures Then(x, y).raised.None? <==> x.raised.None? && y.raised.None?
  {
  }

  function Raws(vs: seq<Value>): seq<Item>
  {
    seq(|vs|, i requires 0 <= i < |vs| => Raw(vs[i]))
  }

  /** Values that are not dicts pass through a list unchanged and in
      order. */
  lemma {:induction false} ListOfPlain(vs: seq<Value>)
    requires forall i :: 0 <= i < |vs| ==> !vs[i].Rec?
    ensures Eval(ListOf(Raws(vs))) == Done(vs)
  {
    if |vs| > 0 {
      ListOfPlain(vs[1..]);
      assert Raws(vs) == [Raw(vs[0])] + Raws(vs[1..]);
      SumAppend([Raw(vs[0])], Raws(vs[1..]));
      SumOne(Raw(vs[0]));
      assert [vs[0]] + vs[1..] == vs;
    }
  }

  function FieldTraces(fs: seq<(string, Field)>): seq<Outcome>
  {
    seq(|fs|, i requires 0 <= i < |fs| => EvalField(fs[i].1))
  }

  /** The stream each field contributes: a constant is a stream of one. */
  function FieldStreams(fs: seq<(string, Field)>): (ss: seq<seq<Value>>)
    ensures |ss| == |fs|
    ensures forall i :: 0 <= i < |fs| && fs[i].1.Const? ==> ss[i] == [fs[i].1.c]
  {
    Yields(FieldTraces(fs))
  }

  predicate FieldsOk(fs: seq<(string, Field)>)
  {
    forall i :: 0 <= i < |fs| ==> EvalField(fs[i].1).raised.None?
  }

  /** `cdict.dict` yields what its one dict item fans out to. */
  lemma DictIsItem(fs: seq<(string, Field)>)
    ensures Eval(DictOf(fs)) == FanOut(FieldKeys(fs), FieldTraces(fs))
  {
    SumOne(Dict(fs));
    EvalDict(fs);
  }

  /** One unfolding of `EvalItem` on a dict. */
  lemma EvalDict(fs: seq<(string, Field)>)
    ensures EvalItem(Dict(fs)) == FanOut(FieldKeys(fs), FieldTraces(fs))
  {
  }

  /** The values each trace yields. */
  function Yields(os: seq<Outcome>): seq<seq<Value>>
  {
    seq(|os|, i requires 0 <= i < |os| => os[i].yielded)
  }

  /** Fan-out of streams that all run to completion, under distinct keys:
      one record per combination, keys as given. */
  lemma FanOutRecords(ks: seq<string>, cols: seq<Outcome>)
    requires |ks| == |cols| && Distinct(ks)
    requires forall i :: 0 <= i < |cols| ==> cols[i].raised.None?
    ensures FanOut(ks, cols).raised.None?
    ensures |FanOut(ks, cols).yielded| == |CartProd(Yields(cols))|
    ensures forall i :: 0 <= i < |FanOut(ks, cols).yielded| ==>
      FanOut(ks, cols).yielded[i] == Rec(ZipKeys(ks, CartProd(Yields(cols))[i]))
  {
    var m := Materialize(cols);
    assert m.value == Yields(cols);
    var rows := CartProd(Yields(cols));
    forall i | 0 <= i < |rows|
      ensures FanOut(ks, cols).yielded[i] == Rec(ZipKeys(ks, rows[i]))
    {
      assert rows[i] in rows;
      ToDictDistinct(ZipKeys(ks, rows[i]));
    }
  }

  /** Dict fan-out when every field stream runs to completion: one record
      per combination, as many as the product of the stream lengths (a
      constant counting as one), combinations in `itertools.product`
      order, each record holding exactly the dict's keys in the dict's
      order. */
  lemma DictFanOut(fs: seq<(string, Field)>)
    requires FieldsOk(fs)
    requires Distinct(FieldKeys(fs))
    ensures Eval(DictOf(fs)).raised.None?
    ensures |Eval(DictOf(fs)).yielded| == LengthProduct(FieldStreams(fs))
    ensures forall i :: 0 <= i < |Eval(DictOf(fs)).yielded| ==>
      Eval(DictOf(fs)).yielded[i] == Rec(ZipKeys(FieldKeys(fs), CartProd(FieldStreams(fs))[i]))
  {
    DictIsItem(fs);
    assert Yields(FieldTraces(fs)) == FieldStreams(fs);
    FanOutRecords(FieldKeys(fs), FieldTraces(fs));
  }

  /** Each fanned-out record pairs key `j` of the dict with a value drawn
      from field `j`'s stream. */
  lemma DictRecordFields(fs: seq<(string, Field)>, i: nat)
    requires FieldsOk(fs)
    requires Distinct(FieldKeys(fs))
    requires i < |Eval(DictOf(fs)).yielded|
    ensures Eval(DictOf(fs)).yielded[i].Rec?
    ensures |Eval(DictOf(fs)).yielded[i].fields| == |fs|
    ensures forall j :: 0 <= j < |fs| ==>
      Eval(DictOf(fs)).yielded[i].fields[j].0 == fs[j].0 &&
      Eval(DictOf(fs)).yielded[i].fields[j].1 in FieldStreams(fs)[j]
  {
    DictFanOut(fs);
    var rows := CartProd(FieldStreams(fs));
    assert rows[i] in rows;
    CartProdMember(FieldStreams(fs), rows[i]);
  }

  /** If a field's stream raises, the dict yields nothing and raises that
      error (the first such field's), as `itertools.product` reads every
      stream before producing anything. */
  lemma DictFails(fs: seq<(string, Field)>, j: nat)
    requires j < |fs| && EvalField(fs[j].1).raised.Some?
    requires forall i :: 0 <= i < j ==> EvalField(fs[i].1).raised.None?
    ensures Eval(DictOf(fs)) == Fail(EvalField(fs[j].1).raised.value)
  {
    DictIsItem(fs);
    FirstFailure(FieldTraces(fs), j);
  }

  /** `Materialize` reports the error of the first trace that raises. */
  lemma {:induction false} FirstFailure(os: seq<Outcome>, j: nat)
    requires j < |os| && os[j].raised.Some?
    requires forall i :: 0 <= i < j ==> os[i].raised.None?
    ensures Materialize(os) == Err(os[j].raised.value)
  {
    if j > 0 {
      FirstFailure(os[1..], j - 1);
    }
  }

  /** The streams of a two-field dict whose fields are nodes. */
  lemma PairStreams(ka: string, a: Node, xs: seq<Value>, kb: string, b: Node, ys: seq<Value>)
    requires Eval(a) == Done(xs) && Eval(b) == Done(ys)
    ensures FieldStreams([(ka, Stream(a)), (kb, Stream(b))]) == [xs, ys]
    ensures FieldsOk([(ka, Stream(a)), (kb, Stream(b))])
  {
    var fs := [(ka, Stream(a)), (kb, Stream(b))];
    StreamField(a, xs);
    StreamField(b, ys);
    assert fs[0].1 == Stream(a) && fs[1].1 == Stream(b);
    assert FieldStreams(fs)[0] == xs && FieldStreams(fs)[1] == ys;
  }

  /** A field holding a node streams that node's values. */
  lemma StreamField(a: Node, xs: seq<Value>)
    requires Eval(a) == Done(xs)
    ensures EvalField(Stream(a)) == Done(xs)
  {
  }

  /** Fan-out of a two-field dict whose streams yield `xs` and `ys`:
      record number `n = i * |ys| + j` pairs the first key with `xs[i]` and
      the second with `ys[j]`, so the last key varies fastest. */
  lemma DictPair(fs: seq<(string, Field)>, xs: seq<Value>, ys: seq<Value>, i: nat, j: nat, n: nat)
    requires |fs| == 2 && fs[0].0 != fs[1].0
    requires FieldStreams(fs) == [xs, ys] && FieldsOk(fs)
    requires i < |xs| && j < |ys| && n == i * |ys| + j
    ensures Eval(DictOf(fs)).raised.None?
    ensures |Eval(DictOf(fs)).yielded| == |xs| * |ys|
    ensures n < |Eval(DictOf(fs)).yielded|
    ensures Eval(DictOf(fs)).yielded[n] == Rec([(fs[0].0, xs[i]), (fs[1].0, ys[j])])
  {
    var ks := FieldKeys(fs);
    assert ks == [fs[0].0, fs[1].0];
    DictFanOut(fs);
    PairRow(ks, xs, ys, i, j, n);
  }

  /** Row `n = i * |ys| + j` of the two-stream product, keyed by `ks`. */
  lemma PairRow(ks: seq<string>, xs: seq<Value>, ys: seq<Value>, i: nat, j: nat, n: nat)
    requires |ks| == 2
    requires i < |xs| && j < |ys| && n == i * |ys| + j
    ensures |CartProd([xs, ys])| == |xs| * |ys|
    ensures n < |CartProd([xs, ys])| && |CartProd([xs, ys])[n]| == 2
    ensures ZipKeys(ks, CartProd([xs, ys])[n]) == [(ks[0], xs[i]), (ks[1], ys[j])]
  {
    CartProdPair(xs, ys, i, j);
    assert n == Offset(i, |ys|, j);
  }

  /** A two-field dict over two-element streams yields its four records in
      nested-loop order, the second field varying fastest. */
  lemma DictTwoByTwo(fs: seq<(string, Field)>, x0: Value, x1: Value, y0: Value, y1: Value)
    requires |fs| == 2 && fs[0].0 != fs[1].0
    requires FieldStreams(fs) == [[x0, x1], [y0, y1]] && FieldsOk(fs)
    ensures Eval(DictOf(fs)) ==
      Done([Rec([(fs[0].0, x0), (fs[1].0, y0)]), Rec([(fs[0].0, x0), (fs[1].0, y1)]),
            Rec([(fs[0].0, x1), (fs[1].0, y0)]), Rec([(fs[0].0, x1), (fs[1].0, y1)])])
  {
    var xs, ys := [x0, x1], [y0, y1];
    var ka, kb := fs[0].0, fs[1].0;
    var o := Eval(DictOf(fs));
    assert |xs| * |ys| == 4;
    assert o.raised.None? && |o.yielded| == 4 && o.yielded[0] == Rec([(ka, x0), (kb, y0)]) by {
      DictPair(fs, xs, ys, 0, 0, 0);
    }
    assert o.yielded[1] == Rec([(ka, x0), (kb, y1)]) by {
      DictPair(fs, xs, ys, 0, 1, 1);
    }
    assert o.yielded[2] == Rec([(ka, x1), (kb, y0)]) by {
      DictPair(fs, xs, ys, 1, 0, 2);
    }
    assert o.yielded[3] == Rec([(ka, x1), (kb, y1)]) by {
      DictPair(fs, xs, ys, 1, 1, 3);
    }
    FourValues(o.yielded);
  }

  /** A sequence of four values is the display of its elements. Stated
      apart so that the example proofs that use it stay small. */
  lemma FourValues(vs: seq<Value>)
    requires |vs| == 4
    ensures vs == [vs[0], vs[1], vs[2], vs[3]]
  {
  }

  /** `cdict.dict(a=A, b=B)` where `A` yields 1, 2 and `B` yields 10, 20
      (as `cdict.list(1, 2)` and `cdict.list(10, 20)` do, by `ListOfPlain`)
      yields {a: 1, b: 10}, {a: 1, b: 20}, {a: 2, b: 10}, {a: 2, b: 20}. */
  lemma DictExample(a: Node, b: Node)
    requires Eval(a) == Done([Int(1), Int(2)]) && Eval(b) == Done([Int(10), Int(20)])
    ensures Eval(DictOf([("a", Stream(a)), ("b", Stream(b))])) ==
      Done([Rec([("a", Int(1)), ("b", Int(10))]), Rec([("a", Int(1)), ("b", Int(20))]),
            Rec([("a", Int(2)), ("b", Int(10))]), Rec([("a", Int(2)), ("b", Int(20))])])
  {
    PairStreams("a", a, [Int(1), Int(2)], "b", b, [Int(10), Int(20)]);
    DictTwoByTwo([("a", Stream(a)), ("b", Stream(b))], Int(1), Int(2), Int(10), Int(20));
  }

  /** Applying a function to a sum is the sum of the applications. */
  lemma ApplyOverAdd(a: Node, b: Node, f: Value -> seq<Value>)
    ensures Eval(ApplyTo(Add(a, Sub(b)), f)) == Eval(Add(ApplyTo(a, f), Sub(ApplyTo(b, f))))
  {
    AddNodes(a, b);
    AddNodes(ApplyTo(a, f), ApplyTo(b, f));
    FlatMapAppend(f, Eval(a).yielded, Eval(b).yielded);
  }

  /** `map(g)` keeps length and order: value `i` is `g` of the inner
      node's value `i`. */
  lemma MapEval(a: Node, g: Value -> Value)
    ensures Eval(MapTo(a, g)).raised == Eval(a).raised
    ensures |Eval(MapTo(a, g)).yielded| == |Eval(a).yielded|
    ensures forall i :: 0 <= i < |Eval(a).yielded| ==>
      Eval(MapTo(a, g)).yielded[i] == g(Eval(a).yielded[i])
  {
    var f := MapTo(a, g).fn;
    assert forall x :: f(x) == [g(x)];
    FlatMapSingletons(f, Eval(a).yielded);
  }

  /** The example function `lambda x: x * 2`, on the integers it is used
      with. */
  function Double(v: Value): Value
  {
    if v.Int? then Int(v.i * 2) else v
  }

  /** `cdict.list(1, 2, 3).map(lambda x: x * 2)` yields 2, 4, 6. */
  lemma MapExample()
    ensures Eval(MapTo(ListOf(Raws([Int(1), Int(2), Int(3)])), Double)) == Done([Int(2), Int(4), Int(6)])
  {
    var a := ListOf(Raws([Int(1), Int(2), Int(3)]));
    ListOfPlain([Int(1), Int(2), Int(3)]);
    MapEval(a, Double);
  }

  /** The example function `lambda x: [x, x]`. */
  function Twice(v: Value): seq<Value>
  {
    [v, v]
  }

  /** `cdict.list(1, 2).apply(lambda x: [x, x])` yields 1, 1, 2, 2. */
  lemma ApplyExample()
    ensures Eval(ApplyTo(ListOf(Raws([Int(1), Int(2)])), Twice)) == Done([Int(1), Int(1), Int(2), Int(2)])
  {
    var vs := [Int(1), Int(2)];
    ListOfPlain(vs);
    assert vs[1..][1..] == [];
  }
}
