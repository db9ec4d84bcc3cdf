/** Laws of the product node (`*`): which operands it accepts, how many
    records it yields and in what order, what each record holds, and how it
    fails. */
module ProductLaws {
  import opened Wrappers
  import opened Seqs
  import opened Values
  import opened Records
  import opened Algebra
  import opened Cdict
  import opened SumLaws

  /** The traces of the factors of a product. */
  function Traces(ns: seq<Node>): seq<Outcome>
  {
    seq(|ns|, i requires 0 <= i < |ns| => Eval(ns[i]))
  }

  /** The values each factor yields. */
  function Streams(ns: seq<Node>): (ss: seq<seq<Value>>)
    ensures |ss| == |ns|
  {
    Yields(Traces(ns))
  }

  /** Every factor runs to completion and yields only dicts. */
  predicate RecordFactors(ns: seq<Node>)
  {
    forall i :: 0 <= i < |ns| ==> Eval(ns[i]).raised.None? && AllRecords(Eval(ns[i]).yielded)
  }

  /** One unfolding of `Eval` on a product. */
  lemma EvalProduct(ns: seq<Node>)
    ensures Eval(Product(ns)) == ProductOf(Traces(ns))
  {
  }

  /** The record of one combination: the collision policy applied to the
      items of all its dicts, in factor order. */
  function Combined(row: seq<Value>): Value
    requires AllRecords(row)
  {
    Rec(Resolve(Items(row)))
  }

  /** A combination of dicts gives exactly its combined record. */
  lemma RowOfRecords(row: seq<Value>)
    requires AllRecords(row)
    ensures ProductRow(row) == Done([Combined(row)])
  {
  }

  /** Combinations that all hold dicts give one record each, in order. */
  lemma ProductRowsAll(rows: seq<seq<Value>>)
    requires forall i :: 0 <= i < |rows| ==> AllRecords(rows[i])
    ensures ProductRows(rows).raised.None?
    ensures |ProductRows(rows).yielded| == |rows|
    ensures forall i :: 0 <= i < |rows| ==> ProductRows(rows).yielded[i] == Combined(rows[i])
  {
    forall i | 0 <= i < |rows|
      ensures ProductRow(rows[i]) == Done([Combined(rows[i])])
    {
      RowOfRecords(rows[i]);
    }
    ChainSinglesAll(ProductRow, rows, None);
  }

  /** The first combination holding a non-dict ends the iteration: the
      records of the combinations before it are yielded, then the error. */
  lemma ProductRowsStop(rows: seq<seq<Value>>, j: nat)
    requires j < |rows| && !AllRecords(rows[j])
    requires forall i :: 0 <= i < j ==> AllRecords(rows[i])
    ensures ProductRows(rows).raised == Some(NotARecord)
    ensures |ProductRows(rows).yielded| == j
    ensures forall i :: 0 <= i < j ==> ProductRows(rows).yielded[i] == Combined(rows[i])
  {
    forall i | 0 <= i < j
      ensures ProductRow(rows[i]) == Done([Combined(rows[i])])
    {
      RowOfRecords(rows[i]);
    }
    ChainStopAll(ProductRow, rows, j, None);
  }

  /** Every combination of factors that yield only dicts holds only dicts. */
  lemma CombinationsOfRecords(ns: seq<Node>, i: nat)
    requires RecordFactors(ns)
    requires i < |CartProd(Streams(ns))|
    ensures AllRecords(CartProd(Streams(ns))[i])
  {
    var rows := CartProd(Streams(ns));
    assert rows[i] in rows;
    CartProdMember(Streams(ns), rows[i]);
  }

  /** A product of factors that complete and yield dicts yields one record
      per combination of their values: as many as the product of their
      lengths, in `itertools.product` order, each the combined record of
      its combination. */
  lemma ProductEval(ns: seq<Node>)
    requires RecordFactors(ns)
    ensures Eval(Product(ns)).raised.None?
    ensures |Eval(Product(ns)).yielded| == LengthProduct(Streams(ns))
    ensures forall i :: 0 <= i < |Eval(Product(ns)).yielded| ==>
      AllRecords(CartProd(Streams(ns))[i]) &&
      Eval(Product(ns)).yielded[i] == Combined(CartProd(Streams(ns))[i])
  {
    EvalProduct(ns);
    var m := Materialize(Traces(ns));
    assert m.value == Streams(ns);
    var rows := CartProd(Streams(ns));
    forall i | 0 <= i < |rows| ensures AllRecords(rows[i]) {
      CombinationsOfRecords(ns, i);
    }
    ProductRowsAll(rows);
  }

  /** If a factor raises, the product yields nothing and raises the error
      of the first factor that does: every factor is read in full before
      the first record. */
  lemma ProductFails(ns: seq<Node>, j: nat)
    requires j < |ns| && Eval(ns[j]).raised.Some?
    requires forall i :: 0 <= i < j ==> Eval(ns[i]).raised.None?
    ensures Eval(Product(ns)) == Fail(Eval(ns[j]).raised.value)
  {
    EvalProduct(ns);
    FirstFailure(Traces(ns), j);
  }

  /** The keys of the items of `ds[j..]` are the keys of those dicts,
      together. */
  lemma {:induction false} ItemsFromKeys(ds: seq<Value>, j: nat, k: string)
    requires AllRecords(ds) && j <= |ds|
    ensures k in Keys(ItemsFrom(ds, j)) <==> exists c :: j <= c < |ds| && k in Keys(ds[c].fields)
    decreases |ds| - j
  {
    if j < |ds| {
      ItemsFromKeys(ds, j + 1, k);
      KeysAppend(ds[j].fields, ItemsFrom(ds, j + 1));
    }
  }

  /** The keys of concatenated items are the keys of the dicts, together. */
  lemma ItemsKeys(ds: seq<Value>, k: string)
    requires AllRecords(ds)
    ensures k in Keys(Items(ds)) <==> exists c :: 0 <= c < |ds| && k in Keys(ds[c].fields)
  {
    ItemsFromKeys(ds, 0, k);
  }

  /** The keys of a combined record are the union of the keys of the dicts
      combined, each once. */
  lemma CombinedKeys(row: seq<Value>, k: string)
    requires AllRecords(row)
    ensures Distinct(Keys(Combined(row).fields))
    ensures k in Keys(Combined(row).fields) <==> exists c :: 0 <= c < |row| && k in Keys(row[c].fields)
  {
    ItemsKeys(row, k);
  }

  /** A product of two factors that complete with dicts yields the
      combined record of each pair of their values, pairs in
      `itertools.product` order. */
  lemma PairProduct(a: Node, b: Node, xs: seq<Value>, ys: seq<Value>)
    requires Eval(a) == Done(xs) && Eval(b) == Done(ys)
    requires AllRecords(xs) && AllRecords(ys)
    ensures |CartProd([xs, ys])| == |xs| * |ys|
    ensures Eval(Product([a, b])).raised.None?
    ensures |Eval(Product([a, b])).yielded| == |xs| * |ys|
    ensures forall n :: 0 <= n < |CartProd([xs, ys])| ==>
      AllRecords(CartProd([xs, ys])[n]) && Eval(Product([a, b])).yielded[n] == Combined(CartProd([xs, ys])[n])
  {
    hide Resolve, MergeCombining, ToDict;
    var ns := [a, b];
    assert Streams(ns) == [xs, ys];
    assert [xs, ys][1..] == [ys] && [ys][1..] == [];
    assert LengthProduct([ys]) == |ys| * LengthProduct<Value>([]) == |ys|;
    assert LengthProduct([xs, ys]) == |xs| * LengthProduct([ys]);
    ProductEval(ns);
  }

  /** `a * b` accepts exactly node operands; for nodes `a` and `b` that
      complete with dicts, record number `i * |ys| + j` combines `a`'s
      record `i` with `b`'s record `j`, so `b` varies fastest. */
  lemma MulEval(a: Node, b: Node, xs: seq<Value>, ys: seq<Value>, i: nat, j: nat, n: nat)
    requires Eval(a) == Done(xs) && Eval(b) == Done(ys)
    requires AllRecords(xs) && AllRecords(ys)
    requires i < |xs| && j < |ys| && n == i * |ys| + j
    ensures Mul(a, Sub(b)) == Ok(Product([a, b]))
    ensures |Eval(Product([a, b])).yielded| == |xs| * |ys|
    ensures Eval(Product([a, b])).raised.None?
    ensures n < |Eval(Product([a, b])).yielded|
    ensures Eval(Product([a, b])).yielded[n] == Rec(Resolve(xs[i].fields + ys[j].fields))
  {
    PairProduct(a, b, xs, ys);
    CartProdPair(xs, ys, i, j);
    assert n == Offset(i, |ys|, j);
    ItemsPair(xs[i], ys[j]);
  }

  /** The items of two dicts are the first's followed by the second's. */
  lemma ItemsPair(x: Value, y: Value)
    requires x.Rec? && y.Rec?
    ensures AllRecords([x, y]) && Items([x, y]) == x.fields + y.fields
  {
    var ds := [x, y];
    assert ItemsFrom(ds, 2) == [];
    assert ItemsFrom(ds, 1) == y.fields + ItemsFrom(ds, 2);
    assert Items(ds) == x.fields + ItemsFrom(ds, 1);
  }

  /** The product of no factors yields one empty record, as
      `itertools.product()` yields one empty combination. */
  lemma EmptyProduct()
    ensures Eval(Product([])) == Done([Rec([])])
  {
    EvalProduct([]);
    assert CartProd<Value>([]) == [[]];
    ProductRowsAll([[]]);
    assert Items([[]][0]) == [];
    assert ToDict([]) == [];
  }

  /** A record with distinct keys, all equal to `k`, is the one pair under
      `k`. */
  lemma SingleKey(d: Pairs, k: string)
    requires Distinct(Keys(d)) && k in Keys(d)
    requires forall k' :: k' in Keys(d) ==> k' == k
    ensures d == [(k, Last(d, k).value)]
  {
    assert Keys(d)[0] in Keys(d);
    if |d| > 1 {
      DistinctAt(Keys(d), 0, 1);
      assert false;
    }
    LastDistinct(d, 0);
  }

  /** One instance of `Distinct`, stated apart so that the proofs that use
      it do not have to instantiate the quantifier themselves. */
  lemma DistinctAt(ks: seq<string>, i: nat, j: nat)
    requires Distinct(ks) && i < j < |ks|
    ensures ks[i] in ks && ks[j] in ks && ks[i] != ks[j]
  {
  }

  /** The collision policy on one key written twice: two labels merge in
      order, a label beats a plain value whichever comes first, and of two
      plain values the second wins. */
  lemma ResolveCollision(k: string, x: Value, y: Value)
    ensures x.Lbl? && y.Lbl? ==> Resolve([(k, x), (k, y)]) == [(k, Lbl(Merge(x.lab, y.lab)))]
    ensures x.Lbl? && !y.Lbl? ==> Resolve([(k, x), (k, y)]) == [(k, x)]
    ensures !x.Lbl? && y.Lbl? ==> Resolve([(k, x), (k, y)]) == [(k, y)]
    ensures !x.Lbl? && !y.Lbl? ==> Resolve([(k, x), (k, y)]) == [(k, y)]
  {
    if x.Lbl? && y.Lbl? {
      CollisionOfLabels(k, x, y);
    } else if x.Lbl? || y.Lbl? {
      CollisionOfOneLabel(k, x, y);
    } else {
      CollisionOfPlains(k, x, y);
    }
  }

  /** Two labels under one key merge, the first on the left. */
  lemma CollisionOfLabels(k: string, x: Value, y: Value)
    requires x.Lbl? && y.Lbl?
    ensures Resolve([(k, x), (k, y)]) == [(k, Lbl(Merge(x.lab, y.lab)))]
  {
    var ps := [(k, x), (k, y)];
    ResolveOneKey(k, x, y);
    PairLabels(k, x, y);
    ResolveAt(ps, k);
    FoldTwo(x.lab, y.lab);
    SingletonOf(Resolve(ps), k, Lbl(Merge(x.lab, y.lab)));
  }

  /** A one-pair record holding `v` under its key. Stated apart so that
      the collision proofs that use it stay small. */
  lemma SingletonOf(d: Pairs, k: string, v: Value)
    requires Last(d, k) == Some(v) && d == [(k, Last(d, k).value)]
    ensures d == [(k, v)]
  {
  }

  /** What `Resolve` stores under one key. */
  lemma ResolveAt(ps: Pairs, k: string)
    ensures Last(Resolve(ps), k) ==
      if LabelsFor(ps, k) != [] then Some(Lbl(Fold(LabelsFor(ps, k)))) else Last(ps, k)
  {
  }

  /** A label and a plain value under one key: the label is kept. */
  lemma CollisionOfOneLabel(k: string, x: Value, y: Value)
    requires x.Lbl? != y.Lbl?
    ensures Resolve([(k, x), (k, y)]) == [(k, if x.Lbl? then x else y)]
  {
    var ps := [(k, x), (k, y)];
    var l := if x.Lbl? then x.lab else y.lab;
    ResolveOneKey(k, x, y);
    PairLabels(k, x, y);
    assert LabelsFor(ps, k) == [l];
    ResolveAt(ps, k);
    assert Fold([l]) == l;
  }

  /** Two plain values under one key: the second is kept. */
  lemma CollisionOfPlains(k: string, x: Value, y: Value)
    requires !x.Lbl? && !y.Lbl?
    ensures Resolve([(k, x), (k, y)]) == [(k, y)]
  {
    ResolveOneKey(k, x, y);
    PairLabels(k, x, y);
    ResolveAt([(k, x), (k, y)], k);
  }

  lemma FoldTwo(a: Label, b: Label)
    ensures Fold([a, b]) == Merge(a, b)
  {
    assert [a, b][..1] == [a];
  }

  /** Two writes under one key resolve to a single pair. */
  lemma ResolveOneKey(k: string, x: Value, y: Value)
    ensures Resolve([(k, x), (k, y)]) == [(k, Last(Resolve([(k, x), (k, y)]), k).value)]
  {
    hide Resolve, MergeCombining, ToDict, Group, Plain, Labelled;
    var ps := [(k, x), (k, y)];
    var d := Resolve(ps);
    assert Keys(ps) == [k, k];
    assert k in Keys(d);
    SingleKey(d, k);
  }

  /** The labels two writes under one key store, and the last write. */
  lemma PairLabels(k: string, x: Value, y: Value)
    ensures LabelsFor([(k, x), (k, y)], k) ==
      (if x.Lbl? then [x.lab] else []) + (if y.Lbl? then [y.lab] else [])
    ensures x.Lbl? && y.Lbl? ==> LabelsFor([(k, x), (k, y)], k) == [x.lab, y.lab]
    ensures Last([(k, x), (k, y)], k) == Some(y)
  {
    var ps := [(k, x), (k, y)];
    assert ps[..1] == [(k, x)] && ps[..1][..0] == [];
    assert LabelsFor(ps[..1], k) == [] + (if x.Lbl? then [x.lab] else []);
  }

  /** `a * b` for single-record nodes sharing their one key: the product
      yields the one record the collision policy makes of the two. */
  lemma MulCollision(a: Node, b: Node, k: string, x: Value, y: Value)
    requires Eval(a) == Done([Rec([(k, x)])]) && Eval(b) == Done([Rec([(k, y)])])
    ensures x.Lbl? && y.Lbl? ==> Eval(Product([a, b])) == Done([Rec([(k, Lbl(Merge(x.lab, y.lab)))])])
    ensures x.Lbl? != y.Lbl? ==> Eval(Product([a, b])) == Done([Rec([(k, if x.Lbl? then x else y)])])
    ensures !x.Lbl? && !y.Lbl? ==> Eval(Product([a, b])) == Done([Rec([(k, y)])])
  {
    SingleRecordProduct(a, b, k, x, y);
    ResolveCollision(k, x, y);
  }

  /** The product of two single-record nodes yields one record: both
      pairs resolved together, the first factor's first. */
  lemma SingleRecordProduct(a: Node, b: Node, k: string, x: Value, y: Value)
    requires Eval(a) == Done([Rec([(k, x)])]) && Eval(b) == Done([Rec([(k, y)])])
    ensures Eval(Product([a, b])) == Done([Rec(Resolve([(k, x), (k, y)]))])
  {
    var xs, ys := [Rec([(k, x)])], [Rec([(k, y)])];
    MulEval(a, b, xs, ys, 0, 0, 0);
    assert [(k, x)] + [(k, y)] == [(k, x), (k, y)];
    OneValue(Eval(Product([a, b])), Rec(Resolve([(k, x), (k, y)])));
  }

  /** `{a: label} * {b: 1}`: the key holding a label moves behind the
      plain one, so the product yields `{b: 1, a: label}`. */
  lemma LabelKeyLast(a: Node, b: Node, l: Label, v: Value)
    requires Eval(a) == Done([Rec([("a", Lbl(l))])]) && Eval(b) == Done([Rec([("b", v)])])
    requires !v.Lbl?
    ensures Eval(Product([a, b])) == Done([Rec([("b", v), ("a", Lbl(l))])])
  {
    hide Resolve, MergeCombining, ToDict;
    var xs, ys := [Rec([("a", Lbl(l))])], [Rec([("b", v)])];
    MulEval(a, b, xs, ys, 0, 0, 0);
    assert [("a", Lbl(l))] + [("b", v)] == [("a", Lbl(l)), ("b", v)];
    LabelMovesBehind(l, v);
    OneValue(Eval(Product([a, b])), Rec([("b", v), ("a", Lbl(l))]));
  }

  /** A trace that completes after yielding `v` alone. Stated apart so
      that the product examples that use it stay small. */
  lemma OneValue(o: Outcome, v: Value)
    requires o.raised.None? && |o.yielded| == 1 && o.yielded[0] == v
    ensures o == Done([v])
  {
    assert o.yielded == [v];
  }
}
