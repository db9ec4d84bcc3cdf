/** Records as association lists, Python's `dict(pairs)` over them, and the
    key-collision rule of the product (`_cdict_combining.merge_combining`).

    A Python dict keeps its keys in first-insertion order and a later write
    to a key replaces the value in place; both are observable in the
    records the algebra yields, so records are lists of pairs rather than
    maps. */
module Records {
  import opened Wrappers
  import opened Values

  type Pairs = seq<(string, Value)>

  /** The keys of a pair list, in order (repetitions kept). */
  function Keys<V>(ps: seq<(string, V)>): seq<string>
  {
    seq(|ps|, i requires 0 <= i < |ps| => ps[i].0)
  }

  predicate Distinct(ks: seq<string>)
  {
    forall i, j :: 0 <= i < j < |ks| ==> ks[i] != ks[j]
  }

  /** Position of the first occurrence of `k`. */
  function FirstIndex(ks: seq<string>, k: string): (r: nat)
    requires k in ks
    ensures r < |ks| && ks[r] == k && k !in ks[..r]
  {
    if ks[0] == k then 0 else 1 + FirstIndex(ks[1..], k)
  }

  /** Any position that holds `k` with no `k` before it is the first. */
  lemma {:induction false} FirstIndexUnique(ks: seq<string>, k: string, i: nat)
    requires i < |ks| && ks[i] == k && k !in ks[..i]
    ensures FirstIndex(ks, k) == i
  {
    if i > 0 {
      assert ks[0] in ks[..i];
      assert ks[1..][..i - 1] == ks[..i][1..];
      FirstIndexUnique(ks[1..], k, i - 1);
    }
  }

  /** The value written last under `k`: what `dict(ps)[k]` returns. */
  function Last(ps: Pairs, k: string): (r: Option<Value>)
    ensures r.None? <==> k !in Keys(ps)
  {
    if |ps| == 0 then None
    else if ps[|ps| - 1].0 == k then
      assert Keys(ps)[|ps| - 1] == k;
      Some(ps[|ps| - 1].1)
    else
      var r := Last(ps[..|ps| - 1], k);
      assert Keys(ps) == Keys(ps[..|ps| - 1]) + [ps[|ps| - 1].0];
      r
  }

  /** In a pair list with distinct keys, each key maps to the value
      beside it. */
  lemma {:induction false} LastDistinct(ps: Pairs, i: nat)
    requires Distinct(Keys(ps)) && i < |ps|
    ensures Last(ps, ps[i].0) == Some(ps[i].1)
  {
    if i < |ps| - 1 {
      var init := ps[..|ps| - 1];
      assert Keys(ps)[i] == ps[i].0 && Keys(ps)[|ps| - 1] == ps[|ps| - 1].0;
      assert Keys(init) == Keys(ps)[..|ps| - 1];
      LastDistinct(init, i);
    }
  }

  /** A later list shadows an earlier one. */
  lemma {:induction false} LastAppend(xs: Pairs, ys: Pairs, k: string)
    ensures Last(xs + ys, k) == if Last(ys, k).Some? then Last(ys, k) else Last(xs, k)
  {
    if |ys| > 0 {
      assert (xs + ys)[..|xs + ys| - 1] == xs + ys[..|ys| - 1];
      LastAppend(xs, ys[..|ys| - 1], k);
    } else {
      assert xs + ys == xs;
    }
  }

  /** `d[k] = v` on a dict: an existing key keeps its place and takes the
      new value; a new key goes to the end. */
  function Put(d: Pairs, k: string, v: Value): (r: Pairs)
    ensures Keys(r) == if k in Keys(d) then Keys(d) else Keys(d) + [k]
    ensures Last(r, k) == Some(v)
    ensures forall k' :: k' != k ==> Last(r, k') == Last(d, k')
  {
    if k in Keys(d) then
      var r := seq(|d|, i requires 0 <= i < |d| => if d[i].0 == k then (k, v) else d[i]);
      PutInPlace(d, k, v, r);
      r
    else
      var r := d + [(k, v)];
      assert Keys(r) == Keys(d) + [k];
      forall k' | k' != k ensures Last(r, k') == Last(d, k') {
        assert r[..|r| - 1] == d;
      }
      r
  }

  /** Overwriting every pair under `k` in place: keys unchanged, `k` now
      maps to `v`, every other key as before. */
  lemma {:induction false} PutInPlace(d: Pairs, k: string, v: Value, r: Pairs)
    requires k in Keys(d) && |r| == |d|
    requires forall i :: 0 <= i < |d| ==> r[i] == if d[i].0 == k then (k, v) else d[i]
    ensures Keys(r) == Keys(d)
    ensures Last(r, k) == Some(v)
    ensures forall k' :: k' != k ==> Last(r, k') == Last(d, k')
  {
    PutInPlaceAt(d, k, v, r);
  }

  lemma {:induction false} PutInPlaceAt(d: Pairs, k: string, v: Value, r: Pairs)
    requires |r| == |d|
    requires forall i :: 0 <= i < |d| ==> r[i] == if d[i].0 == k then (k, v) else d[i]
    ensures Keys(r) == Keys(d)
    ensures Last(r, k) == if k in Keys(d) then Some(v) else None
    ensures forall k' :: k' != k ==> Last(r, k') == Last(d, k')
  {
    assert Keys(r) == Keys(d);
    if |d| > 0 {
      var n := |d| - 1;
      PutInPlaceAt(d[..n], k, v, r[..n]);
      assert Keys(d) == Keys(d[..n]) + [d[n].0];
    }
  }

  /** Python's `dict(ps)`: the pairs written in order into an empty dict.
      The result has one pair per key of `ps`, holding the value written
      last under that key. */
  function ToDict(ps: Pairs): (d: Pairs)
    ensures Distinct(Keys(d))
    ensures forall k :: k in Keys(d) <==> k in Keys(ps)
    ensures forall k :: Last(d, k) == Last(ps, k)
  {
    if |ps| == 0 then []
    else
      var n := |ps| - 1;
      var init := ToDict(ps[..n]);
      PutStep(ps, init);
      Put(init, ps[n].0, ps[n].1)
  }

  /** Writing the last pair of `ps` into a dict that stands for the pairs
      before it gives a dict that stands for all of `ps`. */
  lemma PutStep(ps: Pairs, d: Pairs)
    requires |ps| > 0
    requires Distinct(Keys(d))
    requires forall k :: k in Keys(d) <==> k in Keys(ps[..|ps| - 1])
    requires forall k :: Last(d, k) == Last(ps[..|ps| - 1], k)
    ensures Distinct(Keys(Put(d, ps[|ps| - 1].0, ps[|ps| - 1].1)))
    ensures forall k :: k in Keys(Put(d, ps[|ps| - 1].0, ps[|ps| - 1].1)) <==> k in Keys(ps)
    ensures forall k :: Last(Put(d, ps[|ps| - 1].0, ps[|ps| - 1].1), k) == Last(ps, k)
  {
    var n := |ps| - 1;
    var p := ps[n];
    var r := Put(d, p.0, p.1);
    assert Keys(ps) == Keys(ps[..n]) + [p.0];
    if p.0 !in Keys(d) {
      assert Keys(r) == Keys(d) + [p.0];
      forall i, j | 0 <= i < j < |Keys(r)| ensures Keys(r)[i] != Keys(r)[j] {
        if j == |d| { assert Keys(r)[i] == Keys(d)[i]; }
      }
    }
  }

  /** Keys of `dict(ps)` come in order of their first occurrence in `ps`. */
  predicate FirstOccurrenceOrder(d: Pairs, ps: Pairs)
  {
    forall i, j :: 0 <= i < j < |d| && d[i].0 in Keys(ps) && d[j].0 in Keys(ps) ==>
      FirstIndex(Keys(ps), d[i].0) < FirstIndex(Keys(ps), d[j].0)
  }

  /** Appending to a key list leaves first occurrences of old keys alone. */
  lemma FirstIndexSnoc(ks: seq<string>, y: string, x: string)
    requires x in ks
    ensures x in ks + [y] && FirstIndex(ks + [y], x) == FirstIndex(ks, x)
  {
    var f := FirstIndex(ks, x);
    assert (ks + [y])[..f] == ks[..f];
    FirstIndexUnique(ks + [y], x, f);
  }

  /** A key new to the list first occurs where it is appended. */
  lemma FirstIndexNew(ks: seq<string>, y: string)
    requires y !in ks
    ensures y in ks + [y] && FirstIndex(ks + [y], y) == |ks|
  {
    assert (ks + [y])[..|ks|] == ks;
    FirstIndexUnique(ks + [y], y, |ks|);
  }

  /** `dict(ps)` lists its keys in the order they first occur in `ps`. */
  lemma {:induction false} ToDictOrder(ps: Pairs)
    ensures FirstOccurrenceOrder(ToDict(ps), ps)
  {
    if |ps| > 0 {
      var pre := ps[..|ps| - 1];
      ToDictOrder(pre);
      var d := ToDict(ps);
      forall i, j | 0 <= i < j < |d| && d[i].0 in Keys(ps) && d[j].0 in Keys(ps)
        ensures FirstIndex(Keys(ps), d[i].0) < FirstIndex(Keys(ps), d[j].0)
      {
        ToDictOrderAt(ps, i, j);
      }
    }
  }

  /** The order of keys `i < j` of `dict(ps)`, given the order of `dict`
      of all but the last pair. */
  lemma ToDictOrderAt(ps: Pairs, i: nat, j: nat)
    requires |ps| > 0
    requires FirstOccurrenceOrder(ToDict(ps[..|ps| - 1]), ps[..|ps| - 1])
    requires i < j < |ToDict(ps)|
    ensures ToDict(ps)[i].0 in Keys(ps) && ToDict(ps)[j].0 in Keys(ps)
    ensures FirstIndex(Keys(ps), ToDict(ps)[i].0) < FirstIndex(Keys(ps), ToDict(ps)[j].0)
  {
    hide FirstOccurrenceOrder, Distinct, ToDict, Keys;
    var n := |ps| - 1;
    var pre := ps[..n];
    var init := ToDict(pre);
    var d := ToDict(ps);
    var k := ps[n].0;
    ToDictKeys(ps);
    KeysSnoc(ps);
    KeysLen(init);
    KeysLen(d);
    KeyIn(init, i);
    if j < |init| {
      KeyIn(init, j);
      OrderAt(init, pre, i, j);
    }
    ToDictOrderStep(pre, k, init, d, i, j);
  }

  /** The keys of pairs with one more at the end. */
  lemma KeysSnoc(ps: Pairs)
    requires |ps| > 0
    ensures Keys(ps) == Keys(ps[..|ps| - 1]) + [ps[|ps| - 1].0]
  {
  }

  lemma KeysLen(ps: Pairs)
    ensures |Keys(ps)| == |ps|
  {
  }

  lemma KeyIn(ps: Pairs, i: nat)
    requires i < |ps|
    ensures Keys(ps)[i] == ps[i].0 && ps[i].0 in Keys(ps)
  {
  }

  lemma KeysAppend(xs: Pairs, ys: Pairs)
    ensures Keys(xs + ys) == Keys(xs) + Keys(ys)
  {
  }

  /** The first occurrence of `k` in two key lists put together: in the
      first list when it is there, else after it in the second. */
  lemma FirstIndexAppend(xs: seq<string>, ys: seq<string>, k: string)
    requires k in xs + ys
    ensures k in xs || k in ys
    ensures FirstIndex(xs + ys, k) == if k in xs then FirstIndex(xs, k) else |xs| + FirstIndex(ys, k)
  {
    if k in xs {
      var f := FirstIndex(xs, k);
      assert (xs + ys)[..f] == xs[..f];
      FirstIndexUnique(xs + ys, k, f);
    } else {
      var g := FirstIndex(ys, k);
      assert (xs + ys)[..|xs| + g] == xs + ys[..g];
      FirstIndexUnique(xs + ys, k, |xs| + g);
    }
  }

  /** One instance of `FirstOccurrenceOrder`. */
  lemma OrderAt(d: Pairs, ps: Pairs, i: nat, j: nat)
    requires FirstOccurrenceOrder(d, ps)
    requires i < j < |d| && d[i].0 in Keys(ps) && d[j].0 in Keys(ps)
    ensures FirstIndex(Keys(ps), d[i].0) < FirstIndex(Keys(ps), d[j].0)
  {
  }

  /** The keys of `dict(ps)` are those of `dict` of all but the last pair,
      with the last pair's key appended when it is new. */
  lemma ToDictKeys(ps: Pairs)
    requires |ps| > 0
    ensures var init := ToDict(ps[..|ps| - 1]); var k := ps[|ps| - 1].0;
      Keys(ToDict(ps)) == if k in Keys(init) then Keys(init) else Keys(init) + [k]
  {
  }

  /** One write keeps the keys in first-occurrence order: keys `i < j` of
      the dict after writing `k`. */
  lemma ToDictOrderStep(pre: Pairs, k: string, init: Pairs, d: Pairs, i: nat, j: nat)
    requires Keys(d) == if k in Keys(init) then Keys(init) else Keys(init) + [k]
    requires i < j < |d|
    requires init[i].0 in Keys(pre)
    requires j < |init| ==> init[j].0 in Keys(pre) && FirstIndex(Keys(pre), init[i].0) < FirstIndex(Keys(pre), init[j].0)
    requires k !in Keys(init) ==> k !in Keys(pre)
    ensures d[i].0 in Keys(pre) + [k] && d[j].0 in Keys(pre) + [k]
    ensures FirstIndex(Keys(pre) + [k], d[i].0) < FirstIndex(Keys(pre) + [k], d[j].0)
  {
    assert Keys(d)[i] == d[i].0 && Keys(d)[j] == d[j].0;
    FirstIndexSnoc(Keys(pre), k, init[i].0);
    if j < |init| {
      FirstIndexSnoc(Keys(pre), k, init[j].0);
    } else {
      FirstIndexNew(Keys(pre), k);
    }
  }

  /** Building a dict from pairs whose keys are already distinct changes
      nothing. */
  lemma {:induction false} ToDictDistinct(ps: Pairs)
    requires Distinct(Keys(ps))
    ensures ToDict(ps) == ps
  {
    if |ps| > 0 {
      var n := |ps| - 1;
      var pre := ps[..n];
      DistinctInit(ps);
      ToDictDistinct(pre);
      assert ToDict(ps) == Put(pre, ps[n].0, ps[n].1) == pre + [ps[n]];
      assert pre + [ps[n]] == ps;
    }
  }

  /** Dropping the last pair keeps the keys distinct, and that pair's key
      is not among the rest. */
  lemma DistinctInit(ps: Pairs)
    requires |ps| > 0 && Distinct(Keys(ps))
    ensures Distinct(Keys(ps[..|ps| - 1]))
    ensures ps[|ps| - 1].0 !in Keys(ps[..|ps| - 1])
  {
    var n := |ps| - 1;
    var pre := ps[..n];
    assert Keys(pre) == Keys(ps)[..n];
    forall i | 0 <= i < n ensures Keys(pre)[i] != ps[n].0 {
      assert Keys(ps)[i] == Keys(pre)[i] && Keys(ps)[n] == ps[n].0;
    }
  }

  /** The pairs whose value is not a combining value, in input order. */
  function Plain(ps: Pairs): Pairs
  {
    if |ps| == 0 then []
    else if ps[|ps| - 1].1.Lbl? then Plain(ps[..|ps| - 1])
    else Plain(ps[..|ps| - 1]) + [ps[|ps| - 1]]
  }

  /** The pairs whose value is a combining value, in input order. */
  function Labelled(ps: Pairs): Pairs
  {
    if |ps| == 0 then []
    else if ps[|ps| - 1].1.Lbl? then Labelled(ps[..|ps| - 1]) + [ps[|ps| - 1]]
    else Labelled(ps[..|ps| - 1])
  }

  /** The labels stored under `k`, in input order. */
  function LabelsFor(ps: Pairs, k: string): seq<Label>
  {
    if |ps| == 0 then []
    else
      var p := ps[|ps| - 1];
      LabelsFor(ps[..|ps| - 1], k) + (if p.0 == k && p.1.Lbl? then [p.1.lab] else [])
  }

  type Groups = seq<(string, seq<Label>)>

  /** `combining[k].append(l)` on a `defaultdict(list)`. */
  function AddTo(gs: Groups, k: string, l: Label): (r: Groups)
  {
    if k in Keys(gs) then
      seq(|gs|, i requires 0 <= i < |gs| => if gs[i].0 == k then (k, gs[i].1 + [l]) else gs[i])
    else gs + [(k, [l])]
  }

  /** The labels of `ps` grouped per key, as the first loop of
      `merge_combining` collects them: one group per key that holds a
      label, in order of the key's first label, each group holding all
      labels under that key in input order. */
  function Group(ps: Pairs): (gs: Groups)
    ensures Distinct(Keys(gs))
    ensures forall k :: k in Keys(gs) <==> LabelsFor(ps, k) != []
    ensures forall i :: 0 <= i < |gs| ==> gs[i].1 == LabelsFor(ps, gs[i].0) && |gs[i].1| > 0
  {
    if |ps| == 0 then []
    else
      var n := |ps| - 1;
      var gs := Group(ps[..n]);
      if ps[n].1.Lbl? then
        var r := AddTo(gs, ps[n].0, ps[n].1.lab);
        AddToKeys(gs, ps[n].0, ps[n].1.lab);
        GroupLabelKeys(ps, gs, r);
        GroupLabelContents(ps, gs, r);
        r
      else
        GroupPlain(ps, gs);
        gs
  }

  /** `combining[k].append(l)` keeps the keys distinct, adding `k` at the
      end when it is new. */
  lemma AddToKeys(gs: Groups, k: string, l: Label)
    requires Distinct(Keys(gs))
    ensures Keys(AddTo(gs, k, l)) == if k in Keys(gs) then Keys(gs) else Keys(gs) + [k]
    ensures Distinct(Keys(AddTo(gs, k, l)))
  {
    var ks, rs := Keys(gs), Keys(AddTo(gs, k, l));
    assert rs == if k in ks then ks else ks + [k];
    if k !in ks {
      forall i, j | 0 <= i < j < |rs| ensures rs[i] != rs[j] {
        if j == |gs| { assert rs[i] == ks[i]; }
      }
    }
  }

  /** The labels under `x` are those before the last pair, then the last
      pair's label when it is one under `x`. */
  lemma LabelsSnoc(ps: Pairs, x: string)
    requires |ps| > 0
    ensures LabelsFor(ps, x) == LabelsFor(ps[..|ps| - 1], x) +
      (if ps[|ps| - 1].0 == x && ps[|ps| - 1].1.Lbl? then [ps[|ps| - 1].1.lab] else [])
  {
  }

  /** A last pair holding a label joins the group of its key, so the keys
      of the groups are exactly those holding a label. */
  lemma GroupLabelKeys(ps: Pairs, gs: Groups, r: Groups)
    requires |ps| > 0 && ps[|ps| - 1].1.Lbl?
    requires Keys(r) == if ps[|ps| - 1].0 in Keys(gs) then Keys(gs) else Keys(gs) + [ps[|ps| - 1].0]
    requires forall k :: k in Keys(gs) <==> LabelsFor(ps[..|ps| - 1], k) != []
    ensures forall k :: k in Keys(r) <==> LabelsFor(ps, k) != []
  {
    forall x ensures x in Keys(r) <==> LabelsFor(ps, x) != [] {
      GroupLabelKey(ps, gs, r, x);
    }
  }

  /** Key `x` after a label joins its group. */
  lemma GroupLabelKey(ps: Pairs, gs: Groups, r: Groups, x: string)
    requires |ps| > 0 && ps[|ps| - 1].1.Lbl?
    requires Keys(r) == if ps[|ps| - 1].0 in Keys(gs) then Keys(gs) else Keys(gs) + [ps[|ps| - 1].0]
    requires x in Keys(gs) <==> LabelsFor(ps[..|ps| - 1], x) != []
    ensures x in Keys(r) <==> LabelsFor(ps, x) != []
  {
    LabelsSnoc(ps, x);
  }

  /** After a label joins its group, every group holds all labels under
      its key. */
  lemma GroupLabelContents(ps: Pairs, gs: Groups, r: Groups)
    requires |ps| > 0 && ps[|ps| - 1].1.Lbl?
    requires r == AddTo(gs, ps[|ps| - 1].0, ps[|ps| - 1].1.lab)
    requires forall k :: k in Keys(gs) <==> LabelsFor(ps[..|ps| - 1], k) != []
    requires forall i :: 0 <= i < |gs| ==> gs[i].1 == LabelsFor(ps[..|ps| - 1], gs[i].0) && |gs[i].1| > 0
    ensures forall i :: 0 <= i < |r| ==> r[i].1 == LabelsFor(ps, r[i].0) && |r[i].1| > 0
  {
    forall i | 0 <= i < |r| ensures r[i].1 == LabelsFor(ps, r[i].0) && |r[i].1| > 0 {
      GroupLabelAt(ps, gs, r, i);
    }
  }

  /** Group `i` after a label joins its group. */
  lemma GroupLabelAt(ps: Pairs, gs: Groups, r: Groups, i: nat)
    requires |ps| > 0 && ps[|ps| - 1].1.Lbl?
    requires r == AddTo(gs, ps[|ps| - 1].0, ps[|ps| - 1].1.lab) && i < |r|
    requires ps[|ps| - 1].0 !in Keys(gs) ==> LabelsFor(ps[..|ps| - 1], ps[|ps| - 1].0) == []
    requires i < |gs| ==> gs[i].1 == LabelsFor(ps[..|ps| - 1], gs[i].0) && |gs[i].1| > 0
    ensures r[i].1 == LabelsFor(ps, r[i].0) && |r[i].1| > 0
  {
    var n := |ps| - 1;
    var k := ps[n].0;
    LabelsSnoc(ps, r[i].0);
    if i < |gs| {
      assert Keys(gs)[i] == gs[i].0;
    }
  }

  /** A last pair holding no label leaves the groups as they are. */
  lemma GroupPlain(ps: Pairs, gs: Groups)
    requires |ps| > 0 && !ps[|ps| - 1].1.Lbl?
    requires forall k :: k in Keys(gs) <==> LabelsFor(ps[..|ps| - 1], k) != []
    requires forall i :: 0 <= i < |gs| ==> gs[i].1 == LabelsFor(ps[..|ps| - 1], gs[i].0) && |gs[i].1| > 0
    ensures forall k :: k in Keys(gs) <==> LabelsFor(ps, k) != []
    ensures forall i :: 0 <= i < |gs| ==> gs[i].1 == LabelsFor(ps, gs[i].0) && |gs[i].1| > 0
  {
    forall x ensures LabelsFor(ps, x) == LabelsFor(ps[..|ps| - 1], x) {
      LabelsSnoc(ps, x);
    }
  }

  /** A key holds a label exactly when it is a key of the labelled pairs. */
  lemma {:induction false} LabelledKeys(ps: Pairs, k: string)
    ensures k in Keys(Labelled(ps)) <==> LabelsFor(ps, k) != []
  {
    if |ps| > 0 {
      var n := |ps| - 1;
      LabelledKeys(ps[..n], k);
      LabelsSnoc(ps, k);
      if ps[n].1.Lbl? {
        KeysAppend(Labelled(ps[..n]), [ps[n]]);
        assert Keys([ps[n]]) == [ps[n].0];
      }
    }
  }

  /** The groups come in the order their keys first hold a label: their
      keys are those of `dict` of the labelled pairs. */
  lemma {:induction false} GroupOrder(ps: Pairs)
    ensures Keys(Group(ps)) == Keys(ToDict(Labelled(ps)))
  {
    if |ps| > 0 {
      var n := |ps| - 1;
      var pre := ps[..n];
      GroupOrder(pre);
      if ps[n].1.Lbl? {
        var gs := Group(pre);
        var lp := Labelled(ps);
        assert Group(ps) == AddTo(gs, ps[n].0, ps[n].1.lab);
        AddToKeys(gs, ps[n].0, ps[n].1.lab);
        assert lp[..|lp| - 1] == Labelled(pre);
        ToDictKeys(lp);
      }
    }
  }

  /** Group `i` comes before group `j` exactly when the first label of its
      key comes before the first label of the other's. */
  lemma GroupFirstLabelOrder(ps: Pairs, i: nat, j: nat)
    requires i < |Group(ps)| && j < |Group(ps)|
    ensures Group(ps)[i].0 in Keys(Labelled(ps)) && Group(ps)[j].0 in Keys(Labelled(ps))
    ensures i < j <==>
      FirstIndex(Keys(Labelled(ps)), Group(ps)[i].0) < FirstIndex(Keys(Labelled(ps)), Group(ps)[j].0)
  {
    var gs := Group(ps);
    var lp := Labelled(ps);
    var d := ToDict(lp);
    GroupOrder(ps);
    ToDictOrder(lp);
    hide FirstOccurrenceOrder, Distinct, ToDict, Group, Labelled;
    assert Keys(gs)[i] == gs[i].0 && Keys(gs)[j] == gs[j].0;
    KeyIn(d, i);
    KeyIn(d, j);
    if i < j {
      OrderAt(d, lp, i, j);
    } else if j < i {
      OrderAt(d, lp, j, i);
    }
  }


  /** `folded` holds, per group, its key and the left fold of its labels. */
  predicate FoldsOf(folded: Pairs, gs: Groups)
  {
    && |folded| == |gs|
    && forall i :: 0 <= i < |gs| ==> |gs[i].1| > 0 && folded[i] == (gs[i].0, Lbl(Fold(gs[i].1)))
  }

  /** Per group, its key and the left fold of its labels. */
  function Folds(gs: Groups): (folded: Pairs)
    requires forall i :: 0 <= i < |gs| ==> |gs[i].1| > 0
    ensures FoldsOf(folded, gs)
  {
    seq(|gs|, i requires 0 <= i < |gs| => (gs[i].0, Lbl(Fold(gs[i].1))))
  }

  /** `merge_combining`: the plain pairs in input order, then, per key
      holding labels, one pair with all its labels merged from the left. */
  function MergeCombining(ps: Pairs): (r: Pairs)
    ensures Plain(r) == Plain(ps)
    ensures forall k :: k in Keys(r) <==> k in Keys(ps)
    ensures forall k :: LabelsFor(ps, k) != [] ==> Last(r, k) == Some(Lbl(Fold(LabelsFor(ps, k))))
    ensures forall k :: LabelsFor(ps, k) == [] ==> Last(r, k) == Last(ps, k)
  {
    var gs := Group(ps);
    var folded := Folds(gs);
    MergedPlain(ps, gs, folded);
    MergedKeys(ps, gs, folded);
    forall k ensures Last(Plain(ps) + folded, k) ==
      if LabelsFor(ps, k) != [] then Some(Lbl(Fold(LabelsFor(ps, k)))) else Last(ps, k)
    {
      MergedLast(ps, gs, folded, k);
    }
    Plain(ps) + folded
  }

  /** The merged pairs keep exactly the plain pairs of the input. */
  lemma MergedPlain(ps: Pairs, gs: Groups, folded: Pairs)
    requires FoldsOf(folded, gs)
    ensures Plain(Plain(ps) + folded) == Plain(ps)
  {
    PlainOfLabels(Plain(ps), folded);
    PlainIdempotent(ps);
  }

  /** The merged pairs hold the keys of the input, no more and no fewer. */
  lemma MergedKeys(ps: Pairs, gs: Groups, folded: Pairs)
    requires forall k :: k in Keys(gs) <==> LabelsFor(ps, k) != []
    requires FoldsOf(folded, gs)
    ensures forall k :: k in Keys(Plain(ps) + folded) <==> k in Keys(ps)
  {
    assert Keys(folded) == Keys(gs);
    assert Keys(Plain(ps) + folded) == Keys(Plain(ps)) + Keys(folded);
    forall k ensures k in Keys(Plain(ps) + folded) <==> k in Keys(ps) {
      PlainKeys(ps, k);
    }
  }

  /** The collision rule for one key of `merge_combining`'s output. */
  lemma MergedLast(ps: Pairs, gs: Groups, folded: Pairs, k: string)
    requires Distinct(Keys(gs))
    requires k in Keys(gs) <==> LabelsFor(ps, k) != []
    requires forall i :: 0 <= i < |gs| ==> gs[i].1 == LabelsFor(ps, gs[i].0)
    requires FoldsOf(folded, gs)
    ensures Last(Plain(ps) + folded, k) ==
      if LabelsFor(ps, k) != [] then Some(Lbl(Fold(LabelsFor(ps, k)))) else Last(ps, k)
  {
    assert Keys(folded) == Keys(gs);
    LastAppend(Plain(ps), folded, k);
    if LabelsFor(ps, k) != [] {
      var i := FirstIndex(Keys(gs), k);
      LastDistinct(folded, i);
    } else {
      PlainLast(ps, k);
    }
  }

  /** Appending only labels adds nothing plain. */
  lemma {:induction false} PlainOfLabels(xs: Pairs, ys: Pairs)
    requires forall i :: 0 <= i < |ys| ==> ys[i].1.Lbl?
    ensures Plain(xs + ys) == Plain(xs)
  {
    if |ys| == 0 {
      assert xs + ys == xs;
    } else {
      assert (xs + ys)[..|xs + ys| - 1] == xs + ys[..|ys| - 1];
      PlainOfLabels(xs, ys[..|ys| - 1]);
    }
  }

  lemma {:induction false} PlainIdempotent(ps: Pairs)
    ensures Plain(Plain(ps)) == Plain(ps)
  {
    if |ps| > 0 {
      var n := |ps| - 1;
      PlainIdempotent(ps[..n]);
      if !ps[n].1.Lbl? {
        assert (Plain(ps[..n]) + [ps[n]])[..|Plain(ps)| - 1] == Plain(ps[..n]);
      }
    }
  }

  /** A key survives filtering out the labels exactly when no label is
      all it holds. */
  lemma {:induction false} PlainKeys(ps: Pairs, k: string)
    ensures k in Keys(ps) <==> k in Keys(Plain(ps)) || LabelsFor(ps, k) != []
  {
    if |ps| > 0 {
      var n := |ps| - 1;
      PlainKeys(ps[..n], k);
      assert Keys(ps) == Keys(ps[..n]) + [ps[n].0];
      if !ps[n].1.Lbl? {
        assert Keys(Plain(ps)) == Keys(Plain(ps[..n])) + [ps[n].0];
      }
    }
  }

  /** A key holding no label keeps its last value when the labels are
      filtered out. */
  lemma {:induction false} PlainLast(ps: Pairs, k: string)
    requires LabelsFor(ps, k) == []
    ensures Last(Plain(ps), k) == Last(ps, k)
  {
    if |ps| > 0 {
      var n := |ps| - 1;
      PlainLast(ps[..n], k);
      if !ps[n].1.Lbl? {
        assert (Plain(ps[..n]) + [ps[n]])[..|Plain(ps)| - 1] == Plain(ps[..n]);
      }
    }
  }

  /** The layout of `merge_combining`'s output: the plain pairs, untouched
      and in input order, then one labelled pair per key holding a label,
      these keys distinct and in the order they first hold a label. */
  lemma MergeCombiningShape(ps: Pairs)
    ensures var m := MergeCombining(ps); |Plain(ps)| <= |m| && m[..|Plain(ps)|] == Plain(ps)
    ensures var m := MergeCombining(ps); forall i :: |Plain(ps)| <= i < |m| ==> m[i].1.Lbl?
    ensures var m := MergeCombining(ps);
      Keys(m[|Plain(ps)|..]) == Keys(ToDict(Labelled(ps))) && Distinct(Keys(m[|Plain(ps)|..]))
    ensures FirstOccurrenceOrder(MergeCombining(ps)[|Plain(ps)|..], Labelled(ps))
  {
    var gs := Group(ps);
    var folded := Folds(gs);
    var m := MergeCombining(ps);
    assert m == Plain(ps) + folded;
    hide MergeCombining, Group, Folds, Labelled, ToDict, FirstOccurrenceOrder, Distinct;
    assert m[|Plain(ps)|..] == folded;
    assert Keys(folded) == Keys(gs);
    GroupOrder(ps);
    ToDictOrder(Labelled(ps));
    SameKeysOrder(folded, ToDict(Labelled(ps)), Labelled(ps));
  }

  /** Two pair lists with the same keys in the same positions are in the
      same key order. */
  lemma SameKeysOrder(d: Pairs, e: Pairs, ps: Pairs)
    requires Keys(d) == Keys(e) && FirstOccurrenceOrder(e, ps)
    ensures FirstOccurrenceOrder(d, ps)
  {
    KeysLen(d);
    KeysLen(e);
    forall i, j | 0 <= i < j < |d| && d[i].0 in Keys(ps) && d[j].0 in Keys(ps)
      ensures FirstIndex(Keys(ps), d[i].0) < FirstIndex(Keys(ps), d[j].0)
    {
      KeyIn(d, i);
      KeyIn(d, j);
      KeyIn(e, i);
      KeyIn(e, j);
      OrderAt(e, ps, i, j);
    }
  }

  /** The record a product yields for one combination of records:
      `dict(merge_combining(...))` over their concatenated items. A key
      holding a label takes the left fold of all its labels (plain values
      under the same key are dropped); any other key takes its last
      value. */
  function Resolve(ps: Pairs): (d: Pairs)
    ensures Distinct(Keys(d))
    ensures forall k :: k in Keys(d) <==> k in Keys(ps)
    ensures forall k :: LabelsFor(ps, k) != [] ==> Last(d, k) == Some(Lbl(Fold(LabelsFor(ps, k))))
    ensures forall k :: LabelsFor(ps, k) == [] ==> Last(d, k) == Last(ps, k)
  {
    ToDict(MergeCombining(ps))
  }

  /** The keys of a product's record come in the order they first occur
      when the plain pairs are put ahead of the labelled ones: a key with a
      plain value sits where its first plain value was, and a key holding
      only labels comes after all of those, in the order of its first
      label. */
  lemma ResolveOrder(ps: Pairs)
    ensures forall k :: k in Keys(ps) <==> k in Keys(Plain(ps) + Labelled(ps))
    ensures FirstOccurrenceOrder(Resolve(ps), Plain(ps) + Labelled(ps))
  {
    var a := Plain(ps) + Labelled(ps);
    KeysAppend(Plain(ps), Labelled(ps));
    forall k ensures k in Keys(ps) <==> k in Keys(a) {
      PlainKeys(ps, k);
      LabelledKeys(ps, k);
    }
    var d := Resolve(ps);
    forall i, j | 0 <= i < j < |d| && d[i].0 in Keys(a) && d[j].0 in Keys(a)
      ensures FirstIndex(Keys(a), d[i].0) < FirstIndex(Keys(a), d[j].0)
    {
      ResolveOrderAt(ps, i, j);
    }
  }

  /** Keys `i < j` of a product's record, against the plain-first order. */
  lemma ResolveOrderAt(ps: Pairs, i: nat, j: nat)
    requires i < j < |Resolve(ps)|
    ensures Resolve(ps)[i].0 in Keys(Plain(ps) + Labelled(ps))
    ensures Resolve(ps)[j].0 in Keys(Plain(ps) + Labelled(ps))
    ensures FirstIndex(Keys(Plain(ps) + Labelled(ps)), Resolve(ps)[i].0) <
      FirstIndex(Keys(Plain(ps) + Labelled(ps)), Resolve(ps)[j].0)
  {
    var pl, lp := Plain(ps), Labelled(ps);
    var m := MergeCombining(ps);
    var d := Resolve(ps);
    assert d == ToDict(m);
    hide FirstOccurrenceOrder, Distinct, ToDict, MergeCombining, Resolve, Plain, Labelled, Keys;
    MergeCombiningShape(ps);
    var t := m[|pl|..];
    var ld := ToDict(lp);
    assert m == pl + t;
    KeysAppend(pl, t);
    KeysAppend(pl, lp);
    KeyIn(d, i);
    KeyIn(d, j);
    var k1, k2 := d[i].0, d[j].0;
    ToDictKeysOf(m, k1);
    ToDictKeysOf(m, k2);
    ToDictOrder(m);
    OrderAt(d, m, i, j);
    FirstIndexAppend(Keys(pl), Keys(t), k1);
    FirstIndexAppend(Keys(pl), Keys(t), k2);
    ToDictKeysOf(lp, k1);
    ToDictKeysOf(lp, k2);
    FirstIndexAppend(Keys(pl), Keys(lp), k1);
    FirstIndexAppend(Keys(pl), Keys(lp), k2);
    if k1 !in Keys(pl) && k2 !in Keys(pl) {
      var a1, a2 := FirstIndex(Keys(ld), k1), FirstIndex(Keys(ld), k2);
      KeysLen(ld);
      KeyIn(ld, a1);
      KeyIn(ld, a2);
      ToDictOrder(lp);
      OrderAt(ld, lp, a1, a2);
    }
  }

  /** `dict` keeps exactly the keys of its pairs. */
  lemma ToDictKeysOf(ps: Pairs, k: string)
    ensures k in Keys(ToDict(ps)) <==> k in Keys(ps)
  {
  }

  /** A key holding only a label moves behind a key with a plain value,
      though it came first: `{a: label} * {b: 1}` gives `{b: 1, a: label}`. */
  lemma LabelMovesBehind(l: Label, v: Value)
    requires !v.Lbl?
    ensures Resolve([("a", Lbl(l)), ("b", v)]) == [("b", v), ("a", Lbl(l))]
  {
    hide MergeCombining, ToDict, LabelsFor, Last, Fold, Plain, Group, Labelled, Distinct, Keys;
    MergeMovesLabel(l, v);
    ToDictTwo(("b", v), ("a", Lbl(l)));
  }

  /** Two pairs under different keys already form a dict. */
  lemma ToDictTwo(p: (string, Value), q: (string, Value))
    requires p.0 != q.0
    ensures ToDict([p, q]) == [p, q]
  {
    assert Distinct(Keys([p, q])) by {
      assert Keys([p, q]) == [p.0, q.0];
    }
    ToDictDistinct([p, q]);
  }

  /** `merge_combining` puts the plain pair ahead of the label. */
  lemma MergeMovesLabel(l: Label, v: Value)
    requires !v.Lbl?
    ensures MergeCombining([("a", Lbl(l)), ("b", v)]) == [("b", v), ("a", Lbl(l))]
  {
    var ps := [("a", Lbl(l)), ("b", v)];
    assert ps[..1] == [("a", Lbl(l))];
    assert Plain(ps) == [("b", v)] by {
      assert ps[..1][..0] == [];
      assert Plain(ps[..1]) == [];
    }
    assert Group(ps) == [("a", [l])] by {
      assert Group(ps[..1]) == [("a", [l])];
    }
    assert Folds([("a", [l])]) == [("a", Lbl(l))];
  }
}
