/** Sequence combinators the algebra is built from: flat-map (the body of
    `_cdict_apply.__iter__`) and the cartesian product in the order
    `itertools.product` produces it (first component slowest, last fastest). */
module Seqs {

  /** Concatenation of `f(x)` over `x` in `xs`, in order. */
  function FlatMap<A, B>(f: A -> seq<B>, xs: seq<A>): seq<B>
  {
    if |xs| == 0 then [] else f(xs[0]) + FlatMap(f, xs[1..])
  }

  /** Flat-map distributes over concatenation of its input. */
  lemma {:induction false} FlatMapAppend<A, B>(f: A -> seq<B>, xs: seq<A>, ys: seq<A>)
    ensures FlatMap(f, xs + ys) == FlatMap(f, xs) + FlatMap(f, ys)
  {
    if |xs| == 0 {
      assert xs + ys == ys;
    } else {
      assert (xs + ys)[1..] == xs[1..] + ys;
      FlatMapAppend(f, xs[1..], ys);
    }
  }

  /** When every image is a singleton, flat-map is an element-wise map:
      same length, and element `i` is the image of input element `i`. */
  lemma {:induction false} FlatMapSingletons<A, B>(f: A -> seq<B>, xs: seq<A>)
    requires forall i :: 0 <= i < |xs| ==> |f(xs[i])| == 1
    ensures |FlatMap(f, xs)| == |xs|
    ensures forall i :: 0 <= i < |xs| ==> FlatMap(f, xs)[i] == f(xs[i])[0]
  {
    if |xs| > 0 {
      FlatMapSingletons(f, xs[1..]);
      assert forall i :: 1 <= i < |xs| ==> xs[1..][i - 1] == xs[i];
    }
  }

  /** Product of the lengths of the component sequences: the number of
      tuples in their cartesian product. */
  function LengthProduct<T>(ss: seq<seq<T>>): nat
  {
    if |ss| == 0 then 1 else |ss[0]| * LengthProduct(ss[1..])
  }

  /** `rest` with `x` put in front of each of its tuples. */
  function Prefixed<T>(x: T, rest: seq<seq<T>>): seq<seq<T>>
  {
    seq(|rest|, i requires 0 <= i < |rest| => [x] + rest[i])
  }

  /** For each `x` of `xs` in turn, all of `rest` prefixed with `x`: one
      step of a nested loop whose outer variable ranges over `xs`. */
  function Spread<T>(xs: seq<T>, rest: seq<seq<T>>): (r: seq<seq<T>>)
    ensures |r| == |xs| * |rest|
    ensures forall t :: t in r ==> |t| > 0 && t[1..] in rest
  {
    if |xs| == 0 then [] else Prefixed(xs[0], rest) + Spread(xs[1..], rest)
  }

  /** The cartesian product of `ss`, as `itertools.product(*ss)` lists it. */
  function CartProd<T>(ss: seq<seq<T>>): (r: seq<seq<T>>)
    ensures |r| == LengthProduct(ss)
    ensures forall t :: t in r ==> |t| == |ss|
  {
    if |ss| == 0 then [[]] else Spread(ss[0], CartProd(ss[1..]))
  }

  /** `Spread` distributes over concatenation of its outer sequence. */
  lemma {:induction false} SpreadAppend<T>(xs: seq<T>, ys: seq<T>, rest: seq<seq<T>>)
    ensures Spread(xs + ys, rest) == Spread(xs, rest) + Spread(ys, rest)
  {
    if |xs| == 0 {
      assert xs + ys == ys;
    } else {
      assert (xs + ys)[1..] == xs[1..] + ys;
      SpreadAppend(xs[1..], ys, rest);
    }
  }

  /** `Spread` over `xs` is the spread over the elements before `xs[i]`,
      then the block for `xs[i]`, then the spread over those after it. */
  lemma SpreadSplit<T>(xs: seq<T>, rest: seq<seq<T>>, i: nat)
    requires i < |xs|
    ensures Spread(xs, rest) == Spread(xs[..i], rest) + Prefixed(xs[i], rest) + Spread(xs[i + 1..], rest)
  {
    assert xs == xs[..i] + [xs[i]] + xs[i + 1..];
    SpreadAppend(xs[..i] + [xs[i]], xs[i + 1..], rest);
    SpreadAppend(xs[..i], [xs[i]], rest);
    assert Spread([xs[i]], rest) == Prefixed(xs[i], rest) + Spread([], rest);
  }

  /** Position of tuple `j` of block `i` when every block holds `m`
      tuples. */
  function Offset(i: nat, m: nat, j: nat): nat
  {
    i * m + j
  }

  /** Block structure of `Spread`: tuple number `i * |rest| + j` is the
      `j`-th tuple of `rest` prefixed with `xs[i]`. */
  lemma SpreadIndex<T>(xs: seq<T>, rest: seq<seq<T>>, i: nat, j: nat)
    requires i < |xs| && j < |rest|
    ensures Offset(i, |rest|, j) < |Spread(xs, rest)|
    ensures Spread(xs, rest)[Offset(i, |rest|, j)] == [xs[i]] + rest[j]
  {
    SpreadSplit(xs, rest, i);
    var before := Spread(xs[..i], rest);
    assert |before| == i * |rest|;
  }

  /** Membership in `Prefixed`: a non-empty tuple headed by `x` whose
      tail is a tuple of `rest`. */
  lemma PrefixedMember<T>(x: T, rest: seq<seq<T>>, t: seq<T>)
    ensures t in Prefixed(x, rest) <==> |t| > 0 && t[0] == x && t[1..] in rest
  {
    var p := Prefixed(x, rest);
    if t in p {
      var k :| 0 <= k < |p| && p[k] == t;
      assert t == [x] + rest[k];
      assert t[1..] == rest[k];
    }
    if |t| > 0 && t[0] == x && t[1..] in rest {
      var k :| 0 <= k < |rest| && rest[k] == t[1..];
      assert p[k] == t;
    }
  }

  /** Membership in `Spread`: a non-empty tuple whose head comes from `xs`
      and whose tail is a tuple of `rest`. */
  lemma {:induction false} SpreadMember<T>(xs: seq<T>, rest: seq<seq<T>>, t: seq<T>)
    ensures t in Spread(xs, rest) <==> |t| > 0 && t[0] in xs && t[1..] in rest
  {
    if |xs| > 0 {
      assert Spread(xs, rest) == Prefixed(xs[0], rest) + Spread(xs[1..], rest);
      SpreadMember(xs[1..], rest, t);
      PrefixedMember(xs[0], rest, t);
      assert xs == [xs[0]] + xs[1..];
    }
  }

  /** The cartesian product holds exactly the tuples that pick one element
      from every component, in component order. */
  lemma {:induction false} CartProdMember<T>(ss: seq<seq<T>>, t: seq<T>)
    ensures t in CartProd(ss) <==> |t| == |ss| && forall i :: 0 <= i < |ss| ==> t[i] in ss[i]
  {
    if |ss| == 0 {
    } else {
      SpreadMember(ss[0], CartProd(ss[1..]), t);
      if |t| > 0 {
        CartProdMember(ss[1..], t[1..]);
        if |t| == |ss| && forall i :: 0 <= i < |ss| ==> t[i] in ss[i] {
          assert forall i :: 0 <= i < |ss| - 1 ==> t[1..][i] == t[i + 1] && ss[1..][i] == ss[i + 1];
        }
        if t in CartProd(ss) {
          assert forall i :: 1 <= i < |ss| ==> t[i] == t[1..][i - 1] && ss[i] == ss[1..][i - 1];
        }
      }
    }
  }

  /** Ordering of the cartesian product: the first component varies
      slowest. Tuple number `i * m + j`, where `m` counts the tuples of the
      remaining components, is `ss[0][i]` followed by their `j`-th tuple. */
  lemma CartProdOrder<T>(ss: seq<seq<T>>, i: nat, j: nat)
    requires |ss| > 0 && i < |ss[0]| && j < |CartProd(ss[1..])|
    ensures Offset(i, |CartProd(ss[1..])|, j) < |CartProd(ss)|
    ensures CartProd(ss)[Offset(i, |CartProd(ss[1..])|, j)] == [ss[0][i]] + CartProd(ss[1..])[j]
  {
    var rest := CartProd(ss[1..]);
    assert CartProd(ss) == Spread(ss[0], rest);
    SpreadIndex(ss[0], rest, i, j);
  }

  /** For two components the product is the nested loop over both, the
      right one varying fastest. */
  lemma CartProdPair<T>(a: seq<T>, b: seq<T>, i: nat, j: nat)
    requires i < |a| && j < |b|
    ensures |CartProd([a, b])| == |a| * |b|
    ensures Offset(i, |b|, j) < |a| * |b|
    ensures CartProd([a, b])[Offset(i, |b|, j)] == [a[i], b[j]]
  {
    var ss := [a, b];
    assert ss[1..] == [b];
    var rest := CartProd([b]);
    assert [b][1..] == [];
    assert |rest| == |b|;
    SpreadIndex(b, CartProd([]), j, 0);
    assert rest[j] == [b[j]];
    CartProdOrder(ss, i, j);
  }
}
