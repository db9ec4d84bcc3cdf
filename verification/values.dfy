/** The data that flows through the algebra, and the one combining value,
    `label` (`_cdict_label` in cdict/main.py).

    Python lets any object flow through a stream; this model keeps the kinds
    the algebra treats differently: integers and strings (plain values),
    labels (combining values) and records (dicts, kept as association lists
    so that insertion order is observable). */
module Values {

  /** A label: the text built so far and the separator the next merge puts
      after it. */
  datatype Label = Label(text: string, sep: string)

  datatype Value =
    | Int(i: int)
    | Str(s: string)
    | Lbl(lab: Label)
    | Rec(fields: seq<(string, Value)>)

  /** The character of one decimal digit. */
  function DigitChar(d: nat): (c: char)
    requires d < 10
    ensures '0' <= c <= '9' && c as int - '0' as int == d
  {
    "0123456789"[d]
  }

  predicate IsDigits(s: string)
  {
    forall i :: 0 <= i < |s| ==> '0' <= s[i] <= '9'
  }

  /** Decimal notation of a natural number, most significant digit first,
      without leading zeros (Python's `str` of a non-negative `int`). */
  function NatString(n: nat): (s: string)
    ensures |s| > 0 && IsDigits(s)
    ensures |s| > 1 ==> s[0] != '0'
  {
    if n < 10 then [DigitChar(n)] else NatString(n / 10) + [DigitChar(n % 10)]
  }

  /** Reads a string of decimal digits back as a number. */
  function ParseNat(s: string): nat
    requires IsDigits(s)
  {
    if |s| == 0 then 0 else ParseNat(s[..|s| - 1]) * 10 + (s[|s| - 1] as int - '0' as int)
  }

  /** Decimal rendering loses nothing: parsing it gives the number back. */
  lemma {:induction false} ParseNatString(n: nat)
    ensures ParseNat(NatString(n)) == n
  {
    var s := NatString(n);
    if n >= 10 {
      ParseNatString(n / 10);
      assert s[..|s| - 1] == NatString(n / 10);
    }
  }

  /** Python's `str` of an `int`: a minus sign in front of negatives. */
  function IntString(i: int): (s: string)
    ensures |s| > 0
    ensures i < 0 <==> (|s| > 0 && s[0] == '-')
    ensures i < 0 ==> IsDigits(s[1..]) && ParseNat(s[1..]) == -i
    ensures i >= 0 ==> IsDigits(s) && ParseNat(s) == i
    ensures i >= 0 ==> (|s| > 1 ==> s[0] != '0')
    ensures i < 0 ==> (|s| > 2 ==> s[1] != '0')
  {
    ParseNatString(if i < 0 then -i else i);
    if i < 0 then "-" + NatString(-i) else NatString(i)
  }

  /** Python's `str` of a non-record value; a label renders as its text
      (`_cdict_label.__str__`). */
  function Show(v: Value): string
    requires !v.Rec?
  {
    match v
    case Int(i) => IntString(i)
    case Str(s) => s
    case Lbl(l) => l.text
  }

  /** `label + other` (`_cdict_label.__add__`): the operand's text is
      appended after this label's separator; the result takes the
      operand's separator when the operand is itself a label and keeps
      this label's otherwise. */
  function Plus(a: Label, other: Value): (r: Label)
    requires !other.Rec?
    ensures |r.text| == |a.text| + |a.sep| + |Show(other)|
    ensures r.text[..|a.text| + |a.sep|] == a.text + a.sep
    ensures r.text[|a.text| + |a.sep|..] == Show(other)
    ensures other.Lbl? ==> r.sep == other.lab.sep
    ensures !other.Lbl? ==> r.sep == a.sep
  {
    var r := Label(a.text + a.sep + Show(other), if other.Lbl? then other.lab.sep else a.sep);
    assert r.text == (a.text + a.sep) + Show(other);
    r
  }

  /** Merging two labels, the case the product's key-collision rule uses. */
  function Merge(a: Label, b: Label): Label
  {
    Plus(a, Lbl(b))
  }

  /** Merging labels is associative, so a fold over colliding labels does
      not depend on how the merges are grouped. */
  lemma MergeAssociative(a: Label, b: Label, c: Label)
    ensures Merge(Merge(a, b), c) == Merge(a, Merge(b, c))
  {
    assert (a.text + a.sep + b.text) + b.sep + c.text == a.text + a.sep + (b.text + b.sep + c.text);
  }

  /** `functools.reduce(lambda x, y: x + y, ls)`: merges from the left. */
  function Fold(ls: seq<Label>): Label
    requires |ls| > 0
  {
    if |ls| == 1 then ls[0] else Merge(Fold(ls[..|ls| - 1]), ls[|ls| - 1])
  }

  /** Reference reading of a merged label: every fragment's text, each
      followed by that fragment's own separator, except the last. */
  function Joined(ls: seq<Label>): string
    requires |ls| > 0
  {
    if |ls| == 1 then ls[0].text else ls[0].text + ls[0].sep + Joined(ls[1..])
  }

  /** `Joined` of a list grown at the end. */
  lemma {:induction false} JoinedSnoc(ls: seq<Label>, l: Label)
    requires |ls| > 0
    ensures Joined(ls + [l]) == Joined(ls) + ls[|ls| - 1].sep + l.text
  {
    if |ls| == 1 {
      assert (ls + [l])[1..] == [l];
    } else {
      var t := ls[1..];
      assert (ls + [l])[1..] == t + [l];
      JoinedSnoc(t, l);
      assert t[|t| - 1] == ls[|ls| - 1];
      assert ls[0].text + ls[0].sep + (Joined(t) + t[|t| - 1].sep + l.text)
          == (ls[0].text + ls[0].sep + Joined(t)) + t[|t| - 1].sep + l.text;
    }
  }

  /** The left fold over labels joins their texts, each fragment followed
      by its own separator, and ends with the last fragment's separator. */
  lemma {:induction false} FoldIsJoined(ls: seq<Label>)
    requires |ls| > 0
    ensures Fold(ls) == Label(Joined(ls), ls[|ls| - 1].sep)
  {
    if |ls| > 1 {
      hide Plus, Joined;
      var init, l := ls[..|ls| - 1], ls[|ls| - 1];
      FoldIsJoined(init);
      JoinedSnoc(init, l);
      assert init + [l] == ls;
      MergeIs(Fold(init), l);
    }
  }

  /** The label a merge builds. */
  lemma MergeIs(a: Label, b: Label)
    ensures Merge(a, b) == Label(a.text + a.sep + b.text, b.sep)
  {
  }

  /** Any grouping gives the same label: folding a concatenation is
      merging the folds of its two parts. */
  lemma {:induction false} FoldSplit(xs: seq<Label>, ys: seq<Label>)
    requires |xs| > 0 && |ys| > 0
    ensures Fold(xs + ys) == Merge(Fold(xs), Fold(ys))
  {
    var zs := xs + ys;
    if |ys| == 1 {
      assert zs[..|zs| - 1] == xs;
    } else {
      var init := ys[..|ys| - 1];
      assert zs[..|zs| - 1] == xs + init;
      FoldSplit(xs, init);
      MergeAssociative(Fold(xs), Fold(init), ys[|ys| - 1]);
    }
  }

  /** Labels "x", "y" and "z" with separator "." merge to "x.y.z". */
  lemma FoldExample()
    ensures Fold([Label("x", "."), Label("y", "."), Label("z", ".")]) == Label("x.y.z", ".")
  {
    var ls := [Label("x", "."), Label("y", "."), Label("z", ".")];
    FoldIsJoined(ls);
    assert ls[1..][1..] == [Label("z", ".")];
  }
}
