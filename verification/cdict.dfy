/** The public surface of class `cdict`: the constructors and the
    operators `+`, `*` and `|`, `apply`, `map` and `len`. */
module Cdict {
  import opened Wrappers
  import opened Values
  import opened Algebra

  /** `cdict.dict(**fields)`: a sum holding the one dict, so that every
      field whose value is a node is fanned out. */
  function DictOf(fields: seq<(string, Field)>): Node
  {
    Sum([Dict(fields)])
  }

  /** `cdict.list(*items)` and `cdict.iter(items)`: a sum over the items. */
  function ListOf(items: seq<Item>): Node
  {
    Sum(items)
  }

  /** `cdict.label(text, separator)`; the source's default separator is
      `"."`. */
  function LabelOf(text: string, sep: string := "."): Value
  {
    Lbl(Label(text, sep))
  }

  /** `node.apply(f)`. */
  function ApplyTo(n: Node, f: Value -> seq<Value>): Node
  {
    Apply(f, n)
  }

  /** `node.map(g)`: an apply whose function yields `g(x)` alone. */
  function MapTo(n: Node, g: Value -> Value): Node
  {
    Apply(x => [g(x)], n)
  }

  /** `node + other`. */
  function Add(n: Node, other: Item): Node
  {
    Sum([Sub(n), other])
  }

  /** `_cdict_product(items)`: every operand must be a node. */
  function MakeProduct(items: seq<Item>): (r: Result<Node, Error>)
    ensures r.Ok? <==> forall i :: 0 <= i < |items| ==> items[i].Sub?
    ensures r.Ok? ==> r.value.Product? && |r.value.factors| == |items|
    ensures r.Ok? ==> forall i :: 0 <= i < |items| ==> r.value.factors[i] == items[i].node
    ensures r.Err? ==> r.error == CannotMultiply
  {
    if forall i :: 0 <= i < |items| ==> items[i].Sub? then
      Ok(Product(seq(|items|, i requires 0 <= i < |items| => items[i].node)))
    else Err(CannotMultiply)
  }

  /** `node * other`. */
  function Mul(n: Node, other: Item): (r: Result<Node, Error>)
    ensures r.Ok? <==> other.Sub?
    ensures other.Sub? ==> r == Ok(Product([n, other.node]))
    ensures r.Err? ==> r.error == CannotMultiply
  {
    var items := [Sub(n), other];
    assert items[0].Sub? && items[1] == other;
    if other.Sub? then
      assert MakeProduct(items).value.factors == [n, other.node];
      MakeProduct(items)
    else MakeProduct(items)
  }

  /** `node | other`. */
  function Zip(n: Node, other: Node): Node
  {
    Or([n, other])
  }

  /** `len(node)`: the number of values one iteration yields, or the error
      it raises. */
  function Len(n: Node): (r: Result<nat, Error>)
    ensures r.Ok? <==> Eval(n).raised.None?
    ensures r.Ok? ==> r.value == |Eval(n).yielded|
    ensures r.Err? ==> Eval(n).raised == Some(r.error)
  {
    Length(Eval(n))
  }

  /** `len` of one run: how many values it yields, or what it raises. */
  function Length(o: Outcome): Result<nat, Error>
  {
    if o.raised.Some? then Err(o.raised.value) else Ok(|o.yielded|)
  }
}
