# cdict: a lazy algebra of record streams, modelled in Dafny

`cdict` builds streams of records (Python dicts) from expressions:

- `cdict.list(...)` / `cdict.iter(...)` and `cdict.dict(k=...)` make sums;
- `+` concatenates;
- `*` takes the cartesian product and merges each combination of records;
- `|` (or) zips equal-length streams and merges each step's records;
- `apply` / `map` flat-map a function over the values;
- a `label` is a combining value: two labels that meet under one key in a product merge into a joined label instead of overwriting each other.

This project models that algebra (all of it lives in `cdict/main.py`) as a pure evaluator.

- `Algebra.Eval` turns an expression node into the trace one iteration of the Python generator produces. A trace is the values yielded, then the error raised, if any, after them.
- Two error cases are part of the trace, raised during iteration:
  - the `safe_zip` length mismatch;
  - `items()` called on a value that is not a dict.
- The `"Cannot multiply"` assertion fires when a product is built, before any iteration. It is the error result of `Cdict.MakeProduct` and `Cdict.Mul`, not part of a trace.
- Records are association lists, so that dict insertion order and "the last write wins" are observable.

Modules, in dependency order:

| file | module | contents |
|---|---|---|
| wrappers.dfy | `Wrappers` | `Option`, `Result` |
| values.dfy | `Values` | values (int, str, label, dict); `str` of an int; label merge and its left fold |
| seqs.dfy | `Seqs` | flat-map; the cartesian product in `itertools.product` order |
| records.dfy | `Records` | `dict(pairs)`, `d[k] = v`, lookups; `merge_combining` and the product's collision rule |
| algebra.dfy | `Algebra` | nodes, traces, `Eval`, the `safe_zip` walk |
| cdict.dfy | `Cdict` | the public constructors and operators, `len` |
| sum_laws.dfy | `SumLaws` | laws of `+`, list, dict fan-out, `apply`, `map` |
| product_laws.dfy | `ProductLaws` | laws of `*` and of key collisions |
| zip_laws.dfy | `ZipLaws` | laws of the zip operator (or) |

Two behaviours of the code worth noting:

- **Plain-value collisions in a product.** Values that are not labels never enter the combining buckets of `merge_combining`. They stay in the plain list, and `dict(...)` then keeps the last of them. So among plain values under one key the last wins, and a key holding any label ends with the left fold of its labels, whatever plain values it also holds.
- **Non-dict values in a product or zip.** A product or zip over values that are not dicts raises when `items()` is called on them. It does not yield anything for that combination.

## Model

| member | source | states |
|---|---|---|
| Values.IntString | cdict/main.py:153 | `str` of an int has a leading minus exactly for negatives, it is non-empty, its digits parse back to the absolute value, and it has no leading zero |
| Values.ParseNatString | cdict/main.py:153 | decimal rendering of a natural number parses back to the number |
| Values.Plus | cdict/main.py:151-155 | `label + other`: the text is the label's text, then its separator, then `str(other)`; the separator is the operand's when the operand is a label, the label's own otherwise |
| Values.MergeAssociative | cdict/main.py:151-155 | merging labels is associative |
| Values.FoldIsJoined | cdict/main.py:141 | the left fold of labels joins every fragment's text with the separator of the fragment before it, and ends with the last fragment's separator |
| Values.FoldSplit | cdict/main.py:141 | folding a concatenation is merging the two folds, so any grouping gives the same label |
| Values.FoldExample | cdict/main.py:160-161 | labels "x", "y", "z" with separator "." fold to "x.y.z" |
| Seqs.FlatMapAppend | cdict/main.py:87-89 | flat-map distributes over concatenation of its input |
| Seqs.FlatMapSingletons | cdict/main.py:28-32 | a flat-map of singletons keeps length and order, element `i` being the image of input `i` |
| Seqs.CartProd | cdict/main.py:102 | the product has as many tuples as the product of the lengths, each with one entry per component |
| Seqs.CartProdMember | cdict/main.py:102 | a tuple is in the product exactly when it picks, in order, one element from each component |
| Seqs.CartProdOrder | cdict/main.py:102 | tuple `i * m + j` is the first component's `i`-th element followed by the `j`-th tuple of the remaining components, so the first component varies slowest |
| Seqs.CartProdPair | cdict/main.py:70 | for two components, tuple `i * len(b) + j` is `[a[i], b[j]]` |
| Records.FirstIndex | cdict/main.py:123 | the first position holding a key holds it, with no earlier occurrence |
| Records.Last | cdict/main.py:123 | the value a dict lookup returns exists exactly when the key occurs |
| Records.LastAppend | cdict/main.py:123 | in a concatenation of pairs the later list shadows the earlier one |
| Records.Put | cdict/main.py:71 | `d[k] = v`: an existing key keeps its place and a new one goes last; `k` now maps to `v` and every other key is unchanged |
| Records.ToDict | cdict/main.py:123 | `dict(pairs)` has distinct keys, exactly the keys of the pairs, and under each key the value written last |
| Records.ToDictOrder | cdict/main.py:123 | the keys of `dict(pairs)` come in the order of their first occurrence |
| Records.ToDictDistinct | cdict/main.py:71 | `dict` of pairs whose keys are already distinct is those pairs unchanged |
| Records.Group | cdict/main.py:132-138 | the combining buckets: one per key holding a label, with distinct keys, each holding every label under its key in input order |
| Records.LabelledKeys | cdict/main.py:134-136 | a key gets a combining bucket exactly when some pair holds a label under it |
| Records.GroupOrder | cdict/main.py:132-141 | the buckets come in the order of each key's first label: their keys are those of `dict` of the labelled pairs |
| Records.GroupFirstLabelOrder | cdict/main.py:132-141 | bucket `i` precedes bucket `j` exactly when the first label under `i`'s key precedes the first label under `j`'s |
| Records.MergeCombining | cdict/main.py:131-143 | keeps the plain pairs in input order and the keys of the input; a key holding labels ends with the left fold of them, any other key with its last value |
| Records.MergeCombiningShape | cdict/main.py:133-143 | the output starts with the plain pairs, untouched and in input order; every later pair holds a label; those keys are distinct and come in the order of their first label |
| Records.PlainKeys | cdict/main.py:134-138 | a key occurs in the input exactly when it occurs among the plain pairs or holds a label |
| Records.Resolve | cdict/main.py:103 | the record of one product combination has distinct keys, exactly the input's keys, label folds on keys holding labels and last values elsewhere |
| Records.ResolveOrder | cdict/main.py:103-143 | the record's keys come in the order of their first occurrence once the plain pairs are put ahead of the labelled ones: a key with a plain value sits at its first plain value, a key holding only labels after all of those, by its first label |
| Records.MergeMovesLabel | cdict/main.py:133-143 | `merge_combining` of a label under `a` then a plain value under `b` puts `b` first |
| Records.LabelMovesBehind | cdict/main.py:103 | the record for a label under `a` followed by a plain value under `b` is `{b: value, a: label}` |
| Algebra.Materialize | cdict/main.py:102 | `itertools.product` reads every input first: it succeeds exactly when no input raises, and then holds every input's values |
| Algebra.ZipKeys | cdict/main.py:71 | the keys of a fanned-out record are the dict's keys in order |
| Algebra.ChainSinglesAll | cdict/main.py:102-103 | a loop whose every row yields one value yields those values in row order |
| Algebra.ChainStopAll | cdict/main.py:102-103 | a loop stops at the first row that raises, after the values of the rows before it |
| Algebra.PullAllSpec | cdict/main.py:111 | one step of `zip_longest` succeeds exactly when every pull does, and holds each iterator's pull in order |
| Algebra.AnyLeftSpec | cdict/main.py:111 | the step continues exactly when some iterator still produced a value |
| Algebra.HeadsSpec | cdict/main.py:112-113 | the step's tuple is free of the sentinel exactly when every iterator produced a value, and then holds those values in order |
| Cdict.MakeProduct | cdict/main.py:96-99 | a product is built exactly when every operand is a node, with those nodes as factors; otherwise it is the "Cannot multiply" error |
| Cdict.Mul | cdict/main.py:40-41 | `a * other` succeeds exactly when `other` is a node, giving the two-factor product; otherwise it is the "Cannot multiply" error |
| Cdict.Len | cdict/main.py:52-53 | `len` is the number of values yielded when the iteration completes, and the iteration's error otherwise |
| SumLaws.ThenAssociative | cdict/main.py:59-62 | running generators one after another is associative |
| SumLaws.ThenAllAppend | cdict/main.py:59-62 | running a concatenation of generators is running the two halves in turn |
| SumLaws.SumAppend | cdict/main.py:59-62 | a sum over concatenated items yields the first part's values then the second's, an error in the first ending it |
| SumLaws.AddEval | cdict/main.py:37-38 | `a + other` runs `a`, then what `other` contributes as a sum item |
| SumLaws.AddNodes | cdict/main.py:37-38 | `A + B` yields `A`'s values then `B`'s, raises `A`'s error before anything of `B`, and `len(A + B) == len(A) + len(B)` |
| SumLaws.AddLen | cdict/main.py:52-53 | lengths add under `+` |
| SumLaws.ListOfPlain | cdict/main.py:72-73 | non-dict values pass through a list unchanged and in order |
| SumLaws.DictFanOut | cdict/main.py:63-71 | a dict whose field streams complete yields one record per combination: the product of the stream lengths (a constant counting as one), in `itertools.product` order, each record with the dict's keys in order |
| SumLaws.DictRecordFields | cdict/main.py:65-71 | each fanned-out record pairs field `j`'s key with a value from field `j`'s stream |
| SumLaws.DictFails | cdict/main.py:69-70 | a field stream that raises makes the dict yield nothing and raise the first such error |
| SumLaws.DictPair | cdict/main.py:70-71 | for two fields, record `i * len(ys) + j` pairs the first key with `xs[i]` and the second with `ys[j]` |
| SumLaws.DictTwoByTwo | cdict/main.py:70-71 | two fields over two-element streams yield four records, the second field varying fastest |
| SumLaws.DictExample | cdict/main.py:10-11 | `dict(a=list(1,2), b=list(10,20))` yields {a:1,b:10}, {a:1,b:20}, {a:2,b:10}, {a:2,b:20} |
| SumLaws.ApplyOverAdd | cdict/main.py:87-89 | applying to a sum is the sum of the applications |
| SumLaws.MapEval | cdict/main.py:28-32 | `map(g)` keeps length and order and the inner error, value `i` being `g` of inner value `i` |
| SumLaws.MapExample | cdict/main.py:28-32 | `list(1, 2, 3).map(x * 2)` yields 2, 4, 6 |
| SumLaws.ApplyExample | cdict/main.py:25-26 | `list(1, 2).apply(lambda x: [x, x])` yields 1, 1, 2, 2 |
| ProductLaws.ProductEval | cdict/main.py:101-103 | a product of factors that complete with dicts yields one record per combination, as many as the product of the lengths, in `itertools.product` order, each the resolved merge of its combination |
| ProductLaws.ProductFails | cdict/main.py:102 | a raising factor makes the product yield nothing and raise the first factor's error |
| ProductLaws.ProductRowsStop | cdict/main.py:103 | the first combination holding a non-dict ends the product with that error, after the records before it |
| ProductLaws.CombinedKeys | cdict/main.py:103 | a merged record holds each key of the combined dicts exactly once, and no other |
| ProductLaws.PairProduct | cdict/main.py:102-103 | a two-factor product yields the merged record of every pair, in nested-loop order |
| ProductLaws.MulEval | cdict/main.py:40-41 | `a * b` is accepted for nodes, and its record `i * len(ys) + j` merges `a`'s record `i` with `b`'s record `j` |
| ProductLaws.EmptyProduct | cdict/main.py:102 | a product of no factors yields one empty record |
| ProductLaws.ResolveCollision | cdict/main.py:131-143 | on a key written twice, two labels merge in order, a label beats a plain value on either side, and of two plain values the second wins |
| ProductLaws.MulCollision | cdict/main.py:101-103 | `a * b` on single-record nodes sharing their key yields the record that collision rule gives |
| ProductLaws.LabelKeyLast | cdict/main.py:101-103 | `{a: label} * {b: 1}` yields `{b: 1, a: label}`: the key holding only a label moves behind the plain one |
| ZipLaws.ColumnSpec | cdict/main.py:111 | when every operand has a value at a step, the step's tuple holds each operand's value in operand order |
| ZipLaws.ZipStep | cdict/main.py:121-123 | a step at which every operand has a value yields that step's record, then goes on |
| ZipLaws.ZipEnd | cdict/main.py:111-113 | once the shortest operand runs out, the walk stops when all have run out and raises the length mismatch otherwise |
| ZipLaws.ZipRun | cdict/main.py:109-114 | when the shortest operands complete (a longer one may raise later), the walk yields the rows of the steps of the shortest and then stops or raises the mismatch |
| ZipLaws.ZipRaises | cdict/main.py:111 | an operand that raises at a step, when every earlier operand pulls there without raising, ends the walk with its error after the earlier steps' rows |
| ZipLaws.ExhaustedBeforeRaise | cdict/main.py:111-113 | an operand that has just run out does not hide the error a later operand raises at the same step |
| ZipLaws.OrTraces | cdict/main.py:121-123 | when the shortest traces complete (a longer one may raise later), the zip yields one record per step of the shortest trace, each `dict` of the step's records, and ends cleanly exactly when all lengths agree |
| ZipLaws.OrEval | cdict/main.py:121-123 | A zip `a` or `b` or ... over completing dict streams yields as many records as the shortest, each the step's merged record, cleanly exactly when the lengths agree and with the length mismatch otherwise |
| ZipLaws.LongerOperandRaises | cdict/main.py:109-114 | one dict against three dicts and an error: one record, then the length mismatch; the longer operand's error is never reached |
| ZipLaws.OrEmpty | cdict/main.py:111 | a zip of no operands yields nothing |
| ZipLaws.PairZip | cdict/main.py:123 | two equal-length traces zip to records whose `i`-th is `dict` of both `i`-th records' items, the second winning on shared keys |
| ZipLaws.ShortZip | cdict/main.py:112-113 | when the second trace is shorter, the zip yields its length in records and then raises the mismatch |
| ZipLaws.ZipTwo | cdict/main.py:43-44 | The zip of `a` and `b` on equal-length dict streams: record `i` is `a`'s record `i` overwritten by `b`'s |
| ZipLaws.ZipShorter | cdict/main.py:43-44 | The zip of `a` and `b` with `b` shorter yields `len(b)` records and raises the length mismatch |

## Left out

- `__repr__` and `__repr_helper__` (cdict/main.py:46-50, 75-79, 91-92, 105-106, 125-126, 157-158): debug rendering. It depends on Python's `str` of arbitrary objects and functions.
- Laziness and one-shot iterables. `cdict.iter(it)` takes a finite sequence of items. A generator that can be consumed only once, and an infinite one, are not modelled. `Eval` is pure, so evaluating a node twice gives the same trace.
- The abstract base `__iter__` and `__repr_helper__` that raise `NotImplementedError` (cdict/main.py:34-35, 46-47). Nodes form a closed datatype, so there is no node without an `__iter__`.
- `functools.wraps` in `map` (cdict/main.py:29): it only copies function metadata.
- Arbitrary Python objects. Values are ints, strings, labels and dicts. Other objects pass through a sum unchanged, as ints and strings do.
- Values.Plus: `label + d` for a dict `d` is not modelled. It would need Python's `repr` of a dict.
- `apply` and `map` functions are total, pure Dafny functions. Their exceptions and side effects are not modelled.
- The zip operator `__or__` with an operand `other` is a plain iterable rather than a node. The source would zip it like any iterable; `Cdict.Zip` takes node operands only.
- Python's exception types are reduced to three errors:
  - `CannotMultiply` for the `AssertionError`;
  - `LengthMismatch` for the `ValueError`;
  - `NotARecord` for the `AttributeError` of `items()` on a non-dict.
- Non-string record keys. Keys in `Values.Rec` and `Records.Pairs` are strings. A raw dict such as `cdict.list({1: "x"})` may have other keys in Python, and those would flow through sum, product and zip.
- Dict items and records with a repeated key. A Python dict cannot hold a key twice, but `Algebra.Item` and `Values.Rec` are lists of pairs and can. Such a list stands for no Python dict. The evaluator still gives it a meaning: a dict item fans out every field, and `dict(...)` keeps the last value under a repeated key. The dict laws (`SumLaws.DictFanOut` and the lemmas after it) assume distinct keys, as every Python dict has.
- ProductLaws.ProductEval, ZipLaws.OrEval: stated for factors and operands that complete and yield dicts only. Raising factors are covered by ProductLaws.ProductFails. For zips, ZipLaws.ZipRaises covers an operand that raises at the shortest length, and ZipLaws.ZipRun and ZipLaws.OrTraces cover a longer operand that raises after its values. Non-dict values are covered by ProductLaws.ProductRowsStop; no zip-level lemma is stated for them.
