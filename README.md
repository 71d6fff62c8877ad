# sentinel: structural conformance check

`sentinel.py` defines one function, `validate(schema, data)`. It walks two Python
values in lockstep and aborts with an `AssertionError` on the first mismatch:

- the runtime types must be identical (`bool` is not `int`);
- two lists must have the same length, and each item must conform to the item at
  the same index;
- two dicts must have the same keys, and the values under each key must conform;
- anything else, scalars and tuples alike, is compared by type only.

The model lives in three modules:

- `Values` (`values.dfy`): Python values as a datatype. It has tagged scalars (int,
  bool, str, `None`, float as a bare tag), tuples (kept but never entered), lists,
  and dicts as their entries in insertion order. It also has dict keys, the key set
  of a dict, lookup by key, and paths of indices and keys into a value.
- `Sentinel` (`sentinel.dfy`): `Validate`, the check in the order the source runs
  it. A failure names which assertion fired (type, list length or dict key set). It
  also names the indices and keys of the recursive calls active at that moment.
  `Conforms` is a declarative reference definition with no order of checks.
  `SortedKeysEqual` is the source's key comparison as written (see Findings).
- `Properties` (`properties.dfy`): the lemmas.

Everything is a pure function over immutable values, as the source's function is.
Nothing is modified, and termination is checked by Dafny. Every recursive call is
on an item of a list or a value of a dict, so the recursion goes down both
arguments structurally.

## Model

| member | source | states |
|---|---|---|
| `Properties.ValidateAgreesWithConforms` | sentinel.py:1-10 | the check passes exactly when the runtime types match, lists have equal length with every item pair conforming, and dicts have equal key sets with the two values under every key conforming |
| `Properties.ItemsAgreeWithConforms` | sentinel.py:5-6 | the loop over the paired list items, from any index on, passes exactly when every remaining item pair conforms |
| `Properties.FieldsAgreeWithConforms` | sentinel.py:9-10 | the loop over the schema's keys, from any position on, passes exactly when the values under every remaining key conform |
| `Properties.FailureIsGenuine` | sentinel.py:2-10 | every reported failure has a path that exists in both arguments and leads to two values on which the failed assertion (type, length or key set) is false |
| `Properties.ConformsAtEveryPosition` | sentinel.py:2-10 | if two values conform, then every position of the schema exists in the data, with the same runtime type, the same list length and the same dict key set |
| `Properties.LocallyConformingEverywhereConforms` | sentinel.py:2-10 | conversely, agreement in type, length and key set at every position of the schema makes the two values conform |
| `Properties.TypeMismatchAnywhereFails` | sentinel.py:2 | if the runtime types differ at any position present in both values, the check fails |
| `Properties.ScalarsConformByTypeAlone` | sentinel.py:2 | a value that is neither list nor dict passes exactly when the other value has the same runtime type |
| `Properties.ListOutcome` | sentinel.py:3-6 | lists of unequal length fail with a length failure at the list itself, whatever their items; lists of equal length pass exactly when every index passes, and a failure is the first failing index's, reported under that index |
| `Properties.ItemsReportFirstFailure` | sentinel.py:5-6 | the item loop returns the failure of the first failing index from its start, under that index, and passes only if every index passes |
| `Properties.DictOutcome` | sentinel.py:7-10 | dicts with different key sets fail with a key-set failure at the dict itself, whatever their values; otherwise they pass exactly when every key passes, and a failure is that of the first failing key in the schema's order, reported under that key |
| `Properties.FieldsReportFirstFailure` | sentinel.py:9-10 | the key loop returns the failure of the first failing key from its start, under that key, and passes only if every key passes |
| `Properties.ValidateSeesOnlyShape` | sentinel.py:2-10 | the outcome, failure path included, is unchanged when every scalar is replaced by a fixed value of its type and every tuple is emptied: values and tuple contents are never compared |
| `Properties.SameShapesSameOutcome` | sentinel.py:2-10 | arguments with the same shapes get the same outcome, so `(1, 2)` against `('a',)` passes |
| `Properties.ConformsReflexive` | sentinel.py:2-10 | every value conforms to itself |
| `Properties.ConformsSymmetric` | sentinel.py:2-10 | conformance is symmetric |
| `Properties.ConformsTransitive` | sentinel.py:2-10 | conformance is transitive |
| `Properties.ValidateReflexive` | sentinel.py:1-10 | every value passes the check against itself |
| `Properties.ValidateSymmetric` | sentinel.py:1-10 | swapping schema and data does not change whether the check passes |
| `Properties.ValidateTransitive` | sentinel.py:1-10 | if a passes against b and b against c, then a passes against c |
| `Values.KeysOf` | sentinel.py:8 | the key of every entry of a dict is in its key set |
| `Values.IndexOfKey` | sentinel.py:8 | every key in the key set of a dict is the key of one of its entries, and the lemma gives that entry's index |
| `Values.ValueAt` | sentinel.py:10 | looking up a key the dict holds gives the value of an entry with that key |
| `Sentinel.SortedKeysEqual` | sentinel.py:8 | when the key comparison as written accepts two dicts, they have the same key set |
| `Properties.SortedKeysAgreeWithKeySets` | sentinel.py:8 | for dicts (distinct keys) whose keys can be sorted, comparing the sorted key lists is comparing the key sets |
| `Properties.UnsortableDictFailsAgainstItself` | sentinel.py:8 | a dict whose keys cannot be sorted fails the key comparison as written even against itself, while the key-set comparison passes it |
| `Properties.MixedKeyDictFailsAgainstItself` | sentinel.py:8 | `{1: 0, 'a': 0}` fails the key comparison as written against itself and passes the corrected check |

## Left out

- Exceptions are not modelled as such. The `AssertionError` of a failed check is a `Fail` outcome. Asserts being stripped under `python -O` is not modelled.
- The source reports no path: a bare `assert` carries no message. A traceback shows the nested `validate` frames and which assertion failed, but not the list index or dict key at each frame. The index or key in the model's failure path is the model's addition, fixed by the loops' first-failure order.
- `Validate` does not raise on keys `sorted` cannot order: it compares key sets (see Findings). Only `Sentinel.SortedKeysEqual` models the `TypeError`.
- The model follows Python 3 throughout. Under Python 2, `str` and `unicode`, and `int` and `long`, are distinct types for `type(x) is type(y)`; the model has one string type and one int type.
- `type(x) is type(y)` is modelled over a closed set of types: int, bool, str, `None`, float, tuple, list and dict. Other classes are not modelled. Neither are subclasses of list or dict, which the source does not descend into.
- Float values are a bare type tag, since no arithmetic or comparison is made on them.
- Dict keys are ints, strings and `None`. A bool key is its int, because Python treats `True` and `1` as the same key. Float keys and tuple keys are left out.
- A sequence of entries with a repeated key is not a Python dict. The model's lookups take its first entry with the key.
- Values are finite trees. A list that contains itself, or nesting deep enough to hit Python's recursion limit, is not modelled.
- The class-based validator that the test file exercises is not part of this model: `Schema`, `ValueSchema`, `ListSchema`, `ListConfig`, `TupleSchema`, `DictConfig`, `Problem`, `build_schema` and `config_key`. None of them is defined in `sentinel.py`.
- `Properties.ValidateSymmetric`: only whether the check passes is symmetric. Which failure is reported can differ, because dict keys are visited in the schema's order.

## Findings

| source | as written | input that shows it | evidently intended | confidence | as-written member | corrected member |
|---|---|---|---|---|---|---|
| sentinel.py:8 | compares the sorted key lists of the two dicts; under Python 3, `sorted` raises `TypeError` when a dict has both int and str keys, or `None` beside any other key | `validate({1: 0, 'a': 0}, {1: 0, 'a': 0})` raises instead of passing | compare the key sets, so that every dict conforms to itself. The evidence is indirect: the class-based validator in the same project, which this model does not cover, is expected to accept the mixed int and str key dict at tests.py:180-185 against itself (tests.py:187-191). The `TypeError` arises only under Python 3's `sorted`; Python 2 ordered mixed types | high; not executed | `Sentinel.SortedKeysEqual`, `Properties.MixedKeyDictFailsAgainstItself` | `Sentinel.Validate` (key-set comparison), `Properties.ValidateReflexive` |
