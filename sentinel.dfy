/** The structural conformance check `validate(schema, data)`: two values conform
    when they have the same runtime type at every position the check visits, lists
    have equal lengths and dicts have equal key sets. Scalar and tuple contents are
    never compared. */
module Sentinel {
  import opened Values

  /** Which of the three assertions stopped the check. */
  datatype FailKind =
    | TypeMismatch    // the runtime types differ
    | LengthMismatch  // two lists of different lengths
    | KeySetMismatch  // two dicts with different key sets

  /** A failed assertion, and the indices and keys of the recursive calls that
      were active when it failed, outermost first. */
  datatype Failure = Failure(kind: FailKind, path: seq<Segment>)

  /** The result of one call: it returns normally, or an assertion aborts it. */
  datatype Outcome = Pass | Fail(failure: Failure)

  /** The failure of a nested call, seen from the caller that made it at `seg`. */
  function Nest(seg: Segment, f: Failure): Failure
  {
    Failure(f.kind, [seg] + f.path)
  }

  /** The check as the source runs it: type first, then the list length or the
      key set, then the children in order; the first failed assertion aborts. */
  function Validate(schema: Value, data: Value): Outcome
    decreases schema, 1
  {
    if TagOf(schema) != TagOf(data) then Fail(Failure(TypeMismatch, []))
    else match schema
      case VList(xs) =>
        if |xs| != |data.items| then Fail(Failure(LengthMismatch, []))
        else ValidateItems(schema, data, 0)
      case VDict(es) =>
        if KeysOf(es) != KeysOf(data.entries) then Fail(Failure(KeySetMismatch, []))
        else ValidateFields(schema, data, 0)
      case _ => Pass
  }

  /** The loop over the items of the two lists, paired by index, from index `i` on. */
  function ValidateItems(schema: Value, data: Value, i: nat): Outcome
    requires schema.VList? && data.VList? && |schema.items| == |data.items|
    requires i <= |schema.items|
    decreases schema, 0, |schema.items| - i
  {
    if i == |schema.items| then Pass
    else match Validate(schema.items[i], data.items[i])
      case Fail(f) => Fail(Nest(Index(i), f))
      case Pass => ValidateItems(schema, data, i + 1)
  }

  /** The loop over the schema dict's keys in their order, from the `i`-th key
      on; each key is looked up in both dicts. */
  function ValidateFields(schema: Value, data: Value, i: nat): Outcome
    requires schema.VDict? && data.VDict? && KeysOf(schema.entries) == KeysOf(data.entries)
    requires i <= |schema.entries|
    decreases schema, 0, |schema.entries| - i
  {
    if i == |schema.entries| then Pass
    else
      var k := schema.entries[i].key;
      match Validate(ValueAt(schema.entries, k), ValueAt(data.entries, k))
      case Fail(f) => Fail(Nest(Field(k), f))
      case Pass => ValidateFields(schema, data, i + 1)
  }

  /** Conformance stated declaratively, with no order of checks: the reference
      definition `Validate` is proved against. */
  predicate Conforms(schema: Value, data: Value)
    decreases schema
  {
    && TagOf(schema) == TagOf(data)
    && match schema
       case VList(xs) =>
         && |xs| == |data.items|
         && forall i :: 0 <= i < |xs| ==> Conforms(xs[i], data.items[i])
       case VDict(es) =>
         && KeysOf(es) == KeysOf(data.entries)
         && forall k :: k in KeysOf(es) ==> Conforms(ValueAt(es, k), ValueAt(data.entries, k))
       case _ => true
  }

  /** The local checks of one call, without recursion. */
  predicate LocallyConforms(x: Value, y: Value)
  {
    && TagOf(x) == TagOf(y)
    && (x.VList? ==> |x.items| == |y.items|)
    && (x.VDict? ==> KeysOf(x.entries) == KeysOf(y.entries))
  }

  /** What a failure of the given kind says about the two values it was raised on. */
  predicate Violates(kind: FailKind, x: Value, y: Value)
  {
    match kind
    case TypeMismatch => TagOf(x) != TagOf(y)
    case LengthMismatch => x.VList? && y.VList? && |x.items| != |y.items|
    case KeySetMismatch => x.VDict? && y.VDict? && KeysOf(x.entries) != KeysOf(y.entries)
  }

  /** The keys of a dict in iteration order; they are exactly its key set. */
  function KeyList(es: seq<Entry>): (ks: seq<Key>)
    ensures forall x :: x in ks <==> x in KeysOf(es)
  {
    var ks := seq(|es|, i requires 0 <= i < |es| => es[i].key);
    assert forall x :: x in KeysOf(es) ==> x in ks by {
      forall x | x in KeysOf(es) ensures x in ks {
        var i := IndexOfKey(es, x);
        assert ks[i] == x;
      }
    }
    ks
  }

  /** Whether Python 3's `sorted` can order these keys: two or more keys must all
      be ints or all be strings; `None` orders with nothing, not even itself. */
  predicate SortableKeys(es: seq<Entry>)
  {
    || |es| < 2
    || (forall i :: 0 <= i < |es| ==> es[i].key.KInt?)
    || (forall i :: 0 <= i < |es| ==> es[i].key.KStr?)
  }

  /** The key comparison as the source writes it, which sorts the key list of each
      dict and compares the two sorted lists: `None` when either sort raises
      `TypeError`, otherwise whether the sorted lists are equal, which for a total
      order is whether they hold the same keys the same number of times. When it
      accepts, the two dicts have the same key set. */
  function SortedKeysEqual(schemaEntries: seq<Entry>, dataEntries: seq<Entry>): (r: Option<bool>)
    ensures r == Some(true) ==> KeysOf(schemaEntries) == KeysOf(dataEntries)
  {
    if !SortableKeys(schemaEntries) || !SortableKeys(dataEntries) then None
    else
      var same := multiset(KeyList(schemaEntries)) == multiset(KeyList(dataEntries));
      assert same ==> KeysOf(schemaEntries) == KeysOf(dataEntries) by {
        if same {
          forall x ensures x in KeysOf(schemaEntries) <==> x in KeysOf(dataEntries) {
            assert x in KeyList(schemaEntries) <==> x in multiset(KeyList(schemaEntries));
            assert x in KeyList(dataEntries) <==> x in multiset(KeyList(dataEntries));
          }
        }
      }
      Some(same)
  }

  /** No key occurs twice, as in every Python dict. */
  predicate DistinctKeys(es: seq<Entry>)
  {
    forall i, j :: 0 <= i < j < |es| ==> es[i].key != es[j].key
  }
}
