/** Python values as the conformance checker sees them: a closed set of runtime
    types, lists and dicts that it descends into, and everything else compared by
    type alone. */
module Values {

  datatype Option<+T> = None | Some(value: T)

  /** Dictionary keys. Python treats `True` and `False` as the keys `1` and `0`
      (equal under `==` and with equal hashes), so a bool key is a `KInt`. */
  datatype Key = KInt(n: int) | KStr(s: string) | KNone

  /** A Python value. Floats matter only through their type, so `VFloat` carries
      no payload; a tuple is kept whole but is never looked into. A dict is its
      entries in insertion order. */
  datatype Value =
    | VInt(n: int)
    | VBool(b: bool)
    | VStr(s: string)
    | VNone
    | VFloat
    | VTuple(elems: seq<Value>)
    | VList(items: seq<Value>)
    | VDict(entries: seq<Entry>)

  datatype Entry = Entry(key: Key, val: Value)

  /** The runtime type of a value, `type(x)` in Python. Bool is its own type. */
  datatype Tag = TInt | TBool | TStr | TNone | TFloat | TTuple | TList | TDict

  function TagOf(v: Value): Tag
  {
    match v
    case VInt(_) => TInt
    case VBool(_) => TBool
    case VStr(_) => TStr
    case VNone => TNone
    case VFloat => TFloat
    case VTuple(_) => TTuple
    case VList(_) => TList
    case VDict(_) => TDict
  }

  /** The key set of a dict. */
  function KeysOf(es: seq<Entry>): (ks: set<Key>)
    ensures forall i :: 0 <= i < |es| ==> es[i].key in ks
  {
    if es == [] then {} else {es[0].key} + KeysOf(es[1..])
  }

  /** Every key of the key set is the key of some entry. */
  lemma {:induction false} IndexOfKey(es: seq<Entry>, k: Key) returns (i: nat)
    requires k in KeysOf(es)
    ensures i < |es| && es[i].key == k
  {
    if es[0].key == k {
      i := 0;
    } else {
      var j := IndexOfKey(es[1..], k);
      i := j + 1;
    }
  }

  /** Entry sequences with the same keys at the same positions have the same key set. */
  lemma {:induction false} SameKeysSameKeySet(es: seq<Entry>, ds: seq<Entry>)
    requires |es| == |ds| && forall i :: 0 <= i < |es| ==> es[i].key == ds[i].key
    ensures KeysOf(es) == KeysOf(ds)
  {
    if es != [] {
      SameKeysSameKeySet(es[1..], ds[1..]);
    }
  }

  /** `d[k]` for a key the dict holds: the value of the first entry with that key. */
  function ValueAt(es: seq<Entry>, k: Key): (v: Value)
    requires k in KeysOf(es)
    ensures Entry(k, v) in es
  {
    if es[0].key == k then es[0].val
    else ValueAt(es[1..], k)
  }

  /** One step into a value: an index into a list or a key of a dict. */
  datatype Segment = Index(i: nat) | Field(k: Key)

  /** The sub-value the conformance check reaches by following `p`, if any.
      Tuples are never entered. */
  function At(v: Value, p: seq<Segment>): Option<Value>
    decreases |p|
  {
    if p == [] then Some(v)
    else match p[0]
      case Index(i) =>
        if v.VList? && i < |v.items| then At(v.items[i], p[1..]) else None
      case Field(k) =>
        if v.VDict? && k in KeysOf(v.entries) then At(ValueAt(v.entries, k), p[1..]) else None
  }
}
