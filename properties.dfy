/** What the conformance check guarantees: it agrees with the declarative
    definition, it reports a failure that really is there, it looks only at types,
    lengths and key sets, and conformance is an equivalence relation. */
module Properties {
  import opened Values
  import opened Sentinel

  // ---------------------------------------------------------------------------
  // Validate against the declarative definition

  /** The check passes exactly on the pairs that conform. */
  lemma {:induction false} ValidateAgreesWithConforms(schema: Value, data: Value)
    ensures Validate(schema, data) == Pass <==> Conforms(schema, data)
    decreases schema, 1
  {
    if TagOf(schema) == TagOf(data) {
      match schema
      case VList(xs) =>
        if |xs| == |data.items| {
          ItemsAgreeWithConforms(schema, data, 0);
        }
      case VDict(es) =>
        if KeysOf(es) == KeysOf(data.entries) {
          FieldsAgreeWithConforms(schema, data, 0);
          if forall j :: 0 <= j < |es| ==> FieldConforms(es, data.entries, j) {
            forall k | k in KeysOf(es) ensures Conforms(ValueAt(es, k), ValueAt(data.entries, k)) {
              var j := IndexOfKey(es, k);
              assert FieldConforms(es, data.entries, j);
            }
          }
        }
      case _ =>
    }
  }

  lemma {:induction false} ItemsAgreeWithConforms(schema: Value, data: Value, i: nat)
    requires schema.VList? && data.VList? && |schema.items| == |data.items|
    requires i <= |schema.items|
    ensures ValidateItems(schema, data, i) == Pass <==>
            forall j :: i <= j < |schema.items| ==> Conforms(schema.items[j], data.items[j])
    decreases schema, 0, |schema.items| - i
  {
    if i < |schema.items| {
      ValidateAgreesWithConforms(schema.items[i], data.items[i]);
      ItemsAgreeWithConforms(schema, data, i + 1);
    }
  }

  /** The values under the `j`-th key of the schema dict conform. */
  predicate FieldConforms(es: seq<Entry>, ds: seq<Entry>, j: nat)
    requires KeysOf(es) == KeysOf(ds) && j < |es|
  {
    Conforms(ValueAt(es, es[j].key), ValueAt(ds, es[j].key))
  }

  lemma {:induction false} FieldsAgreeWithConforms(schema: Value, data: Value, i: nat)
    requires schema.VDict? && data.VDict? && KeysOf(schema.entries) == KeysOf(data.entries)
    requires i <= |schema.entries|
    ensures ValidateFields(schema, data, i) == Pass <==>
            forall j :: i <= j < |schema.entries| ==> FieldConforms(schema.entries, data.entries, j)
    decreases schema, 0, |schema.entries| - i
  {
    var es, ds := schema.entries, data.entries;
    if i < |es| {
      var k := es[i].key;
      ValidateAgreesWithConforms(ValueAt(es, k), ValueAt(ds, k));
      FieldsAgreeWithConforms(schema, data, i + 1);
      assert FieldConforms(es, ds, i) <==> FieldOutcome(es, ds, i) == Pass;
      assert ValidateFields(schema, data, i) ==
        if FieldOutcome(es, ds, i) == Pass then ValidateFields(schema, data, i + 1)
        else Fail(Nest(Field(k), FieldOutcome(es, ds, i).failure));
    }
  }

  // ---------------------------------------------------------------------------
  // A reported failure is real

  /** Following the path of a failure from both arguments reaches two values on
      which the assertion of that kind is false. */
  predicate Genuine(schema: Value, data: Value, f: Failure)
  {
    && At(schema, f.path).Some?
    && At(data, f.path).Some?
    && Violates(f.kind, At(schema, f.path).value, At(data, f.path).value)
  }

  lemma AtIndex(v: Value, i: nat, p: seq<Segment>)
    requires v.VList? && i < |v.items|
    ensures At(v, [Index(i)] + p) == At(v.items[i], p)
  {
  }

  lemma AtField(v: Value, k: Key, p: seq<Segment>)
    requires v.VDict? && k in KeysOf(v.entries)
    ensures At(v, [Field(k)] + p) == At(ValueAt(v.entries, k), p)
  {
  }

  /** Every failure the check reports names a position of both arguments where
      the failed assertion is indeed false. */
  lemma {:induction false} FailureIsGenuine(schema: Value, data: Value)
    ensures Validate(schema, data).Fail? ==> Genuine(schema, data, Validate(schema, data).failure)
    decreases schema, 1
  {
    if TagOf(schema) == TagOf(data) {
      match schema
      case VList(xs) =>
        if |xs| == |data.items| {
          ItemsFailureIsGenuine(schema, data, 0);
        }
      case VDict(es) =>
        if KeysOf(es) == KeysOf(data.entries) {
          FieldsFailureIsGenuine(schema, data, 0);
        }
      case _ =>
    }
  }

  lemma {:induction false} ItemsFailureIsGenuine(schema: Value, data: Value, i: nat)
    requires schema.VList? && data.VList? && |schema.items| == |data.items|
    requires i <= |schema.items|
    ensures ValidateItems(schema, data, i).Fail? ==> Genuine(schema, data, ValidateItems(schema, data, i).failure)
    decreases schema, 0, |schema.items| - i
  {
    if i < |schema.items| {
      match Validate(schema.items[i], data.items[i])
      case Fail(f) =>
        FailureIsGenuine(schema.items[i], data.items[i]);
        AtIndex(schema, i, f.path);
        AtIndex(data, i, f.path);
      case Pass =>
        ItemsFailureIsGenuine(schema, data, i + 1);
    }
  }

  lemma {:induction false} FieldsFailureIsGenuine(schema: Value, data: Value, i: nat)
    requires schema.VDict? && data.VDict? && KeysOf(schema.entries) == KeysOf(data.entries)
    requires i <= |schema.entries|
    ensures ValidateFields(schema, data, i).Fail? ==> Genuine(schema, data, ValidateFields(schema, data, i).failure)
    decreases schema, 0, |schema.entries| - i
  {
    if i < |schema.entries| {
      var k := schema.entries[i].key;
      match Validate(ValueAt(schema.entries, k), ValueAt(data.entries, k))
      case Fail(f) =>
        FailureIsGenuine(ValueAt(schema.entries, k), ValueAt(data.entries, k));
        AtField(schema, k, f.path);
        AtField(data, k, f.path);
      case Pass =>
        FieldsFailureIsGenuine(schema, data, i + 1);
    }
  }

  // ---------------------------------------------------------------------------
  // Conformance position by position

  /** Conforming values agree in type, list length and key set at every position
      of the schema, and every such position exists in the data. */
  lemma {:induction false} ConformsAtEveryPosition(schema: Value, data: Value, p: seq<Segment>)
    requires Conforms(schema, data) && At(schema, p).Some?
    ensures At(data, p).Some? && LocallyConforms(At(schema, p).value, At(data, p).value)
    decreases |p|
  {
    if p != [] {
      match p[0]
      case Index(i) =>
        ConformsAtEveryPosition(schema.items[i], data.items[i], p[1..]);
      case Field(k) =>
        ConformsAtEveryPosition(ValueAt(schema.entries, k), ValueAt(data.entries, k), p[1..]);
    }
  }

  /** Conversely, agreement at every position of the schema is conformance. */
  lemma {:induction false} LocallyConformingEverywhereConforms(schema: Value, data: Value)
    requires forall p :: At(schema, p).Some? ==>
               At(data, p).Some? && LocallyConforms(At(schema, p).value, At(data, p).value)
    ensures Conforms(schema, data)
    decreases schema
  {
    assert At(schema, []).Some?;
    match schema
    case VList(xs) =>
      forall i | 0 <= i < |xs| ensures Conforms(xs[i], data.items[i]) {
        forall q | At(xs[i], q).Some?
          ensures At(data.items[i], q).Some? && LocallyConforms(At(xs[i], q).value, At(data.items[i], q).value)
        {
          AtIndex(schema, i, q);
          AtIndex(data, i, q);
        }
        LocallyConformingEverywhereConforms(xs[i], data.items[i]);
      }
    case VDict(es) =>
      forall k | k in KeysOf(es) ensures Conforms(ValueAt(es, k), ValueAt(data.entries, k)) {
        forall q | At(ValueAt(es, k), q).Some?
          ensures At(ValueAt(data.entries, k), q).Some?
          ensures LocallyConforms(At(ValueAt(es, k), q).value, At(ValueAt(data.entries, k), q).value)
        {
          AtField(schema, k, q);
          AtField(data, k, q);
        }
        LocallyConformingEverywhereConforms(ValueAt(es, k), ValueAt(data.entries, k));
      }
    case _ =>
  }

  /** Two values whose runtime types differ at a position both of them have never
      pass the check. */
  lemma TypeMismatchAnywhereFails(schema: Value, data: Value, p: seq<Segment>)
    requires At(schema, p).Some? && At(data, p).Some?
    requires TagOf(At(schema, p).value) != TagOf(At(data, p).value)
    ensures Validate(schema, data).Fail?
  {
    ValidateAgreesWithConforms(schema, data);
    if Conforms(schema, data) {
      ConformsAtEveryPosition(schema, data, p);
    }
  }

  // ---------------------------------------------------------------------------
  // Only types, lengths and key sets matter

  /** The shape of a value: every scalar replaced by a fixed one of its type and
      every tuple emptied; lists, dicts and keys are kept. */
  function Erase(v: Value): (r: Value)
    ensures TagOf(r) == TagOf(v)
    ensures r.VList? ==> |r.items| == |v.items|
    ensures r.VDict? ==> KeysOf(r.entries) == KeysOf(v.entries)
  {
    match v
    case VInt(_) => VInt(0)
    case VBool(_) => VBool(false)
    case VStr(_) => VStr("")
    case VTuple(_) => VTuple([])
    case VList(xs) => VList(seq(|xs|, i requires 0 <= i < |xs| => Erase(xs[i])))
    case VDict(es) =>
      var es' := seq(|es|, i requires 0 <= i < |es| => Entry(es[i].key, Erase(es[i].val)));
      SameKeysSameKeySet(es', es);
      VDict(es')
    case _ => v
  }

  lemma {:induction false} EraseValueAt(es: seq<Entry>, k: Key)
    requires k in KeysOf(es)
    ensures k in KeysOf(Erase(VDict(es)).entries)
    ensures ValueAt(Erase(VDict(es)).entries, k) == Erase(ValueAt(es, k))
    decreases |es|
  {
    var es' := Erase(VDict(es)).entries;
    assert |es'| == |es| && forall i :: 0 <= i < |es| ==> es'[i] == Entry(es[i].key, Erase(es[i].val));
    if es[0].key == k {
      assert ValueAt(es', k) == es'[0].val;
    } else {
      var tail := Erase(VDict(es[1..])).entries;
      assert es'[1..] == tail;
      EraseValueAt(es[1..], k);
      assert ValueAt(es', k) == ValueAt(tail, k);
    }
  }

  /** The check gives the same outcome on the shapes of its arguments as on the
      arguments themselves: no scalar value and no tuple element is ever compared. */
  lemma {:induction false} ValidateSeesOnlyShape(schema: Value, data: Value)
    ensures Validate(Erase(schema), Erase(data)) == Validate(schema, data)
    decreases schema, 1
  {
    if TagOf(schema) == TagOf(data) {
      match schema
      case VList(xs) =>
        if |xs| == |data.items| {
          ItemsSeeOnlyShape(schema, data, 0);
        }
      case VDict(es) =>
        if KeysOf(es) == KeysOf(data.entries) {
          FieldsSeeOnlyShape(schema, data, 0);
        }
      case _ =>
    }
  }

  lemma {:induction false} ItemsSeeOnlyShape(schema: Value, data: Value, i: nat)
    requires schema.VList? && data.VList? && |schema.items| == |data.items|
    requires i <= |schema.items|
    ensures ValidateItems(Erase(schema), Erase(data), i) == ValidateItems(schema, data, i)
    decreases schema, 0, |schema.items| - i
  {
    if i < |schema.items| {
      ValidateSeesOnlyShape(schema.items[i], data.items[i]);
      ItemsSeeOnlyShape(schema, data, i + 1);
    }
  }

  lemma {:induction false} FieldsSeeOnlyShape(schema: Value, data: Value, i: nat)
    requires schema.VDict? && data.VDict? && KeysOf(schema.entries) == KeysOf(data.entries)
    requires i <= |schema.entries|
    ensures ValidateFields(Erase(schema), Erase(data), i) == ValidateFields(schema, data, i)
    decreases schema, 0, |schema.entries| - i
  {
    if i < |schema.entries| {
      var k := schema.entries[i].key;
      assert Erase(schema).entries[i].key == k;
      EraseValueAt(schema.entries, k);
      EraseValueAt(data.entries, k);
      ValidateSeesOnlyShape(ValueAt(schema.entries, k), ValueAt(data.entries, k));
      FieldsSeeOnlyShape(schema, data, i + 1);
    }
  }

  /** Arguments of the same shapes get the same outcome, so `(1, 2)` against
      `('a',)` passes exactly as `(0,)` against `()` does. */
  lemma SameShapesSameOutcome(schema1: Value, data1: Value, schema2: Value, data2: Value)
    requires Erase(schema1) == Erase(schema2) && Erase(data1) == Erase(data2)
    ensures Validate(schema1, data1) == Validate(schema2, data2)
  {
    ValidateSeesOnlyShape(schema1, data1);
    ValidateSeesOnlyShape(schema2, data2);
  }

  /** Values the check does not descend into pass exactly when their runtime
      types are the same. */
  lemma ScalarsConformByTypeAlone(schema: Value, data: Value)
    requires !schema.VList? && !schema.VDict?
    ensures Validate(schema, data) == Pass <==> TagOf(schema) == TagOf(data)
  {
  }

  // ---------------------------------------------------------------------------
  // Conformance is an equivalence relation

  lemma {:induction false} ConformsReflexive(v: Value)
    ensures Conforms(v, v)
    decreases v
  {
    match v
    case VList(xs) =>
      forall i | 0 <= i < |xs| ensures Conforms(xs[i], xs[i]) {
        ConformsReflexive(xs[i]);
      }
    case VDict(es) =>
      forall k | k in KeysOf(es) ensures Conforms(ValueAt(es, k), ValueAt(es, k)) {
        ConformsReflexive(ValueAt(es, k));
      }
    case _ =>
  }

  lemma {:induction false} ConformsSymmetric(a: Value, b: Value)
    requires Conforms(a, b)
    ensures Conforms(b, a)
    decreases a
  {
    match a
    case VList(xs) =>
      forall i | 0 <= i < |xs| ensures Conforms(b.items[i], xs[i]) {
        ConformsSymmetric(xs[i], b.items[i]);
      }
    case VDict(es) =>
      forall k | k in KeysOf(b.entries) ensures Conforms(ValueAt(b.entries, k), ValueAt(es, k)) {
        ConformsSymmetric(ValueAt(es, k), ValueAt(b.entries, k));
      }
    case _ =>
  }

  lemma {:induction false} ConformsTransitive(a: Value, b: Value, c: Value)
    requires Conforms(a, b) && Conforms(b, c)
    ensures Conforms(a, c)
    decreases a
  {
    match a
    case VList(xs) =>
      forall i | 0 <= i < |xs| ensures Conforms(xs[i], c.items[i]) {
        ConformsTransitive(xs[i], b.items[i], c.items[i]);
      }
    case VDict(es) =>
      forall k | k in KeysOf(es) ensures Conforms(ValueAt(es, k), ValueAt(c.entries, k)) {
        ConformsTransitive(ValueAt(es, k), ValueAt(b.entries, k), ValueAt(c.entries, k));
      }
    case _ =>
  }

  /** Every value passes the check against itself. */
  lemma ValidateReflexive(v: Value)
    ensures Validate(v, v) == Pass
  {
    ConformsReflexive(v);
    ValidateAgreesWithConforms(v, v);
  }

  /** Swapping schema and data does not change whether the check passes (which
      failure is reported may change, as dict keys are visited in the schema's
      order). */
  lemma ValidateSymmetric(a: Value, b: Value)
    ensures Validate(a, b) == Pass <==> Validate(b, a) == Pass
  {
    ValidateAgreesWithConforms(a, b);
    ValidateAgreesWithConforms(b, a);
    if Conforms(a, b) { ConformsSymmetric(a, b); }
    if Conforms(b, a) { ConformsSymmetric(b, a); }
  }

  /** Data that passes against a schema that itself passes against a third value
      passes against that value too. */
  lemma ValidateTransitive(a: Value, b: Value, c: Value)
    requires Validate(a, b) == Pass && Validate(b, c) == Pass
    ensures Validate(a, c) == Pass
  {
    ValidateAgreesWithConforms(a, b);
    ValidateAgreesWithConforms(b, c);
    ValidateAgreesWithConforms(a, c);
    ConformsTransitive(a, b, c);
  }

  // ---------------------------------------------------------------------------
  // Lists and dicts: what is checked first, and which child failure is reported

  /** Item `j` is the first item from `from` on whose check fails. */
  predicate FirstFailingItem(xs: seq<Value>, ys: seq<Value>, from: nat, j: nat)
    requires |xs| == |ys| && j < |xs|
  {
    && Validate(xs[j], ys[j]).Fail?
    && forall l :: from <= l < j ==> Validate(xs[l], ys[l]) == Pass
  }

  lemma {:induction false} ItemsReportFirstFailure(schema: Value, data: Value, i: nat)
    requires schema.VList? && data.VList? && |schema.items| == |data.items|
    requires i <= |schema.items|
    ensures match ValidateItems(schema, data, i)
            case Pass =>
              forall j :: i <= j < |schema.items| ==> Validate(schema.items[j], data.items[j]) == Pass
            case Fail(f) =>
              exists j :: i <= j < |schema.items| && FirstFailingItem(schema.items, data.items, i, j)
                          && f == Nest(Index(j), Validate(schema.items[j], data.items[j]).failure)
    decreases |schema.items| - i
  {
    if i < |schema.items| && Validate(schema.items[i], data.items[i]) == Pass {
      ItemsReportFirstFailure(schema, data, i + 1);
      match ValidateItems(schema, data, i + 1)
      case Pass =>
      case Fail(f) =>
        var j :| i + 1 <= j < |schema.items| && FirstFailingItem(schema.items, data.items, i + 1, j)
                 && f == Nest(Index(j), Validate(schema.items[j], data.items[j]).failure);
        assert FirstFailingItem(schema.items, data.items, i, j);
    } else if i < |schema.items| {
      assert FirstFailingItem(schema.items, data.items, i, i);
    }
  }

  /** Two lists: unequal lengths fail at once, whatever the items; otherwise the
      check passes exactly when every pair of items at the same index passes, and
      a failure is the one of the first failing index, under that index. */
  lemma ListOutcome(xs: seq<Value>, ys: seq<Value>)
    ensures |xs| != |ys| ==> Validate(VList(xs), VList(ys)) == Fail(Failure(LengthMismatch, []))
    ensures |xs| == |ys| ==>
              match Validate(VList(xs), VList(ys))
              case Pass => forall i :: 0 <= i < |xs| ==> Validate(xs[i], ys[i]) == Pass
              case Fail(f) =>
                exists i :: 0 <= i < |xs| && FirstFailingItem(xs, ys, 0, i)
                            && f == Nest(Index(i), Validate(xs[i], ys[i]).failure)
  {
    if |xs| == |ys| {
      ItemsReportFirstFailure(VList(xs), VList(ys), 0);
    }
  }

  /** The check of the `j`-th key of the schema dict, looked up in both dicts. */
  function FieldOutcome(es: seq<Entry>, ds: seq<Entry>, j: nat): Outcome
    requires KeysOf(es) == KeysOf(ds) && j < |es|
  {
    Validate(ValueAt(es, es[j].key), ValueAt(ds, es[j].key))
  }

  /** The `j`-th key of the schema is the first from `from` on whose check fails. */
  predicate FirstFailingField(es: seq<Entry>, ds: seq<Entry>, from: nat, j: nat)
    requires KeysOf(es) == KeysOf(ds) && j < |es|
  {
    && FieldOutcome(es, ds, j).Fail?
    && forall l :: from <= l < j ==> FieldOutcome(es, ds, l) == Pass
  }

  lemma {:induction false} FieldsReportFirstFailure(schema: Value, data: Value, i: nat)
    requires schema.VDict? && data.VDict? && KeysOf(schema.entries) == KeysOf(data.entries)
    requires i <= |schema.entries|
    ensures match ValidateFields(schema, data, i)
            case Pass =>
              forall j :: i <= j < |schema.entries| ==> FieldOutcome(schema.entries, data.entries, j) == Pass
            case Fail(f) =>
              exists j :: i <= j < |schema.entries| && FirstFailingField(schema.entries, data.entries, i, j)
                          && f == Nest(Field(schema.entries[j].key), FieldOutcome(schema.entries, data.entries, j).failure)
    decreases |schema.entries| - i
  {
    var es, ds := schema.entries, data.entries;
    if i < |es| && FieldOutcome(es, ds, i) == Pass {
      FieldsReportFirstFailure(schema, data, i + 1);
      match ValidateFields(schema, data, i + 1)
      case Pass =>
      case Fail(f) =>
        var j :| i + 1 <= j < |es| && FirstFailingField(es, ds, i + 1, j)
                 && f == Nest(Field(es[j].key), FieldOutcome(es, ds, j).failure);
        assert FirstFailingField(es, ds, i, j);
    } else if i < |es| {
      assert FirstFailingField(es, ds, i, i);
    }
  }

  /** Two dicts: different key sets fail at once, whatever the values; otherwise
      the check passes exactly when the two values under every key pass, and a
      failure is the one of the first failing key in the schema's order, under that
      key. */
  lemma DictOutcome(es: seq<Entry>, ds: seq<Entry>)
    ensures KeysOf(es) != KeysOf(ds) ==> Validate(VDict(es), VDict(ds)) == Fail(Failure(KeySetMismatch, []))
    ensures KeysOf(es) == KeysOf(ds) ==>
              match Validate(VDict(es), VDict(ds))
              case Pass => forall k :: k in KeysOf(es) ==> Validate(ValueAt(es, k), ValueAt(ds, k)) == Pass
              case Fail(f) =>
                exists j :: 0 <= j < |es| && FirstFailingField(es, ds, 0, j)
                            && f == Nest(Field(es[j].key), FieldOutcome(es, ds, j).failure)
  {
    if KeysOf(es) == KeysOf(ds) {
      FieldsReportFirstFailure(VDict(es), VDict(ds), 0);
      if Validate(VDict(es), VDict(ds)) == Pass {
        forall k | k in KeysOf(es) ensures Validate(ValueAt(es, k), ValueAt(ds, k)) == Pass {
          var j := IndexOfKey(es, k);
          assert FieldOutcome(es, ds, j) == Pass;
        }
      }
    }
  }

  // ---------------------------------------------------------------------------
  // The key comparison as written

  lemma {:induction false} DistinctCounts(ks: seq<Key>)
    requires forall i, j :: 0 <= i < j < |ks| ==> ks[i] != ks[j]
    ensures forall x :: multiset(ks)[x] == if x in ks then 1 else 0
  {
    if ks != [] {
      DistinctCounts(ks[1..]);
      assert ks == [ks[0]] + ks[1..];
      assert ks[0] !in ks[1..];
    }
  }

  /** For a dict, each key of its key set occurs once in its key list. */
  lemma KeyCounts(es: seq<Entry>)
    requires DistinctKeys(es)
    ensures forall x :: multiset(KeyList(es))[x] == if x in KeysOf(es) then 1 else 0
  {
    DistinctCounts(KeyList(es));
  }

  /** Where the sorted key lists can be built, comparing them agrees with comparing
      the key sets, as keys in a dict are distinct. */
  lemma SortedKeysAgreeWithKeySets(es: seq<Entry>, ds: seq<Entry>)
    requires DistinctKeys(es) && DistinctKeys(ds)
    requires SortableKeys(es) && SortableKeys(ds)
    ensures SortedKeysEqual(es, ds) == Some(KeysOf(es) == KeysOf(ds))
  {
    var ms, md := multiset(KeyList(es)), multiset(KeyList(ds));
    KeyCounts(es);
    KeyCounts(ds);
    if KeysOf(es) == KeysOf(ds) {
      assert forall x :: ms[x] == md[x];
      assert ms == md;
    } else {
      var x :| (x in KeysOf(es)) != (x in KeysOf(ds));
      assert ms[x] != md[x];
    }
  }

  /** A dict whose keys `sorted` cannot order fails the key comparison as written
      even against itself, where key-set comparison lets it pass. */
  lemma UnsortableDictFailsAgainstItself(es: seq<Entry>)
    requires !SortableKeys(es)
    ensures SortedKeysEqual(es, es).None?
    ensures Validate(VDict(es), VDict(es)) == Pass
  {
    ValidateReflexive(VDict(es));
  }

  /** The smallest such dict, `{1: 0, 'a': 0}`. */
  lemma MixedKeyDictFailsAgainstItself()
    ensures var d := VDict([Entry(KInt(1), VInt(0)), Entry(KStr("a"), VInt(0))]);
            SortedKeysEqual(d.entries, d.entries).None? && Validate(d, d) == Pass
  {
    var es := [Entry(KInt(1), VInt(0)), Entry(KStr("a"), VInt(0))];
    assert !es[1].key.KInt? && !es[0].key.KStr?;
    UnsortableDictFailsAgainstItself(es);
  }
}
