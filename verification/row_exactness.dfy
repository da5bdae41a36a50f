/** When the indexed round trip gives back the very values it was given, and the byte order it does not depend on. */
module RowExactness {
  import opened Bytes
  import opened FieldTypes
  import opened Results
  import opened RowLayout
  import opened RowRoundTrip

  /** A scalar of the column's own Go type, within what the column can hold. */
  predicate ExactScalar(t: FieldType, v: Value) {
    match t
    case BoolType => v.BoolV?
    case Int8Type => v.Int8V?
    case Int16Type => v.Int16V?
    case Int32Type => v.Int32V?
    case DateType => v.Int32V?
    case TimeType => v.Int32V?
    case Int64Type => v.Int64V?
    case Float32Type => v.Float32V?
    case Float64Type => v.Float64V?
    case StringType => v.StringV?
    case BytesType => v.BytesV?
    case DecimalType(precision, scale) =>
      && v.DecimalV? && v.scale == scale
      && (if precision <= 18 then -0x8000_0000_0000_0000 <= v.unscaled < 0x8000_0000_0000_0000 else v.unscaled >= 0)
    case TimestampNtzType(precision) => v.TimestampNtzV? && (precision <= 3 ==> v.nanos == 0)
    case TimestampLtzType(precision) => v.TimestampLtzV? && (precision <= 3 ==> v.nanos == 0)
    case _ => false
  }

  predicate Exact(t: FieldType, v: Value)
    decreases t, 1
  {
    match t
    case ArrayType(element) => v.ListV? && forall i :: 0 <= i < |v.items| ==> ExactGeneric(element, v.items[i])
    case MapType(key, val) =>
      v.MapV?
      && forall i :: 0 <= i < |v.entries| ==> ExactGeneric(key, v.entries[i].key) && ExactGeneric(val, v.entries[i].val)
    case RowType(fields) => v.ListV? && ExactRow(fields, v.items)
    case _ => ExactScalar(t, v)
  }

  predicate ExactGeneric(t: FieldType, v: Value)
    decreases t, 2
  {
    v.Nil? || Exact(t, v)
  }

  predicate ExactRow(fields: seq<FieldType>, values: seq<Value>)
    decreases fields, 0
  {
    |values| == |fields| && forall i :: 0 <= i < |fields| ==> ExactGeneric(fields[i], values[i])
  }

  /** No two keys of any map inside `v` are equal, as in every Go value. */
  predicate GoValue(v: Value) {
    match v
    case ListV(items) => forall i :: 0 <= i < |items| ==> GoValue(items[i])
    case MapV(entries) =>
      DistinctKeys(entries)
      && forall i :: 0 <= i < |entries| ==> GoValue(entries[i].key) && GoValue(entries[i].val)
    case _ => true
  }

  // ---------- assignment into a map ----------

  lemma {:induction false} PutNew(entries: seq<Entry>, key: Value, val: Value)
    ensures (forall i :: 0 <= i < |entries| ==> !KeyEqual(entries[i].key, key)) ==>
              Put(entries, key, val) == entries + [Entry(key, val)]
    ensures |Put(entries, key, val)| == |entries| + 1 ==> Put(entries, key, val) == entries + [Entry(key, val)]
  {
    if entries != [] {
      PutNew(entries[1..], key, val);
    }
  }

  /** Assigning entries with distinct keys lists them in order. */
  lemma {:induction false} PutAllDistinct(acc: seq<Entry>, added: seq<Entry>)
    requires DistinctKeys(acc + added)
    ensures PutAll(acc, added) == acc + added
    decreases |added|
  {
    if added != [] {
      var all := acc + added;
      assert all[|acc|] == added[0];
      forall i | 0 <= i < |acc|
        ensures !KeyEqual(acc[i].key, added[0].key)
      {
        assert all[i] == acc[i];
      }
      PutNew(acc, added[0].key, added[0].val);
      assert acc + [added[0]] + added[1..] == all;
      PutAllDistinct(acc + [added[0]], added[1..]);
    }
  }

  /** An assignment that loses no entry lists them all in order. */
  lemma {:induction false} PutAllFull(acc: seq<Entry>, added: seq<Entry>)
    ensures |PutAll(acc, added)| <= |acc| + |added|
    ensures |PutAll(acc, added)| == |acc| + |added| ==> PutAll(acc, added) == acc + added
    decreases |added|
  {
    if added != [] {
      PutNew(acc, added[0].key, added[0].val);
      PutAllFull(Put(acc, added[0].key, added[0].val), added[1..]);
      assert acc + [added[0]] + added[1..] == acc + added;
    }
  }

  lemma MapKeepsEntries(canon: seq<Entry>, entries: seq<Entry>)
    requires |canon| == |entries| && DistinctKeys(entries)
    ensures PutAll([], canon) == entries <==> canon == entries
  {
    PutAllFull([], canon);
    assert [] + canon == canon;
    if canon == entries {
      assert [] + entries == entries;
      PutAllDistinct([], entries);
    }
  }

  // ---------- canonical means exact ----------

  lemma {:induction false} CanonItemsAt(t: FieldType, items: seq<Value>, i: nat)
    requires i < |items|
    ensures CanonItems(t, items)[i] == CanonGeneric(t, items[i])
  {
    if i > 0 {
      CanonItemsAt(t, items[1..], i - 1);
    }
  }

  lemma {:induction false} CanonEntriesAt(key: FieldType, val: FieldType, entries: seq<Entry>, i: nat)
    requires i < |entries|
    ensures CanonEntries(key, val, entries)[i]
         == Entry(CanonGeneric(key, entries[i].key), CanonGeneric(val, entries[i].val))
  {
    if i > 0 {
      CanonEntriesAt(key, val, entries[1..], i - 1);
    }
  }

  lemma {:induction false} EncodeItemsAt(t: FieldType, items: seq<Value>, i: nat)
    requires i < |items| && EncodeItems(t, items).Ok?
    ensures EncodeGeneric(t, items[i]).Ok?
  {
    if i > 0 {
      EncodeItemsAt(t, items[1..], i - 1);
    }
  }

  lemma {:induction false} EncodeEntriesAt(key: FieldType, val: FieldType, entries: seq<Entry>, i: nat)
    requires i < |entries| && EncodeEntries(key, val, entries).Ok?
    ensures EncodeGeneric(key, entries[i].key).Ok? && EncodeGeneric(val, entries[i].val).Ok?
  {
    if i > 0 {
      EncodeEntriesAt(key, val, entries[1..], i - 1);
    }
  }

  lemma ScalarExactness(t: FieldType, v: Value)
    requires !Nested(t) && EncodeScalar(t, v, true).Ok?
    ensures CanonScalar(t, v) == v <==> ExactScalar(t, v)
  {
  }

  lemma ExactIsCanon(t: FieldType, v: Value)
    requires ExactScalar(t, v)
    ensures CanonScalar(t, v) == v
  {
  }

  lemma {:induction false} ValueExactness(t: FieldType, v: Value)
    requires EncodeValue(t, v, true).Ok? && GoValue(v)
    ensures Canon(t, v) == v <==> Exact(t, v)
    decreases t, 1
  {
    hide GoValue, EncodeScalar, CanonScalar, ExactScalar, EncodeItems, EncodeEntries, CanonItems, CanonEntries, PutAll;
    hide EncodeCells, CanonRow;
    match t {
      case ArrayType(element) => ItemsExactness(element, v.items);
      case MapType(key, val) =>
        hide Canon, Exact;
        EntriesExactness(key, val, v.entries);
      case RowType(fields) => CanonRowExactness(fields, v.items);
      case _ => ScalarExactness(t, v);
    }
  }

  lemma {:induction false} ItemsExactness(element: FieldType, items: seq<Value>)
    requires EncodeValue(ArrayType(element), ListV(items), true).Ok? && GoValue(ListV(items))
    ensures CanonItems(element, items) == items
       <==> forall i :: 0 <= i < |items| ==> ExactGeneric(element, items[i])
    decreases ArrayType(element), 0
  {
    forall i | 0 <= i < |items|
      ensures CanonItems(element, items)[i] == items[i] <==> ExactGeneric(element, items[i])
    {
      EncodeItemsAt(element, items, i);
      CanonItemsAt(element, items, i);
      GenericExactness(element, items[i]);
    }
    SameItems(CanonItems(element, items), items);
  }

  lemma {:induction false} EntriesExactness(key: FieldType, val: FieldType, entries: seq<Entry>)
    requires EncodeValue(MapType(key, val), MapV(entries), true).Ok? && GoValue(MapV(entries))
    ensures Canon(MapType(key, val), MapV(entries)) == MapV(entries) <==> Exact(MapType(key, val), MapV(entries))
    decreases MapType(key, val), 0
  {
    hide CanonEntries, EncodeEntries, CanonGeneric, ExactGeneric, EncodeGeneric, KeyEqual, PutAll;
    var canon := CanonEntries(key, val, entries);
    forall i | 0 <= i < |entries|
      ensures canon[i] == entries[i] <==> ExactGeneric(key, entries[i].key) && ExactGeneric(val, entries[i].val)
    {
      EncodeEntriesAt(key, val, entries, i);
      CanonEntriesAt(key, val, entries, i);
      GenericExactness(key, entries[i].key);
      GenericExactness(val, entries[i].val);
    }
    SameItems(canon, entries);
    MapKeepsEntries(canon, entries);
  }

  lemma SameItems<T>(a: seq<T>, b: seq<T>)
    requires |a| == |b|
    ensures a == b <==> forall i :: 0 <= i < |b| ==> a[i] == b[i]
  {
  }

  lemma {:induction false} GenericExactness(t: FieldType, v: Value)
    requires EncodeGeneric(t, v).Ok? && GoValue(v)
    ensures CanonGeneric(t, v) == v <==> ExactGeneric(t, v)
    decreases t, 2
  {
    hide EncodeValue, Canon, Exact, GoValue;
    if !v.Nil? {
      ValueExactness(t, v);
    }
  }

  lemma {:induction false} CanonRowExactness(fields: seq<FieldType>, values: seq<Value>)
    requires EncodeRow(fields, values, true).Ok? && GoValue(ListV(values))
    ensures CanonRow(fields, values) == values <==> ExactRow(fields, values)
    decreases fields, 0
  {
    forall i | 0 <= i < |fields|
      ensures CanonRow(fields, values)[i] == values[i] <==> ExactGeneric(fields[i], values[i])
    {
      EncodeCellsAt(fields, values, true, i);
      CanonRowAt(fields, values, i);
      assert GoValue(values[i]);
      if !values[i].Nil? {
        ValueExactness(fields[i], values[i]);
      }
    }
    SameItems(CanonRow(fields, values), values);
  }

  /**
   The indexed round trip, both directions: for any nesting of arrays, maps and rows and any placement of nulls,
   the decoder returns the very values encoded if and only if each of them fits its column.
   */
  lemma IndexedRoundTripExactly(fields: seq<FieldType>, values: seq<Value>)
    requires EncodeRow(fields, values, true).Ok?
    requires RowKeysHashable(fields) && RowFits(fields, values) && GoValue(ListV(values))
    ensures DecodeRow(fields, EncodeRow(fields, values, true).value, true) == Ok(values) <==> ExactRow(fields, values)
  {
    IndexedRowDecodes(fields, values);
    CanonRowExactness(fields, values);
  }

  /** Two `range` orders of one map are encoded differently and decoded to the same entries. */
  lemma AnyIterationOrder(key: FieldType, val: FieldType, a: seq<Entry>, b: seq<Entry>)
    requires multiset(a) == multiset(b)
    requires Storable(MapType(key, val), MapV(a)) && GoValue(MapV(a)) && Exact(MapType(key, val), MapV(a))
    ensures Storable(MapType(key, val), MapV(b)) && GoValue(MapV(b))
    ensures
      var t := MapType(key, val);
      && DecodeValue(t, EncodeValue(t, MapV(a), true).value, true) == Ok(MapV(a))
      && DecodeValue(t, EncodeValue(t, MapV(b), true).value, true) == Ok(MapV(b))
  {
    hide EncodeValue, DecodeValue, Canon, Exact, GoValue, Storable;
    MapExactly(key, val, a);
    StorableInAnyOrder(key, val, a, b);
    GoValueInAnyOrder(a, b);
    ExactInAnyOrder(key, val, a, b);
    MapExactly(key, val, b);
  }

  lemma MapExactly(key: FieldType, val: FieldType, entries: seq<Entry>)
    requires
      var t := MapType(key, val);
      Storable(t, MapV(entries)) && GoValue(MapV(entries)) && Exact(t, MapV(entries))
    ensures
      var t := MapType(key, val);
      && EncodeValue(t, MapV(entries), true).Ok?
      && DecodeValue(t, EncodeValue(t, MapV(entries), true).value, true) == Ok(MapV(entries))
  {
    hide EncodeValue, DecodeValue, Canon, Exact, GoValue;
    ValueRoundTrip(MapType(key, val), MapV(entries));
    ValueExactness(MapType(key, val), MapV(entries));
  }

  lemma SameEntries(a: seq<Entry>, b: seq<Entry>)
    requires multiset(a) == multiset(b)
    ensures |a| == |b| && forall e :: e in a <==> e in b
  {
    assert |multiset(a)| == |multiset(b)|;
    assert forall e :: e in a <==> e in multiset(a);
    assert forall e :: e in b <==> e in multiset(b);
  }

  lemma {:induction false} EntriesEncoded(key: FieldType, val: FieldType, entries: seq<Entry>)
    requires forall i :: 0 <= i < |entries| ==>
               EncodeGeneric(key, entries[i].key).Ok? && EncodeGeneric(val, entries[i].val).Ok?
    ensures EncodeEntries(key, val, entries).Ok?
  {
    hide EncodeGeneric, Framed;
    if entries != [] {
      EntriesEncoded(key, val, entries[1..]);
    }
  }

  lemma EntryStored(key: FieldType, val: FieldType, entries: seq<Entry>, i: nat)
    requires EncodeEntries(key, val, entries).Ok? && EntriesFit(key, val, entries) && i < |entries|
    ensures EncodeGeneric(key, entries[i].key).Ok? && EncodeGeneric(val, entries[i].val).Ok?
    ensures GenericFits(key, entries[i].key) && GenericFits(val, entries[i].val)
  {
    EncodeEntriesAt(key, val, entries, i);
    hide EncodeGeneric, EncodeEntries, GenericFits;
  }

  lemma StoredEntries(key: FieldType, val: FieldType, entries: seq<Entry>)
    ensures Storable(MapType(key, val), MapV(entries))
       <==> && Valid(key) && Valid(val) && KeysHashable(MapType(key, val))
            && EncodeEntries(key, val, entries).Ok? && |entries| < 0x1_0000_0000 && EntriesFit(key, val, entries)
  {
    hide EncodeEntries, EntriesFit, LE32;
  }

  lemma StorableInAnyOrder(key: FieldType, val: FieldType, a: seq<Entry>, b: seq<Entry>)
    requires multiset(a) == multiset(b) && Storable(MapType(key, val), MapV(a))
    ensures Storable(MapType(key, val), MapV(b))
  {
    hide Storable, EncodeGeneric, EncodeEntries, Valid, KeysHashable, GenericFits;
    SameEntries(a, b);
    StoredEntries(key, val, a);
    StoredEntries(key, val, b);
    forall i | 0 <= i < |b|
      ensures EncodeGeneric(key, b[i].key).Ok? && EncodeGeneric(val, b[i].val).Ok?
      ensures GenericFits(key, b[i].key) && GenericFits(val, b[i].val)
    {
      assert b[i] in a;
      var j :| 0 <= j < |a| && a[j] == b[i];
      EntryStored(key, val, a, j);
    }
    EntriesEncoded(key, val, b);
  }

  lemma ExactInAnyOrder(key: FieldType, val: FieldType, a: seq<Entry>, b: seq<Entry>)
    requires multiset(a) == multiset(b) && Exact(MapType(key, val), MapV(a))
    ensures Exact(MapType(key, val), MapV(b))
  {
    SameEntries(a, b);
    hide ExactGeneric;
    forall i | 0 <= i < |b|
      ensures ExactGeneric(key, b[i].key) && ExactGeneric(val, b[i].val)
    {
      assert b[i] in a;
    }
  }

  lemma {:induction false} TwoPlaces(s: seq<Entry>, x: Entry) returns (m: nat, n: nat)
    requires multiset(s)[x] >= 2
    ensures m < n < |s| && s[m] == x && s[n] == x
  {
    var last := |s| - 1;
    assert s == s[..last] + [s[last]];
    if s[last] == x {
      assert multiset(s[..last])[x] >= 1;
      m :| 0 <= m < last && s[..last][m] == x;
      n := last;
    } else {
      m, n := TwoPlaces(s[..last], x);
    }
  }

  lemma CountTwice(s: seq<Entry>, i: nat, j: nat)
    requires i < j < |s| && s[i] == s[j]
    ensures multiset(s)[s[i]] >= 2
  {
    assert s == s[..j] + [s[j]] + s[j + 1..];
    assert s[..j][i] == s[i];
  }

  lemma KeyEqualSymmetric(a: Value, b: Value)
    ensures KeyEqual(a, b) == KeyEqual(b, a)
  {
  }

  lemma GoValueInAnyOrder(a: seq<Entry>, b: seq<Entry>)
    requires multiset(a) == multiset(b) && GoValue(MapV(a))
    ensures GoValue(MapV(b))
  {
    SameEntries(a, b);
    hide KeyEqual;
    forall i, j | 0 <= i < j < |b| ensures !KeyEqual(b[i].key, b[j].key) {
      if b[i] == b[j] {
        CountTwice(b, i, j);
        var m, n := TwoPlaces(a, b[i]);
      } else {
        assert b[i] in a && b[j] in a;
        var m, n :| 0 <= m < |a| && 0 <= n < |a| && a[m] == b[i] && a[n] == b[j];
        KeyEqualSymmetric(b[i].key, b[j].key);
      }
    }
    forall i | 0 <= i < |b| ensures GoValue(b[i].key) && GoValue(b[i].val) {
      assert b[i] in a;
    }
  }
}
