/** What the decoder makes of the bytes of arrays and maps, whatever they are (internal/codec/row/row.go:1109-1298). */
module NestedReading {
  import opened Bytes
  import opened FieldTypes
  import opened Results
  import opened RowLayout
  import opened RowRoundTrip
  import opened WireForms
  import RowCodec

  /** An element, key or value: nil where the first byte is 1, and else what follows that byte. */
  predicate ElementRead(t: FieldType, v: Value, body: seq<byte>) {
    body != [] && if body[0] == 1 then v == Nil else DecodeValue(t, body[1..], true) == Ok(v)
  }

  /** The number in the first four bytes. */
  function Count(bs: seq<byte>): nat
    requires |bs| >= 4
  {
    (bs[0] as nat) + 0x100 * (bs[1] as nat) + 0x1_0000 * (bs[2] as nat) + 0x100_0000 * (bs[3] as nat)
  }

  /** The payload starts with a length and that many bytes. */
  predicate HasFrame(payload: seq<byte>) {
    |payload| >= 4 && 4 + Count(payload) <= |payload|
  }

  function FrameBody(payload: seq<byte>): seq<byte>
    requires HasFrame(payload)
  {
    payload[4..4 + Count(payload)]
  }

  function FrameRest(payload: seq<byte>): seq<byte>
    requires HasFrame(payload)
  {
    payload[4 + Count(payload)..]
  }

  /** Behind its length each item stands in its turn. */
  predicate ItemsRead(t: FieldType, payload: seq<byte>, items: seq<Value>)
    decreases |items|
  {
    items == []
    || (&& HasFrame(payload)
        && ElementRead(t, items[0], FrameBody(payload))
        && ItemsRead(t, FrameRest(payload), items[1..]))
  }

  /** Keys and values in turn; no key is of a kind that Go cannot hash. */
  predicate EntriesRead(key: FieldType, val: FieldType, payload: seq<byte>, entries: seq<Entry>)
    decreases |entries|
  {
    entries == []
    || (&& HasFrame(payload) && HasFrame(FrameRest(payload))
        && ElementRead(key, entries[0].key, FrameBody(payload))
        && ElementRead(val, entries[0].val, FrameBody(FrameRest(payload)))
        && !Unhashable(entries[0].key)
        && EntriesRead(key, val, FrameRest(FrameRest(payload)), entries[1..]))
  }

  lemma CountExactly(bs: seq<byte>)
    requires |bs| >= 4
    ensures Get32(bs) == Count(bs)
  {
    var four := bs[..4];
    assert FromLE(four) == four[0] + 256 * FromLE(four[1..]);
    assert FromLE(four[1..]) == four[1] + 256 * FromLE(four[2..]) by { assert four[1..][1..] == four[2..]; }
    assert FromLE(four[2..]) == four[2] + 256 * FromLE(four[3..]) by { assert four[2..][1..] == four[3..]; }
    assert FromLE(four[3..]) == four[3] by { assert four[3..][1..] == []; }
  }

  lemma FrameExactly(payload: seq<byte>)
    ensures Unframe(payload)
         == if HasFrame(payload) then Ok((FrameBody(payload), FrameRest(payload))) else Err(PayloadTruncated)
  {
    hide Get32, Count;
    if |payload| >= 4 {
      CountExactly(payload);
    }
  }

  lemma ElementReadExactly(t: FieldType, v: Value, body: seq<byte>)
    ensures DecodeGeneric(t, body) == Ok(v) <==> ElementRead(t, v, body)
  {
    hide DecodeValue;
  }

  /** One framed element. */
  lemma FramedExactly(t: FieldType, v: Value, payload: seq<byte>)
    ensures
      var r := DecodeFramed(t, payload);
      && (r.Ok? && r.value.0 == v <==> HasFrame(payload) && ElementRead(t, v, FrameBody(payload)))
      && (r.Ok? ==> HasFrame(payload) && r.value.1 == FrameRest(payload))
  {
    hide Unframe, DecodeGeneric, ElementRead, HasFrame, FrameBody, FrameRest;
    FrameExactly(payload);
    if HasFrame(payload) {
      ElementReadExactly(t, v, FrameBody(payload));
    }
  }

  lemma ItemsUnfold(t: FieldType, payload: seq<byte>, items: seq<Value>)
    requires items != []
    ensures
      var head := DecodeFramed(t, payload);
      DecodeItems(t, |items|, payload) == Ok(items)
      <==> && head.Ok? && head.value.0 == items[0]
           && DecodeItems(t, |items| - 1, head.value.1) == Ok(items[1..])
  {
    hide DecodeFramed;
    var head := DecodeFramed(t, payload);
    if head.Ok? {
      FirstAndRest(items, head.value.0, DecodeItems(t, |items| - 1, head.value.1));
    }
  }

  lemma FirstAndRest(all: seq<Value>, v: Value, rest: Result<seq<Value>>)
    requires all != []
    ensures rest.Ok? && [v] + rest.value == all <==> v == all[0] && rest == Ok(all[1..])
  {
    if rest.Ok? {
      assert ([v] + rest.value)[0] == v && ([v] + rest.value)[1..] == rest.value;
    }
  }

  lemma ItemsReadStep(t: FieldType, payload: seq<byte>, items: seq<Value>)
    requires items != []
    ensures ItemsRead(t, payload, items)
       <==> && HasFrame(payload)
            && ElementRead(t, items[0], FrameBody(payload))
            && ItemsRead(t, FrameRest(payload), items[1..])
  {
    hide ElementRead, HasFrame, FrameBody, FrameRest;
  }

  lemma NoItemsRead(t: FieldType, payload: seq<byte>)
    ensures DecodeItems(t, 0, payload) == Ok([]) && ItemsRead(t, payload, [])
  {
  }

  lemma {:induction false} ItemsReadExactly(t: FieldType, payload: seq<byte>, items: seq<Value>)
    ensures DecodeItems(t, |items|, payload) == Ok(items) <==> ItemsRead(t, payload, items)
    decreases |items|
  {
    hide DecodeFramed, DecodeItems, ElementRead, HasFrame, FrameBody, FrameRest, ItemsRead;
    if items == [] {
      NoItemsRead(t, payload);
    } else {
      ItemsUnfold(t, payload, items);
      ItemsReadStep(t, payload, items);
      FramedExactly(t, items[0], payload);
      if HasFrame(payload) {
        ItemsReadExactly(t, FrameRest(payload), items[1..]);
      }
    }
  }

  lemma {:induction false} ItemsNumber(t: FieldType, count: nat, payload: seq<byte>)
    ensures DecodeItems(t, count, payload).Ok? ==> |DecodeItems(t, count, payload).value| == count
    decreases count
  {
    hide DecodeFramed;
    if count > 0 && DecodeFramed(t, payload).Ok? {
      ItemsNumber(t, count - 1, DecodeFramed(t, payload).value.1);
    }
  }

  /** Any bytes are read as an array if and only if they are the number of its elements and each behind its length. */
  lemma ArrayReadExactly(element: FieldType, payload: seq<byte>, indexed: bool, v: Value)
    ensures DecodeValue(ArrayType(element), payload, indexed) == Ok(v)
       <==> && v.ListV? && |payload| >= 4 && Count(payload) == |v.items|
            && ItemsRead(element, payload[4..], v.items)
  {
    hide DecodeItems, ItemsRead, Get32, Count;
    if |payload| >= 4 {
      CountExactly(payload);
      ItemsNumber(element, Get32(payload), payload[4..]);
      if v.ListV? {
        ItemsReadExactly(element, payload[4..], v.items);
      }
    }
  }

  // ---------- maps ----------

  lemma EntriesReadStep(key: FieldType, val: FieldType, payload: seq<byte>, entries: seq<Entry>)
    requires entries != []
    ensures EntriesRead(key, val, payload, entries)
       <==> && HasFrame(payload) && HasFrame(FrameRest(payload))
            && ElementRead(key, entries[0].key, FrameBody(payload))
            && ElementRead(val, entries[0].val, FrameBody(FrameRest(payload)))
            && !Unhashable(entries[0].key)
            && EntriesRead(key, val, FrameRest(FrameRest(payload)), entries[1..])
  {
    hide ElementRead, HasFrame, FrameBody, FrameRest, Unhashable;
  }

  /** Two framed elements at the front of a payload are the key and the value of an entry. */
  predicate PairRead(key: FieldType, val: FieldType, payload: seq<byte>, k: Value, v: Value) {
    && HasFrame(payload) && HasFrame(FrameRest(payload))
    && ElementRead(key, k, FrameBody(payload)) && ElementRead(val, v, FrameBody(FrameRest(payload)))
    && !Unhashable(k)
  }

  function AfterPair(payload: seq<byte>): seq<byte> {
    if HasFrame(payload) && HasFrame(FrameRest(payload)) then FrameRest(FrameRest(payload)) else []
  }

  lemma PairGiven(key: FieldType, val: FieldType, count: nat, payload: seq<byte>, acc: seq<Entry>, k: Value, v: Value)
    requires count > 0 && PairRead(key, val, payload, k, v)
    ensures DecodeEntries(key, val, count, payload, acc)
         == DecodeEntries(key, val, count - 1, AfterPair(payload), Put(acc, k, v))
  {
    hide DecodeFramed, ElementRead, HasFrame, FrameBody, FrameRest, Put, Unhashable, DecodeEntries;
    RowCodec.DecodeEntriesUnfold(key, val, count, payload, acc);
    FramedExactly(key, k, payload);
    FramedExactly(val, v, FrameRest(payload));
  }

  lemma PairFound(key: FieldType, val: FieldType, count: nat, payload: seq<byte>, acc: seq<Entry>)
    returns (k: Value, v: Value)
    requires count > 0 && DecodeEntries(key, val, count, payload, acc).Ok?
    ensures PairRead(key, val, payload, k, v)
  {
    hide DecodeFramed, ElementRead, HasFrame, FrameBody, FrameRest, Put, Unhashable, DecodeEntries;
    RowCodec.DecodeEntriesUnfold(key, val, count, payload, acc);
    k := DecodeFramed(key, payload).value.0;
    FramedExactly(key, k, payload);
    v := DecodeFramed(val, FrameRest(payload)).value.0;
    FramedExactly(val, v, FrameRest(payload));
  }

  lemma EntryRead(key: FieldType, val: FieldType, payload: seq<byte>, entries: seq<Entry>)
    requires entries != []
    ensures EntriesRead(key, val, payload, entries)
       <==> && PairRead(key, val, payload, entries[0].key, entries[0].val)
            && EntriesRead(key, val, AfterPair(payload), entries[1..])
  {
    hide ElementRead, HasFrame, FrameBody, FrameRest, Unhashable, EntriesRead;
    EntriesReadStep(key, val, payload, entries);
  }

  lemma NoEntriesRead(key: FieldType, val: FieldType, payload: seq<byte>, acc: seq<Entry>)
    ensures DecodeEntries(key, val, 0, payload, acc) == Ok(PutAll(acc, [])) && EntriesRead(key, val, payload, [])
  {
  }

  /** What is read becomes a map by assigning the entries in order. */
  lemma {:induction false} EntriesGiven(key: FieldType, val: FieldType, payload: seq<byte>, acc: seq<Entry>,
                                        entries: seq<Entry>)
    requires EntriesRead(key, val, payload, entries)
    ensures DecodeEntries(key, val, |entries|, payload, acc) == Ok(PutAll(acc, entries))
    decreases |entries|
  {
    hide PairRead, AfterPair, Put, EntriesRead, DecodeEntries;
    if entries == [] {
      NoEntriesRead(key, val, payload, acc);
    } else {
      EntryRead(key, val, payload, entries);
      PairGiven(key, val, |entries|, payload, acc, entries[0].key, entries[0].val);
      EntriesGiven(key, val, AfterPair(payload), Put(acc, entries[0].key, entries[0].val), entries[1..]);
    }
  }

  lemma {:induction false} EntriesFound(key: FieldType, val: FieldType, count: nat, payload: seq<byte>, acc: seq<Entry>)
    returns (entries: seq<Entry>)
    requires DecodeEntries(key, val, count, payload, acc).Ok?
    ensures |entries| == count && EntriesRead(key, val, payload, entries)
    decreases count
  {
    hide PairRead, AfterPair, Put, EntriesRead, DecodeEntries;
    if count == 0 {
      entries := [];
      NoEntriesRead(key, val, payload, acc);
    } else {
      var k, v := PairFound(key, val, count, payload, acc);
      PairGiven(key, val, count, payload, acc, k, v);
      var later := EntriesFound(key, val, count - 1, AfterPair(payload), Put(acc, k, v));
      entries := [Entry(k, v)] + later;
      assert entries[1..] == later;
      EntryRead(key, val, payload, entries);
    }
  }

  /** Any bytes are read as a map if and only if they are the number of entries and the entries, keys being hashable. */
  lemma MapReadExactly(key: FieldType, val: FieldType, payload: seq<byte>, indexed: bool, v: Value)
    ensures DecodeValue(MapType(key, val), payload, indexed) == Ok(v)
       <==> && |payload| >= 4
            && exists entries: seq<Entry> ::
                 && EntriesRead(key, val, payload[4..], entries)
                 && Count(payload) == |entries| && v == MapV(PutAll([], entries))
  {
    hide DecodeEntries, EntriesRead, Count, PutAll, DecodeValue, Get32;
    MapStarts(key, val, payload, indexed);
    if |payload| >= 4 {
      var r := DecodeEntries(key, val, Count(payload), payload[4..], []);
      if r.Ok? {
        var entries := EntriesFound(key, val, Count(payload), payload[4..], []);
        EntriesGiven(key, val, payload[4..], [], entries);
      }
      forall entries: seq<Entry> | EntriesRead(key, val, payload[4..], entries) && Count(payload) == |entries|
        ensures r == Ok(PutAll([], entries))
      {
        EntriesGiven(key, val, payload[4..], [], entries);
      }
    }
  }

  lemma MapStarts(key: FieldType, val: FieldType, payload: seq<byte>, indexed: bool)
    ensures
      var r := DecodeValue(MapType(key, val), payload, indexed);
      if |payload| < 4 then r == Err(PayloadTooShort)
      else
        var entries := DecodeEntries(key, val, Count(payload), payload[4..], []);
        r == if entries.Err? then Err(entries.error) else Ok(MapV(entries.value))
  {
    hide DecodeEntries, Get32, Count;
    if |payload| >= 4 {
      CountExactly(payload);
    }
  }

  // ---------- assignment into a Go map ----------

  /** `m[key] = val` replaces the first entry of an equal key where it stands, and else adds one. */
  lemma {:induction false} PutExactly(entries: seq<Entry>, key: Value, val: Value, i: nat)
    requires i <= |entries| && forall j :: 0 <= j < i ==> !KeyEqual(entries[j].key, key)
    requires i < |entries| ==> KeyEqual(entries[i].key, key)
    ensures Put(entries, key, val)
         == if i < |entries| then entries[i := Entry(key, val)] else entries + [Entry(key, val)]
    decreases |entries|
  {
    hide KeyEqual;
    if i > 0 {
      PutExactly(entries[1..], key, val, i - 1);
      assert Put(entries, key, val) == [entries[0]] + Put(entries[1..], key, val);
      hide Put;
      if i < |entries| {
        assert entries[i := Entry(key, val)] == [entries[0]] + entries[1..][i - 1 := Entry(key, val)];
      } else {
        assert entries + [Entry(key, val)] == [entries[0]] + (entries[1..] + [Entry(key, val)]);
      }
    } else if entries != [] {
      assert entries[0 := Entry(key, val)] == [Entry(key, val)] + entries[1..];
    }
  }

  /** Keys are equal as Go compares interface values: zeros of either sign are, NaNs and decimals never are. */
  lemma KeyEqualExactly(a: Value, b: Value)
    ensures a.DecimalV? || a.BigIntV? ==> !KeyEqual(a, b)
    ensures a.Float32V? && b.Float32V? && a.bits32 in {0, 0x8000_0000} ==>
              (KeyEqual(a, b) <==> b.bits32 in {0, 0x8000_0000})
    ensures a.Float64V? && b.Float64V? && a.bits64 in {0, 0x8000_0000_0000_0000} ==>
              (KeyEqual(a, b) <==> b.bits64 in {0, 0x8000_0000_0000_0000})
    ensures a.Float32V? && (0x7F80_0000 < a.bits32 < 0x8000_0000 || a.bits32 > 0xFF80_0000) ==> !KeyEqual(a, b)
    ensures
      a.Float64V? && (0x7FF0_0000_0000_0000 < a.bits64 < 0x8000_0000_0000_0000 || a.bits64 > 0xFFF0_0000_0000_0000) ==>
        !KeyEqual(a, b)
    ensures KeyEqual(a, b) ==> a == b || (a.Float32V? && b.Float32V?) || (a.Float64V? && b.Float64V?)
    ensures a == b && !a.DecimalV? && !a.BigIntV? && !a.Float32V? && !a.Float64V? ==> KeyEqual(a, b)
  {
  }
}
