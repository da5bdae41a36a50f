/** From rows written under older schemas to the rows a snapshot reader gives back. */
module SnapshotRows {
  import opened Bytes
  import opened FieldTypes
  import opened Results
  import opened RowLayout
  import opened RowRoundTrip
  import opened SnapshotDecode
  import opened SnapshotReader
  import RowCompactedLimits

  /** A row as it was put into the store, with the id of the schema it was written under. */
  datatype StoredRow = StoredRow(id: uint16, values: seq<Value>)

  /** The layout gives rows like this one back, and the plan tells the columns of their schema apart. */
  ghost predicate Evolves(plan: DecodePlan, values: seq<Value>, indexed: bool) {
    && EncodeRow(plan.decodeSchema, values, indexed).Ok?
    && (if indexed then RowKeysHashable(plan.decodeSchema) && RowFits(plan.decodeSchema, values)
        else
          && RowCompactedLimits.PrefixesFit(plan.decodeSchema, values)
          && RowCompactedLimits.ComesBack(plan.decodeSchema, values))
    && |plan.sourceColumns| == |plan.decodeSchema|
    && Distinct(plan.sourceColumns)
  }

  /** There is a plan for the schema of the row, and the row can be read with it. */
  ghost predicate RowReadable(initial: map<int32, DecodePlan>, loader: Option<Loader>, indexed: bool, row: StoredRow) {
    && PlanFor(initial, loader, row.id).Ok?
    && Evolves(PlanFor(initial, loader, row.id).value, row.values, indexed)
  }

  ghost predicate Readable(initial: map<int32, DecodePlan>, loader: Option<Loader>, indexed: bool, rows: seq<StoredRow>) {
    forall r :: r in rows ==> RowReadable(initial, loader, indexed, r)
  }

  ghost function Stored(initial: map<int32, DecodePlan>, loader: Option<Loader>, indexed: bool, row: StoredRow)
    : seq<byte>
    requires RowReadable(initial, loader, indexed, row)
  {
    StoredValue(row.id, EncodeRow(PlanFor(initial, loader, row.id).value.decodeSchema, row.values, indexed).value)
  }

  ghost function Store(initial: map<int32, DecodePlan>, loader: Option<Loader>, indexed: bool, rows: seq<StoredRow>)
    : (values: seq<seq<byte>>)
    requires Readable(initial, loader, indexed, rows)
    ensures |values| == |rows|
  {
    if rows == [] then []
    else
      assert rows[0] in rows;
      [Stored(initial, loader, indexed, rows[0])] + Store(initial, loader, indexed, rows[1..])
  }

  /** The row seen through the plan of its schema: every target column its namesake's value, or nil. */
  ghost predicate RowSeen(initial: map<int32, DecodePlan>, loader: Option<Loader>, indexed: bool, row: StoredRow,
                          seen: seq<Value>)
    requires RowReadable(initial, loader, indexed, row)
  {
    var plan := PlanFor(initial, loader, row.id).value;
    SeenThrough(plan, CanonRow(plan.decodeSchema, row.values), seen)
  }

  ghost predicate AllSeen(initial: map<int32, DecodePlan>, loader: Option<Loader>, indexed: bool, rows: seq<StoredRow>,
                          seen: seq<seq<Value>>)
    requires Readable(initial, loader, indexed, rows)
  {
    |seen| == |rows| && forall i :: 0 <= i < |rows| ==> RowSeen(initial, loader, indexed, rows[i], seen[i])
  }

  lemma OneRowSeen(initial: map<int32, DecodePlan>, loader: Option<Loader>, indexed: bool, row: StoredRow)
    requires RowReadable(initial, loader, indexed, row)
    ensures
      var r := DecodeStored(initial, loader, indexed, Stored(initial, loader, indexed, row));
      r.Ok? && RowSeen(initial, loader, indexed, row, r.value)
  {
    hide PlanFor, DecodeWith, Get16, SeenThrough, CanonRow;
    var plan := PlanFor(initial, loader, row.id).value;
    if indexed {
      IndexedEvolution(plan, row.id, row.values);
    } else {
      CompactedEvolution(plan, row.id, row.values);
    }
    hide EncodeRow, Evolves;
  }

  lemma FirstReadable(initial: map<int32, DecodePlan>, loader: Option<Loader>, indexed: bool, rows: seq<StoredRow>)
    requires Readable(initial, loader, indexed, rows) && rows != []
    ensures RowReadable(initial, loader, indexed, rows[0]) && Readable(initial, loader, indexed, rows[1..])
    ensures
      var store := Store(initial, loader, indexed, rows);
      && store[0] == Stored(initial, loader, indexed, rows[0])
      && store[1..] == Store(initial, loader, indexed, rows[1..])
  {
    hide PlanFor, Evolves, Stored;
    assert rows[0] in rows && forall r :: r in rows[1..] ==> r in rows;
  }

  lemma AllSeenStep(initial: map<int32, DecodePlan>, loader: Option<Loader>, indexed: bool, rows: seq<StoredRow>,
                    row: seq<Value>, rest: seq<seq<Value>>)
    requires Readable(initial, loader, indexed, rows) && rows != [] && Readable(initial, loader, indexed, rows[1..])
    requires RowSeen(initial, loader, indexed, rows[0], row) && AllSeen(initial, loader, indexed, rows[1..], rest)
    ensures AllSeen(initial, loader, indexed, rows, [row] + rest)
  {
    hide RowReadable, RowSeen;
    assert forall i :: 0 < i < |rows| ==> rows[i] == rows[1..][i - 1] && ([row] + rest)[i] == rest[i - 1];
  }

  lemma {:induction false} DecodedRowsSeen(initial: map<int32, DecodePlan>, loader: Option<Loader>, indexed: bool,
                                           rows: seq<StoredRow>)
    requires Readable(initial, loader, indexed, rows)
    ensures
      var r := DecodeAll(initial, loader, indexed, Store(initial, loader, indexed, rows));
      r.Ok? && AllSeen(initial, loader, indexed, rows, r.value)
  {
    hide PlanFor, RowReadable, RowSeen, DecodeStored, Stored;
    if rows != [] {
      FirstReadable(initial, loader, indexed, rows);
      hide Readable, Store, AllSeen;
      OneRowSeen(initial, loader, indexed, rows[0]);
      DecodedRowsSeen(initial, loader, indexed, rows[1..]);
      var row := DecodeStored(initial, loader, indexed, Store(initial, loader, indexed, rows)[0]).value;
      var rest := DecodeAll(initial, loader, indexed, Store(initial, loader, indexed, rows[1..])).value;
      AllSeenStep(initial, loader, indexed, rows, row, rest);
    }
  }

  /**
   What Reader.ReadAll makes of a store, in either layout and from any cache: with a loader that does not change its
   mind, rows stored under any mixture of older schemas come out in order, each as its target sees it.
   */
  lemma SnapshotOfRows(initial: map<int32, DecodePlan>, loader: Option<Loader>, indexed: bool, cache: Cache,
                       rows: seq<StoredRow>)
    requires SoundCache(initial, loader, cache) && Stable(loader) && Readable(initial, loader, indexed, rows)
    ensures
      var r := ReadFrom(loader, indexed, cache, Store(initial, loader, indexed, rows)).0;
      r.Ok? && AllSeen(initial, loader, indexed, rows, r.value)
  {
    hide SoundCache, Stable, Readable, AllSeen, DecodeAll, Store, ReadFrom;
    DecodedRowsSeen(initial, loader, indexed, rows);
    ReadSound(initial, loader, indexed, cache, Store(initial, loader, indexed, rows));
  }
}
