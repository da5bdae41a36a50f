/**
 Reading stored rows under a newer schema (internal/snapshot/decode.go): a value carries the id of the schema it was
 written with, and its columns are matched to the target's by name.
 */
module SnapshotDecode {
  import opened Bytes
  import opened FieldTypes
  import opened Results
  import opened RowLayout
  import opened RowRoundTrip
  import RowCodec
  import RowCompactedLimits

  datatype DecodePlan = DecodePlan(decodeSchema: seq<FieldType>, targetSchema: seq<FieldType>,
                                   sourceColumns: seq<string>, targetColumns: seq<string>)

  /** Where `name` stands last in `names`. */
  function LastIndex(names: seq<string>, name: string): (r: Option<nat>)
    ensures r.Some? ==> r.value < |names| && names[r.value] == name
    ensures r.Some? ==> forall j :: r.value < j < |names| ==> names[j] != name
    ensures r.None? <==> name !in names
  {
    if names == [] then None
    else
      var n := |names| - 1;
      assert names == names[..n] + [names[n]];
      if names[n] == name then Some(n) else LastIndex(names[..n], name)
  }

  /** The value of the source column called `name`, or nil. */
  function ColumnNamed(row: seq<Value>, source: seq<string>, name: string): Value {
    var at := LastIndex(source, name);
    if at.None? || at.value >= |row| then Nil else row[at.value]
  }

  function Projected(row: seq<Value>, source: seq<string>, target: seq<string>): (out: seq<Value>)
    ensures |out| == |target|
    ensures forall i :: 0 <= i < |target| ==> out[i] == ColumnNamed(row, source, target[i])
  {
    seq(|target|, i requires 0 <= i < |target| => ColumnNamed(row, source, target[i]))
  }

  method SameColumns(source: seq<string>, target: seq<string>) returns (same: bool)
    ensures same <==> source == target
  {
    if |source| != |target| {
      return false;
    }
    for i := 0 to |source|
      invariant source[..i] == target[..i]
    {
      if source[i] != target[i] {
        return false;
      }
    }
    return true;
  }

  /** The last place of each name. */
  ghost predicate IndexesLast(indexByName: map<string, nat>, names: seq<string>) {
    && (forall name :: name in indexByName <==> LastIndex(names, name).Some?)
    && (forall name :: name in indexByName ==> LastIndex(names, name) == Some(indexByName[name]))
  }

  method IndexNames(names: seq<string>) returns (indexByName: map<string, nat>)
    ensures IndexesLast(indexByName, names)
  {
    indexByName := map[];
    for i := 0 to |names|
      invariant IndexesLast(indexByName, names[..i])
    {
      assert names[..i + 1][..i] == names[..i];
      indexByName := indexByName[names[i] := i];
    }
    assert names[..|names|] == names;
  }

  /** `name` stands at `j` and nowhere behind. */
  ghost predicate StandsLast(names: seq<string>, j: nat, name: string) {
    j < |names| && names[j] == name && forall l :: j < l < |names| ==> names[l] != name
  }

  lemma ColumnNamedExactly(row: seq<Value>, source: seq<string>, name: string)
    ensures name !in source ==> ColumnNamed(row, source, name) == Nil
    ensures forall j: nat :: StandsLast(source, j, name) ==>
              ColumnNamed(row, source, name) == if j < |row| then row[j] else Nil
  {
    hide LastIndex;
    var at := LastIndex(source, name);
    forall j: nat | StandsLast(source, j, name) ensures at == Some(j) {
      assert name in source;
    }
  }

  method ProjectRow(row: seq<Value>, source: seq<string>, target: seq<string>) returns (projected: seq<Value>)
    ensures projected == Projected(row, source, target)
    ensures |projected| == |target|
    ensures forall k :: 0 <= k < |target| && target[k] !in source ==> projected[k] == Nil
    ensures forall k, j: nat :: 0 <= k < |target| && StandsLast(source, j, target[k]) ==>
              projected[k] == if j < |row| then row[j] else Nil
  {
    var out := new Value[|target|](_ => Nil);
    var indexByName := IndexNames(source);
    hide LastIndex;
    for i := 0 to |target|
      invariant forall k :: 0 <= k < i ==> out[k] == ColumnNamed(row, source, target[k])
    {
      var name := target[i];
      if name !in indexByName || indexByName[name] >= |row| {
        out[i] := Nil;
      } else {
        out[i] := row[indexByName[name]];
      }
    }
    forall k | 0 <= k < |target|
      ensures target[k] !in source ==> out[k] == Nil
      ensures forall j: nat :: StandsLast(source, j, target[k]) ==> out[k] == if j < |row| then row[j] else Nil
    {
      ColumnNamedExactly(row, source, target[k]);
    }
    return out[..];
  }

  /** What decodeValue makes of the bytes behind the schema id. */
  function DecodeWith(plan: DecodePlan, payload: seq<byte>, indexed: bool): Result<seq<Value>> {
    var row :- DecodeRow(plan.decodeSchema, payload, indexed);
    if plan.targetColumns == [] || plan.sourceColumns == plan.targetColumns then Ok(row)
    else Ok(Projected(row, plan.sourceColumns, plan.targetColumns))
  }

  method DecodePayload(plan: DecodePlan, payload: seq<byte>, indexed: bool) returns (r: Result<seq<Value>>)
    ensures r == DecodeWith(plan, payload, indexed)
  {
    hide DecodeRow;
    r := RowCodec.DecodeRow(plan.decodeSchema, payload, indexed);
    if r.Err? {
      return;
    }
    var same := SameColumns(plan.sourceColumns, plan.targetColumns);
    if |plan.targetColumns| == 0 || same {
      return;
    }
    var projected := ProjectRow(r.value, plan.sourceColumns, plan.targetColumns);
    return Ok(projected);
  }

  // ---------- the fast path ----------

  /** Columns of the same name hold the same value. */
  ghost predicate RepeatsAgree(row: seq<Value>, names: seq<string>)
    requires |row| == |names|
  {
    forall i, j :: 0 <= i < j < |names| && names[i] == names[j] ==> row[i] == row[j]
  }

  ghost predicate Distinct(names: seq<string>) {
    forall i, j :: 0 <= i < j < |names| ==> names[i] != names[j]
  }

  /** Skipping the projection for equal column lists is sound exactly when columns of one name agree. */
  lemma FastPathExactly(row: seq<Value>, names: seq<string>)
    requires |row| == |names|
    ensures Projected(row, names, names) == row <==> RepeatsAgree(row, names)
    ensures Distinct(names) ==> Projected(row, names, names) == row
  {
    var out := Projected(row, names, names);
    if out == row {
      forall i, j | 0 <= i < j < |names| && names[i] == names[j] ensures row[i] == row[j] {
        assert out[i] == ColumnNamed(row, names, names[i]) == ColumnNamed(row, names, names[j]) == out[j];
      }
    }
    if RepeatsAgree(row, names) {
      forall i | 0 <= i < |names| ensures out[i] == row[i] {
        var at := LastIndex(names, names[i]).value;
        assert i <= at;
      }
      assert out == row;
    }
  }

  // ---------- schema evolution ----------

  /** The value bytes of a row written under schema `id`. */
  function StoredValue(id: uint16, row: seq<byte>): seq<byte> {
    LE16(id) + row
  }

  /**
   A row of `plan`'s older schema, as the target sees it: a target column that the older schema does not have is nil, and
   one that it has holds the value stored in the column of that name. A plan without target columns changes nothing.
   */
  ghost predicate SeenThrough(plan: DecodePlan, stored: seq<Value>, seen: seq<Value>)
    requires |stored| == |plan.sourceColumns|
  {
    if plan.targetColumns == [] then seen == stored
    else
      && |seen| == |plan.targetColumns|
      && (forall k :: 0 <= k < |seen| && plan.targetColumns[k] !in plan.sourceColumns ==> seen[k] == Nil)
      && (forall k, j :: 0 <= k < |seen| && 0 <= j < |stored| && plan.targetColumns[k] == plan.sourceColumns[j] ==>
            seen[k] == stored[j])
  }

  lemma ProjectedSeen(plan: DecodePlan, stored: seq<Value>)
    requires |stored| == |plan.sourceColumns| && Distinct(plan.sourceColumns) && plan.targetColumns != []
    ensures SeenThrough(plan, stored, Projected(stored, plan.sourceColumns, plan.targetColumns))
  {
    var seen := Projected(stored, plan.sourceColumns, plan.targetColumns);
    hide ColumnNamed, Projected;
    forall k | 0 <= k < |seen|
      ensures plan.targetColumns[k] !in plan.sourceColumns ==> seen[k] == Nil
      ensures forall j :: 0 <= j < |stored| && plan.targetColumns[k] == plan.sourceColumns[j] ==> seen[k] == stored[j]
    {
      ColumnNamedExactly(stored, plan.sourceColumns, plan.targetColumns[k]);
      forall j | 0 <= j < |stored| && plan.targetColumns[k] == plan.sourceColumns[j] ensures seen[k] == stored[j] {
        assert StandsLast(plan.sourceColumns, j, plan.targetColumns[k]);
      }
    }
  }

  lemma PlanApplied(plan: DecodePlan, payload: seq<byte>, indexed: bool, stored: seq<Value>)
    requires DecodeRow(plan.decodeSchema, payload, indexed) == Ok(stored)
    requires |plan.sourceColumns| == |plan.decodeSchema| && Distinct(plan.sourceColumns)
    ensures
      var r := DecodeWith(plan, payload, indexed);
      r.Ok? && SeenThrough(plan, stored, r.value)
  {
    hide DecodeRow, Projected, Distinct;
    if plan.targetColumns != [] {
      hide SeenThrough;
      if plan.sourceColumns == plan.targetColumns {
        FastPathExactly(stored, plan.sourceColumns);
      }
      ProjectedSeen(plan, stored);
    }
  }

  /** An indexed row written under an older schema: each target column gets its namesake's value, or nil. */
  lemma IndexedEvolution(plan: DecodePlan, id: uint16, values: seq<Value>)
    requires RowKeysHashable(plan.decodeSchema) && EncodeRow(plan.decodeSchema, values, true).Ok?
    requires RowFits(plan.decodeSchema, values)
    requires |plan.sourceColumns| == |plan.decodeSchema| && Distinct(plan.sourceColumns)
    ensures
      var stored := StoredValue(id, EncodeRow(plan.decodeSchema, values, true).value);
      && |stored| >= 2 && Get16(stored) == id
      && var r := DecodeWith(plan, stored[2..], true);
         r.Ok? && SeenThrough(plan, CanonRow(plan.decodeSchema, values), r.value)
  {
    hide DecodeRow, RowKeysHashable, RowFits;
    var row := EncodeRow(plan.decodeSchema, values, true).value;
    IndexedRowDecodes(plan.decodeSchema, values);
    hide EncodeRow, CanonRow, Get16;
    Get16OfLE16(id, row);
    PlanApplied(plan, row, true, CanonRow(plan.decodeSchema, values));
    hide LE16;
  }

  /** The same for every compacted row that comes back at all. */
  lemma CompactedEvolution(plan: DecodePlan, id: uint16, values: seq<Value>)
    requires EncodeRow(plan.decodeSchema, values, false).Ok?
    requires RowCompactedLimits.PrefixesFit(plan.decodeSchema, values)
    requires RowCompactedLimits.ComesBack(plan.decodeSchema, values)
    requires |plan.sourceColumns| == |plan.decodeSchema| && Distinct(plan.sourceColumns)
    ensures
      var stored := StoredValue(id, EncodeRow(plan.decodeSchema, values, false).value);
      && |stored| >= 2 && Get16(stored) == id
      && var r := DecodeWith(plan, stored[2..], false);
         r.Ok? && SeenThrough(plan, CanonRow(plan.decodeSchema, values), r.value)
  {
    hide DecodeRow, RowCompactedLimits.ComesBack, RowCompactedLimits.PrefixesFit;
    var row := EncodeRow(plan.decodeSchema, values, false).value;
    RowCompactedLimits.CompactedRowExactly(plan.decodeSchema, values);
    hide EncodeRow, CanonRow, Get16;
    Get16OfLE16(id, row);
    PlanApplied(plan, row, false, CanonRow(plan.decodeSchema, values));
    hide LE16;
  }
}
