/**
 Reading a whole snapshot (internal/snapshot/reader.go). The store is the sequence of values its iterator visits; the
 plan loader is a function of the schema id and of how often it was called before, so it may change its mind.
 */
module SnapshotReader {
  import opened Bytes
  import opened FieldTypes
  import opened Results
  import opened SnapshotDecode
  import RowCodec

  type Loader = (nat, int32) -> Result<DecodePlan>

  /** A loader that always gives the same answer for one schema id. */
  ghost predicate Stable(loader: Option<Loader>) {
    loader.Some? ==> forall n: nat, id: int32 :: loader.value(n, id) == loader.value(0, id)
  }

  /** The plan for `id` from a fixed table and a stable loader. */
  function PlanFor(initial: map<int32, DecodePlan>, loader: Option<Loader>, id: int32): Result<DecodePlan> {
    if id in initial then Ok(initial[id])
    else if loader.None? then Err(SchemaNotAvailable)
    else loader.value(0, id)
  }

  function SchemaID(value: seq<byte>): int32
    requires |value| >= 2
  {
    Get16(value)
  }

  function DecodeStored(initial: map<int32, DecodePlan>, loader: Option<Loader>, indexed: bool, value: seq<byte>)
    : Result<seq<Value>>
  {
    if |value| < 2 then Err(PayloadTooShort)
    else
      var plan :- PlanFor(initial, loader, SchemaID(value));
      DecodeWith(plan, value[2..], indexed)
  }

  /** Every value decoded, or the first error. */
  function DecodeAll(initial: map<int32, DecodePlan>, loader: Option<Loader>, indexed: bool, values: seq<seq<byte>>)
    : Result<seq<seq<Value>>>
  {
    if values == [] then Ok([])
    else
      var row :- DecodeStored(initial, loader, indexed, values[0]);
      var rest :- DecodeAll(initial, loader, indexed, values[1..]);
      Ok([row] + rest)
  }

  // ---------- any loader: the cache threaded through ----------

  /** The plans known so far, and how often the loader has been called. */
  datatype Cache = Cache(plans: map<int32, DecodePlan>, loads: nat)

  /** The plan for `id`, and the cache after looking for it. */
  function Looked(loader: Option<Loader>, cache: Cache, id: int32): (Result<DecodePlan>, Cache) {
    if id in cache.plans then (Ok(cache.plans[id]), cache)
    else if loader.None? then (Err(SchemaNotAvailable), cache)
    else
      match loader.value(cache.loads, id)
      case Ok(plan) => (Ok(plan), Cache(cache.plans[id := plan], cache.loads + 1))
      case Err(e) => (Err(e), Cache(cache.plans, cache.loads + 1))
  }

  function DecodedFrom(loader: Option<Loader>, indexed: bool, cache: Cache, value: seq<byte>)
    : (Result<seq<Value>>, Cache)
  {
    if |value| < 2 then (Err(PayloadTooShort), cache)
    else
      var (plan, after) := Looked(loader, cache, SchemaID(value));
      match plan
      case Err(e) => (Err(e), after)
      case Ok(found) => (DecodeWith(found, value[2..], indexed), after)
  }

  /** All rows, or the first error, and the cache left behind. */
  function ReadFrom(loader: Option<Loader>, indexed: bool, cache: Cache, values: seq<seq<byte>>)
    : (Result<seq<seq<Value>>>, Cache)
    decreases |values|
  {
    if values == [] then (Ok([]), cache)
    else
      var (row, after) := DecodedFrom(loader, indexed, cache, values[0]);
      match row
      case Err(e) => (Err(e), after)
      case Ok(first) =>
        var (rest, last) := ReadFrom(loader, indexed, after, values[1..]);
        match rest
        case Err(e) => (Err(e), last)
        case Ok(rows) => (Ok([first] + rows), last)
  }

  lemma LookedKeeps(loader: Option<Loader>, cache: Cache, id: int32)
    ensures
      var (plan, after) := Looked(loader, cache, id);
      && (forall k :: k in cache.plans ==> k in after.plans && after.plans[k] == cache.plans[k])
      && (plan.Ok? ==> id in after.plans && after.plans[id] == plan.value)
  {
  }

  /** `row` is `value` decoded with the plan known for its schema id. */
  predicate DecodedWith(plans: map<int32, DecodePlan>, indexed: bool, value: seq<byte>, row: seq<Value>) {
    && |value| >= 2
    && SchemaID(value) in plans
    && DecodeWith(plans[SchemaID(value)], value[2..], indexed) == Ok(row)
  }

  /** Plans stay as they are, so all rows of one schema id are decoded with one plan. */
  lemma {:induction false} ReadWithOnePlan(loader: Option<Loader>, indexed: bool, cache: Cache, values: seq<seq<byte>>)
    ensures
      var (r, after) := ReadFrom(loader, indexed, cache, values);
      && (forall k :: k in cache.plans ==> k in after.plans && after.plans[k] == cache.plans[k])
      && (r.Ok? ==> |r.value| == |values|
                    && forall i :: 0 <= i < |values| ==> DecodedWith(after.plans, indexed, values[i], r.value[i]))
    decreases |values|
  {
    hide DecodeWith, Get16, Looked;
    if values != [] {
      var (row, next) := DecodedFrom(loader, indexed, cache, values[0]);
      if |values[0]| >= 2 {
        LookedKeeps(loader, cache, SchemaID(values[0]));
      }
      ReadWithOnePlan(loader, indexed, next, values[1..]);
    }
  }

  /** An error is that of one value, all values before which were read. */
  lemma {:induction false} ReadFails(loader: Option<Loader>, indexed: bool, cache: Cache, values: seq<seq<byte>>)
    returns (at: nat)
    requires ReadFrom(loader, indexed, cache, values).0.Err?
    ensures at < |values|
    ensures
      var (r, after) := ReadFrom(loader, indexed, cache, values[..at]);
      r.Ok? && DecodedFrom(loader, indexed, after, values[at]) == ReadFailure(loader, indexed, cache, values)
    decreases |values|
  {
    hide DecodedFrom;
    var (row, next) := DecodedFrom(loader, indexed, cache, values[0]);
    if row.Err? {
      at := 0;
    } else {
      var later := ReadFails(loader, indexed, next, values[1..]);
      at := later + 1;
      assert values[..at][0] == values[0] && values[..at][1..] == values[1..][..later];
    }
  }

  function ReadFailure(loader: Option<Loader>, indexed: bool, cache: Cache, values: seq<seq<byte>>)
    : (Result<seq<Value>>, Cache)
    requires ReadFrom(loader, indexed, cache, values).0.Err?
  {
    var (r, after) := ReadFrom(loader, indexed, cache, values);
    (Err(r.error), after)
  }

  /** Every plan known is an initial one or what the loader once answered, and the initial ones are all there. */
  ghost predicate SoundCache(initial: map<int32, DecodePlan>, loader: Option<Loader>, cache: Cache) {
    && initial.Keys <= cache.plans.Keys
    && (forall id :: id in initial ==> cache.plans[id] == initial[id])
    && (forall id :: id in cache.plans && id !in initial ==>
                       loader.Some? && exists n :: 0 <= n < cache.loads && loader.value(n, id) == Ok(cache.plans[id]))
  }

  lemma LookedSound(initial: map<int32, DecodePlan>, loader: Option<Loader>, cache: Cache, id: int32)
    requires SoundCache(initial, loader, cache)
    ensures SoundCache(initial, loader, Looked(loader, cache, id).1)
    ensures Stable(loader) ==> Looked(loader, cache, id).0 == PlanFor(initial, loader, id)
  {
    var (plan, after) := Looked(loader, cache, id);
    if id !in cache.plans && loader.Some? && plan.Ok? {
      assert loader.value(after.loads - 1, id) == Ok(plan.value);
    }
  }

  lemma {:induction false} ReadSound(initial: map<int32, DecodePlan>, loader: Option<Loader>, indexed: bool, cache: Cache,
                                     values: seq<seq<byte>>)
    requires SoundCache(initial, loader, cache)
    ensures SoundCache(initial, loader, ReadFrom(loader, indexed, cache, values).1)
    ensures Stable(loader) ==>
              ReadFrom(loader, indexed, cache, values).0 == DecodeAll(initial, loader, indexed, values)
    decreases |values|
  {
    hide DecodeWith, Get16, SoundCache, Looked, PlanFor, Stable;
    if values != [] {
      if |values[0]| >= 2 {
        LookedSound(initial, loader, cache, SchemaID(values[0]));
      }
      var next := DecodedFrom(loader, indexed, cache, values[0]).1;
      ReadSound(initial, loader, indexed, next, values[1..]);
    }
  }

  /** Rows read already, in front of what reading the others gives. */
  function After(rows: seq<seq<Value>>, rest: (Result<seq<seq<Value>>>, Cache)): (Result<seq<seq<Value>>>, Cache) {
    (RowCodec.Prepended(rows, rest.0), rest.1)
  }

  // ---------- the reader ----------

  class Reader {
    const values: seq<seq<byte>>
    const iterationFails: bool
    const loader: Option<Loader>
    const indexed: bool
    var plans: map<int32, DecodePlan>
    var loads: nat
    ghost const initial: map<int32, DecodePlan>

    constructor (values: seq<seq<byte>>, iterationFails: bool, plans: map<int32, DecodePlan>, loader: Option<Loader>,
                 indexed: bool)
      ensures Valid() && initial == plans == this.plans && this.loader == loader && this.indexed == indexed
      ensures this.values == values && this.iterationFails == iterationFails
    {
      this.values, this.iterationFails := values, iterationFails;
      this.loader, this.indexed, this.plans, this.initial := loader, indexed, plans, plans;
      loads := 0;
    }

    function Cached(): Cache
      reads `plans, `loads
    {
      Cache(plans, loads)
    }

    ghost predicate Valid()
      reads this
    {
      SoundCache(initial, loader, Cached())
    }

    method LookupPlan(id: int32) returns (r: Result<Option<DecodePlan>>)
      requires Valid()
      modifies `plans, `loads
      ensures Valid() && old(plans).Keys <= plans.Keys && forall k :: k in old(plans) ==> plans[k] == old(plans)[k]
      ensures id in old(plans) ==> r == Ok(Some(old(plans)[id])) && plans == old(plans) && loads == old(loads)
      ensures id !in old(plans) && loader.None? ==> r == Ok(None) && plans == old(plans) && loads == old(loads)
      ensures id !in old(plans) && loader.Some? ==>
                && loads == old(loads) + 1
                && var answer := loader.value(old(loads), id);
                   && (answer.Ok? ==> r == Ok(Some(answer.value)) && plans == old(plans)[id := answer.value])
                   && (answer.Err? ==> r == Err(answer.error) && plans == old(plans))
    {
      LookedSound(initial, loader, Cached(), id);
      if id in plans {
        return Ok(Some(plans[id]));
      }
      if loader.None? {
        return Ok(None);
      }
      var loaded := loader.value(loads, id);
      loads := loads + 1;
      if loaded.Err? {
        return Err(loaded.error);
      }
      plans := plans[id := loaded.value];
      return Ok(Some(loaded.value));
    }

    method DecodeValue(value: seq<byte>) returns (r: Result<seq<Value>>)
      requires Valid()
      modifies `plans, `loads
      ensures Valid() && (r, Cached()) == DecodedFrom(loader, indexed, old(Cached()), value)
      ensures old(plans).Keys <= plans.Keys && forall k :: k in old(plans) ==> plans[k] == old(plans)[k]
      ensures r.Ok? ==> DecodedWith(plans, indexed, value, r.value)
      ensures Stable(loader) ==> r == DecodeStored(initial, loader, indexed, value)
    {
      hide DecodeWith, Get16, Valid, SoundCache;
      if |value| < 2 {
        return Err(PayloadTooShort);
      }
      LookupSteady(SchemaID(value));
      var plan := LookupPlan(SchemaID(value));
      if plan.Err? {
        return Err(plan.error);
      }
      if plan.value.None? {
        return Err(SchemaNotAvailable);
      }
      r := DecodePayload(plan.value.value, value[2..], indexed);
    }

    lemma LookupSteady(id: int32)
      requires Valid()
      ensures Stable(loader) ==> Looked(loader, Cached(), id).0 == PlanFor(initial, loader, id)
    {
      LookedSound(initial, loader, Cached(), id);
    }

    /**
     All rows of the store, or the error of the first value or of the iteration. Whatever the loader does, values of
     one schema id are decoded with one plan; with a stable loader the rows are those of DecodeAll.
     */
    method ReadAll() returns (r: Result<seq<seq<Value>>>)
      requires Valid()
      modifies `plans, `loads
      ensures Valid()
      ensures
        var (read, cache) := ReadFrom(loader, indexed, old(Cached()), values);
        Cached() == cache && r == if read.Ok? && iterationFails then Err(IterationFailed) else read
      ensures r.Ok? ==> !iterationFails && |r.value| == |values|
      ensures r.Ok? ==> forall i :: 0 <= i < |values| ==> DecodedWith(plans, indexed, values[i], r.value[i])
      ensures
        var all := DecodeAll(initial, loader, indexed, values);
        Stable(loader) ==> r == if all.Ok? && iterationFails then Err(IterationFailed) else all
    {
      hide DecodedFrom, DecodeAll, DecodedWith, SoundCache, Stable;
      ReadSound(initial, loader, indexed, Cached(), values);
      ReadWithOnePlan(loader, indexed, Cached(), values);
      hide Valid;
      var rows: seq<seq<Value>> := [];
      ghost var whole := ReadFrom(loader, indexed, Cached(), values);
      RowCodec.PrependedNothing([], whole.0);
      assert values[0..] == values;
      for i := 0 to |values|
        invariant Valid() && whole == After(rows, ReadFrom(loader, indexed, Cached(), values[i..]))
      {
        assert values[i..][1..] == values[i + 1..];
        var row := DecodeValue(values[i]);
        if row.Err? {
          return Err(row.error);
        }
        RowCodec.PrependedStep(rows, row.value, ReadFrom(loader, indexed, Cached(), values[i + 1..]).0);
        rows := rows + [row.value];
      }
      RowCodec.PrependedNothing(rows, Ok([]));
      if iterationFails {
        return Err(IterationFailed);
      }
      return Ok(rows);
    }
  }
}
