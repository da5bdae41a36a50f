/**
 Timestamps on their way through an Arrow column (internal/codec/arrow/record_batch.go:374-416): the encoder rounds
 down to the unit of the precision, the decoder divides with Go's truncation towards zero.
 */
module ArrowTimestamps {
  import opened Bytes

  const NANOS_PER_MILLI := 1_000_000

  /** Nanoseconds in one unit of an Arrow timestamp of this precision. */
  function Unit(precision: int): int {
    if precision <= 0 then 1_000_000_000
    else if precision <= 3 then 1_000_000
    else if precision <= 6 then 1_000
    else 1
  }

  /** Nanoseconds since the epoch. */
  function Instant(millis: int, nanos: int): int {
    millis * NANOS_PER_MILLI + nanos
  }

  /** Go's `/` and `%` on signed integers. */
  function Quo(a: int, b: int): int
    requires b > 0
  {
    if a >= 0 then a / b else -(-a / b)
  }

  function Rem(a: int, b: int): int
    requires b > 0
  {
    a - Quo(a, b) * b
  }

  /** timestampValueForField. Go's Unix, UnixMilli, UnixMicro and UnixNano round down and wrap around. */
  function TimestampValue(precision: int, millis: int64, nanos: int32): int64 {
    S64(Instant(millis, nanos) / Unit(precision))
  }

  /** timestampParts. */
  function TimestampParts(precision: int, ts: int64): (int64, int) {
    if precision <= 0 then (S64(ts * 1000), 0)
    else if precision <= 3 then (ts, 0)
    else if precision <= 6 then (Quo(ts, 1000), Rem(ts, 1000) * 1000)
    else (Quo(ts, NANOS_PER_MILLI), Rem(ts, NANOS_PER_MILLI))
  }

  function Through(precision: int, millis: int64, nanos: int32): (int64, int) {
    TimestampParts(precision, TimestampValue(precision, millis, nanos))
  }

  predicate IsInt64(n: int) {
    -0x8000_0000_0000_0000 <= n < 0x8000_0000_0000_0000
  }

  /** The instant can be counted in units, and in milliseconds if the unit is seconds. */
  predicate Representable(precision: int, millis: int64, nanos: int32) {
    var units := Instant(millis, nanos) / Unit(precision);
    IsInt64(units) && (precision <= 0 ==> IsInt64(units * 1000))
  }

  lemma S64Exactly(n: int)
    ensures S64(n) == n <==> IsInt64(n)
  {
  }

  lemma TruncatedDivision(a: int, b: int)
    requires b > 0
    ensures Quo(a, b) * b + Rem(a, b) == a
    ensures -b < Rem(a, b) < b
    ensures a >= 0 ==> Rem(a, b) >= 0 && Quo(a, b) >= 0
    ensures a <= 0 ==> Rem(a, b) <= 0 && Quo(a, b) <= 0
  {
  }

  lemma PartsKeepInstant(precision: int, ts: int64)
    ensures
      var (millis, nanos) := TimestampParts(precision, ts);
      && -NANOS_PER_MILLI < nanos < NANOS_PER_MILLI
      && (precision > 0 || IsInt64(ts * 1000) <==> Instant(millis, nanos) == ts * Unit(precision))
  {
    S64Exactly(ts * 1000);
    TruncatedDivision(ts, 1000);
    TruncatedDivision(ts, NANOS_PER_MILLI);
  }

  /** The instant survives, rounded down to the unit, exactly when it is representable. */
  lemma InstantRoundedDown(precision: int, millis: int64, nanos: int32)
    ensures
      var (ms, ns) := Through(precision, millis, nanos);
      var instant := Instant(millis, nanos);
      Instant(ms, ns) == instant - instant % Unit(precision) <==> Representable(precision, millis, nanos)
  {
    var units := Instant(millis, nanos) / Unit(precision);
    S64Exactly(units);
    PartsKeepInstant(precision, S64(units));
  }

  /** The pair the decoder builds for an instant: less than a millisecond of nanoseconds, of the sign of the rest. */
  predicate TruncatedForm(millis: int, nanos: int) {
    && -NANOS_PER_MILLI < nanos < NANOS_PER_MILLI
    && (millis > 0 ==> nanos >= 0)
    && (millis < 0 ==> nanos <= 0)
  }

  lemma PartsTruncated(precision: int, ts: int64)
    ensures
      var (millis, nanos) := TimestampParts(precision, ts);
      TruncatedForm(millis, nanos)
  {
    TruncatedDivision(ts, 1000);
    TruncatedDivision(ts, NANOS_PER_MILLI);
  }

  lemma TruncatedFormUnique(a: int, m: int, b: int, n: int)
    requires TruncatedForm(a, m) && TruncatedForm(b, n) && Instant(a, m) == Instant(b, n)
    ensures a == b && m == n
  {
  }

  /** The pair itself comes back exactly if it is in the decoder's form and a whole number of units. */
  lemma PairRestoredExactly(precision: int, millis: int64, nanos: int32)
    requires Representable(precision, millis, nanos)
    ensures Through(precision, millis, nanos) == (millis, nanos)
       <==> Instant(millis, nanos) % Unit(precision) == 0 && TruncatedForm(millis, nanos)
  {
    var (ms, ns) := Through(precision, millis, nanos);
    InstantRoundedDown(precision, millis, nanos);
    PartsTruncated(precision, TimestampValue(precision, millis, nanos));
    if TruncatedForm(millis, nanos) && Instant(millis, nanos) == Instant(ms, ns) {
      TruncatedFormUnique(millis, nanos, ms, ns);
    }
  }

  /** In particular for every instant since 1970 in the usual form. */
  lemma SinceEpochRestored(precision: int, millis: int64, nanos: int32)
    requires Representable(precision, millis, nanos)
    requires 0 <= millis && 0 <= nanos < NANOS_PER_MILLI && Instant(millis, nanos) % Unit(precision) == 0
    ensures Through(precision, millis, nanos) == (millis, nanos)
  {
    PairRestoredExactly(precision, millis, nanos);
  }

  /**
   What an Arrow column holds of a timestamp in the usual form, a millisecond and less than a million nanoseconds:
   seconds, milliseconds, microseconds or nanoseconds, as the precision says.
   */
  lemma UsualValue(precision: int, millis: int64, nanos: int32)
    requires 0 <= nanos < 1_000_000 && Representable(precision, millis, nanos)
    ensures precision <= 0 ==> TimestampValue(precision, millis, nanos) == millis / 1000
    ensures 1 <= precision <= 3 ==> TimestampValue(precision, millis, nanos) == millis
    ensures 4 <= precision <= 6 ==> TimestampValue(precision, millis, nanos) == millis * 1000 + nanos / 1000
    ensures precision >= 7 ==> TimestampValue(precision, millis, nanos) == millis * 1_000_000 + nanos
  {
    var n := Instant(millis, nanos);
    hide S64;
    if precision <= 0 {
      assert n / 1_000_000_000 == millis / 1000;
    } else if precision <= 3 {
      assert n / 1_000_000 == millis;
    } else if precision <= 6 {
      assert n / 1_000 == millis * 1000 + nanos / 1000;
    } else {
      assert n / 1 == n;
    }
    assert S64(n / Unit(precision)) == n / Unit(precision) by {
      S64Exactly(n / Unit(precision));
    }
  }

  /** How the number in the column is taken apart again, for instants since 1970. */
  lemma UsualParts(precision: int, ts: int64)
    requires ts >= 0
    ensures precision <= 0 && ts < 0x20_C49B_A5E3_53F7 ==> TimestampParts(precision, ts) == (ts * 1000, 0)
    ensures 1 <= precision <= 3 ==> TimestampParts(precision, ts) == (ts, 0)
    ensures 4 <= precision <= 6 ==> TimestampParts(precision, ts) == (ts / 1000, ts % 1000 * 1000)
    ensures precision >= 7 ==> TimestampParts(precision, ts) == (ts / 1_000_000, ts % 1_000_000)
  {
  }
}
