/** Which compacted columns come back, for every row: the exact condition, column by column. */
module CompactedSurvivors {
  import opened Bytes
  import opened CompactedColumns
  import opened CompactedPositions
  import opened FieldTypes
  import opened FixedAsVarint
  import opened Results
  import opened RowCompacted
  import opened RowLayout
  import opened RowRoundTrip
  import opened Varint

  /** The bytes are two varints and nothing more. */
  predicate TwoVarints(bs: seq<byte>) {
    TwoVarintsSize(bs) == Ok(|bs|)
  }

  /** What the decoder takes to be the width of a fine timestamp. */
  function TwoVarintsSize(payload: seq<byte>): Result<nat> {
    var first :- VarintSize(payload);
    var second :- VarintSize(payload[first..]);
    Ok(first + second)
  }

  predicate HasNarrow(columns: seq<Column>) {
    exists c :: c in columns && Narrow(c.t)
  }

  /**
   The columns that come back. After a narrow column, which leaves seven zeros unread, everything must be written in
   zeros. A fine one comes back where its twelve bytes happen to be two varints; where they lack one zero byte for
   that, the decoder has to lose its lead again over a narrow column.
   */
  predicate Survivors(columns: seq<Column>) {
    columns == []
    || var c, rest := columns[0], columns[1..];
       if CompactSafe(c.t) then Survivors(rest)
       else if Narrow(c.t) then 0 <= Number(c.Kept()) < 128 && ZeroColumns(rest)
       else
         && Fine(c.t)
         && ((TwoVarints(c.code) && Survivors(rest))
             || (TwoVarints(c.code + [0]) && ZeroColumns(rest) && HasNarrow(rest)))
  }

  // ---------- one byte ahead over a zero ----------

  lemma ZeroCodeAhead(c: Column, rest: seq<byte>, w: nat)
    requires Written(c) && CompactSafe(c.t) && AllZero(c.code) && c.code != []
    requires Reads(c, (c.code + rest)[1..], w)
    requires w >= |c.code| ==> AllZero(rest[..1 + w - |c.code|])
    ensures w == |c.code| && rest != [] && rest[0] == 0
  {
    var payload := (c.code + rest)[1..];
    EveryKind(c.t);
    UvarintWidth(payload, 0);
    hide UvarintFrom;
    if c.t.BoolType? {
      FlagRead(c, payload, w);
    } else if Plain(c.t) {
      PlainRead(c, payload, w);
    } else if Counted(c.t) {
      var x, y := CountedRead(c, payload, w);
      PutUvarintZero(x);
      assert x == 0 && c.code == [0];
      ZeroFirst(payload);
    } else {
      var y, p := PrefixedRead(c, payload, w);
      PrefixedCode(c);
      EmptyIfZero(RawBytes(c));
      assert c.code == [0];
      ZeroFirst(payload);
    }
    assert rest[..1 + w - |c.code|][0] == rest[0];
  }

  lemma ZeroFirst(payload: seq<byte>)
    ensures payload != [] && payload[0] == 0 ==> Uvarint(payload) == Decoded(0, 1)
  {
  }

  lemma EmptyIfZero(raw: seq<byte>)
    ensures AllZero(PutUvarint(|raw|) + raw) ==> raw == [] && PutUvarint(|raw|) + raw == [0]
  {
    PutUvarintZero(|raw|);
    assert (PutUvarint(|raw|) + raw)[0] == PutUvarint(|raw|)[0];
  }

  lemma CodeNotEmpty(c: Column)
    requires Written(c) && !Nested(c.t)
    ensures c.code != []
  {
    EveryKind(c.t);
    hide LE, PutUvarint;
    if Prefixed(c.t) {
      PrefixedCode(c);
    }
  }

  /** A narrow zero, one byte of which the decoder has passed already. */
  lemma NarrowZeroAhead(c: Column, rest: seq<byte>) returns (zeros: seq<byte>)
    requires Written(c) && Narrow(c.t) && AllZero(c.code)
    ensures Reads(c, (c.code + rest)[1..], 1) && (c.code + rest)[2..] == zeros + rest
    ensures AllZero(zeros) && |zeros| == 6
  {
    var payload := (c.code + rest)[1..];
    NarrowCode(c);
    hide Written, Narrow, Reads, LE, Uvarint, Number;
    LE64Zero(U64(Number(c.Kept())));
    AheadByte(c.code, rest, 1, 0);
    ZeroFirst(payload);
    NarrowReads(c, payload, 1);
    zeros := c.code[2..];
    assert (c.code + rest)[2..] == zeros + rest;
  }

  lemma SafeZeroAhead(c: Column, rest: seq<byte>)
    requires Written(c) && CompactSafe(c.t) && AllZero(c.code) && c.code != [] && rest != [] && rest[0] == 0
    ensures Reads(c, (c.code + rest)[1..], |c.code|) && (c.code + rest)[1..][|c.code|..] == rest[1..]
  {
    SafeReads(c, rest[1..]);
    hide Reads;
    assert (c.code + rest)[1..] == c.code + rest[1..];
  }

  lemma NarrowAmong(columns: seq<Column>)
    requires columns != []
    ensures HasNarrow(columns) <==> Narrow(columns[0].t) || HasNarrow(columns[1..])
  {
    hide Narrow;
    assert columns == [columns[0]] + columns[1..];
  }

  lemma {:induction false} NarrowZeroStream(columns: seq<Column>)
    requires AllWritten(columns) && ZeroColumns(columns) && HasNarrow(columns)
    ensures Stream(columns) != [] && Stream(columns)[0] == 0
  {
    SplitColumns(columns);
    CodeNotEmpty(columns[0]);
    hide Written;
  }

  /** Nothing comes back from one byte ahead unless the first column is zeros and the next byte a zero again. */
  lemma AheadOneStep(c: Column, later: seq<Column>, w: nat)
    requires OneAhead(c, later, w) && !Narrow(c.t)
    requires c.code + Stream(later) != [] && (c.code + Stream(later))[0] == 0
    ensures AllZero(c.code) && CompactSafe(c.t)
    ensures Stream(later) != [] && Stream(later)[0] == 0 && ReadsBack(later, Stream(later)[1..])
  {
    var rest := Stream(later);
    EveryKind(c.t);
    hide Reads, Written, AllWritten, ReadsBack, Stream, AllZero;
    if Nested(c.t) {
      NestedNotRead(c, (c.code + rest)[1..], w);
    } else {
      CodeNotEmpty(c);
      AheadStops(c, later, w);
      if Fine(c.t) {
        FineAheadUnread(c, rest, w);
      } else {
        ZeroCodeAhead(c, rest, w);
        PastFront(c.code, rest, 1 + w);
      }
    }
  }

  lemma FineAheadUnread(c: Column, rest: seq<byte>, w: nat)
    requires Written(c) && Fine(c.t) && AllZero(c.code)
    ensures !Reads(c, (c.code + rest)[1..], w)
  {
    FineBytes(c);
    hide Written, Fine, Reads, TimestampBytes;
    FineUnread(c, (c.code + rest)[1..], w);
  }

  lemma NestedNotRead(c: Column, payload: seq<byte>, w: nat)
    requires Nested(c.t)
    ensures !Reads(c, payload, w)
  {
  }

  /** Where the columns behind the first one are to be found from `k` bytes on, those bytes are zeros. */
  lemma OnlyOverZeros(columns: seq<Column>, k: nat)
    requires AllWritten(columns) && k <= |Stream(columns)| && ReadsBack(columns, Stream(columns)[k..])
    ensures AllZero(Stream(columns)[..k])
  {
    var whole := Stream(columns);
    assert AllZero([]) && whole + [] == whole;
    hide AllZero, ReadsBack, AllWritten, Stream;
    if !AllZero(whole[..k]) {
      NeverRecovers(columns, k, []);
    }
  }

  /** One byte into the code of `c`, the decoder finds `c` in `w` bytes and the later columns behind them. */
  ghost predicate OneAhead(c: Column, later: seq<Column>, w: nat) {
    && Written(c) && AllWritten(later)
    && 1 + w <= |c.code| + |Stream(later)|
    && Reads(c, (c.code + Stream(later))[1..], w)
    && ReadsBack(later, (c.code + Stream(later))[1 + w..])
  }

  /** One byte ahead, the decoder gets past a column only if it is zeros, and only over zeros. */
  lemma AheadStops(c: Column, later: seq<Column>, w: nat)
    requires OneAhead(c, later, w) && c.code != []
    ensures AllZero(c.code)
    ensures w >= |c.code| ==> w - |c.code| < |Stream(later)| && AllZero(Stream(later)[..1 + w - |c.code|])
  {
    var rest, n := Stream(later), |c.code|;
    hide Reads, Written, AllWritten, ReadsBack, AllZero, Stream;
    if !AllZero(c.code) {
      NotZeroFurtherOn(c, rest, 1, w);
    }
    if w >= n {
      PastFront(c.code, rest, 1 + w);
      OnlyOverZeros(later, 1 + w - n);
    }
  }

  /** What comes back from one byte ahead over a zero is zeros with a narrow column among them. */
  lemma {:induction false} AheadOneOnlyZeros(columns: seq<Column>)
    requires AllWritten(columns) && Stream(columns) != [] && Stream(columns)[0] == 0
    requires ReadsBack(columns, Stream(columns)[1..])
    ensures ZeroColumns(columns) && HasNarrow(columns)
    decreases |columns|
  {
    var c := columns[0];
    SplitColumns(columns);
    NarrowAmong(columns);
    assert Stream(columns) == c.code + Stream(columns[1..]);
    hide AllZero, Written, CompactSafe, Narrow, AllWritten, ZeroColumns, HasNarrow, Stream, ReadsBack, OneAhead;
    var w := FirstAhead(columns);
    if Narrow(c.t) {
      NarrowAheadOnlyZeros(c, columns[1..], w);
    } else {
      AheadOneStep(c, columns[1..], w);
      AheadOneOnlyZeros(columns[1..]);
    }
  }

  lemma FirstAhead(columns: seq<Column>) returns (w: nat)
    requires AllWritten(columns) && columns != [] && Stream(columns) != []
    requires ReadsBack(columns, Stream(columns)[1..])
    ensures OneAhead(columns[0], columns[1..], w)
  {
    SplitColumns(columns);
    var whole := columns[0].code + Stream(columns[1..]);
    assert Stream(columns) == whole;
    hide Reads, Written, AllWritten, ReadsBack, Stream, CompactSafe, Narrow;
    w := FirstRead(columns, whole[1..]);
    DropTwice(whole, 1, w);
  }

  /** Zeros with a narrow column among them come back from one byte ahead, whatever follows. */
  lemma {:induction false} ZerosFromOneAhead(columns: seq<Column>, tail: seq<byte>)
    requires AllWritten(columns) && ZeroColumns(columns) && HasNarrow(columns) && Stream(columns) != []
    ensures ReadsBack(columns, (Stream(columns) + tail)[1..])
    decreases |columns|
  {
    var c, later := columns[0], columns[1..];
    var whole, rest := Stream(columns) + tail, Stream(later) + tail;
    SplitColumns(columns);
    NarrowAmong(columns);
    Reassociate(c.code, Stream(later), tail);
    assert whole == c.code + rest;
    hide AllZero, Reads, Written, CompactSafe, Narrow, AllWritten, ZeroColumns, HasNarrow, Stream, ReadsBack;
    if Narrow(c.t) {
      var zeros := NarrowZeroAhead(c, rest);
      DropTwice(whole, 1, 1);
      ReadsBackStep(columns, whole[1..], 1);
      BehindExactly(later, zeros, tail);
    } else {
      NarrowZeroStream(later);
      SafeColumn(c);
      CodeNotEmpty(c);
      SafeZeroAhead(c, rest);
      ReadsBackStep(columns, whole[1..], |c.code|);
      ZerosFromOneAhead(later, tail);
    }
  }

  lemma SafeColumn(c: Column)
    ensures CompactSafe(c.t) ==> !Nested(c.t)
  {
  }

  lemma FirstRead(columns: seq<Column>, payload: seq<byte>) returns (w: nat)
    requires columns != [] && ReadsBack(columns, payload)
    ensures w <= |payload| && Reads(columns[0], payload, w) && ReadsBack(columns[1..], payload[w..])
  {
    w :| Reads(columns[0], payload, w) && ReadsBack(columns[1..], payload[w..]);
  }

  lemma NarrowAheadOnlyZeros(c: Column, later: seq<Column>, w: nat)
    requires OneAhead(c, later, w) && Narrow(c.t) && c.code + Stream(later) != []
    ensures AllZero(c.code) && ZeroColumns(later)
  {
    var rest := Stream(later);
    hide Written, AllWritten, ZeroColumns, ReadsBack, Stream, AllZero, Narrow, Reads, LE;
    NarrowCode(c);
    AheadStops(c, later, w);
    var zeros := NarrowZeroAhead(c, rest);
    SameWidth(c, (c.code + rest)[1..], w, 1);
    BehindAlone(later, zeros);
  }

  lemma BehindAlone(columns: seq<Column>, zeros: seq<byte>)
    requires AllWritten(columns) && AllZero(zeros) && |zeros| >= 2
    ensures ReadsBack(columns, zeros + Stream(columns)) <==> ZeroColumns(columns)
  {
    assert Stream(columns) + [] == Stream(columns);
    hide AllZero, AllWritten, ReadsBack, ZeroColumns, Stream;
    BehindExactly(columns, zeros, []);
  }

  lemma SameWidth(c: Column, payload: seq<byte>, w: nat, v: nat)
    requires Reads(c, payload, w) && Reads(c, payload, v)
    ensures w == v
  {
  }

  // ---------- fine timestamps ----------

  lemma {:induction false} VarintBytes(bs: seq<byte>, i: nat)
    requires i <= 10
    ensures
      var r := UvarintFrom(bs, i);
      r.Decoded? ==> r.width <= |bs| && i + r.width <= 10 && forall j :: 0 <= j < r.width - 1 ==> bs[j] >= 128
  {
    if bs != [] && i < 10 && bs[0] >= 128 {
      VarintBytes(bs[1..], i + 1);
      var later := UvarintFrom(bs[1..], i + 1);
      assert later.Decoded? ==> forall j :: 0 < j < later.width ==> bs[j] == bs[1..][j - 1];
    }
  }

  lemma TwoVarintsOfPrefix(a: seq<byte>, b: seq<byte>, w: nat)
    requires TwoVarintsSize(a) == Ok(w) && w <= |a| && w <= |b| && a[..w] == b[..w]
    ensures TwoVarintsSize(b) == Ok(w)
  {
    var first := VarintSize(a).value;
    assert a[..first] == a[..w][..first] && b[..first] == b[..w][..first];
    UvarintOfPrefix(a, b, 0);
    MiddleSlice(a, first, w);
    MiddleSlice(b, first, w);
    UvarintOfPrefix(a[first..], b[first..], 0);
  }

  lemma MiddleSlice<T>(s: seq<T>, i: nat, j: nat)
    requires i <= j <= |s|
    ensures s[i..][..j - i] == s[..j][i..]
  {
  }

  /** A span of more than thirteen bytes covers a thirteenth byte with the high bit set. */
  lemma LongSpan(payload: seq<byte>, w: nat)
    requires TwoVarintsSize(payload) == Ok(w)
    ensures w <= |payload| && (w > 13 ==> payload[12] >= 128)
  {
    VarintBytes(payload, 0);
    var first := VarintSize(payload).value;
    VarintBytes(payload[first..], 0);
    if w > 13 {
      assert payload[12] == payload[first..][12 - first];
    }
  }

  lemma FineReads(c: Column, rest: seq<byte>, w: nat)
    requires Written(c) && Fine(c.t)
    ensures |c.code| == 12
    ensures Reads(c, c.code + rest, w) <==> TwoVarintsSize(c.code + rest) == Ok(w) && w >= 12
  {
    var payload := c.code + rest;
    FineBytes(c);
    if TwoVarintsSize(payload) == Ok(w) {
      LongSpan(payload, w);
      if w >= 12 {
        FineDecodes(c, payload[..w]);
      }
    }
    hide VarintSize, LE;
  }

  /** The decoder reads the first twelve bytes, whatever the width. */
  lemma FineDecodes(c: Column, bs: seq<byte>)
    requires Written(c) && Fine(c.t) && |c.code| == 12 <= |bs| && bs[..12] == c.code
    ensures DecodeValue(c.t, bs, false) == Ok(c.Kept())
  {
    FineBytes(c);
    hide Written, LE, FromLE, S64, S32;
    TimestampFront(c.v.ms, c.v.nanos, bs);
  }

  lemma TimestampFront(ms: int64, nanos: int32, bs: seq<byte>)
    requires |bs| >= 12 && bs[..12] == EncodeFixed64(ms) + EncodeFixed32(nanos)
    ensures S64(Get64(bs)) == ms && S32(Get32(bs[8..])) == nanos
  {
    hide LE, FromLE;
    Fixed64RoundTrip(ms, EncodeFixed32(nanos) + bs[12..]);
    Fixed32RoundTrip(nanos, bs[12..]);
    assert bs == EncodeFixed64(ms) + (EncodeFixed32(nanos) + bs[12..]);
    assert bs[8..] == EncodeFixed32(nanos) + bs[12..];
  }

  /** A fine column is either found at its own width, or the decoder runs ahead. */
  lemma FineSpan(c: Column, rest: seq<byte>)
    requires Written(c) && Fine(c.t) && |c.code| == 12
    ensures TwoVarintsSize(c.code + rest) == Ok(12) <==> TwoVarints(c.code)
    ensures rest != [] && rest[0] == 0 ==>
              (TwoVarintsSize(c.code + rest) == Ok(13) <==> TwoVarints(c.code + [0]))
  {
    var payload, code := c.code + rest, c.code;
    assert payload[..12] == code == code[..12];
    if TwoVarints(code) {
      TwoVarintsOfPrefix(code, payload, 12);
    }
    if TwoVarintsSize(payload) == Ok(12) {
      TwoVarintsOfPrefix(payload, code, 12);
    }
    if rest != [] && rest[0] == 0 {
      assert payload[..13] == code + [0] == (code + [0])[..13];
      if TwoVarints(code + [0]) {
        TwoVarintsOfPrefix(code + [0], payload, 13);
      }
      if TwoVarintsSize(payload) == Ok(13) {
        TwoVarintsOfPrefix(payload, code + [0], 13);
      }
    }
  }

  // ---------- the exact condition ----------

  /** The decoder passes the end of a column it has read: a negative number at a narrow one, a span at a fine one. */
  predicate RunsAhead(columns: seq<Column>, tail: seq<byte>) {
    columns != []
    && var c, later := columns[0], columns[1..];
       var rest := Stream(later) + tail;
       if CompactSafe(c.t) then RunsAhead(later, tail)
       else if Narrow(c.t) then -128 <= Number(c.Kept()) < 0 && Completes(rest)
       else
         && Fine(c.t)
         && if TwoVarints(c.code) then RunsAhead(later, tail)
            else TwoVarintsSize(c.code + rest).Ok? && TwoVarintsSize(c.code + rest).value > 12
  }

  /** What a narrow column is read as. */
  lemma NarrowFound(c: Column, rest: seq<byte>, w: nat)
    requires Written(c) && Narrow(c.t)
    ensures
      var n := Number(c.Kept());
      Reads(c, c.code + rest, w)
      <==> (0 <= n < 128 && w == 1) || (-128 <= n < 0 && Completes(rest) && w == 10)
  {
    var payload, n := c.code + rest, Number(c.Kept());
    NarrowCode(c);
    FixedReadAsVarint(n, rest);
    if Reads(c, payload, w) {
      var x := NarrowRead(c, payload, w);
      Get64OfLE64(x, []);
      Get64OfLE64(U64(n), []);
    }
    hide UvarintFrom, LE, Completes;
    if Gives(Uvarint(payload), U64(n)) {
      NarrowReads(c, payload, Uvarint(payload).width);
    }
  }

  lemma SmallNarrowCode(c: Column)
    requires Written(c) && Narrow(c.t) && 0 <= Number(c.Kept()) < 128
    ensures |c.code| == 8 && AllZero(c.code[1..])
  {
    NarrowCode(c);
    hide Written, Narrow;
    FromLEZero(LE(0, 7));
    PowerValues();
    FromLEOfLE(0, 7);
    assert c.code[1..] == LE(0, 7);
  }

  lemma AfterNarrow(columns: seq<Column>, tail: seq<byte>)
    requires AllWritten(columns) && columns != [] && Narrow(columns[0].t) && 0 <= Number(columns[0].Kept()) < 128
    ensures ReadsBack(columns, Stream(columns) + tail) <==> ZeroColumns(columns[1..])
  {
    hide Reads, Written, AllWritten, ZeroColumns, ReadsBack, AllZero, Number, Narrow, Completes;
    var c, rest := columns[0], Stream(columns[1..]) + tail;
    SplitColumns(columns);
    Reassociate(c.code, Stream(columns[1..]), tail);
    assert Stream(columns) + tail == c.code + rest;
    hide Stream;
    SmallNarrowCode(c);
    NarrowFound(c, rest, 1);
    assert (c.code + rest)[1..] == c.code[1..] + rest;
    ReadsBackStep(columns, c.code + rest, 1);
    BehindExactly(columns[1..], c.code[1..], tail);
  }

  /** A column found at its own width leaves the decoder where the next one starts. */
  lemma InPlace(columns: seq<Column>, tail: seq<byte>)
    requires columns != [] && Reads(columns[0], columns[0].code + (Stream(columns[1..]) + tail), |columns[0].code|)
    ensures ReadsBack(columns, Stream(columns) + tail) <==> ReadsBack(columns[1..], Stream(columns[1..]) + tail)
  {
    var c, rest := columns[0], Stream(columns[1..]) + tail;
    Reassociate(c.code, Stream(columns[1..]), tail);
    ReadsBackStep(columns, c.code + rest, |c.code|);
    assert (c.code + rest)[|c.code|..] == rest;
    hide Reads, ReadsBack;
  }

  /**
   Whatever follows them: survivors come back, and columns that come back are survivors unless the decoder runs ahead.
   */
  lemma {:induction false} SurvivorsOrAhead(columns: seq<Column>, tail: seq<byte>)
    requires AllWritten(columns)
    ensures Survivors(columns) ==> ReadsBack(columns, Stream(columns) + tail)
    ensures ReadsBack(columns, Stream(columns) + tail) ==> Survivors(columns) || RunsAhead(columns, tail)
  {
    if columns != [] {
      var c, later := columns[0], columns[1..];
      var rest := Stream(later) + tail;
      SplitColumns(columns);
      SurvivorsOrAhead(later, tail);
      EveryKind(c.t);
      hide AllWritten, ZeroColumns, HasNarrow, ReadsBack, Reads, Written, Stream, CompactSafe, Narrow, Fine, TwoVarints;
      hide TwoVarintsSize;
      if CompactSafe(c.t) {
        SafeReads(c, rest);
        InPlace(columns, tail);
      } else if Narrow(c.t) {
        if 0 <= Number(c.Kept()) < 128 {
          AfterNarrow(columns, tail);
        } else if ReadsBack(columns, Stream(columns) + tail) {
          NarrowRunsAhead(columns, tail);
        }
      } else if Fine(c.t) {
        FineOrAhead(columns, tail);
      } else if ReadsBack(columns, Stream(columns) + tail) {
        var w := FirstRead(columns, Stream(columns) + tail);
        NestedNotRead(c, Stream(columns) + tail, w);
      }
    }
  }

  lemma NarrowRunsAhead(columns: seq<Column>, tail: seq<byte>)
    requires AllWritten(columns) && columns != [] && Narrow(columns[0].t) && !(0 <= Number(columns[0].Kept()) < 128)
    requires ReadsBack(columns, Stream(columns) + tail)
    ensures -128 <= Number(columns[0].Kept()) < 0 && Completes(Stream(columns[1..]) + tail)
  {
    var c, rest := columns[0], Stream(columns[1..]) + tail;
    SplitColumns(columns);
    Reassociate(c.code, Stream(columns[1..]), tail);
    assert Stream(columns) + tail == c.code + rest;
    hide Reads, Written, AllWritten, ZeroColumns, ReadsBack, Number, Narrow, Completes, Stream;
    var w := FirstRead(columns, Stream(columns) + tail);
    NarrowFound(c, rest, w);
  }

  /** The three ways of a fine column: at its own width, one byte too long over a zero, or running ahead. */
  lemma FineOrAhead(columns: seq<Column>, tail: seq<byte>)
    requires AllWritten(columns) && columns != [] && Fine(columns[0].t)
    requires Survivors(columns[1..]) ==> ReadsBack(columns[1..], Stream(columns[1..]) + tail)
    requires ReadsBack(columns[1..], Stream(columns[1..]) + tail) ==>
               Survivors(columns[1..]) || RunsAhead(columns[1..], tail)
    ensures Survivors(columns) ==> ReadsBack(columns, Stream(columns) + tail)
    ensures ReadsBack(columns, Stream(columns) + tail) ==> Survivors(columns) || RunsAhead(columns, tail)
  {
    var c, later := columns[0], columns[1..];
    var rest := Stream(later) + tail;
    SplitColumns(columns);
    FineKind(c.t);
    FineReads(c, rest, 12);
    FineSpan(c, rest);
    Reassociate(c.code, Stream(later), tail);
    assert Stream(columns) + tail == c.code + rest;
    hide AllWritten, ZeroColumns, HasNarrow, ReadsBack, Reads, Written, Stream, CompactSafe, Narrow, Fine, TwoVarints;
    hide TwoVarintsSize, Number;
    if TwoVarints(c.code) {
      InPlace(columns, tail);
    }
    if ReadsBack(columns, Stream(columns) + tail) {
      var w := FirstRead(columns, Stream(columns) + tail);
      FineReads(c, rest, w);
    } else if TwoVarints(c.code + [0]) && ZeroColumns(later) && HasNarrow(later) {
      OneTooLong(columns, tail);
    }
  }

  /** The thirteenth byte of the span is a zero of the next column. */
  lemma OneTooLong(columns: seq<Column>, tail: seq<byte>)
    requires AllWritten(columns) && columns != [] && Fine(columns[0].t)
    requires TwoVarints(columns[0].code + [0]) && ZeroColumns(columns[1..]) && HasNarrow(columns[1..])
    ensures ReadsBack(columns, Stream(columns) + tail)
  {
    hide AllWritten, ZeroColumns, HasNarrow, ReadsBack, Reads, Written, Fine, TwoVarints, TwoVarintsSize;
    var c, later := columns[0], columns[1..];
    var rest := Stream(later) + tail;
    SplitColumns(columns);
    Reassociate(c.code, Stream(later), tail);
    assert Stream(columns) + tail == c.code + rest;
    hide Stream;
    NarrowZeroStream(later);
    FineReads(c, rest, 13);
    FineSpan(c, rest);
    PastFront(c.code, rest, 13);
    ReadsBackStep(columns, c.code + rest, 13);
    ZerosFromOneAhead(later, tail);
  }

  /** Where nothing follows the columns, running ahead does not help: what comes back is survivors. */
  lemma {:induction false} AheadOnlySurvivors(columns: seq<Column>)
    requires AllWritten(columns) && RunsAhead(columns, []) && ReadsBack(columns, Stream(columns))
    ensures Survivors(columns)
  {
    var c, later := columns[0], columns[1..];
    var rest := Stream(later);
    SplitColumns(columns);
    EveryKind(c.t);
    assert Stream(columns) == c.code + rest && Stream(columns) + [] == Stream(columns) && rest + [] == rest;
    hide AllWritten, ZeroColumns, HasNarrow, ReadsBack, Reads, Written, Stream, CompactSafe, Narrow, Fine, TwoVarints;
    hide TwoVarintsSize, Number;
    if CompactSafe(c.t) {
      SafeReads(c, rest);
      InPlace(columns, []);
      AheadOnlySurvivors(later);
    } else if Narrow(c.t) {
      NarrowAheadFails(columns);
    } else if TwoVarints(c.code) {
      FineSpan12(c, rest);
      InPlace(columns, []);
      AheadOnlySurvivors(later);
    } else {
      FineAheadOnlySurvivors(columns);
    }
  }

  lemma FineSpan12(c: Column, rest: seq<byte>)
    requires Written(c) && Fine(c.t) && TwoVarints(c.code)
    ensures Reads(c, c.code + rest, |c.code|)
  {
    FineReads(c, rest, 12);
    FineSpan(c, rest);
    hide Reads, TwoVarintsSize;
  }

  lemma CompletesNotZero(rest: seq<byte>)
    requires Completes(rest)
    ensures |rest| >= 2 && !AllZero(rest[..2])
  {
    assert rest[..2][0] == 255;
  }

  lemma NarrowAheadFails(columns: seq<Column>)
    requires AllWritten(columns) && columns != [] && Narrow(columns[0].t)
    requires -128 <= Number(columns[0].Kept()) < 0 && Completes(Stream(columns[1..]) + [])
    ensures !ReadsBack(columns, Stream(columns))
  {
    hide Reads, Written, AllWritten, ZeroColumns, ReadsBack, Number, Narrow, LE, Completes, AllZero;
    var c, rest := columns[0], Stream(columns[1..]);
    SplitColumns(columns);
    assert Stream(columns) == c.code + rest && rest + [] == rest;
    hide Stream;
    if ReadsBack(columns, c.code + rest) {
      var w := FirstRead(columns, c.code + rest);
      NarrowFound(c, rest, w);
      NarrowCode(c);
      PastFront(c.code, rest, 10);
      CompletesNotZero(rest);
      OnlyOverZeros(columns[1..], 2);
    }
  }

  lemma FineAheadOnlySurvivors(columns: seq<Column>)
    requires AllWritten(columns) && columns != [] && Fine(columns[0].t) && !TwoVarints(columns[0].code)
    requires ReadsBack(columns, Stream(columns))
    ensures Survivors(columns)
  {
    var c, later := columns[0], columns[1..];
    var rest := Stream(later);
    SplitColumns(columns);
    FineKind(c.t);
    assert Stream(columns) == c.code + rest;
    hide AllWritten, ZeroColumns, HasNarrow, ReadsBack, Reads, Written, Stream, CompactSafe, Narrow, Fine, TwoVarints;
    hide TwoVarintsSize, Number, AllZero;
    FineAheadOneByte(columns);
    AheadOneOnlyZeros(later);
  }

  /** Where a fine column is not found at its own width, the decoder is one byte ahead behind it, over a zero. */
  lemma FineAheadOneByte(columns: seq<Column>)
    requires AllWritten(columns) && columns != [] && Fine(columns[0].t) && !TwoVarints(columns[0].code)
    requires ReadsBack(columns, Stream(columns))
    ensures Stream(columns[1..]) != [] && Stream(columns[1..])[0] == 0 && ReadsBack(columns[1..], Stream(columns[1..])[1..])
    ensures TwoVarints(columns[0].code + [0])
  {
    var c, rest := columns[0], Stream(columns[1..]);
    SplitColumns(columns);
    assert Stream(columns) == c.code + rest;
    hide AllWritten, ReadsBack, Reads, Written, Stream, CompactSafe, Narrow, Fine, TwoVarints, TwoVarintsSize, AllZero;
    var w := FirstRead(columns, c.code + rest);
    FineReads(c, rest, w);
    FineSpan(c, rest);
    LongSpan(c.code + rest, w);
    PastFront(c.code, rest, w);
    OnlyOverZeros(columns[1..], w - 12);
    FirstIsZero(rest, w - 12);
    assert w == 13;
  }

  lemma FirstIsZero(bs: seq<byte>, k: nat)
    requires 0 < k <= |bs| && AllZero(bs[..k])
    ensures bs[0] == 0
  {
    assert bs[..k][0] == bs[0];
  }

  /** The exact condition: the columns of a row, and nothing behind them, come back if and only if they are survivors. */
  lemma SurvivorsExactly(columns: seq<Column>)
    requires AllWritten(columns)
    ensures ReadsBack(columns, Stream(columns)) <==> Survivors(columns)
  {
    assert Stream(columns) + [] == Stream(columns);
    hide AllWritten, Survivors, RunsAhead, ReadsBack, Stream;
    SurvivorsOrAhead(columns, []);
    if ReadsBack(columns, Stream(columns)) && !Survivors(columns) {
      AheadOnlySurvivors(columns);
    }
  }

  lemma FineKind(t: FieldType)
    requires Fine(t)
    ensures !CompactSafe(t) && !Narrow(t) && !Nested(t)
  {
  }
}
