/**
 The recursive-descent parser as the source runs it: one object with an input and a position that its methods move.
 On every input the methods terminate, because each recursive call starts further to the right, and the position
 stays within the input.
 */
module TypeParser {
  import opened Decimals
  import opened FieldTypes
  import opened Results
  import G = TypeGrammar

  lemma SpanStep(kind: G.CharClass, s: string, start: nat, pos: nat)
    requires start <= pos <= |s|
    ensures pos < |s| && G.In(kind, s[pos]) ==> G.Span(kind, s[pos..]) == 1 + G.Span(kind, s[pos + 1..])
    ensures pos == |s| || !G.In(kind, s[pos]) ==> G.Span(kind, s[pos..]) == 0
  {
    if pos < |s| {
      assert s[pos..][1..] == s[pos + 1..];
    }
  }

  /** A scan that has stopped at `pos` has read the longest run of `kind`. */
  lemma ScanEnd(kind: G.CharClass, s: string, start: nat, pos: nat)
    requires start <= pos <= |s|
    requires G.Span(kind, s[start..]) == pos - start + G.Span(kind, s[pos..])
    requires pos == |s| || !G.In(kind, s[pos])
    ensures G.Span(kind, s[start..]) == pos - start
    ensures s[start..pos] == s[start..][..pos - start] && s[pos..] == s[start..][pos - start..]
    ensures G.All(kind, s[start..pos])
  {
    SpanStep(kind, s, start, pos);
  }

  class FieldTypeParser {
    const input: string
    var pos: nat

    constructor (input: string)
      ensures this.input == input && pos == 0
    {
      this.input := input;
      pos := 0;
    }

    ghost predicate Valid()
      reads this
    {
      pos <= |input|
    }

    /** The input still to be read. */
    ghost function Rest(): string
      requires Valid()
      reads this
    {
      input[pos..]
    }

    method SkipSpaces()
      requires Valid()
      modifies this
      ensures Valid() && old(pos) <= pos && Rest() == G.SkipSpaces(old(Rest()))
    {
      hide G.Span, G.In, G.All;
      ghost var start := pos;
      while pos < |input| && G.In(G.Space, input[pos])
        invariant start <= pos <= |input|
        invariant G.Span(G.Space, input[start..]) == pos - start + G.Span(G.Space, input[pos..])
        decreases |input| - pos
      {
        SpanStep(G.Space, input, start, pos);
        pos := pos + 1;
      }
      ScanEnd(G.Space, input, start, pos);
    }

    method Peek() returns (c: Option<char>)
      requires Valid()
      modifies this
      ensures Valid() && old(pos) <= pos && Rest() == G.SkipSpaces(old(Rest()))
      ensures c == G.Peek(old(Rest()))
    {
      SkipSpaces();
      return if pos >= |input| then None else Some(input[pos]);
    }

    method Expect(ch: char) returns (r: Result<()>)
      requires Valid()
      modifies this
      ensures Valid() && old(pos) <= pos
      ensures r.Ok? ==> old(pos) < pos && G.Expect(old(Rest()), ch) == Ok(Rest())
      ensures r.Err? ==> G.Expect(old(Rest()), ch) == Err(r.error)
    {
      SkipSpaces();
      if pos >= |input| || input[pos] != ch {
        return Err(ExpectedToken);
      }
      assert input[pos..][1..] == input[pos + 1..];
      pos := pos + 1;
      return Ok(());
    }

    method ParseIdentifier() returns (ident: string)
      requires Valid()
      modifies this
      ensures Valid() && old(pos) <= pos
      ensures
        var at := G.SkipSpaces(old(Rest()));
        ident == at[..G.Span(G.Word, at)] && Rest() == at[G.Span(G.Word, at)..]
      ensures ident != "" ==> old(pos) < pos
    {
      hide G.Span, G.SkipSpaces, G.In, G.All;
      SkipSpaces();
      var start := pos;
      while pos < |input| && G.In(G.Word, input[pos])
        invariant start <= pos <= |input|
        invariant G.Span(G.Word, input[start..]) == pos - start + G.Span(G.Word, input[pos..])
        decreases |input| - pos
      {
        SpanStep(G.Word, input, start, pos);
        pos := pos + 1;
      }
      ScanEnd(G.Word, input, start, pos);
      return input[start..pos];
    }

    /** The run of digits at the position. */
    method ReadDigits() returns (digits: string)
      requires Valid()
      modifies this
      ensures Valid() && old(pos) <= pos && (digits != "" ==> old(pos) < pos)
      ensures digits == old(Rest())[..G.Span(G.Digit, old(Rest()))] && Rest() == old(Rest())[|digits|..]
      ensures AllDigits(digits)
    {
      hide G.Span;
      var start := pos;
      while pos < |input| && G.In(G.Digit, input[pos])
        invariant start <= pos <= |input|
        invariant G.Span(G.Digit, input[start..]) == pos - start + G.Span(G.Digit, input[pos..])
        decreases |input| - pos
      {
        SpanStep(G.Digit, input, start, pos);
        pos := pos + 1;
      }
      ScanEnd(G.Digit, input, start, pos);
      digits := input[start..pos];
      assert forall i :: 0 <= i < |digits| ==> G.In(G.Digit, digits[i]);
    }

    method ParseIntArgs(count: nat) returns (r: Result<seq<int>>)
      requires Valid()
      modifies this
      ensures Valid() && old(pos) <= pos
      ensures r.Ok? ==> old(pos) < pos && G.ParseIntArgs(old(Rest()), count) == Ok((r.value, Rest()))
      ensures r.Err? ==> G.ParseIntArgs(old(Rest()), count) == Err(r.error)
    {
      hide G.Span, G.SkipSpaces, G.Peek, G.Expect, G.ParseInts;
      var open := Expect('(');
      if open.Err? {
        return Err(open.error);
      }
      var args := [];
      ghost var whole := G.ParseInts(Rest());
      G.AheadNothing(whole);
      while true
        invariant Valid() && old(pos) < pos
        invariant whole == G.Ahead(args, G.ParseInts(Rest()))
        decreases |input| - pos
      {
        G.IntsStep(Rest());
        SkipSpaces();
        var digits := ReadDigits();
        if digits == "" {
          return Err(ExpectedInteger);
        }
        var value := G.Atoi(digits);
        if value.Err? {
          return Err(value.error);
        }
        SkipSpaces();
        var c := Peek();
        if c == Some(')') {
          args := args + [value.value];
          break;
        }
        var comma := Expect(',');
        if comma.Err? {
          return Err(comma.error);
        }
        G.AheadStep(args, value.value, G.ParseInts(Rest()));
        args := args + [value.value];
      }
      var close := Expect(')');
      if close.Err? {
        return Err(close.error);
      }
      if |args| != count {
        return Err(WrongArgumentCount);
      }
      return Ok(args);
    }

    method ParseOptionalArg() returns (r: Result<Option<int>>)
      requires Valid()
      modifies this
      ensures Valid() && old(pos) <= pos
      ensures r.Ok? ==> G.ParseOptionalArg(old(Rest())) == Ok((r.value, Rest()))
      ensures r.Err? ==> G.ParseOptionalArg(old(Rest())) == Err(r.error)
    {
      hide G.Span, G.SkipSpaces, G.ParseIntArgs;
      ghost var start := Rest();
      var c := Peek();
      G.IntArgsAfterSpaces(start, 1);
      if c == Some('(') {
        var args := ParseIntArgs(1);
        if args.Err? {
          return Err(args.error);
        }
        return Ok(Some(args.value[0]));
      }
      return Ok(None);
    }

    method ParseType() returns (r: Result<FieldType>)
      requires Valid()
      modifies this
      ensures Valid() && old(pos) <= pos
      ensures r.Ok? ==> old(pos) < pos && G.ParseType(old(Rest())) == Ok((r.value, Rest()))
      ensures r.Err? ==> G.ParseType(old(Rest())) == Err(r.error)
      decreases |input| - pos, 1
    {
      hide G.Span, G.SkipSpaces, G.Upper, G.ShapeOf, G.ParseShape;
      G.SkippedTwice(Rest());
      SkipSpaces();
      var ident := ParseIdentifier();
      r := ParseShape(G.ShapeOf(G.Upper(ident)));
    }

    /** The cases of ParseType, once the keyword is read. */
    method ParseShape(shape: G.Shape) returns (r: Result<FieldType>)
      requires Valid()
      modifies this
      ensures Valid() && old(pos) <= pos
      ensures r.Ok? ==> shape != G.Unknown && G.ParseShape(shape, old(Rest())) == Ok((r.value, Rest()))
      ensures r.Err? ==> G.ParseShape(shape, old(Rest())) == Err(r.error)
      decreases |input| - pos, 0
    {
      hide G.Span, G.SkipSpaces, G.Peek, G.Expect, G.ParseType, G.ParseFields, G.ParseIntArgs;
      hide G.ParseOptionalArg, G.TimestampType, G.ParseInts, G.In, G.All;
      match shape {
        case Plain(t) => return Ok(t);
        case Sized(t) =>
          var size := ParseOptionalArg();
          if size.Err? {
            return Err(size.error);
          }
          return Ok(t);
        case DecimalShape =>
          var args := ParseIntArgs(2);
          if args.Err? {
            return Err(args.error);
          }
          return Ok(DecimalType(args.value[0], args.value[1]));
        case TimestampShape(zoned) =>
          var precision := G.DEFAULT_TIMESTAMP_PRECISION;
          var size := ParseOptionalArg();
          if size.Err? {
            return Err(size.error);
          }
          if size.value.Some? {
            precision := size.value.value;
          }
          return Ok(G.TimestampType(zoned, precision));
        case ArrayShape =>
          var open := Expect('<');
          if open.Err? {
            return Err(open.error);
          }
          var element := ParseType();
          if element.Err? {
            return Err(element.error);
          }
          var close := Expect('>');
          if close.Err? {
            return Err(close.error);
          }
          return Ok(ArrayType(element.value));
        case MapShape =>
          var open := Expect('<');
          if open.Err? {
            return Err(open.error);
          }
          var key := ParseType();
          if key.Err? {
            return Err(key.error);
          }
          var comma := Expect(',');
          if comma.Err? {
            return Err(comma.error);
          }
          var val := ParseType();
          if val.Err? {
            return Err(val.error);
          }
          var close := Expect('>');
          if close.Err? {
            return Err(close.error);
          }
          return Ok(MapType(key.value, val.value));
        case RowShape =>
          var open := Expect('<');
          if open.Err? {
            return Err(open.error);
          }
          var fields := ParseFields();
          if fields.Err? {
            return Err(fields.error);
          }
          var close := Expect('>');
          if close.Err? {
            return Err(close.error);
          }
          return Ok(RowType(fields.value));
        case Unknown => return Err(UnsupportedType);
      }
    }

    /** The loop over the fields of a row. */
    method ParseFields() returns (r: Result<seq<FieldType>>)
      requires Valid()
      modifies this
      ensures Valid() && old(pos) <= pos
      ensures r.Ok? ==> old(pos) < pos && G.ParseFields(old(Rest())) == Ok((r.value, Rest()))
      ensures r.Err? ==> G.ParseFields(old(Rest())) == Err(r.error)
      decreases |input| - pos, 2
    {
      hide G.Span, G.SkipSpaces, G.Peek, G.Expect, G.ParseType, G.ParseFields;
      var fields := [];
      ghost var whole := G.ParseFields(Rest());
      G.AheadNothing(whole);
      while true
        invariant Valid() && old(pos) <= pos
        invariant whole == G.Ahead(fields, G.ParseFields(Rest()))
        decreases |input| - pos
      {
        G.FieldsStep(Rest());
        G.SkippedTwice(Rest());
        SkipSpaces();
        var _ := ParseIdentifier();
        SkipSpaces();
        var field := ParseType();
        if field.Err? {
          return Err(field.error);
        }
        G.SkippedTwice(Rest());
        SkipSpaces();
        var c := Peek();
        if c == Some('>') {
          fields := fields + [field.value];
          break;
        }
        var comma := Expect(',');
        if comma.Err? {
          return Err(comma.error);
        }
        G.AheadStep(fields, field.value, G.ParseFields(Rest()));
        fields := fields + [field.value];
      }
      return Ok(fields);
    }
  }

  method ParseFieldType(input: string) returns (r: Result<FieldType>)
    ensures r == G.ParseFieldType(input)
  {
    hide G.Trim, G.ParseType;
    var p := new FieldTypeParser(G.Trim(input));
    assert p.Rest() == G.Trim(input);
    var field := p.ParseType();
    if field.Err? {
      return field;
    }
    p.SkipSpaces();
    if p.pos != |p.input| {
      return Err(TrailingInput);
    }
    return field;
  }
}
