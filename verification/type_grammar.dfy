/**
 The language of column type texts (internal/metadata/schema_descriptor.go), as functions from the unread input to a
 result and the input left over. Text is ASCII.
 */
module TypeGrammar {
  import opened Decimals
  import opened FieldTypes
  import opened Results

  datatype CharClass = Space | Word | Digit

  predicate In(kind: CharClass, c: char) {
    match kind
    case Space => c in {'\t', '\n', 0x0B as char, 0x0C as char, '\r', ' '}
    case Word => 'a' <= c <= 'z' || 'A' <= c <= 'Z' || IsDigit(c) || c == '_'
    case Digit => IsDigit(c)
  }

  predicate All(kind: CharClass, s: string) {
    forall i :: 0 <= i < |s| ==> In(kind, s[i])
  }

  /** The length of the longest prefix of `s` in class `kind`. */
  function Span(kind: CharClass, s: string): (n: nat)
    ensures n <= |s| && All(kind, s[..n])
    ensures n < |s| ==> !In(kind, s[n])
  {
    if s != [] && In(kind, s[0]) then
      var n := 1 + Span(kind, s[1..]);
      assert s[..n] == [s[0]] + s[1..][..n - 1];
      n
    else 0
  }

  function SkipSpaces(s: string): (rest: string)
    ensures |rest| <= |s| && (rest != [] ==> !In(Space, rest[0]))
  {
    s[Span(Space, s)..]
  }

  function UpperChar(c: char): char {
    if 'a' <= c <= 'z' then (c as int - 'a' as int + 'A' as int) as char else c
  }

  function Upper(s: string): (t: string)
    ensures |t| == |s|
  {
    seq(|s|, i requires 0 <= i < |s| => UpperChar(s[i]))
  }

  function TrimRight(s: string): (t: string)
    ensures |t| <= |s|
  {
    if s != [] && In(Space, s[|s| - 1]) then TrimRight(s[..|s| - 1]) else s
  }

  /** strings.TrimSpace. */
  function Trim(s: string): string {
    TrimRight(SkipSpaces(s))
  }

  /** The next character that is not a space, if any. */
  function Peek(s: string): Option<char> {
    var rest := SkipSpaces(s);
    if rest == [] then None else Some(rest[0])
  }

  function Expect(s: string, ch: char): (r: Result<string>)
    ensures r.Ok? ==> |r.value| < |s|
  {
    if Peek(s) == Some(ch) then Ok(SkipSpaces(s)[1..]) else Err(ExpectedToken)
  }

  /** What a keyword makes the parser look for next. */
  datatype Shape =
    | Plain(t: FieldType)
    | Sized(t: FieldType)
    | DecimalShape
    | TimestampShape(zoned: bool)
    | ArrayShape
    | MapShape
    | RowShape
    | Unknown

  function ShapeOf(ident: string): (shape: Shape)
    ensures ident == "" ==> shape == Unknown
  {
    match ident
    case "BOOLEAN" => Plain(BoolType)
    case "TINYINT" => Plain(Int8Type)
    case "SMALLINT" => Plain(Int16Type)
    case "INT" => Plain(Int32Type)
    case "INTEGER" => Plain(Int32Type)
    case "BIGINT" => Plain(Int64Type)
    case "FLOAT" => Plain(Float32Type)
    case "DOUBLE" => Plain(Float64Type)
    case "STRING" => Sized(StringType)
    case "VARCHAR" => Sized(StringType)
    case "CHAR" => Sized(StringType)
    case "BYTES" => Sized(BytesType)
    case "BINARY" => Sized(BytesType)
    case "VARBINARY" => Sized(BytesType)
    case "DECIMAL" => DecimalShape
    case "DATE" => Plain(DateType)
    case "TIME" => Sized(TimeType)
    case "TIMESTAMP" => TimestampShape(false)
    case "TIMESTAMP_LTZ" => TimestampShape(true)
    case "ARRAY" => ArrayShape
    case "MAP" => MapShape
    case "ROW" => RowShape
    case _ => Unknown
  }

  const DEFAULT_TIMESTAMP_PRECISION := 6
  const MAX_INT := 0x7FFF_FFFF_FFFF_FFFF

  function TimestampType(zoned: bool, precision: int): FieldType {
    if zoned then TimestampLtzType(precision) else TimestampNtzType(precision)
  }

  /** strconv.Atoi on a non-empty run of digits. */
  function Atoi(digits: string): Result<int>
    requires AllDigits(digits)
  {
    if DigitsValue(digits) > MAX_INT then Err(IntegerOutOfRange) else Ok(DigitsValue(digits))
  }

  /** The arguments up to, but not including, the closing parenthesis. */
  function ParseInts(s: string): (r: Result<(seq<int>, string)>)
    decreases |s|
    ensures r.Ok? ==> r.value.0 != [] && |r.value.1| <= |s|
  {
    var at := SkipSpaces(s);
    var n := Span(Digit, at);
    if n == 0 then Err(ExpectedInteger)
    else
      assert forall i :: 0 <= i < n ==> In(Digit, at[..n][i]);
      var value :- Atoi(at[..n]);
      var rest := SkipSpaces(at[n..]);
      if Peek(rest) == Some(')') then Ok(([value], rest))
      else
        var next :- Expect(rest, ',');
        var more :- ParseInts(next);
        Ok(([value] + more.0, more.1))
  }

  function ParseIntArgs(s: string, count: nat): (r: Result<(seq<int>, string)>)
    ensures r.Ok? ==> |r.value.0| == count && |r.value.1| < |s|
  {
    var open :- Expect(s, '(');
    var args :- ParseInts(open);
    var rest :- Expect(args.1, ')');
    if |args.0| != count then Err(WrongArgumentCount) else Ok((args.0, rest))
  }

  /** One optional argument, as the length of a string or the precision of a timestamp. */
  function ParseOptionalArg(s: string): (r: Result<(Option<int>, string)>)
    ensures r.Ok? ==> |r.value.1| <= |s|
  {
    if Peek(s) == Some('(') then
      var args :- ParseIntArgs(s, 1);
      Ok((Some(args.0[0]), args.1))
    else Ok((None, SkipSpaces(s)))
  }

  function ParseType(s: string): (r: Result<(FieldType, string)>)
    decreases |s|, 1
    ensures r.Ok? ==> |r.value.1| < |s|
  {
    var at := SkipSpaces(s);
    var n := Span(Word, at);
    ParseShape(ShapeOf(Upper(at[..n])), at[n..])
  }

  /** What comes after a keyword. */
  function ParseShape(shape: Shape, rest: string): (r: Result<(FieldType, string)>)
    decreases |rest|, 0
    ensures r.Ok? ==> |r.value.1| <= |rest|
    ensures shape == Unknown ==> r.Err?
  {
    match shape
    case Plain(t) => Ok((t, rest))
    case Sized(t) =>
      var size :- ParseOptionalArg(rest);
      Ok((t, size.1))
    case DecimalShape =>
      var args :- ParseIntArgs(rest, 2);
      Ok((DecimalType(args.0[0], args.0[1]), args.1))
    case TimestampShape(zoned) =>
      var size :- ParseOptionalArg(rest);
      Ok((TimestampType(zoned, if size.0.Some? then size.0.value else DEFAULT_TIMESTAMP_PRECISION), size.1))
    case ArrayShape =>
      var open :- Expect(rest, '<');
      var element :- ParseType(open);
      var close :- Expect(element.1, '>');
      Ok((ArrayType(element.0), close))
    case MapShape =>
      var open :- Expect(rest, '<');
      var key :- ParseType(open);
      var comma :- Expect(key.1, ',');
      var val :- ParseType(comma);
      var close :- Expect(val.1, '>');
      Ok((MapType(key.0, val.0), close))
    case RowShape =>
      var open :- Expect(rest, '<');
      var fields :- ParseFields(open);
      var close :- Expect(fields.1, '>');
      Ok((RowType(fields.0), close))
    case Unknown => Err(UnsupportedType)
  }

  /** The fields of a row up to, but not including, the closing bracket. The name is read and forgotten. */
  function ParseFields(s: string): (r: Result<(seq<FieldType>, string)>)
    decreases |s|, 2
    ensures r.Ok? ==> r.value.0 != [] && |r.value.1| < |s|
  {
    var at := SkipSpaces(s);
    var named := SkipSpaces(at[Span(Word, at)..]);
    var field :- ParseType(named);
    var rest := SkipSpaces(field.1);
    if Peek(rest) == Some('>') then Ok(([field.0], rest))
    else
      var next :- Expect(rest, ',');
      var more :- ParseFields(next);
      Ok(([field.0] + more.0, more.1))
  }

  function ParseFieldType(input: string): Result<FieldType> {
    var field :- ParseType(Trim(input));
    if SkipSpaces(field.1) != [] then Err(TrailingInput) else Ok(field.0)
  }

  /** A loop's state: what it has read already, in front of what is still to come. */
  function Ahead<T>(done: seq<T>, rest: Result<(seq<T>, string)>): Result<(seq<T>, string)> {
    match rest
    case Ok((more, left)) => Ok((done + more, left))
    case Err(e) => Err(e)
  }

  lemma AheadNothing<T>(rest: Result<(seq<T>, string)>)
    ensures Ahead([], rest) == rest
  {
    if rest.Ok? {
      assert [] + rest.value.0 == rest.value.0;
    }
  }

  lemma AheadStep<T>(done: seq<T>, x: T, rest: Result<(seq<T>, string)>)
    ensures Ahead(done, Ahead([x], rest)) == Ahead(done + [x], rest)
  {
    if rest.Ok? {
      assert done + ([x] + rest.value.0) == (done + [x]) + rest.value.0;
    }
  }

  lemma SkippedTwice(s: string)
    ensures SkipSpaces(SkipSpaces(s)) == SkipSpaces(s)
  {
  }

  lemma IntArgsAfterSpaces(s: string, count: nat)
    ensures ParseIntArgs(SkipSpaces(s), count) == ParseIntArgs(s, count)
  {
    hide ParseInts, Span;
    SkippedTwice(s);
    hide SkipSpaces;
  }

  /** One round of the loop over integer arguments. */
  lemma IntsStep(s: string)
    ensures
      var at, whole := SkipSpaces(s), ParseInts(s);
      var n := Span(Digit, at);
      if n == 0 then whole == Err(ExpectedInteger)
      else
        && AllDigits(at[..n])
        && var value := Atoi(at[..n]);
           if value.Err? then whole == Err(value.error)
           else
             var rest := SkipSpaces(at[n..]);
             && SkipSpaces(rest) == rest
             && if Peek(rest) == Some(')') then whole == Ok(([value.value], rest))
                else
                  var next := Expect(rest, ',');
                  if next.Err? then whole == Err(next.error)
                  else whole == Ahead([value.value], ParseInts(next.value))
  {
    var at := SkipSpaces(s);
    var digits := at[..Span(Digit, at)];
    assert forall i :: 0 <= i < |digits| ==> In(Digit, digits[i]);
    if digits != "" && Atoi(digits).Ok? {
      SkippedTwice(at[|digits|..]);
    }
  }

  /** One round of the loop over row fields. */
  lemma FieldsStep(s: string)
    ensures
      var at, whole := SkipSpaces(s), ParseFields(s);
      var named := SkipSpaces(at[Span(Word, at)..]);
      var field := ParseType(named);
      if field.Err? then whole == Err(field.error)
      else
        var rest := SkipSpaces(field.value.1);
        if Peek(rest) == Some('>') then whole == Ok(([field.value.0], rest))
        else
          var next := Expect(rest, ',');
          if next.Err? then whole == Err(next.error)
          else whole == Ahead([field.value.0], ParseFields(next.value))
  {
    hide Span, SkipSpaces, ParseType, Peek, Expect;
  }
}
