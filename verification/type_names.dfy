/**
 What each name means, on both routes: a table of names that shares nothing with the parser's (internal/metadata/
 schema_descriptor.go:128-203, 230-357), for any spelling, with and without arguments.
 */
module TypeNames {
  import opened Decimals
  import opened FieldTypes
  import opened Results
  import opened TypeGrammar
  import opened TypeLanguage
  import opened TypeRoutes
  import opened TypeText

  // ---------- characters ----------

  predicate BlankChar(c: char) {
    c in {' ', '\t', '\n', '\r', 0x0B as char, 0x0C as char}
  }

  predicate Blank(s: string) {
    forall i :: 0 <= i < |s| ==> BlankChar(s[i])
  }

  predicate OneWord(s: string) {
    s != "" && forall i :: 0 <= i < |s| ==>
                 'a' <= s[i] <= 'z' || 'A' <= s[i] <= 'Z' || '0' <= s[i] <= '9' || s[i] == '_'
  }

  predicate Numeral(s: string) {
    s != "" && forall i :: 0 <= i < |s| ==> '0' <= s[i] <= '9'
  }

  /** The digits `s` behind the number `sofar`. */
  function NumberBehind(sofar: nat, s: string): nat
    requires forall i :: 0 <= i < |s| ==> '0' <= s[i] <= '9'
    decreases |s|
  {
    if s == "" then sofar else NumberBehind(10 * sofar + (s[0] as int - '0' as int), s[1..])
  }

  /** The same letters, of either case. */
  predicate SpelledAs(word: string, name: string) {
    && |word| == |name|
    && forall i :: 0 <= i < |word| ==>
         word[i] == name[i] || ('a' <= word[i] <= 'z' && word[i] as int - 'a' as int == name[i] as int - 'A' as int)
  }

  predicate NamedBy(names: set<string>, word: string) {
    exists name :: name in names && SpelledAs(word, name)
  }

  // ---------- the table ----------

  /** The names that mean `t` when nothing else is said. */
  function Names(t: FieldType): set<string> {
    match t
    case BoolType => {"BOOLEAN"}
    case Int8Type => {"TINYINT"}
    case Int16Type => {"SMALLINT"}
    case Int32Type => {"INT", "INTEGER"}
    case Int64Type => {"BIGINT"}
    case Float32Type => {"FLOAT"}
    case Float64Type => {"DOUBLE"}
    case StringType => {"STRING", "VARCHAR", "CHAR"}
    case BytesType => {"BYTES", "BINARY", "VARBINARY"}
    case DateType => {"DATE"}
    case TimeType => {"TIME"}
    case TimestampNtzType(precision) => if precision == 6 then {"TIMESTAMP"} else {}
    case TimestampLtzType(precision) => if precision == 6 then {"TIMESTAMP_LTZ"} else {}
    case _ => {}
  }

  /** The names that mean `t` with the number `n` in parentheses, which only a timestamp pays attention to. */
  function NamesWith(t: FieldType, n: int): set<string> {
    match t
    case StringType => {"STRING", "VARCHAR", "CHAR"}
    case BytesType => {"BYTES", "BINARY", "VARBINARY"}
    case TimeType => {"TIME"}
    case TimestampNtzType(precision) => if precision == n then {"TIMESTAMP"} else {}
    case TimestampLtzType(precision) => if precision == n then {"TIMESTAMP_LTZ"} else {}
    case _ => {}
  }

  lemma TableExactly(ident: string, t: FieldType)
    ensures TextMeaning(ShapeOf(ident)) == Ok(t) <==> ident in Names(t)
  {
  }

  /** What a keyword of this shape means with one number. */
  function MeaningWith(shape: Shape, n: int): Result<FieldType> {
    match shape
    case Sized(t) => Ok(t)
    case TimestampShape(zoned) => Ok(TimestampType(zoned, n))
    case _ => Err(UnsupportedType)
  }

  lemma TableWithExactly(ident: string, n: int, t: FieldType)
    ensures MeaningWith(ShapeOf(ident), n) == Ok(t) <==> ident in NamesWith(t, n)
  {
  }

  // ---------- spelling ----------

  predicate Capital(name: string) {
    forall i :: 0 <= i < |name| ==> !('a' <= name[i] <= 'z')
  }

  lemma UpperIsSpelling(word: string, name: string)
    requires Capital(name)
    ensures Upper(word) == name <==> SpelledAs(word, name)
  {
    if Upper(word) == name {
      forall i | 0 <= i < |word|
        ensures word[i] == name[i] || ('a' <= word[i] <= 'z' && word[i] as int - 'a' as int == name[i] as int - 'A' as int)
      {
        assert Upper(word)[i] == UpperChar(word[i]);
      }
    }
    if SpelledAs(word, name) {
      forall i | 0 <= i < |word| ensures Upper(word)[i] == name[i] {
        assert !('a' <= name[i] <= 'z');
      }
      assert Upper(word) == name;
    }
  }

  lemma UpperCapital(word: string)
    ensures Capital(Upper(word))
  {
  }

  lemma NamesCapital(t: FieldType, name: string)
    requires name in Names(t)
    ensures Capital(name)
  {
    hide Capital;
    CapitalNames();
  }

  lemma CapitalNames()
    ensures forall name :: name in {"BOOLEAN", "TINYINT", "SMALLINT", "INT", "INTEGER", "BIGINT", "FLOAT", "DOUBLE"} ==>
              Capital(name)
    ensures forall name :: name in {"STRING", "VARCHAR", "CHAR", "BYTES", "BINARY", "VARBINARY", "DATE", "TIME"} ==>
              Capital(name)
    ensures Capital("TIMESTAMP") && Capital("TIMESTAMP_LTZ")
  {
  }

  lemma NamesWithCapital(t: FieldType, n: int, name: string)
    requires name in NamesWith(t, n)
    ensures Capital(name)
  {
  }

  lemma NamedExactly(names: set<string>, word: string)
    requires forall name :: name in names ==> Capital(name)
    ensures NamedBy(names, word) <==> Upper(word) in names
  {
    hide Upper, SpelledAs, Capital;
    if Upper(word) in names {
      UpperIsSpelling(word, Upper(word));
      assert SpelledAs(word, Upper(word));
    }
    if name :| name in names && SpelledAs(word, name) {
      UpperIsSpelling(word, name);
    }
  }

  lemma SameCharacters(s: string)
    ensures Blank(s) <==> All(Space, s)
    ensures OneWord(s) <==> s != "" && All(Word, s)
    ensures Numeral(s) <==> s != "" && AllDigits(s)
  {
  }

  lemma {:induction false} NumberLast(sofar: nat, s: string, c: char)
    requires (forall i :: 0 <= i < |s| ==> '0' <= s[i] <= '9') && '0' <= c <= '9'
    ensures NumberBehind(sofar, s + [c]) == 10 * NumberBehind(sofar, s) + (c as int - '0' as int)
    decreases |s|
  {
    if s == "" {
      assert [c][1..] == "" && "" + [c] == [c];
    } else {
      assert (s + [c])[1..] == s[1..] + [c];
      NumberLast(10 * sofar + (s[0] as int - '0' as int), s[1..], c);
    }
  }

  lemma {:induction false} NumberExactly(s: string)
    requires AllDigits(s)
    ensures DigitsValue(s) == NumberBehind(0, s)
  {
    if s != "" {
      var front, last := s[..|s| - 1], s[|s| - 1];
      assert s == front + [last];
      NumberExactly(front);
      NumberLast(0, front, last);
    }
  }

  // ---------- the text route ----------

  lemma TrimAround(lead: string, x: string, trail: string)
    requires Blank(lead) && Blank(trail) && x != "" && !BlankChar(x[0]) && !BlankChar(x[|x| - 1])
    ensures Trim(lead + (x + trail)) == x && Trim(x) == x
  {
    SameCharacters(lead);
    SameCharacters(trail);
    hide All, SkipSpaces, Blank;
    EdgeNotSpace(x[0]);
    EdgeNotSpace(x[|x| - 1]);
    SkipLead(lead, x + trail);
    SkipNothing(x + trail);
    SkipNothing(x);
    TrimRightSpaces(x, trail);
  }

  lemma EdgeNotSpace(c: char)
    requires !BlankChar(c)
    ensures !In(Space, c)
  {
  }

  lemma WordEdges(word: string)
    requires OneWord(word)
    ensures word != "" && !BlankChar(word[0]) && !BlankChar(word[|word| - 1])
  {
  }

  /** A single word, between any spaces, is the type whose name it is, in any case of letters, and else is refused. */
  lemma WordExactly(lead: string, word: string, trail: string, t: FieldType)
    requires Blank(lead) && OneWord(word) && Blank(trail)
    ensures ParseFieldType(lead + (word + trail)) == Ok(t) <==> NamedBy(Names(t), word)
  {
    hide Names, NamedBy, ShapeOf, Upper, Blank, TextMeaning, Capital, Trim;
    WordEdges(word);
    TrimAround(lead, word, trail);
    SameCharacters(word);
    ParseBareWord(word);
    TableExactly(Upper(word), t);
    forall name | name in Names(t) ensures Capital(name) {
      NamesCapital(t, name);
    }
    NamedExactly(Names(t), word);
    hide ParseType;
  }

  /** Nothing but spaces is no type. */
  lemma BlankRefused(s: string)
    requires Blank(s)
    ensures ParseFieldType(s).Err?
  {
    SameCharacters(s);
    hide All, Blank, ParseType;
    assert s + "" == s;
    SkipLead(s, "");
    EmptyWord();
  }

  /** A keyword in front of one number in parentheses. */
  lemma ShapeWithNumber(shape: Shape, tail: string, n: int)
    requires ParseIntArgs(tail, 1) == Ok(([n], "")) && Peek(tail) == Some('(')
    ensures
      var r, meaning := ParseShape(shape, tail), MeaningWith(shape, n);
      if meaning.Ok? then r == Ok((meaning.value, "")) else r.Ok? ==> SkipSpaces(r.value.1) != ""
  {
    hide SkipSpaces, ParseType, ParseFields, ParseInts, TimestampType;
    assert ParseIntArgs(tail, 2).Err?;
    hide ParseIntArgs;
  }

  lemma ShapeWithTwo(shape: Shape, tail: string, m: int, n: int)
    requires ParseIntArgs(tail, 2) == Ok(([m, n], "")) && Peek(tail) == Some('(')
    ensures
      var r := ParseShape(shape, tail);
      if shape.DecimalShape? then r == Ok((DecimalType(m, n), "")) else r.Ok? ==> SkipSpaces(r.value.1) != ""
  {
    hide SkipSpaces, ParseType, ParseFields, ParseInts, TimestampType;
    assert ParseIntArgs(tail, 1).Err?;
    hide ParseIntArgs;
  }

  lemma DecimalName(ident: string)
    ensures ShapeOf(ident).DecimalShape? <==> ident == "DECIMAL"
  {
  }

  /** A number with spaces around it. */
  datatype Spaced = Spaced(before: string, digits: string, after: string)

  predicate GoodNumber(a: Spaced) {
    && Blank(a.before) && Numeral(a.digits) && Blank(a.after)
    && NumberBehind(0, a.digits) <= 0x7FFF_FFFF_FFFF_FFFF
  }

  function ValueOf(a: Spaced): nat
    requires GoodNumber(a)
  {
    NumberBehind(0, a.digits)
  }

  function ArgOf(a: Spaced): ArgText {
    ArgText(a.before, a.digits, a.after)
  }

  lemma GoodArg(a: Spaced)
    requires GoodNumber(a)
    ensures WellFormedArg(ArgOf(a)) && ArgValue(ArgOf(a)) == ValueOf(a)
  {
    SameCharacters(a.before);
    SameCharacters(a.after);
    SameCharacters(a.digits);
    NumberExactly(a.digits);
    hide All, AllDigits, DigitsValue;
  }

  lemma ClosedText(word: string, tail: string)
    requires OneWord(word) && tail != "" && tail[|tail| - 1] == ')'
    ensures !BlankChar((word + tail)[0]) && !BlankChar((word + tail)[|word + tail| - 1])
  {
    WordEdges(word);
    assert (word + tail)[|word + tail| - 1] == ')';
  }

  /** The text of one number in parentheses, behind a word. */
  function InParentheses(gap: string, a: Spaced): string {
    gap + ("(" + (a.before + (a.digits + (a.after + ")"))))
  }

  function TwoInParentheses(gap: string, a: Spaced, b: Spaced): string {
    gap + ("(" + (a.before + (a.digits + (a.after + ("," + (b.before + (b.digits + (b.after + ")"))))))))
  }

  lemma OneArgText(gap: string, a: Spaced)
    ensures WriteArgs(Some(ArgsText(gap, [ArgOf(a)])), "") == InParentheses(gap, a)
    ensures InParentheses(gap, a) != "" && InParentheses(gap, a)[|InParentheses(gap, a)| - 1] == ')'
  {
    assert ")" + "" == ")";
  }

  lemma TwoArgsText(gap: string, a: Spaced, b: Spaced)
    ensures WriteArgs(Some(ArgsText(gap, [ArgOf(a), ArgOf(b)])), "") == TwoInParentheses(gap, a, b)
    ensures TwoInParentheses(gap, a, b) != "" && TwoInParentheses(gap, a, b)[|TwoInParentheses(gap, a, b)| - 1] == ')'
  {
    assert ")" + "" == ")";
    var args := [ArgOf(a), ArgOf(b)];
    assert args[1..] == [ArgOf(b)];
    assert WriteInts(args[1..], ")") == b.before + (b.digits + (b.after + ")"));
    assert WriteInts(args, ")") == a.before + (a.digits + (a.after + ("," + WriteInts(args[1..], ")"))));
  }

  /** A word with text behind it that is no word is read as its keyword says. */
  lemma KeywordRead(lead: string, word: string, tail: string, trail: string)
    requires Blank(lead) && OneWord(word) && Blank(trail) && tail != "" && !In(Word, tail[0]) && tail[|tail| - 1] == ')'
    ensures
      var r := ParseShape(ShapeOf(Upper(word)), tail);
      ParseFieldType(lead + ((word + tail) + trail))
      == if r.Err? then Err(r.error) else if SkipSpaces(r.value.1) != "" then Err(TrailingInput) else Ok(r.value.0)
  {
    hide ShapeOf, Upper, Blank, Trim, ParseShape, In;
    ClosedText(word, tail);
    TrimAround(lead, word + tail, trail);
    SameCharacters(word);
    hide OneWord, SkipSpaces;
    KeywordReadBack("", word, tail);
    NoPadding(word + tail);
    hide ParseType;
  }

  /** A word with one number: a string, byte string or time whatever the number, or a timestamp of that precision. */
  lemma WordWithNumberExactly(lead: string, word: string, gap: string, a: Spaced, trail: string, t: FieldType)
    requires Blank(lead) && OneWord(word) && Blank(gap) && GoodNumber(a) && Blank(trail)
    ensures ParseFieldType(lead + ((word + InParentheses(gap, a)) + trail)) == Ok(t)
       <==> NamedBy(NamesWith(t, ValueOf(a)), word)
  {
    hide NamesWith, NamedBy, ShapeOf, Upper, Blank, OneWord, GoodNumber, MeaningWith, Capital, InParentheses, SkipSpaces, ValueOf;
    hide ParseFieldType, ParseShape, ParseIntArgs, WriteArgs, WellFormedArg, ArgValue, In, Peek, All;
    var tail, n := InParentheses(gap, a), ValueOf(a);
    OneArgRead(gap, a);
    KeywordRead(lead, word, tail, trail);
    ShapeWithNumber(ShapeOf(Upper(word)), tail, n);
    assert SkipSpaces("") == "" by {
      SkipNothing("");
    }
    TableWithExactly(Upper(word), n, t);
    forall name | name in NamesWith(t, n) ensures Capital(name) {
      NamesWithCapital(t, n, name);
    }
    NamedExactly(NamesWith(t, n), word);
  }

  lemma OneArgRead(gap: string, a: Spaced)
    requires Blank(gap) && GoodNumber(a)
    ensures
      var tail := InParentheses(gap, a);
      && tail != "" && tail[|tail| - 1] == ')' && !In(Word, tail[0]) && Peek(tail) == Some('(')
      && ParseIntArgs(tail, 1) == Ok(([ValueOf(a)], ""))
  {
    hide GoodNumber, InParentheses, ParseIntArgs, WellFormedArg, ArgValue, In, Peek, WriteArgs;
    SameCharacters(gap);
    hide All, Blank;
    GoodArg(a);
    OneArgText(gap, a);
    var args := ArgsText(gap, [ArgOf(a)]);
    ArgsReadBack(args, 1, "");
    assert ArgValues(args.args) == [ArgValue(ArgOf(a))];
  }

  lemma TwoArgsRead(gap: string, a: Spaced, b: Spaced)
    requires Blank(gap) && GoodNumber(a) && GoodNumber(b)
    ensures
      var tail := TwoInParentheses(gap, a, b);
      && tail != "" && tail[|tail| - 1] == ')' && !In(Word, tail[0]) && Peek(tail) == Some('(')
      && ParseIntArgs(tail, 2) == Ok(([ValueOf(a), ValueOf(b)], ""))
  {
    hide GoodNumber, TwoInParentheses, ParseIntArgs, WellFormedArg, ArgValue, In, Peek, WriteArgs;
    SameCharacters(gap);
    hide All, Blank;
    GoodArg(a);
    GoodArg(b);
    TwoArgsText(gap, a, b);
    var args := ArgsText(gap, [ArgOf(a), ArgOf(b)]);
    ArgsReadBack(args, 2, "");
    assert ArgValues(args.args) == [ArgValue(ArgOf(a)), ArgValue(ArgOf(b))];
  }

  /** A word with two numbers is a decimal of that precision and scale, and nothing else. */
  lemma WordWithTwoExactly(lead: string, word: string, gap: string, a: Spaced, b: Spaced, trail: string, t: FieldType)
    requires Blank(lead) && OneWord(word) && Blank(gap) && GoodNumber(a) && GoodNumber(b) && Blank(trail)
    ensures ParseFieldType(lead + ((word + TwoInParentheses(gap, a, b)) + trail)) == Ok(t)
       <==> t == DecimalType(ValueOf(a), ValueOf(b)) && SpelledAs(word, "DECIMAL")
  {
    hide ShapeOf, Upper, Blank, OneWord, GoodNumber, TwoInParentheses, SkipSpaces, SpelledAs, ValueOf;
    hide ParseFieldType, ParseShape, ParseIntArgs, In, Peek;
    var tail := TwoInParentheses(gap, a, b);
    TwoArgsRead(gap, a, b);
    KeywordRead(lead, word, tail, trail);
    ShapeWithTwo(ShapeOf(Upper(word)), tail, ValueOf(a), ValueOf(b));
    assert SkipSpaces("") == "" by {
      SkipNothing("");
    }
    DecimalName(Upper(word));
    UpperIsSpelling(word, "DECIMAL");
  }

  // ---------- brackets ----------

  lemma BracketNames()
    ensures ShapeOf("ARRAY") == ArrayShape && ShapeOf("MAP") == MapShape && ShapeOf("ROW") == RowShape
  {
  }

  lemma SpelledWord(word: string, name: string)
    requires SpelledAs(word, name) && name in {"ARRAY", "MAP", "ROW"}
    ensures Upper(word) == name && All(Word, word)
  {
    UpperIsSpelling(word, name);
  }

  /** An array of any type that can be written down. */
  lemma ArrayOfText(word: string, inside: string, t: FieldType)
    requires SpelledAs(word, "ARRAY") && ParseFieldType(inside) == Ok(t)
    ensures ParseFieldType(word + ("<" + (inside + ">"))) == Ok(ArrayType(t))
  {
    SpelledWord(word, "ARRAY");
    BracketNames();
    hide ShapeOf, Upper, SpelledAs, ParseFieldType, All;
    var text, trailing := AcceptedRenders(inside);
    RenderArray(word, inside, text, trailing, t);
  }

  lemma RenderArray(word: string, inside: string, element: TypeText, trailing: string, t: FieldType)
    requires Renders(inside, element, trailing, t) && All(Word, word) && ShapeOf(Upper(word)) == ArrayShape
    ensures ParseFieldType(word + ("<" + (inside + ">"))) == Ok(ArrayType(t))
  {
    Followed(inside, element, trailing, t, ">");
    assert All(Space, "");
    hide ShapeOf, Upper, All, ParseFieldType;
    var text := ArrayText("", word, "", element, trailing);
    assert ">" + "" == ">";
    NoPadding("<" + Write(element, trailing + ">"));
    NoPadding(word + ("<" + Write(element, trailing + ">")));
    TypeTextParsesBack(text, "");
  }

  /** A map between any two types that can be written down. */
  lemma MapOfTexts(word: string, first: string, second: string, key: FieldType, val: FieldType)
    requires SpelledAs(word, "MAP") && ParseFieldType(first) == Ok(key) && ParseFieldType(second) == Ok(val)
    ensures ParseFieldType(word + ("<" + (first + ("," + (second + ">"))))) == Ok(MapType(key, val))
  {
    SpelledWord(word, "MAP");
    BracketNames();
    hide ShapeOf, Upper, SpelledAs, ParseFieldType, All;
    var k, gap := AcceptedRenders(first);
    var v, trailing := AcceptedRenders(second);
    RenderMap(word, first, k, gap, key, second, v, trailing, val);
  }

  lemma RenderMap(word: string, first: string, k: TypeText, gap: string, key: FieldType, second: string, v: TypeText,
                  trailing: string, val: FieldType)
    requires Renders(first, k, gap, key) && Renders(second, v, trailing, val)
    requires All(Word, word) && ShapeOf(Upper(word)) == MapShape
    ensures ParseFieldType(word + ("<" + (first + ("," + (second + ">"))))) == Ok(MapType(key, val))
  {
    Followed(second, v, trailing, val, ">");
    Followed(first, k, gap, key, "," + (second + ">"));
    assert All(Space, "");
    hide ShapeOf, Upper, All, ParseFieldType;
    var text := MapText("", word, "", k, gap, v, trailing);
    assert ">" + "" == ">";
    NoPadding("<" + (first + ("," + (second + ">"))));
    NoPadding(word + ("<" + (first + ("," + (second + ">")))));
    TypeTextParsesBack(text, "");
  }

  // ---------- the JSON route ----------

  /** The names of a type in a JSON object, where no other key matters. */
  function JsonNames(t: FieldType): set<string> {
    if t == TimeType then {"TIME", "TIME_WITHOUT_TIME_ZONE"}
    else if t.TimestampNtzType? || t.TimestampLtzType? then {}
    else Names(t)
  }

  /** What a JSON object with the name `word` means. */
  predicate JsonSays(d: DataTypeJson, word: string, t: FieldType) {
    match t
    case DecimalType(precision, scale) =>
      && SpelledAs(word, "DECIMAL")
      && precision == (if d.precision.Some? then d.precision.value else 0)
      && scale == (if d.scale.Some? then d.scale.value else 0)
    case TimestampNtzType(precision) =>
      && NamedBy({"TIMESTAMP", "TIMESTAMP_WITHOUT_TIME_ZONE"}, word)
      && precision == (if d.precision.Some? then d.precision.value else 6)
    case TimestampLtzType(precision) =>
      && NamedBy({"TIMESTAMP_LTZ", "TIMESTAMP_WITH_LOCAL_TIME_ZONE"}, word)
      && precision == (if d.precision.Some? then d.precision.value else 6)
    case ArrayType(element) =>
      SpelledAs(word, "ARRAY") && d.element.Some? && ToFieldType(d.element.value) == Ok(element)
    case MapType(key, val) =>
      && SpelledAs(word, "MAP") && d.key.Some? && d.val.Some?
      && ToFieldType(d.key.value) == Ok(key) && ToFieldType(d.val.value) == Ok(val)
    case RowType(fields) =>
      && SpelledAs(word, "ROW") && |fields| == |d.fields|
      && forall i :: 0 <= i < |fields| ==> NestedType(d.fields[i]) == Ok(fields[i])
    case _ => NamedBy(JsonNames(t), word)
  }

  predicate Flat(t: FieldType) {
    match t
    case DecimalType(_, _) => false
    case TimestampNtzType(_) => false
    case TimestampLtzType(_) => false
    case ArrayType(_) => false
    case MapType(_, _) => false
    case RowType(_) => false
    case _ => true
  }

  lemma LongNamesOfTypes(ident: string, t: FieldType)
    requires Flat(t)
    ensures LongName(ident) in Names(t) <==> ident in JsonNames(t)
  {
  }

  lemma TimestampNames(ident: string)
    ensures ShapeOf(ident) == TimestampShape(false) <==> ident == "TIMESTAMP"
    ensures ShapeOf(ident) == TimestampShape(true) <==> ident == "TIMESTAMP_LTZ"
  {
  }

  lemma NestedNames(ident: string)
    ensures ShapeOf(ident).DecimalShape? <==> ident == "DECIMAL"
    ensures ShapeOf(ident).ArrayShape? <==> ident == "ARRAY"
    ensures ShapeOf(ident).MapShape? <==> ident == "MAP"
    ensures ShapeOf(ident).RowShape? <==> ident == "ROW"
  {
  }

  lemma LongNames(ident: string)
    ensures LongName(ident) == "TIMESTAMP" <==> ident in {"TIMESTAMP", "TIMESTAMP_WITHOUT_TIME_ZONE"}
    ensures LongName(ident) == "TIMESTAMP_LTZ" <==> ident in {"TIMESTAMP_LTZ", "TIMESTAMP_WITH_LOCAL_TIME_ZONE"}
    ensures LongName(ident) == "DECIMAL" <==> ident == "DECIMAL"
    ensures LongName(ident) == "ARRAY" <==> ident == "ARRAY"
    ensures LongName(ident) == "MAP" <==> ident == "MAP"
    ensures LongName(ident) == "ROW" <==> ident == "ROW"
  {
  }

  lemma FlatMeaning(shape: Shape, t: FieldType)
    requires Flat(t)
    ensures TextMeaning(shape) == Ok(t) <==> shape == Plain(t) || shape == Sized(t)
  {
  }

  lemma JsonTable(ident: string, t: FieldType)
    ensures
      var shape := ShapeOf(LongName(ident));
      && (Flat(t) ==> (shape == Plain(t) || shape == Sized(t) <==> ident in JsonNames(t)))
      && (shape == TimestampShape(false) <==> ident in {"TIMESTAMP", "TIMESTAMP_WITHOUT_TIME_ZONE"})
      && (shape == TimestampShape(true) <==> ident in {"TIMESTAMP_LTZ", "TIMESTAMP_WITH_LOCAL_TIME_ZONE"})
      && (shape.DecimalShape? <==> ident == "DECIMAL") && (shape.ArrayShape? <==> ident == "ARRAY")
      && (shape.MapShape? <==> ident == "MAP") && (shape.RowShape? <==> ident == "ROW")
  {
    hide ShapeOf, LongName, JsonNames, Names, Flat, TextMeaning;
    TimestampNames(LongName(ident));
    NestedNames(LongName(ident));
    LongNames(ident);
    if Flat(t) {
      FlatMeaning(ShapeOf(LongName(ident)), t);
      TableExactly(LongName(ident), t);
      LongNamesOfTypes(ident, t);
    }
  }

  lemma OnlyFlat(ident: string)
    ensures
      var shape := ShapeOf(LongName(ident));
      (shape.Plain? ==> Flat(shape.t)) && (shape.Sized? ==> Flat(shape.t))
  {
  }

  lemma {:induction false} NestedTypesExactly(fields: seq<NestedFieldJson>, types: seq<FieldType>)
    ensures NestedTypes(fields) == Ok(types)
       <==> |types| == |fields| && forall i :: 0 <= i < |types| ==> NestedType(fields[i]) == Ok(types[i])
    decreases |fields|
  {
    hide NestedType;
    if fields != [] && types != [] {
      NestedTypesExactly(fields[1..], types[1..]);
      NestedStep(fields, types);
    }
  }

  lemma NestedStep(fields: seq<NestedFieldJson>, types: seq<FieldType>)
    requires fields != [] && types != []
    ensures NestedTypes(fields) == Ok(types)
       <==> NestedType(fields[0]) == Ok(types[0]) && NestedTypes(fields[1..]) == Ok(types[1..])
    ensures (|types| == |fields| && forall i :: 0 <= i < |types| ==> NestedType(fields[i]) == Ok(types[i]))
       <==> && NestedType(fields[0]) == Ok(types[0]) && |types[1..]| == |fields[1..]|
            && forall i :: 0 <= i < |types[1..]| ==> NestedType(fields[1..][i]) == Ok(types[1..][i])
  {
    hide NestedType;
    assert types == [types[0]] + types[1..];
    assert forall i :: 0 < i < |types| ==> types[i] == types[1..][i - 1];
    assert forall i :: 0 < i < |fields| ==> fields[i] == fields[1..][i - 1];
    assert forall i :: 0 <= i < |types[1..]| ==> types[1..][i] == types[i + 1];
    assert forall i :: 0 <= i < |fields[1..]| ==> fields[1..][i] == fields[i + 1];
  }

  /** A JSON object is the type that its name and its other keys say, and nothing else. */
  lemma JsonExactly(d: DataTypeJson, lead: string, word: string, trail: string, t: FieldType)
    requires d.typeName == lead + (word + trail) && Blank(lead) && OneWord(word) && Blank(trail)
    ensures ToFieldType(d) == Ok(t) <==> JsonSays(d, word, t)
  {
    hide ShapeOf, LongName, Upper, Trim, Blank, OneWord, NamedBy, SpelledAs, JsonNames, NestedTypes, NestedType, Flat;
    hide ToFieldType, JsonSays;
    WordEdges(word);
    TrimAround(lead, word, trail);
    OnlyFlat(Upper(word));
    ShapeSays(d, JsonShape(d), t);
    JsonTable(Upper(word), t);
    JsonSpellings(word, t);
    SaysExactly(d, word, t);
  }

  /** What a shape makes of the other keys. */
  predicate ShapeMeans(d: DataTypeJson, shape: Shape, t: FieldType) {
    match t
    case DecimalType(precision, scale) =>
      shape.DecimalShape? && precision == ValueOrDefault(d.precision, 0) && scale == ValueOrDefault(d.scale, 0)
    case TimestampNtzType(precision) => shape == TimestampShape(false) && precision == ValueOrDefault(d.precision, 6)
    case TimestampLtzType(precision) => shape == TimestampShape(true) && precision == ValueOrDefault(d.precision, 6)
    case ArrayType(element) => shape.ArrayShape? && d.element.Some? && ToFieldType(d.element.value) == Ok(element)
    case MapType(key, val) =>
      && shape.MapShape? && d.key.Some? && d.val.Some?
      && ToFieldType(d.key.value) == Ok(key) && ToFieldType(d.val.value) == Ok(val)
    case RowType(fields) => shape.RowShape? && NestedTypes(d.fields) == Ok(fields)
    case _ => shape == Plain(t) || shape == Sized(t)
  }

  lemma ShapeSays(d: DataTypeJson, shape: Shape, t: FieldType)
    requires shape == JsonShape(d) && (shape.Plain? ==> Flat(shape.t)) && (shape.Sized? ==> Flat(shape.t))
    ensures ToFieldType(d) == Ok(t) <==> ShapeMeans(d, shape, t)
  {
    hide JsonShape, NestedTypes;
  }

  lemma SaysExactly(d: DataTypeJson, word: string, t: FieldType)
    requires
      var u := Upper(word);
      var shape := ShapeOf(LongName(u));
      && (Flat(t) ==> (shape == Plain(t) || shape == Sized(t) <==> NamedBy(JsonNames(t), word)))
      && (shape == TimestampShape(false) <==> NamedBy({"TIMESTAMP", "TIMESTAMP_WITHOUT_TIME_ZONE"}, word))
      && (shape == TimestampShape(true) <==> NamedBy({"TIMESTAMP_LTZ", "TIMESTAMP_WITH_LOCAL_TIME_ZONE"}, word))
      && (shape.DecimalShape? <==> SpelledAs(word, "DECIMAL")) && (shape.ArrayShape? <==> SpelledAs(word, "ARRAY"))
      && (shape.MapShape? <==> SpelledAs(word, "MAP")) && (shape.RowShape? <==> SpelledAs(word, "ROW"))
    ensures ShapeMeans(d, ShapeOf(LongName(Upper(word))), t) <==> JsonSays(d, word, t)
  {
    hide ShapeOf, LongName, Upper, NamedBy, SpelledAs, JsonNames, NestedTypes, NestedType, ToFieldType, Flat;
    FlatExactly(t);
    if t.RowType? {
      NestedTypesExactly(d.fields, t.fields);
    }
  }

  lemma FlatExactly(t: FieldType)
    ensures Flat(t) <==> !t.DecimalType? && !t.TimestampNtzType? && !t.TimestampLtzType? && !t.ArrayType? && !t.MapType?
                         && !t.RowType?
  {
  }

  lemma JsonNamesCapital(t: FieldType, name: string)
    requires name in JsonNames(t)
    ensures Capital(name)
  {
    if name in Names(t) {
      NamesCapital(t, name);
    }
  }

  lemma JsonSpellings(word: string, t: FieldType)
    ensures NamedBy(JsonNames(t), word) <==> Upper(word) in JsonNames(t)
    ensures NamedBy({"TIMESTAMP", "TIMESTAMP_WITHOUT_TIME_ZONE"}, word)
       <==> Upper(word) in {"TIMESTAMP", "TIMESTAMP_WITHOUT_TIME_ZONE"}
    ensures NamedBy({"TIMESTAMP_LTZ", "TIMESTAMP_WITH_LOCAL_TIME_ZONE"}, word)
       <==> Upper(word) in {"TIMESTAMP_LTZ", "TIMESTAMP_WITH_LOCAL_TIME_ZONE"}
    ensures forall name :: name in {"DECIMAL", "ARRAY", "MAP", "ROW"} ==> (SpelledAs(word, name) <==> Upper(word) == name)
  {
    hide NamedBy, SpelledAs, JsonNames, Upper;
    forall name | name in JsonNames(t) ensures Capital(name) {
      JsonNamesCapital(t, name);
    }
    NamedExactly(JsonNames(t), word);
    NamedExactly({"TIMESTAMP", "TIMESTAMP_WITHOUT_TIME_ZONE"}, word);
    NamedExactly({"TIMESTAMP_LTZ", "TIMESTAMP_WITH_LOCAL_TIME_ZONE"}, word);
    forall name | name in {"DECIMAL", "ARRAY", "MAP", "ROW"} ensures SpelledAs(word, name) <==> Upper(word) == name {
      UpperIsSpelling(word, name);
    }
  }

  /** Which description counts where there are several: a nested field and a column look in different orders. */
  lemma Preferences(f: NestedFieldJson, c: ColumnJson)
    ensures f.fieldType.Some? ==> NestedType(f) == ToFieldType(f.fieldType.value)
    ensures f.fieldType.None? && f.dataType.Some? ==> NestedType(f) == ToFieldType(f.dataType.value)
    ensures c.dataType.Some? ==> ColumnType(c) == ToFieldType(c.dataType.value)
    ensures c.dataType.None? && c.fieldType.Some? ==> ColumnType(c) == ToFieldType(c.fieldType.value)
    ensures f.fieldType.None? && f.dataType.None? ==>
              NestedType(f) == if Blank(f.text) then Err(UnsupportedType) else ParseFieldType(f.text)
    ensures c.fieldType.None? && c.dataType.None? ==>
              ColumnType(c) == if Blank(c.text) then Err(UnsupportedType) else ParseFieldType(c.text)
  {
    hide ToFieldType, ParseFieldType;
    TrimEmpty(f.text);
    TrimEmpty(c.text);
    hide Trim, Blank;
  }

  lemma TrimEmpty(s: string)
    ensures Trim(s) == "" <==> Blank(s)
  {
    SameCharacters(s);
    hide Blank, All, SkipSpaces;
    if All(Space, s) {
      assert s + "" == s;
      SkipLead(s, "");
      SkipNothing("");
    } else if Trim(s) == "" {
      AllTrimmed(SkipSpaces(s));
      SpacesSkipped(s);
    }
  }

  lemma {:induction false} AllTrimmed(s: string)
    requires TrimRight(s) == ""
    ensures All(Space, s)
  {
    if s != "" {
      AllTrimmed(s[..|s| - 1]);
      assert s == s[..|s| - 1] + [s[|s| - 1]];
    }
  }

  lemma SpacesSkipped(s: string)
    requires All(Space, SkipSpaces(s))
    ensures All(Space, s)
  {
    var lead := SplitSpaces(s);
  }
}
