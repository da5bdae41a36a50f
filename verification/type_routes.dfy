/**
 The two ways a schema describes a type: a JSON tree and a text. A tree can be rendered as text, and both routes then
 lead to the same FieldType.
 */
module TypeRoutes {
  import opened Decimals
  import opened FieldTypes
  import opened Results
  import opened TypeGrammar
  import opened TypeLanguage
  import opened TypeText

  /** A parsed type object. Go's absent keys are `None`, or empty for strings and lists. */
  datatype DataTypeJson = DataTypeJson(typeName: string, precision: Option<int>, scale: Option<int>,
                                       element: Option<DataTypeJson>, key: Option<DataTypeJson>,
                                       val: Option<DataTypeJson>, fields: seq<NestedFieldJson>)

  datatype NestedFieldJson = NestedFieldJson(name: string, fieldType: Option<DataTypeJson>,
                                             dataType: Option<DataTypeJson>, text: string)

  datatype ColumnJson = ColumnJson(name: string, text: string, dataType: Option<DataTypeJson>,
                                   fieldType: Option<DataTypeJson>)

  // ---------- the JSON route ----------

  /** The JSON route knows three names that the parser does not. */
  function LongName(ident: string): string {
    match ident
    case "TIME_WITHOUT_TIME_ZONE" => "TIME"
    case "TIMESTAMP_WITHOUT_TIME_ZONE" => "TIMESTAMP"
    case "TIMESTAMP_WITH_LOCAL_TIME_ZONE" => "TIMESTAMP_LTZ"
    case _ => ident
  }

  function JsonShape(d: DataTypeJson): Shape {
    ShapeOf(LongName(Upper(Trim(d.typeName))))
  }

  function ValueOrDefault(value: Option<int>, fallback: int): int {
    if value.None? then fallback else value.value
  }

  function ToFieldType(d: DataTypeJson): Result<FieldType>
    decreases d, 0
  {
    match JsonShape(d)
    case Plain(t) => Ok(t)
    case Sized(t) => Ok(t)
    case DecimalShape => Ok(DecimalType(ValueOrDefault(d.precision, 0), ValueOrDefault(d.scale, 0)))
    case TimestampShape(zoned) =>
      Ok(TimestampType(zoned, ValueOrDefault(d.precision, DEFAULT_TIMESTAMP_PRECISION)))
    case ArrayShape =>
      if d.element.None? then Err(MissingType)
      else
        var element :- ToFieldType(d.element.value);
        Ok(ArrayType(element))
    case MapShape =>
      if d.key.None? || d.val.None? then Err(MissingType)
      else
        var key :- ToFieldType(d.key.value);
        var val :- ToFieldType(d.val.value);
        Ok(MapType(key, val))
    case RowShape =>
      var fields :- NestedTypes(d.fields);
      Ok(RowType(fields))
    case Unknown => Err(UnsupportedType)
  }

  function NestedTypes(fields: seq<NestedFieldJson>): (r: Result<seq<FieldType>>)
    ensures r.Ok? ==> |r.value| == |fields|
    decreases fields, 0
  {
    if fields == [] then Ok([])
    else
      var first :- NestedType(fields[0]);
      var rest :- NestedTypes(fields[1..]);
      Ok([first] + rest)
  }

  /** A nested field prefers field_type, then data_type, then the text. */
  function NestedType(f: NestedFieldJson): Result<FieldType>
    decreases f, 1
  {
    if f.fieldType.Some? then ToFieldType(f.fieldType.value)
    else if f.dataType.Some? then ToFieldType(f.dataType.value)
    else if Trim(f.text) != "" then ParseFieldType(f.text)
    else Err(UnsupportedType)
  }

  /** A column prefers data_type, then field_type, then the text. */
  function ColumnType(c: ColumnJson): Result<FieldType> {
    if c.dataType.Some? then ToFieldType(c.dataType.value)
    else if c.fieldType.Some? then ToFieldType(c.fieldType.value)
    else if Trim(c.text) != "" then ParseFieldType(c.text)
    else Err(UnsupportedType)
  }

  // ---------- rendering a tree as text ----------

  function Keyword(d: DataTypeJson): string {
    var ident := Upper(Trim(d.typeName));
    if LongName(ident) != ident then LongName(ident) else Trim(d.typeName)
  }

  function Render(d: DataTypeJson): string
    decreases d, 0
  {
    var keyword := Keyword(d);
    match JsonShape(d)
    case DecimalShape =>
      if d.precision.None? || d.scale.None? then keyword
      else keyword + ("(" + (Itoa(d.precision.value) + ("," + (Itoa(d.scale.value) + ")"))))
    case TimestampShape(_) =>
      if d.precision.None? then keyword else keyword + ("(" + (Itoa(d.precision.value) + ")"))
    case ArrayShape =>
      if d.element.None? then keyword else keyword + ("<" + (Render(d.element.value) + ">"))
    case MapShape =>
      if d.key.None? || d.val.None? then keyword
      else keyword + ("<" + (Render(d.key.value) + ("," + (Render(d.val.value) + ">"))))
    case RowShape => keyword + ("<" + (RenderFields(d.fields) + ">"))
    case _ => keyword
  }

  function RenderFields(fields: seq<NestedFieldJson>): string
    decreases fields, 0
  {
    if fields == [] then ""
    else
      fields[0].name + (" " + (RenderField(fields[0]) +
        (if |fields| == 1 then "" else "," + RenderFields(fields[1..]))))
  }

  function RenderField(f: NestedFieldJson): string
    decreases f, 1
  {
    if f.fieldType.Some? then Render(f.fieldType.value)
    else if f.dataType.Some? then Render(f.dataType.value)
    else f.text
  }

  /** Numbers the text form can hold: digits without a sign that fit Go's int. */
  predicate Printable(value: Option<int>) {
    value.Some? ==> 0 <= value.value <= MAX_INT
  }

  /** Decimals say their precision and scale, rows have fields, and fields have names made of word characters. */
  predicate Renderable(d: DataTypeJson)
    decreases d, 0
  {
    match JsonShape(d)
    case DecimalShape => d.precision.Some? && d.scale.Some? && Printable(d.precision) && Printable(d.scale)
    case TimestampShape(_) => Printable(d.precision)
    case ArrayShape => d.element.Some? ==> Renderable(d.element.value)
    case MapShape => (d.key.Some? ==> Renderable(d.key.value)) && (d.val.Some? ==> Renderable(d.val.value))
    case RowShape => d.fields != [] && forall i :: 0 <= i < |d.fields| ==> RenderableField(d.fields[i])
    case _ => true
  }

  predicate RenderableField(f: NestedFieldJson)
    decreases f, 1
  {
    && f.name != ""
    && All(Word, f.name)
    && (f.fieldType.Some? ==> Renderable(f.fieldType.value))
    && (f.fieldType.None? && f.dataType.Some? ==> Renderable(f.dataType.value))
  }

  // ---------- the routes agree ----------

  lemma PlainKeywordIsWord(ident: string)
    requires ShapeOf(ident).Plain?
    ensures All(Word, ident)
  {
  }

  lemma SizedKeywordIsWord(ident: string)
    requires ShapeOf(ident).Sized?
    ensures All(Word, ident)
  {
  }

  lemma OtherKeywordIsWord(ident: string)
    requires ShapeOf(ident) != Unknown && !ShapeOf(ident).Plain? && !ShapeOf(ident).Sized?
    ensures All(Word, ident)
  {
  }

  lemma KeywordIsWord(ident: string)
    requires ShapeOf(ident) != Unknown
    ensures All(Word, ident)
  {
    hide ShapeOf;
    if ShapeOf(ident).Plain? {
      PlainKeywordIsWord(ident);
    } else if ShapeOf(ident).Sized? {
      SizedKeywordIsWord(ident);
    } else {
      OtherKeywordIsWord(ident);
    }
  }

  lemma WordIfUpperWord(s: string)
    requires All(Word, Upper(s))
    ensures All(Word, s)
  {
    forall i | 0 <= i < |s| ensures In(Word, s[i]) {
      assert In(Word, Upper(s)[i]);
    }
  }

  lemma KeywordShape(d: DataTypeJson)
    requires JsonShape(d) != Unknown
    ensures All(Word, Keyword(d)) && ShapeOf(Upper(Keyword(d))) == JsonShape(d)
  {
    hide ShapeOf, Trim;
    var ident := Upper(Trim(d.typeName));
    KeywordIsWord(LongName(ident));
    if LongName(ident) == ident {
      WordIfUpperWord(Trim(d.typeName));
    } else {
      assert Upper("TIME") == "TIME" && Upper("TIMESTAMP") == "TIMESTAMP" && Upper("TIMESTAMP_LTZ") == "TIMESTAMP_LTZ";
    }
  }

  /** `s` spells `t`, as the tree `text` with `trailing` spaces behind it. */
  ghost predicate Renders(s: string, text: TypeText, trailing: string, t: FieldType) {
    && WellFormed(text)
    && All(Space, trailing)
    && s == Write(text, trailing)
    && Denotes(text) == t
  }

  lemma Followed(s: string, text: TypeText, trailing: string, t: FieldType, post: string)
    requires Renders(s, text, trailing, t)
    ensures Write(text, trailing + post) == s + post
  {
    WriteAppends(text, trailing + post);
    WriteAppends(text, trailing);
    RegroupLast(Write(text, ""), trailing, post);
  }

  function IntArg(n: int): ArgText
    requires n >= 0
  {
    ArgText("", Itoa(n), "")
  }

  lemma IntArgValue(n: int)
    requires 0 <= n <= MAX_INT
    ensures WellFormedArg(IntArg(n)) && ArgValue(IntArg(n)) == n
  {
    ValueOfDigits(n);
  }

  lemma NoPadding(s: string)
    ensures "" + s == s && s + "" == s
  {
  }

  lemma OneInt(keyword: string, n: int)
    requires n >= 0
    ensures "" + (keyword + WriteArgs(Some(ArgsText("", [IntArg(n)])), "")) == keyword + ("(" + (Itoa(n) + ")"))
  {
    hide Itoa;
    NoPadding(Itoa(n) + ("" + (")" + "")));
    NoPadding(")");
    NoPadding("(" + (Itoa(n) + ")"));
    NoPadding(keyword + ("(" + (Itoa(n) + ")")));
  }

  lemma TwoInts(keyword: string, m: int, n: int)
    requires m >= 0 && n >= 0
    ensures "" + (keyword + WriteArgs(Some(ArgsText("", [IntArg(m), IntArg(n)])), ""))
         == keyword + ("(" + (Itoa(m) + ("," + (Itoa(n) + ")"))))
  {
    hide Itoa;
    var ints := [IntArg(m), IntArg(n)];
    assert ints[1..] == [IntArg(n)];
    NoPadding(")");
    var second := Itoa(n) + ")";
    NoPadding(second);
    assert WriteInts([IntArg(n)], ")") == second;
    NoPadding("," + second);
    NoPadding(Itoa(m) + ("," + second));
    assert WriteInts(ints, ")") == Itoa(m) + ("," + second);
    NoPadding("(" + (Itoa(m) + ("," + second)));
    NoPadding(keyword + ("(" + (Itoa(m) + ("," + second))));
  }

  lemma RenderBare(keyword: string, t: FieldType)
    requires All(Word, keyword) && WellFormedLeaf(ShapeOf(Upper(keyword)), None)
    requires LeafType(ShapeOf(Upper(keyword)), None) == t
    ensures Renders(keyword, LeafText("", keyword, None), "", t)
  {
    hide ShapeOf, Upper;
    NoPadding(keyword);
  }

  lemma RenderDecimal(keyword: string, m: int, n: int)
    requires All(Word, keyword) && ShapeOf(Upper(keyword)) == DecimalShape
    requires 0 <= m <= MAX_INT && 0 <= n <= MAX_INT
    ensures Renders(keyword + ("(" + (Itoa(m) + ("," + (Itoa(n) + ")")))),
                    LeafText("", keyword, Some(ArgsText("", [IntArg(m), IntArg(n)]))), "", DecimalType(m, n))
  {
    hide ShapeOf, Upper, Itoa;
    TwoInts(keyword, m, n);
    IntArgValue(m);
    IntArgValue(n);
    hide WellFormedArg, ArgValue, IntArg, WriteArgs;
  }

  lemma RenderTimestamp(keyword: string, zoned: bool, n: int)
    requires All(Word, keyword) && ShapeOf(Upper(keyword)) == TimestampShape(zoned)
    requires 0 <= n <= MAX_INT
    ensures Renders(keyword + ("(" + (Itoa(n) + ")")),
                    LeafText("", keyword, Some(ArgsText("", [IntArg(n)]))), "", TimestampType(zoned, n))
  {
    hide ShapeOf, Upper, Itoa;
    OneInt(keyword, n);
    IntArgValue(n);
    hide WellFormedArg, ArgValue, IntArg, WriteArgs;
  }

  lemma RenderLeaf(d: DataTypeJson) returns (text: TypeText)
    requires Renderable(d) && ToFieldType(d).Ok?
    requires !JsonShape(d).ArrayShape? && !JsonShape(d).MapShape? && !JsonShape(d).RowShape?
    ensures Renders(Render(d), text, "", ToFieldType(d).value)
  {
    KeywordShape(d);
    hide ShapeOf, Itoa, JsonShape, Keyword, Upper, Renders, TimestampType, IntArg;
    var keyword := Keyword(d);
    match JsonShape(d) {
      case DecimalShape =>
        var m, n := d.precision.value, d.scale.value;
        RenderDecimal(keyword, m, n);
        text := LeafText("", keyword, Some(ArgsText("", [IntArg(m), IntArg(n)])));
      case TimestampShape(zoned) =>
        if d.precision.Some? {
          RenderTimestamp(keyword, zoned, d.precision.value);
          text := LeafText("", keyword, Some(ArgsText("", [IntArg(d.precision.value)])));
        } else {
          RenderBare(keyword, TimestampType(zoned, DEFAULT_TIMESTAMP_PRECISION));
          text := LeafText("", keyword, None);
        }
      case Plain(t) =>
        RenderBare(keyword, t);
        text := LeafText("", keyword, None);
      case Sized(t) =>
        RenderBare(keyword, t);
        text := LeafText("", keyword, None);
      case _ => assert false;
    }
  }

  lemma RenderArray(keyword: string, inner: string, element: TypeText, t: FieldType)
    requires All(Word, keyword) && ShapeOf(Upper(keyword)) == ArrayShape && Renders(inner, element, "", t)
    ensures Renders(keyword + ("<" + (inner + ">")), ArrayText("", keyword, "", element, ""), "", ArrayType(t))
  {
    hide ShapeOf, Upper;
    Followed(inner, element, "", t, ">");
    Brackets(keyword, inner + ">");
  }

  lemma RenderMap(keyword: string, first: string, key: TypeText, k: FieldType, second: string, val: TypeText,
                  v: FieldType)
    requires All(Word, keyword) && ShapeOf(Upper(keyword)) == MapShape
    requires Renders(first, key, "", k) && Renders(second, val, "", v)
    ensures Renders(keyword + ("<" + (first + ("," + (second + ">")))),
                    MapText("", keyword, "", key, "", val, ""), "", MapType(k, v))
  {
    hide ShapeOf, Upper;
    var rest := second + ">";
    Followed(second, val, "", v, ">");
    Followed(first, key, "", k, "," + rest);
    Brackets(keyword, first + ("," + rest));
    NoPadding("," + rest);
    NoPadding(rest);
  }

  lemma RenderRow(keyword: string, inner: string, fields: seq<FieldText>)
    requires All(Word, keyword) && ShapeOf(Upper(keyword)) == RowShape
    requires fields != [] && WellFormedFields(fields) && inner == WriteFields(fields, "")
    ensures Renders(keyword + ("<" + (inner + ">")), RowText("", keyword, "", fields), "",
                    RowType(DenotesFields(fields)))
  {
    hide ShapeOf, Upper, WellFormedFields, DenotesFields, WriteFields;
    WriteFieldsAppends(fields, ">");
    Brackets(keyword, inner + ">");
  }

  lemma {:induction false} RenderIsText(d: DataTypeJson) returns (text: TypeText)
    requires Renderable(d) && ToFieldType(d).Ok?
    ensures Renders(Render(d), text, "", ToFieldType(d).value)
    decreases d, 0
  {
    KeywordShape(d);
    hide ShapeOf, JsonShape, Keyword, Upper, Renders;
    var keyword := Keyword(d);
    match JsonShape(d) {
      case ArrayShape =>
        var element := RenderIsText(d.element.value);
        RenderArray(keyword, Render(d.element.value), element, ToFieldType(d.element.value).value);
        text := ArrayText("", keyword, "", element, "");
      case MapShape =>
        var key := RenderIsText(d.key.value);
        var val := RenderIsText(d.val.value);
        RenderMap(keyword, Render(d.key.value), key, ToFieldType(d.key.value).value,
                  Render(d.val.value), val, ToFieldType(d.val.value).value);
        text := MapText("", keyword, "", key, "", val, "");
      case RowShape =>
        var fields := RenderFieldsAreText(d.fields);
        RenderRow(keyword, RenderFields(d.fields), fields);
        text := RowText("", keyword, "", fields);
      case _ => text := RenderLeaf(d);
    }
  }

  lemma Brackets(keyword: string, inside: string)
    ensures "" + (keyword + ("" + ("<" + inside))) == keyword + ("<" + inside)
    ensures "" + (">" + "") == ">" && ">" + "" == ">"
  {
  }

  lemma {:induction false} RenderFieldsAreText(fields: seq<NestedFieldJson>) returns (texts: seq<FieldText>)
    requires forall i :: 0 <= i < |fields| ==> RenderableField(fields[i])
    requires NestedTypes(fields).Ok?
    ensures WellFormedFields(texts) && |texts| == |fields| && DenotesFields(texts) == NestedTypes(fields).value
    ensures RenderFields(fields) == WriteFields(texts, "")
    decreases fields, 0
  {
    if fields == [] {
      texts := [];
    } else {
      var field, text, trailing := RenderFieldIsText(fields[0]);
      var more := RenderFieldsAreText(fields[1..]);
      texts := [field] + more;
      hide Write, Denotes, WellFormed;
      MoreFields(field, more);
      var post := if |fields| == 1 then "" else "," + RenderFields(fields[1..]);
      Followed(RenderField(fields[0]), text, trailing, NestedType(fields[0]).value, post);
      WithLead(text, " ", trailing + post);
      NoPadding(fields[0].name + (" " + (RenderField(fields[0]) + post)));
    }
  }

  lemma {:induction false} RenderFieldIsText(f: NestedFieldJson)
    returns (field: FieldText, text: TypeText, trailing: string)
    requires RenderableField(f) && NestedType(f).Ok?
    ensures Renders(RenderField(f), text, trailing, NestedType(f).value)
    ensures field == FieldText("", f.name, text.(lead := " " + text.lead), trailing)
    ensures WellFormedField(field) && Denotes(field.fieldType) == NestedType(f).value
    decreases f, 1
  {
    hide Write, Denotes, WellFormed, ParseFieldType, All, Render, ToFieldType, Renderable;
    if f.fieldType.Some? {
      text := RenderIsText(f.fieldType.value);
      trailing := "";
    } else if f.dataType.Some? {
      text := RenderIsText(f.dataType.value);
      trailing := "";
    } else {
      text, trailing := AcceptedRenders(f.text);
    }
    OneSpace();
    WithLead(text, " ", "");
    field := FieldText("", f.name, text.(lead := " " + text.lead), trailing);
  }

  lemma OneSpace()
    ensures All(Space, " ") && All(Space, "")
  {
  }

  lemma AcceptedRenders(s: string) returns (text: TypeText, trailing: string)
    requires ParseFieldType(s).Ok?
    ensures Renders(s, text, trailing, ParseFieldType(s).value)
  {
    AcceptedIsText(s);
    hide Write, Denotes, WellFormed, ParseFieldType, All;
    text, trailing :| WellFormed(text) && All(Space, trailing) && s == Write(text, trailing)
                      && Denotes(text) == ParseFieldType(s).value;
  }

  /** A tree and its rendering describe the same type, at any depth. */
  lemma RoutesAgree(d: DataTypeJson)
    requires Renderable(d) && ToFieldType(d).Ok?
    ensures ParseFieldType(Render(d)) == ToFieldType(d)
  {
    hide ParseFieldType, ToFieldType, Renderable, Render;
    var text := RenderIsText(d);
    TypeTextParsesBack(text, "");
  }

  /** A column given by its type tree and one given by its type text. */
  lemma ColumnRoutesAgree(name: string, other: string, d: DataTypeJson)
    requires Renderable(d) && ToFieldType(d).Ok?
    ensures ColumnType(ColumnJson(name, Render(d), None, None)) == ColumnType(ColumnJson(name, other, Some(d), None))
  {
    RoutesAgree(d);
    hide *;
    NothingParsesToNothing(Render(d));
    TextColumn(name, Render(d));
    TreeColumn(name, other, d);
  }

  lemma TextColumn(name: string, text: string)
    requires Trim(text) != ""
    ensures ColumnType(ColumnJson(name, text, None, None)) == ParseFieldType(text)
  {
  }

  lemma TreeColumn(name: string, text: string, d: DataTypeJson)
    ensures ColumnType(ColumnJson(name, text, Some(d), None)) == ToFieldType(d)
  {
  }

  lemma NothingParsesToNothing(text: string)
    requires ParseFieldType(text).Ok?
    ensures Trim(text) != ""
  {
    if Trim(text) == "" {
      NoKeyword("");
    }
  }

  // ---------- where the routes part ----------

  function Bare(word: string): DataTypeJson {
    DataTypeJson(word, None, None, None, None, None, [])
  }

  /** Both succeed with one type, or both fail. */
  predicate SameType(a: Result<FieldType>, b: Result<FieldType>) {
    if a.Ok? then a == b else b.Err?
  }

  /** Names the JSON route takes without any argument and the parser does not. */
  predicate OnlyJson(ident: string) {
    ident in {"TIME_WITHOUT_TIME_ZONE", "TIMESTAMP_WITHOUT_TIME_ZONE", "TIMESTAMP_WITH_LOCAL_TIME_ZONE", "DECIMAL",
              "ROW"}
  }

  /** What a keyword of this shape means to the parser when nothing follows it. */
  function TextMeaning(shape: Shape): Result<FieldType> {
    match shape
    case Plain(t) => Ok(t)
    case Sized(t) => Ok(t)
    case TimestampShape(zoned) => Ok(TimestampType(zoned, DEFAULT_TIMESTAMP_PRECISION))
    case _ => Err(UnsupportedType)
  }

  /** What it means as a JSON object without any other key. */
  function JsonMeaning(shape: Shape): Result<FieldType> {
    match shape
    case DecimalShape => Ok(DecimalType(0, 0))
    case RowShape => Ok(RowType([]))
    case _ => TextMeaning(shape)
  }

  lemma TrimWord(word: string)
    requires All(Word, word)
    ensures Trim(word) == word
  {
    hide Span, SkipSpaces;
    if word != "" {
      assert In(Word, word[0]) && In(Word, word[|word| - 1]);
    }
    SkipNothing(word);
  }

  lemma ParseBareWord(word: string)
    requires All(Word, word)
    ensures SameType(ParseFieldType(word), TextMeaning(ShapeOf(Upper(word))))
  {
    TrimWord(word);
    hide ShapeOf, Trim, TextMeaning;
    EmptyWord();
    if word != "" {
      NoPadding(word);
      KeywordReadBack("", word, "");
      NothingLeft(ShapeOf(Upper(word)));
      hide ParseType, ParseShape, SkipSpaces;
    }
  }

  lemma EmptyWord()
    ensures ParseType("").Err? && TextMeaning(ShapeOf(Upper(""))).Err?
  {
    hide ParseType, ShapeOf, Upper, Span, SkipSpaces;
    NoKeyword("");
    assert Upper("") == "";
  }

  lemma NothingLeft(shape: Shape)
    ensures SkipSpaces("") == ""
    ensures
      var r, meaning := ParseShape(shape, ""), TextMeaning(shape);
      if meaning.Ok? then r == Ok((meaning.value, "")) else r.Err?
  {
    hide SkipSpaces, Span, ParseType, ParseFields, ParseInts, TimestampType;
    SkipNothing("");
  }

  lemma JsonBareWord(word: string)
    requires Trim(word) == word
    ensures SameType(ToFieldType(Bare(word)), JsonMeaning(ShapeOf(LongName(Upper(word)))))
  {
    hide ShapeOf, LongName, Upper, Trim, TimestampType;
    assert NestedTypes([]) == Ok([]);
  }

  lemma LongNamesDistinct(ident: string)
    ensures LongName(ident) != ident ==>
              ShapeOf(ident) == Unknown && TextMeaning(ShapeOf(LongName(ident))).Ok? && OnlyJson(ident)
    ensures LongName(ident) == ident ==>
              (OnlyJson(ident) <==> ShapeOf(ident).DecimalShape? || ShapeOf(ident).RowShape?)
  {
  }

  /** A single word means the same on both routes, except for five names that only the JSON route accepts. */
  lemma BareWordRoutesAgreeExactly(word: string)
    requires All(Word, word)
    ensures SameType(ToFieldType(Bare(word)), ParseFieldType(word)) <==> !OnlyJson(Upper(word))
  {
    hide ShapeOf, Upper, LongName, OnlyJson, ParseFieldType, ToFieldType, Trim, All;
    TrimWord(word);
    ParseBareWord(word);
    JsonBareWord(word);
    LongNamesDistinct(Upper(word));
  }
}
