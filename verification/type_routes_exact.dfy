/** The converse of TypeRoutes: a tree whose text form lacks something is not read from its text at all. */
module TypeRoutesExact {
  import opened Decimals
  import opened FieldTypes
  import opened Results
  import opened TypeGrammar
  import opened TypeLanguage
  import opened TypeRoutes
  import opened TypeText

  /** The names of row fields are words. */
  predicate WordNames(d: DataTypeJson)
    decreases d, 0
  {
    match JsonShape(d)
    case ArrayShape => d.element.Some? ==> WordNames(d.element.value)
    case MapShape => (d.key.Some? ==> WordNames(d.key.value)) && (d.val.Some? ==> WordNames(d.val.value))
    case RowShape => forall i :: 0 <= i < |d.fields| ==> WordNamesField(d.fields[i])
    case _ => true
  }

  predicate WordNamesField(f: NestedFieldJson)
    decreases f, 1
  {
    && f.name != ""
    && All(Word, f.name)
    && (f.fieldType.Some? ==> WordNames(f.fieldType.value))
    && (f.fieldType.None? && f.dataType.Some? ==> WordNames(f.dataType.value))
  }

  // ---------- numbers that cannot be read ----------

  lemma BadIntUnread(n: int, rest: string)
    requires !(0 <= n <= MAX_INT) && rest != "" && !IsDigit(rest[0])
    ensures ParseInts(Itoa(n) + rest).Err?
  {
    var s := Itoa(n) + rest;
    hide Digits, DigitsValue;
    if n < 0 {
      assert s[0] == '-';
      SkipNothing(s);
    } else {
      ValueOfDigits(n);
      NoPadding(s);
      assert All(Digit, Itoa(n)) by {
        assert AllDigits(Itoa(n));
      }
      ReadRun(Digit, "", Itoa(n), rest);
    }
  }

  lemma LaterIntUnread(m: int, next: string)
    requires 0 <= m <= MAX_INT && ParseInts(next).Err?
    ensures ParseInts(Itoa(m) + ("," + next)).Err?
  {
    var arg, s := IntArg(m), Itoa(m) + ("," + next);
    IntArgValue(m);
    IntReadBack(arg, "," + next);
    IntsStep(s);
    NoPadding(s);
    NoPadding("," + next);
    ExpectAfter("", ",", next);
    hide ParseInts, SkipSpaces, Span, Atoi, ArgValue, WellFormedArg, Peek, Expect, Itoa;
    assert arg.before + (arg.digits + (arg.after + ("," + next))) == s;
  }

  lemma ArgsUnread(inside: string, count: nat)
    requires ParseInts(inside).Err?
    ensures ParseIntArgs("(" + inside, count).Err? && ParseOptionalArg("(" + inside).Err?
  {
    ExpectAfter("", "(", inside);
    NoPadding("(" + inside);
    hide ParseInts, Expect, Peek, SkipSpaces;
  }

  // ---------- keywords whose continuation is missing ----------

  lemma KeywordUnread(keyword: string, tail: string)
    requires All(Word, keyword) && keyword != "" && (tail != [] ==> !In(Word, tail[0]))
    requires ParseShape(ShapeOf(Upper(keyword)), tail).Err?
    ensures ParseType(keyword + tail).Err?
  {
    NoPadding(keyword + tail);
    KeywordReadBack("", keyword, tail);
    hide ParseType, ParseShape, ShapeOf, Upper;
  }

  lemma MissingArgs(post: string)
    requires Ends(post)
    ensures ParseIntArgs(post, 2).Err?
  {
    hide SkipSpaces, ParseInts;
  }

  lemma DecimalUnread(d: DataTypeJson, post: string)
    requires JsonShape(d) == DecimalShape && !Renderable(d) && Ends(post)
    ensures ParseType(Render(d) + post).Err?
  {
    KeywordShape(d);
    hide ShapeOf, JsonShape, Keyword, Upper, Itoa, ParseType, All, Ends;
    if d.precision.None? || d.scale.None? {
      BareDecimalUnread(Keyword(d), post);
    } else {
      BadDecimalUnread(Keyword(d), d.precision.value, d.scale.value, post);
    }
  }

  lemma BareDecimalUnread(keyword: string, post: string)
    requires All(Word, keyword) && ShapeOf(Upper(keyword)) == DecimalShape && Ends(post)
    ensures ParseType(keyword + post).Err?
  {
    hide ShapeOf, Upper, All, ParseType, In, ParseIntArgs, Ends;
    NotEmptyKeyword(keyword);
    EndsWord(post);
    MissingArgs(post);
    KeywordUnread(keyword, post);
  }

  lemma BadDecimalUnread(keyword: string, m: int, n: int, post: string)
    requires All(Word, keyword) && ShapeOf(Upper(keyword)) == DecimalShape
    requires !(0 <= m <= MAX_INT && 0 <= n <= MAX_INT)
    ensures ParseType((keyword + ("(" + (Itoa(m) + ("," + (Itoa(n) + ")"))))) + post).Err?
  {
    hide ShapeOf, Upper, All, ParseType, Itoa, ParseIntArgs, ParseOptionalArg, ParseInts;
    var close := ")" + post;
    var second := Itoa(n) + close;
    NotEmptyKeyword(keyword);
    if 0 <= m <= MAX_INT {
      BadIntUnread(n, close);
      LaterIntUnread(m, second);
    } else {
      BadIntUnread(m, "," + second);
    }
    ArgsUnread(Itoa(m) + ("," + second), 2);
    KeywordUnread(keyword, "(" + (Itoa(m) + ("," + second)));
    DecimalText(keyword, Itoa(m), Itoa(n), post);
  }

  lemma DecimalText(keyword: string, m: string, n: string, post: string)
    ensures keyword + ("(" + (m + ("," + (n + (")" + post))))) == (keyword + ("(" + (m + ("," + (n + ")"))))) + post
  {
    RegroupMap(keyword, "(", m, ",", n + ")", post);
    RegroupLast(n, ")", post);
  }

  lemma NotEmptyKeyword(keyword: string)
    requires ShapeOf(Upper(keyword)) != Unknown
    ensures keyword != ""
  {
    assert Upper("") == "";
  }

  lemma TimestampUnread(d: DataTypeJson, post: string)
    requires JsonShape(d).TimestampShape? && !Renderable(d)
    ensures ParseType(Render(d) + post).Err?
  {
    KeywordShape(d);
    hide ShapeOf, JsonShape, Keyword, Upper, Itoa, ParseType, All;
    BadTimestampUnread(Keyword(d), d.precision.value, post);
  }

  lemma BadTimestampUnread(keyword: string, n: int, post: string)
    requires All(Word, keyword) && ShapeOf(Upper(keyword)).TimestampShape? && !(0 <= n <= MAX_INT)
    ensures ParseType((keyword + ("(" + (Itoa(n) + ")"))) + post).Err?
  {
    hide ShapeOf, Upper, Itoa, ParseType, ParseIntArgs, ParseInts, All, ParseOptionalArg;
    NotEmptyKeyword(keyword);
    BadIntUnread(n, ")" + post);
    ArgsUnread(Itoa(n) + (")" + post), 1);
    KeywordUnread(keyword, "(" + (Itoa(n) + (")" + post)));
    RegroupLast(Itoa(n), ")", post);
    RegroupLast("(", Itoa(n) + ")", post);
    RegroupLast(keyword, "(" + (Itoa(n) + ")"), post);
  }

  predicate InsideUnread(shape: Shape, inside: string) {
    match shape
    case ArrayShape => ParseType(inside).Err?
    case MapShape => MapInsideUnread(inside)
    case RowShape => ParseFields(inside).Err?
    case _ => false
  }

  lemma ShapeUnread(shape: Shape, inside: string)
    requires InsideUnread(shape, inside)
    ensures ParseShape(shape, "<" + inside).Err?
  {
    ExpectAfter("", "<", inside);
    NoPadding("<" + inside);
    hide SkipSpaces, Peek, ParseType, ParseFields, Expect;
  }

  /** What stands between angle brackets decides. */
  lemma BracketUnread(keyword: string, inside: string)
    requires All(Word, keyword) && InsideUnread(ShapeOf(Upper(keyword)), inside)
    ensures ParseType(keyword + ("<" + inside)).Err?
  {
    hide ShapeOf, Upper, All, ParseType, ParseShape;
    NotEmptyKeyword(keyword);
    ShapeUnread(ShapeOf(Upper(keyword)), inside);
    hide InsideUnread;
    KeywordUnread(keyword, "<" + inside);
  }

  predicate MapInsideUnread(inside: string) {
    var key := ParseType(inside);
    key.Err? || Expect(key.value.1, ',').Err? || ParseType(Expect(key.value.1, ',').value).Err?
  }

  // ---------- trees ----------

  /** A tree that cannot be rendered faithfully is not read, in front of anything that may follow a type. */
  lemma {:induction false} UnrenderableUnread(d: DataTypeJson, post: string)
    requires ToFieldType(d).Ok? && WordNames(d) && !Renderable(d) && Ends(post)
    ensures ParseType(Render(d) + post).Err?
    decreases d, 0
  {
    KeywordShape(d);
    hide ShapeOf, Keyword, Upper, Ends, ParseType, ParseFields, TimestampType;
    var keyword := Keyword(d);
    match JsonShape(d) {
      case DecimalShape => DecimalUnread(d, post);
      case TimestampShape(_) => TimestampUnread(d, post);
      case ArrayShape =>
        var element := Render(d.element.value);
        EndsHere(">", post);
        UnrenderableUnread(d.element.value, ">" + post);
        BracketUnread(keyword, element + (">" + post));
        Bracketed(keyword, element, post);
      case MapShape =>
        MapUnread(d, post);
      case RowShape =>
        FieldsUnread(d.fields, post);
        BracketUnread(keyword, RenderFields(d.fields) + (">" + post));
        Bracketed(keyword, RenderFields(d.fields), post);
    }
  }

  lemma EndsHere(ch: string, post: string)
    requires ch == ">" || ch == ","
    ensures Ends(ch + post)
  {
    EndsAfter("", ch, post);
    NoPadding(ch + post);
  }

  lemma Bracketed(keyword: string, inside: string, post: string)
    ensures keyword + ("<" + (inside + (">" + post))) == (keyword + ("<" + (inside + ">"))) + post
  {
    RegroupLast(inside, ">", post);
    RegroupLast("<", inside + ">", post);
    RegroupLast(keyword, "<" + (inside + ">"), post);
  }

  lemma {:induction false} MapUnread(d: DataTypeJson, post: string)
    requires ToFieldType(d).Ok? && WordNames(d) && !Renderable(d) && JsonShape(d).MapShape?
    ensures ParseType(Render(d) + post).Err?
    decreases d, -1
  {
    var keyword := Keyword(d);
    KeywordShape(d);
    hide ShapeOf, Keyword, Upper, Ends, ParseType, ParseFields, All;
    var key, val := d.key.value, d.val.value;
    var last := ">" + post;
    var second := Render(val) + last;
    var inside := Render(key) + ("," + second);
    EndsHere(",", second);
    EndsHere(">", post);
    if Renderable(key) {
      RenderedRead(key, ",", second);
      UnrenderableUnread(val, last);
    } else {
      UnrenderableUnread(key, "," + second);
    }
    BracketUnread(keyword, inside);
    RegroupMap(keyword, "<", Render(key), ",", Render(val) + ">", post);
    RegroupLast(Render(val), ">", post);
  }

  /** A faithful rendering is read up to the token behind it. */
  lemma RenderedRead(d: DataTypeJson, ch: string, rest: string)
    requires ToFieldType(d).Ok? && Renderable(d) && (ch == ">" || ch == ",")
    ensures
      var r := ParseType(Render(d) + (ch + rest));
      r.Ok? && Expect(r.value.1, ch[0]) == Ok(rest)
  {
    hide ParseType, ToFieldType, Renderable, Render;
    var text := RenderIsText(d);
    TextRead(Render(d), text, "", ToFieldType(d).value, ch, rest);
  }

  lemma TextRead(s: string, text: TypeText, trailing: string, t: FieldType, ch: string, rest: string)
    requires Renders(s, text, trailing, t) && (ch == ">" || ch == ",")
    ensures
      var r := ParseType(s + (ch + rest));
      && r.Ok? && Expect(r.value.1, ch[0]) == Ok(rest) && SkipSpaces(r.value.1) == ch + rest
      && Peek(SkipSpaces(r.value.1)) == Some(ch[0])
  {
    var post := ch + rest;
    Followed(s, text, trailing, t, post);
    EndsAfter(trailing, ch, rest);
    ExpectAfter(trailing, ch, rest);
    ExpectAfter("", ch, rest);
    NoPadding(ch + rest);
    hide Write, Denotes, Ends, ParseType, WellFormed, SkipSpaces;
    TypeReadBack(text, trailing + post);
    TokenReadBack(ParseType(s + post).value.1, trailing, ch, rest);
  }

  // ---------- row fields ----------

  /** The name and the space behind it are passed over. */
  lemma FieldStart(name: string, text: string)
    requires name != "" && All(Word, name)
    ensures
      var at := SkipSpaces(name + (" " + text));
      ParseType(SkipSpaces(at[Span(Word, at)..])) == ParseType(text)
  {
    NoPadding(name + (" " + text));
    ReadRun(Word, "", name, " " + text);
    SkipLead(" ", text);
    ParseTypeSkips(text);
    hide ParseType, SkipSpaces, Span;
  }

  lemma FieldUnread(name: string, text: string)
    requires name != "" && All(Word, name) && ParseType(text).Err?
    ensures ParseFields(name + (" " + text)).Err?
  {
    FieldStart(name, text);
    FieldsStep(name + (" " + text));
    hide ParseType, ParseFields, SkipSpaces, Span;
  }

  lemma LaterFieldUnread(name: string, text: string, next: string)
    requires name != "" && All(Word, name) && ParseFields(next).Err?
    requires
      var r := ParseType(text);
      r.Ok? && SkipSpaces(r.value.1) == "," + next && Expect(r.value.1, ',') == Ok(next)
      && Peek(SkipSpaces(r.value.1)) == Some(',')
    ensures ParseFields(name + (" " + text)).Err?
  {
    FieldStart(name, text);
    FieldsStep(name + (" " + text));
    ExpectAfter("", ",", next);
    NoPadding("," + next);
    hide ParseType, ParseFields, SkipSpaces, Span, Peek, Expect;
  }

  lemma NoFieldsUnread(post: string)
    ensures ParseFields(">" + post).Err?
  {
    var s := ">" + post;
    SkipNothing(s);
    assert Span(Word, s) == 0;
    assert s[0..] == s;
    NoKeyword(s);
    FieldsStep(s);
    hide ParseType, ParseFields, SkipSpaces;
  }

  /** Fields with none, or with one that cannot be rendered faithfully. */
  lemma {:induction false} FieldsUnread(fields: seq<NestedFieldJson>, post: string)
    requires NestedTypes(fields).Ok? && forall i :: 0 <= i < |fields| ==> WordNamesField(fields[i])
    requires fields == [] || exists i :: 0 <= i < |fields| && !RenderableField(fields[i])
    ensures ParseFields(RenderFields(fields) + (">" + post)).Err?
    decreases fields, 0
  {
    if fields == [] {
      NoPadding(">" + post);
      NoFieldsUnread(post);
    } else {
      var f, later := fields[0], fields[1..];
      var ch, rest := if |fields| == 1 then ">" else ",", if |fields| == 1 then post else RenderFields(later) + (">" + post);
      FieldsText(fields, post);
      assert WordNamesField(f);
      hide ParseFields, ParseType, Render, All;
      if RenderableField(f) {
        assert |fields| > 1 && exists i :: 0 <= i < |later| && !RenderableField(later[i]) by {
          var i :| 0 <= i < |fields| && !RenderableField(fields[i]);
          assert later[i - 1] == fields[i];
        }
        FieldsUnread(later, post);
        var field, text, trailing := RenderFieldIsText(f);
        TextRead(RenderField(f), text, trailing, NestedType(f).value, ch, rest);
        LaterFieldUnread(f.name, RenderField(f) + (ch + rest), rest);
      } else {
        FieldTreeUnread(f, ch, rest);
        FieldUnread(f.name, RenderField(f) + (ch + rest));
      }
    }
  }

  lemma FieldsText(fields: seq<NestedFieldJson>, post: string)
    requires fields != []
    ensures
      var f, close := fields[0], ">" + post;
      RenderFields(fields) + close
      == f.name + (" " + (RenderField(f) + (if |fields| == 1 then close else "," + (RenderFields(fields[1..]) + close))))
  {
    var f, close := fields[0], ">" + post;
    hide RenderField;
    var more := RenderFields(fields[1..]);
    var mine := if |fields| == 1 then "" else "," + more;
    RegroupLast(RenderField(f), mine, close);
    RegroupLast(" ", RenderField(f) + mine, close);
    RegroupLast(f.name, " " + (RenderField(f) + mine), close);
    NoPadding(close);
    RegroupLast(",", more, close);
  }

  lemma {:induction false} FieldTreeUnread(f: NestedFieldJson, ch: string, rest: string)
    requires NestedType(f).Ok? && WordNamesField(f) && !RenderableField(f) && (ch == ">" || ch == ",")
    ensures ParseType(RenderField(f) + (ch + rest)).Err?
    decreases f, 1
  {
    EndsHere(ch, rest);
    hide ParseType, Render, Ends, All;
    if f.fieldType.Some? {
      UnrenderableUnread(f.fieldType.value, ch + rest);
    } else {
      UnrenderableUnread(f.dataType.value, ch + rest);
    }
  }

  // ---------- the exact condition ----------

  /** What is accepted as a whole input is read as a type. */
  lemma WholeIsRead(input: string)
    requires ParseFieldType(input).Ok?
    ensures ParseType(input).Ok?
  {
    AcceptedIsText(input);
    var t := ParseFieldType(input).value;
    var text: TypeText, trailing: string :|
      WellFormed(text) && All(Space, trailing) && input == Write(text, trailing) && Denotes(text) == t;
    SpacesEnd(trailing);
    hide ParseFieldType, ParseType, Write, WellFormed, Denotes, Ends;
    TypeReadBack(text, trailing);
  }

  lemma SpacesEnd(spaces: string)
    requires All(Space, spaces)
    ensures Ends(spaces)
  {
    SkipLead(spaces, "");
    assert spaces + "" == spaces;
  }

  /**
   For a tree with word names that has a type: its text form has that type if and only if every decimal says its
   precision and scale, all numbers are ones the text form can hold, and no row is empty. Otherwise the text is refused.
   */
  lemma RoutesAgreeExactly(d: DataTypeJson)
    requires ToFieldType(d).Ok? && WordNames(d)
    ensures ParseFieldType(Render(d)) == ToFieldType(d) <==> Renderable(d)
    ensures !Renderable(d) ==> ParseFieldType(Render(d)).Err?
  {
    assert Ends("") by {
      SpacesEnd("");
    }
    NoPadding(Render(d));
    hide ParseFieldType, ToFieldType, Renderable, Render, ParseType, WordNames, Ends;
    if Renderable(d) {
      RoutesAgree(d);
    } else {
      UnrenderableUnread(d, "");
      if ParseFieldType(Render(d)).Ok? {
        WholeIsRead(Render(d));
      }
    }
  }
}
