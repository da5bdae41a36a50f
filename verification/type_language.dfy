/**
 The converse: whatever the parser accepts is the text of a type. Together with TypeText this says exactly which
 inputs are accepted and what they mean.
 */
module TypeLanguage {
  import opened Decimals
  import opened FieldTypes
  import opened Results
  import opened TypeGrammar
  import opened TypeText

  lemma SplitSpaces(s: string) returns (lead: string)
    ensures All(Space, lead) && s == lead + SkipSpaces(s)
  {
    lead := s[..Span(Space, s)];
  }

  lemma {:induction false} AllSpaces(s: string)
    requires SkipSpaces(s) == ""
    ensures All(Space, s)
  {
    var lead := SplitSpaces(s);
    assert lead + "" == lead;
  }

  lemma SplitExpect(s: string, ch: string) returns (gap: string)
    requires |ch| == 1 && Expect(s, ch[0]).Ok?
    ensures All(Space, gap) && s == gap + (ch + Expect(s, ch[0]).value)
  {
    gap := SplitSpaces(s);
    assert SkipSpaces(s) == ch + SkipSpaces(s)[1..];
  }

  lemma ExpectHere(s: string, ch: string)
    requires |ch| == 1 && SkipSpaces(s) == s && Expect(s, ch[0]).Ok?
    ensures s == ch + Expect(s, ch[0]).value
  {
  }

  // ---------- arguments ----------

  lemma RecognizeInt(s: string) returns (arg: ArgText, tail: string)
    requires
      var at := SkipSpaces(s);
      Span(Digit, at) > 0 && AllDigits(at[..Span(Digit, at)]) && Atoi(at[..Span(Digit, at)]).Ok?
    ensures
      var at := SkipSpaces(s);
      var n := Span(Digit, at);
      && WellFormedArg(arg) && Ok(ArgValue(arg)) == Atoi(at[..n])
      && tail == SkipSpaces(at[n..]) && s == arg.before + (arg.digits + (arg.after + tail))
  {
    hide SkipSpaces, Span, DigitsValue, All, In, AllDigits;
    var at := SkipSpaces(s);
    var n := Span(Digit, at);
    var before := SplitSpaces(s);
    var after := SplitSpaces(at[n..]);
    tail := SkipSpaces(at[n..]);
    arg := ArgText(before, at[..n], after);
    Pieces(s, before, at, n, after, tail);
  }

  lemma Pieces(s: string, before: string, at: string, n: nat, after: string, tail: string)
    requires s == before + at && n <= |at| && at[n..] == after + tail
    ensures s == before + (at[..n] + (after + tail))
  {
    assert at == at[..n] + at[n..];
  }

  lemma {:induction false} RecognizeInts(s: string) returns (args: seq<ArgText>)
    requires ParseInts(s).Ok?
    ensures args != [] && forall i :: 0 <= i < |args| ==> WellFormedArg(args[i])
    ensures s == WriteInts(args, ParseInts(s).value.1) && ArgValues(args) == ParseInts(s).value.0
    ensures SkipSpaces(ParseInts(s).value.1) == ParseInts(s).value.1
    decreases |s|
  {
    hide SkipSpaces, Span, Atoi, In, WellFormedArg, ArgValue, ParseInts, Peek, AllDigits;
    IntsStep(s);
    var arg, tail := RecognizeInt(s);
    assert ArgValues([arg]) == [ArgValue(arg)];
    args := [arg];
    if Peek(tail) != Some(')') {
      ExpectHere(tail, ",");
      var next := Expect(tail, ',').value;
      ShorterBy(s, arg, next);
      var more := RecognizeInts(next);
      args := [arg] + more;
      assert args[1..] == more;
      assert ArgValues(args) == [ArgValue(arg)] + ArgValues(more);
    }
  }

  lemma ShorterBy(s: string, arg: ArgText, next: string)
    requires s == arg.before + (arg.digits + (arg.after + ("," + next)))
    ensures |next| < |s|
  {
  }

  lemma RecognizeIntArgs(s: string, count: nat) returns (args: ArgsText)
    requires ParseIntArgs(s, count).Ok?
    ensures WellFormedArgs(args, count) && ArgValues(args.args) == ParseIntArgs(s, count).value.0
    ensures s == WriteArgs(Some(args), ParseIntArgs(s, count).value.1)
  {
    hide ParseInts, WriteInts, WellFormedArg, ArgValue;
    var gap := SplitExpect(s, "(");
    var inside := Expect(s, '(').value;
    var ints := RecognizeInts(inside);
    var rest := ParseInts(inside).value.1;
    ExpectHere(rest, ")");
    args := ArgsText(gap, ints);
  }

  lemma RecognizeOptionalArg(s: string) returns (args: Option<ArgsText>, post: string)
    requires ParseOptionalArg(s).Ok?
    ensures args.Some? ==> WellFormedArgs(args.value, 1)
    ensures s == WriteArgs(args, post) && SkipSpaces(post) == SkipSpaces(ParseOptionalArg(s).value.1)
    ensures ParseOptionalArg(s).value.0 == if args.None? then None else Some(ArgValue(args.value.args[0]))
  {
    hide ParseIntArgs, SkipSpaces, ArgValue, WellFormedArg, WriteInts;
    if Peek(s) == Some('(') {
      var inside := RecognizeIntArgs(s, 1);
      args, post := Some(inside), ParseIntArgs(s, 1).value.1;
      assert ArgValues(inside.args)[0] == ArgValue(inside.args[0]);
    } else {
      SkippedTwice(s);
      args, post := None, s;
    }
  }

  // ---------- types ----------

  /** `s` is the text of `t`, followed by something that starts like `rest` once spaces are skipped. */
  ghost predicate Spells(s: string, text: TypeText, post: string, t: FieldType, rest: string) {
    && WellFormed(text)
    && Denotes(text) == t
    && s == Write(text, post)
    && SkipSpaces(post) == SkipSpaces(rest)
  }

  lemma {:induction false} RecognizeType(s: string) returns (text: TypeText, post: string)
    requires ParseType(s).Ok?
    ensures Spells(s, text, post, ParseType(s).value.0, ParseType(s).value.1)
    decreases |s|, 2
  {
    hide Spells, ShapeOf, Upper, All, ParseShape, SkipSpaces, Span, In;
    var lead := SplitSpaces(s);
    var at := SkipSpaces(s);
    var n := Span(Word, at);
    assert at == at[..n] + at[n..];
    text, post := RecognizeShape(lead, at[..n], at[n..]);
  }

  /** `lead` and `keyword` have been read and `rest` has not. */
  lemma {:induction false} RecognizeShape(lead: string, keyword: string, rest: string)
    returns (text: TypeText, post: string)
    requires All(Space, lead) && All(Word, keyword) && ParseShape(ShapeOf(Upper(keyword)), rest).Ok?
    ensures
      var r := ParseShape(ShapeOf(Upper(keyword)), rest).value;
      Spells(lead + (keyword + rest), text, post, r.0, r.1)
    decreases |rest|, 1
  {
    hide ShapeOf, Upper, All, SkipSpaces, Span, In, ParseType, Spells, ParseShape;
    match ShapeOf(Upper(keyword)) {
      case Unknown =>
      case ArrayShape => text, post := RecognizeArray(lead, keyword, rest);
      case MapShape => text, post := RecognizeMap(lead, keyword, rest);
      case RowShape => text, post := RecognizeRow(lead, keyword, rest);
      case _ => text, post := RecognizeLeaf(lead, keyword, rest);
    }
  }

  lemma RecognizeLeaf(lead: string, keyword: string, rest: string) returns (text: TypeText, post: string)
    requires All(Space, lead) && All(Word, keyword) && ParseShape(ShapeOf(Upper(keyword)), rest).Ok?
    requires
      var shape := ShapeOf(Upper(keyword));
      !shape.ArrayShape? && !shape.MapShape? && !shape.RowShape?
    ensures
      var r := ParseShape(ShapeOf(Upper(keyword)), rest).value;
      Spells(lead + (keyword + rest), text, post, r.0, r.1)
  {
    hide ShapeOf, Upper, All, SkipSpaces, ParseIntArgs, ParseOptionalArg, WriteArgs, TimestampType, Peek, ArgValue;
    hide WellFormedArgs, ParseType, Span, In;
    match ShapeOf(Upper(keyword)) {
      case Plain(t) =>
        NoArgs(rest);
        text, post := LeafText(lead, keyword, None), rest;
      case DecimalShape =>
        var args := RecognizeIntArgs(rest, 2);
        DecimalArgs(args);
        text, post := LeafText(lead, keyword, Some(args)), ParseIntArgs(rest, 2).value.1;
      case _ =>
        var args, after := RecognizeOptionalArg(rest);
        text, post := LeafText(lead, keyword, args), after;
    }
  }

  lemma {:induction false} RecognizeArray(lead: string, keyword: string, rest: string)
    returns (text: TypeText, post: string)
    requires All(Space, lead) && All(Word, keyword) && ShapeOf(Upper(keyword)).ArrayShape?
    requires ParseShape(ArrayShape, rest).Ok?
    ensures
      var r := ParseShape(ArrayShape, rest).value;
      Spells(lead + (keyword + rest), text, post, r.0, r.1)
    decreases |rest|, 0
  {
    hide ShapeOf, Upper, All, SkipSpaces, Peek, Span, In, ParseType;
    var gap := SplitExpect(rest, "<");
    var open := Expect(rest, '<').value;
    var element, p := RecognizeType(open);
    var last := SplitClose(p, ParseType(open).value.1, ">");
    text := ArrayText(lead, keyword, gap, element, last);
    post := Expect(ParseType(open).value.1, '>').value;
  }

  lemma {:induction false} RecognizeMap(lead: string, keyword: string, rest: string)
    returns (text: TypeText, post: string)
    requires All(Space, lead) && All(Word, keyword) && ShapeOf(Upper(keyword)).MapShape?
    requires ParseShape(MapShape, rest).Ok?
    ensures
      var r := ParseShape(MapShape, rest).value;
      Spells(lead + (keyword + rest), text, post, r.0, r.1)
    decreases |rest|, 0
  {
    hide ShapeOf, Upper, All, SkipSpaces, Peek, Span, In, ParseType;
    var gap := SplitExpect(rest, "<");
    var open := Expect(rest, '<').value;
    var key, p := RecognizeType(open);
    var mid := SplitClose(p, ParseType(open).value.1, ",");
    var comma := Expect(ParseType(open).value.1, ',').value;
    var val, q := RecognizeType(comma);
    var last := SplitClose(q, ParseType(comma).value.1, ">");
    text := MapText(lead, keyword, gap, key, mid, val, last);
    post := Expect(ParseType(comma).value.1, '>').value;
  }

  lemma {:induction false} RecognizeRow(lead: string, keyword: string, rest: string)
    returns (text: TypeText, post: string)
    requires All(Space, lead) && All(Word, keyword) && ShapeOf(Upper(keyword)).RowShape?
    requires ParseShape(RowShape, rest).Ok?
    ensures
      var r := ParseShape(RowShape, rest).value;
      Spells(lead + (keyword + rest), text, post, r.0, r.1)
    decreases |rest|, 0
  {
    hide ShapeOf, Upper, All, SkipSpaces, Peek, Span, In, ParseFields, DenotesFields, WellFormedFields, WriteFields;
    var gap := SplitExpect(rest, "<");
    var open := Expect(rest, '<').value;
    var fields := RecognizeFields(open);
    var left := ParseFields(open).value.1;
    ExpectHere(left, ">");
    text := RowText(lead, keyword, gap, fields);
    post := Expect(left, '>').value;
  }

  lemma NoArgs(rest: string)
    ensures WriteArgs(None, rest) == rest
  {
  }

  lemma DecimalArgs(args: ArgsText)
    requires WellFormedArgs(args, 2)
    ensures |args.args| == 2 && ArgValues(args.args) == [ArgValue(args.args[0]), ArgValue(args.args[1])]
  {
  }

  lemma SplitClose(p: string, left: string, ch: string) returns (last: string)
    requires |ch| == 1 && SkipSpaces(p) == SkipSpaces(left) && Expect(left, ch[0]).Ok?
    ensures All(Space, last) && p == last + (ch + Expect(left, ch[0]).value)
  {
    last := SplitExpect(p, ch);
  }

  lemma {:induction false} RecognizeFields(s: string) returns (fields: seq<FieldText>)
    requires ParseFields(s).Ok?
    ensures fields != [] && WellFormedFields(fields) && DenotesFields(fields) == ParseFields(s).value.0
    ensures s == WriteFields(fields, ParseFields(s).value.1)
    ensures SkipSpaces(ParseFields(s).value.1) == ParseFields(s).value.1
    decreases |s|, 2
  {
    hide SkipSpaces, Span, ParseType, ParseFields, Peek, Write, Denotes, WellFormedField;
    FieldsStep(s);
    var field, tail := RecognizeField(s);
    OneField(field);
    fields := [field];
    if Peek(tail) != Some('>') {
      ExpectHere(tail, ",");
      var next := Expect(tail, ',').value;
      var more := RecognizeFields(next);
      fields := [field] + more;
      MoreFields(field, more);
    }
  }

  lemma OneField(field: FieldText)
    requires WellFormedField(field)
    ensures WellFormedFields([field]) && DenotesFields([field]) == [Denotes(field.fieldType)]
  {
    hide Denotes;
    assert [field][1..] == [] && DenotesFields([]) == [];
  }

  lemma MoreFields(field: FieldText, more: seq<FieldText>)
    requires WellFormedField(field) && WellFormedFields(more)
    ensures WellFormedFields([field] + more)
    ensures ([field] + more)[1..] == more
    ensures DenotesFields([field] + more) == [Denotes(field.fieldType)] + DenotesFields(more)
  {
    hide Denotes, WellFormedField;
    assert ([field] + more)[1..] == more;
  }

  lemma NoKeyword(s: string)
    requires Span(Word, SkipSpaces(s)) == 0
    ensures ParseType(s).Err?
  {
    var at := SkipSpaces(s);
    assert at[..0] == "" && Upper("") == "";
  }

  /** More space in front of a type changes nothing but the text. */
  lemma WithLead(text: TypeText, gap: string, post: string)
    requires WellFormed(text) && All(Space, gap)
    ensures
      var wider := text.(lead := gap + text.lead);
      && WellFormed(wider) && Denotes(wider) == Denotes(text)
      && Write(wider, post) == gap + Write(text, post)
  {
    hide ShapeOf, Upper, WriteArgs, WellFormedLeaf, LeafType, WriteFields, WellFormedFields, DenotesFields;
    assert All(Space, gap + text.lead);
    hide All, In;
    match text {
      case LeafText(lead, keyword, args) => RegroupLast(gap, lead, keyword + WriteArgs(args, post));
      case ArrayText(lead, keyword, inner, element, last) =>
        RegroupLast(gap, lead, keyword + (inner + ("<" + Write(element, last + (">" + post)))));
      case MapText(lead, keyword, inner, key, mid, val, last) =>
        RegroupLast(gap, lead, keyword + (inner + ("<" + Write(key, mid + ("," + Write(val, last + (">" + post)))))));
      case RowText(lead, keyword, inner, fields) =>
        RegroupLast(gap, lead, keyword + (inner + ("<" + WriteFields(fields, ">" + post))));
    }
  }

  lemma {:induction false} RecognizeField(s: string) returns (field: FieldText, tail: string)
    requires
      var at := SkipSpaces(s);
      ParseType(SkipSpaces(at[Span(Word, at)..])).Ok?
    ensures
      var at := SkipSpaces(s);
      var r := ParseType(SkipSpaces(at[Span(Word, at)..])).value;
      && WellFormedField(field) && Denotes(field.fieldType) == r.0
      && tail == SkipSpaces(r.1) && SkipSpaces(tail) == tail && |tail| < |s|
      && s == field.lead + (field.name + Write(field.fieldType, field.after + tail))
    decreases |s|, 1
  {
    hide ParseType, Write, Denotes, WellFormed, Span, SkipSpaces;
    var lead := SplitSpaces(s);
    var at := SkipSpaces(s);
    SkippedTwice(s);
    var n := Span(Word, at);
    var named := SkipSpaces(at[n..]);
    var gap := SplitSpaces(at[n..]);
    SkippedTwice(at[n..]);
    NameAndGap(at, n);
    var text, post := RecognizeType(named);
    tail := SkipSpaces(ParseType(named).value.1);
    SkippedTwice(ParseType(named).value.1);
    var after := SplitSpaces(post);
    WithLead(text, gap, post);
    field := FieldText(lead, at[..n], text.(lead := gap + text.lead), after);
    Pieces(s, lead, at, n, gap, named);
  }

  /** A row field without a name, or without space behind it, is not accepted. */
  lemma NameAndGap(at: string, n: nat)
    requires at == SkipSpaces(at) && n == Span(Word, at) && ParseType(SkipSpaces(at[n..])).Ok?
    ensures n > 0 && SkipSpaces(at[n..]) != at[n..]
  {
    SkippedTwice(at[n..]);
    assert at[0..] == at;
    if n == 0 {
      NoKeyword(at);
    } else if SkipSpaces(at[n..]) == at[n..] {
      NoKeyword(at[n..]);
    }
  }

  // ---------- the accepted language ----------

  /** `input` is a text of type `t`, perhaps with spaces behind it. */
  ghost predicate IsTextOf(input: string, t: FieldType) {
    exists text: TypeText, trailing: string ::
      WellFormed(text) && All(Space, trailing) && input == Write(text, trailing) && Denotes(text) == t
  }

  lemma {:induction false} SplitTrimmed(s: string) returns (trailing: string)
    ensures All(Space, trailing) && s == TrimRight(s) + trailing
  {
    if s != [] && In(Space, s[|s| - 1]) {
      var before := SplitTrimmed(s[..|s| - 1]);
      trailing := before + [s[|s| - 1]];
    } else {
      trailing := "";
    }
  }

  lemma AcceptedIsText(input: string)
    requires ParseFieldType(input).Ok?
    ensures IsTextOf(input, ParseFieldType(input).value)
  {
    hide ParseType, Write, Denotes, WellFormed, Span, SkipSpaces, TrimRight, All;
    var trimmed := Trim(input);
    var lead := SplitSpaces(input);
    var trailing := SplitTrimmed(SkipSpaces(input));
    var text, post := RecognizeType(trimmed);
    SkippedTwice(ParseType(trimmed).value.1);
    assert SkipSpaces(post) == "";
    AllSpaces(post);
    WithLead(text, lead, "");
    var wider := text.(lead := lead + text.lead);
    BothSpaces(post, trailing);
    WriteAppends(text, post);
    WriteAppends(wider, post + trailing);
    Reassemble(input, lead, trimmed, trailing, Write(text, ""), post);
  }

  lemma BothSpaces(a: string, b: string)
    requires All(Space, a) && All(Space, b)
    ensures All(Space, a + b)
  {
  }

  lemma Reassemble(input: string, lead: string, trimmed: string, trailing: string, core: string, post: string)
    requires input == lead + (trimmed + trailing) && trimmed == core + post
    ensures input == (lead + core) + (post + trailing)
  {
  }

  /** The parser accepts exactly the texts of types, with exactly their meaning. */
  lemma ParsesExactlyTexts(input: string, t: FieldType)
    ensures ParseFieldType(input) == Ok(t) <==> IsTextOf(input, t)
  {
    if ParseFieldType(input) == Ok(t) {
      AcceptedIsText(input);
    }
    hide ParseFieldType;
    if text: TypeText, trailing: string :|
        WellFormed(text) && All(Space, trailing) && input == Write(text, trailing) && Denotes(text) == t {
      TypeTextParsesBack(text, trailing);
    }
  }
}
