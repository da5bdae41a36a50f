/**
 Every way of writing a type down, and the theorem that the parser reads it back. A TypeText is a type together with
 the spelling of its keyword, the spaces around each token, the digits of its arguments and the names of its fields.
 */
module TypeText {
  import opened Decimals
  import opened FieldTypes
  import opened Results
  import opened TypeGrammar

  datatype ArgText = ArgText(before: string, digits: string, after: string)

  datatype ArgsText = ArgsText(gap: string, args: seq<ArgText>)

  datatype TypeText =
    | LeafText(lead: string, keyword: string, args: Option<ArgsText>)
    | ArrayText(lead: string, keyword: string, gap: string, element: TypeText, last: string)
    | MapText(lead: string, keyword: string, gap: string, key: TypeText, mid: string, val: TypeText, last: string)
    | RowText(lead: string, keyword: string, gap: string, fields: seq<FieldText>)

  datatype FieldText = FieldText(lead: string, name: string, fieldType: TypeText, after: string)

  // ---------- writing, in front of what follows ----------

  function WriteInts(args: seq<ArgText>, post: string): string {
    if args == [] then post
    else
      args[0].before + (args[0].digits + (args[0].after +
        (if |args| == 1 then post else "," + WriteInts(args[1..], post))))
  }

  function WriteArgs(args: Option<ArgsText>, post: string): string {
    match args
    case None => post
    case Some(ArgsText(gap, ints)) => gap + ("(" + WriteInts(ints, ")" + post))
  }

  function Write(t: TypeText, post: string): string
    decreases t, 0
  {
    match t
    case LeafText(lead, keyword, args) => lead + (keyword + WriteArgs(args, post))
    case ArrayText(lead, keyword, gap, element, last) =>
      lead + (keyword + (gap + ("<" + Write(element, last + (">" + post)))))
    case MapText(lead, keyword, gap, key, mid, val, last) =>
      lead + (keyword + (gap + ("<" + Write(key, mid + ("," + Write(val, last + (">" + post)))))))
    case RowText(lead, keyword, gap, fields) =>
      lead + (keyword + (gap + ("<" + WriteFields(fields, ">" + post))))
  }

  function WriteFields(fields: seq<FieldText>, post: string): string
    decreases fields, 0
  {
    if fields == [] then post
    else
      fields[0].lead + (fields[0].name + Write(fields[0].fieldType, fields[0].after +
        (if |fields| == 1 then post else "," + WriteFields(fields[1..], post))))
  }

  // ---------- meaning ----------

  function ArgValue(arg: ArgText): int {
    if AllDigits(arg.digits) then DigitsValue(arg.digits) else 0
  }

  predicate WellFormedArg(arg: ArgText) {
    && All(Space, arg.before)
    && All(Space, arg.after)
    && arg.digits != ""
    && AllDigits(arg.digits)
    && DigitsValue(arg.digits) <= MAX_INT
  }

  predicate WellFormedArgs(args: ArgsText, count: nat) {
    && All(Space, args.gap)
    && |args.args| == count
    && forall i :: 0 <= i < count ==> WellFormedArg(args.args[i])
  }

  predicate WellFormedLeaf(shape: Shape, args: Option<ArgsText>) {
    match shape
    case Plain(_) => args.None?
    case DecimalShape => args.Some? && WellFormedArgs(args.value, 2)
    case Sized(_) => args.Some? ==> WellFormedArgs(args.value, 1)
    case TimestampShape(_) => args.Some? ==> WellFormedArgs(args.value, 1)
    case _ => false
  }

  predicate WellFormed(t: TypeText)
    decreases t, 0
  {
    && All(Space, t.lead)
    && All(Word, t.keyword)
    && var shape := ShapeOf(Upper(t.keyword));
       match t
       case LeafText(_, _, args) => WellFormedLeaf(shape, args)
       case ArrayText(_, _, gap, element, last) =>
         shape.ArrayShape? && All(Space, gap) && WellFormed(element) && All(Space, last)
       case MapText(_, _, gap, key, mid, val, last) =>
         && shape.MapShape? && All(Space, gap) && WellFormed(key) && All(Space, mid)
         && WellFormed(val) && All(Space, last)
       case RowText(_, _, gap, fields) =>
         shape.RowShape? && All(Space, gap) && fields != [] && WellFormedFields(fields)
  }

  predicate WellFormedFields(fields: seq<FieldText>)
    decreases fields, 0
  {
    forall i :: 0 <= i < |fields| ==> WellFormedField(fields[i])
  }

  /** A field has a name, and space between it and its type. */
  predicate WellFormedField(field: FieldText)
    decreases field, 1
  {
    && All(Space, field.lead)
    && All(Space, field.after)
    && field.name != ""
    && All(Word, field.name)
    && field.fieldType.lead != ""
    && WellFormed(field.fieldType)
  }

  function LeafType(shape: Shape, args: Option<ArgsText>): FieldType
    requires WellFormedLeaf(shape, args)
  {
    match shape
    case Plain(t) => t
    case Sized(t) => t
    case DecimalShape => DecimalType(ArgValue(args.value.args[0]), ArgValue(args.value.args[1]))
    case TimestampShape(zoned) =>
      TimestampType(zoned, if args.None? then DEFAULT_TIMESTAMP_PRECISION else ArgValue(args.value.args[0]))
  }

  function Denotes(t: TypeText): FieldType
    requires WellFormed(t)
    decreases t, 0
  {
    match t
    case LeafText(_, keyword, args) => LeafType(ShapeOf(Upper(keyword)), args)
    case ArrayText(_, _, _, element, _) => ArrayType(Denotes(element))
    case MapText(_, _, _, key, _, val, _) => MapType(Denotes(key), Denotes(val))
    case RowText(_, _, _, fields) => RowType(DenotesFields(fields))
  }

  function DenotesFields(fields: seq<FieldText>): (ts: seq<FieldType>)
    requires WellFormedFields(fields)
    ensures |ts| == |fields|
    decreases fields, 0
  {
    if fields == [] then []
    else
      assert WellFormedField(fields[0]);
      [Denotes(fields[0].fieldType)] + DenotesFields(fields[1..])
  }

  // ---------- reading tokens back ----------

  lemma {:induction false} SpanOf(kind: CharClass, s: string, rest: string)
    requires All(kind, s) && (rest != [] ==> !In(kind, rest[0]))
    ensures Span(kind, s + rest) == |s|
  {
    if s == [] {
      assert s + rest == rest;
    } else {
      assert (s + rest)[1..] == s[1..] + rest;
      SpanOf(kind, s[1..], rest);
    }
  }

  lemma {:induction false} SkipLead(spaces: string, rest: string)
    requires All(Space, spaces)
    ensures SkipSpaces(spaces + rest) == SkipSpaces(rest)
  {
    if spaces == [] {
      assert spaces + rest == rest;
    } else {
      assert (spaces + rest)[1..] == spaces[1..] + rest;
      SkipLead(spaces[1..], rest);
    }
  }

  lemma SkipNothing(s: string)
    requires s != [] ==> !In(Space, s[0])
    ensures SkipSpaces(s) == s
  {
  }

  lemma ExpectAfter(spaces: string, ch: string, rest: string)
    requires All(Space, spaces) && |ch| == 1 && !In(Space, ch[0])
    ensures Expect(spaces + (ch + rest), ch[0]) == Ok(rest)
    ensures Peek(spaces + (ch + rest)) == Some(ch[0])
    ensures SkipSpaces(spaces + (ch + rest)) == ch + rest
  {
    SkipLead(spaces, ch + rest);
    SkipNothing(ch + rest);
    assert (ch + rest)[1..] == rest;
  }

  /** The word or number at the front of `lead + (run + tail)`. */
  lemma ReadRun(kind: CharClass, lead: string, run: string, tail: string)
    requires kind != Space && All(Space, lead) && All(kind, run) && run != "" && (tail != [] ==> !In(kind, tail[0]))
    ensures
      var at := SkipSpaces(lead + (run + tail));
      at == run + tail && Span(kind, at) == |run| && at[..|run|] == run && at[|run|..] == tail
  {
    SkipLead(lead, run + tail);
    assert In(kind, run[0]);
    SkipNothing(run + tail);
    SpanOf(kind, run, tail);
  }

  /** What may follow a type: nothing, a comma or a closing bracket, perhaps after spaces. */
  predicate Ends(post: string) {
    Peek(post) in {None, Some('>'), Some(',')}
  }

  lemma EndsWord(post: string)
    requires Ends(post)
    ensures post != [] ==> !In(Word, post[0])
  {
  }

  lemma EndsAfter(spaces: string, ch: string, rest: string)
    requires All(Space, spaces) && (ch == ">" || ch == ",")
    ensures Ends(spaces + (ch + rest))
  {
    ExpectAfter(spaces, ch, rest);
  }

  function ArgValues(args: seq<ArgText>): seq<int> {
    seq(|args|, i requires 0 <= i < |args| => ArgValue(args[i]))
  }

  lemma {:induction false} IntsReadBack(args: seq<ArgText>, post: string)
    requires args != [] && forall i :: 0 <= i < |args| ==> WellFormedArg(args[i])
    ensures ParseInts(WriteInts(args, ")" + post)) == Ok((ArgValues(args), ")" + post))
  {
    hide ParseInts, WellFormedArg, ArgValue;
    if |args| == 1 {
      LastIntReadBack(args[0], post);
      assert ArgValues(args) == [ArgValue(args[0])];
    } else {
      IntsReadBack(args[1..], post);
      NextIntReadBack(args[0], WriteInts(args[1..], ")" + post));
      assert ArgValues(args) == [ArgValue(args[0])] + ArgValues(args[1..]);
    }
  }

  lemma LastIntReadBack(arg: ArgText, post: string)
    requires WellFormedArg(arg)
    ensures ParseInts(arg.before + (arg.digits + (arg.after + (")" + post)))) == Ok(([ArgValue(arg)], ")" + post))
  {
    hide Span, SkipSpaces, Atoi, ArgValue, WellFormedArg, In, WriteInts;
    IntReadBack(arg, ")" + post);
    ExpectAfter("", ")", post);
    assert "" + (")" + post) == ")" + post;
  }

  lemma NextIntReadBack(arg: ArgText, next: string)
    requires WellFormedArg(arg)
    ensures
      var r, whole := ParseInts(next), ParseInts(arg.before + (arg.digits + (arg.after + ("," + next))));
      r.Ok? ==> whole == Ok(([ArgValue(arg)] + r.value.0, r.value.1))
  {
    hide Span, SkipSpaces, Atoi, ArgValue, WellFormedArg, All, In, WriteInts;
    IntReadBack(arg, "," + next);
    ExpectAfter("", ",", next);
    assert "" + ("," + next) == "," + next;
  }

  lemma DigitsRun(digits: string)
    requires AllDigits(digits)
    ensures All(Digit, digits)
  {
  }

  lemma NoDigitAhead(after: string, tail: string)
    requires All(Space, after) && tail != [] && (tail[0] == ')' || tail[0] == ',')
    ensures !In(Digit, (after + tail)[0]) && !In(Space, tail[0])
  {
    assert after != "" ==> In(Space, after[0]);
  }

  lemma IntReadBack(arg: ArgText, tail: string)
    requires WellFormedArg(arg) && tail != [] && (tail[0] == ')' || tail[0] == ',')
    ensures
      var at := SkipSpaces(arg.before + (arg.digits + (arg.after + tail)));
      var n := Span(Digit, at);
      && n == |arg.digits| > 0 && at[..n] == arg.digits
      && Atoi(at[..n]) == Ok(ArgValue(arg)) && SkipSpaces(at[n..]) == tail
  {
    hide All, Span, SkipSpaces, AllDigits, In, DigitsValue;
    DigitsRun(arg.digits);
    NoDigitAhead(arg.after, tail);
    ReadRun(Digit, arg.before, arg.digits, arg.after + tail);
    SkipLead(arg.after, tail);
    SkipNothing(tail);
  }

  lemma ArgsReadBack(args: ArgsText, count: nat, post: string)
    requires count > 0 && WellFormedArgs(args, count)
    ensures
      var s := WriteArgs(Some(args), post);
      && ParseIntArgs(s, count) == Ok((ArgValues(args.args), post))
      && Peek(s) == Some('(') && (s != [] ==> !In(Word, s[0]))
  {
    hide ParseInts, WriteInts, Span;
    var inside := WriteInts(args.args, ")" + post);
    ExpectAfter(args.gap, "(", inside);
    IntsReadBack(args.args, post);
    ExpectAfter("", ")", post);
    assert "" + (")" + post) == ")" + post;
  }

  // ---------- reading types back ----------

  /** The parser reads `t` from the front of `s` and leaves `post`, up to leading spaces. */
  ghost predicate ReadsAs(s: string, t: FieldType, post: string) {
    var r := ParseType(s);
    r.Ok? && r.value.0 == t && SkipSpaces(r.value.1) == SkipSpaces(post)
  }

  /** A keyword in front of `tail` is read, and the rest depends on its shape. */
  lemma KeywordReadBack(lead: string, keyword: string, tail: string)
    requires All(Space, lead) && All(Word, keyword) && keyword != "" && (tail != [] ==> !In(Word, tail[0]))
    ensures ParseType(lead + (keyword + tail)) == ParseShape(ShapeOf(Upper(keyword)), tail)
  {
    ReadRun(Word, lead, keyword, tail);
    hide ShapeOf, Upper, Span, SkipSpaces, ParseShape;
  }

  lemma KeywordNotEmpty(t: TypeText)
    requires WellFormed(t)
    ensures t.keyword != ""
  {
    hide Write, WellFormedArgs;
    assert Upper("") == "";
  }

  lemma LeafReadBack(t: TypeText, post: string)
    requires t.LeafText? && WellFormed(t) && Ends(post)
    ensures ReadsAs(Write(t, post), Denotes(t), post)
  {
    hide ShapeOf, Upper, Span, ParseIntArgs, WriteInts, WriteArgs, ArgValue, SkipSpaces, Peek, ParseType, TimestampType;
    hide ParseInts, WellFormedArg, All, In, Ends, ParseFields;
    LeafArgs(t, post);
    KeywordReadBack(t.lead, t.keyword, WriteArgs(t.args, post));
    SkippedTwice(post);
  }

  lemma LeafArgs(t: TypeText, post: string)
    requires t.LeafText? && WellFormed(t) && Ends(post)
    ensures t.keyword != ""
    ensures
      var tail := WriteArgs(t.args, post);
      && (tail != [] ==> !In(Word, tail[0]))
      && (t.args.None? ==> tail == post && ParseOptionalArg(post) == Ok((None, SkipSpaces(post))))
      && (t.args.Some? ==>
            && ParseIntArgs(tail, |t.args.value.args|) == Ok((ArgValues(t.args.value.args), post))
            && Peek(tail) == Some('('))
  {
    KeywordNotEmpty(t);
    hide ShapeOf, Upper, Span, ParseIntArgs, WriteInts, ParseInts, ArgValues, WellFormedArg, Denotes, All;
    EndsWord(post);
    if t.args.Some? {
      ArgsReadBack(t.args.value, |t.args.value.args|, post);
    }
  }

  /** Between brackets: `<`, a type, spaces and `ch`. */
  lemma BracketReadBack(gap: string, inside: string)
    requires All(Space, gap)
    ensures Expect(gap + ("<" + inside), '<') == Ok(inside)
    ensures !In(Word, (gap + ("<" + inside))[0])
  {
    ExpectAfter(gap, "<", inside);
  }

  lemma TokenReadBack(left: string, spaces: string, ch: string, rest: string)
    requires SkipSpaces(left) == SkipSpaces(spaces + (ch + rest))
    requires All(Space, spaces) && (ch == ">" || ch == ",")
    ensures Expect(left, ch[0]) == Ok(rest)
  {
    ExpectAfter(spaces, ch, rest);
  }

  lemma ParseTypeSkips(s: string)
    ensures ParseType(SkipSpaces(s)) == ParseType(s)
  {
    SkipNothing(SkipSpaces(s));
  }

  /** Any text of a type, in front of anything that may follow one, is read back as that type. */
  lemma {:induction false} TypeReadBack(t: TypeText, post: string)
    requires WellFormed(t) && Ends(post)
    ensures ReadsAs(Write(t, post), Denotes(t), post)
    decreases t, 1
  {
    KeywordNotEmpty(t);
    match t {
      case LeafText(_, _, _) => LeafReadBack(t, post);
      case ArrayText(lead, keyword, gap, element, last) => ArrayReadBack(t, post);
      case MapText(lead, keyword, gap, key, mid, val, last) => MapReadBack(t, post);
      case RowText(lead, keyword, gap, fields) => RowReadBack(t, post);
    }
  }

  lemma {:induction false} ArrayReadBack(t: TypeText, post: string)
    requires t.ArrayText? && WellFormed(t) && t.keyword != ""
    ensures ReadsAs(Write(t, post), Denotes(t), post)
    decreases t, 0
  {
    hide ShapeOf, Upper, Span, SkipSpaces, Peek, All, Ends;
    var afterElement := t.last + (">" + post);
    var inside := Write(t.element, afterElement);
    EndsAfter(t.last, ">", post);
    TypeReadBack(t.element, afterElement);
    TokenReadBack(ParseType(inside).value.1, t.last, ">", post);
    BracketReadBack(t.gap, inside);
    KeywordReadBack(t.lead, t.keyword, t.gap + ("<" + inside));
  }

  lemma {:induction false} MapReadBack(t: TypeText, post: string)
    requires t.MapText? && WellFormed(t) && t.keyword != ""
    ensures ReadsAs(Write(t, post), Denotes(t), post)
    decreases t, 0
  {
    hide ShapeOf, Upper, Span, SkipSpaces, Peek, All, Ends, In, ParseType, ParseShape, WriteFields, DenotesFields, Expect;
    var afterVal := t.last + (">" + post);
    var value := Write(t.val, afterVal);
    var afterKey := t.mid + ("," + value);
    var inside := Write(t.key, afterKey);
    EndsAfter(t.last, ">", post);
    TypeReadBack(t.val, afterVal);
    TokenReadBack(ParseType(value).value.1, t.last, ">", post);
    EndsAfter(t.mid, ",", value);
    TypeReadBack(t.key, afterKey);
    TokenReadBack(ParseType(inside).value.1, t.mid, ",", value);
    BracketReadBack(t.gap, inside);
    MapShapeRead(t.gap + ("<" + inside), inside, value, post);
    KeywordReadBack(t.lead, t.keyword, t.gap + ("<" + inside));
  }

  lemma MapShapeRead(tail: string, inside: string, value: string, post: string)
    requires Expect(tail, '<') == Ok(inside) && ParseType(inside).Ok? && ParseType(value).Ok?
    requires Expect(ParseType(inside).value.1, ',') == Ok(value) && Expect(ParseType(value).value.1, '>') == Ok(post)
    ensures ParseShape(MapShape, tail)
         == Ok((MapType(ParseType(inside).value.0, ParseType(value).value.0), post))
  {
    hide Expect, ParseType;
  }

  lemma {:induction false} RowReadBack(t: TypeText, post: string)
    requires t.RowText? && WellFormed(t) && t.keyword != ""
    ensures ReadsAs(Write(t, post), Denotes(t), post)
    decreases t, 0
  {
    hide ShapeOf, Upper, Span, SkipSpaces, Peek, All, Ends, In, ParseFields, WriteFields, DenotesFields, WellFormedFields;
    var inside := WriteFields(t.fields, ">" + post);
    FieldsReadBack(t.fields, post);
    assert "" + (">" + post) == ">" + post;
    TokenReadBack(">" + post, "", ">", post);
    BracketReadBack(t.gap, inside);
    KeywordReadBack(t.lead, t.keyword, t.gap + ("<" + inside));
  }

  lemma {:induction false} FieldsReadBack(fields: seq<FieldText>, post: string)
    requires fields != [] && WellFormedFields(fields)
    ensures ParseFields(WriteFields(fields, ">" + post)) == Ok((DenotesFields(fields), ">" + post))
    decreases fields, 0
  {
    hide ShapeOf, Upper, Span, SkipSpaces, Peek, All, Ends;
    assert WellFormedField(fields[0]);
    if |fields| == 1 {
      LastFieldReadBack(fields[0], post);
      assert DenotesFields(fields[1..]) == [];
      assert [Denotes(fields[0].fieldType)] + [] == [Denotes(fields[0].fieldType)];
    } else {
      var next := WriteFields(fields[1..], ">" + post);
      FieldsReadBack(fields[1..], post);
      NextFieldReadBack(fields[0], next);
    }
  }

  /** The name is passed over, and the type that follows is read. */
  lemma {:induction false} FieldReadBack(field: FieldText, ch: string, rest: string)
    requires WellFormedField(field) && (ch == ">" || ch == ",")
    ensures
      var post := field.after + (ch + rest);
      var at := SkipSpaces(field.lead + (field.name + Write(field.fieldType, post)));
      ReadsAs(SkipSpaces(at[Span(Word, at)..]), Denotes(field.fieldType), post)
    decreases field, 0
  {
    hide ShapeOf, Upper, Ends;
    var post := field.after + (ch + rest);
    var text := Write(field.fieldType, post);
    assert text[0] == field.fieldType.lead[0] && In(Space, text[0]);
    ReadRun(Word, field.lead, field.name, text);
    EndsAfter(field.after, ch, rest);
    TypeReadBack(field.fieldType, post);
    ParseTypeSkips(text);
  }

  /** One round of the loop over fields, given what ParseType makes of the field's type. */
  lemma FieldsRound(s: string, field: FieldType, post: string)
    requires
      var at := SkipSpaces(s);
      ReadsAs(SkipSpaces(at[Span(Word, at)..]), field, post)
    ensures
      var rest, whole := SkipSpaces(post), ParseFields(s);
      && (Peek(rest) == Some('>') ==> whole == Ok(([field], rest)))
      && (Peek(rest) == Some(',') && Expect(rest, ',').Ok? && ParseFields(Expect(rest, ',').value).Ok? ==>
            var more := ParseFields(Expect(rest, ',').value).value;
            whole == Ok(([field] + more.0, more.1)))
  {
    hide Span, SkipSpaces, Peek, Expect, ParseType;
  }

  lemma {:induction false} LastFieldReadBack(field: FieldText, post: string)
    requires WellFormedField(field)
    ensures
      var s := field.lead + (field.name + Write(field.fieldType, field.after + (">" + post)));
      ParseFields(s) == Ok(([Denotes(field.fieldType)], ">" + post))
    decreases field, 1
  {
    FieldReadBack(field, ">", post);
    ExpectAfter(field.after, ">", post);
    ExpectAfter("", ">", post);
    hide *;
    assert "" + (">" + post) == ">" + post;
    var s := field.lead + (field.name + Write(field.fieldType, field.after + (">" + post)));
    FieldsRound(s, Denotes(field.fieldType), field.after + (">" + post));
  }

  lemma {:induction false} NextFieldReadBack(field: FieldText, next: string)
    requires WellFormedField(field)
    ensures
      var s := field.lead + (field.name + Write(field.fieldType, field.after + ("," + next)));
      var more := ParseFields(next);
      more.Ok? ==> ParseFields(s) == Ok(([Denotes(field.fieldType)] + more.value.0, more.value.1))
    decreases field, 1
  {
    FieldReadBack(field, ",", next);
    ExpectAfter(field.after, ",", next);
    ExpectAfter("", ",", next);
    hide *;
    assert "" + ("," + next) == "," + next;
    var s := field.lead + (field.name + Write(field.fieldType, field.after + ("," + next)));
    FieldsRound(s, Denotes(field.fieldType), field.after + ("," + next));
  }

  // ---------- trimming and the main theorem ----------

  lemma {:induction false} TrimRightSpaces(s: string, spaces: string)
    requires All(Space, spaces)
    ensures TrimRight(s + spaces) == TrimRight(s)
  {
    if spaces == "" {
      assert s + spaces == s;
    } else {
      var n := |spaces| - 1;
      assert (s + spaces)[..|s + spaces| - 1] == s + spaces[..n];
      TrimRightSpaces(s, spaces[..n]);
    }
  }

  /** What is written after a type stands after it. */
  lemma {:induction false} WriteAppends(t: TypeText, post: string)
    requires WellFormed(t)
    ensures Write(t, post) == Write(t, "") + post
    ensures Write(t, "") != "" && !In(Space, Write(t, "")[|Write(t, "")| - 1])
    decreases t, 0
  {
    hide Write, WellFormed, In;
    match t {
      case LeafText(_, _, _) => LeafAppends(t, post);
      case ArrayText(_, _, _, _, _) => ArrayAppends(t, post);
      case MapText(_, _, _, _, _, _, _) => MapAppends(t, post);
      case RowText(_, _, _, _) => RowAppends(t, post);
    }
  }

  lemma LeafAppends(t: TypeText, post: string)
    requires t.LeafText? && WellFormed(t)
    ensures Write(t, post) == Write(t, "") + post
    ensures Write(t, "") != "" && !In(Space, Write(t, "")[|Write(t, "")| - 1])
  {
    KeywordNotEmpty(t);
    match t.args {
      case None =>
        assert In(Word, t.keyword[|t.keyword| - 1]);
      case Some(args) =>
        hide ShapeOf, Upper, All, In, WriteInts;
        WriteIntsAppends(args.args, ")" + post);
        WriteIntsAppends(args.args, ")");
        assert ")" + "" == ")";
        Regroup(t.lead, t.keyword, args.gap, "(", WriteInts(args.args, ""), ")", post);
    }
  }

  lemma {:induction false} ArrayAppends(t: TypeText, post: string)
    requires t.ArrayText? && WellFormed(t)
    ensures Write(t, post) == Write(t, "") + post
    ensures Write(t, "") != "" && !In(Space, Write(t, "")[|Write(t, "")| - 1])
    decreases t, -1
  {
    hide ShapeOf, Upper, All, In;
    WriteAppends(t.element, t.last + (">" + post));
    WriteAppends(t.element, t.last + (">" + ""));
    Regroup(t.lead, t.keyword, t.gap, "<", Write(t.element, "") + t.last, ">", post);
    RegroupLast(Write(t.element, ""), t.last, ">" + post);
    RegroupLast(Write(t.element, ""), t.last, ">" + "");
  }

  lemma {:induction false} RowAppends(t: TypeText, post: string)
    requires t.RowText? && WellFormed(t)
    ensures Write(t, post) == Write(t, "") + post
    ensures Write(t, "") != "" && !In(Space, Write(t, "")[|Write(t, "")| - 1])
    decreases t, -1
  {
    hide ShapeOf, Upper, All, In, WriteFields, WellFormedFields;
    WriteFieldsAppends(t.fields, ">" + post);
    WriteFieldsAppends(t.fields, ">" + "");
    Regroup(t.lead, t.keyword, t.gap, "<", WriteFields(t.fields, ""), ">", post);
  }

  lemma {:induction false} MapAppends(t: TypeText, post: string)
    requires t.MapText? && WellFormed(t)
    ensures Write(t, post) == Write(t, "") + post
    ensures Write(t, "") != "" && !In(Space, Write(t, "")[|Write(t, "")| - 1])
    decreases t, -1
  {
    hide ShapeOf, Upper, All, In;
    var key, val := Write(t.key, ""), Write(t.val, "");
    forall x | x in {post, ""} ensures Write(t.key, t.mid + ("," + Write(t.val, t.last + (">" + x))))
      == (key + (t.mid + ("," + (val + t.last)))) + (">" + x)
    {
      WriteAppends(t.val, t.last + (">" + x));
      WriteAppends(t.key, t.mid + ("," + Write(t.val, t.last + (">" + x))));
      RegroupMap(key, t.mid, ",", val, t.last, ">" + x);
    }
    Regroup(t.lead, t.keyword, t.gap, "<", key + (t.mid + ("," + (val + t.last))), ">", post);
  }

  lemma RegroupLast(a: string, b: string, c: string)
    ensures a + (b + c) == (a + b) + c
  {
  }

  lemma RegroupMap(a: string, b: string, c: string, d: string, e: string, f: string)
    ensures a + (b + (c + (d + (e + f)))) == (a + (b + (c + (d + e)))) + f
  {
    RegroupLast(d, e, f);
    RegroupLast(c, d + e, f);
    RegroupLast(b, c + (d + e), f);
    RegroupLast(a, b + (c + (d + e)), f);
  }

  lemma Regroup(a: string, b: string, c: string, open: string, inside: string, close: string, post: string)
    requires close == ")" || close == ">"
    ensures
      var whole := a + (b + (c + (open + (inside + (close + "")))));
      && a + (b + (c + (open + (inside + (close + post))))) == whole + post
      && whole != "" && !In(Space, whole[|whole| - 1])
  {
    assert close + "" == close;
    var whole := a + (b + (c + (open + (inside + close))));
    RegroupLast(inside, close, post);
    RegroupLast(open, inside + close, post);
    RegroupLast(c, open + (inside + close), post);
    RegroupLast(b, c + (open + (inside + close)), post);
    RegroupLast(a, b + (c + (open + (inside + close))), post);
    assert whole[|whole| - 1] == close[0];
  }

  lemma {:induction false} WriteIntsAppends(args: seq<ArgText>, post: string)
    ensures WriteInts(args, post) == WriteInts(args, "") + post
  {
    if args == [] {
      assert "" + post == post;
    } else if |args| == 1 {
      var arg := args[0];
      assert arg.before + (arg.digits + (arg.after + post)) == (arg.before + (arg.digits + (arg.after + ""))) + post;
    } else {
      var arg, more := args[0], WriteInts(args[1..], "");
      WriteIntsAppends(args[1..], post);
      RegroupMap(arg.before, arg.digits, arg.after, ",", more, post);
    }
  }

  lemma {:induction false} WriteFieldsAppends(fields: seq<FieldText>, post: string)
    requires WellFormedFields(fields)
    ensures WriteFields(fields, post) == WriteFields(fields, "") + post
    decreases fields, 0
  {
    if fields == [] {
      assert "" + post == post;
    } else {
      hide Write, WellFormed, In;
      var field := fields[0];
      assert WellFormedField(field);
      hide WellFormedField;
      if |fields| == 1 {
        FieldAppends(field, "", post);
      } else {
        WriteFieldsAppends(fields[1..], post);
        FieldAppends(field, "," + WriteFields(fields[1..], ""), post);
        RegroupLast(",", WriteFields(fields[1..], ""), post);
      }
      assert "" + post == post;
    }
  }

  lemma {:induction false} FieldAppends(field: FieldText, more: string, post: string)
    requires WellFormedField(field)
    ensures field.lead + (field.name + Write(field.fieldType, field.after + (more + post)))
         == (field.lead + (field.name + Write(field.fieldType, field.after + more))) + post
    decreases field, 0
  {
    WellFormedInField(field);
    hide Write, WellFormedField, WellFormed, In;
    var text := Write(field.fieldType, "");
    WriteAppends(field.fieldType, field.after + (more + post));
    WriteAppends(field.fieldType, field.after + more);
    RegroupLast(text, field.after, more + post);
    RegroupLast(text, field.after, more);
    RegroupLast(text + field.after, more, post);
    RegroupLast(field.name, text + field.after + more, post);
    RegroupLast(field.lead, field.name + (text + field.after + more), post);
  }

  lemma WellFormedInField(field: FieldText)
    requires WellFormedField(field)
    ensures WellFormed(field.fieldType)
  {
    hide WellFormed;
  }

  lemma {:induction false} SkipInFront(s: string, x: string)
    requires s != "" && !In(Space, s[|s| - 1])
    ensures SkipSpaces(s + x) == SkipSpaces(s) + x
    ensures SkipSpaces(s) != "" && SkipSpaces(s)[|SkipSpaces(s)| - 1] == s[|s| - 1]
  {
    if In(Space, s[0]) {
      assert (s + x)[1..] == s[1..] + x;
      SkipInFront(s[1..], x);
    } else {
      SkipNothing(s);
      SkipNothing(s + x);
    }
  }

  /** The text of a type may stand between any spaces and still be parsed as exactly that type. */
  lemma TypeTextParsesBack(t: TypeText, trailing: string)
    requires WellFormed(t) && All(Space, trailing)
    ensures ParseFieldType(Write(t, trailing)) == Ok(Denotes(t))
  {
    hide *;
    TrimmedText(t, trailing);
    ParseTypeSkips(Write(t, ""));
    NothingAfter();
    TypeReadBack(t, "");
    ParsedWhole(Write(t, trailing), Write(t, ""), Denotes(t));
  }

  lemma NothingAfter()
    ensures Ends("") && SkipSpaces("") == ""
  {
  }

  lemma TrimmedText(t: TypeText, trailing: string)
    requires WellFormed(t) && All(Space, trailing)
    ensures Trim(Write(t, trailing)) == SkipSpaces(Write(t, ""))
  {
    hide Write, WellFormed, All, SkipSpaces, In;
    var text := Write(t, "");
    WriteAppends(t, trailing);
    SkipInFront(text, trailing);
    TrimRightSpaces(SkipSpaces(text), trailing);
  }

  lemma ParsedWhole(input: string, text: string, t: FieldType)
    requires ParseType(Trim(input)) == ParseType(text) && ReadsAs(text, t, "") && SkipSpaces("") == ""
    ensures ParseFieldType(input) == Ok(t)
  {
    hide Trim, ParseType, SkipSpaces;
  }
}
