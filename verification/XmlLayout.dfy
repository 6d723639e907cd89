/** Documents with blanks and line breaks between their tags are read like those without. */
module XmlLayout {
  import opened Decimal
  import opened Printing
  import opened Options
  import opened Scanning
  import opened Xml
  import opened XmlRoundTrip

  /** Spaces, tabs, line breaks and the other control characters, by their codes. */
  predicate IsSpace(w: string) {
    forall k :: 0 <= k < |w| ==> w[k] as int < 33 || w[k] as int == 127
  }

  /** The classes of characters by their codes. */
  lemma CharacterCodes(c: char)
    ensures IsBlankOrControl(c) <==> c as int < 33 || c as int == 127
    ensures IsDigit(c) <==> 48 <= c as int <= 57
    ensures IsTokenChar(c) <==> IsDigit(c) || IsAlpha(c) || c as int == 95
    ensures IsAlpha(c) <==> 65 <= c as int <= 90 || 97 <= c as int <= 122
  {
  }

  /** What is skipped is space, and it is skipped as far as it goes. */
  lemma SkippedIsSpace(s: string)
    ensures exists w :: IsSpace(w) && s == w + SkipBlank(s)
    ensures SkipBlank(s) != "" ==> !IsSpace(SkipBlank(s)[..1])
  {
    var n := FirstIndex(s, NOT_BLANK);
    var w := s[..n];
    assert IsSpace(w) && s == w + SkipBlank(s);
    if n < |s| {
      assert SkipBlank(s)[..1][0] == s[n];
    }
  }

  /** Space in front changes nothing of what is found behind it. */
  lemma SpaceSkipped(w: string, s: string)
    requires IsSpace(w)
    ensures SkipBlank(w + s) == SkipBlank(s)
  {
    var n := FirstIndex(s, NOT_BLANK);
    forall k | 0 <= k < |w| + n
      ensures !NOT_BLANK((w + s)[k])
    {
      if k >= |w| {
        assert (w + s)[k] == s[k - |w|];
      }
    }
    FirstIndexUnique(w + s, NOT_BLANK, |w| + n);
    assert (w + s)[|w| + n..] == s[n..];
  }

  /** Behind space the declaration is found as without it. */
  lemma RootBehindSpace(w: string, s: string)
    requires IsSpace(w)
    ensures AfterRoot(w + s) == AfterRoot(s)
  {
    SpaceSkipped(w, s);
    RootLooksBehind(w + s, s);
  }

  lemma RootLooksBehind(a: string, b: string)
    requires SkipBlank(a) == SkipBlank(b)
    ensures AfterRoot(a) == AfterRoot(b)
  {
  }

  /** So is an opening tag; where there is none, the space stays unread. */
  lemma BeginBehindSpace(w: string, s: string, name: string)
    requires IsSpace(w)
    ensures var found := AfterBegin(s, name);
            AfterBegin(w + s, name) == if found.0 == Illegal then (Illegal, w + s) else found
  {
    SpaceSkipped(w, s);
    BeginLooksBehind(w + s, s, name);
  }

  lemma BeginLooksBehind(a: string, b: string, name: string)
    requires SkipBlank(a) == SkipBlank(b)
    ensures AfterBegin(a, name) == if AfterBegin(b, name).0 == Illegal then (Illegal, a) else AfterBegin(b, name)
  {
    assert BehindName(a, name) == BehindName(b, name);
  }

  /** So is a closing tag. */
  lemma EndBehindSpace(w: string, s: string, name: string)
    requires IsSpace(w)
    ensures AfterEnd(w + s, name) == AfterEnd(s, name)
  {
    SpaceSkipped(w, s);
    EndLooksBehind(w + s, s, name);
  }

  lemma EndLooksBehind(a: string, b: string, name: string)
    requires SkipBlank(a) == SkipBlank(b)
    ensures AfterEnd(a, name) == AfterEnd(b, name)
  {
  }

  /** So is a text or a number. */
  lemma ValueBehindSpace(w: string, schema: Schema, initial: Value, s: string)
    requires Conforms(schema, initial) && IsSpace(w) && !schema.Struct?
    ensures ValueAt(schema, initial, w + s) == ValueAt(schema, initial, s)
  {
    SpaceSkipped(w, s);
    ValueLooksBehind(w + s, s, schema, initial);
  }

  lemma ValueLooksBehind(a: string, b: string, schema: Schema, initial: Value)
    requires SkipBlank(a) == SkipBlank(b) && Conforms(schema, initial) && !schema.Struct?
    ensures ValueAt(schema, initial, a) == ValueAt(schema, initial, b)
  {
  }

  /** Every tag and every value may have space in front: before the opening tag, the value and the closing tag. */
  datatype Layout = Bare | Spaced(before: string, lead: string, inside: Layout, end: string, rest: Layout)

  /** A layout for these members. */
  predicate Fits(fields: Fields, layout: Layout) {
    match fields
    case NoFields => true
    case Field(_, schema, rest) =>
      && layout.Spaced? && IsSpace(layout.before) && IsSpace(layout.lead) && IsSpace(layout.end)
      && (schema.Struct? ==> Fits(schema.fields, layout.inside)) && Fits(rest, layout.rest)
  }

  function LaidBody(schema: Schema, value: Value, layout: Layout): string
    requires Conforms(schema, value) && (schema.Struct? ==> Fits(schema.fields, layout))
    decreases schema
  {
    if schema.Struct? then LaidOut(schema.fields, value.values, layout) else Body(schema, value)
  }

  /** The members as printed, with that space. */
  function LaidOut(fields: Fields, values: Values, layout: Layout): string
    requires AllConform(fields, values) && Fits(fields, layout)
    decreases fields
  {
    match fields
    case NoFields => ""
    case Field(name, schema, rest) =>
      layout.before + (Head(name) + (layout.lead + (LaidBody(schema, values.value, layout.inside)
      + (layout.end + (Tail(name) + LaidOut(rest, values.rest, layout.rest))))))
  }

  /** What becomes of a value: space behind a string belongs to the string, unless it is empty. */
  function Received(schema: Schema, value: Value, inside: Layout, end: string): Value
    requires Conforms(schema, value) && (schema.Struct? ==> Fits(schema.fields, inside))
    decreases schema
  {
    match schema
    case Text => TextValue(if value.text == "" then "" else value.text + end)
    case Number => value
    case Struct(fields) => StructValue(AllReceived(fields, value.values, inside))
  }

  function AllReceived(fields: Fields, values: Values, layout: Layout): Values
    requires AllConform(fields, values) && Fits(fields, layout)
    decreases fields
  {
    match fields
    case NoFields => NoValues
    case Field(_, schema, rest) =>
      Cons(Received(schema, values.value, layout.inside, layout.end), AllReceived(rest, values.rest, layout.rest))
  }

  /** No space behind a string that is not empty. */
  predicate TextsTight(fields: Fields, values: Values, layout: Layout)
    requires AllConform(fields, values) && Fits(fields, layout)
    decreases fields
  {
    match fields
    case NoFields => true
    case Field(_, schema, rest) =>
      Tight(schema, values.value, layout.inside, layout.end) && TextsTight(rest, values.rest, layout.rest)
  }

  predicate Tight(schema: Schema, value: Value, inside: Layout, end: string)
    requires Conforms(schema, value) && (schema.Struct? ==> Fits(schema.fields, inside))
    decreases schema
  {
    match schema
    case Text => value.text == "" || end == ""
    case Number => true
    case Struct(fields) => TextsTight(fields, value.values, inside)
  }

  lemma {:induction false} ReceivedIffTight(schema: Schema, value: Value, inside: Layout, end: string)
    requires Conforms(schema, value) && (schema.Struct? ==> Fits(schema.fields, inside))
    ensures Received(schema, value, inside, end) == value <==> Tight(schema, value, inside, end)
    decreases schema
  {
    match schema
    case Text => assert |value.text + end| == |value.text| + |end|;
    case Number =>
    case Struct(fields) => AllReceivedIffTight(fields, value.values, inside);
  }

  lemma {:induction false} AllReceivedIffTight(fields: Fields, values: Values, layout: Layout)
    requires AllConform(fields, values) && Fits(fields, layout)
    ensures AllReceived(fields, values, layout) == values <==> TextsTight(fields, values, layout)
    decreases fields
  {
    if fields.Field? {
      ReceivedIffTight(fields.schema, values.value, layout.inside, layout.end);
      AllReceivedIffTight(fields.rest, values.rest, layout.rest);
    }
  }

  lemma EndIsClean(text: string, end: string)
    requires Clean(text) && text != "" && IsSpace(end)
    ensures Clean(text + end)
  {
  }

  lemma NothingFound(end: string, rest: string)
    requires IsSpace(end) && rest != [] && rest[0] == OPEN
    ensures TextAt(end + rest) == ("", rest)
  {
    SpaceSkipped(end, rest);
    SkipNothing(rest);
    FirstIndexUnique(rest, Is('<'), 0);
  }

  /** A string up to the next bracket. */
  lemma LaidTextFound(text: string, end: string, rest: string)
    requires Clean(text) && IsSpace(end) && rest != [] && rest[0] == OPEN
    ensures TextAt(text + (end + rest)) == (if text == "" then "" else text + end, rest)
  {
    if text == "" {
      assert text + (end + rest) == end + rest;
      NothingFound(end, rest);
    } else {
      EndIsClean(text, end);
      TextFound(text + end, rest);
      JoinedText(text, end, rest);
    }
  }

  lemma JoinedText(a: string, b: string, c: string)
    ensures (a + b) + c == a + (b + c)
  {
  }

  /** A numeral up to the first character that is no digit. */
  lemma NumeralFound(w: string, rest: string)
    requires AllDigits(w) && (rest == "" || !IsDigit(rest[0]))
    ensures Leading(w + rest) == DigitsValue(w)
  {
    FirstIndexSplit(w, rest, NOT_DIGIT);
    assert (w + rest)[..|w|] == w;
  }

  /** Numbers are read with either sign, with leading zeros, and up to the first character that is no digit. */
  lemma SignedNumerals(w: string, rest: string)
    requires AllDigits(w) && w != "" && (rest == "" || !IsDigit(rest[0]))
    ensures Atoi(w + rest) == Atoi("+" + (w + rest)) == DigitsValue(w) && Atoi("-" + (w + rest)) == -DigitsValue(w)
  {
    NumeralFound(w, rest);
    SignedAtoi(w + rest);
  }

  lemma SignedAtoi(s: string)
    requires s != "" && IsDigit(s[0])
    ensures Atoi(s) == Atoi("+" + s) == Leading(s) && Atoi("-" + s) == -Leading(s)
  {
    assert ("+" + s)[1..] == s && ("-" + s)[1..] == s;
  }

  lemma PrintedFound(n: int, rest: string)
    requires rest == "" || !IsDigit(rest[0])
    ensures Atoi(Printed(n) + rest) == n
  {
    var m := if n < 0 then -n else n;
    DigitsRead(m);
    SignedNumerals(Digits(m), rest);
    JoinedText("-", Digits(m), rest);
  }

  lemma LaidNumberFound(n: int, end: string, rest: string)
    requires IsSpace(end) && rest != [] && rest[0] == OPEN
    ensures Atoi(SkipBlank(Printed(n) + (end + rest))) == n && TextAt(Printed(n) + (end + rest)).1 == rest
  {
    PrintedIsPlain(n);
    LaidTextFound(Printed(n), end, rest);
    SkipNothing(Printed(n) + (end + rest));
    NoDigitNext(end, rest);
    PrintedFound(n, end + rest);
  }

  lemma NoDigitNext(end: string, rest: string)
    requires IsSpace(end) && rest != [] && rest[0] == OPEN
    ensures end + rest != "" && !IsDigit((end + rest)[0])
  {
  }

  lemma PrintedIsPlain(n: int)
    ensures Clean(Printed(n)) && Printed(n) != "" && !IsBlankOrControl(Printed(n)[0])
  {
    var digits := Digits(if n < 0 then -n else n);
    assert AllDigits(digits);
    if n < 0 {
      assert Printed(n) == ['-'] + digits;
    }
  }

  /** The space that a value leaves unread: that behind the last member of a struct. */
  function Unread(schema: Schema, lead: string, end: string): string {
    if schema.Struct? then Gap(schema.fields, lead) + end else ""
  }

  function Gap(fields: Fields, lead: string): string {
    if fields.NoFields? then lead else ""
  }

  /** One value and the space around it, in front of its closing tag. */
  lemma {:induction false} LaidValueRead(
    schema: Schema, value: Value, initial: Value, lead: string, inside: Layout, end: string, rest: string)
    requires Conforms(schema, value) && Conforms(schema, initial) && CleanValue(schema, value)
    requires schema.Struct? ==> Named(schema.fields) && Fits(schema.fields, inside)
    requires IsSpace(lead) && IsSpace(end) && rest != [] && rest[0] == OPEN
    ensures ValueAt(schema, initial, lead + (LaidBody(schema, value, inside) + (end + rest)))
         == (Received(schema, value, inside, end), Unread(schema, lead, end) + rest)
    decreases schema, 1
  {
    match schema
    case Text => LaidScalarRead(schema, value, initial, lead, inside, end, rest);
    case Number => LaidScalarRead(schema, value, initial, lead, inside, end, rest);
    case Struct(fields) =>
      LaidRead(fields, value.values, initial.values, lead, inside, end + rest);
      JoinedText(Gap(fields, lead), end, rest);
  }

  lemma LaidScalarRead(
    schema: Schema, value: Value, initial: Value, lead: string, inside: Layout, end: string, rest: string)
    requires Conforms(schema, value) && Conforms(schema, initial) && CleanValue(schema, value) && !schema.Struct?
    requires IsSpace(lead) && IsSpace(end) && rest != [] && rest[0] == OPEN
    ensures ValueAt(schema, initial, lead + (LaidBody(schema, value, inside) + (end + rest)))
         == (Received(schema, value, inside, end), Unread(schema, lead, end) + rest)
  {
    ValueBehindSpace(lead, schema, initial, LaidBody(schema, value, inside) + (end + rest));
    assert "" + rest == rest;
    if schema.Text? {
      LaidTextFound(value.text, end, rest);
    } else {
      LaidNumberFound(value.number, end, rest);
    }
  }

  /** One member at the front, with what its parts are found to be. */
  lemma MemberRead(
    fields: Fields, initial: Values, s: string, inner: string, value: Value, left: string, after: string,
    last: (Values, string))
    requires fields.Field? && AllConform(fields, initial)
    requires AfterBegin(s, fields.name) == (Normal, inner)
    requires ValueAt(fields.schema, initial.value, inner) == (value, left)
    requires AfterEnd(left, fields.name) == Some(after)
    requires Read(fields.rest, initial.rest, after) == last
    ensures Read(fields, initial, s) == (Cons(value, last.0), last.1)
  {
  }

  /** Tags are found behind space. */
  lemma TagsBehindSpace(w: string, name: string, rest: string)
    requires IsName(name) && IsSpace(w)
    ensures AfterBegin(w + (Head(name) + rest), name) == (Normal, rest)
    ensures AfterEnd(w + (Tail(name) + rest), name) == Some(rest)
  {
    BeginFound(name, rest);
    EndFound(name, rest);
    BeginBehindSpace(w, Head(name) + rest, name);
    EndBehindSpace(w, Tail(name) + rest, name);
  }

  /** One member with the space around its parts: what the reader finds step by step. */
  lemma {:induction false} LaidMemberRead(
    name: string, schema: Schema, value: Value, initial: Value, w: string, lead: string, inside: Layout, end: string,
    after: string)
    requires Conforms(schema, value) && Conforms(schema, initial) && CleanValue(schema, value)
    requires schema.Struct? ==> Named(schema.fields) && Fits(schema.fields, inside)
    requires IsName(name) && IsSpace(w) && IsSpace(lead) && IsSpace(end)
    ensures var inner := lead + (LaidBody(schema, value, inside) + (end + (Tail(name) + after)));
            var left := Unread(schema, lead, end) + (Tail(name) + after);
            && AfterBegin(w + (Head(name) + inner), name) == (Normal, inner)
            && ValueAt(schema, initial, inner) == (Received(schema, value, inside, end), left)
            && AfterEnd(left, name) == Some(after)
    decreases schema, 2
  {
    var inner := lead + (LaidBody(schema, value, inside) + (end + (Tail(name) + after)));
    TagsBehindSpace(w, name, inner);
    TailOpens(name, after);
    LaidValueRead(schema, value, initial, lead, inside, end, Tail(name) + after);
    UnreadIsSpace(schema, lead, end);
    TagsBehindSpace(Unread(schema, lead, end), name, after);
  }

  lemma TailOpens(name: string, after: string)
    ensures Tail(name) + after != "" && (Tail(name) + after)[0] == OPEN
  {
    TailParts(name, after);
  }

  /** The text of the first member and of those behind it. */
  lemma LaidOutParts(fields: Fields, values: Values, layout: Layout, lead: string, rest: string)
    requires fields.Field? && AllConform(fields, values) && Fits(fields, layout)
    ensures var after := LaidOut(fields.rest, values.rest, layout.rest) + rest;
            var body := LaidBody(fields.schema, values.value, layout.inside);
            lead + (LaidOut(fields, values, layout) + rest)
            == (lead + layout.before)
               + (Head(fields.name) + (layout.lead + (body + (layout.end + (Tail(fields.name) + after)))))
  {
    var more := LaidOut(fields.rest, values.rest, layout.rest);
    var body := LaidBody(fields.schema, values.value, layout.inside);
    SixParts(lead, layout.before, Head(fields.name), layout.lead, body, layout.end, Tail(fields.name), more, rest);
  }

  lemma SixParts(
    lead: string, a: string, b: string, c: string, d: string, e: string, f: string, more: string, rest: string)
    ensures lead + ((a + (b + (c + (d + (e + (f + more)))))) + rest)
         == (lead + a) + (b + (c + (d + (e + (f + (more + rest))))))
  {
    assert (f + more) + rest == f + (more + rest);
    assert (e + (f + more)) + rest == e + (f + (more + rest));
    assert (d + (e + (f + more))) + rest == d + (e + (f + (more + rest)));
    assert (c + (d + (e + (f + more)))) + rest == c + (d + (e + (f + (more + rest))));
    Regrouped(lead, a, b, c + (d + (e + (f + more))), rest);
  }

  lemma Regrouped(lead: string, a: string, b: string, c: string, rest: string)
    ensures lead + ((a + (b + c)) + rest) == (lead + a) + (b + (c + rest))
  {
  }

  /** Reading members that were laid out gives the values, and leaves what follows them. */
  lemma {:induction false} LaidRead(
    fields: Fields, values: Values, initial: Values, lead: string, layout: Layout, rest: string)
    requires Named(fields) && AllConform(fields, values) && AllConform(fields, initial) && AllClean(fields, values)
    requires Fits(fields, layout) && IsSpace(lead)
    ensures Read(fields, initial, lead + (LaidOut(fields, values, layout) + rest))
         == (AllReceived(fields, values, layout), Gap(fields, lead) + rest)
    decreases fields, 0
  {
    match fields
    case NoFields =>
      assert "" + rest == rest;
    case Field(name, schema, more) =>
      var after := LaidOut(more, values.rest, layout.rest) + rest;
      var left := Unread(schema, layout.lead, layout.end) + (Tail(name) + after);
      var inner := layout.lead + (LaidBody(schema, values.value, layout.inside) + (layout.end + (Tail(name) + after)));
      LaidOutParts(fields, values, layout, lead, rest);
      LaidMemberRead(name, schema, values.value, initial.value, lead + layout.before, layout.lead, layout.inside,
                     layout.end, after);
      LaidRead(more, values.rest, initial.rest, "", layout.rest, rest);
      NothingAdded(more, after, rest);
      MemberRead(fields, initial, lead + (LaidOut(fields, values, layout) + rest), inner,
                 Received(schema, values.value, layout.inside, layout.end), left, after,
                 (AllReceived(more, values.rest, layout.rest), rest));
  }

  lemma NothingAdded(fields: Fields, after: string, rest: string)
    ensures "" + after == after && Gap(fields, "") + rest == rest
  {
  }

  lemma UnreadIsSpace(schema: Schema, lead: string, end: string)
    requires IsSpace(lead) && IsSpace(end)
    ensures IsSpace(Unread(schema, lead, end))
  {
  }

  lemma DocumentRead(fields: Fields, initial: Values, text: string, members: string, last: (Values, string))
    requires AllConform(fields, initial) && AfterRoot(text) == Some(members) && Read(fields, initial, members) == last
    ensures FromXml(fields, initial, text) == last
  {
  }

  /**
   * A whole document with space in front of the declaration, around all tags and at the end: from_xml restores the
   * values that to_xml printed exactly if no space was put behind a string that is not empty.
   */
  lemma LaidOutRoundTrip(
    fields: Fields, values: Values, initial: Values, before: string, layout: Layout, end: string)
    requires Named(fields) && AllConform(fields, values) && AllConform(fields, initial) && AllClean(fields, values)
    requires Fits(fields, layout) && IsSpace(before) && IsSpace(end)
    ensures var text := before + (Header() + (LaidOut(fields, values, layout) + end));
            FromXml(fields, initial, text) == (AllReceived(fields, values, layout), end)
    ensures AllReceived(fields, values, layout) == values <==> TextsTight(fields, values, layout)
  {
    var members := LaidOut(fields, values, layout) + end;
    RootBehindSpace(before, Header() + members);
    RootFound(members);
    LaidRead(fields, values, initial, "", layout, end);
    NothingAdded(fields, members, end);
    DocumentRead(fields, initial, before + (Header() + members), members, (AllReceived(fields, values, layout), end));
    AllReceivedIffTight(fields, values, layout);
  }

  /** Without any space this is what to_xml prints. */
  lemma {:induction false} BareLayout(fields: Fields, values: Values, layout: Layout)
    requires AllConform(fields, values) && Fits(fields, layout) && NoSpace(fields, layout)
    ensures LaidOut(fields, values, layout) == Print(fields, values)
    decreases fields
  {
    match fields
    case NoFields =>
    case Field(name, schema, rest) =>
      BareLayout(rest, values.rest, layout.rest);
      if schema.Struct? {
        BareLayout(schema.fields, values.value.values, layout.inside);
      }
      var more := Print(rest, values.rest);
      NothingBetween(Head(name), Body(schema, values.value), Tail(name), more);
  }

  lemma NothingBetween(a: string, b: string, c: string, more: string)
    ensures "" + (a + ("" + (b + ("" + (c + more))))) == a + b + c + more
  {
    assert "" + (c + more) == c + more && "" + (b + (c + more)) == b + (c + more);
    assert a + (b + (c + more)) == a + b + c + more;
  }

  predicate NoSpace(fields: Fields, layout: Layout)
    requires Fits(fields, layout)
  {
    match fields
    case NoFields => true
    case Field(_, schema, rest) =>
      && layout.before == "" && layout.lead == "" && layout.end == ""
      && (schema.Struct? ==> NoSpace(schema.fields, layout.inside)) && NoSpace(rest, layout.rest)
  }

  const ONE_NUMBER: Fields := Field("a", Number, NoFields)

  function OneNumber(n: int): (values: Values)
    ensures AllConform(ONE_NUMBER, values)
  {
    Cons(NumberValue(n), NoValues)
  }

  lemma NumberMember()
    ensures Print(ONE_NUMBER, OneNumber(5)) == "<a>5</a>"
  {
    assert Head("a") == "<a>" && Tail("a") == "</a>" && Printed(5) == "5";
  }

  /** What to_xml prints, written out for a struct of one integer. */
  lemma PrintedDocument()
    ensures ToXml(ONE_NUMBER, OneNumber(5)) == "<?xml" + " version = \"1.0\" encoding=\"UTF-8\"" + ">" + "<a>5</a>"
  {
    NumberMember();
    HeaderText();
  }

  lemma HeaderText()
    ensures Header() == "<?xml" + " version = \"1.0\" encoding=\"UTF-8\"" + ">"
  {
    HeaderJoined(DECLARATION);
  }

  lemma HeaderJoined(d: string)
    ensures "<" + ("?" + ("xml" + (d + ">"))) == "<?xml" + d + ">"
  {
  }

  lemma LineFits()
    ensures Named(ONE_NUMBER) && Fits(ONE_NUMBER, Spaced("\n", "", Bare, "", Bare))
  {
    CharacterCodes('a');
  }

  lemma LineIsLaidOut()
    ensures Fits(ONE_NUMBER, Spaced("\n", "", Bare, "", Bare))
    ensures LaidOut(ONE_NUMBER, OneNumber(5), Spaced("\n", "", Bare, "", Bare)) == "\n" + "<a>5</a>"
  {
    LineFits();
    assert Head("a") == "<a>" && Tail("a") == "</a>" && Printed(5) == "5";
  }

  lemma LineIsTight()
    ensures Fits(ONE_NUMBER, Spaced("\n", "", Bare, "", Bare))
    ensures TextsTight(ONE_NUMBER, OneNumber(5), Spaced("\n", "", Bare, "", Bare))
  {
    LineFits();
  }

  /** One integer on a line of its own is read, whatever the member held before. */
  lemma NumberOnItsOwnLine(n: int)
    ensures FromXml(ONE_NUMBER, OneNumber(n), Header() + ("\n" + "<a>5</a>")) == (OneNumber(5), "")
  {
    var layout := Spaced("\n", "", Bare, "", Bare);
    LineFits();
    LineIsLaidOut();
    LineIsTight();
    LaidOutRoundTrip(ONE_NUMBER, OneNumber(5), OneNumber(n), "", layout, "");
    NothingAround(Header(), "\n" + "<a>5</a>");
  }

  lemma NothingAround(a: string, b: string)
    ensures "" + (a + (b + "")) == a + b
  {
  }
}
