/** Reading what was printed gives the values back exactly when their strings are ones the reader can see whole. */
module XmlRoundTrip {
  import opened Decimal
  import opened Printing
  import opened Options
  import opened Scanning
  import opened Xml

  const OPEN: char := '<'
  const CLOSE: char := '>'

  /** A string that survives: no opening bracket, and no blank or control character in front. */
  predicate Clean(text: string) {
    (forall k :: 0 <= k < |text| ==> text[k] != '<') && (text == [] || !IsBlankOrControl(text[0]))
  }

  predicate CleanValue(schema: Schema, value: Value)
    requires Conforms(schema, value)
  {
    match schema
    case Text => Clean(value.text)
    case Number => true
    case Struct(fields) => AllClean(fields, value.values)
  }

  predicate AllClean(fields: Fields, values: Values)
    requires AllConform(fields, values)
  {
    match fields
    case NoFields => true
    case Field(_, schema, rest) => CleanValue(schema, values.value) && AllClean(rest, values.rest)
  }

  lemma ExpectedFound(c: char, rest: string)
    ensures AfterExpected([c] + rest, c) == Some(rest) && AfterChar([c] + rest, c) == rest
    ensures !IsBlankOrControl(c) ==> SkipBlank([c] + rest) == [c] + rest
  {
    var s := [c] + rest;
    assert s[1..] == rest;
    FirstIndexUnique(s, Is(c), 0);
  }

  /** What an opening tag costs the reader after its name. */
  lemma TagClosed(name: string, rest: string, text: string)
    requires AfterExpected(SkipBlank(text), OPEN) == Some(name + ([CLOSE] + rest))
    requires AfterToken(name + ([CLOSE] + rest), name) == Some([CLOSE] + rest)
    requires AfterChar([CLOSE] + rest, CLOSE) == rest
    ensures AfterBegin(text, name) == (Normal, rest)
  {
    assert ([CLOSE] + rest)[0] != '/';
  }

  /** An opening tag by its parts. */
  lemma HeadParts(name: string, rest: string)
    ensures Head(name) + rest == [OPEN] + (name + ([CLOSE] + rest))
  {
    assert "<" + name + ">" + rest == "<" + (name + (">" + rest));
  }

  lemma BeginFound(name: string, rest: string)
    requires IsName(name)
    ensures AfterBegin(Head(name) + rest, name) == (Normal, rest)
  {
    HeadParts(name, rest);
    ExpectedFound(OPEN, name + ([CLOSE] + rest));
    NameFound(name, rest);
    TagClosed(name, rest, Head(name) + rest);
  }

  lemma EndTagClosed(name: string, rest: string, text: string, inside: string, slashed: string, after: string)
    requires AfterExpected(SkipBlank(text), OPEN) == Some(inside) && AfterExpected(inside, '/') == Some(slashed)
    requires AfterToken(slashed, name) == Some(after) && AfterExpected(after, CLOSE) == Some(rest)
    ensures AfterEnd(text, name) == Some(rest)
  {
  }

  /** A closing tag by its parts. */
  lemma TailParts(name: string, rest: string)
    ensures Tail(name) + rest == [OPEN] + (['/'] + (name + ([CLOSE] + rest)))
  {
    assert "</" + name + ">" + rest == "</" + (name + (">" + rest));
    assert "</" + (name + (">" + rest)) == "<" + ("/" + (name + (">" + rest)));
  }

  lemma EndFound(name: string, rest: string)
    requires IsName(name)
    ensures AfterEnd(Tail(name) + rest, name) == Some(rest)
  {
    TailParts(name, rest);
    ExpectedFound(OPEN, ['/'] + (name + ([CLOSE] + rest)));
    ExpectedFound('/', name + ([CLOSE] + rest));
    NameFound(name, rest);
    EndTagClosed(name, rest, Tail(name) + rest, ['/'] + (name + ([CLOSE] + rest)), name + ([CLOSE] + rest),
                 [CLOSE] + rest);
  }

  /** A name in front of a closing bracket. */
  lemma NameFound(name: string, rest: string)
    requires IsName(name)
    ensures AfterToken(name + ([CLOSE] + rest), name) == Some([CLOSE] + rest)
    ensures AfterExpected([CLOSE] + rest, CLOSE) == Some(rest) && AfterChar([CLOSE] + rest, CLOSE) == rest
  {
    TokenFound(name, [CLOSE] + rest);
    ExpectedFound(CLOSE, rest);
  }

  /** Whatever the reader takes for a string is clean. */
  lemma SeenIsClean(s: string)
    ensures Clean(TextAt(s).0)
  {
  }

  /** The reader sees a string whole exactly if it is clean. */
  lemma TextFound(text: string, rest: string)
    requires rest != [] && rest[0] == '<'
    ensures TextAt(text + rest).0 == text <==> Clean(text)
    ensures Clean(text) ==> TextAt(text + rest) == (text, rest)
  {
    SeenIsClean(text + rest);
    if Clean(text) {
      SkipNothing(text + rest);
      FirstIndexSplit(text, rest, Is('<'));
    }
  }

  lemma LeadingFound(n: nat, rest: string)
    requires rest != [] && rest[0] == '<'
    ensures Leading(Digits(n) + rest) == n
  {
    FirstIndexSplit(Digits(n), rest, NOT_DIGIT);
    assert (Digits(n) + rest)[..|Digits(n)|] == Digits(n);
    DigitsRead(n);
  }

  lemma SignedFound(n: int, rest: string)
    requires rest != [] && rest[0] == '<'
    ensures Atoi(Printed(n) + rest) == n
  {
    var digits := Digits(if n < 0 then -n else n);
    LeadingFound(if n < 0 then -n else n, rest);
    assert IsDigit(digits[0]) && (digits + rest)[0] == digits[0];
    if n < 0 {
      assert "-" + digits + rest == ['-'] + (digits + rest);
      assert (['-'] + (digits + rest))[1..] == digits + rest;
    }
  }

  lemma NumberFound(n: int, rest: string)
    requires rest != [] && rest[0] == '<'
    ensures Atoi(SkipBlank(Printed(n) + rest)) == n
    ensures TextAt(Printed(n) + rest).1 == rest
  {
    PrintedIsClean(n);
    TextFound(Printed(n), rest);
    SkipNothing(Printed(n) + rest);
    SignedFound(n, rest);
  }

  lemma PrintedIsClean(n: int)
    ensures Clean(Printed(n)) && Printed(n) != []
  {
    var digits := Digits(if n < 0 then -n else n);
    assert forall k :: 0 <= k < |digits| ==> IsDigit(digits[k]);
  }

  /** One member: its value comes back exactly if it is clean, and then the closing tag is next. */
  lemma {:induction false} ValueRoundTrip(schema: Schema, value: Value, initial: Value, rest: string)
    requires Conforms(schema, value) && Conforms(schema, initial)
    requires schema.Struct? ==> Named(schema.fields)
    requires rest != [] && rest[0] == '<'
    ensures ValueAt(schema, initial, Body(schema, value) + rest).0 == value <==> CleanValue(schema, value)
    ensures CleanValue(schema, value) ==> ValueAt(schema, initial, Body(schema, value) + rest).1 == rest
    decreases schema
  {
    match schema
    case Text => TextFound(value.text, rest);
    case Number => NumberFound(value.number, rest);
    case Struct(fields) => ReadRoundTrip(fields, value.values, initial.values, rest);
  }

  /** All members: with readable names, printing and reading is the identity exactly on clean values. */
  lemma {:induction false} ReadRoundTrip(fields: Fields, values: Values, initial: Values, rest: string)
    requires Named(fields) && AllConform(fields, values) && AllConform(fields, initial)
    ensures Read(fields, initial, Print(fields, values) + rest).0 == values <==> AllClean(fields, values)
    ensures AllClean(fields, values) ==> Read(fields, initial, Print(fields, values) + rest).1 == rest
    decreases fields
  {
    match fields
    case NoFields => assert "" + rest == rest;
    case Field(name, schema, more) =>
      var after := Print(more, values.rest) + rest;
      var body := Body(schema, values.value);
      var s := Print(fields, values) + rest;
      assert s == Head(name) + (body + (Tail(name) + after));
      BeginFound(name, body + (Tail(name) + after));
      ValueRoundTrip(schema, values.value, initial.value, Tail(name) + after);
      if CleanValue(schema, values.value) {
        EndFound(name, after);
        ReadRoundTrip(more, values.rest, initial.rest, rest);
      }
  }

  lemma DeclarationOpen(k: nat)
    requires k < |DECLARATION|
    ensures DECLARATION[k] != CLOSE
  {
  }

  lemma DeclarationSkipped(rest: string)
    ensures AfterChar(DECLARATION + ([CLOSE] + rest), CLOSE) == rest
  {
    var tail := DECLARATION + ([CLOSE] + rest);
    forall k | 0 <= k < |DECLARATION|
      ensures !Is(CLOSE)(DECLARATION[k])
    {
      DeclarationOpen(k);
    }
    FirstIndexSplit(DECLARATION, [CLOSE] + rest, Is(CLOSE));
    assert tail[|DECLARATION| + 1..] == rest;
  }

  lemma RootClosed(text: string, inside: string, marked: string, after: string, rest: string)
    requires AfterExpected(SkipBlank(text), OPEN) == Some(inside) && AfterExpected(inside, '?') == Some(marked)
    requires AfterToken(marked, "xml") == Some(after) && AfterChar(after, CLOSE) == rest
    ensures AfterRoot(text) == Some(rest)
  {
  }

  /** The first line by its parts. */
  lemma HeaderParts(rest: string)
    ensures Header() + rest == [OPEN] + (['?'] + ("xml" + (DECLARATION + ([CLOSE] + rest))))
  {
    var tail := DECLARATION + ">";
    assert "<" + ("?" + ("xml" + tail)) + rest == "<" + (("?" + ("xml" + tail)) + rest);
    assert ("?" + ("xml" + tail)) + rest == "?" + (("xml" + tail) + rest);
    assert ("xml" + tail) + rest == "xml" + (tail + rest);
    assert tail + rest == DECLARATION + (">" + rest);
  }

  lemma XmlTokenFound(after: string)
    requires after != "" && after[0] == ' '
    ensures AfterToken("xml" + after, "xml") == Some(after)
  {
    var name := "xml";
    TokenFound(name, after);
  }

  lemma RootFound(rest: string)
    ensures AfterRoot(Header() + rest) == Some(rest)
  {
    var after := DECLARATION + ([CLOSE] + rest);
    HeaderParts(rest);
    ExpectedFound(OPEN, ['?'] + ("xml" + after));
    ExpectedFound('?', "xml" + after);
    assert after[0] == DECLARATION[0];
    XmlTokenFound(after);
    DeclarationSkipped(rest);
    RootClosed(Header() + rest, ['?'] + ("xml" + after), "xml" + after, after, rest);
  }

  /**
   * The round trip over a whole document: from_xml(to_xml(t)) restores t exactly if all strings of t are clean,
   * and then it consumes the whole text.
   */
  lemma DocumentRoundTrip(fields: Fields, values: Values, initial: Values)
    requires Named(fields) && AllConform(fields, values) && AllConform(fields, initial)
    ensures FromXml(fields, initial, ToXml(fields, values)).0 == values <==> AllClean(fields, values)
    ensures AllClean(fields, values) ==> FromXml(fields, initial, ToXml(fields, values)).1 == []
  {
    RootFound(Print(fields, values));
    ReadRoundTrip(fields, values, initial, "");
    assert Print(fields, values) + "" == Print(fields, values);
  }

  lemma UnderscoreBegin(name: string, rest: string)
    requires name != [] && name[0] == '_' && (forall k :: 0 <= k < |name| ==> IsTokenChar(name[k]))
    ensures AfterBegin(Head(name) + rest, name) == (Illegal, Head(name) + rest)
  {
    var after := [CLOSE] + rest;
    assert Head(name) + rest == [OPEN] + (name + after);
    ExpectedFound(OPEN, name + after);
    UnderscoreMissed(name, after);
  }

  /** A member whose name starts with an underscore is skipped where it was printed, and keeps its initial value. */
  lemma UnderscoreMember(name: string, schema: Schema, initial: Value, rest: string)
    requires name != [] && name[0] == '_' && (forall k :: 0 <= k < |name| ==> IsTokenChar(name[k]))
    requires Conforms(schema, initial)
    ensures Read(Field(name, schema, NoFields), Cons(initial, NoValues), Head(name) + rest)
         == (Cons(initial, NoValues), Head(name) + rest)
  {
    UnderscoreBegin(name, rest);
  }

  /** What follows the name of an opening tag, if that is next. */
  function BehindName(s: string, name: string): Option<string> {
    match AfterExpected(SkipBlank(s), OPEN)
    case None => None
    case Some(a) => AfterToken(a, name)
  }

  /** No closing bracket, and a slash at the very end. */
  predicate BreaksOffInSlash(b: string) {
    b != "" && CLOSE !in b && b[|b| - 1] == '/'
  }

  /**
   * Exactly when an opening tag counts as empty: when the text ends in a slash behind its name without a closing
   * bracket. The character that is looked at is the last one read, which otherwise is that bracket.
   */
  lemma EmptyTagIff(s: string, name: string)
    ensures AfterBegin(s, name).0 == EmptyTag
       <==> BehindName(s, name).Some? && BreaksOffInSlash(BehindName(s, name).value)
  {
    if BehindName(s, name).Some? {
      SlashBeforeEnd(BehindName(s, name).value);
    }
  }

  lemma SlashBeforeEnd(b: string)
    ensures var consumed := |b| - |AfterChar(b, CLOSE)|;
            consumed <= |b| && (0 < consumed && b[consumed - 1] == '/' <==> BreaksOffInSlash(b))
  {
    var l := FirstIndex(b, Is(CLOSE));
    if l < |b| {
      assert b[l] in b;
    } else {
      assert forall c :: c in b ==> c != CLOSE;
    }
  }

  lemma NormalTag(text: string, name: string, b: string, rest: string)
    requires BehindName(text, name) == Some(b) && AfterChar(b, CLOSE) == rest
    requires |b| > |rest| && b[|b| - |rest| - 1] != '/'
    ensures AfterBegin(text, name) == (Normal, rest)
  {
  }

  /** The tag of an empty element does not count as empty. */
  lemma SelfClosingIsNormal(name: string, rest: string)
    requires IsName(name)
    ensures AfterBegin([OPEN] + (name + (['/'] + ([CLOSE] + rest))), name) == (Normal, rest)
  {
    var b := ['/'] + ([CLOSE] + rest);
    ExpectedFound(OPEN, name + b);
    TokenFound(name, b);
    SlashThenClose(rest);
    NormalTag([OPEN] + (name + b), name, b, rest);
  }

  lemma SlashThenClose(rest: string)
    ensures var b := ['/'] + ([CLOSE] + rest); AfterChar(b, CLOSE) == rest && |b| == |rest| + 2 && b[1] == CLOSE
  {
    FirstIndexSplit(['/'], [CLOSE] + rest, Is(CLOSE));
    assert (['/'] + ([CLOSE] + rest))[2..] == rest;
  }
}
