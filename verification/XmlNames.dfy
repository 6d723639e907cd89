/** Which member names can be read back: those that start with a letter, and no others. */
module XmlNames {
  import opened Options
  import opened Scanning
  import opened Xml
  import opened XmlRoundTrip

  /** A member name as the compiler allows it: a letter or an underscore, then letters, digits and underscores. */
  predicate IsIdentifier(name: string) {
    name != "" && (IsAlpha(name[0]) || name[0] == '_') && forall k :: 0 <= k < |name| ==> IsTokenChar(name[k])
  }

  predicate Identified(fields: Fields) {
    match fields
    case NoFields => true
    case Field(name, schema, rest) =>
      IsIdentifier(name) && (schema.Struct? ==> Identified(schema.fields)) && Identified(rest)
  }

  /** The number of opening brackets. */
  function Opens(s: string): nat {
    if s == "" then 0 else (if s[0] == OPEN then 1 else 0) + Opens(s[1..])
  }

  lemma {:induction false} OpensSplit(s: string, k: nat)
    requires k <= |s| && forall i :: 0 <= i < k ==> s[i] != OPEN
    ensures Opens(s[k..]) == Opens(s)
  {
    if k > 0 {
      OpensSplit(s[1..], k - 1);
      assert s[1..][k - 1..] == s[k..];
    } else {
      assert s[0..] == s;
    }
  }

  /** No opening bracket comes before the first closing one. */
  predicate Sealed(s: string) {
    forall i :: 0 <= i < FirstIndex(s, Is(CLOSE)) ==> s[i] != OPEN
  }

  /** Every opening bracket is closed before the next one opens. */
  predicate Calm(s: string) {
    s != "" ==> Calm(s[1..]) && (s[0] == OPEN ==> Sealed(s[1..]))
  }

  lemma {:induction false} CalmSuffix(s: string, k: nat)
    requires Calm(s) && k <= |s|
    ensures Calm(s[k..])
  {
    if k > 0 {
      CalmSuffix(s[1..], k - 1);
      assert s[1..][k - 1..] == s[k..];
    } else {
      assert s[0..] == s;
    }
  }

  /** From s to its end r, at most n opening brackets were passed. */
  predicate Passed(s: string, r: string, n: nat) {
    |r| <= |s| && s[|s| - |r|..] == r && Opens(s) <= Opens(r) + n
  }

  lemma PassedOn(s: string, r: string, q: string, m: nat, n: nat)
    requires Passed(s, r, m) && Passed(r, q, n)
    ensures Passed(s, q, m + n)
  {
    assert q == s[|s| - |q|..] by {
      assert r[|r| - |q|..] == s[|s| - |r|..][|r| - |q|..];
    }
  }

  lemma PassedKeepsCalm(s: string, r: string, n: nat)
    requires Passed(s, r, n) && Calm(s)
    ensures Calm(r)
  {
    CalmSuffix(s, |s| - |r|);
  }

  lemma PlainPassed(s: string, k: nat)
    requires k <= |s| && forall i :: 0 <= i < k ==> s[i] != OPEN
    ensures Passed(s, s[k..], 0)
  {
    OpensSplit(s, k);
  }

  lemma BlanksPassed(s: string)
    ensures Passed(s, SkipBlank(s), 0)
  {
    PlainPassed(s, FirstIndex(s, NOT_BLANK));
  }

  /** One expected character: an opening bracket counts. */
  lemma ExpectedPassed(s: string, c: char)
    requires AfterExpected(s, c).Some?
    ensures Passed(s, AfterExpected(s, c).value, if c == OPEN then 1 else 0)
  {
    assert s == [s[0]] + s[1..];
  }

  lemma TokenPassed(s: string, name: string)
    requires IsIdentifier(name) && AfterToken(s, name).Some?
    ensures Passed(s, AfterToken(s, name).value, 0)
  {
    forall i | 0 <= i < |name|
      ensures s[i] != OPEN
    {
      assert s[i] == name[i];
    }
    PlainPassed(s, |name|);
  }

  /** Behind the name of a sealed tag, up to and with the closing bracket. */
  lemma TagRestPassed(s: string, name: string)
    requires IsIdentifier(name) && AfterToken(s, name).Some? && Sealed(s)
    ensures Passed(AfterToken(s, name).value, AfterChar(AfterToken(s, name).value, CLOSE), 0)
  {
    var b := s[|name|..];
    var l := FirstIndex(b, Is(CLOSE));
    forall i | 0 <= i < |name|
      ensures s[i] != CLOSE
    {
      assert s[i] == name[i];
    }
    assert s == name + b;
    forall i | 0 <= i < |name| + l
      ensures !Is(CLOSE)(s[i])
    {
      assert i >= |name| ==> s[i] == b[i - |name|];
    }
    FirstIndexUnique(s, Is(CLOSE), |name| + l);
    forall i | 0 <= i < l
      ensures b[i] != OPEN
    {
      assert b[i] == s[|name| + i];
    }
    PlainPassed(b, if l < |b| then l + 1 else l);
  }

  /** A tag behind its opening bracket. */
  lemma SealedTagPassed(s: string, name: string)
    requires IsIdentifier(name) && AfterToken(s, name).Some? && Sealed(s)
    ensures Passed(s, AfterChar(AfterToken(s, name).value, CLOSE), 0)
  {
    TokenPassed(s, name);
    TagRestPassed(s, name);
    PassedOn(s, AfterToken(s, name).value, AfterChar(AfterToken(s, name).value, CLOSE), 0, 0);
  }

  lemma OpenTagPassed(t: string, name: string)
    requires IsIdentifier(name) && Calm(t) && AfterExpected(t, OPEN).Some?
    requires AfterToken(AfterExpected(t, OPEN).value, name).Some?
    ensures Passed(t, AfterChar(AfterToken(AfterExpected(t, OPEN).value, name).value, CLOSE), 1)
  {
    var a := AfterExpected(t, OPEN).value;
    ExpectedPassed(t, OPEN);
    SealedTagPassed(a, name);
    PassedOn(t, a, AfterChar(AfterToken(a, name).value, CLOSE), 1, 0);
  }

  lemma NothingPassed(s: string, n: nat)
    ensures Passed(s, s, n)
  {
    assert s[0..] == s;
  }

  /** An opening tag takes at most one opening bracket. */
  lemma BeginPassed(s: string, name: string)
    requires IsIdentifier(name) && Calm(s)
    ensures Passed(s, AfterBegin(s, name).1, 1)
  {
    NothingPassed(s, 1);
    var t := SkipBlank(s);
    BlanksPassed(s);
    PassedKeepsCalm(s, t, 0);
    var a := AfterExpected(t, OPEN);
    if a.Some? && AfterToken(a.value, name).Some? {
      OpenTagPassed(t, name);
      PassedOn(s, t, AfterChar(AfterToken(a.value, name).value, CLOSE), 0, 1);
    }
  }

  /** After a leading underscore the token stops one character late, so that no closing bracket can follow the name. */
  lemma UnderscoreNeverEnds(s: string, name: string)
    requires IsIdentifier(name) && name[0] == '_' && AfterToken(s, name).Some?
    ensures AfterExpected(AfterToken(s, name).value, CLOSE) == None
  {
    assert s[0] == name[0];
    if |s| > |name| {
      assert s[|name|] == s[1..][|name| - 1];
      assert IsTokenChar(s[|name|]);
    }
  }

  /** A closing tag takes one opening bracket, and is never found for a name with a leading underscore. */
  lemma EndPassed(s: string, name: string)
    requires IsIdentifier(name) && AfterEnd(s, name).Some?
    ensures Passed(s, AfterEnd(s, name).value, 1) && name[0] != '_'
  {
    var t := SkipBlank(s);
    BlanksPassed(s);
    var a := AfterExpected(t, OPEN).value;
    ExpectedPassed(t, OPEN);
    PassedOn(s, t, a, 0, 1);
    var b := AfterExpected(a, '/').value;
    ExpectedPassed(a, '/');
    PassedOn(s, a, b, 1, 0);
    var c := AfterToken(b, name).value;
    TokenPassed(b, name);
    PassedOn(s, b, c, 1, 0);
    ExpectedPassed(c, CLOSE);
    PassedOn(s, c, AfterEnd(s, name).value, 1, 0);
    if name[0] == '_' {
      UnderscoreNeverEnds(b, name);
    }
  }

  lemma TextPassed(s: string)
    ensures Passed(s, TextAt(s).1, 0)
  {
    var t := SkipBlank(s);
    BlanksPassed(s);
    PlainPassed(t, FirstIndex(t, Is(OPEN)));
    PassedOn(s, t, TextAt(s).1, 0, 0);
  }

  /** The members of a schema, at all depths. */
  function Tags(fields: Fields): nat {
    match fields
    case NoFields => 0
    case Field(_, schema, rest) => 1 + (if schema.Struct? then Tags(schema.fields) else 0) + Tags(rest)
  }

  /** How many opening brackets reading the members can take. */
  function Reach(fields: Fields): nat {
    match fields
    case NoFields => 0
    case Field(name, schema, rest) => MemberReach(name, schema) + Reach(rest)
  }

  function MemberReach(name: string, schema: Schema): nat
    decreases schema
  {
    (if IsName(name) then 2 else 1) + if schema.Struct? then Reach(schema.fields) else 0
  }

  lemma {:induction false} ReachOfNames(fields: Fields)
    requires Identified(fields)
    ensures Reach(fields) <= 2 * Tags(fields) && (Reach(fields) == 2 * Tags(fields) <==> Named(fields))
  {
    if fields.Field? {
      ReachOfNames(fields.rest);
      if fields.schema.Struct? {
        ReachOfNames(fields.schema.fields);
      }
    }
  }

  lemma {:induction false} ValuePassed(schema: Schema, initial: Value, s: string)
    requires Conforms(schema, initial) && Calm(s) && (schema.Struct? ==> Identified(schema.fields))
    ensures Passed(s, ValueAt(schema, initial, s).1, if schema.Struct? then Reach(schema.fields) else 0)
    decreases schema, 0
  {
    match schema
    case Text => TextPassed(s);
    case Number => TextPassed(s);
    case Struct(fields) => ReadPassed(fields, initial.values, s);
  }

  /** Where reading stands behind one member. */
  function NextAt(name: string, schema: Schema, initial: Value, s: string): string
    requires Conforms(schema, initial)
  {
    var (status, a) := AfterBegin(s, name);
    if status == Normal then MemberEnd(ValueAt(schema, initial, a).1, name) else a
  }

  lemma ReadUnfolds(fields: Fields, initial: Values, s: string)
    requires fields.Field? && AllConform(fields, initial)
    ensures Read(fields, initial, s).1
         == Read(fields.rest, initial.rest, NextAt(fields.name, fields.schema, initial.value, s)).1
  {
  }

  /** From an opening tag over the value to the closing tag. */
  lemma MemberPassed(name: string, s: string, a: string, b: string, n: nat)
    requires IsIdentifier(name) && Passed(s, a, 1) && Passed(a, b, n)
    ensures Passed(s, MemberEnd(b, name), 1 + n + if IsName(name) then 1 else 0)
  {
    PassedOn(s, a, b, 1, n);
    MemberEndPassed(b, name);
    PassedOn(s, b, MemberEnd(b, name), 1 + n, if IsName(name) then 1 else 0);
  }

  lemma {:induction false} NextPassed(name: string, schema: Schema, initial: Value, s: string)
    requires Conforms(schema, initial) && Calm(s)
    requires (schema.Struct? ==> Identified(schema.fields)) && IsIdentifier(name)
    ensures Passed(s, NextAt(name, schema, initial, s), MemberReach(name, schema))
    decreases schema, 1
  {
    var (status, a) := AfterBegin(s, name);
    BeginPassed(s, name);
    if status == Normal {
      PassedKeepsCalm(s, a, 1);
      ValuePassed(schema, initial, a);
      MemberPassed(name, s, a, ValueAt(schema, initial, a).1, if schema.Struct? then Reach(schema.fields) else 0);
    }
  }

  /** Reading never takes more opening brackets than its schema reaches. */
  lemma {:induction false} ReadPassed(fields: Fields, initial: Values, s: string)
    requires Identified(fields) && AllConform(fields, initial) && Calm(s)
    ensures Passed(s, Read(fields, initial, s).1, Reach(fields))
    decreases fields, 0
  {
    if fields.NoFields? {
      NothingPassed(s, 0);
    } else {
      var c := NextAt(fields.name, fields.schema, initial.value, s);
      NextPassed(fields.name, fields.schema, initial.value, s);
      PassedKeepsCalm(s, c, MemberReach(fields.name, fields.schema));
      ReadPassed(fields.rest, initial.rest, c);
      PassedOn(s, c, Read(fields.rest, initial.rest, c).1, MemberReach(fields.name, fields.schema), Reach(fields.rest));
      ReadUnfolds(fields, initial, s);
    }
  }

  function MemberEnd(s: string, name: string): string {
    var c := AfterEnd(s, name);
    if c.None? then s else c.value
  }

  lemma MemberEndPassed(s: string, name: string)
    requires IsIdentifier(name)
    ensures Passed(s, MemberEnd(s, name), if IsName(name) then 1 else 0)
  {
    if AfterEnd(s, name).Some? {
      EndPassed(s, name);
    } else {
      assert s[0..] == s;
    }
  }

  lemma {:induction false} PlainFront(s: string, t: string)
    requires (forall k :: 0 <= k < |s| ==> s[k] != OPEN) && Calm(t)
    ensures Calm(s + t) && Opens(s + t) == Opens(t)
  {
    if s == "" {
      assert s + t == t;
    } else {
      PlainFront(s[1..], t);
      assert (s + t)[1..] == s[1..] + t;
    }
  }

  lemma TagFront(name: string, t: string)
    requires (forall k :: 0 <= k < |name| ==> name[k] != OPEN && name[k] != CLOSE) && Calm(t)
    ensures Calm([OPEN] + (name + ([CLOSE] + t))) && Opens([OPEN] + (name + ([CLOSE] + t))) == 1 + Opens(t)
  {
    var u := [CLOSE] + t;
    assert u[1..] == t;
    PlainFront(name, u);
    FirstIndexSplit(name, u, Is(CLOSE));
    assert ([OPEN] + (name + u))[1..] == name + u;
  }

  lemma HeadFront(name: string, t: string)
    requires IsIdentifier(name) && Calm(t)
    ensures Calm(Head(name) + t) && Opens(Head(name) + t) == 1 + Opens(t)
  {
    NoBrackets(name);
    TagFront(name, t);
    HeadParts(name, t);
  }

  lemma TailFront(name: string, t: string)
    requires IsIdentifier(name) && Calm(t)
    ensures Calm(Tail(name) + t) && Opens(Tail(name) + t) == 1 + Opens(t)
  {
    NoBrackets(name);
    TagFront("/" + name, t);
    assert Tail(name) + t == [OPEN] + (("/" + name) + ([CLOSE] + t));
  }

  lemma NoBrackets(name: string)
    requires IsIdentifier(name)
    ensures forall k :: 0 <= k < |name| ==> name[k] != OPEN && name[k] != CLOSE
  {
    forall k | 0 <= k < |name|
      ensures name[k] != OPEN && name[k] != CLOSE
    {
      assert IsTokenChar(name[k]);
    }
  }

  lemma {:induction false} BodyFront(schema: Schema, value: Value, after: string)
    requires Conforms(schema, value) && CleanValue(schema, value) && Calm(after)
    requires schema.Struct? ==> Identified(schema.fields)
    ensures Calm(Body(schema, value) + after)
    ensures Opens(Body(schema, value) + after) == (if schema.Struct? then 2 * Tags(schema.fields) else 0) + Opens(after)
    decreases schema
  {
    match schema
    case Text => PlainFront(value.text, after);
    case Number =>
      PrintedIsClean(value.number);
      PlainFront(Body(schema, value), after);
    case Struct(fields) => PrintFront(fields, value.values, after);
  }

  /** A printed document has two opening brackets for each member, and closes each before the next. */
  lemma {:induction false} PrintFront(fields: Fields, values: Values, after: string)
    requires Identified(fields) && AllConform(fields, values) && AllClean(fields, values) && Calm(after)
    ensures Calm(Print(fields, values) + after)
    ensures Opens(Print(fields, values) + after) == 2 * Tags(fields) + Opens(after)
    decreases fields
  {
    match fields
    case NoFields => assert "" + after == after;
    case Field(name, schema, rest) =>
      var last := Print(rest, values.rest) + after;
      PrintFront(rest, values.rest, after);
      TailFront(name, last);
      BodyFront(schema, values.value, Tail(name) + last);
      HeadFront(name, Body(schema, values.value) + (Tail(name) + last));
      PrintedParts(fields, values, after);
  }

  lemma PrintedParts(fields: Fields, values: Values, after: string)
    requires fields.Field? && AllConform(fields, values)
    ensures Print(fields, values) + after
         == Head(fields.name)
            + (Body(fields.schema, values.value) + (Tail(fields.name) + (Print(fields.rest, values.rest) + after)))
  {
  }

  /**
   * Over all nested schemas of identifiers, and whatever the clean values: the document is read back exactly if all
   * names start with a letter. Otherwise a part of the text is left over.
   */
  lemma RestoredIffNamed(fields: Fields, values: Values, initial: Values)
    requires Identified(fields) && AllConform(fields, values) && AllConform(fields, initial) && AllClean(fields, values)
    ensures FromXml(fields, initial, ToXml(fields, values)) == (values, []) <==> Named(fields)
    ensures !Named(fields) ==> FromXml(fields, initial, ToXml(fields, values)).1 != []
  {
    if Named(fields) {
      DocumentRoundTrip(fields, values, initial);
    } else {
      var s := Print(fields, values);
      RootFound(s);
      PrintFront(fields, values, "");
      assert s + "" == s;
      ReadPassed(fields, initial, s);
      ReachOfNames(fields);
    }
  }

  /** The first member, in the order of the document, whose name does not start with a letter, is as it was before. */
  ghost predicate FirstKept(fields: Fields, values: Values, initial: Values)
    requires Identified(fields) && !Named(fields) && AllConform(fields, values) && AllConform(fields, initial)
  {
    assert Conforms(fields.schema, values.value) && Conforms(fields.schema, initial.value);
    if !IsName(fields.name) then values.value == initial.value
    else if fields.schema.Struct? && !Named(fields.schema.fields) then
      FirstKept(fields.schema.fields, values.value.values, initial.value.values)
    else FirstKept(fields.rest, values.rest, initial.rest)
  }

  /** Reading gives values of the schema. */
  lemma {:induction false} ReadConforms(fields: Fields, initial: Values, s: string)
    requires AllConform(fields, initial)
    ensures AllConform(fields, Read(fields, initial, s).0)
    decreases fields, 0
  {
    if fields.Field? {
      var (status, a) := AfterBegin(s, fields.name);
      if status == Normal {
        ValueConforms(fields.schema, initial.value, a);
        var b := ValueAt(fields.schema, initial.value, a).1;
        ReadConforms(fields.rest, initial.rest, MemberEnd(b, fields.name));
      } else {
        ReadConforms(fields.rest, initial.rest, a);
      }
    }
  }

  lemma {:induction false} ValueConforms(schema: Schema, initial: Value, s: string)
    requires Conforms(schema, initial)
    ensures Conforms(schema, ValueAt(schema, initial, s).0)
    decreases schema, 1
  {
    if schema.Struct? {
      ReadConforms(schema.fields, initial.values, s);
    }
  }

  /** In a printed document the first member with such a name is not read. */
  lemma {:induction false} FirstIsKept(fields: Fields, values: Values, initial: Values, rest: string)
    requires Identified(fields) && !Named(fields) && AllConform(fields, values) && AllConform(fields, initial)
    requires AllClean(fields, values)
    ensures AllConform(fields, Read(fields, initial, Print(fields, values) + rest).0)
    ensures FirstKept(fields, Read(fields, initial, Print(fields, values) + rest).0, initial)
    decreases fields
  {
    var name, schema := fields.name, fields.schema;
    var s, last := Print(fields, values) + rest, Print(fields.rest, values.rest) + rest;
    var behind := Body(schema, values.value) + (Tail(name) + last);
    ReadConforms(fields, initial, s);
    PrintedParts(fields, values, rest);
    if !IsName(name) {
      UnderscoreBegin(name, behind);
    } else {
      BeginFound(name, behind);
      if schema.Struct? && !Named(schema.fields) {
        FirstIsKept(schema.fields, values.value.values, initial.value.values, Tail(name) + last);
      } else {
        ValueRoundTrip(schema, values.value, initial.value, Tail(name) + last);
        EndFound(name, last);
        FirstIsKept(fields.rest, values.rest, initial.rest, rest);
      }
    }
  }

  /**
   * What is lost: the first member, in the order of the document, whose name does not start with a letter keeps its
   * initial value, so that nothing is restored unless the printed value was the same.
   */
  lemma FirstMemberLost(fields: Fields, values: Values, initial: Values)
    requires Identified(fields) && !Named(fields) && AllConform(fields, values) && AllConform(fields, initial)
    requires AllClean(fields, values)
    ensures AllConform(fields, FromXml(fields, initial, ToXml(fields, values)).0)
    ensures FirstKept(fields, FromXml(fields, initial, ToXml(fields, values)).0, initial)
    ensures !FirstKept(fields, values, initial) ==> FromXml(fields, initial, ToXml(fields, values)).0 != values
  {
    var s := Print(fields, values);
    RootFound(s);
    FirstIsKept(fields, values, initial, "");
    assert s + "" == s;
  }

  /** The values of a struct that was never filled. */
  function Empty(schema: Schema): (v: Value)
    ensures Conforms(schema, v) && CleanValue(schema, v)
  {
    match schema
    case Text => TextValue("")
    case Number => NumberValue(0)
    case Struct(fields) => StructValue(AllEmpty(fields))
  }

  function AllEmpty(fields: Fields): (v: Values)
    ensures AllConform(fields, v) && AllClean(fields, v)
  {
    match fields
    case NoFields => NoValues
    case Field(_, schema, rest) => Cons(Empty(schema), AllEmpty(rest))
  }

  /** Printing and reading gives these values back. */
  predicate Restored(fields: Fields, values: Values, initial: Values)
    requires AllConform(fields, values) && AllConform(fields, initial)
  {
    FromXml(fields, initial, ToXml(fields, values)) == (values, [])
  }

  /** A schema of identifiers loses no clean values exactly if all its names start with a letter. */
  lemma ReadableIffNamed(fields: Fields)
    requires Identified(fields)
    ensures (forall values, initial ::
               AllConform(fields, values) && AllConform(fields, initial) && AllClean(fields, values) ==>
                 Restored(fields, values, initial))
       <==> Named(fields)
  {
    forall values, initial | AllConform(fields, values) && AllConform(fields, initial) && AllClean(fields, values)
      ensures Restored(fields, values, initial) <==> Named(fields)
    {
      RestoredIffNamed(fields, values, initial);
    }
    var empty := AllEmpty(fields);
    assert Restored(fields, empty, empty) <==> Named(fields);
  }

  /**
   * The tags at which a name with a leading underscore is found: those that have one more character. Reading "_nam"
   * takes the place of "_name".
   */
  lemma UnderscoreFoundAt(name: string, tag: string, rest: string)
    requires IsIdentifier(name) && name[0] == '_' && IsIdentifier(tag)
    ensures AfterBegin(Head(tag) + rest, name) ==
              if |tag| == |name| + 1 && tag[..|name|] == name then (Normal, rest) else (Illegal, Head(tag) + rest)
  {
    var after := [CLOSE] + rest;
    HeadParts(tag, rest);
    ExpectedFound(OPEN, tag + after);
    UnderscoreToken(name, tag, after);
    if AfterToken(tag + after, name).Some? {
      TagEnds(tag, name, rest);
    }
  }

  lemma UnderscoreToken(name: string, tag: string, after: string)
    requires IsIdentifier(name) && name[0] == '_' && IsIdentifier(tag) && after != "" && !IsTokenChar(after[0])
    ensures AfterToken(tag + after, name).Some? <==> |tag| == |name| + 1 && tag[..|name|] == name
  {
    TokenMeasured(tag, after);
    assert |name| <= |tag| ==> (tag + after)[..|name|] == tag[..|name|];
    assert (tag + after)[0] == tag[0];
  }

  /** A tag whose name goes on for one more character. */
  lemma TagEnds(tag: string, name: string, rest: string)
    requires |tag| == |name| + 1 && IsIdentifier(tag)
    requires AfterToken(tag + ([CLOSE] + rest), name).Some?
    requires AfterExpected(SkipBlank(Head(tag) + rest), OPEN) == Some(tag + ([CLOSE] + rest))
    ensures AfterBegin(Head(tag) + rest, name) == (Normal, rest)
  {
    var b := AfterToken(tag + ([CLOSE] + rest), name).value;
    NoBrackets(tag);
    assert b == [tag[|name|]] + ([CLOSE] + rest);
    OneThenClose(tag[|name|], rest);
  }

  lemma OneThenClose(c: char, rest: string)
    requires c != CLOSE
    ensures var b := [c] + ([CLOSE] + rest); AfterChar(b, CLOSE) == rest && |b| == |rest| + 2 && b[1] == CLOSE
  {
    FirstIndexSplit([c], [CLOSE] + rest, Is(CLOSE));
    assert ([c] + ([CLOSE] + rest))[2..] == rest;
  }

  lemma TokenMeasured(tag: string, after: string)
    requires IsIdentifier(tag) && after != "" && !IsTokenChar(after[0])
    ensures TokenLength(tag + after) == if tag[0] == '_' then |tag| - 1 else |tag|
  {
    var s := tag + after;
    if tag[0] == '_' {
      assert s[1..] == tag[1..] + after;
      FirstIndexSplit(tag[1..], after, NOT_TOKEN);
    } else {
      assert s[..|s| - 1] == tag + after[..|after| - 1];
      FirstIndexSplit(tag, after[..|after| - 1], NOT_TOKEN);
    }
  }
}
