/** The reader object: its cursor moves only when a whole construct was found. */
module XmlReaders {
  import opened Options
  import opened Scanning
  import opened Xml

  class XmlReader {
    /** The text that is not read yet. */
    var buffer: string

    constructor (text: string)
      ensures buffer == text
    {
      buffer := text;
    }

    method GetRoot() returns (ok: bool)
      modifies this
      ensures ok == AfterRoot(old(buffer)).Some?
      ensures buffer == if ok then AfterRoot(old(buffer)).value else old(buffer)
    {
      var l := Forward(buffer, NOT_BLANK);
      var work := ExpectedChar(buffer[l..], '<');
      if work.None? {
        return false;
      }
      work := ExpectedChar(work.value, '?');
      if work.None? {
        return false;
      }
      work := ExpectedToken(work.value, "xml");
      if work.None? {
        return false;
      }
      l := ForwardAfter(work.value, '>');
      buffer := work.value[l..];
      return true;
    }

    method BeginObject(name: string) returns (status: Status)
      modifies this
      ensures (status, buffer) == AfterBegin(old(buffer), name)
    {
      var l := Forward(buffer, NOT_BLANK);
      var work := ExpectedChar(buffer[l..], '<');
      if work.None? {
        return Illegal;
      }
      work := ExpectedToken(work.value, name);
      if work.None? {
        return Illegal;
      }
      l := ForwardAfter(work.value, '>');
      buffer := work.value[l..];
      return if l > 0 && work.value[l - 1] == '/' then EmptyTag else Normal;
    }

    method GetText() returns (text: string)
      modifies this
      ensures (text, buffer) == TextAt(old(buffer))
    {
      var l := Forward(buffer, NOT_BLANK);
      var work := buffer[l..];
      l := Forward(work, Is('<'));
      text := work[..l];
      buffer := work[l..];
    }

    method GetNumber() returns (n: int)
      modifies this
      ensures n == Atoi(SkipBlank(old(buffer))) && buffer == TextAt(old(buffer)).1
    {
      var l := Forward(buffer, NOT_BLANK);
      var work := buffer[l..];
      l := Forward(work, Is('<'));
      n := Atoi(work);
      buffer := work[l..];
    }

    method EndObject(name: string) returns (ok: bool)
      modifies this
      ensures ok == AfterEnd(old(buffer), name).Some?
      ensures buffer == if ok then AfterEnd(old(buffer), name).value else old(buffer)
    {
      var l := Forward(buffer, NOT_BLANK);
      var work := ExpectedChar(buffer[l..], '<');
      if work.None? {
        return false;
      }
      work := ExpectedChar(work.value, '/');
      if work.None? {
        return false;
      }
      work := ExpectedToken(work.value, name);
      if work.None? {
        return false;
      }
      work := ExpectedChar(work.value, '>');
      if work.None? {
        return false;
      }
      buffer := work.value;
      return true;
    }
  }

  method ExpectedChar(s: string, c: char) returns (after: Option<string>)
    ensures after == AfterExpected(s, c)
  {
    if s == [] || s[0] != c {
      return None;
    }
    return Some(s[1..]);
  }

  method ExpectedToken(s: string, name: string) returns (after: Option<string>)
    ensures after == AfterToken(s, name)
  {
    var l := GetToken(s);
    if l != |name| || s[..l] != name {
      return None;
    }
    return Some(s[l..]);
  }

  method GetToken(s: string) returns (l: nat)
    ensures l == TokenLength(s)
  {
    if s == [] || !(IsAlpha(s[0]) || s[0] == '_') {
      return 0;
    }
    l := Forward(if IsAlpha(s[0]) then s[..|s| - 1] else s[1..], NOT_TOKEN);
  }

  method ForwardAfter(s: string, c: char) returns (l: nat)
    ensures l <= |s| && s[l..] == AfterChar(s, c)
  {
    l := Forward(s, Is(c));
    if l < |s| {
      l := l + 1;
    }
  }

  /** Fills a struct member by member; `initial` is what the struct held before. */
  method DoRead(rd: XmlReader, fields: Fields, initial: Values) returns (values: Values)
    requires AllConform(fields, initial)
    modifies rd
    ensures (values, rd.buffer) == Read(fields, initial, old(rd.buffer))
    decreases fields
  {
    match fields
    case NoFields =>
      return NoValues;
    case Field(name, schema, more) =>
      var value := initial.value;
      var status := rd.BeginObject(name);
      if status == Normal {
        value := ReadMember(rd, schema, value);
        var _ := rd.EndObject(name);
      }
      var rest := DoRead(rd, more, initial.rest);
      values := Cons(value, rest);
  }

  method ReadMember(rd: XmlReader, schema: Schema, initial: Value) returns (value: Value)
    requires Conforms(schema, initial)
    modifies rd
    ensures (value, rd.buffer) == ValueAt(schema, initial, old(rd.buffer))
    decreases schema
  {
    match schema
    case Text =>
      var text := rd.GetText();
      value := TextValue(text);
    case Number =>
      var n := rd.GetNumber();
      value := NumberValue(n);
    case Struct(fields) =>
      var values := DoRead(rd, fields, initial.values);
      value := StructValue(values);
  }

  method FromXmlText(fields: Fields, initial: Values, text: string) returns (values: Values, rest: string)
    requires AllConform(fields, initial)
    ensures (values, rest) == FromXml(fields, initial, text)
  {
    var rd := new XmlReader(text);
    values := initial;
    var ok := rd.GetRoot();
    if ok {
      values := DoRead(rd, fields, initial);
    }
    rest := rd.buffer;
  }
}
