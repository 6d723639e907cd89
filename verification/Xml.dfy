/** The iguana XML printer and cursor-based reader over nested structs of strings and integers. */
module Xml {
  import opened Decimal
  import opened Printing
  import opened Options
  import opened Scanning

  /** A reflected struct: its members in order. */
  datatype Schema = Text | Number | Struct(fields: Fields)
  datatype Fields = NoFields | Field(name: string, schema: Schema, rest: Fields)

  datatype Value = TextValue(text: string) | NumberValue(number: int) | StructValue(values: Values)
  datatype Values = NoValues | Cons(value: Value, rest: Values)

  predicate Conforms(schema: Schema, value: Value) {
    match schema
    case Text => value.TextValue?
    case Number => value.NumberValue?
    case Struct(fields) => value.StructValue? && AllConform(fields, value.values)
  }

  predicate AllConform(fields: Fields, values: Values) {
    match fields
    case NoFields => values.NoValues?
    case Field(_, schema, rest) => values.Cons? && Conforms(schema, values.value) && AllConform(rest, values.rest)
  }

  predicate Named(fields: Fields) {
    match fields
    case NoFields => true
    case Field(name, schema, rest) => IsName(name) && (schema.Struct? ==> Named(schema.fields)) && Named(rest)
  }

  const DECLARATION: string := " version = \"1.0\" encoding=\"UTF-8\""

  /** The line that to_xml starts with. */
  function Header(): string {
    "<" + ("?" + ("xml" + (DECLARATION + ">")))
  }

  function Head(name: string): string {
    "<" + name + ">"
  }

  function Tail(name: string): string {
    "</" + name + ">"
  }

  function Body(schema: Schema, value: Value): string
    requires Conforms(schema, value)
    decreases schema
  {
    match schema
    case Text => value.text
    case Number => Printed(value.number)
    case Struct(fields) => Print(fields, value.values)
  }

  function Print(fields: Fields, values: Values): string
    requires AllConform(fields, values)
    decreases fields
  {
    match fields
    case NoFields => ""
    case Field(name, schema, rest) =>
      Head(name) + Body(schema, values.value) + Tail(name) + Print(rest, values.rest)
  }

  function ToXml(fields: Fields, values: Values): string
    requires AllConform(fields, values)
  {
    Header() + Print(fields, values)
  }

  datatype Status = Illegal | EmptyTag | Normal

  function AfterRoot(s: string): Option<string> {
    match AfterExpected(SkipBlank(s), '<')
    case None => None
    case Some(a) =>
      match AfterExpected(a, '?')
      case None => None
      case Some(b) =>
        match AfterToken(b, "xml")
        case None => None
        case Some(c) => Some(AfterChar(c, '>'))
  }

  /** The opening tag: its status and what follows it, or the unchanged text. */
  function AfterBegin(s: string, name: string): (Status, string) {
    match AfterExpected(SkipBlank(s), '<')
    case None => (Illegal, s)
    case Some(a) =>
      match AfterToken(a, name)
      case None => (Illegal, s)
      case Some(b) =>
        var rest := AfterChar(b, '>');
        var consumed := |b| - |rest|;
        (if 0 < consumed <= |b| && b[consumed - 1] == '/' then EmptyTag else Normal, rest)
  }

  function AfterEnd(s: string, name: string): Option<string> {
    match AfterExpected(SkipBlank(s), '<')
    case None => None
    case Some(a) =>
      match AfterExpected(a, '/')
      case None => None
      case Some(b) =>
        match AfterToken(b, name)
        case None => None
        case Some(c) => AfterExpected(c, '>')
  }

  function TextAt(s: string): (string, string) {
    var t := SkipBlank(s);
    var l := FirstIndex(t, Is('<'));
    (t[..l], t[l..])
  }

  /** The C library's conversion: an optional sign and as many digits as follow. */
  function Atoi(s: string): int {
    if s != [] && s[0] == '-' then -Leading(s[1..])
    else if s != [] && s[0] == '+' then Leading(s[1..])
    else Leading(s)
  }

  function Leading(s: string): int {
    DigitsValue(s[..FirstIndex(s, NOT_DIGIT)])
  }

  function ValueAt(schema: Schema, initial: Value, s: string): (Value, string)
    requires Conforms(schema, initial)
    decreases schema
  {
    match schema
    case Text => (TextValue(TextAt(s).0), TextAt(s).1)
    case Number => (NumberValue(Atoi(SkipBlank(s))), TextAt(s).1)
    case Struct(fields) =>
      var (values, rest) := Read(fields, initial.values, s);
      (StructValue(values), rest)
  }

  /** Reads the members in order; a member whose opening tag is not next keeps its initial value. */
  function Read(fields: Fields, initial: Values, s: string): (Values, string)
    requires AllConform(fields, initial)
    decreases fields
  {
    match fields
    case NoFields => (NoValues, s)
    case Field(name, schema, rest) =>
      var (status, a) := AfterBegin(s, name);
      if status == Normal then
        var (value, b) := ValueAt(schema, initial.value, a);
        var c := AfterEnd(b, name);
        var (values, d) := Read(rest, initial.rest, if c.None? then b else c.value);
        (Cons(value, values), d)
      else
        var (values, d) := Read(rest, initial.rest, a);
        (Cons(initial.value, values), d)
  }

  function FromXml(fields: Fields, initial: Values, s: string): (Values, string)
    requires AllConform(fields, initial)
  {
    match AfterRoot(s)
    case None => (initial, s)
    case Some(rest) => Read(fields, initial, rest)
  }
}
