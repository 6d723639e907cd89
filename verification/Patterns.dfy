/** Log patterns: their parts, the padder, and the compiled form. */
module Patterns {
  import opened Decimal
  import opened Options
  import opened Scanning
  import opened LogFields

  datatype Side = Left | Right | Center

  datatype Padding = Padding(width: nat, side: Side, truncate: bool, enabled: bool)

  const NO_PADDING: Padding := Padding(0, Left, false, false)
  const MAX_WIDTH: nat := 64

  function Spaces(n: nat): (s: string)
    ensures |s| == n
  {
    if n == 0 then "" else " " + Spaces(n - 1)
  }

  /**
   * A field behind dest: blanks for a positive gap; a negative gap, when truncating, takes as many characters off
   * the end as it is wide, of whatever stands there, and fails if there are fewer.
   */
  function Padded(dest: string, p: Padding, declared: nat, text: string): Option<string> {
    var gap := p.width - declared;
    if !p.enabled then Some(dest + text)
    else if gap > 0 then
      match p.side
      case Left => Some(dest + Spaces(gap) + text)
      case Right => Some(dest + text + Spaces(gap))
      case Center => Some(dest + Spaces(gap / 2) + text + Spaces(gap / 2 + gap % 2))
    else if gap < 0 && p.truncate then
      if |dest + text| + gap < 0 then None else Some((dest + text)[..|dest + text| + gap])
    else Some(dest + text)
  }

  /** A width and an optional truncation mark, with their length; without a digit there is no padding. */
  function WidthSpec(s: string, side: Side): (r: (Padding, nat))
    ensures r.1 <= |s| && r.0.width <= MAX_WIDTH
    ensures !r.0.enabled ==> r.0 == NO_PADDING
  {
    var n := FirstIndex(s, NOT_DIGIT);
    if n == 0 then (NO_PADDING, 0)
    else
      var width := DigitsValue(s[..n]) % 0x1_0000_0000_0000_0000;
      var truncate := n < |s| && s[n] == '!';
      (Padding(if width < MAX_WIDTH then width else MAX_WIDTH, side, truncate, true), if truncate then n + 1 else n)
  }

  /** The padding behind a percent sign and the number of characters that describe it. */
  function PadSpec(s: string): (r: (Padding, nat))
    ensures r.1 <= |s| && r.0.width <= MAX_WIDTH
    ensures !r.0.enabled ==> r.0 == NO_PADDING
  {
    if s != "" && s[0] == '-' then var (p, n) := WidthSpec(s[1..], Right); (p, n + 1)
    else if s != "" && s[0] == '=' then var (p, n) := WidthSpec(s[1..], Center); (p, n + 1)
    else WidthSpec(s, Left)
  }

  /** The date text of the default format and the second that it was made for. */
  datatype Cache = Cache(secs: int, text: string)

  const EMPTY_CACHE: Cache := Cache(0, "")

  datatype Piece =
    | Chars(text: string)
    | Full(cache: Cache)
    | Flag(flag: char, padding: Padding)
    | ColourStart
    | ColourStop

  function Flush(chars: string): seq<Piece> {
    if chars == "" then [] else [Chars(chars)]
  }

  function Handled(flag: char, p: Padding): seq<Piece> {
    if flag == '+' then [Full(EMPTY_CACHE)]
    else if flag == '%' then [Chars("%")]
    else if flag == '^' then [ColourStart]
    else if flag == '$' then [ColourStop]
    else if IsPaddedFlag(flag) then [Flag(flag, p)]
    else if !p.truncate then [Chars(['%', flag])]
    else [Flag('!', p.(truncate := false)), Chars([flag])]
  }

  /** The compiled form of a pattern, behind plain characters not yet put into a piece. */
  function Compiled(pattern: string, chars: string): seq<Piece> {
    if pattern == "" then Flush(chars)
    else if pattern[0] != '%' then Compiled(pattern[1..], chars + [pattern[0]])
    else
      var (padding, n) := PadSpec(pattern[1..]);
      var rest := pattern[1 + n..];
      Flush(chars) + if rest == "" then [] else Handled(rest[0], padding) + Compiled(rest[1..], "")
  }

  /** Text written so far and the range to be coloured. */
  datatype Output = Output(text: string, from: nat, until: nat)

  function Append(out: Output, text: string): Output {
    out.(text := out.text + text)
  }

  function WithField(out: Output, p: Padding, f: Field): Option<Output> {
    if f.Absent? then Some(out)
    else
      match Padded(out.text, p, f.declared, f.text)
      case None => None
      case Some(text) => Some(out.(text := text))
  }

  /** The default format, given its date text. */
  function FullOutput(out: Output, date: string, msg: Message): Output {
    var before := out.text + date + BeforeLevel(msg);
    Output(before + msg.level + AfterLevel(msg), |before|, |before| + |msg.level|)
  }

  function Refreshed(cache: Cache, msg: Message, t: Calendar): Cache {
    if cache.secs != msg.secs || cache.text == "" then Cache(msg.secs, DateText(t)) else cache
  }

  predicate WellFormed(pieces: seq<Piece>) {
    forall k :: 0 <= k < |pieces| && pieces[k].Flag? ==> IsPaddedFlag(pieces[k].flag)
  }

  /** One piece: what becomes of it and what it writes. */
  function ShowPiece(piece: Piece, env: Env, msg: Message, t: Calendar, out: Output): (Piece, Option<Output>)
    requires piece.Flag? ==> IsPaddedFlag(piece.flag)
  {
    match piece
    case Chars(text) => (piece, Some(Append(out, text)))
    case Full(cache) =>
      var renewed := Refreshed(cache, msg, t);
      (Full(renewed), Some(FullOutput(out, renewed.text, msg)))
    case Flag(flag, padding) => (piece, WithField(out, padding, FieldOf(flag, env, msg, t)))
    case ColourStart => (piece, Some(out.(from := |out.text|)))
    case ColourStop => (piece, Some(out.(until := |out.text|)))
  }

  /** All pieces in order, up to one that fails. */
  function ShowAll(pieces: seq<Piece>, env: Env, msg: Message, t: Calendar, out: Output)
    : (r: (seq<Piece>, Option<Output>))
    requires WellFormed(pieces)
    ensures |r.0| == |pieces| && WellFormed(r.0)
  {
    if pieces == [] then ([], Some(out))
    else
      var (piece, next) := ShowPiece(pieces[0], env, msg, t, out);
      if next.None? then ([piece] + pieces[1..], None)
      else
        var (rest, last) := ShowAll(pieces[1..], env, msg, t, next.value);
        ([piece] + rest, last)
  }

  datatype State = State(pieces: seq<Piece>, time: Calendar, secs: int)

  function Start(pattern: string): State {
    State(Compiled(pattern, ""), ZERO_TIME, 0)
  }

  function Ended(out: Option<Output>, eol: string): Option<Output> {
    match out
    case None => None
    case Some(o) => Some(Append(o, eol))
  }

  /** One message: the broken-down time is renewed when the second changes. */
  function Formatted(state: State, env: Env, msg: Message, out: Output): (r: (State, Option<Output>))
    requires WellFormed(state.pieces)
    ensures WellFormed(r.0.pieces)
  {
    var time := if msg.secs != state.secs then env.timeOf(msg.secs) else state.time;
    var (pieces, last) := ShowAll(state.pieces, env, msg, time, out);
    (State(pieces, time, msg.secs), Ended(last, env.eol))
  }
}
