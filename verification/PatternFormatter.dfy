/** The formatter object: compiled pieces with their caches, and the broken-down time of the last second. */
module PatternFormatters {
  import opened Decimal
  import opened Options
  import opened Scanning
  import opened LogFields
  import opened Patterns
  import opened PatternMeaning

  class PatternFormatter {
    var pieces: seq<Piece>
    var time: Calendar
    var secs: int

    ghost function Value(): State
      reads this
    {
      State(pieces, time, secs)
    }

    constructor (pattern: string)
      ensures Value() == Start(pattern) && New(pieces)
    {
      pieces := [];
      time := ZERO_TIME;
      secs := 0;
      new;
      Compile(pattern);
      CompiledIsNew(pattern, "");
    }

    method Compile(pattern: string)
      modifies this`pieces
      ensures pieces == Compiled(pattern, "")
    {
      var chars := "";
      pieces := [];
      var it := 0;
      while it < |pattern|
        invariant it <= |pattern|
        invariant pieces + Compiled(pattern[it..], chars) == Compiled(pattern, "")
      {
        if pattern[it] == '%' {
          CharsFirst(pieces, pattern[it..], chars);
          pieces := pieces + Flush(chars);
          chars := "";
          it := CompileFlag(pattern, it);
        } else {
          chars := chars + [pattern[it]];
          it := it + 1;
        }
      }
      pieces := pieces + Flush(chars);
    }

    /** One percent sign with its padding and flag; there is no flag at the end of the pattern. */
    method CompileFlag(pattern: string, start: nat) returns (it: nat)
      requires start < |pattern| && pattern[start] == '%'
      modifies this`pieces
      ensures start < it <= |pattern|
      ensures pieces + Compiled(pattern[it..], "") == old(pieces) + Compiled(pattern[start..], "")
    {
      ghost var rest := pattern[start..];
      var padding;
      padding, it := HandlePadspec(pattern, start + 1);
      FlagFirst(pieces, rest, pattern, it, padding);
      if it < |pattern| {
        HandleFlag(pattern[it], padding);
        it := it + 1;
      }
    }

    method HandleFlag(flag: char, padding: Padding)
      modifies this`pieces
      ensures pieces == old(pieces) + Handled(flag, padding)
    {
      if flag == '+' {
        pieces := pieces + [Full(EMPTY_CACHE)];
      } else if flag == '%' {
        pieces := pieces + [Chars("%")];
      } else if flag == '^' {
        pieces := pieces + [ColourStart];
      } else if flag == '$' {
        pieces := pieces + [ColourStop];
      } else if IsPaddedFlag(flag) {
        pieces := pieces + [Flag(flag, padding)];
      } else if !padding.truncate {
        pieces := pieces + [Chars(['%', flag])];
      } else {
        pieces := pieces + [Flag('!', padding.(truncate := false))];
        pieces := pieces + [Chars([flag])];
      }
    }

    /** Writes one message behind `out`; stops at a field that fails. */
    method Format(env: Env, msg: Message, out: Output) returns (result: Option<Output>)
      requires WellFormed(pieces)
      modifies this
      ensures WellFormed(pieces)
      ensures (Value(), result) == Formatted(old(Value()), env, msg, out)
    {
      if msg.secs != secs {
        time := env.timeOf(msg.secs);
        secs := msg.secs;
      }
      var shown := ShowPieces(env, msg, out);
      result := Ended(shown, env.eol);
    }

    method ShowPieces(env: Env, msg: Message, out: Output) returns (result: Option<Output>)
      requires WellFormed(pieces)
      modifies this`pieces
      ensures (pieces, result) == ShowAll(old(pieces), env, msg, time, out)
    {
      ghost var given, done := pieces, [];
      var current := out;
      var i := 0;
      assert given[0..] == given && given == [] + given;
      BehindNothing(ShowAll(given, env, msg, time, out));
      while i < |pieces|
        invariant i == |done| <= |given| && WellFormed(given[i..])
        invariant pieces == done + given[i..]
        invariant ShowAll(given, env, msg, time, out) == Behind(done, ShowAll(given[i..], env, msg, time, current))
      {
        var next;
        next, done := ShowNext(i, done, given[i..], env, msg, current);
        assert given[i..][1..] == given[i + 1..];
        if next.None? {
          return None;
        }
        current := next.value;
        i := i + 1;
      }
      result := Some(current);
    }

    /** One turn of the loop over the pieces. */
    method ShowNext(i: nat, ghost done: seq<Piece>, ghost rest: seq<Piece>, env: Env, msg: Message, out: Output)
      returns (next: Option<Output>, ghost after: seq<Piece>)
      requires i == |done| && rest != [] && WellFormed(rest) && pieces == done + rest
      modifies this`pieces
      ensures WellFormed(rest[1..]) && |after| == |done| + 1 && pieces == after + rest[1..]
      ensures Behind(done, ShowAll(rest, env, msg, time, out))
           == if next.None? then (pieces, None) else Behind(after, ShowAll(rest[1..], env, msg, time, next.value))
    {
      ShowFirst(done, rest, env, msg, time, out);
      Replaced(pieces, done, rest, ShowPiece(rest[0], env, msg, time, out).0);
      var (piece, shown) := ShowPiece(pieces[i], env, msg, time, out);
      pieces := pieces[i := piece];
      next, after := shown, done + [piece];
    }
  }

  lemma Replaced(pieces: seq<Piece>, done: seq<Piece>, rest: seq<Piece>, piece: Piece)
    requires rest != [] && pieces == done + rest
    ensures pieces[|done|] == rest[0]
    ensures pieces[|done| := piece] == (done + [piece]) + rest[1..] == done + ([piece] + rest[1..])
  {
  }

  ghost function Behind(done: seq<Piece>, r: (seq<Piece>, Option<Output>)): (seq<Piece>, Option<Output>) {
    (done + r.0, r.1)
  }

  lemma BehindNothing(r: (seq<Piece>, Option<Output>))
    ensures Behind([], r) == r
  {
    assert [] + r.0 == r.0;
  }

  lemma ShowFirst(done: seq<Piece>, rest: seq<Piece>, env: Env, msg: Message, t: Calendar, out: Output)
    requires rest != [] && WellFormed(rest)
    ensures WellFormed(rest[1..])
    ensures var (piece, next) := ShowPiece(rest[0], env, msg, t, out);
            Behind(done, ShowAll(rest, env, msg, t, out))
            == if next.None? then (done + ([piece] + rest[1..]), None)
               else Behind(done + [piece], ShowAll(rest[1..], env, msg, t, next.value))
  {
    var (piece, next) := ShowPiece(rest[0], env, msg, t, out);
    if next.Some? {
      BehindOne(done, piece, ShowAll(rest[1..], env, msg, t, next.value));
    }
  }

  lemma BehindOne(done: seq<Piece>, piece: Piece, r: (seq<Piece>, Option<Output>))
    ensures Behind(done, ([piece] + r.0, r.1)) == Behind(done + [piece], r)
  {
    assert done + ([piece] + r.0) == (done + [piece]) + r.0;
  }

  lemma CharsFirst(before: seq<Piece>, rest: string, chars: string)
    requires rest != "" && rest[0] == '%'
    ensures before + Compiled(rest, chars) == (before + Flush(chars)) + Compiled(rest, "")
  {
  }

  lemma FlagFirst(before: seq<Piece>, rest: string, pattern: string, it: nat, padding: Padding)
    requires rest != "" && rest[0] == '%' && it <= |pattern|
    requires padding == PadSpec(rest[1..]).0 && pattern[it..] == rest[1 + PadSpec(rest[1..]).1..]
    ensures before + Compiled(rest, "")
         == if it == |pattern| then before
            else (before + Handled(pattern[it], padding)) + Compiled(pattern[it + 1..], "")
  {
    var more := pattern[it..];
    assert Compiled(rest, "") == [] + if more == "" then [] else Handled(more[0], padding) + Compiled(more[1..], "");
    if it < |pattern| {
      assert more[1..] == pattern[it + 1..];
      Regroup(before, Handled(pattern[it], padding), Compiled(pattern[it + 1..], ""));
    }
  }

  lemma Regroup(a: seq<Piece>, b: seq<Piece>, c: seq<Piece>)
    ensures a + ([] + (b + c)) == (a + b) + c
  {
  }

  /** Reads the padding that starts at `start`; `it` is where the flag is. */
  method HandlePadspec(pattern: string, start: nat) returns (padding: Padding, it: nat)
    requires start <= |pattern|
    ensures it <= |pattern| && (padding, it - start) == PadSpec(pattern[start..])
  {
    it := start;
    var side := Left;
    if it < |pattern| && pattern[it] == '-' {
      side, it := Right, it + 1;
    } else if it < |pattern| && pattern[it] == '=' {
      side, it := Center, it + 1;
    }
    assert it > start ==> pattern[start..][1..] == pattern[it..];
    padding, it := HandleWidth(pattern, it, side);
  }

  method HandleWidth(pattern: string, start: nat, side: Side) returns (padding: Padding, it: nat)
    requires start <= |pattern|
    ensures it <= |pattern| && (padding, it - start) == WidthSpec(pattern[start..], side)
  {
    it := start;
    if it == |pattern| || !IsDigit(pattern[it]) {
      return NO_PADDING, it;
    }
    var width: nat;
    width, it := ReadWidth(pattern, it);
    var truncate := it < |pattern| && pattern[it] == '!';
    if truncate {
      it := it + 1;
    }
    padding := Padding(if width < MAX_WIDTH then width else MAX_WIDTH, side, truncate, true);
  }

  /** The decimal number at `start`, in the arithmetic of 64 bits. */
  method ReadWidth(pattern: string, start: nat) returns (width: nat, it: nat)
    requires start < |pattern| && IsDigit(pattern[start])
    ensures it <= |pattern| && it - start == FirstIndex(pattern[start..], NOT_DIGIT)
    ensures width == DigitsValue(pattern[start..][..it - start]) % 0x1_0000_0000_0000_0000
  {
    ghost var s := pattern[start..];
    DigitsSnoc([], pattern[start]);
    assert s[..1] == [] + [pattern[start]];
    width := pattern[start] as int - '0' as int;
    it := start + 1;
    while it < |pattern| && IsDigit(pattern[it])
      invariant start < it <= |pattern|
      invariant forall k :: 0 <= k < it - start ==> IsDigit(s[k])
      invariant width == DigitsValue(s[..it - start]) % 0x1_0000_0000_0000_0000
    {
      assert s[..it + 1 - start] == s[..it - start] + [pattern[it]];
      DigitsSnoc(s[..it - start], pattern[it]);
      width := WidthStep(DigitsValue(s[..it - start]), width, pattern[it] as int - '0' as int);
      it := it + 1;
    }
    FirstIndexUnique(s, NOT_DIGIT, it - start);
  }

  /** One more digit, in the arithmetic of 64 bits, of a width that may have lost its high bits already. */
  method WidthStep(ghost exact: int, width: nat, digit: int) returns (next: nat)
    requires width == exact % 0x1_0000_0000_0000_0000
    ensures next == (10 * exact + digit) % 0x1_0000_0000_0000_0000
  {
    next := (width * 10 + digit) % 0x1_0000_0000_0000_0000;
  }

  /** The padder around a field: blanks before, the field, and blanks behind or a cut. */
  method PadField(dest: string, p: Padding, declared: nat, text: string) returns (result: Option<string>)
    ensures result == Padded(dest, p, declared, text)
  {
    if !p.enabled {
      return Some(dest + text);
    }
    var out := dest;
    var remaining := p.width - declared;
    if remaining > 0 {
      if p.side == Left {
        out := out + Spaces(remaining);
        remaining := 0;
      } else if p.side == Center {
        var half := remaining / 2;
        out := out + Spaces(half);
        remaining := half + remaining % 2;
      }
    }
    out := out + text;
    if remaining >= 0 {
      assert out + "" == out;
      out := out + Spaces(remaining);
    } else if p.truncate {
      var size := |out| + remaining;
      if size < 0 {
        return None;
      }
      out := out[..size];
    }
    result := Some(out);
  }
}
