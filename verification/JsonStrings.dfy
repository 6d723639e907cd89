/** Strings of RFC 8259, section 7, as a decoder, and what it makes of the escaper's output. */
module JsonStrings {
  import opened StringStreams

  datatype Decoded = Malformed | Text(bytes: seq<byte>)

  function HexValue(c: byte): int {
    if 48 <= c < 58 then c - 48
    else if 65 <= c < 71 then c - 55
    else if 97 <= c < 103 then c - 87
    else -1
  }

  /** The byte behind a two-character escape, or -1. */
  function Unescape(c: byte): int {
    if c == QUOTE || c == BACKSLASH || c == 47 then c
    else if c == 98 then 8 else if c == 116 then 9 else if c == 110 then 10
    else if c == 102 then 12 else if c == 114 then 13 else -1
  }

  /** UTF-8 for a character of the basic plane. */
  function Utf8(unit: nat): seq<byte>
    requires unit < 0x10000
  {
    if unit < 0x80 then [unit]
    else if unit < 0x800 then [0xC0 + unit / 64, 0x80 + unit % 64]
    else [0xE0 + unit / 4096, 0x80 + unit / 64 % 64, 0x80 + unit % 64]
  }

  function Prefixed(first: seq<byte>, rest: Decoded): Decoded {
    match rest
    case Malformed => Malformed
    case Text(bytes) => Text(first + bytes)
  }

  function Unit(digits: seq<byte>): int
    requires |digits| == 4
  {
    var a, b, c, d := HexValue(digits[0]), HexValue(digits[1]), HexValue(digits[2]), HexValue(digits[3]);
    if a < 0 || b < 0 || c < 0 || d < 0 then -1 else ((a * 16 + b) * 16 + c) * 16 + d
  }

  /** Decodes the text between the quotes; a surrogate, which would have to be half of a pair, is refused. */
  function Decode(t: seq<byte>): Decoded {
    if t == [] then Text([])
    else if t[0] == BACKSLASH then
      if |t| < 2 then Malformed
      else if t[1] == LETTER_U then
        if |t| < 6 || !(0 <= Unit(t[2..6]) < 0xD800 || 0xE000 <= Unit(t[2..6]) < 0x10000) then Malformed
        else Prefixed(Utf8(Unit(t[2..6])), Decode(t[6..]))
      else if Unescape(t[1]) < 0 then Malformed
      else Prefixed([Unescape(t[1])], Decode(t[2..]))
    else if t[0] < 32 || t[0] == QUOTE then Malformed
    else Prefixed([t[0]], Decode(t[1..]))
  }

  /** A control byte without an escape letter of its own. */
  predicate NeedsFourDigits(c: byte) {
    c < 32 && c !in {8, 9, 10, 12, 13}
  }

  /** No NUL, and a control byte that needs four digits only at the very end. */
  predicate Restorable(s: seq<byte>) {
    forall k :: 0 <= k < |s| ==> s[k] != NUL && (NeedsFourDigits(s[k]) ==> k == |s| - 1)
  }

  lemma RestorableTail(s: seq<byte>)
    requires |s| > 0
    ensures Restorable(s) <==> s[0] != NUL && (NeedsFourDigits(s[0]) ==> |s| == 1) && Restorable(s[1..])
  {
    assert s == [s[0]] + s[1..];
    if s[0] != NUL && (NeedsFourDigits(s[0]) ==> |s| == 1) && Restorable(s[1..]) {
      forall k | 0 <= k < |s|
        ensures s[k] != NUL && (NeedsFourDigits(s[k]) ==> k == |s| - 1)
      {
        assert k > 0 ==> s[k] == s[1..][k - 1];
      }
    }
  }

  lemma HexBack(n: nat)
    requires n < 16
    ensures HexValue(HexDigit(n)) == n
  {
  }

  lemma UnitOfEscape(high: byte, low: byte)
    ensures Unit(Hex(high) + Hex(low)) == high * 256 + low
  {
    HexBack(high / 16);
    HexBack(high % 16);
    HexBack(low / 16);
    HexBack(low % 16);
  }

  lemma UnicodeDecoded(high: byte, low: byte, rest: seq<byte>)
    requires high < 32
    ensures Decode(UnicodeEscape(high, low) + rest) == Prefixed(Utf8(high * 256 + low), Decode(rest))
  {
    var t := UnicodeEscape(high, low) + rest;
    assert t[2..6] == Hex(high) + Hex(low) && t[6..] == rest;
    UnitOfEscape(high, low);
  }

  lemma LetterDecoded(c: byte, rest: seq<byte>)
    requires Escape(c) != 0 && Escape(c) != LETTER_U
    ensures Decode([BACKSLASH, Escape(c)] + rest) == Prefixed([c], Decode(rest))
  {
    assert ([BACKSLASH, Escape(c)] + rest)[2..] == rest;
  }

  lemma PlainDecoded(c: byte, rest: seq<byte>)
    requires Escape(c) == 0
    ensures Decode([c] + rest) == Prefixed([c], Decode(rest))
  {
    assert ([c] + rest)[1..] == rest;
  }

  /** A decoded escape for two bytes never starts with the first of them. */
  lemma SwallowingShows(high: byte, low: byte, rest: Decoded, s: seq<byte>)
    requires 0 < high < 32 && s != [] && s[0] == high
    ensures Prefixed(Utf8(high * 256 + low), rest) != Text(s)
  {
    assert Utf8(high * 256 + low)[0] >= 0x80;
    if rest.Text? {
      assert (Utf8(high * 256 + low) + rest.bytes)[0] >= 0x80;
    }
  }

  /**
   * The main result: for every input the escaper's output is a well-formed JSON string body, and decoding it gives
   * the input back exactly if the input is restorable.
   */
  lemma {:induction false} EscapedIsJson(s: seq<byte>)
    ensures Decode(Escaped(s)).Text?
    ensures Decode(Escaped(s)) == Text(s) <==> Restorable(s)
  {
    if s != [] {
      var c, rest := s[0], s[1..];
      assert s == [c] + rest;
      RestorableTail(s);
      if c == NUL {
      } else if Escape(c) == 0 {
        EscapedIsJson(rest);
        PlainDecoded(c, Escaped(rest));
        PrefixedOne(c, Decode(Escaped(rest)), s);
      } else if Escape(c) != LETTER_U {
        EscapedIsJson(rest);
        LetterDecoded(c, Escaped(rest));
        PrefixedOne(c, Decode(Escaped(rest)), s);
      } else if |s| == 1 {
        UnicodeDecoded(NUL, c, []);
        assert UnicodeEscape(NUL, c) + [] == UnicodeEscape(NUL, c);
      } else {
        EscapedIsJson(s[2..]);
        UnicodeDecoded(c, s[1], Escaped(s[2..]));
        SwallowingShows(c, s[1], Decode(Escaped(s[2..])), s);
      }
    }
  }

  lemma PrefixedOne(c: byte, rest: Decoded, s: seq<byte>)
    requires s != [] && s[0] == c
    ensures Prefixed([c], rest) == Text(s) <==> rest == Text(s[1..])
  {
    assert s == [c] + s[1..];
    if rest.Text? && [c] + rest.bytes == s {
      assert ([c] + rest.bytes)[1..] == rest.bytes;
    }
  }

  /** Escaping loses no distinction between restorable inputs. */
  lemma EscapedInjective(s: seq<byte>, t: seq<byte>)
    requires Restorable(s) && Restorable(t) && Escaped(s) == Escaped(t)
    ensures s == t
  {
    EscapedIsJson(s);
    EscapedIsJson(t);
  }
}
