/** The growing output buffer and what its JSON string escaper emits. */
module StringStreams {
  type byte = b: int | 0 <= b < 256

  const NUL: byte := 0
  const QUOTE: byte := 34
  const BACKSLASH: byte := 92
  const LETTER_U: byte := 117
  const INIT_BUFF_SIZE: nat := 1024

  /** The escape table: 0 for bytes that stand for themselves, else the letter behind the backslash. */
  function Escape(c: byte): byte {
    if c == 8 then 98 else if c == 9 then 116 else if c == 10 then 110 else if c == 12 then 102
    else if c == 13 then 114 else if c < 32 then LETTER_U
    else if c == QUOTE || c == BACKSLASH then c else 0
  }

  function HexDigit(n: nat): byte
    requires n < 16
  {
    if n < 10 then 48 + n else 55 + n
  }

  function Hex(c: byte): seq<byte> {
    [HexDigit(c / 16), HexDigit(c % 16)]
  }

  /** A four-digit escape for two bytes, high one first. */
  function UnicodeEscape(high: byte, low: byte): seq<byte> {
    [BACKSLASH, LETTER_U] + Hex(high) + Hex(low)
  }

  /** What is written between the quotes. A control byte that needs a four-digit escape takes its successor with it. */
  function Escaped(s: seq<byte>): seq<byte> {
    if s == [] || s[0] == NUL then []
    else if Escape(s[0]) == 0 then [s[0]] + Escaped(s[1..])
    else if Escape(s[0]) != LETTER_U then [BACKSLASH, Escape(s[0])] + Escaped(s[1..])
    else if |s| == 1 then UnicodeEscape(NUL, s[0])
    else UnicodeEscape(s[0], s[1]) + Escaped(s[2..])
  }

  /** What the first byte, or the first two, turn into. */
  function FirstEscape(s: seq<byte>): seq<byte>
    requires s != []
  {
    if Escape(s[0]) == 0 then [s[0]]
    else if Escape(s[0]) != LETTER_U then [BACKSLASH, Escape(s[0])]
    else if |s| == 1 then UnicodeEscape(NUL, s[0])
    else UnicodeEscape(s[0], s[1])
  }

  /** The number of bytes that this takes. */
  function Taken(s: seq<byte>): (n: nat)
    requires s != []
    ensures 0 < n <= |s|
  {
    if Escape(s[0]) == LETTER_U && |s| > 1 then 2 else 1
  }

  lemma EscapedUnfolds(done: seq<byte>, s: seq<byte>, i: nat)
    requires i < |s| && s[i] != NUL
    ensures i + Taken(s[i..]) <= |s|
    ensures done + Escaped(s[i..]) == (done + FirstEscape(s[i..])) + Escaped(s[i + Taken(s[i..])..])
  {
    var rest := s[i..];
    assert Escaped(rest) == FirstEscape(rest) + Escaped(rest[Taken(rest)..]);
    assert rest[Taken(rest)..] == s[i + Taken(rest)..];
  }

  class StringStream {
    var buffer: array<byte>
    var length: nat
    var write: nat

    ghost predicate Valid()
      reads this
    {
      length == buffer.Length && write <= length && length > 0 && length % INIT_BUFF_SIZE == 0
    }

    ghost function Contents(): seq<byte>
      reads this, buffer
      requires Valid()
    {
      buffer[..write]
    }

    constructor ()
      ensures Valid() && Contents() == [] && fresh(buffer)
    {
      buffer := new byte[INIT_BUFF_SIZE];
      length := INIT_BUFF_SIZE;
      write := 0;
    }

    method Growpup(want: nat) returns (size: nat)
      requires Valid() && want > length
      modifies this
      ensures Valid() && fresh(buffer) && Contents() == old(Contents())
      ensures write == old(write) && size == length
      ensures want <= length < want + INIT_BUFF_SIZE
    {
      size := (want + INIT_BUFF_SIZE - 1) / INIT_BUFF_SIZE * INIT_BUFF_SIZE;
      var grown := new byte[size];
      forall k | 0 <= k < length {
        grown[k] := buffer[k];
      }
      buffer := grown;
      length := size;
    }

    method Reserve(more: nat)
      requires Valid()
      modifies this
      ensures Valid() && Contents() == old(Contents()) && write == old(write)
      ensures write + more <= length
      ensures buffer == old(buffer) || fresh(buffer)
    {
      if write + more > length {
        var _ := Growpup(write + more);
      }
    }

    method Write(text: seq<byte>)
      requires Valid()
      modifies this, buffer
      ensures Valid() && (buffer == old(buffer) || fresh(buffer))
      ensures Contents() == old(Contents()) + text
    {
      Reserve(|text|);
      forall k | 0 <= k < |text| {
        buffer[write + k] := text[k];
      }
      write := write + |text|;
    }

    method Put(c: byte)
      requires Valid()
      modifies this, buffer
      ensures Valid() && (buffer == old(buffer) || fresh(buffer))
      ensures Contents() == old(Contents()) + [c]
    {
      Reserve(1);
      buffer[write] := c;
      write := write + 1;
    }

    method WriteStr(s: seq<byte>)
      requires Valid()
      modifies this, buffer
      ensures Valid() && (buffer == old(buffer) || fresh(buffer))
      ensures Contents() == old(Contents()) + [QUOTE] + Escaped(s) + [QUOTE]
    {
      Put(QUOTE);
      ghost var before := Contents();
      var i := 0;
      while i < |s| && s[i] != NUL
        invariant 0 <= i <= |s|
        invariant Valid() && (buffer == old(buffer) || fresh(buffer))
        invariant Contents() + Escaped(s[i..]) == before + Escaped(s)
      {
        EscapedUnfolds(Contents(), s, i);
        i := WriteNext(s, i);
      }
      Put(QUOTE);
    }

    /** One turn of the escaping loop. */
    method WriteNext(s: seq<byte>, i: nat) returns (next: nat)
      requires Valid() && i < |s| && s[i] != NUL
      modifies this, buffer
      ensures Valid() && (buffer == old(buffer) || fresh(buffer))
      ensures next == i + Taken(s[i..]) <= |s|
      ensures Contents() == old(Contents()) + FirstEscape(s[i..])
    {
      var c := s[i];
      next := i + 1;
      var e := Escape(c);
      if e == 0 {
        Put(c);
      } else if e != LETTER_U {
        Write([BACKSLASH, e]);
      } else if next < |s| {
        Write(UnicodeEscape(c, s[next]));
        next := next + 1;
      } else {
        Write(UnicodeEscape(NUL, c));
      }
    }

    method Str() returns (text: seq<byte>)
      requires Valid()
      ensures text == Contents()
    {
      text := buffer[..write];
    }
  }
}
