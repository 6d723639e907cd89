/** Scanning over text: the iguana reader's character loops and the functions that say where they stop. */
module Scanning {
  import opened Decimal
  import opened Options

  /** The first position whose character satisfies p, or the length. */
  function FirstIndex(s: string, p: char -> bool): (i: nat)
    ensures i <= |s|
    ensures i < |s| ==> p(s[i])
    ensures forall k :: 0 <= k < i ==> !p(s[k])
  {
    if s == [] || p(s[0]) then 0 else 1 + FirstIndex(s[1..], p)
  }

  /** The position is the only one with these properties. */
  lemma FirstIndexUnique(s: string, p: char -> bool, i: nat)
    requires i <= |s| && (i < |s| ==> p(s[i]))
    requires forall k :: 0 <= k < i ==> !p(s[k])
    ensures FirstIndex(s, p) == i
  {
  }

  /** Text without such a character before the place where one stands. */
  lemma FirstIndexSplit(s: string, t: string, p: char -> bool)
    requires forall k :: 0 <= k < |s| ==> !p(s[k])
    requires t == [] || p(t[0])
    ensures FirstIndex(s + t, p) == |s|
  {
    FirstIndexUnique(s + t, p, |s|);
  }

  /** The loop that counts characters until the predicate holds. */
  method Forward(s: string, p: char -> bool) returns (traversed: nat)
    ensures traversed == FirstIndex(s, p)
  {
    traversed := 0;
    while traversed < |s|
      invariant traversed <= |s|
      invariant forall k :: 0 <= k < traversed ==> !p(s[k])
    {
      if p(s[traversed]) {
        break;
      }
      traversed := traversed + 1;
    }
    FirstIndexUnique(s, p, traversed);
  }

  predicate IsBlankOrControl(c: char) {
    c <= ' ' || c == 127 as char
  }

  predicate IsAlpha(c: char) {
    'a' <= c <= 'z' || 'A' <= c <= 'Z'
  }

  predicate IsTokenChar(c: char) {
    IsAlpha(c) || IsDigit(c) || c == '_'
  }

  const NOT_BLANK: char -> bool := c => !IsBlankOrControl(c)
  const NOT_TOKEN: char -> bool := c => !IsTokenChar(c)
  const NOT_DIGIT: char -> bool := c => !IsDigit(c)

  function Is(c: char): char -> bool {
    x => x == c
  }

  function SkipBlank(s: string): string {
    s[FirstIndex(s, NOT_BLANK)..]
  }

  /**
   * The length of the token at the front. After a leading letter the scan starts at that letter but stops one
   * short of the end; after a leading underscore it starts one later, so that the underscore is not counted.
   */
  function TokenLength(s: string): (l: nat)
    ensures l <= |s|
  {
    if s == [] then 0
    else if IsAlpha(s[0]) then FirstIndex(s[..|s| - 1], NOT_TOKEN)
    else if s[0] == '_' then FirstIndex(s[1..], NOT_TOKEN)
    else 0
  }

  function AfterExpected(s: string, c: char): Option<string> {
    if s != [] && s[0] == c then Some(s[1..]) else None
  }

  function AfterToken(s: string, name: string): Option<string> {
    if TokenLength(s) == |name| && s[..|name|] == name then Some(s[|name|..]) else None
  }

  /** What follows the first c, or nothing. */
  function AfterChar(s: string, c: char): string {
    var l := FirstIndex(s, Is(c));
    if l < |s| then s[l + 1..] else []
  }

  /** A field name that the reader can find: a letter, then letters, digits and underscores. */
  predicate IsName(name: string) {
    name != [] && IsAlpha(name[0]) && forall k :: 0 <= k < |name| ==> IsTokenChar(name[k])
  }

  lemma TokenFound(name: string, rest: string)
    requires IsName(name) && rest != [] && !IsTokenChar(rest[0])
    ensures AfterToken(name + rest, name) == Some(rest)
  {
    var s := name + rest;
    assert s[..|s| - 1] == name + rest[..|rest| - 1];
    FirstIndexSplit(name, rest[..|rest| - 1], NOT_TOKEN);
  }

  /** A name that starts with an underscore is not found where it stands: its token leaves the underscore out. */
  lemma UnderscoreMissed(name: string, rest: string)
    requires name != [] && name[0] == '_' && (forall k :: 0 <= k < |name| ==> IsTokenChar(name[k]))
    requires rest != [] && !IsTokenChar(rest[0])
    ensures AfterToken(name + rest, name) == None
  {
    assert (name + rest)[1..] == name[1..] + rest;
    FirstIndexSplit(name[1..], rest, NOT_TOKEN);
  }

  lemma SkipNothing(s: string)
    requires s == [] || !IsBlankOrControl(s[0])
    ensures SkipBlank(s) == s
  {
  }
}
