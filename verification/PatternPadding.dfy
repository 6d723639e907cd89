/** What padding contributes to the output, and where the pattern formatter misses what is promised. */
module PatternPadding {
  import opened Decimal
  import opened Options
  import opened Scanning
  import opened LogFields
  import opened Patterns

  /** The width that a numeral asks for, in the arithmetic of 64 bits and up to the limit. */
  function Limited(value: int): nat {
    var width := value % 0x1_0000_0000_0000_0000;
    if width < 64 then width else 64
  }

  lemma WidthRead(w: string, rest: string, side: Side)
    requires AllDigits(w) && w != "" && (rest == "" || !IsDigit(rest[0]))
    ensures var cut := rest != "" && rest[0] == '!';
            WidthSpec(w + rest, side)
            == (Padding(Limited(DigitsValue(w)), side, cut, true), |w| + if cut then 1 else 0)
  {
    FirstIndexSplit(w, rest, NOT_DIGIT);
    assert (w + rest)[..|w|] == w;
  }

  /** The sign for each side of the blanks. */
  function Sign(side: Side): string {
    match side
    case Left => ""
    case Right => "-"
    case Center => "="
  }

  /**
   * A numeral asks for a field of that width with blanks before it, behind a minus sign for blanks behind it, and
   * behind an equals sign for both; an exclamation mark behind the numeral asks for truncation.
   */
  lemma PadSpecOfNumeral(side: Side, w: string, rest: string)
    requires AllDigits(w) && w != "" && (rest == "" || !IsDigit(rest[0]))
    ensures var cut := rest != "" && rest[0] == '!';
            PadSpec(Sign(side) + (w + rest))
            == (Padding(Limited(DigitsValue(w)), side, cut, true), |Sign(side)| + (|w| + if cut then 1 else 0))
  {
    WidthRead(w, rest, side);
    DigitInFront(w, rest);
    SignedSpec(side, w + rest);
  }

  lemma DigitInFront(w: string, rest: string)
    requires AllDigits(w) && w != ""
    ensures w + rest != "" && (w + rest)[0] != '-' && (w + rest)[0] != '='
  {
    assert (w + rest)[0] == w[0];
  }

  lemma SignedSpec(side: Side, s: string)
    requires side == Left ==> s == "" || (s[0] != '-' && s[0] != '=')
    ensures PadSpec(Sign(side) + s) == (WidthSpec(s, side).0, |Sign(side)| + WidthSpec(s, side).1)
  {
    var t := Sign(side) + s;
    if side == Left {
      assert t == s;
    } else {
      assert t[1..] == s;
    }
  }

  /** Without a numeral there is no padding; a sign in front is taken all the same. */
  lemma PadSpecWithoutNumeral(side: Side, s: string)
    requires s == "" || !IsDigit(s[0])
    requires side == Left ==> s == "" || (s[0] != '-' && s[0] != '=')
    ensures PadSpec(Sign(side) + s) == (NO_PADDING, |Sign(side)|)
  {
    SignedSpec(side, s);
    FirstIndexUnique(s, NOT_DIGIT, 0);
  }

  lemma {:induction false} SpacesAreBlank(n: nat)
    ensures forall k :: 0 <= k < n ==> Spaces(n)[k] == ' '
  {
    if n > 0 {
      SpacesAreBlank(n - 1);
      assert forall k :: 0 < k < n ==> Spaces(n)[k] == Spaces(n - 1)[k - 1];
    }
  }

  /** The promised contribution of a padded field. */
  function Promised(p: Padding, length: nat): nat {
    if p.truncate || length < p.width then p.width else length
  }

  /** The padder fails exactly if truncating would take more than there is. */
  lemma PadderFails(dest: string, p: Padding, declared: nat, text: string)
    ensures Padded(dest, p, declared, text).None?
       <==> p.enabled && p.truncate && |dest| + |text| + p.width < declared
  {
  }

  /**
   * The contribution is the promised one exactly if the announced length is the real one, or both fill the width
   * and nothing is truncated.
   */
  lemma PadderContributes(dest: string, p: Padding, declared: nat, text: string)
    requires p.enabled && Padded(dest, p, declared, text).Some?
    ensures |Padded(dest, p, declared, text).value| - |dest| == Promised(p, |text|)
       <==> declared == |text| || (!p.truncate && declared >= p.width && |text| >= p.width)
  {
  }

  /** With an honest length: nothing before the field is touched, and the field is its text, cut or between blanks. */
  lemma HonestPadding(dest: string, p: Padding, text: string) returns (left: nat, right: nat)
    requires p.enabled
    ensures var shown := if p.truncate && p.width < |text| then text[..p.width] else text;
            && Padded(dest, p, |text|, text) == Some(dest + Spaces(left) + shown + Spaces(right))
            && left + |shown| + right == Promised(p, |text|)
    ensures p.side == Left ==> right == 0
    ensures p.side == Right ==> left == 0
    ensures p.side == Center ==> left <= right <= left + 1
  {
    var gap := p.width - |text|;
    left, right := 0, 0;
    if gap > 0 {
      left := match p.side case Left => gap case Right => 0 case Center => gap / 2;
      right := gap - left;
      assert dest + text + Spaces(gap) == dest + "" + text + Spaces(gap);
      assert dest + Spaces(gap) + text == dest + Spaces(gap) + text + "";
    } else {
      var shown := if p.truncate && p.width < |text| then text[..p.width] else text;
      assert dest + "" + shown + "" == dest + shown;
      assert p.truncate && gap < 0 ==> (dest + text)[..|dest + text| + gap] == dest + text[..p.width];
    }
  }

  /** Failing aside, what a field contributes is right exactly if it is honest or fills the width untruncated. */
  lemma FieldContributes(dest: string, p: Padding, f: Field)
    requires p.enabled && f.Field?
    ensures var shown := Padded(dest, p, f.declared, f.text);
            shown.Some? && |shown.value| - |dest| == Promised(p, |f.text|)
            <==> Honest(f) || (!p.truncate && p.width <= f.declared && p.width <= |f.text|)
  {
    if Padded(dest, p, f.declared, f.text).Some? {
      PadderContributes(dest, p, f.declared, f.text);
    } else {
      PadderFails(dest, p, f.declared, f.text);
    }
  }

  /** The short date announces ten characters and has eight or nine: untruncated up to these, it keeps the promise. */
  lemma ShortDateMisses(dest: string, p: Padding, t: Calendar)
    requires p.enabled
    ensures var f := TimeField('D', t);
            var shown := Padded(dest, p, f.declared, f.text);
            shown.Some? && |shown.value| - |dest| == Promised(p, |f.text|)
            <==> !p.truncate && p.width <= if Remainder100(t.year) > -10 then 8 else 9
  {
    ShortDateLength(t);
    FieldContributes(dest, p, TimeField('D', t));
  }

  /**
   * The date and time announces 24 characters: with month, day and year of nine together it keeps the promise, with
   * any others only up to the shorter of both lengths, untruncated.
   */
  lemma DateAndTimeMisses(dest: string, p: Padding, t: Calendar)
    requires p.enabled
    ensures var f := TimeField('c', t);
            var shown := Padded(dest, p, f.declared, f.text);
            shown.Some? && |shown.value| - |dest| == Promised(p, |f.text|)
            <==> VariableLength(t) == 9 || (!p.truncate && p.width <= 24 && p.width <= 15 + VariableLength(t))
  {
    DateAndTimeLength(t);
    FieldContributes(dest, p, TimeField('c', t));
  }

  /** A truncated short date at the front of a message asks for a negative size, exactly below these widths. */
  lemma TruncatedShortDateFails(t: Calendar, width: nat)
    ensures Padded("", Padding(width, Left, true, true), TimeField('D', t).declared, TimeField('D', t).text) == None
       <==> width < if Remainder100(t.year) > -10 then 2 else 1
  {
    ShortDateLength(t);
  }
}
