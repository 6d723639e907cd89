/** What the fields of a log line say, read back from their text. */
module FieldTexts {
  import opened Decimal
  import opened Printing
  import opened Options
  import opened FileNames
  import opened LogFields
  import opened Patterns
  import opened PatternMeaning
  import opened PatternPadding

  /** A number with leading zeros up to the width. */
  predicate IsNumber(s: string, width: nat, n: nat) {
    |s| == width && AllDigits(s) && DigitsValue(s) == n
  }

  predicate IsSigned(s: string, n: int) {
    if n < 0 then s != "" && s[0] == '-' && IsNumeral(s[1..], -n) else IsNumeral(s, n)
  }

  /** The text of a flag that is shown through the padder. */
  function Text(flag: char, env: Env, msg: Message, t: Calendar): string
    requires IsPaddedFlag(flag) && FieldOf(flag, env, msg, t).Field?
  {
    FieldOf(flag, env, msg, t).text
  }

  lemma Pad2IsNumber(n: nat)
    requires n < 100
    ensures IsNumber(Pad2(n), 2, n)
  {
    var a, b := DigitChar(n / 10), DigitChar(n % 10);
    DigitsSnoc([], a);
    DigitsSnoc([a], b);
    assert [] + [a] == [a] && Pad2(n) == [a] + [b];
  }

  lemma PrintedIsSigned(n: int)
    ensures IsSigned(Printed(n), n)
  {
    DigitsAreNumeral(if n < 0 then -n else n);
    if n < 0 {
      assert Printed(n)[1..] == Digits(-n);
    }
  }

  lemma {:induction false} ZerosAreNothing(k: nat, s: string)
    requires AllDigits(s)
    ensures AllDigits(Zeros(k) + s) && DigitsValue(Zeros(k) + s) == DigitsValue(s)
    decreases |s|
  {
    if s != "" {
      var n := |s| - 1;
      ZerosAreNothing(k, s[..n]);
      assert Zeros(k) + s == (Zeros(k) + s[..n]) + [s[n]] && s == s[..n] + [s[n]];
      DigitsSnoc(Zeros(k) + s[..n], s[n]);
      DigitsSnoc(s[..n], s[n]);
    } else {
      ZerosAreZero(k);
      assert Zeros(k) + "" == Zeros(k);
    }
  }

  lemma {:induction false} ZerosAreZero(k: nat)
    ensures AllDigits(Zeros(k)) && DigitsValue(Zeros(k)) == 0
  {
    if k > 0 {
      ZerosAreZero(k - 1);
      ZerosSnoc(k - 1);
      OneMoreZero(Zeros(k - 1));
    }
  }

  lemma OneMoreZero(s: string)
    requires AllDigits(s) && DigitsValue(s) == 0
    ensures AllDigits(s + "0") && DigitsValue(s + "0") == 0
  {
    DigitsSnoc(s, '0');
  }

  lemma {:induction false} ZerosSnoc(k: nat)
    ensures Zeros(k + 1) == Zeros(k) + "0"
  {
    if k > 0 {
      ZerosSnoc(k - 1);
      assert "0" + (Zeros(k - 1) + "0") == ("0" + Zeros(k - 1)) + "0";
    }
  }

  lemma PadUintIsNumber(n: nat, width: nat)
    requires width >= 1 && n < TenTo(width)
    ensures IsNumber(PadUint(n, width), width, n)
  {
    DigitsFit(n, width, TenTo(width));
    DigitsAreNumeral(n);
    ZerosAreNothing(width - |Digits(n)|, Digits(n));
  }

  /** The hour, minute, second, day and month are shown as two digits each. */
  lemma TwoDigitFields(env: Env, msg: Message, t: Calendar)
    ensures IsNumber(Text('H', env, msg, t), 2, t.hour) && IsNumber(Text('M', env, msg, t), 2, t.minute)
    ensures IsNumber(Text('S', env, msg, t), 2, t.second)
    ensures IsNumber(Text('d', env, msg, t), 2, t.day) && IsNumber(Text('m', env, msg, t), 2, t.month + 1)
  {
    Pad2IsNumber(t.hour);
    Pad2IsNumber(t.minute);
    Pad2IsNumber(t.second);
    Pad2IsNumber(t.day);
    Pad2IsNumber(t.month + 1);
  }

  lemma HourOnTwelve(t: Calendar)
    ensures Hour12(t) == if t.hour == 0 then 0 else (t.hour - 1) % 12 + 1
  {
  }

  /** The hour on a twelve-hour clock, but for midnight, and which half of the day it is. */
  lemma HalfDayFields(env: Env, msg: Message, t: Calendar)
    ensures IsNumber(Text('I', env, msg, t), 2, if t.hour == 0 then 0 else (t.hour - 1) % 12 + 1)
    ensures Text('p', env, msg, t) == if t.hour < 12 then "AM" else "PM"
  {
    HourOnTwelve(t);
    Pad2IsNumber(Hour12(t));
  }

  /** A part of a text, by position. */
  predicate NumberAt(s: string, i: nat, n: nat) {
    i + 2 <= |s| && IsNumber(s[i..i + 2], 2, n)
  }

  lemma ClockParts(t: Calendar)
    ensures var s := ClockTime(t);
            |s| == 8 && NumberAt(s, 0, t.hour) && s[2] == ':' && NumberAt(s, 3, t.minute) && s[5] == ':'
            && NumberAt(s, 6, t.second)
  {
    Pad2IsNumber(t.hour);
    Pad2IsNumber(t.minute);
    Pad2IsNumber(t.second);
    var s := ClockTime(t);
    assert s[0..2] == Pad2(t.hour) && s[3..5] == Pad2(t.minute) && s[6..8] == Pad2(t.second);
  }

  /** Hours, minutes and seconds between colons. */
  lemma ClockFields(env: Env, msg: Message, t: Calendar)
    ensures Text('X', env, msg, t) == Text('T', env, msg, t)
    ensures var s := Text('T', env, msg, t);
            |s| == 8 && NumberAt(s, 0, t.hour) && s[2] == ':' && NumberAt(s, 3, t.minute) && s[5] == ':'
            && NumberAt(s, 6, t.second)
    ensures var s := Text('R', env, msg, t);
            |s| == 5 && NumberAt(s, 0, t.hour) && s[2] == ':' && NumberAt(s, 3, t.minute)
  {
    ClockParts(t);
    Pad2IsNumber(t.hour);
    Pad2IsNumber(t.minute);
    assert HourMinute(t)[0..2] == Pad2(t.hour) && HourMinute(t)[3..5] == Pad2(t.minute);
  }

  /** The time on a twelve-hour clock is made of the fields for its parts. */
  lemma TwelveHourField(env: Env, msg: Message, t: Calendar)
    ensures Text('r', env, msg, t) == Text('I', env, msg, t) + ":" + Text('M', env, msg, t) + ":"
                                      + Text('S', env, msg, t) + " " + Text('p', env, msg, t)
  {
  }

  /** Month, day and the last two digits of the year between slashes. */
  lemma ShortDateFields(env: Env, msg: Message, t: Calendar)
    ensures Text('x', env, msg, t) == Text('D', env, msg, t)
    ensures Text('D', env, msg, t)
         == Text('m', env, msg, t) + "/" + Text('d', env, msg, t) + "/" + Text('C', env, msg, t)
  {
  }

  /** The year with its century. */
  lemma YearField(env: Env, msg: Message, t: Calendar)
    ensures IsSigned(Text('Y', env, msg, t), t.year + 1900)
  {
    YearText(env, msg, t);
    PrintedIsSigned(t.year + 1900);
  }

  lemma YearText(env: Env, msg: Message, t: Calendar)
    ensures Text('Y', env, msg, t) == Printed(t.year + 1900)
    ensures Text('C', env, msg, t) == Pad2(Remainder100(t.year))
  {
  }

  /** The year without its century; before 1900 it is signed and not filled up. */
  lemma ShortYearField(env: Env, msg: Message, t: Calendar)
    ensures t.year >= 0 ==> IsNumber(Text('C', env, msg, t), 2, t.year % 100)
    ensures t.year < 0 && (-t.year) % 100 != 0 ==> IsSigned(Text('C', env, msg, t), -((-t.year) % 100))
    ensures t.year < 0 && (-t.year) % 100 == 0 ==> Text('C', env, msg, t) == "00"
  {
    YearText(env, msg, t);
    SignedPair(t.year);
  }

  lemma SignedPair(n: int)
    ensures n >= 0 ==> IsNumber(Pad2(Remainder100(n)), 2, n % 100)
    ensures n < 0 && (-n) % 100 != 0 ==> IsSigned(Pad2(Remainder100(n)), -((-n) % 100))
    ensures n < 0 && (-n) % 100 == 0 ==> Pad2(Remainder100(n)) == "00"
  {
    if n >= 0 {
      Pad2IsNumber(n % 100);
    } else {
      PrintedIsSigned(-((-n) % 100));
    }
  }

  /** The names of days and months. */
  lemma NameFields(env: Env, msg: Message, t: Calendar)
    ensures Text('a', env, msg, t) == ["Sun", "Mon", "Tue", "Wed", "Thu", "Fri", "Sat"][t.weekday]
    ensures Text('A', env, msg, t)
         == ["Sunday", "Monday", "Tuesday", "Wednesday", "Thursday", "Friday", "Saturday"][t.weekday]
    ensures Text('h', env, msg, t) == Text('b', env, msg, t)
    ensures Text('b', env, msg, t)
         == ["Jan", "Feb", "Mar", "Apr", "May", "Jun", "Jul", "Aug", "Sept", "Oct", "Nov", "Dec"][t.month]
    ensures Text('B', env, msg, t)
         == ["January", "February", "March", "April", "May", "June", "July", "August", "September", "October",
             "November", "December"][t.month]
  {
  }

  lemma DateTexts(env: Env, msg: Message, t: Calendar)
    ensures Text('a', env, msg, t) == ShortDay(t) && Text('b', env, msg, t) == MONTHS[t.month]
    ensures Text('T', env, msg, t) == ClockTime(t) && Text('c', env, msg, t) == DateAndTime(t)
  {
  }

  lemma PairTexts(env: Env, msg: Message, t: Calendar)
    ensures Text('m', env, msg, t) == Pad2(t.month + 1) && Text('d', env, msg, t) == Pad2(t.day)
  {
  }

  /** The date and time is made of the fields for its parts, with the day as a plain numeral. */
  lemma DateAndTimeField(env: Env, msg: Message, t: Calendar) returns (day: string)
    ensures IsNumeral(day, t.day)
    ensures Text('c', env, msg, t) == Text('a', env, msg, t) + (" " + (Text('b', env, msg, t) + (" " + (day + (" "
                                      + (Text('T', env, msg, t) + (" " + Text('Y', env, msg, t))))))))
  {
    day := Digits(t.day);
    DigitsAreNumeral(t.day);
    DateTexts(env, msg, t);
    YearText(env, msg, t);
  }

  /** The fraction of the second in three, six and nine digits. */
  lemma FractionFields(env: Env, msg: Message, t: Calendar)
    ensures IsNumber(Text('e', env, msg, t), 3, msg.nanos / 1000000)
    ensures IsNumber(Text('f', env, msg, t), 6, msg.nanos / 1000)
    ensures IsNumber(Text('F', env, msg, t), 9, msg.nanos)
  {
    FractionNumbers(msg.nanos);
  }

  lemma FractionNumbers(n: Nanos)
    ensures IsNumber(PadUint(n / 1000000, 3), 3, n / 1000000)
    ensures IsNumber(PadUint(n / 1000, 6), 6, n / 1000) && IsNumber(PadUint(n, 9), 9, n)
  {
    assert TenTo(3) == 1000 && TenTo(6) == 1000000 && TenTo(9) == 1000000000;
    PadUintIsNumber(n / 1000000, 3);
    PadUintIsNumber(n / 1000, 6);
    PadUintIsNumber(n, 9);
  }

  /** The seconds since the epoch, which may be before it. */
  lemma EpochField(env: Env, msg: Message, t: Calendar)
    ensures IsSigned(Text('E', env, msg, t), msg.secs)
  {
    PrintedIsSigned(msg.secs);
  }

  /** The thread and the process. */
  lemma NumeralFields(env: Env, msg: Message, t: Calendar)
    ensures IsNumeral(Text('t', env, msg, t), msg.thread) && IsNumeral(Text('P', env, msg, t), env.pid)
  {
    DigitsAreNumeral(msg.thread);
    DigitsAreNumeral(env.pid);
  }

  /** The parts of the message itself. */
  lemma MessageFields(env: Env, msg: Message, t: Calendar)
    ensures Text('n', env, msg, t) == msg.name && Text('v', env, msg, t) == msg.payload
    ensures Text('l', env, msg, t) == msg.level && Text('L', env, msg, t) == msg.shortLevel
  {
  }

  /** The flags whose text comes from outside. */
  lemma ClockFlagFields(env: Env, msg: Message, t: Calendar)
    ensures Text('z', env, msg, t) == env.clock('z', msg) && Text('u', env, msg, t) == env.clock('u', msg)
    ensures Text('i', env, msg, t) == env.clock('i', msg) && Text('o', env, msg, t) == env.clock('o', msg)
    ensures Text('O', env, msg, t) == env.clock('O', msg)
  {
  }

  /** The last part of a path. */
  predicate IsLastPart(path: string, part: string) {
    && |part| <= |path| && path[|path| - |part|..] == part && '/' !in part
    && (|part| < |path| ==> path[|path| - |part| - 1] == '/')
  }

  lemma BaseNameIsLastPart(path: string)
    ensures IsLastPart(path, BaseName(path))
  {
    var i := LastIndex(path, '/');
    if i.Nowhere? {
      assert path[|path| - |path|..] == path;
    }
  }

  /** Without a place in the source its flags show nothing at all. */
  lemma NoSourceFields(env: Env, msg: Message, t: Calendar)
    requires msg.source.line == 0
    ensures FieldOf('@', env, msg, t) == FieldOf('s', env, msg, t) == FieldOf('g', env, msg, t) == Absent
    ensures FieldOf('#', env, msg, t) == FieldOf('!', env, msg, t) == Absent
  {
  }

  /** The place in the source: file, function and line. */
  lemma SourceFields(env: Env, msg: Message, t: Calendar)
    requires msg.source.line > 0
    ensures Text('g', env, msg, t) == msg.source.filename && Text('!', env, msg, t) == msg.source.funcname
    ensures IsNumeral(Text('#', env, msg, t), msg.source.line)
  {
    LineField(env, msg, t);
    DigitsAreNumeral(msg.source.line);
  }

  lemma LineField(env: Env, msg: Message, t: Calendar)
    requires msg.source.line > 0
    ensures Text('#', env, msg, t) == Digits(msg.source.line) && Text('s', env, msg, t) == BaseName(msg.source.filename)
  {
  }

  /** The short file name is the last part of its path. */
  lemma ShortNameField(env: Env, msg: Message, t: Calendar)
    requires msg.source.line > 0
    ensures IsLastPart(msg.source.filename, Text('s', env, msg, t))
  {
    LineField(env, msg, t);
    BaseNameIsLastPart(msg.source.filename);
  }

  lemma SourcePlaceField(env: Env, msg: Message, t: Calendar)
    requires msg.source.line > 0
    ensures Text('@', env, msg, t) == msg.source.filename + ":" + Text('#', env, msg, t)
  {
  }

  /** The default format: the date, what stands before the level, and what stands behind it. */
  function DefaultDate(env: Env, msg: Message, t: Calendar): string {
    "[" + Text('Y', env, msg, t) + "-" + Text('m', env, msg, t) + "-" + Text('d', env, msg, t) + " "
    + Text('T', env, msg, t) + "."
  }

  function DefaultName(env: Env, msg: Message, t: Calendar): string {
    Text('e', env, msg, t) + "] " + (if msg.name != "" then "[" + msg.name + "] " else "") + "["
  }

  function DefaultBack(env: Env, msg: Message, t: Calendar): string {
    "] "
    + (if msg.source.line == 0 then "" else "[" + Text('s', env, msg, t) + ":" + Text('#', env, msg, t) + "] ")
    + msg.payload
  }

  lemma DefaultDateParts(env: Env, msg: Message, t: Calendar)
    ensures DefaultDate(env, msg, t) == DateText(t)
  {
    YearText(env, msg, t);
    PairTexts(env, msg, t);
    DateTexts(env, msg, t);
  }

  lemma DefaultNameParts(env: Env, msg: Message, t: Calendar)
    ensures DefaultName(env, msg, t) == BeforeLevel(msg)
  {
  }

  lemma DefaultBackParts(env: Env, msg: Message, t: Calendar)
    ensures DefaultBack(env, msg, t) == AfterLevel(msg)
  {
  }

  /**
   * The default format: the date and time in brackets, year first, to the millisecond; the logger's name in brackets
   * if it has one; the level in brackets, which is the part to be coloured; the place in the source in brackets if
   * there is one; and the message.
   */
  lemma DefaultFormat(p: Padding, env: Env, msg: Message, t: Calendar, out: Output)
    ensures var front := out.text + DefaultDate(env, msg, t) + DefaultName(env, msg, t);
            FlagMeaning('+', p, env, msg, t, out)
            == Some(Output(front + msg.level + DefaultBack(env, msg, t), |front|, |front| + |msg.level|))
  {
    DefaultDateParts(env, msg, t);
    DefaultNameParts(env, msg, t);
    DefaultBackParts(env, msg, t);
    DefaultMeaning(p, env, msg, t, out);
  }

  lemma DefaultMeaning(p: Padding, env: Env, msg: Message, t: Calendar, out: Output)
    ensures var front := out.text + DateText(t) + BeforeLevel(msg);
            FlagMeaning('+', p, env, msg, t, out)
            == Some(Output(front + msg.level + AfterLevel(msg), |front|, |front| + |msg.level|))
  {
  }

  lemma NoSpecInFront(flag: char)
    requires IsPaddedFlag(flag)
    ensures PadSpec([flag]) == (NO_PADDING, 0)
  {
    PadSpecWithoutNumeral(Left, [flag]);
    assert Sign(Left) + [flag] == [flag];
  }

  lemma FieldShown(flag: char, env: Env, msg: Message, t: Calendar, out: Output)
    requires IsPaddedFlag(flag) && FieldOf(flag, env, msg, t).Field?
    ensures FlagMeaning(flag, NO_PADDING, env, msg, t, out) == Some(Append(out, Text(flag, env, msg, t)))
  {
    var f := FieldOf(flag, env, msg, t);
    assert Padded(out.text, NO_PADDING, f.declared, f.text) == Some(out.text + f.text);
  }

  lemma OnePart(flag: char, env: Env, msg: Message, t: Calendar, out: Output)
    requires PadSpec([flag]) == (NO_PADDING, 0)
    ensures Meaning("%" + [flag], env, msg, t, out) == FlagMeaning(flag, NO_PADDING, env, msg, t, out)
  {
    var pattern := "%" + [flag];
    assert pattern[1..] == [flag] && pattern[1 + 0..] == [flag] && [flag][1..] == "";
    var next := FlagMeaning(flag, NO_PADDING, env, msg, t, out);
    if next.Some? {
      assert Meaning("", env, msg, t, next.value) == next;
    }
  }

  /** A percent sign and a flag mean the text of that field behind what there is. */
  lemma FlagMeans(flag: char, env: Env, msg: Message, t: Calendar, out: Output)
    requires IsPaddedFlag(flag) && FieldOf(flag, env, msg, t).Field?
    ensures Meaning("%" + [flag], env, msg, t, out) == Some(Append(out, Text(flag, env, msg, t)))
  {
    NoSpecInFront(flag);
    OnePart(flag, env, msg, t, out);
    FieldShown(flag, env, msg, t, out);
  }

  /** A line is what the pattern means and then the end of line. */
  lemma LineEnds(pattern: string, env: Env, msg: Message)
    ensures var shown := Meaning(pattern, env, msg, env.timeOf(msg.secs), NOTHING);
            Direct(pattern, env, msg) ==
              if shown.None? then None
              else Some(Output(shown.value.text + env.eol, shown.value.from, shown.value.until))
  {
  }
}
