/** The first second: for which runs every pattern is shown rightly. */
module PatternTimes {
  import opened Decimal
  import opened Printing
  import opened Options
  import opened Scanning
  import opened LogFields
  import opened Patterns
  import opened PatternMeaning

  function Line(text: string, eol: string): Option<Output> {
    Some(Output(text + eol, 0, 0))
  }

  lemma LineInjective(a: string, b: string, eol: string)
    ensures Line(a, eol) == Line(b, eol) <==> a == b
  {
    if Line(a, eol) == Line(b, eol) {
      assert (a + eol)[..|a|] == a && (b + eol)[..|b|] == b;
    }
  }

  function YearLine(y: int, eol: string): Option<Output> {
    Line(Printed(y + 1900), eol)
  }

  lemma NoPadding(s: string)
    requires s != "" && !IsDigit(s[0]) && s[0] != '-' && s[0] != '='
    ensures PadSpec(s) == (NO_PADDING, 0)
  {
  }

  /** A pattern of one unpadded flag means what the flag means. */
  lemma SingleFlag(pattern: string, env: Env, msg: Message, t: Calendar, next: Output)
    requires |pattern| == 2 && pattern[0] == '%' && !IsDigit(pattern[1]) && pattern[1] != '-' && pattern[1] != '='
    requires FlagMeaning(pattern[1], NO_PADDING, env, msg, t, NOTHING) == Some(next)
    ensures Meaning(pattern, env, msg, t, NOTHING) == Some(next)
  {
    NoPadding(pattern[1..]);
    assert pattern[1..][1..] == "";
  }

  lemma Unpadded(text: string, declared: nat)
    ensures WithField(NOTHING, NO_PADDING, Field(declared, text)) == Some(Output(text, 0, 0))
  {
    assert "" + text == text;
  }

  lemma YearFlag(env: Env, msg: Message, t: Calendar)
    ensures FlagMeaning('Y', NO_PADDING, env, msg, t, NOTHING) == Some(Output(Printed(t.year + 1900), 0, 0))
  {
    Unpadded(Printed(t.year + 1900), 4);
  }

  lemma YearMeaning(pattern: string, env: Env, msg: Message, t: Calendar)
    requires pattern == "%Y"
    ensures Ended(Meaning(pattern, env, msg, t, NOTHING), env.eol) == YearLine(t.year, env.eol)
  {
    YearFlag(env, msg, t);
    SingleFlag(pattern, env, msg, t, Output(Printed(t.year + 1900), 0, 0));
  }

  lemma DateAndTimeFlag(env: Env, msg: Message, t: Calendar)
    ensures FlagMeaning('c', NO_PADDING, env, msg, t, NOTHING) == Some(Output(DateAndTime(t), 0, 0))
  {
    Unpadded(DateAndTime(t), 24);
  }

  lemma DateAndTimeMeaning(pattern: string, env: Env, msg: Message, t: Calendar)
    requires pattern == "%c"
    ensures Ended(Meaning(pattern, env, msg, t, NOTHING), env.eol) == Line(DateAndTime(t), env.eol)
  {
    DateAndTimeFlag(env, msg, t);
    SingleFlag(pattern, env, msg, t, Output(DateAndTime(t), 0, 0));
  }

  lemma PrintedSign(n: int)
    ensures Printed(n) != "" && (Printed(n)[0] == '-' <==> n < 0)
  {
    if n >= 0 {
      assert IsDigit(Digits(n)[0]);
    }
  }

  lemma PrintedInjective(m: int, n: int)
    ensures Printed(m) == Printed(n) <==> m == n
  {
    if Printed(m) == Printed(n) {
      PrintedSign(m);
      PrintedSign(n);
      DigitsRead(if m < 0 then -m else m);
      DigitsRead(if n < 0 then -n else n);
      if m < 0 {
        assert Printed(m)[1..] == Digits(-m) && Printed(n)[1..] == Digits(-n);
      }
    }
  }

  /** With the pattern of a year, a first message of second 0 is shown rightly exactly if second 0 lies in 1900. */
  lemma YearAtSecondZero(pattern: string, env: Env, msg: Message)
    requires pattern == "%Y" && msg.secs == 0
    ensures New(Start(pattern).pieces)
    ensures Formatted(Start(pattern), env, msg, NOTHING).1 == Direct(pattern, env, msg) <==> env.timeOf(0).year == 0
  {
    FirstSecondZero(pattern, env, msg);
    YearMeaning(pattern, env, msg, ZERO_TIME);
    YearMeaning(pattern, env, msg, env.timeOf(0));
    YearLineInjective(ZERO_TIME.year, env.timeOf(0).year, env.eol);
  }

  lemma YearLineInjective(y: int, z: int, eol: string)
    ensures YearLine(y, eol) == YearLine(z, eol) <==> y == z
  {
    LineInjective(Printed(y + 1900), Printed(z + 1900), eol);
    PrintedInjective(y + 1900, z + 1900);
  }

  lemma Pad2Injective(m: nat, n: nat)
    requires m < 100 && n < 100 && Pad2(m) == Pad2(n)
    ensures m == n
  {
    assert Pad2(m)[0] == Pad2(n)[0] && Pad2(m)[1] == Pad2(n)[1];
    assert m == m / 10 * 10 + m % 10 && n == n / 10 * 10 + n % 10;
  }

  lemma ShortDayInjective(v: nat, w: nat)
    requires v < 7 && w < 7 && DAYS[v][..3] == DAYS[w][..3]
    ensures v == w
  {
    assert DAYS[v][..3][0] == DAYS[v][0] && DAYS[v][..3][1] == DAYS[v][1];
    assert DAYS[w][..3][0] == DAYS[w][0] && DAYS[w][..3][1] == DAYS[w][1];
  }

  /** The first three letters tell a month. */
  lemma MonthInjective(m: nat, n: nat)
    requires m < 12 && n < 12
    requires forall k :: 0 <= k < 3 ==> MONTHS[m][k] == MONTHS[n][k]
    ensures m == n
  {
    assert MONTHS[m][0] == MONTHS[n][0] && MONTHS[m][1] == MONTHS[n][1] && MONTHS[m][2] == MONTHS[n][2];
  }

  /** Equal texts that start with equally long parts have equal parts. */
  lemma SplitEqual(a: string, s: string, b: string, t: string)
    requires a + s == b + t && |a| == |b|
    ensures a == b && s == t
  {
    assert a == (a + s)[..|a|] && b == (b + t)[..|b|];
    assert s == (a + s)[|a|..] && t == (b + t)[|b|..];
  }

  lemma SplitAtBlank(a: string, s: string, b: string, t: string)
    requires a + (" " + s) == b + (" " + t) && |a| == |b|
    ensures a == b && s == t
  {
    SplitEqual(a, " " + s, b, " " + t);
    SplitEqual(" ", s, " ", t);
  }

  /** A number in front of a blank ends there. */
  lemma NumberEnds(m: nat, s: string, n: nat, t: string)
    requires Digits(m) + (" " + s) == Digits(n) + (" " + t)
    ensures m == n && s == t
  {
    FirstIndexSplit(Digits(m), " " + s, NOT_DIGIT);
    FirstIndexSplit(Digits(n), " " + t, NOT_DIGIT);
    SplitAtBlank(Digits(m), s, Digits(n), t);
    DigitsRead(m);
    DigitsRead(n);
  }

  lemma ClockTimeInjective(t: Calendar, u: Calendar)
    requires ClockTime(t) == ClockTime(u)
    ensures t.hour == u.hour && t.minute == u.minute && t.second == u.second
  {
    SplitEqual(HourMinute(t) + ":", Pad2(t.second), HourMinute(u) + ":", Pad2(u.second));
    SplitEqual(HourMinute(t), ":", HourMinute(u), ":");
    SplitEqual(Pad2(t.hour) + ":", Pad2(t.minute), Pad2(u.hour) + ":", Pad2(u.minute));
    SplitEqual(Pad2(t.hour), ":", Pad2(u.hour), ":");
    Pad2Injective(t.hour, u.hour);
    Pad2Injective(t.minute, u.minute);
    Pad2Injective(t.second, u.second);
  }

  lemma FromClockInjective(t: Calendar, u: Calendar)
    requires FromClock(t) == FromClock(u)
    ensures t.year == u.year && t.hour == u.hour && t.minute == u.minute && t.second == u.second
  {
    SplitAtBlank(ClockTime(t), Printed(t.year + 1900), ClockTime(u), Printed(u.year + 1900));
    ClockTimeInjective(t, u);
    PrintedInjective(t.year + 1900, u.year + 1900);
  }

  lemma FromDayInjective(t: Calendar, u: Calendar)
    requires FromDay(t) == FromDay(u)
    ensures t.day == u.day && FromClock(t) == FromClock(u)
  {
    NumberEnds(t.day, FromClock(t), u.day, FromClock(u));
  }

  lemma MonthThenDay(m: nat, s: string, n: nat, r: string)
    requires m < 12 && n < 12 && MONTHS[m] + (" " + s) == MONTHS[n] + (" " + r)
    ensures m == n && s == r
  {
    forall k | 0 <= k < 3
      ensures MONTHS[m][k] == MONTHS[n][k]
    {
      assert (MONTHS[m] + (" " + s))[k] == MONTHS[m][k] && (MONTHS[n] + (" " + r))[k] == MONTHS[n][k];
    }
    MonthInjective(m, n);
    SplitAtBlank(MONTHS[m], s, MONTHS[n], r);
  }

  /** The date and time shows all seven parts of a time. */
  lemma DateAndTimeInjective(t: Calendar, u: Calendar)
    requires DateAndTime(t) == DateAndTime(u)
    ensures t == u
  {
    var s, r := MONTHS[t.month] + (" " + FromDay(t)), MONTHS[u.month] + (" " + FromDay(u));
    SplitAtBlank(ShortDay(t), s, ShortDay(u), r);
    ShortDayInjective(t.weekday, u.weekday);
    MonthThenDay(t.month, FromDay(t), u.month, FromDay(u));
    FromDayInjective(t, u);
    FromClockInjective(t, u);
  }

  /** The pattern of the date and time alone tells whether second 0 is the zero time. */
  lemma DateAndTimeAtSecondZero(pattern: string, env: Env, msg: Message)
    requires pattern == "%c" && msg.secs == 0
    ensures New(Start(pattern).pieces)
    ensures Formatted(Start(pattern), env, msg, NOTHING).1 == Direct(pattern, env, msg)
       <==> env.timeOf(0) == ZERO_TIME
  {
    FirstSecondZero(pattern, env, msg);
    DateAndTimeMeaning(pattern, env, msg, ZERO_TIME);
    DateAndTimeMeaning(pattern, env, msg, env.timeOf(0));
    DateAndTimeLineInjective(ZERO_TIME, env.timeOf(0), env.eol);
  }

  lemma DateAndTimeLineInjective(t: Calendar, u: Calendar, eol: string)
    ensures Line(DateAndTime(t), eol) == Line(DateAndTime(u), eol) <==> t == u
  {
    LineInjective(DateAndTime(t), DateAndTime(u), eol);
    if DateAndTime(t) == DateAndTime(u) {
      DateAndTimeInjective(t, u);
    }
  }

  /**
   * Exactly when every pattern is shown rightly: if the first message is not of second 0, or second 0 is the zero
   * time.
   */
  lemma RightForEveryPattern(env: Env, msgs: seq<Message>)
    ensures (forall pattern :: Run(pattern, env, msgs) == Directs(pattern, env, msgs))
       <==> msgs == [] || msgs[0].secs != 0 || env.timeOf(0) == ZERO_TIME
  {
    if msgs == [] || msgs[0].secs != 0 || env.timeOf(0) == ZERO_TIME {
      forall pattern
        ensures Run(pattern, env, msgs) == Directs(pattern, env, msgs)
      {
        RunMeansPattern(pattern, env, msgs);
      }
    } else {
      var pattern := "%c";
      DateAndTimeAtSecondZero(pattern, env, msgs[0]);
      if Run(pattern, env, msgs) == Directs(pattern, env, msgs) {
        RunStarts(pattern, env, msgs);
      }
    }
  }

  lemma RunStarts(pattern: string, env: Env, msgs: seq<Message>)
    requires msgs != [] && New(Start(pattern).pieces)
    requires Run(pattern, env, msgs) == Directs(pattern, env, msgs)
    ensures Formatted(Start(pattern), env, msgs[0], NOTHING).1 == Direct(pattern, env, msgs[0])
  {
    assert Run(pattern, env, msgs)[0] == Directs(pattern, env, msgs)[0];
  }
}
