/** The text behind every pattern flag, and the length that each flag announces to the padder. */
module LogFields {
  import opened Decimal
  import opened Printing
  import opened FileNames

  datatype Time = Time(year: int, month: nat, day: nat, weekday: nat, hour: nat, minute: nat, second: nat)

  /** Broken-down time within the C library's ranges; the year counts from 1900. */
  type Calendar = t: Time
    | t.month < 12 && t.day <= 31 && t.weekday < 7 && t.hour < 24 && t.minute < 60 && t.second <= 60
    witness Time(0, 0, 0, 0, 0, 0, 0)

  const ZERO_TIME: Calendar := Time(0, 0, 0, 0, 0, 0, 0)

  datatype Source = Source(filename: string, line: nat, funcname: string)

  type Nanos = n: nat | n < 1000000000

  datatype Message = Message(
    secs: int, nanos: Nanos, name: string, level: string, shortLevel: string, thread: nat, source: Source,
    payload: string)

  /** What the formatter takes from outside; `clock` is the text of the flags that keep time of their own. */
  datatype Env = Env(timeOf: int -> Calendar, clock: (char, Message) -> string, pid: nat, eol: string)

  datatype Field = Absent | Field(declared: nat, text: string)

  const DAYS: seq<string> := ["Sunday", "Monday", "Tuesday", "Wednesday", "Thursday", "Friday", "Saturday"]
  const MONTHS: seq<string> := ["Jan", "Feb", "Mar", "Apr", "May", "Jun", "Jul", "Aug", "Sept", "Oct", "Nov", "Dec"]
  const FULL_MONTHS: seq<string> :=
    ["January", "February", "March", "April", "May", "June", "July", "August", "September", "October", "November",
     "December"]

  function Zeros(n: int): (s: string)
    ensures |s| == if n < 0 then 0 else n
  {
    if n <= 0 then "" else "0" + Zeros(n - 1)
  }

  function PadUint(n: nat, width: nat): string {
    Zeros(width - |Digits(n)|) + Digits(n)
  }

  function Pad2(n: int): (s: string)
    ensures 0 <= n < 100 ==> |s| == 2
  {
    if 0 <= n < 100 then [DigitChar(n / 10), DigitChar(n % 10)] else Printed(n)
  }

  /** The remainder of C's %, which has the sign of the dividend. */
  function Remainder100(n: int): int {
    if n < 0 then -(-n % 100) else n % 100
  }

  function Hour12(t: Calendar): (h: nat)
    ensures h <= 12
  {
    if t.hour > 12 then t.hour - 12 else t.hour
  }

  function AmPm(t: Calendar): (s: string)
    ensures |s| == 2
  {
    if t.hour >= 12 then "PM" else "AM"
  }

  function HourMinute(t: Calendar): (s: string)
    ensures |s| == 5
  {
    Pad2(t.hour) + ":" + Pad2(t.minute)
  }

  function ClockTime(t: Calendar): (s: string)
    ensures |s| == 8
  {
    HourMinute(t) + ":" + Pad2(t.second)
  }

  function ShortDate(t: Calendar): string {
    Pad2(t.month + 1) + "/" + Pad2(t.day) + "/" + Pad2(Remainder100(t.year))
  }

  function ShortDay(t: Calendar): (s: string)
    ensures |s| == 3
  {
    DAYS[t.weekday][..3]
  }

  function DateAndTime(t: Calendar): string {
    ShortDay(t) + (" " + (MONTHS[t.month] + (" " + FromDay(t))))
  }

  function FromDay(t: Calendar): string {
    Digits(t.day) + (" " + FromClock(t))
  }

  function FromClock(t: Calendar): string {
    ClockTime(t) + (" " + Printed(t.year + 1900))
  }

  function BaseName(path: string): string {
    match LastIndex(path, '/')
    case Nowhere => path
    case At(i) => path[i + 1..]
  }

  function Exactly(text: string): Field {
    Field(|text|, text)
  }

  predicate IsTimeFlag(flag: char) {
    || flag == 'a' || flag == 'A' || flag == 'b' || flag == 'h' || flag == 'B' || flag == 'c'
    || flag == 'C' || flag == 'Y' || flag == 'D' || flag == 'x' || flag == 'm' || flag == 'd'
    || flag == 'H' || flag == 'I' || flag == 'M' || flag == 'S' || flag == 'p' || flag == 'R'
    || flag == 'r' || flag == 'T' || flag == 'X'
  }

  predicate IsMessageFlag(flag: char) {
    || flag == 'n' || flag == 'l' || flag == 'L' || flag == 't' || flag == 'v' || flag == 'e'
    || flag == 'f' || flag == 'F' || flag == 'E' || flag == 'P'
  }

  predicate IsSourceFlag(flag: char) {
    || flag == '@' || flag == 's' || flag == 'g' || flag == '#' || flag == '!'
  }

  /** Flags that keep state of their own: offset to UTC and time since the last message. */
  predicate IsClockFlag(flag: char) {
    || flag == 'z' || flag == 'u' || flag == 'i' || flag == 'o' || flag == 'O'
  }

  /** The flags whose text goes through the padder. */
  predicate IsPaddedFlag(flag: char) {
    IsTimeFlag(flag) || IsMessageFlag(flag) || IsSourceFlag(flag) || IsClockFlag(flag)
  }

  function TimeField(flag: char, t: Calendar): Field
    requires IsTimeFlag(flag)
  {
    match flag
    case 'a' => Exactly(ShortDay(t))
    case 'A' => Exactly(DAYS[t.weekday])
    case 'b' => Exactly(MONTHS[t.month])
    case 'h' => Exactly(MONTHS[t.month])
    case 'B' => Exactly(FULL_MONTHS[t.month])
    case 'c' => Field(24, DateAndTime(t))
    case 'C' => Field(2, Pad2(Remainder100(t.year)))
    case 'Y' => Field(4, Printed(t.year + 1900))
    case 'D' => Field(10, ShortDate(t))
    case 'x' => Field(10, ShortDate(t))
    case 'm' => Field(2, Pad2(t.month + 1))
    case 'd' => Field(2, Pad2(t.day))
    case 'H' => Field(2, Pad2(t.hour))
    case 'I' => Field(2, Pad2(Hour12(t)))
    case 'M' => Field(2, Pad2(t.minute))
    case 'S' => Field(2, Pad2(t.second))
    case 'p' => Field(2, AmPm(t))
    case 'R' => Field(5, HourMinute(t))
    case 'r' => Field(11, Pad2(Hour12(t)) + ":" + Pad2(t.minute) + ":" + Pad2(t.second) + " " + AmPm(t))
    case _ => Field(8, ClockTime(t))
  }

  function MessageField(flag: char, env: Env, msg: Message): Field
    requires IsMessageFlag(flag)
  {
    match flag
    case 'n' => Exactly(msg.name)
    case 'l' => Exactly(msg.level)
    case 'L' => Exactly(msg.shortLevel)
    case 't' => Exactly(Digits(msg.thread))
    case 'v' => Exactly(msg.payload)
    case 'e' => Field(3, PadUint(msg.nanos / 1000000, 3))
    case 'f' => Field(6, PadUint(msg.nanos / 1000, 6))
    case 'F' => Field(9, PadUint(msg.nanos, 9))
    case 'E' => Field(10, Printed(msg.secs))
    case _ => Exactly(Digits(env.pid))
  }

  /** Nothing at all, not even padding, if the message has no source location. */
  function SourceField(flag: char, source: Source): Field
    requires IsSourceFlag(flag)
  {
    if source.line == 0 then Absent
    else
      match flag
      case '@' => Exactly(source.filename + ":" + Digits(source.line))
      case 's' => Exactly(BaseName(source.filename))
      case 'g' => Exactly(source.filename)
      case '#' => Exactly(Digits(source.line))
      case _ => Exactly(source.funcname)
  }

  function FieldOf(flag: char, env: Env, msg: Message, t: Calendar): Field
    requires IsPaddedFlag(flag)
  {
    if IsTimeFlag(flag) then TimeField(flag, t)
    else if IsMessageFlag(flag) then MessageField(flag, env, msg)
    else if IsSourceFlag(flag) then SourceField(flag, msg.source)
    else Exactly(env.clock(flag, msg))
  }

  /** The part of the default format that is the same for all messages of a second. */
  function DateText(t: Calendar): string {
    "[" + Printed(t.year + 1900) + "-" + Pad2(t.month + 1) + "-" + Pad2(t.day) + " " + ClockTime(t) + "."
  }

  function BeforeLevel(msg: Message): string {
    PadUint(msg.nanos / 1000000, 3) + "] " + (if |msg.name| > 0 then "[" + msg.name + "] " else "") + "["
  }

  function AfterLevel(msg: Message): string {
    "] "
    + (if msg.source.line == 0 then "" else "[" + BaseName(msg.source.filename) + ":" + Digits(msg.source.line) + "] ")
    + msg.payload
  }

  /** The announced length is the real one. */
  predicate Honest(f: Field) {
    f.Field? ==> f.declared == |f.text|
  }

  lemma {:induction false} DigitsFit(n: nat, width: nat, bound: nat)
    requires n < bound && width >= 1 && bound == TenTo(width)
    ensures |Digits(n)| <= width
  {
    if width > 1 && n >= 10 {
      DigitsFit(n / 10, width - 1, TenTo(width - 1));
    }
  }

  function TenTo(width: nat): nat {
    if width == 0 then 1 else 10 * TenTo(width - 1)
  }

  /** All message flags but %E announce their length, and %E does exactly for ten-character seconds. */
  lemma MessageFieldsHonest(flag: char, env: Env, msg: Message)
    requires IsMessageFlag(flag)
    ensures Honest(MessageField(flag, env, msg)) <==> (flag == 'E' ==> |Printed(msg.secs)| == 10)
  {
    DigitsFit(msg.nanos / 1000000, 3, 1000);
    DigitsFit(msg.nanos / 1000, 6, 1000000);
    DigitsFit(msg.nanos, 9, 1000000000);
  }

  lemma {:induction false} DigitsLength(n: nat, width: nat)
    requires width >= 1
    ensures |Digits(n)| == width <==> n < TenTo(width) && (width > 1 ==> n >= TenTo(width - 1))
  {
    if width > 1 && n >= 10 {
      DigitsLength(n / 10, width - 1);
    }
  }

  lemma PrintedInFour(n: int)
    ensures |Printed(n)| == 4 <==> 1000 <= n < 10000 || -1000 < n <= -100
  {
    DigitsLength(if n < 0 then -n else n, if n < 0 then 3 else 4);
    assert TenTo(3) == 1000 && TenTo(4) == 10000;
  }

  lemma Pad2Length(n: int)
    requires -100 < n < 100
    ensures |Pad2(n)| == if n > -10 then 2 else 3
  {
    if n < 0 {
      DigitsLength(-n, if n > -10 then 1 else 2);
    }
  }

  /** The parts of the date and time whose length is not fixed. */
  function VariableLength(t: Calendar): nat {
    |MONTHS[t.month]| + |Digits(t.day)| + |Printed(t.year + 1900)|
  }

  lemma DateAndTimeLength(t: Calendar)
    ensures |TimeField('c', t).text| == 15 + VariableLength(t)
  {
    assert |ShortDay(t)| == 3;
  }

  lemma ShortDateLength(t: Calendar)
    ensures |TimeField('D', t).text| == if Remainder100(t.year) > -10 then 8 else 9
  {
    Pad2Length(Remainder100(t.year));
  }

  lemma DateFieldsHonest(t: Calendar)
    ensures Honest(TimeField('c', t)) <==> VariableLength(t) == 9
    ensures Honest(TimeField('C', t)) <==> Remainder100(t.year) > -10
    ensures Honest(TimeField('Y', t)) <==> -900 <= t.year < 8100 || -2900 < t.year <= -2000
    ensures !Honest(TimeField('D', t)) && !Honest(TimeField('x', t))
  {
    DateAndTimeLength(t);
    Pad2Length(Remainder100(t.year));
    PrintedInFour(t.year + 1900);
    ShortDateLength(t);
  }

  /** Exactly when a time flag announces its length: three depend on the date, and the short date never does. */
  lemma TimeFieldsHonest(flag: char, t: Calendar)
    requires IsTimeFlag(flag)
    ensures Honest(TimeField(flag, t)) <==>
              || flag !in "cCYDx"
              || (flag == 'c' && VariableLength(t) == 9)
              || (flag == 'C' && Remainder100(t.year) > -10)
              || (flag == 'Y' && (-900 <= t.year < 8100 || -2900 < t.year <= -2000))
  {
    if flag in "cCYDx" {
      DateFieldsHonest(t);
    } else if flag in "aAbhB" {
      NameFieldsHonest(flag, t);
    } else {
      ClockFieldsHonest(flag, t);
    }
  }

  lemma NameFieldsHonest(flag: char, t: Calendar)
    requires flag in "aAbhB"
    ensures Honest(TimeField(flag, t))
  {
  }

  lemma ClockFieldsHonest(flag: char, t: Calendar)
    requires flag in "mdHIMSpRrTX"
    ensures Honest(TimeField(flag, t))
  {
  }

  /** In a year of four digits the date and time is as long as announced if month and day take five characters. */
  lemma DateAndTimeInFourDigitYears(t: Calendar)
    requires -900 <= t.year < 8100
    ensures Honest(TimeField('c', t)) <==> (t.day >= 10 <==> t.month != 8)
  {
    DateFieldsHonest(t);
    PrintedInFour(t.year + 1900);
    DigitsLength(t.day, 2);
    DigitsLength(t.day, 1);
    assert TenTo(1) == 10 && TenTo(2) == 100;
    assert |MONTHS[t.month]| == if t.month == 8 then 4 else 3;
  }

  /** The fifth of August 2021, a Thursday at noon, takes 23 of the 24 characters that are announced. */
  lemma FifthOfAugust()
    ensures var f := TimeField('c', Time(121, 7, 5, 4, 12, 0, 0)); f.declared == 24 && |f.text| == 23
  {
    var t: Calendar := Time(121, 7, 5, 4, 12, 0, 0);
    DateAndTimeLength(t);
    PrintedInFour(2021);
  }

  /** The hour of %I is one of a twelve-hour clock except after midnight, where it is 00. */
  lemma TwelveHourClock(t: Calendar)
    ensures 1 <= Hour12(t) <= 12 <==> t.hour != 0
    ensures TimeField('I', t).text == "00" <==> t.hour == 0
  {
    Pad2OfZero(Hour12(t));
  }

  lemma Pad2OfZero(n: nat)
    requires n < 100
    ensures Pad2(n) == "00" <==> n == 0
  {
    if Pad2(n) == "00" {
      assert Pad2(n)[0] == '0' && Pad2(n)[1] == '0';
    }
  }
}
