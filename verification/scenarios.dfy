/** The concrete scenarios of the engine's test suite, stated on the model
    of the current cut: an instance parsed from "2019-05-15 10:20:30" in the
    default template, read back through the getters and toString, moved,
    bounded with startOf and endOf, and compared. A parse reads its text
    setter by setter from the clock, so a clock day that the parsed month
    lacks moves the result one month on (ReadFields). May has 31 days, so
    every scenario built on the sample and on May texts holds for every
    clock, and so do those whose June texts are compared at a key where
    July gives the same answer. Two do not: the leap-day move needs a clock
    day up to 29, and isAfter against April needs one up to 30;
    MoveLeapDayRolled and CompareMonthEarlierRolled give the engine's
    answers on the other days. */
module Scenarios {
  import opened Wrappers
  import opened Numbers
  import opened Calendar
  import opened Tokens
  import opened Formatter
  import opened Parser
  import opened Moments

  /** The default rendering of a field record: unpadded year, then padded
      month (one-based), date, hours, minutes and seconds. */
  function DefaultText(v: DateFields): string
  {
    NumToString(v.year) + "-" + FormatNum(v.month0 + 1) + "-" + FormatNum(v.date)
      + " " + FormatNum(v.hours) + ":" + FormatNum(v.minutes) + ":" + FormatNum(v.seconds)
  }

  /** toString in the default template renders the instant's fields. */
  lemma RendersFields(m: Mymont)
    requires m.formatStr == DefaultFormat
    ensures ToString(m, None) == DefaultText(FieldsOf(m.time))
  {
    var t := m.time;
    assert ToString(m, None) == FormatDate(t, DefaultFormat);
    FormatDefault(t);
    DefaultTextOfStringify(t);
  }

  lemma DefaultTextOfStringify(t: int)
    ensures DefaultText(FieldsOf(t))
      == Stringify(Year, t) + "-" + Stringify(Month, t) + "-" + Stringify(Date, t)
         + " " + Stringify(Hours, t) + ":" + Stringify(Minutes, t) + ":" + Stringify(Seconds, t)
  {
  }

  /** The fields the engine reads from the default rendering of v: v's
      own when the clock fits v's month, otherwise v's one month on. */
  function ReadFields(v: DateFields, now: int): DateFields
  {
    if ClockFits(now, v.year, v.month0) then v else v.(month0 := v.month0 + 1)
  }

  lemma ParseTextTime(v: DateFields, now: int)
    requires ValidFields(v) && 1000 <= v.year <= 9999
    ensures ValidFields(ReadFields(v, now))
    ensures Parse(DefaultText(v), None, now).time == TimeOf(ReadFields(v, now).(ms := now % 1000))
  {
    var m := Mymont(TimeOf(v), DefaultFormat);
    FieldsOfTimeOf(v);
    RendersFields(m);
    assert Parse(DefaultText(v), None, now).time == ParseDateSpec(FormatDate(m.time, DefaultFormat), DefaultFormat, now);
    ReadTime(m.time, v, now);
  }

  /** The engine's parse of the default rendering of t, whose fields are
      v: the fields it reads, with the clock's milliseconds. */
  lemma ReadTime(t: int, v: DateFields, now: int)
    requires 1000 <= v.year <= 9999 && FieldsOf(t) == v
    ensures ValidFields(ReadFields(v, now))
    ensures ParseDateSpec(FormatDate(t, DefaultFormat), DefaultFormat, now) == TimeOf(ReadFields(v, now).(ms := now % 1000))
  {
    if ClockFits(now, v.year, v.month0) {
      ReadTimeFits(t, v, now);
    } else {
      ReadTimeRolled(t, v, now);
    }
  }

  lemma ReadTimeFits(t: int, v: DateFields, now: int)
    requires 1000 <= v.year <= 9999 && FieldsOf(t) == v && ClockFits(now, v.year, v.month0)
    ensures ValidFields(v) && ReadFields(v, now) == v
    ensures ParseDateSpec(FormatDate(t, DefaultFormat), DefaultFormat, now) == TimeOf(v.(ms := now % 1000))
  {
    FieldsValid(t);
    ParseDefaultAsWritten(t, now);
    MsReplaced(t, now % 1000);
  }

  lemma ReadTimeRolled(t: int, v: DateFields, now: int)
    requires 1000 <= v.year <= 9999 && FieldsOf(t) == v && !ClockFits(now, v.year, v.month0)
    ensures ValidFields(v.(month0 := v.month0 + 1)) && ReadFields(v, now) == v.(month0 := v.month0 + 1)
    ensures ParseDateSpec(FormatDate(t, DefaultFormat), DefaultFormat, now)
      == TimeOf(v.(month0 := v.month0 + 1, ms := now % 1000))
  {
    var r := v.(month0 := v.month0 + 1, ms := now % 1000);
    assert FieldsOf(t).(month0 := MonthFromTime(t) + 1, ms := MsFromTime(now)) == r;
    assert ParseDateSpec(FormatDate(t, DefaultFormat), DefaultFormat, now) == TimeOf(r) by {
      SpecRollsOver(t, now);
    }
    FieldsValid(t);
    RolledValid(v, now);
  }

  /** Parsing the default rendering of valid fields with a four-digit year
      gives the fields the engine reads, with the clock's milliseconds,
      whether or not the template is passed. */
  lemma ParseText(v: DateFields, now: int)
    requires ValidFields(v) && 1000 <= v.year <= 9999
    ensures ValidFields(ReadFields(v, now))
    ensures FieldsOf(Parse(DefaultText(v), None, now).time) == ReadFields(v, now).(ms := now % 1000)
    ensures Parse(DefaultText(v), Some(DefaultFormat), now) == Parse(DefaultText(v), None, now)
  {
    ParseTextTime(v, now);
    FieldsOfTimeOf(ReadFields(v, now).(ms := now % 1000));
  }

  /** Every clock fits a month of 31 days: the text is read as written. */
  lemma LongMonthRead(v: DateFields, now: int)
    requires 0 <= v.month0 < 12 && DaysInMonth(v.year, v.month0) == 31
    ensures ReadFields(v, now) == v
  {
    var c := FieldsOf(now);
    FieldsValid(now);
    DaysInMonthAtMost31(c.year, c.month0);
    assert DayAfterYear(now, v.year) <= c.date <= 31;
  }

  /** The engine reads the year, the date and the clock of the text as
      written; only the month can move. */
  lemma ReadKeepsAllButMonth(v: DateFields, now: int)
    ensures var r := ReadFields(v, now);
      r.year == v.year && r.date == v.date && r.hours == v.hours && r.minutes == v.minutes
      && r.seconds == v.seconds && r.ms == v.ms
  {
  }

  /** Fields of a whole second, with a one-based month as the tests write
      it. */
  function At(year: int, month: int, date: int, hours: int, minutes: int, seconds: int): DateFields
  {
    DateFields(year, month - 1, date, hours, minutes, seconds, 0)
  }

  /** The default rendering of such fields: the texts the tests parse and
      expect. */
  function Stamp(year: int, month: int, date: int, hours: int, minutes: int, seconds: int): string
  {
    DefaultText(At(year, month, date, hours, minutes, seconds))
  }

  /** The pieces of such a rendering. */
  lemma StampPieces(year: int, month: int, date: int, hours: int, minutes: int, seconds: int)
    ensures Stamp(year, month, date, hours, minutes, seconds)
      == NumToString(year) + "-" + FormatNum(month) + "-" + FormatNum(date)
         + " " + FormatNum(hours) + ":" + FormatNum(minutes) + ":" + FormatNum(seconds)
  {
  }

  lemma SampleText()
    ensures Stamp(2019, 5, 15, 10, 20, 30) == "2019-05-15 10:20:30"
  {
    StampPieces(2019, 5, 15, 10, 20, 30);
    Text2019();
    Text05();
    Text15();
    Text10();
    Text20();
    Text30();
  }

  lemma Text2019() ensures NumToString(2019) == "2019" { FourDigitsText(2019); }
  lemma Text2020() ensures NumToString(2020) == "2020" { FourDigitsText(2020); }
  lemma Text2021() ensures NumToString(2021) == "2021" { FourDigitsText(2021); }
  lemma Text02() ensures FormatNum(2) == "02" { FormatNumDigits(2); }
  lemma Text05() ensures FormatNum(5) == "05" { FormatNumDigits(5); }
  lemma Text10() ensures FormatNum(10) == "10" { FormatNumDigits(10); }
  lemma Text15() ensures FormatNum(15) == "15" { FormatNumDigits(15); }
  lemma Text20() ensures FormatNum(20) == "20" { FormatNumDigits(20); }
  lemma Text28() ensures FormatNum(28) == "28" { FormatNumDigits(28); }
  lemma Text29() ensures FormatNum(29) == "29" { FormatNumDigits(29); }
  lemma Text30() ensures FormatNum(30) == "30" { FormatNumDigits(30); }

  lemma Text04() ensures FormatNum(4) == "04" { FormatNumDigits(4); }
  lemma Text06() ensures FormatNum(6) == "06" { FormatNumDigits(6); }
  lemma Text09() ensures FormatNum(9) == "09" { FormatNumDigits(9); }
  lemma Text11() ensures FormatNum(11) == "11" { FormatNumDigits(11); }
  lemma Text14() ensures FormatNum(14) == "14" { FormatNumDigits(14); }
  lemma Text16() ensures FormatNum(16) == "16" { FormatNumDigits(16); }
  lemma Text19() ensures FormatNum(19) == "19" { FormatNumDigits(19); }
  lemma Text21() ensures FormatNum(21) == "21" { FormatNumDigits(21); }
  lemma Text25() ensures FormatNum(25) == "25" { FormatNumDigits(25); }
  lemma Text31() ensures FormatNum(31) == "31" { FormatNumDigits(31); }
  lemma Text50() ensures FormatNum(50) == "50" { FormatNumDigits(50); }
  lemma Text2018() ensures NumToString(2018) == "2018" { FourDigitsText(2018); }

  /** The fields of a whole second render as its stamp. */
  lemma HoldingText(v: DateFields, year: int, month: int, date: int, hours: int, minutes: int, seconds: int)
    requires Holding(v, year, month, date, hours, minutes, seconds)
    ensures DefaultText(v) == Stamp(year, month, date, hours, minutes, seconds)
  {
  }

  // ----- the texts the comparison tests pass -----

  lemma SecondsLaterText()
    ensures Stamp(2019, 5, 15, 10, 20, 31) == "2019-05-15 10:20:31"
  {
    StampPieces(2019, 5, 15, 10, 20, 31);
    Text2019();
    Text05();
    Text15();
    Text10();
    Text20();
    Text31();
  }

  lemma SecondsEarlierText()
    ensures Stamp(2019, 5, 15, 10, 20, 29) == "2019-05-15 10:20:29"
  {
    StampPieces(2019, 5, 15, 10, 20, 29);
    Text2019();
    Text05();
    Text15();
    Text10();
    Text20();
    Text29();
  }

  lemma MinutesLaterText()
    ensures Stamp(2019, 5, 15, 10, 21, 30) == "2019-05-15 10:21:30"
  {
    StampPieces(2019, 5, 15, 10, 21, 30);
    Text2019();
    Text05();
    Text15();
    Text10();
    Text21();
    Text30();
  }

  lemma MinutesWithinText()
    ensures Stamp(2019, 5, 15, 10, 20, 50) == "2019-05-15 10:20:50"
  {
    StampPieces(2019, 5, 15, 10, 20, 50);
    Text2019();
    Text05();
    Text15();
    Text10();
    Text20();
    Text50();
  }

  lemma MinutesEarlierText()
    ensures Stamp(2019, 5, 15, 10, 19, 30) == "2019-05-15 10:19:30"
  {
    StampPieces(2019, 5, 15, 10, 19, 30);
    Text2019();
    Text05();
    Text15();
    Text10();
    Text19();
    Text30();
  }

  lemma HoursLaterText()
    ensures Stamp(2019, 5, 15, 11, 20, 30) == "2019-05-15 11:20:30"
  {
    StampPieces(2019, 5, 15, 11, 20, 30);
    Text2019();
    Text05();
    Text15();
    Text11();
    Text20();
    Text30();
  }

  lemma HoursWithinText()
    ensures Stamp(2019, 5, 15, 10, 50, 30) == "2019-05-15 10:50:30"
  {
    StampPieces(2019, 5, 15, 10, 50, 30);
    Text2019();
    Text05();
    Text15();
    Text10();
    Text50();
    Text30();
  }

  lemma HoursEarlierText()
    ensures Stamp(2019, 5, 15, 9, 20, 30) == "2019-05-15 09:20:30"
  {
    StampPieces(2019, 5, 15, 9, 20, 30);
    Text2019();
    Text05();
    Text15();
    Text09();
    Text20();
    Text30();
  }

  lemma DateLaterText()
    ensures Stamp(2019, 5, 16, 10, 20, 30) == "2019-05-16 10:20:30"
  {
    StampPieces(2019, 5, 16, 10, 20, 30);
    Text2019();
    Text05();
    Text16();
    Text10();
    Text20();
    Text30();
  }

  lemma DateWithinText()
    ensures Stamp(2019, 5, 15, 20, 20, 30) == "2019-05-15 20:20:30"
  {
    StampPieces(2019, 5, 15, 20, 20, 30);
    Text2019();
    Text05();
    Text15();
    Text20();
    Text30();
  }

  lemma DateEarlierText()
    ensures Stamp(2019, 5, 14, 10, 20, 30) == "2019-05-14 10:20:30"
  {
    StampPieces(2019, 5, 14, 10, 20, 30);
    Text2019();
    Text05();
    Text14();
    Text10();
    Text20();
    Text30();
  }

  lemma JuneText()
    ensures Stamp(2019, 6, 15, 10, 20, 30) == "2019-06-15 10:20:30"
  {
    StampPieces(2019, 6, 15, 10, 20, 30);
    Text2019();
    Text06();
    Text15();
    Text10();
    Text20();
    Text30();
  }

  lemma MonthWithinText()
    ensures Stamp(2019, 5, 25, 10, 20, 30) == "2019-05-25 10:20:30"
  {
    StampPieces(2019, 5, 25, 10, 20, 30);
    Text2019();
    Text05();
    Text25();
    Text10();
    Text20();
    Text30();
  }

  lemma AprilText()
    ensures Stamp(2019, 4, 15, 10, 20, 30) == "2019-04-15 10:20:30"
  {
    StampPieces(2019, 4, 15, 10, 20, 30);
    Text2019();
    Text04();
    Text15();
    Text10();
    Text20();
    Text30();
  }

  lemma YearLaterText()
    ensures Stamp(2020, 5, 15, 10, 20, 30) == "2020-05-15 10:20:30"
  {
    StampPieces(2020, 5, 15, 10, 20, 30);
    Text2020();
    Text05();
    Text15();
    Text10();
    Text20();
    Text30();
  }

  lemma YearEarlierText()
    ensures Stamp(2018, 5, 15, 10, 20, 30) == "2018-05-15 10:20:30"
  {
    StampPieces(2018, 5, 15, 10, 20, 30);
    Text2018();
    Text05();
    Text15();
    Text10();
    Text20();
    Text30();
  }

  /** M.parse('2019-05-15 10:20:30'), the instance most tests start from. */
  function Sample(now: int): Mymont
  {
    Parse(Stamp(2019, 5, 15, 10, 20, 30), None, now)
  }

  /** The fields of the sample: 15 May 2019 10:20:30, and the clock's
      milliseconds. */
  lemma SampleFields(now: int)
    ensures Sample(now).formatStr == DefaultFormat
    ensures FieldsOf(Sample(now).time) == At(2019, 5, 15, 10, 20, 30).(ms := now % 1000)
  {
    LongMonthRead(At(2019, 5, 15, 10, 20, 30), now);
    ParseText(At(2019, 5, 15, 10, 20, 30), now);
  }

  lemma DefaultTextIgnoresMs(v: DateFields, ms: int)
    ensures DefaultText(v.(ms := ms)) == DefaultText(v)
  {
  }

  /** The getters read the fields of the instant. */
  lemma GettersRead(m: Mymont, v: DateFields)
    requires FieldsOf(m.time) == v
    ensures Get(m, Year) == v.year && Get(m, Month) == v.month0 + 1 && Get(m, Date) == v.date
      && Get(m, Hours) == v.hours && Get(m, Minutes) == v.minutes && Get(m, Seconds) == v.seconds
      && Get(m, MilliSeconds) == v.ms
  {
  }

  /** Parsing the default rendering of valid fields gives an instant whose
      getters read those fields, with the clock's milliseconds, except that
      the month is one later when the clock does not fit it. */
  lemma ParsedGetters(v: DateFields, now: int)
    requires ValidFields(v) && 1000 <= v.year <= 9999
    ensures var d := Parse(DefaultText(v), Some(DefaultFormat), now);
      Get(d, Year) == v.year && Get(d, Date) == v.date
      && Get(d, Hours) == v.hours && Get(d, Minutes) == v.minutes && Get(d, Seconds) == v.seconds
      && Get(d, MilliSeconds) == now % 1000
      && (Get(d, Month) == v.month0 + 1 <==> ClockFits(now, v.year, v.month0))
      && (!ClockFits(now, v.year, v.month0) ==> Get(d, Month) == v.month0 + 2)
  {
    ParseText(v, now);
    var d := Parse(DefaultText(v), Some(DefaultFormat), now);
    GettersRead(d, ReadFields(v, now).(ms := now % 1000));
  }

  /** ... and which prints as that text again when the clock fits its
      month. */
  lemma ParsedPrints(v: DateFields, now: int)
    requires ValidFields(v) && 1000 <= v.year <= 9999
    ensures ToString(Parse(DefaultText(v), Some(DefaultFormat), now), None) == DefaultText(ReadFields(v, now))
    ensures ClockFits(now, v.year, v.month0) ==>
      ToString(Parse(DefaultText(v), Some(DefaultFormat), now), None) == DefaultText(v)
  {
    ParseText(v, now);
    RendersFields(Parse(DefaultText(v), Some(DefaultFormat), now));
    DefaultTextIgnoresMs(ReadFields(v, now), now % 1000);
  }

  /** parse('2019-05-15 10:20:30', 'YYYY-MM-DD HH:mm:ss') reads back year
      2019, month 5, date 15, hours 10, minutes 20 and seconds 30. */
  lemma ParseScenario(now: int)
    ensures var d := Parse(Stamp(2019, 5, 15, 10, 20, 30), Some(DefaultFormat), now);
      Get(d, Year) == 2019 && Get(d, Month) == 5 && Get(d, Date) == 15
      && Get(d, Hours) == 10 && Get(d, Minutes) == 20 && Get(d, Seconds) == 30
  {
    LongMonthRead(At(2019, 5, 15, 10, 20, 30), now);
    ParsedGetters(At(2019, 5, 15, 10, 20, 30), now);
  }

  /** M.parse('2019-05-15 10:20:30').toString() prints the text again. */
  lemma ToStringScenario(now: int)
    ensures ToString(Sample(now), None) == Stamp(2019, 5, 15, 10, 20, 30)
  {
    SampleFields(now);
    RendersFields(Sample(now));
    DefaultTextIgnoresMs(At(2019, 5, 15, 10, 20, 30), now % 1000);
  }

  /** The template of the second format test: the default one with
      slashes between year, month and date. */
  const SlashFormat: string := "YYYY/MM/DD HH:mm:ss"

  const SlashPairs: seq<(char, char)> := [('/', 'M'), ('/', 'D'), (' ', 'H'), (':', 'm'), (':', 's')]

  lemma SlashTemplate()
    ensures "YYYY" + PairTemplate(SlashPairs) == SlashFormat
  {
    assert PairTemplate(SlashPairs) == "/MM/DD HH:mm:ss";
  }

  lemma SlashPairsAreSeparated()
    ensures forall i :: 0 <= i < |SlashPairs| ==>
      IsSeparator(SlashPairs[i].0, true) && IsTokenLetter(SlashPairs[i].1, true)
  {
  }

  /** The slash template renders the same fields as the default one, with
      slashes in the date. */
  lemma FormatSlashes(t: int)
    ensures FormatDate(t, SlashFormat)
      == Stringify(Year, t) + "/" + Stringify(Month, t) + "/" + Stringify(Date, t)
         + " " + Stringify(Hours, t) + ":" + Stringify(Minutes, t) + ":" + Stringify(Seconds, t)
  {
    SlashTemplate();
    SlashPairsAreSeparated();
    FormatYearPairs(t, SlashPairs);
    SlashPairText(t);
    Prefix10(Stringify(Year, t), "/", Stringify(Month, t), "/", Stringify(Date, t), " ", Stringify(Hours, t),
             ":", Stringify(Minutes, t), ":", Stringify(Seconds, t));
  }

  lemma SlashPairText(t: int)
    ensures PairText(SlashPairs, t)
      == "/" + Stringify(Month, t) + "/" + Stringify(Date, t) + " " + Stringify(Hours, t)
         + ":" + Stringify(Minutes, t) + ":" + Stringify(Seconds, t)
  {
    PairTextFive(SlashPairs, [Month, Date, Hours, Minutes, Seconds], t);
  }

  lemma SlashSampleText()
    ensures SlashText(At(2019, 5, 15, 10, 20, 30)) == "2019/05/15 10:20:30"
  {
    Text2019();
    Text05();
    Text15();
    Text10();
    Text20();
    Text30();
  }

  /** The slash rendering of a field record. */
  function SlashText(v: DateFields): string
  {
    NumToString(v.year) + "/" + FormatNum(v.month0 + 1) + "/" + FormatNum(v.date)
      + " " + FormatNum(v.hours) + ":" + FormatNum(v.minutes) + ":" + FormatNum(v.seconds)
  }

  lemma SlashTextOfStringify(t: int)
    ensures SlashText(FieldsOf(t))
      == Stringify(Year, t) + "/" + Stringify(Month, t) + "/" + Stringify(Date, t)
         + " " + Stringify(Hours, t) + ":" + Stringify(Minutes, t) + ":" + Stringify(Seconds, t)
  {
  }

  /** toString in the slash template renders the instant's fields. */
  lemma SlashFields(m: Mymont)
    ensures ToString(m, Some(SlashFormat)) == SlashText(FieldsOf(m.time))
  {
    assert ToString(m, Some(SlashFormat)) == FormatDate(m.time, SlashFormat);
    FormatSlashes(m.time);
    SlashTextOfStringify(m.time);
  }

  /** M.parse('2019-05-15 10:20:30').toString('YYYY/MM/DD HH:mm:ss') prints
      '2019/05/15 10:20:30'. */
  lemma ToStringSlashScenario(now: int)
    ensures ToString(Sample(now), Some(SlashFormat)) == "2019/05/15 10:20:30"
  {
    SampleFields(now);
    SlashFields(Sample(now));
    SlashSampleText();
  }

  // ----- day numbers of the dates the scenarios meet -----

  lemma DayNumber20180515()
    ensures MakeDay(2018, 4, 15) == 17666
  {
  }

  lemma DayNumber20190515()
    ensures MakeDay(2019, 4, 15) == 18031
  {
  }

  lemma DayNumber20190531()
    ensures MakeDay(2019, 4, 31) == 18047
  {
  }

  lemma DayNumber20190601()
    ensures MakeDay(2019, 5, 1) == 18048
  {
  }

  lemma DayNumber20190614()
    ensures MakeDay(2019, 5, 14) == 18061
  {
  }

  lemma DayNumber20191231()
    ensures MakeDay(2019, 11, 31) == 18261
  {
  }

  lemma DayNumber20200101()
    ensures MakeDay(2020, 0, 1) == 18262
  {
  }

  lemma DayNumber20200229()
    ensures MakeDay(2020, 1, 29) == 18321
  {
  }

  lemma DayNumber20200514()
    ensures MakeDay(2020, 4, 14) == 18396
  {
  }

  lemma DayNumber20200329()
    ensures MakeDay(2020, 2, 29) == 18350
  {
  }

  lemma DayNumber20210329()
    ensures MakeDay(2021, 2, 29) == 18715
  {
  }

  lemma DayNumber20210228()
    ensures MakeDay(2021, 1, 28) == 18686
  {
  }

  lemma DayNumber20190516()
    ensures MakeDay(2019, 4, 16) == 18032
  {
  }

  lemma DayNumber20190514()
    ensures MakeDay(2019, 4, 14) == 18030
  {
  }

  lemma DayNumber20190501()
    ensures MakeDay(2019, 4, 1) == 18017
  {
  }

  lemma DayNumber20190701()
    ensures MakeDay(2019, 6, 1) == 18078
  {
  }

  lemma DayNumber20190401()
    ensures MakeDay(2019, 3, 1) == 17987
  {
  }

  lemma DayNumber20190101()
    ensures MakeDay(2019, 0, 1) == 17897
  {
  }

  lemma DayNumber20180101()
    ensures MakeDay(2018, 0, 1) == 17532
  {
  }

  // ----- move -----

  /** Fields with the same clock whose days lie n apart are n days apart. */
  lemma ShiftDays(a: DateFields, b: DateFields, n: int)
    requires a.hours == b.hours && a.minutes == b.minutes && a.seconds == b.seconds && a.ms == b.ms
    requires MakeDay(b.year, b.month0, b.date) == MakeDay(a.year, a.month0, a.date) + n
    ensures TimeOf(b) == TimeOf(a) + n * 86400000
  {
  }

  /** A move that lands on the instant of valid fields gives those fields,
      in the default format. */
  lemma MoveLands(m: Mymont, op: seq<(string, int)>, b: DateFields)
    requires ValidFields(b) && TimeOf(b) == m.time + Offset(op)
    ensures Move(m, op).formatStr == DefaultFormat
    ensures FieldsOf(Move(m, op).time) == b
  {
    var t := Move(m, op).time;
    assert t == TimeOf(b);
    FieldsOfTimeOf(b);
  }

  /** Moving the parse of valid fields a by n days lands on the fields b
      when b's day lies n days after the day the engine reads and b keeps
      a's clock with the clock's milliseconds. */
  lemma MoveParsedDays(a: DateFields, now: int, op: seq<(string, int)>, n: int, b: DateFields)
    requires ValidFields(a) && 1000 <= a.year <= 9999
    requires Offset(op) == n * 86400000 && ValidFields(b)
    requires b.hours == a.hours && b.minutes == a.minutes && b.seconds == a.seconds && b.ms == now % 1000
    requires var r := ReadFields(a, now); MakeDay(b.year, b.month0, b.date) == MakeDay(r.year, r.month0, r.date) + n
    ensures FieldsOf(Move(Parse(DefaultText(a), None, now), op).time) == b
    ensures Move(Parse(DefaultText(a), None, now), op).formatStr == DefaultFormat
  {
    var d := Parse(DefaultText(a), None, now);
    var w := ReadFields(a, now).(ms := now % 1000);
    ParseText(a, now);
    TimeOfFieldsOf(d.time);
    ShiftDays(w, b, n);
    MoveLands(d, op, b);
  }

  /** move({year: 1}) counts 365 days, so 15 May 2019 lands in 2020 (on 14
      May, 2020 being a leap year). */
  lemma MoveYearUpScenario(now: int)
    ensures Get(Move(Sample(now), [("year", 1)]), Year) == 2020
  {
    var up := DateFields(2020, 4, 14, 10, 20, 30, now % 1000);
    DayNumber20190515();
    DayNumber20200514();
    LongMonthRead(At(2019, 5, 15, 10, 20, 30), now);
    MoveParsedDays(At(2019, 5, 15, 10, 20, 30), now, [("year", 1)], 365, up);
    GettersRead(Move(Sample(now), [("year", 1)]), up);
  }

  /** move({year: -1}) lands on 15 May 2018. */
  lemma MoveYearDownScenario(now: int)
    ensures Get(Move(Sample(now), [("year", -1)]), Year) == 2018
  {
    var down := DateFields(2018, 4, 15, 10, 20, 30, now % 1000);
    DayNumber20190515();
    DayNumber20180515();
    LongMonthRead(At(2019, 5, 15, 10, 20, 30), now);
    MoveParsedDays(At(2019, 5, 15, 10, 20, 30), now, [("year", -1)], -365, down);
    GettersRead(Move(Sample(now), [("year", -1)]), down);
  }

  /** From 29 February 2020, move({year: 1}) lands on 28 February 2021 at
      the same time of day, when the clock's day is at most 29. */
  lemma MoveLeapDayScenario(now: int)
    requires DateFromTime(now) <= 29
    ensures ToString(Move(Parse(Stamp(2020, 2, 29, 10, 20, 30), None, now), [("year", 1)]), None)
      == Stamp(2021, 2, 28, 10, 20, 30)
  {
    var b := At(2021, 2, 28, 10, 20, 30);
    DayNumber20200229();
    DayNumber20210228();
    ClockDayFits(now, 2020, 1);
    MoveParsedDays(At(2020, 2, 29, 10, 20, 30), now, [("year", 1)], 365, b.(ms := now % 1000));
    RendersFields(Move(Parse(Stamp(2020, 2, 29, 10, 20, 30), None, now), [("year", 1)]));
    DefaultTextIgnoresMs(b, now % 1000);
  }

  /** On the 30th or 31st the engine reads '2020-02-29 10:20:30' as 29
      March 2020, so move({year: 1}) prints 29 March 2021. */
  lemma MoveLeapDayRolled(now: int)
    requires DateFromTime(now) >= 30
    ensures ToString(Move(Parse(Stamp(2020, 2, 29, 10, 20, 30), None, now), [("year", 1)]), None)
      == Stamp(2021, 3, 29, 10, 20, 30)
  {
    var b := At(2021, 3, 29, 10, 20, 30);
    DayNumber20200329();
    DayNumber20210329();
    LateClockMisses(now, 2020, 1);
    MoveParsedDays(At(2020, 2, 29, 10, 20, 30), now, [("year", 1)], 365, b.(ms := now % 1000));
    RendersFields(Move(Parse(Stamp(2020, 2, 29, 10, 20, 30), None, now), [("year", 1)]));
    DefaultTextIgnoresMs(b, now % 1000);
  }

  /** The texts of the leap-day scenario. */
  lemma LeapDayText()
    ensures Stamp(2020, 2, 29, 10, 20, 30) == "2020-02-29 10:20:30"
  {
    StampPieces(2020, 2, 29, 10, 20, 30);
    Text2020();
    Text02();
    Text29();
    Text10();
    Text20();
    Text30();
  }

  lemma YearAfterLeapDayText()
    ensures Stamp(2021, 2, 28, 10, 20, 30) == "2021-02-28 10:20:30"
  {
    StampPieces(2021, 2, 28, 10, 20, 30);
    Text2021();
    Text02();
    Text28();
    Text10();
    Text20();
    Text30();
  }

  // ----- startOf and endOf -----

  /** startOf at a key other than milliSeconds prints the instance's fields
      truncated below the key. */
  lemma StartOfPrints(m: Mymont, f: Field)
    requires f != MilliSeconds
    ensures ToString(StartOf(m, Key(f)), None) == DefaultText(Truncate(FieldsOf(m.time), f))
  {
    StartOfFields(m, f);
    StartOfTruncates(m, f);
    RendersFields(StartOf(m, Key(f)));
  }

  /** startOf on the sample prints the sample's fields truncated below the
      key. */
  lemma StartOfSample(now: int, f: Field)
    requires f != MilliSeconds
    ensures ToString(StartOf(Sample(now), Key(f)), None) == DefaultText(Truncate(At(2019, 5, 15, 10, 20, 30), f))
  {
    SampleWithin(now);
    SampleTruncates(Sample(now), f);
  }

  lemma SampleTruncates(d: Mymont, f: Field)
    requires AtSample(d) && f != MilliSeconds
    ensures ToString(StartOf(d, Key(f)), None) == DefaultText(Truncate(At(2019, 5, 15, 10, 20, 30), f))
  {
    StartOfPrints(d, f);
    assert Truncate(FieldsOf(d.time), f) == Truncate(At(2019, 5, 15, 10, 20, 30), f);
  }

  /** startOf('year') of the sample. */
  lemma StartOfYearScenario(now: int)
    ensures ToString(StartOf(Sample(now), "year"), None) == Stamp(2019, 1, 1, 0, 0, 0)
  {
    StartOfSample(now, Year);
    assert Truncate(At(2019, 5, 15, 10, 20, 30), Year) == At(2019, 1, 1, 0, 0, 0);
  }

  /** startOf('month') of the sample. */
  lemma StartOfMonthScenario(now: int)
    ensures ToString(StartOf(Sample(now), "month"), None) == Stamp(2019, 5, 1, 0, 0, 0)
  {
    StartOfSample(now, Month);
    assert Truncate(At(2019, 5, 15, 10, 20, 30), Month) == At(2019, 5, 1, 0, 0, 0);
  }

  /** startOf('date') of the sample. */
  lemma StartOfDateScenario(now: int)
    ensures ToString(StartOf(Sample(now), "date"), None) == Stamp(2019, 5, 15, 0, 0, 0)
  {
    StartOfSample(now, Date);
    assert Truncate(At(2019, 5, 15, 10, 20, 30), Date) == At(2019, 5, 15, 0, 0, 0);
  }

  /** startOf('hours') of the sample. */
  lemma StartOfHoursScenario(now: int)
    ensures ToString(StartOf(Sample(now), "hours"), None) == Stamp(2019, 5, 15, 10, 0, 0)
  {
    StartOfSample(now, Hours);
    assert Truncate(At(2019, 5, 15, 10, 20, 30), Hours) == At(2019, 5, 15, 10, 0, 0);
  }

  /** startOf('minutes') of the sample. */
  lemma StartOfMinutesScenario(now: int)
    ensures ToString(StartOf(Sample(now), "minutes"), None) == Stamp(2019, 5, 15, 10, 20, 0)
  {
    StartOfSample(now, Minutes);
    assert Truncate(At(2019, 5, 15, 10, 20, 30), Minutes) == At(2019, 5, 15, 10, 20, 0);
  }

  /** startOf('seconds') of the sample. */
  lemma StartOfSecondsScenario(now: int)
    ensures ToString(StartOf(Sample(now), "seconds"), None) == Stamp(2019, 5, 15, 10, 20, 30)
  {
    StartOfSample(now, Seconds);
    assert Truncate(At(2019, 5, 15, 10, 20, 30), Seconds) == At(2019, 5, 15, 10, 20, 30);
  }

  /** endOf below a day prints the instance's fields with those finer than
      the key at their maximum. */
  lemma EndOfSubDayPrints(m: Mymont, f: Field)
    requires f == Date || f == Hours || f == Minutes || f == Seconds
    ensures ToString(EndOf(m, Key(f)), None) == DefaultText(Saturate(FieldsOf(m.time), f))
  {
    EndOfSubDayFields(m, f);
    RendersFields(EndOf(m, Key(f)));
  }

  lemma SampleSaturates(d: Mymont, f: Field)
    requires AtSample(d) && (f == Date || f == Hours || f == Minutes || f == Seconds)
    ensures ToString(EndOf(d, Key(f)), None) == DefaultText(Saturate(At(2019, 5, 15, 10, 20, 30), f))
  {
    EndOfSubDayPrints(d, f);
    assert Saturate(FieldsOf(d.time), f) == Saturate(At(2019, 5, 15, 10, 20, 30), f);
  }

  /** endOf below a day on the sample prints the sample's fields with those
      finer than the key at their maximum. */
  lemma EndOfSubDaySample(now: int, f: Field)
    requires f == Date || f == Hours || f == Minutes || f == Seconds
    ensures ToString(EndOf(Sample(now), Key(f)), None) == DefaultText(Saturate(At(2019, 5, 15, 10, 20, 30), f))
  {
    SampleWithin(now);
    SampleSaturates(Sample(now), f);
  }

  /** endOf('date') of the sample. */
  lemma EndOfDateScenario(now: int)
    ensures ToString(EndOf(Sample(now), "date"), None) == Stamp(2019, 5, 15, 23, 59, 59)
  {
    EndOfSubDaySample(now, Date);
    assert Saturate(At(2019, 5, 15, 10, 20, 30), Date) == At(2019, 5, 15, 23, 59, 59).(ms := 999);
    DefaultTextIgnoresMs(At(2019, 5, 15, 23, 59, 59), 999);
  }

  /** endOf('hours') of the sample. */
  lemma EndOfHoursScenario(now: int)
    ensures ToString(EndOf(Sample(now), "hours"), None) == Stamp(2019, 5, 15, 10, 59, 59)
  {
    EndOfSubDaySample(now, Hours);
    assert Saturate(At(2019, 5, 15, 10, 20, 30), Hours) == At(2019, 5, 15, 10, 59, 59).(ms := 999);
    DefaultTextIgnoresMs(At(2019, 5, 15, 10, 59, 59), 999);
  }

  /** endOf('minutes') of the sample. */
  lemma EndOfMinutesScenario(now: int)
    ensures ToString(EndOf(Sample(now), "minutes"), None) == Stamp(2019, 5, 15, 10, 20, 59)
  {
    EndOfSubDaySample(now, Minutes);
    assert Saturate(At(2019, 5, 15, 10, 20, 30), Minutes) == At(2019, 5, 15, 10, 20, 59).(ms := 999);
    DefaultTextIgnoresMs(At(2019, 5, 15, 10, 20, 59), 999);
  }

  /** endOf('seconds') of the sample. */
  lemma EndOfSecondsScenario(now: int)
    ensures ToString(EndOf(Sample(now), "seconds"), None) == Stamp(2019, 5, 15, 10, 20, 30)
  {
    EndOfSubDaySample(now, Seconds);
    assert Saturate(At(2019, 5, 15, 10, 20, 30), Seconds) == At(2019, 5, 15, 10, 20, 30).(ms := 999);
    DefaultTextIgnoresMs(At(2019, 5, 15, 10, 20, 30), 999);
  }

  /** The instant of fields is their day's count of milliseconds plus
      their time of day. */
  lemma TimeOfDays(v: DateFields, day: int)
    requires MakeDay(v.year, v.month0, v.date) == day
    ensures TimeOf(v) == day * 86400000 + MakeTime(v.hours, v.minutes, v.seconds, v.ms)
  {
  }

  /** The last millisecond of the day before a's midnight: e's day
      precedes a's by one, a starts at midnight and e is at 23:59:59.999. */
  lemma LastMsBefore(a: DateFields, e: DateFields, da: int, de: int)
    requires a.hours == 0 && a.minutes == 0 && a.seconds == 0 && a.ms == 0
    requires e.hours == 23 && e.minutes == 59 && e.seconds == 59 && e.ms == 999
    requires MakeDay(a.year, a.month0, a.date) == da && MakeDay(e.year, e.month0, e.date) == de
    requires da == de + 1
    ensures TimeOf(e) == TimeOf(a) - 1
  {
    TimeOfDays(a, da);
    TimeOfDays(e, de);
  }

  lemma AcrossKey(f: Field)
    requires f == Year || f == Month
    ensures Key(f) != "milliSeconds" && UnitKey(Key(f)) == Key(f)
  {
  }

  /** endOf('year') and endOf('month') step back one millisecond from the
      start of the unit the move by one unit lands in. */
  lemma EndOfAcrossStart(m: Mymont, f: Field)
    requires f == Year || f == Month
    ensures EndOf(m, Key(f)) == Mymont(TimeOf(Truncate(FieldsOf(Move(m, [(Key(f), 1)]).time), f)) - 1, DefaultFormat)
  {
    EndOfStartAcross(m, f);
    StartOfTruncates(Move(m, [(Key(f), 1)]), f);
  }

  lemma EndOfStartAcross(m: Mymont, f: Field)
    requires f == Year || f == Month
    ensures EndOf(m, Key(f)) == Mymont(StartOf(Move(m, [(Key(f), 1)]), Key(f)).time - 1, DefaultFormat)
  {
    AcrossKey(f);
    EndOfShape(m, Key(f));
  }

  /** endOf('year') and endOf('month'): when the move by one unit lands on
      fields b, endOf is the last millisecond of the day before the start of
      b's year or month. */
  lemma EndOfAcross(m: Mymont, f: Field, b: DateFields, e: DateFields, da: int, de: int)
    requires f == Year || f == Month
    requires FieldsOf(Move(m, [(Key(f), 1)]).time) == b
    requires e.hours == 23 && e.minutes == 59 && e.seconds == 59 && e.ms == 999
    requires MakeDay(Truncate(b, f).year, Truncate(b, f).month0, Truncate(b, f).date) == da
    requires MakeDay(e.year, e.month0, e.date) == de && da == de + 1
    ensures EndOf(m, Key(f)) == Mymont(TimeOf(e), DefaultFormat)
  {
    EndOfAcrossStart(m, f);
    LastMsBefore(Truncate(b, f), e, da, de);
  }

  /** ... so endOf prints e's fields. */
  lemma EndOfAcrossPrints(m: Mymont, f: Field, b: DateFields, e: DateFields, da: int, de: int)
    requires f == Year || f == Month
    requires FieldsOf(Move(m, [(Key(f), 1)]).time) == b
    requires ValidFields(e) && e.hours == 23 && e.minutes == 59 && e.seconds == 59 && e.ms == 999
    requires MakeDay(Truncate(b, f).year, Truncate(b, f).month0, Truncate(b, f).date) == da
    requires MakeDay(e.year, e.month0, e.date) == de && da == de + 1
    ensures ToString(EndOf(m, Key(f)), None) == DefaultText(e)
  {
    EndOfAcross(m, f, b, e, da, de);
    FieldsOfTimeOf(e);
    RendersFields(EndOf(m, Key(f)));
  }

  /** An instance whose fields lie n days before valid fields b with the
      same clock moves onto b. */
  lemma MovedDays(d: Mymont, op: seq<(string, int)>, n: int, b: DateFields)
    requires Offset(op) == n * 86400000 && ValidFields(b)
    requires var v := FieldsOf(d.time);
      b.hours == v.hours && b.minutes == v.minutes && b.seconds == v.seconds && b.ms == v.ms
      && MakeDay(b.year, b.month0, b.date) == MakeDay(v.year, v.month0, v.date) + n
    ensures FieldsOf(Move(d, op).time) == b
  {
    TimeOfFieldsOf(d.time);
    ShiftDays(FieldsOf(d.time), b, n);
    MoveLands(d, op, b);
  }

  /** The milliseconds of an instance are those of a second. */
  lemma MsInRange(d: Mymont)
    ensures 0 <= FieldsOf(d.time).ms < 1000
  {
    FieldsValid(d.time);
  }

  /** move({year: 1}) of an instance at the sample lands on 14 May 2020 at
      the same clock. */
  lemma YearUpAt(d: Mymont)
    requires AtSample(d)
    ensures FieldsOf(Move(d, [(Key(Year), 1)]).time) == DateFields(2020, 4, 14, 10, 20, 30, FieldsOf(d.time).ms)
  {
    MsInRange(d);
    DayNumber20190515();
    DayNumber20200514();
    MovedDays(d, [(Key(Year), 1)], 365, DateFields(2020, 4, 14, 10, 20, 30, FieldsOf(d.time).ms));
  }

  /** move({month: 1}) of an instance at the sample counts 30 days and lands
      on 14 June 2019 at the same clock. */
  lemma MonthUpAt(d: Mymont)
    requires AtSample(d)
    ensures FieldsOf(Move(d, [(Key(Month), 1)]).time) == DateFields(2019, 5, 14, 10, 20, 30, FieldsOf(d.time).ms)
  {
    MsInRange(d);
    DayNumber20190515();
    DayNumber20190614();
    MovedDays(d, [(Key(Month), 1)], 30, DateFields(2019, 5, 14, 10, 20, 30, FieldsOf(d.time).ms));
  }

  lemma LastOfYear()
    ensures ValidFields(DateFields(2019, 11, 31, 23, 59, 59, 999))
    ensures DefaultText(DateFields(2019, 11, 31, 23, 59, 59, 999)) == Stamp(2019, 12, 31, 23, 59, 59)
  {
    DefaultTextIgnoresMs(At(2019, 12, 31, 23, 59, 59), 999);
  }

  lemma LastOfMay()
    ensures ValidFields(DateFields(2019, 4, 31, 23, 59, 59, 999))
    ensures DefaultText(DateFields(2019, 4, 31, 23, 59, 59, 999)) == Stamp(2019, 5, 31, 23, 59, 59)
  {
    DefaultTextIgnoresMs(At(2019, 5, 31, 23, 59, 59), 999);
  }

  /** endOf('year') of an instance at the sample is 31 December 2019
      23:59:59.999: the move by a year lands in 2020, whose year starts a day
      later. */
  lemma EndOfYearAt(d: Mymont)
    requires AtSample(d)
    ensures ToString(EndOf(d, Key(Year)), None) == Stamp(2019, 12, 31, 23, 59, 59)
  {
    YearUpAt(d);
    DayNumber20200101();
    DayNumber20191231();
    LastOfYear();
    EndOfAcrossPrints(d, Year, DateFields(2020, 4, 14, 10, 20, 30, FieldsOf(d.time).ms),
      DateFields(2019, 11, 31, 23, 59, 59, 999), 18262, 18261);
  }

  /** endOf('month') of an instance at the sample is 31 May 2019
      23:59:59.999: the move by a month lands in June, which starts a day
      later. */
  lemma EndOfMonthAt(d: Mymont)
    requires AtSample(d)
    ensures ToString(EndOf(d, Key(Month)), None) == Stamp(2019, 5, 31, 23, 59, 59)
  {
    MonthUpAt(d);
    DayNumber20190601();
    DayNumber20190531();
    LastOfMay();
    EndOfAcrossPrints(d, Month, DateFields(2019, 5, 14, 10, 20, 30, FieldsOf(d.time).ms),
      DateFields(2019, 4, 31, 23, 59, 59, 999), 18048, 18047);
  }

  /** endOf('year') of the sample. */
  lemma EndOfYearScenario(now: int)
    ensures ToString(EndOf(Sample(now), "year"), None) == Stamp(2019, 12, 31, 23, 59, 59)
  {
    SampleWithin(now);
    EndOfYearAt(Sample(now));
  }

  /** endOf('month') of the sample. */
  lemma EndOfMonthScenario(now: int)
    ensures ToString(EndOf(Sample(now), "month"), None) == Stamp(2019, 5, 31, 23, 59, 59)
  {
    SampleWithin(now);
    EndOfMonthAt(Sample(now));
  }

  lemma DayNumber20201231()
    ensures MakeDay(2020, 11, 31) == 18627
  {
  }

  /** endOf('year') of the first instant of 2020, a leap year: the move by
      365 days lands on 31 December 2020, still in 2020, so endOf gives the
      last millisecond of 2019, one millisecond before the instance itself. */
  lemma EndOfYearFromNewYear(d: Mymont)
    requires FieldsOf(d.time) == DateFields(2020, 0, 1, 0, 0, 0, 0)
    ensures FieldsOf(EndOf(d, "year").time) == DateFields(2019, 11, 31, 23, 59, 59, 999)
    ensures EndOf(d, "year").time == d.time - 1
  {
    var e := DateFields(2019, 11, 31, 23, 59, 59, 999);
    NewYearEnd(d);
    assert Key(Year) == "year";
    LastOfYear();
    FieldsOfTimeOf(e);
    NewYearLastMs(d);
  }

  lemma NewYearEnd(d: Mymont)
    requires FieldsOf(d.time) == DateFields(2020, 0, 1, 0, 0, 0, 0)
    ensures EndOf(d, Key(Year)) == Mymont(TimeOf(DateFields(2019, 11, 31, 23, 59, 59, 999)), DefaultFormat)
  {
    var b := DateFields(2020, 11, 31, 0, 0, 0, 0);
    DayNumber20200101();
    DayNumber20201231();
    DayNumber20191231();
    MovedDays(d, [(Key(Year), 1)], 365, b);
    EndOfAcross(d, Year, b, DateFields(2019, 11, 31, 23, 59, 59, 999), 18262, 18261);
  }

  lemma NewYearLastMs(d: Mymont)
    requires FieldsOf(d.time) == DateFields(2020, 0, 1, 0, 0, 0, 0)
    ensures TimeOf(DateFields(2019, 11, 31, 23, 59, 59, 999)) == d.time - 1
  {
    DayNumber20200101();
    DayNumber20191231();
    TimeOfFieldsOf(d.time);
    LastMsBefore(DateFields(2020, 0, 1, 0, 0, 0, 0), DateFields(2019, 11, 31, 23, 59, 59, 999), 18262, 18261);
  }

  /** The corrected endOf('year') of the same instant is the last
      millisecond of 2020. */
  lemma EndOfCalendarFromNewYear(d: Mymont)
    requires FieldsOf(d.time) == DateFields(2020, 0, 1, 0, 0, 0, 0)
    ensures FieldsOf(EndOfCalendar(d, "year").time) == DateFields(2020, 11, 31, 23, 59, 59, 999)
  {
    EndOfCalendarFields(d, Year);
    assert Key(Year) == "year";
    assert DaysInMonth(2020, 11) == 31;
  }

  // ----- compare -----

  /** An is* call with a text in the default rendering and a key other than
      milliSeconds compares the instants of the two sides' fields truncated
      below the key; the text is read with the receiver's default template,
      as the engine reads it. */
  lemma IsText(m: Mymont, rel: Relation, v: DateFields, f: Field, now: int)
    requires m.formatStr == DefaultFormat && f != MilliSeconds
    requires ValidFields(v) && 1000 <= v.year <= 9999 && v.ms == 0
    ensures Is(m, rel, Text(DefaultText(v)), Some(Key(f)), now)
      == Holds(rel, TimeOf(Truncate(FieldsOf(m.time), f)), TimeOf(Truncate(ReadFields(v, now), f)))
  {
    var other := Parse(DefaultText(v), Some(DefaultFormat), now);
    assert TryParse(Text(DefaultText(v)), m.formatStr, now) == other;
    CompareAtKey(m, other, rel, f);
    ParsedTruncate(v, now, f);
  }

  /** With a key other than milliSeconds, compareMyment compares the
      instants of both sides' fields truncated below the key. */
  lemma CompareAtKey(a: Mymont, b: Mymont, rel: Relation, f: Field)
    requires f != MilliSeconds
    ensures CompareMyment(a, b, rel, Some(Key(f)))
      == Holds(rel, TimeOf(Truncate(FieldsOf(a.time), f)), TimeOf(Truncate(FieldsOf(b.time), f)))
  {
    assert Key(f) != "milliSeconds";
    StartOfTruncates(a, f);
    StartOfTruncates(b, f);
    var xy := ComparedTimes(a, b, Some(Key(f)));
    assert xy == (StartOf(a, Key(f)).time, StartOf(b, Key(f)).time);
    assert CompareMyment(a, b, rel, Some(Key(f))) == Holds(rel, xy.0, xy.1);
  }

  /** Truncating the parse of a default rendering truncates the fields the
      engine reads (the clock's milliseconds drop out). */
  lemma ParsedTruncate(v: DateFields, now: int, f: Field)
    requires ValidFields(v) && 1000 <= v.year <= 9999 && v.ms == 0 && f != MilliSeconds
    ensures Truncate(FieldsOf(Parse(DefaultText(v), Some(DefaultFormat), now).time), f) == Truncate(ReadFields(v, now), f)
  {
    ParseText(v, now);
  }

  /** The order of two instants given their days: day count of
      milliseconds plus time of day. */
  lemma TimeOrder(s: DateFields, t: DateFields, ds: int, dv: int)
    requires MakeDay(s.year, s.month0, s.date) == ds && MakeDay(t.year, t.month0, t.date) == dv
    ensures var x := ds * 86400000 + MakeTime(s.hours, s.minutes, s.seconds, s.ms);
      var y := dv * 86400000 + MakeTime(t.hours, t.minutes, t.seconds, t.ms);
      (TimeOf(s) < TimeOf(t) <==> x < y) && (TimeOf(s) > TimeOf(t) <==> x > y)
  {
    TimeOfDays(s, ds);
    TimeOfDays(t, dv);
  }

  /** v holds the given second, with a one-based month, at any millisecond. */
  predicate Within(v: DateFields, year: int, month: int, date: int, hours: int, minutes: int, seconds: int)
  {
    v.year == year && v.month0 == month - 1 && v.date == date
    && v.hours == hours && v.minutes == minutes && v.seconds == seconds
  }

  /** v holds the given whole second, with a one-based month. */
  predicate Holding(v: DateFields, year: int, month: int, date: int, hours: int, minutes: int, seconds: int)
  {
    Within(v, year, month, date, hours, minutes, seconds) && v.ms == 0
  }

  /** Every month has at least 28 days. */
  lemma DaysInMonthAtLeast28(y: int, m: int)
    requires 0 <= m < 12
    ensures DaysInMonth(y, m) >= 28
  {
  }

  /** A whole second up to the 28th of a month with a four-digit year is a
      valid set of fields. */
  lemma HoldingValid(v: DateFields, year: int, month: int, date: int, hours: int, minutes: int, seconds: int)
    requires Holding(v, year, month, date, hours, minutes, seconds)
    requires 1000 <= year <= 9999 && 1 <= month <= 12 && 1 <= date <= 28
    requires 0 <= hours < 24 && 0 <= minutes < 60 && 0 <= seconds < 60
    ensures ValidFields(v) && 1000 <= v.year <= 9999
  {
    DaysInMonthAtLeast28(v.year, v.month0);
  }

  /** d is an instance in the default format at the sample's second,
      as the parse of '2019-05-15 10:20:30' is. */
  predicate AtSample(d: Mymont)
  {
    d.formatStr == DefaultFormat && Within(FieldsOf(d.time), 2019, 5, 15, 10, 20, 30)
  }

  lemma SampleWithin(now: int)
    ensures AtSample(Sample(now))
  {
    SampleFields(now);
  }

  /** isBefore and isAfter hold for two instants as their order says. */
  lemma Ordered(x: int, y: int)
    ensures Holds(Before, x, y) == (x < y) && Holds(After, x, y) == (x > y)
    ensures Holds(Before, y, x) == (y < x) && Holds(After, y, x) == (y > x)
  {
  }

  /** When the other side truncates to a later instant, isBefore holds
      and isAfter does not; to the same, neither; to an earlier, isAfter
      alone. */
  lemma LaterAt(d: Mymont, now: int, v: DateFields, f: Field)
    requires d.formatStr == DefaultFormat && f != MilliSeconds && ValidFields(v) && 1000 <= v.year <= 9999 && v.ms == 0
    requires TimeOf(Truncate(FieldsOf(d.time), f)) < TimeOf(Truncate(ReadFields(v, now), f))
    ensures Is(d, Before, Text(DefaultText(v)), Some(Key(f)), now)
    ensures !Is(d, After, Text(DefaultText(v)), Some(Key(f)), now)
  {
    var x, y := TimeOf(Truncate(FieldsOf(d.time), f)), TimeOf(Truncate(ReadFields(v, now), f));
    Ordered(x, y);
    IsText(d, Before, v, f, now);
    IsText(d, After, v, f, now);
  }

  lemma WithinAt(d: Mymont, now: int, v: DateFields, f: Field)
    requires d.formatStr == DefaultFormat && f != MilliSeconds && ValidFields(v) && 1000 <= v.year <= 9999 && v.ms == 0
    requires TimeOf(Truncate(FieldsOf(d.time), f)) == TimeOf(Truncate(ReadFields(v, now), f))
    ensures !Is(d, Before, Text(DefaultText(v)), Some(Key(f)), now)
    ensures !Is(d, After, Text(DefaultText(v)), Some(Key(f)), now)
  {
    var x, y := TimeOf(Truncate(FieldsOf(d.time), f)), TimeOf(Truncate(ReadFields(v, now), f));
    Ordered(x, y);
    IsText(d, Before, v, f, now);
    IsText(d, After, v, f, now);
  }

  lemma EarlierAt(d: Mymont, now: int, v: DateFields, f: Field)
    requires d.formatStr == DefaultFormat && f != MilliSeconds && ValidFields(v) && 1000 <= v.year <= 9999 && v.ms == 0
    requires TimeOf(Truncate(FieldsOf(d.time), f)) > TimeOf(Truncate(ReadFields(v, now), f))
    ensures !Is(d, Before, Text(DefaultText(v)), Some(Key(f)), now)
    ensures Is(d, After, Text(DefaultText(v)), Some(Key(f)), now)
  {
    var x, y := TimeOf(Truncate(FieldsOf(d.time), f)), TimeOf(Truncate(ReadFields(v, now), f));
    Ordered(y, x);
    IsText(d, Before, v, f, now);
    IsText(d, After, v, f, now);
  }

  lemma OrderSecondsLater(d: Mymont, v: DateFields, now: int)
    requires AtSample(d) && Holding(v, 2019, 5, 15, 10, 20, 31)
    ensures ValidFields(v) && 1000 <= v.year <= 9999 && v.ms == 0
    ensures TimeOf(Truncate(FieldsOf(d.time), Seconds)) < TimeOf(Truncate(ReadFields(v, now), Seconds))
  {
    LongMonthRead(v, now);
    HoldingValid(v, 2019, 5, 15, 10, 20, 31);
    DayNumber20190515();
    TimeOrder(Truncate(FieldsOf(d.time), Seconds), Truncate(v, Seconds), 18031, 18031);
  }

  /** Against '2019-05-15 10:20:31' at 'seconds', a later seconds: isBefore holds. */
  lemma CompareSecondsLaterBeforeScenario(d: Mymont, now: int, v: DateFields)
    requires AtSample(d) && Holding(v, 2019, 5, 15, 10, 20, 31)
    ensures Is(d, Before, Text(DefaultText(v)), Some(Key(Seconds)), now)
  {
    OrderSecondsLater(d, v, now);
    LaterAt(d, now, v, Seconds);
  }

  /** Against '2019-05-15 10:20:31' at 'seconds', a later seconds: isAfter does not hold. */
  lemma CompareSecondsLaterAfterScenario(d: Mymont, now: int, v: DateFields)
    requires AtSample(d) && Holding(v, 2019, 5, 15, 10, 20, 31)
    ensures !Is(d, After, Text(DefaultText(v)), Some(Key(Seconds)), now)
  {
    OrderSecondsLater(d, v, now);
    LaterAt(d, now, v, Seconds);
  }

  lemma OrderSecondsWithin(d: Mymont, v: DateFields, now: int)
    requires AtSample(d) && Holding(v, 2019, 5, 15, 10, 20, 30)
    ensures ValidFields(v) && 1000 <= v.year <= 9999 && v.ms == 0
    ensures TimeOf(Truncate(FieldsOf(d.time), Seconds)) == TimeOf(Truncate(ReadFields(v, now), Seconds))
  {
    LongMonthRead(v, now);
    HoldingValid(v, 2019, 5, 15, 10, 20, 30);
    assert Truncate(FieldsOf(d.time), Seconds) == Truncate(v, Seconds);
  }

  /** Against '2019-05-15 10:20:30' at 'seconds', the same seconds: isBefore does not hold. */
  lemma CompareSecondsWithinBeforeScenario(d: Mymont, now: int, v: DateFields)
    requires AtSample(d) && Holding(v, 2019, 5, 15, 10, 20, 30)
    ensures !Is(d, Before, Text(DefaultText(v)), Some(Key(Seconds)), now)
  {
    OrderSecondsWithin(d, v, now);
    WithinAt(d, now, v, Seconds);
  }

  /** Against '2019-05-15 10:20:30' at 'seconds', the same seconds: isAfter does not hold. */
  lemma CompareSecondsWithinAfterScenario(d: Mymont, now: int, v: DateFields)
    requires AtSample(d) && Holding(v, 2019, 5, 15, 10, 20, 30)
    ensures !Is(d, After, Text(DefaultText(v)), Some(Key(Seconds)), now)
  {
    OrderSecondsWithin(d, v, now);
    WithinAt(d, now, v, Seconds);
  }

  lemma OrderSecondsEarlier(d: Mymont, v: DateFields, now: int)
    requires AtSample(d) && Holding(v, 2019, 5, 15, 10, 20, 29)
    ensures ValidFields(v) && 1000 <= v.year <= 9999 && v.ms == 0
    ensures TimeOf(Truncate(FieldsOf(d.time), Seconds)) > TimeOf(Truncate(ReadFields(v, now), Seconds))
  {
    LongMonthRead(v, now);
    HoldingValid(v, 2019, 5, 15, 10, 20, 29);
    DayNumber20190515();
    TimeOrder(Truncate(FieldsOf(d.time), Seconds), Truncate(v, Seconds), 18031, 18031);
  }

  /** Against '2019-05-15 10:20:29' at 'seconds', an earlier seconds: isBefore does not hold. */
  lemma CompareSecondsEarlierBeforeScenario(d: Mymont, now: int, v: DateFields)
    requires AtSample(d) && Holding(v, 2019, 5, 15, 10, 20, 29)
    ensures !Is(d, Before, Text(DefaultText(v)), Some(Key(Seconds)), now)
  {
    OrderSecondsEarlier(d, v, now);
    EarlierAt(d, now, v, Seconds);
  }

  /** Against '2019-05-15 10:20:29' at 'seconds', an earlier seconds: isAfter holds. */
  lemma CompareSecondsEarlierAfterScenario(d: Mymont, now: int, v: DateFields)
    requires AtSample(d) && Holding(v, 2019, 5, 15, 10, 20, 29)
    ensures Is(d, After, Text(DefaultText(v)), Some(Key(Seconds)), now)
  {
    OrderSecondsEarlier(d, v, now);
    EarlierAt(d, now, v, Seconds);
  }

  lemma OrderMinutesLater(d: Mymont, v: DateFields, now: int)
    requires AtSample(d) && Holding(v, 2019, 5, 15, 10, 21, 30)
    ensures ValidFields(v) && 1000 <= v.year <= 9999 && v.ms == 0
    ensures TimeOf(Truncate(FieldsOf(d.time), Minutes)) < TimeOf(Truncate(ReadFields(v, now), Minutes))
  {
    LongMonthRead(v, now);
    HoldingValid(v, 2019, 5, 15, 10, 21, 30);
    DayNumber20190515();
    TimeOrder(Truncate(FieldsOf(d.time), Minutes), Truncate(v, Minutes), 18031, 18031);
  }

  /** Against '2019-05-15 10:21:30' at 'minutes', a later minutes: isBefore holds. */
  lemma CompareMinutesLaterBeforeScenario(d: Mymont, now: int, v: DateFields)
    requires AtSample(d) && Holding(v, 2019, 5, 15, 10, 21, 30)
    ensures Is(d, Before, Text(DefaultText(v)), Some(Key(Minutes)), now)
  {
    OrderMinutesLater(d, v, now);
    LaterAt(d, now, v, Minutes);
  }

  /** Against '2019-05-15 10:21:30' at 'minutes', a later minutes: isAfter does not hold. */
  lemma CompareMinutesLaterAfterScenario(d: Mymont, now: int, v: DateFields)
    requires AtSample(d) && Holding(v, 2019, 5, 15, 10, 21, 30)
    ensures !Is(d, After, Text(DefaultText(v)), Some(Key(Minutes)), now)
  {
    OrderMinutesLater(d, v, now);
    LaterAt(d, now, v, Minutes);
  }

  lemma OrderMinutesWithin(d: Mymont, v: DateFields, now: int)
    requires AtSample(d) && Holding(v, 2019, 5, 15, 10, 20, 50)
    ensures ValidFields(v) && 1000 <= v.year <= 9999 && v.ms == 0
    ensures TimeOf(Truncate(FieldsOf(d.time), Minutes)) == TimeOf(Truncate(ReadFields(v, now), Minutes))
  {
    LongMonthRead(v, now);
    HoldingValid(v, 2019, 5, 15, 10, 20, 50);
    assert Truncate(FieldsOf(d.time), Minutes) == Truncate(v, Minutes);
  }

  /** Against '2019-05-15 10:20:50' at 'minutes', the same minutes: isBefore does not hold. */
  lemma CompareMinutesWithinBeforeScenario(d: Mymont, now: int, v: DateFields)
    requires AtSample(d) && Holding(v, 2019, 5, 15, 10, 20, 50)
    ensures !Is(d, Before, Text(DefaultText(v)), Some(Key(Minutes)), now)
  {
    OrderMinutesWithin(d, v, now);
    WithinAt(d, now, v, Minutes);
  }

  /** Against '2019-05-15 10:20:50' at 'minutes', the same minutes: isAfter does not hold. */
  lemma CompareMinutesWithinAfterScenario(d: Mymont, now: int, v: DateFields)
    requires AtSample(d) && Holding(v, 2019, 5, 15, 10, 20, 50)
    ensures !Is(d, After, Text(DefaultText(v)), Some(Key(Minutes)), now)
  {
    OrderMinutesWithin(d, v, now);
    WithinAt(d, now, v, Minutes);
  }

  lemma OrderMinutesEarlier(d: Mymont, v: DateFields, now: int)
    requires AtSample(d) && Holding(v, 2019, 5, 15, 10, 19, 30)
    ensures ValidFields(v) && 1000 <= v.year <= 9999 && v.ms == 0
    ensures TimeOf(Truncate(FieldsOf(d.time), Minutes)) > TimeOf(Truncate(ReadFields(v, now), Minutes))
  {
    LongMonthRead(v, now);
    HoldingValid(v, 2019, 5, 15, 10, 19, 30);
    DayNumber20190515();
    TimeOrder(Truncate(FieldsOf(d.time), Minutes), Truncate(v, Minutes), 18031, 18031);
  }

  /** Against '2019-05-15 10:19:30' at 'minutes', an earlier minutes: isBefore does not hold. */
  lemma CompareMinutesEarlierBeforeScenario(d: Mymont, now: int, v: DateFields)
    requires AtSample(d) && Holding(v, 2019, 5, 15, 10, 19, 30)
    ensures !Is(d, Before, Text(DefaultText(v)), Some(Key(Minutes)), now)
  {
    OrderMinutesEarlier(d, v, now);
    EarlierAt(d, now, v, Minutes);
  }

  /** Against '2019-05-15 10:19:30' at 'minutes', an earlier minutes: isAfter holds. */
  lemma CompareMinutesEarlierAfterScenario(d: Mymont, now: int, v: DateFields)
    requires AtSample(d) && Holding(v, 2019, 5, 15, 10, 19, 30)
    ensures Is(d, After, Text(DefaultText(v)), Some(Key(Minutes)), now)
  {
    OrderMinutesEarlier(d, v, now);
    EarlierAt(d, now, v, Minutes);
  }

  lemma OrderHoursLater(d: Mymont, v: DateFields, now: int)
    requires AtSample(d) && Holding(v, 2019, 5, 15, 11, 20, 30)
    ensures ValidFields(v) && 1000 <= v.year <= 9999 && v.ms == 0
    ensures TimeOf(Truncate(FieldsOf(d.time), Hours)) < TimeOf(Truncate(ReadFields(v, now), Hours))
  {
    LongMonthRead(v, now);
    HoldingValid(v, 2019, 5, 15, 11, 20, 30);
    DayNumber20190515();
    TimeOrder(Truncate(FieldsOf(d.time), Hours), Truncate(v, Hours), 18031, 18031);
  }

  /** Against '2019-05-15 11:20:30' at 'hours', a later hours: isBefore holds. */
  lemma CompareHoursLaterBeforeScenario(d: Mymont, now: int, v: DateFields)
    requires AtSample(d) && Holding(v, 2019, 5, 15, 11, 20, 30)
    ensures Is(d, Before, Text(DefaultText(v)), Some(Key(Hours)), now)
  {
    OrderHoursLater(d, v, now);
    LaterAt(d, now, v, Hours);
  }

  /** Against '2019-05-15 11:20:30' at 'hours', a later hours: isAfter does not hold. */
  lemma CompareHoursLaterAfterScenario(d: Mymont, now: int, v: DateFields)
    requires AtSample(d) && Holding(v, 2019, 5, 15, 11, 20, 30)
    ensures !Is(d, After, Text(DefaultText(v)), Some(Key(Hours)), now)
  {
    OrderHoursLater(d, v, now);
    LaterAt(d, now, v, Hours);
  }

  lemma OrderHoursWithin(d: Mymont, v: DateFields, now: int)
    requires AtSample(d) && Holding(v, 2019, 5, 15, 10, 50, 30)
    ensures ValidFields(v) && 1000 <= v.year <= 9999 && v.ms == 0
    ensures TimeOf(Truncate(FieldsOf(d.time), Hours)) == TimeOf(Truncate(ReadFields(v, now), Hours))
  {
    LongMonthRead(v, now);
    HoldingValid(v, 2019, 5, 15, 10, 50, 30);
    assert Truncate(FieldsOf(d.time), Hours) == Truncate(v, Hours);
  }

  /** Against '2019-05-15 10:50:30' at 'hours', the same hours: isBefore does not hold. */
  lemma CompareHoursWithinBeforeScenario(d: Mymont, now: int, v: DateFields)
    requires AtSample(d) && Holding(v, 2019, 5, 15, 10, 50, 30)
    ensures !Is(d, Before, Text(DefaultText(v)), Some(Key(Hours)), now)
  {
    OrderHoursWithin(d, v, now);
    WithinAt(d, now, v, Hours);
  }

  /** Against '2019-05-15 10:50:30' at 'hours', the same hours: isAfter does not hold. */
  lemma CompareHoursWithinAfterScenario(d: Mymont, now: int, v: DateFields)
    requires AtSample(d) && Holding(v, 2019, 5, 15, 10, 50, 30)
    ensures !Is(d, After, Text(DefaultText(v)), Some(Key(Hours)), now)
  {
    OrderHoursWithin(d, v, now);
    WithinAt(d, now, v, Hours);
  }

  lemma OrderHoursEarlier(d: Mymont, v: DateFields, now: int)
    requires AtSample(d) && Holding(v, 2019, 5, 15, 9, 20, 30)
    ensures ValidFields(v) && 1000 <= v.year <= 9999 && v.ms == 0
    ensures TimeOf(Truncate(FieldsOf(d.time), Hours)) > TimeOf(Truncate(ReadFields(v, now), Hours))
  {
    LongMonthRead(v, now);
    HoldingValid(v, 2019, 5, 15, 9, 20, 30);
    DayNumber20190515();
    TimeOrder(Truncate(FieldsOf(d.time), Hours), Truncate(v, Hours), 18031, 18031);
  }

  /** Against '2019-05-15 09:20:30' at 'hours', an earlier hours: isBefore does not hold. */
  lemma CompareHoursEarlierBeforeScenario(d: Mymont, now: int, v: DateFields)
    requires AtSample(d) && Holding(v, 2019, 5, 15, 9, 20, 30)
    ensures !Is(d, Before, Text(DefaultText(v)), Some(Key(Hours)), now)
  {
    OrderHoursEarlier(d, v, now);
    EarlierAt(d, now, v, Hours);
  }

  /** Against '2019-05-15 09:20:30' at 'hours', an earlier hours: isAfter holds. */
  lemma CompareHoursEarlierAfterScenario(d: Mymont, now: int, v: DateFields)
    requires AtSample(d) && Holding(v, 2019, 5, 15, 9, 20, 30)
    ensures Is(d, After, Text(DefaultText(v)), Some(Key(Hours)), now)
  {
    OrderHoursEarlier(d, v, now);
    EarlierAt(d, now, v, Hours);
  }

  lemma OrderDateLater(d: Mymont, v: DateFields, now: int)
    requires AtSample(d) && Holding(v, 2019, 5, 16, 10, 20, 30)
    ensures ValidFields(v) && 1000 <= v.year <= 9999 && v.ms == 0
    ensures TimeOf(Truncate(FieldsOf(d.time), Date)) < TimeOf(Truncate(ReadFields(v, now), Date))
  {
    LongMonthRead(v, now);
    HoldingValid(v, 2019, 5, 16, 10, 20, 30);
    DayNumber20190515();
    DayNumber20190516();
    TimeOrder(Truncate(FieldsOf(d.time), Date), Truncate(v, Date), 18031, 18032);
  }

  /** Against '2019-05-16 10:20:30' at 'date', a later date: isBefore holds. */
  lemma CompareDateLaterBeforeScenario(d: Mymont, now: int, v: DateFields)
    requires AtSample(d) && Holding(v, 2019, 5, 16, 10, 20, 30)
    ensures Is(d, Before, Text(DefaultText(v)), Some(Key(Date)), now)
  {
    OrderDateLater(d, v, now);
    LaterAt(d, now, v, Date);
  }

  /** Against '2019-05-16 10:20:30' at 'date', a later date: isAfter does not hold. */
  lemma CompareDateLaterAfterScenario(d: Mymont, now: int, v: DateFields)
    requires AtSample(d) && Holding(v, 2019, 5, 16, 10, 20, 30)
    ensures !Is(d, After, Text(DefaultText(v)), Some(Key(Date)), now)
  {
    OrderDateLater(d, v, now);
    LaterAt(d, now, v, Date);
  }

  lemma OrderDateWithin(d: Mymont, v: DateFields, now: int)
    requires AtSample(d) && Holding(v, 2019, 5, 15, 20, 20, 30)
    ensures ValidFields(v) && 1000 <= v.year <= 9999 && v.ms == 0
    ensures TimeOf(Truncate(FieldsOf(d.time), Date)) == TimeOf(Truncate(ReadFields(v, now), Date))
  {
    LongMonthRead(v, now);
    HoldingValid(v, 2019, 5, 15, 20, 20, 30);
    assert Truncate(FieldsOf(d.time), Date) == Truncate(v, Date);
  }

  /** Against '2019-05-15 20:20:30' at 'date', the same date: isBefore does not hold. */
  lemma CompareDateWithinBeforeScenario(d: Mymont, now: int, v: DateFields)
    requires AtSample(d) && Holding(v, 2019, 5, 15, 20, 20, 30)
    ensures !Is(d, Before, Text(DefaultText(v)), Some(Key(Date)), now)
  {
    OrderDateWithin(d, v, now);
    WithinAt(d, now, v, Date);
  }

  /** Against '2019-05-15 20:20:30' at 'date', the same date: isAfter does not hold. */
  lemma CompareDateWithinAfterScenario(d: Mymont, now: int, v: DateFields)
    requires AtSample(d) && Holding(v, 2019, 5, 15, 20, 20, 30)
    ensures !Is(d, After, Text(DefaultText(v)), Some(Key(Date)), now)
  {
    OrderDateWithin(d, v, now);
    WithinAt(d, now, v, Date);
  }

  lemma OrderDateEarlier(d: Mymont, v: DateFields, now: int)
    requires AtSample(d) && Holding(v, 2019, 5, 14, 10, 20, 30)
    ensures ValidFields(v) && 1000 <= v.year <= 9999 && v.ms == 0
    ensures TimeOf(Truncate(FieldsOf(d.time), Date)) > TimeOf(Truncate(ReadFields(v, now), Date))
  {
    LongMonthRead(v, now);
    HoldingValid(v, 2019, 5, 14, 10, 20, 30);
    DayNumber20190515();
    DayNumber20190514();
    TimeOrder(Truncate(FieldsOf(d.time), Date), Truncate(v, Date), 18031, 18030);
  }

  /** Against '2019-05-14 10:20:30' at 'date', an earlier date: isBefore does not hold. */
  lemma CompareDateEarlierBeforeScenario(d: Mymont, now: int, v: DateFields)
    requires AtSample(d) && Holding(v, 2019, 5, 14, 10, 20, 30)
    ensures !Is(d, Before, Text(DefaultText(v)), Some(Key(Date)), now)
  {
    OrderDateEarlier(d, v, now);
    EarlierAt(d, now, v, Date);
  }

  /** Against '2019-05-14 10:20:30' at 'date', an earlier date: isAfter holds. */
  lemma CompareDateEarlierAfterScenario(d: Mymont, now: int, v: DateFields)
    requires AtSample(d) && Holding(v, 2019, 5, 14, 10, 20, 30)
    ensures Is(d, After, Text(DefaultText(v)), Some(Key(Date)), now)
  {
    OrderDateEarlier(d, v, now);
    EarlierAt(d, now, v, Date);
  }

  /** June, or July when the clock has a 31st, is a later month than May. */
  lemma OrderMonthLater(d: Mymont, v: DateFields, now: int)
    requires AtSample(d) && Holding(v, 2019, 6, 15, 10, 20, 30)
    ensures ValidFields(v) && 1000 <= v.year <= 9999 && v.ms == 0
    ensures TimeOf(Truncate(FieldsOf(d.time), Month)) < TimeOf(Truncate(ReadFields(v, now), Month))
  {
    HoldingValid(v, 2019, 6, 15, 10, 20, 30);
    DayNumber20190501();
    if ClockFits(now, 2019, 5) {
      DayNumber20190601();
      TimeOrder(Truncate(FieldsOf(d.time), Month), Truncate(v, Month), 18017, 18048);
    } else {
      DayNumber20190701();
      TimeOrder(Truncate(FieldsOf(d.time), Month), Truncate(v.(month0 := 6), Month), 18017, 18078);
    }
  }

  /** Against '2019-06-15 10:20:30' at 'month', a later month: isBefore holds. */
  lemma CompareMonthLaterBeforeScenario(d: Mymont, now: int, v: DateFields)
    requires AtSample(d) && Holding(v, 2019, 6, 15, 10, 20, 30)
    ensures Is(d, Before, Text(DefaultText(v)), Some(Key(Month)), now)
  {
    OrderMonthLater(d, v, now);
    LaterAt(d, now, v, Month);
  }

  /** Against '2019-06-15 10:20:30' at 'month', a later month: isAfter does not hold. */
  lemma CompareMonthLaterAfterScenario(d: Mymont, now: int, v: DateFields)
    requires AtSample(d) && Holding(v, 2019, 6, 15, 10, 20, 30)
    ensures !Is(d, After, Text(DefaultText(v)), Some(Key(Month)), now)
  {
    OrderMonthLater(d, v, now);
    LaterAt(d, now, v, Month);
  }

  lemma OrderMonthWithin(d: Mymont, v: DateFields, now: int)
    requires AtSample(d) && Holding(v, 2019, 5, 25, 10, 20, 30)
    ensures ValidFields(v) && 1000 <= v.year <= 9999 && v.ms == 0
    ensures TimeOf(Truncate(FieldsOf(d.time), Month)) == TimeOf(Truncate(ReadFields(v, now), Month))
  {
    LongMonthRead(v, now);
    HoldingValid(v, 2019, 5, 25, 10, 20, 30);
    assert Truncate(FieldsOf(d.time), Month) == Truncate(v, Month);
  }

  /** Against '2019-05-25 10:20:30' at 'month', the same month: isBefore does not hold. */
  lemma CompareMonthWithinBeforeScenario(d: Mymont, now: int, v: DateFields)
    requires AtSample(d) && Holding(v, 2019, 5, 25, 10, 20, 30)
    ensures !Is(d, Before, Text(DefaultText(v)), Some(Key(Month)), now)
  {
    OrderMonthWithin(d, v, now);
    WithinAt(d, now, v, Month);
  }

  /** Against '2019-05-25 10:20:30' at 'month', the same month: isAfter does not hold. */
  lemma CompareMonthWithinAfterScenario(d: Mymont, now: int, v: DateFields)
    requires AtSample(d) && Holding(v, 2019, 5, 25, 10, 20, 30)
    ensures !Is(d, After, Text(DefaultText(v)), Some(Key(Month)), now)
  {
    OrderMonthWithin(d, v, now);
    WithinAt(d, now, v, Month);
  }

  lemma OrderMonthEarlier(d: Mymont, v: DateFields, now: int)
    requires AtSample(d) && Holding(v, 2019, 4, 15, 10, 20, 30)
    requires ClockFits(now, 2019, 3)
    ensures ValidFields(v) && 1000 <= v.year <= 9999 && v.ms == 0
    ensures TimeOf(Truncate(FieldsOf(d.time), Month)) > TimeOf(Truncate(ReadFields(v, now), Month))
  {
    HoldingValid(v, 2019, 4, 15, 10, 20, 30);
    DayNumber20190501();
    DayNumber20190401();
    TimeOrder(Truncate(FieldsOf(d.time), Month), Truncate(v, Month), 18017, 17987);
  }

  /** On a 31st the engine reads April 15 as May 15, the sample's month. */
  lemma OrderMonthEarlierRolled(d: Mymont, v: DateFields, now: int)
    requires AtSample(d) && Holding(v, 2019, 4, 15, 10, 20, 30)
    requires !ClockFits(now, 2019, 3)
    ensures ValidFields(v) && 1000 <= v.year <= 9999 && v.ms == 0
    ensures TimeOf(Truncate(FieldsOf(d.time), Month)) == TimeOf(Truncate(ReadFields(v, now), Month))
  {
    HoldingValid(v, 2019, 4, 15, 10, 20, 30);
    assert Truncate(FieldsOf(d.time), Month) == Truncate(ReadFields(v, now), Month);
  }

  /** Against '2019-04-15 10:20:30' at 'month', an earlier month: isBefore
      does not hold, whatever the clock. */
  lemma CompareMonthEarlierBeforeScenario(d: Mymont, now: int, v: DateFields)
    requires AtSample(d) && Holding(v, 2019, 4, 15, 10, 20, 30)
    ensures !Is(d, Before, Text(DefaultText(v)), Some(Key(Month)), now)
  {
    if ClockFits(now, 2019, 3) {
      OrderMonthEarlier(d, v, now);
      EarlierAt(d, now, v, Month);
    } else {
      OrderMonthEarlierRolled(d, v, now);
      WithinAt(d, now, v, Month);
    }
  }

  /** Against '2019-04-15 10:20:30' at 'month', an earlier month: isAfter
      holds when the clock's day is at most 30. */
  lemma CompareMonthEarlierAfterScenario(d: Mymont, now: int, v: DateFields)
    requires AtSample(d) && Holding(v, 2019, 4, 15, 10, 20, 30)
    requires DateFromTime(now) <= 30
    ensures Is(d, After, Text(DefaultText(v)), Some(Key(Month)), now)
  {
    assert DaysInMonth(2019, 3) == 30;
    ClockDayFits(now, 2019, 3);
    OrderMonthEarlier(d, v, now);
    EarlierAt(d, now, v, Month);
  }

  /** On the 31st of any month the engine reads '2019-04-15 10:20:30' as
      15 May, so at 'month' it is neither before nor after the sample:
      isAfter fails. */
  lemma CompareMonthEarlierRolled(d: Mymont, now: int, v: DateFields)
    requires AtSample(d) && Holding(v, 2019, 4, 15, 10, 20, 30)
    requires DateFromTime(now) == 31
    ensures !Is(d, After, Text(DefaultText(v)), Some(Key(Month)), now)
    ensures !Is(d, Before, Text(DefaultText(v)), Some(Key(Month)), now)
  {
    assert DaysInMonth(2019, 3) == 30;
    LateClockMisses(now, 2019, 3);
    OrderMonthEarlierRolled(d, v, now);
    WithinAt(d, now, v, Month);
  }

  lemma OrderYearLater(d: Mymont, v: DateFields, now: int)
    requires AtSample(d) && Holding(v, 2020, 5, 15, 10, 20, 30)
    ensures ValidFields(v) && 1000 <= v.year <= 9999 && v.ms == 0
    ensures TimeOf(Truncate(FieldsOf(d.time), Year)) < TimeOf(Truncate(ReadFields(v, now), Year))
  {
    LongMonthRead(v, now);
    HoldingValid(v, 2020, 5, 15, 10, 20, 30);
    DayNumber20190101();
    DayNumber20200101();
    TimeOrder(Truncate(FieldsOf(d.time), Year), Truncate(v, Year), 17897, 18262);
  }

  /** Against '2020-05-15 10:20:30' at 'year', a later year: isBefore holds. */
  lemma CompareYearLaterBeforeScenario(d: Mymont, now: int, v: DateFields)
    requires AtSample(d) && Holding(v, 2020, 5, 15, 10, 20, 30)
    ensures Is(d, Before, Text(DefaultText(v)), Some(Key(Year)), now)
  {
    OrderYearLater(d, v, now);
    LaterAt(d, now, v, Year);
  }

  /** Against '2020-05-15 10:20:30' at 'year', a later year: isAfter does not hold. */
  lemma CompareYearLaterAfterScenario(d: Mymont, now: int, v: DateFields)
    requires AtSample(d) && Holding(v, 2020, 5, 15, 10, 20, 30)
    ensures !Is(d, After, Text(DefaultText(v)), Some(Key(Year)), now)
  {
    OrderYearLater(d, v, now);
    LaterAt(d, now, v, Year);
  }

  /** June, or July when the clock has a 31st, is in the sample's year. */
  lemma OrderYearWithin(d: Mymont, v: DateFields, now: int)
    requires AtSample(d) && Holding(v, 2019, 6, 15, 10, 20, 30)
    ensures ValidFields(v) && 1000 <= v.year <= 9999 && v.ms == 0
    ensures TimeOf(Truncate(FieldsOf(d.time), Year)) == TimeOf(Truncate(ReadFields(v, now), Year))
  {
    HoldingValid(v, 2019, 6, 15, 10, 20, 30);
    ReadKeepsAllButMonth(v, now);
    assert Truncate(FieldsOf(d.time), Year) == Truncate(ReadFields(v, now), Year);
  }

  /** Against '2019-06-15 10:20:30' at 'year', the same year: isBefore does not hold. */
  lemma CompareYearWithinBeforeScenario(d: Mymont, now: int, v: DateFields)
    requires AtSample(d) && Holding(v, 2019, 6, 15, 10, 20, 30)
    ensures !Is(d, Before, Text(DefaultText(v)), Some(Key(Year)), now)
  {
    OrderYearWithin(d, v, now);
    WithinAt(d, now, v, Year);
  }

  /** Against '2019-06-15 10:20:30' at 'year', the same year: isAfter does not hold. */
  lemma CompareYearWithinAfterScenario(d: Mymont, now: int, v: DateFields)
    requires AtSample(d) && Holding(v, 2019, 6, 15, 10, 20, 30)
    ensures !Is(d, After, Text(DefaultText(v)), Some(Key(Year)), now)
  {
    OrderYearWithin(d, v, now);
    WithinAt(d, now, v, Year);
  }

  lemma OrderYearEarlier(d: Mymont, v: DateFields, now: int)
    requires AtSample(d) && Holding(v, 2018, 5, 15, 10, 20, 30)
    ensures ValidFields(v) && 1000 <= v.year <= 9999 && v.ms == 0
    ensures TimeOf(Truncate(FieldsOf(d.time), Year)) > TimeOf(Truncate(ReadFields(v, now), Year))
  {
    LongMonthRead(v, now);
    HoldingValid(v, 2018, 5, 15, 10, 20, 30);
    DayNumber20190101();
    DayNumber20180101();
    TimeOrder(Truncate(FieldsOf(d.time), Year), Truncate(v, Year), 17897, 17532);
  }

  /** Against '2018-05-15 10:20:30' at 'year', an earlier year: isBefore does not hold. */
  lemma CompareYearEarlierBeforeScenario(d: Mymont, now: int, v: DateFields)
    requires AtSample(d) && Holding(v, 2018, 5, 15, 10, 20, 30)
    ensures !Is(d, Before, Text(DefaultText(v)), Some(Key(Year)), now)
  {
    OrderYearEarlier(d, v, now);
    EarlierAt(d, now, v, Year);
  }

  /** Against '2018-05-15 10:20:30' at 'year', an earlier year: isAfter holds. */
  lemma CompareYearEarlierAfterScenario(d: Mymont, now: int, v: DateFields)
    requires AtSample(d) && Holding(v, 2018, 5, 15, 10, 20, 30)
    ensures Is(d, After, Text(DefaultText(v)), Some(Key(Year)), now)
  {
    OrderYearEarlier(d, v, now);
    EarlierAt(d, now, v, Year);
  }
}
