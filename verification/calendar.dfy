/** The host calendar, taken in UTC, after the time-value model of ECMA-262
    (2022 edition, section 21.4.1): an instant is an integer count of
    milliseconds since 1970-01-01T00:00:00Z, broken down into fields by Day,
    YearFromTime, MonthFromTime, DateFromTime, HourFromTime, MinFromTime,
    SecFromTime and msFromTime, and put back together by MakeDay, MakeTime
    and MakeDate. The field setters of section 21.4.4 (setFullYear, setMonth,
    setDate, setHours, setMinutes, setSeconds, setMilliseconds) are defined
    from these, and the two round trips between instants and valid fields are
    proved. */
module Calendar {

  /** Broken-down fields of an instant; the month is zero-based, as the host's
      getMonth returns it. */
  datatype DateFields = DateFields(
    year: int, month0: int, date: int,
    hours: int, minutes: int, seconds: int, ms: int)

  const MsPerSecond: int := 1000
  const MsPerMinute: int := 60000
  const MsPerHour: int := 3600000
  const MsPerDay: int := 86400000

  // ----- time within the day -----

  function Day(t: int): int { t / 86400000 }

  function TimeWithinDay(t: int): int { t % 86400000 }

  function HourFromTime(t: int): int { (t / 3600000) % 24 }

  function MinFromTime(t: int): int { (t / 60000) % 60 }

  function SecFromTime(t: int): int { (t / 1000) % 60 }

  function MsFromTime(t: int): int { t % 1000 }

  function MakeTime(hour: int, min: int, sec: int, ms: int): int
  {
    hour * 3600000 + min * 60000 + sec * 1000 + ms
  }

  function MakeDate(day: int, time: int): int { day * 86400000 + time }

  // ----- years and months -----

  /** Number of the day on which year y begins. */
  function DayFromYear(y: int): int
  {
    365 * (y - 1970) + (y - 1969) / 4 - (y - 1901) / 100 + (y - 1601) / 400
  }

  predicate InLeapYear(y: int)
  {
    y % 4 == 0 && (y % 100 != 0 || y % 400 == 0)
  }

  function DaysInYear(y: int): int { if InLeapYear(y) then 366 else 365 }

  /** Days of the year that lie before month m (0-based); CumDays(12, leap) is
      the length of the year. */
  function CumDays(m: int, leap: bool): int
    requires 0 <= m <= 12
  {
    [0, 31, 59, 90, 120, 151, 181, 212, 243, 273, 304, 334, 365][m]
      + (if leap && m >= 2 then 1 else 0)
  }

  function DaysInMonth(y: int, m: int): int
    requires 0 <= m < 12
  {
    CumDays(m + 1, InLeapYear(y)) - CumDays(m, InLeapYear(y))
  }

  /** MakeDay: the month may lie outside 0..11 and the date outside the month;
      both roll over into the neighbouring months and years. */
  function MakeDay(year: int, month: int, date: int): int
  {
    var ym := year + month / 12;
    var mn := month % 12;
    DayFromYear(ym) + CumDays(mn, InLeapYear(ym)) + date - 1
  }

  /** Splits a count of days since 0001-01-01 into 400-year cycles, then
      100-year blocks, 4-year groups, single years and the day within the
      year. The leap day of each group, block and cycle lies at its end, so
      every level is a division whose last quotient is capped. */
  function Split(n: int): (int, int, int, int, int)
  {
    var a := n / 146097;
    var r := n % 146097;
    var b := if r / 36524 < 3 then r / 36524 else 3;
    var r2 := r - 36524 * b;
    var c := r2 / 1461;
    var r3 := r2 % 1461;
    var e := if r3 / 365 < 3 then r3 / 365 else 3;
    (a, b, c, e, r3 - 365 * e)
  }

  function Compose(a: int, b: int, c: int, e: int, doy: int): int
  {
    146097 * a + 36524 * b + 1461 * c + 365 * e + doy
  }

  /** The bounds under which Split and Compose are inverse: the last year of a
      group is a leap year unless it closes a century that is not a multiple
      of 400. */
  predicate SplitOk(a: int, b: int, c: int, e: int, doy: int)
  {
    0 <= b <= 3 && 0 <= c <= 24 && 0 <= e <= 3 && 0 <= doy
    && doy < 365 + (if e == 3 && (c != 24 || b == 3) then 1 else 0)
  }

  /** Year of the day with number d. */
  function YearOfDay(d: int): int
  {
    var (a, b, c, e, _) := Split(d + 719162);
    1 + 400 * a + 100 * b + 4 * c + e
  }

  function YearFromTime(t: int): int { YearOfDay(Day(t)) }

  function DayWithinYear(t: int): int { Day(t) - DayFromYear(YearFromTime(t)) }

  /** The month (from m on) whose days contain day-of-year doy. */
  function FindMonth(doy: int, leap: bool, m: int): (r: int)
    requires 0 <= m < 12
    ensures m <= r < 12
    decreases 12 - m
  {
    if m == 11 || doy < CumDays(m + 1, leap) then m else FindMonth(doy, leap, m + 1)
  }

  function MonthFromTime(t: int): (r: int)
    ensures 0 <= r < 12
  {
    FindMonth(DayWithinYear(t), InLeapYear(YearFromTime(t)), 0)
  }

  function DateFromTime(t: int): int
  {
    DayWithinYear(t) - CumDays(MonthFromTime(t), InLeapYear(YearFromTime(t))) + 1
  }

  function FieldsOf(t: int): DateFields
  {
    DateFields(YearFromTime(t), MonthFromTime(t), DateFromTime(t),
               HourFromTime(t), MinFromTime(t), SecFromTime(t), MsFromTime(t))
  }

  /** The instant of a field record; out-of-range fields roll over. */
  function TimeOf(f: DateFields): int
  {
    MakeDate(MakeDay(f.year, f.month0, f.date), MakeTime(f.hours, f.minutes, f.seconds, f.ms))
  }

  predicate ValidFields(f: DateFields)
  {
    0 <= f.month0 < 12 && 1 <= f.date <= DaysInMonth(f.year, f.month0)
    && 0 <= f.hours < 24 && 0 <= f.minutes < 60 && 0 <= f.seconds < 60
    && 0 <= f.ms < 1000
  }

  // ----- the host's setters, each on the current instant -----

  function SetFullYear(t: int, y: int): int
  {
    MakeDate(MakeDay(y, MonthFromTime(t), DateFromTime(t)), TimeWithinDay(t))
  }

  function SetMonth(t: int, m: int): int
  {
    MakeDate(MakeDay(YearFromTime(t), m, DateFromTime(t)), TimeWithinDay(t))
  }

  function SetDate(t: int, d: int): int
  {
    MakeDate(MakeDay(YearFromTime(t), MonthFromTime(t), d), TimeWithinDay(t))
  }

  function SetHours(t: int, h: int): int
  {
    MakeDate(Day(t), MakeTime(h, MinFromTime(t), SecFromTime(t), MsFromTime(t)))
  }

  function SetMinutes(t: int, m: int): int
  {
    MakeDate(Day(t), MakeTime(HourFromTime(t), m, SecFromTime(t), MsFromTime(t)))
  }

  function SetSeconds(t: int, s: int): int
  {
    MakeDate(Day(t), MakeTime(HourFromTime(t), MinFromTime(t), s, MsFromTime(t)))
  }

  function SetMilliseconds(t: int, ms: int): int
  {
    MakeDate(Day(t), MakeTime(HourFromTime(t), MinFromTime(t), SecFromTime(t), ms))
  }

  // ===== proofs =====

  /** Euclidean division is determined by a quotient and an in-range
      remainder. */
  lemma DivMod(x: int, d: int, q: int, r: int)
    requires 0 < d && 0 <= r < d && x == q * d + r
    ensures x / d == q && x % d == r
  {
    var q', r' := x / d, x % d;
    assert (q - q') * d == r' - r;
    if q > q' {
      MulAtLeast(q - q', d);
    } else if q < q' {
      MulAtLeast(q' - q, d);
    }
  }

  lemma {:induction false} MulAtLeast(k: int, d: int)
    requires 1 <= k && 0 < d
    ensures d <= k * d
    decreases k
  {
    if k > 1 {
      MulAtLeast(k - 1, d);
      assert k * d == (k - 1) * d + d;
    }
  }

  /** Day(t) and the four time fields recover a day number and an in-range
      time of day. */
  lemma TimeSplit(day: int, h: int, mi: int, s: int, ms: int)
    requires 0 <= h < 24 && 0 <= mi < 60 && 0 <= s < 60 && 0 <= ms < 1000
    ensures var t := MakeDate(day, MakeTime(h, mi, s, ms));
      Day(t) == day && TimeWithinDay(t) == MakeTime(h, mi, s, ms)
      && HourFromTime(t) == h && MinFromTime(t) == mi
      && SecFromTime(t) == s && MsFromTime(t) == ms
  {
    var t := MakeDate(day, MakeTime(h, mi, s, ms));
    DivMod(t, 86400000, day, MakeTime(h, mi, s, ms));
    DivMod(t, 3600000, day * 24 + h, mi * 60000 + s * 1000 + ms);
    DivMod(day * 24 + h, 24, day, h);
    DivMod(t, 60000, day * 1440 + h * 60 + mi, s * 1000 + ms);
    DivMod(day * 1440 + h * 60 + mi, 60, day * 24 + h, mi);
    DivMod(t, 1000, day * 86400 + h * 3600 + mi * 60 + s, ms);
    DivMod(day * 86400 + h * 3600 + mi * 60 + s, 60, day * 1440 + h * 60 + mi, s);
  }

  /** Every instant is its day plus the time made from its four time fields. */
  lemma TimeJoin(t: int)
    ensures 0 <= HourFromTime(t) < 24 && 0 <= MinFromTime(t) < 60
    ensures 0 <= SecFromTime(t) < 60 && 0 <= MsFromTime(t) < 1000
    ensures TimeWithinDay(t) == MakeTime(HourFromTime(t), MinFromTime(t), SecFromTime(t), MsFromTime(t))
    ensures t == MakeDate(Day(t), TimeWithinDay(t))
  {
    var day, tod := t / 86400000, t % 86400000;
    var h := tod / 3600000;
    var r1 := tod % 3600000;
    var mi := r1 / 60000;
    var r2 := r1 % 60000;
    var s := r2 / 1000;
    var ms := r2 % 1000;
    assert t == MakeDate(day, MakeTime(h, mi, s, ms));
    TimeSplit(day, h, mi, s, ms);
  }

  /** DayFromYear in terms of the cycle decomposition of the year before. */
  lemma YearStart(a: int, b: int, c: int, e: int)
    requires 0 <= b <= 3 && 0 <= c <= 24 && 0 <= e <= 3
    ensures DayFromYear(1 + 400 * a + 100 * b + 4 * c + e) + 719162 == Compose(a, b, c, e, 0)
  {
    var y := 1 + 400 * a + 100 * b + 4 * c + e;
    assert y - 1969 == (100 * a + 25 * b + c - 492) * 4 + e;
    assert (y - 1969) / 4 == 100 * a + 25 * b + c - 492;
    assert y - 1901 == (4 * a + b - 19) * 100 + (4 * c + e);
    assert (y - 1901) / 100 == 4 * a + b - 19;
    assert y - 1601 == (a - 4) * 400 + (100 * b + 4 * c + e);
    assert (y - 1601) / 400 == a - 4;
  }

  /** The leap years are the last of a 4-year group, except the last group of
      a 100-year block that does not close a 400-year cycle. */
  lemma LeapOfYear(a: int, b: int, c: int, e: int)
    requires 0 <= b <= 3 && 0 <= c <= 24 && 0 <= e <= 3
    ensures InLeapYear(1 + 400 * a + 100 * b + 4 * c + e) <==> (e == 3 && (c != 24 || b == 3))
  {
    var y := 1 + 400 * a + 100 * b + 4 * c + e;
    if e < 3 {
      DivMod(y, 4, 100 * a + 25 * b + c, e + 1);
    } else {
      DivMod(y, 4, 100 * a + 25 * b + c + 1, 0);
      if c < 24 {
        DivMod(y, 100, 4 * a + b, 4 * (c + 1));
      } else {
        DivMod(y, 100, 4 * a + b + 1, 0);
        if b < 3 {
          DivMod(y, 400, a, 100 * (b + 1));
        } else {
          DivMod(y, 400, a + 1, 0);
        }
      }
    }
  }

  lemma SplitSound(n: int)
    ensures var (a, b, c, e, doy) := Split(n);
      SplitOk(a, b, c, e, doy) && n == Compose(a, b, c, e, doy)
  {
  }

  lemma SplitUnique(a: int, b: int, c: int, e: int, doy: int)
    requires SplitOk(a, b, c, e, doy)
    ensures Split(Compose(a, b, c, e, doy)) == (a, b, c, e, doy)
  {
    var n := Compose(a, b, c, e, doy);
    var r := 36524 * b + 1461 * c + 365 * e + doy;
    assert n == a * 146097 + r;
    assert 0 <= r < 146097;
    assert n / 146097 == a && n % 146097 == r;
    var r2 := 1461 * c + 365 * e + doy;
    if b < 3 {
      assert r == b * 36524 + r2 && r2 < 36524;
      assert r / 36524 == b;
    } else {
      assert r / 36524 >= 3;
    }
    var r3 := 365 * e + doy;
    assert r2 == c * 1461 + r3 && 0 <= r3 < 1461;
    assert r2 / 1461 == c && r2 % 1461 == r3;
    if e < 3 {
      assert r3 == e * 365 + doy && doy < 365;
      assert r3 / 365 == e;
    } else {
      assert r3 / 365 >= 3;
    }
  }

  /** YearOfDay is ECMA-262's YearFromTime: the year whose first day is the
      last one not after d. */
  lemma YearOfDayBounds(d: int)
    ensures DayFromYear(YearOfDay(d)) <= d < DayFromYear(YearOfDay(d)) + DaysInYear(YearOfDay(d))
  {
    var (a, b, c, e, doy) := Split(d + 719162);
    SplitSound(d + 719162);
    YearStart(a, b, c, e);
    LeapOfYear(a, b, c, e);
  }

  /** Every year is 1 plus its 400-year cycles, 100-year blocks, 4-year
      groups and single years. */
  lemma YearDigits(y: int) returns (a: int, b: int, c: int, e: int)
    ensures 0 <= b <= 3 && 0 <= c <= 24 && 0 <= e <= 3
    ensures y == 1 + 400 * a + 100 * b + 4 * c + e
  {
    var x := y - 1;
    a := x / 400;
    var x1 := x % 400;
    b := x1 / 100;
    var x2 := x1 % 100;
    c := x2 / 4;
    e := x2 % 4;
  }

  /** A day number that lies inside year y belongs to year y. */
  lemma YearOfDayUnique(y: int, doy: int)
    requires 0 <= doy < DaysInYear(y)
    ensures YearOfDay(DayFromYear(y) + doy) == y
  {
    var a, b, c, e := YearDigits(y);
    YearStart(a, b, c, e);
    LeapOfYear(a, b, c, e);
    SplitUnique(a, b, c, e, doy);
    var n := DayFromYear(y) + doy + 719162;
    assert n == Compose(a, b, c, e, doy);
    assert Split(n) == (a, b, c, e, doy);
  }

  lemma {:induction false} FindMonthBounds(doy: int, leap: bool, m: int)
    requires 0 <= m < 12 && CumDays(m, leap) <= doy < CumDays(12, leap)
    ensures var r := FindMonth(doy, leap, m); CumDays(r, leap) <= doy < CumDays(r + 1, leap)
    decreases 12 - m
  {
    if m < 11 && doy >= CumDays(m + 1, leap) {
      FindMonthBounds(doy, leap, m + 1);
    }
  }

  lemma {:induction false} FindMonthUnique(doy: int, leap: bool, m: int, k: int)
    requires 0 <= m <= k < 12 && CumDays(k, leap) <= doy < CumDays(k + 1, leap)
    ensures FindMonth(doy, leap, m) == k
    decreases 12 - m
  {
    if m < k {
      assert CumDays(m + 1, leap) <= CumDays(k, leap);
      FindMonthUnique(doy, leap, m + 1, k);
    }
  }

  /** The fields of every instant are in range. */
  lemma FieldsValid(t: int)
    ensures ValidFields(FieldsOf(t))
  {
    var y := YearFromTime(t);
    var leap := InLeapYear(y);
    YearOfDayBounds(Day(t));
    FindMonthBounds(DayWithinYear(t), leap, 0);
    TimeJoin(t);
  }

  /** Every instant is the instant of its own fields. */
  lemma TimeOfFieldsOf(t: int)
    ensures TimeOf(FieldsOf(t)) == t
  {
    var f := FieldsOf(t);
    MonthNoRoll(f.year, f.month0, f.date);
    TimeJoin(t);
    assert MakeDay(f.year, f.month0, f.date) == Day(t);
  }

  /** MakeDay of an in-range month needs no rollover. */
  lemma MonthNoRoll(y: int, m: int, d: int)
    requires 0 <= m < 12
    ensures MakeDay(y, m, d) == DayFromYear(y) + CumDays(m, InLeapYear(y)) + d - 1
  {
    DivMod(m, 12, 0, m);
  }

  /** An instant on the day of a valid date has that date's year, month and
      day of month. */
  lemma DateOfDay(t: int, y: int, m: int, d: int)
    requires 0 <= m < 12 && 1 <= d <= DaysInMonth(y, m)
    requires Day(t) == DayFromYear(y) + CumDays(m, InLeapYear(y)) + d - 1
    ensures YearFromTime(t) == y && MonthFromTime(t) == m && DateFromTime(t) == d
  {
    var leap := InLeapYear(y);
    var doy := CumDays(m, leap) + d - 1;
    assert CumDays(m + 1, leap) <= CumDays(12, leap);
    YearOfDayUnique(y, doy);
    assert DayWithinYear(t) == doy;
    FindMonthUnique(doy, leap, 0, m);
  }

  /** In-range fields are the fields of their own instant. */
  lemma FieldsOfTimeOf(f: DateFields)
    requires ValidFields(f)
    ensures FieldsOf(TimeOf(f)) == f
  {
    var day := MakeDay(f.year, f.month0, f.date);
    MonthNoRoll(f.year, f.month0, f.date);
    TimeSplit(day, f.hours, f.minutes, f.seconds, f.ms);
    DateOfDay(TimeOf(f), f.year, f.month0, f.date);
  }

  /** Two instants with the same fields are the same instant. */
  lemma FieldsInjective(t: int, u: int)
    requires FieldsOf(t) == FieldsOf(u)
    ensures t == u
  {
    TimeOfFieldsOf(t);
    TimeOfFieldsOf(u);
  }

  /** Each setter makes the instant of the current fields with one of them
      replaced, whatever the new value; an out-of-range value rolls over as
      TimeOf does. */
  lemma SettersAreTimeOf(t: int, v: int)
    ensures SetFullYear(t, v) == TimeOf(FieldsOf(t).(year := v))
    ensures SetMonth(t, v) == TimeOf(FieldsOf(t).(month0 := v))
    ensures SetDate(t, v) == TimeOf(FieldsOf(t).(date := v))
    ensures SetHours(t, v) == TimeOf(FieldsOf(t).(hours := v))
    ensures SetMinutes(t, v) == TimeOf(FieldsOf(t).(minutes := v))
    ensures SetSeconds(t, v) == TimeOf(FieldsOf(t).(seconds := v))
    ensures SetMilliseconds(t, v) == TimeOf(FieldsOf(t).(ms := v))
  {
    TimeJoin(t);
    TimeOfFieldsOf(t);
    var f := FieldsOf(t);
    MonthNoRoll(f.year, f.month0, f.date);
  }

  lemma DaysInMonthAtMost31(y: int, m: int)
    requires 0 <= m < 12
    ensures 28 <= DaysInMonth(y, m) <= 31
  {
  }

  /** A month shorter than 31 days is followed by one of 31 days. */
  lemma ShortMonthNext(y: int, m: int)
    requires 0 <= m < 12 && DaysInMonth(y, m) < 31
    ensures m < 11 && DaysInMonth(y, m + 1) == 31
  {
  }

  /** A date past the end of month m is a date of month m + 1. */
  lemma MonthRollsOver(f: DateFields)
    requires 0 <= f.month0 < 11
    ensures TimeOf(f) == TimeOf(f.(month0 := f.month0 + 1, date := f.date - DaysInMonth(f.year, f.month0)))
  {
    MonthNoRoll(f.year, f.month0, f.date);
    MonthNoRoll(f.year, f.month0 + 1, f.date - DaysInMonth(f.year, f.month0));
  }

  /** The month after an overlong date exists and the date reduced by the
      length of month m fits in it. */
  lemma PastEndValid(n: DateFields, m: int)
    requires ValidFields(n) && 0 <= m < 12 && n.date > DaysInMonth(n.year, m)
    ensures m < 11
    ensures ValidFields(n.(month0 := m + 1, date := n.date - DaysInMonth(n.year, m)))
  {
    DaysInMonthAtMost31(n.year, n.month0);
    DaysInMonthAtMost31(n.year, m);
    ShortMonthNext(n.year, m);
  }

  /** The month after an overlong date: month m + 1 exists, the date
      reduced by the length of month m fits in it, and both name one
      instant. */
  lemma PastEndFields(n: DateFields, m: int)
    requires ValidFields(n) && 0 <= m < 12 && n.date > DaysInMonth(n.year, m)
    ensures m < 11
    ensures ValidFields(n.(month0 := m + 1, date := n.date - DaysInMonth(n.year, m)))
    ensures TimeOf(n.(month0 := m)) == TimeOf(n.(month0 := m + 1, date := n.date - DaysInMonth(n.year, m)))
  {
    PastEndValid(n, m);
    MonthRollsOver(n.(month0 := m));
  }

  /** Changing only the milliseconds moves the instant by the difference. */
  lemma TimeOfMs(f: DateFields, ms: int)
    ensures TimeOf(f.(ms := ms)) == TimeOf(f) - f.ms + ms
  {
  }
}
