/** The Mymont value object of the current engine: an instant and the
    template its toString uses when none is given. Every operation returns a
    new value. The clock is the parameter `now`, read only where the engine
    would create a Date without arguments. */
module Moments {
  import opened Wrappers
  import opened Numbers
  import opened Calendar
  import opened Tokens
  import opened Sorting
  import opened Formatter
  import opened Parser
  import opened Pattern
  import HostDate

  datatype Mymont = Mymont(time: int, formatStr: string)

  /** The argument of Mymont.of: a number, or a host Date, given by its time
      value. */
  datatype Instant = Number(n: int) | DateObject(t: int)

  /** Mymont.of: a Date keeps the format it is given; a number always gets
      the default format. */
  function Of(val: Instant, formatStr: Option<string>): (m: Mymont)
    ensures val.Number? ==> m == Mymont(val.n, DefaultFormat)
    ensures val.DateObject? ==> m.time == val.t
    ensures m.formatStr != DefaultFormat ==> val.DateObject? && formatStr == Some(m.formatStr)
    ensures val.DateObject? && formatStr.Some? ==> m.formatStr == formatStr.value
    ensures val.DateObject? && formatStr.None? ==> m.formatStr == DefaultFormat
  {
    match val
    case Number(n) => Mymont(n, DefaultFormat)
    case DateObject(t) => Mymont(t, if formatStr.Some? then formatStr.value else DefaultFormat)
  }

  /** Mymont.now, with the clock read as now. */
  function Now(now: int, formatStr: Option<string>): (m: Mymont)
    ensures m.time == now
    ensures formatStr.Some? ==> m.formatStr == formatStr.value
    ensures formatStr.None? ==> m.formatStr == DefaultFormat
  {
    Of(DateObject(now), formatStr)
  }

  /** The template a parse uses: the given one, else the default. */
  function TemplateOr(formatStr: Option<string>): string
  {
    if formatStr.Some? then formatStr.value else DefaultFormat
  }

  /** Mymont.parse: parseDate gives a number, so the result always carries the
      default format, whatever template was used to read it. The date is
      read as the engine reads it, setter by setter from the clock. */
  function Parse(value: string, formatStr: Option<string>, now: int): (m: Mymont)
    ensures m.formatStr == DefaultFormat
    ensures Exec(Compile(TemplateOr(formatStr)).pattern, value).None? ==> m.time == -1
  {
    Of(Number(ParseDateSpec(value, TemplateOr(formatStr), now)), formatStr)
  }

  /** Mymont.parse over the corrected parseDate, which sets the parsed
      fields together and so never rolls a month over. */
  function ParseFixed(value: string, formatStr: Option<string>, now: int): (m: Mymont)
    ensures m.formatStr == DefaultFormat
    ensures Exec(Compile(TemplateOr(formatStr)).pattern, value).None? ==> m.time == -1
  {
    Of(Number(ParseDateFixed(value, TemplateOr(formatStr), now)), formatStr)
  }

  /** The getters year, month, date, hours, minutes, seconds and
      milliSeconds: the month reads one-based, and every getter but year
      reads a value in its field's range. */
  function Get(m: Mymont, f: Field): (r: int)
    ensures f == Month ==> 1 <= r <= 12
    ensures f == Date ==> 1 <= r <= 31
    ensures f == Hours ==> 0 <= r < 24
    ensures f == Minutes || f == Seconds ==> 0 <= r < 60
    ensures f == MilliSeconds ==> 0 <= r < 1000
  {
    FieldsValid(m.time);
    FieldValue(FieldsOf(m.time), f)
  }

  /** The weekDay getter: the host's getDay, Sunday being 0. Day 0 of the
      time value, 1 January 1970, was a Thursday. */
  function WeekDay(m: Mymont): (r: int)
    ensures 0 <= r < 7
  {
    (Day(m.time) + 4) % 7
  }

  /** toString(f) formats with f when f is truthy (given and not empty),
      otherwise with the instance's own format. */
  function ToString(m: Mymont, f: Option<string>): string
  {
    FormatDate(m.time, if f.Some? && f.value != "" then f.value else m.formatStr)
  }

  // ----- move -----

  /** The milliseconds calcDuration gives one unit of key: a year counts 365
      days, a month 30 days, and any key it does not know (milliSeconds,
      date and the rest) counts one millisecond. */
  function UnitMs(key: string): (u: int)
    ensures u >= 1
  {
    if key == "year" then 365 * 86400000
    else if key == "month" then 30 * 86400000
    else if key == "day" then 86400000
    else if key == "hours" then 3600000
    else if key == "minutes" then 60000
    else if key == "seconds" then 1000
    else 1
  }

  /** calcDuration: the value times the size of the key's unit. */
  function CalcDuration(key: string, val: int): (d: int)
    ensures d == val * UnitMs(key)
  {
    match key
    case "year" => val * 365 * 24 * 60 * 60 * 1000
    case "month" => val * 30 * 24 * 60 * 60 * 1000
    case "day" => val * 24 * 60 * 60 * 1000
    case "hours" => val * 60 * 60 * 1000
    case "minutes" => val * 60 * 1000
    case "seconds" => val * 1000
    case _ => val
  }

  /** The reduce of move: each entry's duration added in turn to t. */
  function MoveTime(op: seq<(string, int)>, t: int): int
  {
    if op == [] then t else MoveTime(op[1..], t + CalcDuration(op[0].0, op[0].1))
  }

  /** Sum of the durations of the entries. */
  function Offset(op: seq<(string, int)>): int
  {
    if op == [] then 0 else CalcDuration(op[0].0, op[0].1) + Offset(op[1..])
  }

  /** move: the instant moves by the sum of the entries' durations; the new
      instance is a number, so it carries the default format. */
  function Move(m: Mymont, op: seq<(string, int)>): (r: Mymont)
    ensures r == Mymont(m.time + Offset(op), DefaultFormat)
  {
    MoveTimeOffset(op, m.time);
    Of(Number(MoveTime(op, m.time)), None)
  }

  /** The entries with every value negated. */
  function Negated(op: seq<(string, int)>): (r: seq<(string, int)>)
    ensures |r| == |op|
  {
    if op == [] then [] else [(op[0].0, -op[0].1)] + Negated(op[1..])
  }

  // ----- change -----

  /** The handles of the table, in table order, whose key is in keys. */
  function Filter(hs: seq<Field>, keys: set<string>): seq<Field>
  {
    if hs == [] then []
    else (if Key(hs[0]) in keys then [hs[0]] else []) + Filter(hs[1..], keys)
  }

  /** lookKeys: the handles whose key is one of the object's keys, sorted
      with sortHandles. */
  function LookKeys(keys: set<string>): seq<Field>
  {
    SortBy(Filter(TokenHandles, keys), SortWeight)
  }

  /** The setter calls change makes: for each handle lookKeys yields, the
      target's value, which toString and parseInt carry over unchanged. */
  function ChangeSteps(target: map<string, int>): seq<(Field, int)>
  {
    var hs := LookKeys(target.Keys);
    seq(|hs|, i requires 0 <= i < |hs| => (hs[i], if Key(hs[i]) in target then target[Key(hs[i])] else 0))
  }

  /** change: the steps applied to the instance's instant; Mymont.of on the
      resulting Date gives the default format, and an empty target keeps
      the instant. */
  function ChangeSpec(m: Mymont, target: map<string, int>): (r: Mymont)
    ensures r.formatStr == DefaultFormat
    ensures target == map[] ==> r.time == m.time
  {
    LookKeysSpec(target.Keys);
    Of(DateObject(ApplyAll(ChangeSteps(target), m.time)), None)
  }

  /** change, with its working Date. */
  method Change(m: Mymont, target: map<string, int>) returns (r: Mymont)
    ensures r == ChangeSpec(m, target)
  {
    var d := new HostDate.JsDate(m.time);
    var hs := LookKeys(target.Keys);
    ghost var steps := ChangeSteps(target);
    LookKeysSpec(target.Keys);
    var i := 0;
    while i < |hs|
      invariant 0 <= i <= |hs| && |steps| == |hs|
      invariant ApplyAll(steps[i..], d.time) == ApplyAll(steps, m.time)
    {
      var h := hs[i];
      var val := target[Key(h)];
      ParseIntNumToString(val);
      assert steps[i..][0] == (h, val);
      assert steps[i..][1..] == steps[i + 1..];
      ParsePart(h, NumToString(val), d);
      i := i + 1;
    }
    r := Of(DateObject(d.time), None);
  }

  // ----- startOf and endOf -----

  /** The reduce of startOf: each handle's key set to its minValue || 0. */
  function TargetFold(d: map<string, int>, hs: seq<Field>): map<string, int>
    decreases |hs|
  {
    if hs == [] then d else TargetFold(d[Key(hs[0]) := MinValue(hs[0])], hs[1..])
  }

  function TargetMap(hs: seq<Field>): map<string, int>
  {
    TargetFold(map[], hs)
  }

  /** startOf: an unknown key and milliSeconds give the instance itself;
      any other key resets every handle after it to its minimum. */
  function StartOf(m: Mymont, key: string): Mymont
  {
    var i := IndexOfKey(key);
    if i == -1 || key == "milliSeconds" then m
    else ChangeSpec(m, TargetMap(TokenHandles[i + 1..]))
  }

  /** The move key endOf steps by: 'date' counts as 'day'. */
  function UnitKey(key: string): string
  {
    if key == "date" then "day" else key
  }

  /** endOf: milliSeconds gives the instance itself; any other key moves
      one unit on ('date' counts as 'day'), takes startOf and steps back one
      millisecond. */
  function EndOf(m: Mymont, key: string): Mymont
  {
    if key == "milliSeconds" then m
    else Move(StartOf(Move(m, [(UnitKey(key), 1)]), key), [("milliSeconds", -1)])
  }

  // ----- comparison -----

  /** The argument of the is* methods: a string, or another instance. */
  datatype DateArg = Text(s: string) | Moment(m: Mymont)

  /** tryParse: a string is parsed with the given format. */
  function TryParse(date: DateArg, formatStr: string, now: int): (m: Mymont)
    ensures date.Moment? ==> m == date.m
    ensures date.Text? ==> m.formatStr == DefaultFormat
  {
    match date
    case Text(s) => Parse(s, Some(formatStr), now)
    case Moment(m) => m
  }

  /** The comparison each is* method passes to compareMyment. */
  datatype Relation = Before | After | Same | SameOrBefore | SameOrAfter

  predicate Holds(rel: Relation, a: int, b: int)
  {
    match rel
    case Before => a < b
    case After => a > b
    case Same => a == b
    case SameOrBefore => a <= b
    case SameOrAfter => a >= b
  }

  /** compareMyment: raw times without a key or with milliSeconds, else the
      times of both sides' startOf(key). */
  predicate CompareMyment(a: Mymont, b: Mymont, rel: Relation, key: Option<string>)
    ensures a == b ==> (CompareMyment(a, b, rel, key) <==> rel in {Same, SameOrBefore, SameOrAfter})
  {
    var (x, y) := ComparedTimes(a, b, key);
    Holds(rel, x, y)
  }

  /** The two times compareMyment hands to the comparison. */
  function ComparedTimes(a: Mymont, b: Mymont, key: Option<string>): (int, int)
  {
    var k := if key.Some? then key.value else "milliSeconds";
    if k == "milliSeconds" then (a.time, b.time)
    else (StartOf(a, k).time, StartOf(b, k).time)
  }

  /** isBefore, isAfter, isSame, isSameOrBefore and isSameOrAfter: the
      argument is read with the receiver's format. */
  predicate Is(m: Mymont, rel: Relation, date: DateArg, key: Option<string>, now: int)
    ensures date == Moment(m) ==> (Is(m, rel, date, key, now) <==> rel in {Same, SameOrBefore, SameOrAfter})
  {
    CompareMyment(m, TryParse(date, m.formatStr, now), rel, key)
  }

  // ===== proofs =====

  /** The handles lookKeys yields are those whose key is given, each once, in
      ascending sort weight, which is the table order. */
  lemma LookKeysSpec(keys: set<string>)
    ensures SortedBy(LookKeys(keys), SortWeight)
    ensures forall f :: f in LookKeys(keys) <==> Key(f) in keys
    ensures LookKeys(keys) == Filter(TokenHandles, keys)
  {
    var hs := Filter(TokenHandles, keys);
    FilterSpec(TokenHandles, keys);
    TableSorted();
    FilterSorted(TokenHandles, keys);
    SortBySorted(hs, SortWeight);
  }

  lemma {:induction false} FilterSpec(hs: seq<Field>, keys: set<string>)
    ensures forall f :: f in Filter(hs, keys) <==> f in hs && Key(f) in keys
  {
    if hs != [] {
      FilterSpec(hs[1..], keys);
      assert forall f :: f in hs <==> f == hs[0] || f in hs[1..];
    }
  }

  lemma TableSorted()
    ensures SortedBy(TokenHandles, SortWeight)
    ensures forall f :: f in TokenHandles
  {
    forall i, j | 0 <= i < j < |TokenHandles| ensures SortWeight(TokenHandles[i]) <= SortWeight(TokenHandles[j]) {
      TableInWeightOrder(TokenHandles[i]);
      TableInWeightOrder(TokenHandles[j]);
    }
    forall f ensures f in TokenHandles {
      TableInWeightOrder(f);
    }
  }

  lemma {:induction false} FilterSorted(hs: seq<Field>, keys: set<string>)
    requires SortedBy(hs, SortWeight)
    ensures SortedBy(Filter(hs, keys), SortWeight)
  {
    if hs != [] {
      var tail := hs[1..];
      assert SortedBy(tail, SortWeight) by {
        forall i, j | 0 <= i < j < |tail| ensures SortWeight(tail[i]) <= SortWeight(tail[j]) {
          assert tail[i] == hs[i + 1] && tail[j] == hs[j + 1];
        }
      }
      FilterSorted(tail, keys);
      FilterSpec(tail, keys);
      var r := Filter(hs, keys);
      var rest := Filter(tail, keys);
      if Key(hs[0]) in keys {
        assert r == [hs[0]] + rest;
        forall i, j | 0 <= i < j < |r| ensures SortWeight(r[i]) <= SortWeight(r[j]) {
          if i == 0 {
            assert r[j] == rest[j - 1] && r[j] in tail;
            var k :| 0 <= k < |tail| && tail[k] == r[j];
            assert tail[k] == hs[k + 1];
          } else {
            assert r[i] == rest[i - 1] && r[j] == rest[j - 1];
          }
        }
      } else {
        assert r == rest;
      }
    }
  }

  // ----- getters, parse and toString -----

  /** The date getter reads a day of the month the month getter names. */
  lemma GetRanges(m: Mymont)
    ensures 1 <= Get(m, Date) <= DaysInMonth(Get(m, Year), Get(m, Month) - 1)
  {
    FieldsValid(m.time);
  }

  /** Two instances whose getters all agree denote the same instant. */
  lemma GettersDetermineTime(a: Mymont, b: Mymont)
    requires forall g :: Get(a, g) == Get(b, g)
    ensures a.time == b.time
  {
    var fa, fb := FieldsOf(a.time), FieldsOf(b.time);
    forall g ensures FieldValue(fa, g) == FieldValue(fb, g) {
      assert Get(a, g) == Get(b, g);
    }
    FieldValuesDetermine(fa, fb);
    FieldsInjective(a.time, b.time);
  }

  /** Parsing what toString printed with a template that separates its
      groups gives back every field the template names; the others come
      from now. The result carries the default format. This holds for the
      engine's parse when the clock's date is at most 28 and a template
      with the date also has the year and the month, so that no setter
      rolls over. */
  lemma ParseToString(m: Mymont, f: string, now: int)
    requires f != "" && Separated(Compile(f).pattern) && 1000 <= YearFromTime(m.time) <= 9999
    requires DateFromTime(now) <= 28
    requires Date in Compile(f).handles ==> Year in Compile(f).handles && Month in Compile(f).handles
    ensures Parse(ToString(m, Some(f)), Some(f), now)
      == Mymont(TimeOf(Overlay(FieldsOf(now), FieldsOf(m.time), set g | g in Compile(f).handles)), DefaultFormat)
  {
    ParseFormatAsWritten(m.time, f, now);
  }

  /** The same round trip through the corrected parse, for every clock. */
  lemma ParseFixedToString(m: Mymont, f: string, now: int)
    requires f != "" && Separated(Compile(f).pattern) && 1000 <= YearFromTime(m.time) <= 9999
    ensures ParseFixed(ToString(m, Some(f)), Some(f), now)
      == Mymont(TimeOf(Overlay(FieldsOf(now), FieldsOf(m.time), set g | g in Compile(f).handles)), DefaultFormat)
  {
    ParseFormatRoundTrip(m.time, f, now);
  }

  /** With the default template the round trip loses only the
      milliseconds, which come from now, as long as the clock fits the
      printed month; otherwise the engine lands one month late. */
  lemma ParseToStringDefault(m: Mymont, now: int)
    requires m.formatStr == DefaultFormat && 1000 <= YearFromTime(m.time) <= 9999
    ensures ClockFits(now, YearFromTime(m.time), MonthFromTime(m.time)) ==>
      Parse(ToString(m, None), None, now) == Mymont(m.time - MsFromTime(m.time) + MsFromTime(now), DefaultFormat)
    ensures !ClockFits(now, YearFromTime(m.time), MonthFromTime(m.time)) ==>
      Parse(ToString(m, None), None, now)
        == Mymont(TimeOf(FieldsOf(m.time).(month0 := MonthFromTime(m.time) + 1, ms := MsFromTime(now))), DefaultFormat)
  {
    if ClockFits(now, YearFromTime(m.time), MonthFromTime(m.time)) {
      ParseToStringFits(m, now);
    } else {
      ParseToStringRolled(m, now);
    }
  }

  lemma ParseToStringFits(m: Mymont, now: int)
    requires m.formatStr == DefaultFormat && 1000 <= YearFromTime(m.time) <= 9999
    requires ClockFits(now, YearFromTime(m.time), MonthFromTime(m.time))
    ensures Parse(ToString(m, None), None, now) == Mymont(m.time - MsFromTime(m.time) + MsFromTime(now), DefaultFormat)
  {
    ParseDefaultAsWritten(m.time, now);
  }

  lemma ParseToStringRolled(m: Mymont, now: int)
    requires m.formatStr == DefaultFormat && 1000 <= YearFromTime(m.time) <= 9999
    requires !ClockFits(now, YearFromTime(m.time), MonthFromTime(m.time))
    ensures Parse(ToString(m, None), None, now)
      == Mymont(TimeOf(FieldsOf(m.time).(month0 := MonthFromTime(m.time) + 1, ms := MsFromTime(now))), DefaultFormat)
  {
    SpecRollsOver(m.time, now);
  }

  /** Through the corrected parse the default round trip loses only the
      milliseconds, for every clock. */
  lemma ParseFixedToStringDefault(m: Mymont, now: int)
    requires m.formatStr == DefaultFormat && 1000 <= YearFromTime(m.time) <= 9999
    ensures ParseFixed(ToString(m, None), None, now)
      == Mymont(m.time - MsFromTime(m.time) + MsFromTime(now), DefaultFormat)
  {
    ParseDefaultRoundTrip(m.time, now);
  }

  // ----- move -----

  lemma {:induction false} MoveTimeOffset(op: seq<(string, int)>, t: int)
    ensures MoveTime(op, t) == t + Offset(op)
  {
    if op != [] {
      MoveTimeOffset(op[1..], t + CalcDuration(op[0].0, op[0].1));
    }
  }

  lemma {:induction false} OffsetAppend(a: seq<(string, int)>, b: seq<(string, int)>)
    ensures Offset(a + b) == Offset(a) + Offset(b)
  {
    if a != [] {
      assert (a + b)[0] == a[0] && (a + b)[1..] == a[1..] + b;
      OffsetAppend(a[1..], b);
    } else {
      assert a + b == b;
    }
  }

  lemma {:induction false} OffsetNegated(op: seq<(string, int)>)
    ensures Offset(Negated(op)) == -Offset(op)
  {
    if op != [] {
      var r := Negated(op);
      assert r[0] == (op[0].0, -op[0].1) && r[1..] == Negated(op[1..]);
      OffsetNegated(op[1..]);
    }
  }

  /** Moving by nothing keeps the instant. */
  lemma MoveNothing(m: Mymont)
    ensures Move(m, []).time == m.time
  {
  }

  /** Two moves in a row are one move by both sets of entries. */
  lemma MoveAdditive(m: Mymont, a: seq<(string, int)>, b: seq<(string, int)>)
    ensures Move(Move(m, a), b) == Move(m, a + b)
  {
    OffsetAppend(a, b);
  }

  /** Moving back by the negated entries undoes a move. */
  lemma MoveInverse(m: Mymont, op: seq<(string, int)>)
    ensures Move(Move(m, op), Negated(op)).time == m.time
  {
    OffsetNegated(op);
  }

  // ----- change -----

  /** Step i of change sets handle i of lookKeys to the target's value for
      its key; the steps name exactly the handles whose key the target has,
      in ascending sort weight. */
  lemma ChangeStepsSpec(target: map<string, int>)
    ensures var steps := ChangeSteps(target);
      forall i :: 0 <= i < |steps| ==> Key(steps[i].0) in target && steps[i].1 == target[Key(steps[i].0)]
    ensures var steps := ChangeSteps(target);
      forall g :: (exists i :: 0 <= i < |steps| && steps[i].0 == g) <==> Key(g) in target
  {
    var hs := LookKeys(target.Keys);
    var steps := ChangeSteps(target);
    LookKeysSpec(target.Keys);
    forall g | Key(g) in target ensures exists i :: 0 <= i < |steps| && steps[i].0 == g {
      var i :| 0 <= i < |hs| && hs[i] == g;
      assert steps[i].0 == g;
    }
    forall i | 0 <= i < |steps| ensures Key(steps[i].0) in target {
      assert steps[i].0 == hs[i] && hs[i] in hs;
    }
  }

  lemma KeyInjective(f: Field, g: Field)
    requires Key(f) == Key(g)
    ensures f == g
  {
  }

  /** When no intermediate date rolls over, change sets exactly the fields
      the target names, to the target's values, and keeps every other. */
  lemma ChangeLands(m: Mymont, target: map<string, int>)
    requires StepsValid(FieldsOf(m.time), ChangeSteps(target))
    ensures ChangeSpec(m, target).formatStr == DefaultFormat
    ensures forall g :: Get(ChangeSpec(m, target), g)
                        == if Key(g) in target then target[Key(g)] else Get(m, g)
  {
    var steps := ChangeSteps(target);
    ApplyAllSetAll(steps, m.time);
    ChangeStepsSpec(target);
    forall g ensures Get(ChangeSpec(m, target), g) == if Key(g) in target then target[Key(g)] else Get(m, g) {
      var v := if Key(g) in target then target[Key(g)] else 0;
      forall i | 0 <= i < |steps| && steps[i].0 == g ensures steps[i].1 == v {
      }
      SetAllValue(FieldsOf(m.time), steps, g, v);
    }
  }

  // ----- startOf and endOf -----

  lemma {:induction false} TargetFoldSpec(d: map<string, int>, hs: seq<Field>)
    ensures forall k :: k in TargetFold(d, hs) <==> k in d || exists g :: g in hs && Key(g) == k
    ensures forall g :: g in hs ==> TargetFold(d, hs)[Key(g)] == MinValue(g)
    ensures forall k :: k in d && (forall g :: g in hs ==> Key(g) != k) ==> TargetFold(d, hs)[k] == d[k]
    decreases |hs|
  {
    if hs != [] {
      var d' := d[Key(hs[0]) := MinValue(hs[0])];
      TargetFoldSpec(d', hs[1..]);
      assert forall g :: g in hs <==> g == hs[0] || g in hs[1..];
    }
  }

  /** The fields an instant keeps when every field finer than f is reset to
      its minimum. */
  function Truncate(v: DateFields, f: Field): DateFields
  {
    var w := SortWeight(f);
    DateFields(v.year,
               if w < 1 then 0 else v.month0,
               if w < 2 then 1 else v.date,
               if w < 3 then 0 else v.hours,
               if w < 4 then 0 else v.minutes,
               if w < 5 then 0 else v.seconds,
               if w < 6 then 0 else v.ms)
  }

  /** An unknown key and milliSeconds leave the instance as it is. */
  lemma StartOfIgnored(m: Mymont, key: string)
    requires (forall f :: Key(f) != key) || key == "milliSeconds"
    ensures StartOf(m, key) == m
  {
    IndexOfKeySpec(key);
  }

  /** The target startOf builds from the handles after index i names
      exactly the fields of weight above i, each with its minimum. */
  lemma FinerTarget(i: int)
    requires 0 <= i < 7
    ensures var target := TargetMap(TokenHandles[i + 1..]);
      forall g :: (Key(g) in target <==> SortWeight(g) > i)
                  && (Key(g) in target ==> target[Key(g)] == MinValue(g))
  {
    var hs := TokenHandles[i + 1..];
    FinerHandles(i);
    TargetKeys(hs);
  }

  /** The handles after index i are the fields of weight above i. */
  lemma FinerHandles(i: int)
    requires 0 <= i < 7
    ensures forall g :: g in TokenHandles[i + 1..] <==> SortWeight(g) > i
  {
    var hs := TokenHandles[i + 1..];
    forall g ensures g in hs <==> SortWeight(g) > i {
      TableInWeightOrder(g);
      if SortWeight(g) > i {
        assert hs[SortWeight(g) - i - 1] == g;
      }
    }
  }

  /** The target built from handles names exactly their keys, each with its
      minimum. */
  lemma TargetKeys(hs: seq<Field>)
    ensures var target := TargetMap(hs);
      forall g :: (Key(g) in target <==> g in hs) && (Key(g) in target ==> target[Key(g)] == MinValue(g))
  {
    var target := TargetMap(hs);
    TargetFoldSpec(map[], hs);
    forall g ensures Key(g) in target <==> g in hs {
      if Key(g) in target {
        var h :| h in hs && Key(h) == Key(g);
        KeyInjective(h, g);
      }
    }
  }

  /** Changing fields to their minimums never rolls over: the named fields
      take their minimum and the others are kept. */
  lemma ChangeToMinimum(m: Mymont, target: map<string, int>)
    requires forall g :: Key(g) in target ==> target[Key(g)] == MinValue(g)
    ensures ChangeSpec(m, target).formatStr == DefaultFormat
    ensures forall g :: Get(ChangeSpec(m, target), g) == if Key(g) in target then MinValue(g) else Get(m, g)
  {
    var steps := ChangeSteps(target);
    ChangeStepsSpec(target);
    forall j | 0 <= j < |steps| ensures steps[j].1 == MinValue(steps[j].0) {
    }
    FieldsValid(m.time);
    MinStepsValid(FieldsOf(m.time), steps);
    ChangeLands(m, target);
  }

  /** startOf a field's key resets every finer field to its minimum and
      keeps the field itself and every coarser one. */
  lemma StartOfFields(m: Mymont, f: Field)
    requires f != MilliSeconds
    ensures StartOf(m, Key(f)).formatStr == DefaultFormat
    ensures forall g :: Get(StartOf(m, Key(f)), g) == if SortWeight(g) > SortWeight(f) then MinValue(g) else Get(m, g)
  {
    ResetAfter(m, SortWeight(f));
    StartOfKey(m, f);
  }

  /** Resetting the handles after index i sets every field of weight above
      i to its minimum and keeps the others. */
  lemma ResetAfter(m: Mymont, i: int)
    requires 0 <= i < 7
    ensures ChangeSpec(m, TargetMap(TokenHandles[i + 1..])).formatStr == DefaultFormat
    ensures forall g ::
      Get(ChangeSpec(m, TargetMap(TokenHandles[i + 1..])), g) == if SortWeight(g) > i then MinValue(g) else Get(m, g)
  {
    FinerTarget(i);
    MinimumAbove(m, TargetMap(TokenHandles[i + 1..]), i);
  }

  /** startOf a field's key other than milliSeconds is the change to the
      minimums of the handles after it. */
  lemma StartOfKey(m: Mymont, f: Field)
    requires f != MilliSeconds
    ensures StartOf(m, Key(f)) == ChangeSpec(m, TargetMap(TokenHandles[SortWeight(f) + 1..]))
  {
    IndexOfFieldKey(f);
    assert Key(f) != "milliSeconds";
  }


  /** change with every field of weight above i at its minimum. */
  lemma MinimumAbove(m: Mymont, target: map<string, int>, i: int)
    requires forall g :: (Key(g) in target <==> SortWeight(g) > i)
                         && (Key(g) in target ==> target[Key(g)] == MinValue(g))
    ensures ChangeSpec(m, target).formatStr == DefaultFormat
    ensures forall g :: Get(ChangeSpec(m, target), g) == if SortWeight(g) > i then MinValue(g) else Get(m, g)
  {
    ChangeToMinimum(m, target);
  }

  /** An instance whose fields are those of m with every field finer than f
      at its minimum is the instant of the truncated fields. */
  lemma TruncatedFields(s: Mymont, m: Mymont, f: Field)
    requires forall g :: Get(s, g) == if SortWeight(g) > SortWeight(f) then MinValue(g) else Get(m, g)
    ensures FieldsOf(s.time) == Truncate(FieldsOf(m.time), f)
    ensures s.time == TimeOf(Truncate(FieldsOf(m.time), f))
  {
    var a, b := FieldsOf(s.time), Truncate(FieldsOf(m.time), f);
    forall g ensures FieldValue(a, g) == FieldValue(b, g) {
      assert Get(s, g) == FieldValue(a, g);
    }
    FieldValuesDetermine(a, b);
    TimeOfFieldsOf(s.time);
  }

  /** startOf is the instant of the truncated fields. */
  lemma StartOfTruncates(m: Mymont, f: Field)
    requires f != MilliSeconds
    ensures FieldsOf(StartOf(m, Key(f)).time) == Truncate(FieldsOf(m.time), f)
    ensures StartOf(m, Key(f)).time == TimeOf(Truncate(FieldsOf(m.time), f))
  {
    StartOfFields(m, f);
    TruncatedFields(StartOf(m, Key(f)), m, f);
  }

  /** Applying startOf twice is applying it once. */
  lemma StartOfIdempotent(m: Mymont, key: string)
    ensures StartOf(StartOf(m, key), key).time == StartOf(m, key).time
  {
    if (forall f :: Key(f) != key) || key == "milliSeconds" {
      StartOfIgnored(m, key);
      StartOfIgnored(StartOf(m, key), key);
    } else {
      var f :| Key(f) == key;
      StartOfIdempotentAt(m, f);
    }
  }

  lemma StartOfIdempotentAt(m: Mymont, f: Field)
    requires f != MilliSeconds
    ensures StartOf(StartOf(m, Key(f)), Key(f)).time == StartOf(m, Key(f)).time
  {
    var s := StartOf(m, Key(f));
    StartOfTruncates(m, f);
    StartOfTruncates(s, f);
    FieldsInjective(StartOf(s, Key(f)).time, s.time);
  }

  /** Rounding an instant given as a day number and a clock down to a whole
      unit u keeps the whole units and drops the remainder below u. */
  lemma ClockRound(t: int, u: int, k: int, r: int)
    requires u > 0 && 0 <= r < u && t == u * k + r
    ensures t - t % u == u * k
  {
    DivMod(t, u, k, r);
  }

  /** The length in milliseconds of one day, hour, minute or second. */
  function ClockUnit(f: Field): int
  {
    match f
    case Date => 86400000
    case Hours => 3600000
    case Minutes => 60000
    case Seconds => 1000
    case _ => 1
  }

  /** The unit endOf moves by for a field below a day is that field's
      length. */
  lemma ClockUnitKey(f: Field)
    requires f == Date || f == Hours || f == Minutes || f == Seconds
    ensures UnitMs(UnitKey(Key(f))) == ClockUnit(f)
  {
  }

  /** Truncating valid fields below a day rounds their instant down to a
      whole unit. */
  lemma TruncateSubDay(v: DateFields, f: Field)
    requires ValidFields(v)
    requires f == Date || f == Hours || f == Minutes || f == Seconds
    ensures TimeOf(Truncate(v, f)) == TimeOf(v) - TimeOf(v) % ClockUnit(f)
  {
    var day := MakeDay(v.year, v.month0, v.date);
    var t := TimeOf(v);
    var tv := Truncate(v, f);
    assert MakeDay(tv.year, tv.month0, tv.date) == day;
    match f
    case Date =>
      ClockRound(t, 86400000, day, v.hours * 3600000 + v.minutes * 60000 + v.seconds * 1000 + v.ms);
    case Hours =>
      ClockRound(t, 3600000, day * 24 + v.hours, v.minutes * 60000 + v.seconds * 1000 + v.ms);
    case Minutes =>
      ClockRound(t, 60000, (day * 24 + v.hours) * 60 + v.minutes, v.seconds * 1000 + v.ms);
    case Seconds =>
      ClockRound(t, 1000, ((day * 24 + v.hours) * 60 + v.minutes) * 60 + v.seconds, v.ms);
  }

  /** Within a year, an earlier month and date give an earlier day. */
  lemma MakeDayMonotone(y: int, m1: int, d1: int, m2: int, d2: int)
    requires 0 <= m1 <= m2 < 12 && d1 <= d2
    ensures MakeDay(y, m1, d1) <= MakeDay(y, m2, d2)
  {
    assert m1 / 12 == 0 && m1 % 12 == m1;
    assert m2 / 12 == 0 && m2 % 12 == m2;
  }

  /** Truncating valid fields never gives a later instant. */
  lemma TruncateNotLater(v: DateFields, f: Field)
    requires ValidFields(v)
    ensures TimeOf(Truncate(v, f)) <= TimeOf(v)
  {
    var tv := Truncate(v, f);
    assert tv.year == v.year && tv.month0 <= v.month0 && tv.date <= v.date;
    assert tv.hours <= v.hours && tv.minutes <= v.minutes && tv.seconds <= v.seconds && tv.ms <= v.ms;
    MakeDayMonotone(v.year, tv.month0, tv.date, v.month0, v.date);
    assert MakeTime(tv.hours, tv.minutes, tv.seconds, tv.ms) <= MakeTime(v.hours, v.minutes, v.seconds, v.ms);
  }

  /** Below a day, startOf rounds the instant down to a whole unit: day for
      'date', hour, minute or second. */
  lemma StartOfSubDay(m: Mymont, f: Field)
    requires f == Date || f == Hours || f == Minutes || f == Seconds
    ensures StartOf(m, Key(f)).time == m.time - m.time % ClockUnit(f)
  {
    StartOfTruncates(m, f);
    TimeOfFieldsOf(m.time);
    FieldsValid(m.time);
    TruncateSubDay(FieldsOf(m.time), f);
  }

  /** startOf never moves an instant forward. */
  lemma StartOfNotLater(m: Mymont, key: string)
    ensures StartOf(m, key).time <= m.time
  {
    IndexOfKeySpec(key);
    if IndexOfKey(key) != -1 && key != "milliSeconds" {
      var f :| Key(f) == key;
      StartOfTruncates(m, f);
      TimeOfFieldsOf(m.time);
      FieldsValid(m.time);
      TruncateNotLater(FieldsOf(m.time), f);
    }
  }

  /** Moving by a single entry adds that many units of its key. */
  lemma MoveOne(m: Mymont, key: string, v: int)
    ensures Move(m, [(key, v)]) == Mymont(m.time + v * UnitMs(key), DefaultFormat)
  {
    var op := [(key, v)];
    assert op[1..] == [];
    assert Offset(op) == CalcDuration(key, v);
  }

  /** Moving by n days moves the weekday on by n, modulo the week. */
  lemma WeekDayAfterDays(m: Mymont, n: int)
    ensures WeekDay(Move(m, [("day", n)])) == (WeekDay(m) + n) % 7
  {
    MoveOne(m, "day", n);
    var t := m.time;
    DivMod(t + n * MsPerDay, MsPerDay, Day(t) + n, TimeWithinDay(t));
    var w, q := (Day(t) + 4) % 7, (Day(t) + 4) / 7;
    DivMod(Day(t) + n + 4, 7, q + (w + n) / 7, (w + n) % 7);
  }

  /** endOf any key but milliSeconds is one millisecond before the startOf
      of the instant one unit later, in the default format. */
  lemma EndOfShape(m: Mymont, key: string)
    requires key != "milliSeconds"
    ensures EndOf(m, key) == Mymont(StartOf(Move(m, [(UnitKey(key), 1)]), key).time - 1, DefaultFormat)
  {
    MoveOne(StartOf(Move(m, [(UnitKey(key), 1)]), key), "milliSeconds", -1);
  }

  /** endOf milliSeconds is the instance itself. */
  lemma EndOfMs(m: Mymont)
    ensures EndOf(m, "milliSeconds") == m
  {
  }

  /** For a key that names no field, startOf does nothing, so endOf moves
      by one unit of the key (one day for 'day', one millisecond for a key
      calcDuration does not know) less one millisecond. */
  lemma EndOfUnknown(m: Mymont, key: string)
    requires forall f :: Key(f) != key
    ensures EndOf(m, key) == Mymont(m.time + UnitMs(key) - 1, DefaultFormat)
  {
    assert Key(Date) != key && Key(MilliSeconds) != key;
    var up := Move(m, [(UnitKey(key), 1)]);
    MoveOne(m, UnitKey(key), 1);
    StartOfIgnored(up, key);
    MoveOne(up, "milliSeconds", -1);
  }

  /** Rounding down one unit later gives one unit more. */
  lemma RoundShift(x: int, y: int, u: int)
    requires u > 0 && y == x + u
    ensures y - y % u == x - x % u + u
  {
    DivMod(y, u, x / u + 1, x % u);
  }

  /** Below a day, the startOf one unit later is one unit later. */
  lemma StartOfNextUnit(m: Mymont, f: Field)
    requires f == Date || f == Hours || f == Minutes || f == Seconds
    ensures StartOf(Move(m, [(UnitKey(Key(f)), 1)]), Key(f)).time == StartOf(m, Key(f)).time + ClockUnit(f)
  {
    var up := Move(m, [(UnitKey(Key(f)), 1)]);
    var u := ClockUnit(f);
    assert up.time == m.time + u by {
      MoveOne(m, UnitKey(Key(f)), 1);
      ClockUnitKey(f);
    }
    StartOfSubDay(up, f);
    StartOfSubDay(m, f);
    RoundShift(m.time, up.time, u);
  }

  /** Below a day, endOf is the last millisecond of the unit startOf
      begins. */
  lemma EndOfSubDay(m: Mymont, f: Field)
    requires f == Date || f == Hours || f == Minutes || f == Seconds
    ensures EndOf(m, Key(f)) == Mymont(StartOf(m, Key(f)).time + ClockUnit(f) - 1, DefaultFormat)
  {
    StartOfNextUnit(m, f);
    EndOfShape(m, Key(f));
  }

  /** Below a day, an instant lies between its startOf and its endOf. */
  lemma StartEndBracket(m: Mymont, f: Field)
    requires f == Date || f == Hours || f == Minutes || f == Seconds
    ensures StartOf(m, Key(f)).time <= m.time <= EndOf(m, Key(f)).time
  {
    EndOfSubDay(m, f);
    StartOfSubDay(m, f);
  }

  /** The fields an instant has at the last millisecond of its unit f:
      every field finer than f at its maximum, the date at the last day of
      its month. */
  function Saturate(v: DateFields, f: Field): DateFields
  {
    var w := SortWeight(f);
    var month0 := if w < 1 then 11 else v.month0;
    DateFields(v.year, month0,
               if w >= 2 then v.date else if 0 <= month0 < 12 then DaysInMonth(v.year, month0) else v.date,
               if w < 3 then 23 else v.hours,
               if w < 4 then 59 else v.minutes,
               if w < 5 then 59 else v.seconds,
               if w < 6 then 999 else v.ms)
  }

  /** The saturated fields lie one unit, less a millisecond, after the
      truncated ones. */
  lemma SaturateSubDay(v: DateFields, f: Field)
    requires f == Date || f == Hours || f == Minutes || f == Seconds
    ensures TimeOf(Saturate(v, f)) == TimeOf(Truncate(v, f)) + ClockUnit(f) - 1
  {
    var day := MakeDay(v.year, v.month0, v.date);
    assert MakeDay(Saturate(v, f).year, Saturate(v, f).month0, Saturate(v, f).date) == day;
    assert MakeDay(Truncate(v, f).year, Truncate(v, f).month0, Truncate(v, f).date) == day;
  }

  lemma EndOfSubDayTime(m: Mymont, f: Field)
    requires f == Date || f == Hours || f == Minutes || f == Seconds
    ensures EndOf(m, Key(f)) == Mymont(TimeOf(Saturate(FieldsOf(m.time), f)), DefaultFormat)
  {
    var v := FieldsOf(m.time);
    var start := StartOf(m, Key(f)).time;
    assert TimeOf(Saturate(v, f)) == start + ClockUnit(f) - 1 by {
      StartOfTruncates(m, f);
      SaturateSubDay(v, f);
    }
    EndOfSubDay(m, f);
  }

  /** Below a day, endOf keeps every field down to the key and puts the
      finer ones at their maximum: endOf('hours') of 10:20:30 is
      10:59:59.999. */
  lemma EndOfSubDayFields(m: Mymont, f: Field)
    requires f == Date || f == Hours || f == Minutes || f == Seconds
    ensures EndOf(m, Key(f)).formatStr == DefaultFormat
    ensures FieldsOf(EndOf(m, Key(f)).time) == Saturate(FieldsOf(m.time), f)
  {
    var v := FieldsOf(m.time);
    EndOfSubDayTime(m, f);
    FieldsValid(m.time);
    FieldsOfTimeOf(Saturate(v, f));
  }

  /** endOf as its documentation describes it: the last millisecond of the
      year or month the instance lies in. Every other key is left to endOf,
      which already gives that for the keys below a day. */
  function EndOfCalendar(m: Mymont, key: string): Mymont
  {
    if key == "year" then Mymont(TimeOf(Saturate(FieldsOf(m.time), Year)), DefaultFormat)
    else if key == "month" then Mymont(TimeOf(Saturate(FieldsOf(m.time), Month)), DefaultFormat)
    else EndOf(m, key)
  }

  /** The last millisecond of a unit is a valid date. */
  lemma SaturateValid(v: DateFields, f: Field)
    requires ValidFields(v)
    ensures ValidFields(Saturate(v, f))
  {
    DaysInMonthAtMost31(v.year, 11);
    DaysInMonthAtMost31(v.year, v.month0);
  }

  /** ... and does not come before the instant it saturates. */
  lemma SaturateNotEarlier(v: DateFields, f: Field)
    requires ValidFields(v)
    ensures TimeOf(v) <= TimeOf(Saturate(v, f))
  {
    var sv := Saturate(v, f);
    DaysInMonthAtMost31(v.year, v.month0);
    assert DaysInMonth(v.year, 11) == 31;
    assert v.month0 <= sv.month0 < 12 && v.date <= sv.date;
    MakeDayMonotone(v.year, v.month0, v.date, sv.month0, sv.date);
    assert MakeTime(v.hours, v.minutes, v.seconds, v.ms) <= MakeTime(sv.hours, sv.minutes, sv.seconds, sv.ms);
  }

  /** Saturating changes only the fields finer than f. */
  lemma SaturateTruncates(v: DateFields, f: Field)
    ensures Truncate(Saturate(v, f), f) == Truncate(v, f)
  {
  }

  /** The corrected endOf keeps every field down to the key and puts the
      finer ones at their maximum, for every key but milliSeconds. */
  lemma EndOfCalendarFields(m: Mymont, f: Field)
    requires f != MilliSeconds
    ensures EndOfCalendar(m, Key(f)).formatStr == DefaultFormat
    ensures FieldsOf(EndOfCalendar(m, Key(f)).time) == Saturate(FieldsOf(m.time), f)
  {
    if f == Year || f == Month {
      assert EndOfCalendar(m, Key(f)) == Mymont(TimeOf(Saturate(FieldsOf(m.time), f)), DefaultFormat);
      FieldsValid(m.time);
      SaturateValid(FieldsOf(m.time), f);
      FieldsOfTimeOf(Saturate(FieldsOf(m.time), f));
    } else {
      assert Key(f) != "year" && Key(f) != "month";
      assert EndOfCalendar(m, Key(f)) == EndOf(m, Key(f));
      EndOfSubDayFields(m, f);
    }
  }

  /** An instance lies between its startOf and its corrected endOf, for
      every key but milliSeconds. */
  lemma EndOfCalendarBracket(m: Mymont, f: Field)
    requires f != MilliSeconds
    ensures StartOf(m, Key(f)).time <= m.time <= EndOfCalendar(m, Key(f)).time
  {
    var v := FieldsOf(m.time);
    StartOfNotLater(m, Key(f));
    EndOfCalendarFields(m, f);
    FieldsValid(m.time);
    SaturateNotEarlier(v, f);
    TimeOfFieldsOf(m.time);
    TimeOfFieldsOf(EndOfCalendar(m, Key(f)).time);
  }

  /** The corrected endOf lies in the instance's own unit: both have the
      same startOf. */
  lemma EndOfCalendarSameUnit(m: Mymont, f: Field)
    requires f != MilliSeconds
    ensures StartOf(EndOfCalendar(m, Key(f)), Key(f)).time == StartOf(m, Key(f)).time
  {
    EndOfCalendarFields(m, f);
    SaturateTruncates(FieldsOf(m.time), f);
    TruncateSameStarts(EndOfCalendar(m, Key(f)), m, f);
  }

  // ----- comparisons -----

  /** Exactly one of isBefore, isSame and isAfter holds, whatever the key. */
  lemma Trichotomy(m: Mymont, date: DateArg, key: Option<string>, now: int)
    ensures Is(m, Before, date, key, now) || Is(m, Same, date, key, now) || Is(m, After, date, key, now)
    ensures !(Is(m, Before, date, key, now) && Is(m, Same, date, key, now))
    ensures !(Is(m, Before, date, key, now) && Is(m, After, date, key, now))
    ensures !(Is(m, Same, date, key, now) && Is(m, After, date, key, now))
  {
  }

  /** isSameOrBefore is isBefore or isSame; isSameOrAfter is isAfter or
      isSame. */
  lemma SameOrSplits(m: Mymont, date: DateArg, key: Option<string>, now: int)
    ensures Is(m, SameOrBefore, date, key, now) == (Is(m, Before, date, key, now) || Is(m, Same, date, key, now))
    ensures Is(m, SameOrAfter, date, key, now) == (Is(m, After, date, key, now) || Is(m, Same, date, key, now))
  {
    CompareSplits(m, TryParse(date, m.formatStr, now), key);
  }

  lemma CompareSplits(a: Mymont, b: Mymont, key: Option<string>)
    ensures CompareMyment(a, b, SameOrBefore, key) == (CompareMyment(a, b, Before, key) || CompareMyment(a, b, Same, key))
    ensures CompareMyment(a, b, SameOrAfter, key) == (CompareMyment(a, b, After, key) || CompareMyment(a, b, Same, key))
  {
    var xy := ComparedTimes(a, b, key);
    assert CompareMyment(a, b, SameOrBefore, key) == (xy.0 <= xy.1);
    assert CompareMyment(a, b, SameOrAfter, key) == (xy.0 >= xy.1);
  }

  /** Between two instances, a is before b exactly when b is after a. */
  lemma BeforeAfterConverse(a: Mymont, b: Mymont, key: Option<string>, now: int)
    ensures Is(a, Before, Moment(b), key, now) == Is(b, After, Moment(a), key, now)
    ensures Is(a, Same, Moment(b), key, now) == Is(b, Same, Moment(a), key, now)
  {
  }

  /** Truncation keeps the field it is taken at and every coarser one. */
  lemma TruncateKeeps(v: DateFields, f: Field, g: Field)
    requires SortWeight(g) <= SortWeight(f)
    ensures FieldValue(Truncate(v, f), g) == FieldValue(v, g)
  {
  }

  /** Two records truncate alike exactly when they agree on the field
      truncation is taken at and on every coarser one. */
  lemma TruncateSameIff(v1: DateFields, v2: DateFields, f: Field)
    ensures Truncate(v1, f) == Truncate(v2, f)
      <==> forall g :: SortWeight(g) <= SortWeight(f) ==> FieldValue(v1, g) == FieldValue(v2, g)
  {
    if Truncate(v1, f) == Truncate(v2, f) {
      forall g | SortWeight(g) <= SortWeight(f) ensures FieldValue(v1, g) == FieldValue(v2, g) {
        TruncateKeeps(v1, f, g);
        TruncateKeeps(v2, f, g);
      }
    }
    if forall g :: SortWeight(g) <= SortWeight(f) ==> FieldValue(v1, g) == FieldValue(v2, g) {
      var w := SortWeight(f);
      assert FieldValue(v1, Year) == FieldValue(v2, Year);
      if w >= 1 { assert FieldValue(v1, Month) == FieldValue(v2, Month); }
      if w >= 2 { assert FieldValue(v1, Date) == FieldValue(v2, Date); }
      if w >= 3 { assert FieldValue(v1, Hours) == FieldValue(v2, Hours); }
      if w >= 4 { assert FieldValue(v1, Minutes) == FieldValue(v2, Minutes); }
      if w >= 5 { assert FieldValue(v1, Seconds) == FieldValue(v2, Seconds); }
      if w >= 6 { assert FieldValue(v1, MilliSeconds) == FieldValue(v2, MilliSeconds); }
    }
  }

  /** Two instances start alike at a field exactly when their fields
      truncate alike there. */
  lemma SameStartsIff(a: Mymont, b: Mymont, f: Field)
    requires f != MilliSeconds
    ensures StartOf(a, Key(f)).time == StartOf(b, Key(f)).time
      <==> Truncate(FieldsOf(a.time), f) == Truncate(FieldsOf(b.time), f)
  {
    if StartOf(a, Key(f)).time == StartOf(b, Key(f)).time {
      SameStartsTruncate(a, b, f);
    }
    if Truncate(FieldsOf(a.time), f) == Truncate(FieldsOf(b.time), f) {
      TruncateSameStarts(a, b, f);
    }
  }

  lemma SameStartsTruncate(a: Mymont, b: Mymont, f: Field)
    requires f != MilliSeconds && StartOf(a, Key(f)).time == StartOf(b, Key(f)).time
    ensures Truncate(FieldsOf(a.time), f) == Truncate(FieldsOf(b.time), f)
  {
    StartOfTruncates(a, f);
    StartOfTruncates(b, f);
  }

  lemma TruncateSameStarts(a: Mymont, b: Mymont, f: Field)
    requires f != MilliSeconds && Truncate(FieldsOf(a.time), f) == Truncate(FieldsOf(b.time), f)
    ensures StartOf(a, Key(f)).time == StartOf(b, Key(f)).time
  {
    StartOfTruncates(a, f);
    StartOfTruncates(b, f);
  }

  lemma SameStartsFields(a: Mymont, b: Mymont, f: Field)
    requires f != MilliSeconds
    ensures StartOf(a, Key(f)).time == StartOf(b, Key(f)).time
      <==> forall g :: SortWeight(g) <= SortWeight(f) ==> Get(a, g) == Get(b, g)
  {
    SameStartsIff(a, b, f);
    TruncateSameIff(FieldsOf(a.time), FieldsOf(b.time), f);
  }

  /** isSame at a field's key holds exactly when both instances agree on
      that field and every coarser one. */
  lemma SameAtKey(a: Mymont, b: Mymont, f: Field, now: int)
    requires f != MilliSeconds
    ensures Is(a, Same, Moment(b), Some(Key(f)), now)
      <==> forall g :: SortWeight(g) <= SortWeight(f) ==> Get(a, g) == Get(b, g)
  {
    SameIsSameStart(a, b, f, now);
    SameStartsFields(a, b, f);
  }

  /** isSame at a field's key compares the two startOf instants. */
  lemma SameIsSameStart(a: Mymont, b: Mymont, f: Field, now: int)
    requires f != MilliSeconds
    ensures Is(a, Same, Moment(b), Some(Key(f)), now)
      <==> StartOf(a, Key(f)).time == StartOf(b, Key(f)).time
  {
    assert Key(f) != "milliSeconds";
    assert ComparedTimes(a, b, Some(Key(f))) == (StartOf(a, Key(f)).time, StartOf(b, Key(f)).time);
  }

  /** Without a key, or with milliSeconds, the instants themselves are
      compared. */
  lemma CompareRaw(a: Mymont, b: Mymont, rel: Relation, now: int)
    ensures Is(a, rel, Moment(b), None, now) == Holds(rel, a.time, b.time)
    ensures Is(a, rel, Moment(b), Some("milliSeconds"), now) == Holds(rel, a.time, b.time)
  {
  }

  /** Instances with the same startOf at a field's key are the same at it. */
  lemma SameWhenStartsMatch(a: Mymont, b: Mymont, f: Field)
    requires f != MilliSeconds && StartOf(a, Key(f)).time == StartOf(b, Key(f)).time
    ensures CompareMyment(a, b, Same, Some(Key(f)))
  {
    assert Key(f) != "milliSeconds";
  }

  /** Reading back what toString printed in the default format gives the
      instant with now's milliseconds when the clock fits its month. */
  lemma OwnTextParsed(m: Mymont, now: int)
    requires m.formatStr == DefaultFormat && 1000 <= YearFromTime(m.time) <= 9999
    requires ClockFits(now, YearFromTime(m.time), MonthFromTime(m.time))
    ensures TryParse(Text(ToString(m, None)), m.formatStr, now).time == m.time - m.time % 1000 + now % 1000
  {
    assert TryParse(Text(ToString(m, None)), m.formatStr, now) == Parse(ToString(m, None), None, now);
    ParseToStringDefault(m, now);
  }

  /** Two instants that differ only below the second start the same
      second. */
  lemma SameSecondStart(a: Mymont, b: Mymont, x: int)
    requires 0 <= x < 1000 && b.time == a.time - a.time % 1000 + x
    ensures StartOf(a, Key(Seconds)).time == StartOf(b, Key(Seconds)).time
  {
    StartOfSubDay(a, Seconds);
    StartOfSubDay(b, Seconds);
    DivMod(b.time, 1000, a.time / 1000, x);
  }

  /** An instance in the default format is the same to the second as the
      text its toString prints exactly when the clock fits its month: when
      it does not, the text is read one month late. */
  lemma SameSecondAsOwnText(m: Mymont, now: int)
    requires m.formatStr == DefaultFormat && 1000 <= YearFromTime(m.time) <= 9999
    ensures Is(m, Same, Text(ToString(m, None)), Some(Key(Seconds)), now)
      <==> ClockFits(now, YearFromTime(m.time), MonthFromTime(m.time))
  {
    if ClockFits(now, YearFromTime(m.time), MonthFromTime(m.time)) {
      OwnTextSameSecond(m, now);
    } else {
      OwnTextOtherSecond(m, now);
    }
  }

  lemma OwnTextSameSecond(m: Mymont, now: int)
    requires m.formatStr == DefaultFormat && 1000 <= YearFromTime(m.time) <= 9999
    requires ClockFits(now, YearFromTime(m.time), MonthFromTime(m.time))
    ensures Is(m, Same, Text(ToString(m, None)), Some(Key(Seconds)), now)
  {
    var p := TryParse(Text(ToString(m, None)), m.formatStr, now);
    OwnTextParsed(m, now);
    SameSecondStart(m, p, now % 1000);
    SameWhenStartsMatch(m, p, Seconds);
  }

  lemma OwnTextOtherSecond(m: Mymont, now: int)
    requires m.formatStr == DefaultFormat && 1000 <= YearFromTime(m.time) <= 9999
    requires !ClockFits(now, YearFromTime(m.time), MonthFromTime(m.time))
    ensures !Is(m, Same, Text(ToString(m, None)), Some(Key(Seconds)), now)
  {
    var p := TryParse(Text(ToString(m, None)), m.formatStr, now);
    OwnTextOtherMonth(m, now);
    OtherMonthNotSame(m, p, now);
  }

  /** Instances in different months are not the same to the second. */
  lemma OtherMonthNotSame(a: Mymont, b: Mymont, now: int)
    requires Get(a, Month) != Get(b, Month)
    ensures !Is(a, Same, Moment(b), Some(Key(Seconds)), now)
  {
    SameAtKey(a, b, Seconds, now);
    assert SortWeight(Month) <= SortWeight(Seconds);
  }

  /** When the clock does not fit the month, the text is read back in
      the next month. */
  lemma OwnTextOtherMonth(m: Mymont, now: int)
    requires m.formatStr == DefaultFormat && 1000 <= YearFromTime(m.time) <= 9999
    requires !ClockFits(now, YearFromTime(m.time), MonthFromTime(m.time))
    ensures Get(TryParse(Text(ToString(m, None)), m.formatStr, now), Month) == Get(m, Month) + 1
  {
    ReadOwnText(m, now);
    ParseDateRollsOver(m.time, now);
  }

  /** The text toString prints in the default format is read with the
      default template. */
  lemma ReadOwnText(m: Mymont, now: int)
    requires m.formatStr == DefaultFormat
    ensures TryParse(Text(ToString(m, None)), m.formatStr, now).time
      == ParseDateSpec(FormatDate(m.time, DefaultFormat), DefaultFormat, now)
  {
  }
}
