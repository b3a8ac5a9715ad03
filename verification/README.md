# myment, modelled in Dafny

myment is a small date library built around the immutable `Mymont` value:
an instant (milliseconds since the epoch) and the template `toString` uses
when it is given none. The engine:

- renders an instant through a template (`formatDate`);
- reads a text back through a template (`parseDate`);
- computes new instances with `move`, `change`, `startOf` and `endOf`;
- compares two instances at a chosen granularity (`isBefore`, `isAfter`,
  `isSame`, `isSameOrBefore`, `isSameOrAfter`).

All of this is driven by one table of seven token handles, year to
milliSeconds. Each handle has a sort weight, a key, a token pattern, a
capture pattern, a rendering and a Date setter.

This project models the current cut of the engine (`dist/myment.js`) and the
earlier cut (`src/myment.ts`). It proves properties of both and states the
cases of the test suite (`test/index.ts`) as lemmas, each with the clock days
on which it holds.

Modules:

- `Calendar` is the host's date arithmetic: day numbers, the
  fields of an instant, and the setters with their rolling over.
- `HostDate` is the mutable host `Date` as a class whose setters update its
  time value.
- `Numbers` covers `toString`, `parseInt` and `formatNum` on integers.
- `Pattern` is the regular-expression matcher for the patterns `parseDate`
  builds: literal characters and digit groups, leftmost match first.
- `Tokens` holds the handle table, `matchToken`, and the scan of a template
  by the global token regex.
- `Sorting` is the ordering by sort weight that `sortHandles` drives.
- `Formatter` is the `formatDate` of both cuts.
- `Parser` is `parseDate` as written, with the method that builds the pattern
  and applies the setters on a working Date, and a corrected parse.
- `Moments` is the `Mymont` object: `of`, `now`, `parse` (over the
  as-written `parseDate`), the getters, `toString`, `move`, `change`,
  `startOf`, `endOf`, the comparisons, and a corrected `parse` and `endOf`.
- `MomentsTs` is the earlier cut's `parse` and `toString`.
- `Scenarios` holds the test suite's concrete cases. A parse reads its text
  setter by setter from the clock, so a clock day that the parsed month
  lacks moves the result one month on. The sample and most compared texts
  fall in May, which has 31 days, so those cases hold for every clock. Two
  do not: the leap-day move (test/index.ts:30-31) holds for a clock day up
  to 29, and `isAfter` against April (test/index.ts:107) for a clock day up
  to 30. Lemmas give the engine's answers on the other days.

The definitions that stand for the engine's functions, and the lemmas that
state what they do:

- `Moments.ToString` is `toString` (dist/myment.js:130-132); see
  `Moments.ParseToString`, `Moments.ParseToStringDefault` and
  `MomentsTs.ToStringAgrees`.
- `Moments.StartOf` is `startOf` (dist/myment.js:177-187); see
  `Moments.StartOfFields` and `Moments.StartOfTruncates`.
- `Moments.EndOf` is `endOf` (dist/myment.js:198-207); see
  `Moments.EndOfShape` and `Moments.EndOfSubDay`.
- `Formatter.FormatDate` is `formatDate` (dist/myment.js:346-352); see
  `Formatter.FormatDefault` and `Formatter.FormatYearPairs`.
- `Formatter.FormatDateTs` is the earlier `formatDate` (src/myment.ts:60-78);
  see `Formatter.FormatTsAgrees`.
- `Numbers.FormatNum` is `formatNum` (dist/myment.js:353-355); see
  `Numbers.FormatNumSpec`.
- `Tokens.Scan` is the global match of the token regex (dist/myment.js:16);
  see `Tokens.ScanLossless` and `Tokens.ScanIsTokenize`.
- `Tokens.MatchToken` is `matchToken` (dist/myment.js:308-313); see
  `Tokens.MatchTokenSpec`.
- `Parser.ParseDateSpec` is `parseDate` (dist/myment.js:356-379), computed by
  the method `Parser.ParseDate`; see `Parser.ApplyOrder`.
- `Parser.ParseDateFixed` is the corrected `parseDate`; see
  `Parser.ParseFormatRoundTrip`.
- `MomentsTs.ToString` is the earlier `toString` (src/myment.ts:31-33); see
  `MomentsTs.ToStringAgrees`.
- `Moments.LookKeys` is `lookKeys` (dist/myment.js:333-342); see
  `Moments.LookKeysSpec`.
- `Sorting.SortBy` is `sort` with `sortHandles` (dist/myment.js:340-345); see
  `Sorting.SortBySpec`.

The clock is a parameter, `now`. It is read only where the engine creates a
`Date` without arguments: `now` and the working date of `parseDate`.

Where the engine's own description and its code differ, the model follows the
code:

- The pattern `parseDate` builds is not anchored. `exec` finds the leftmost
  match anywhere in the input.
- The token regex produces `YY`, which no handle matches. It renders as the
  empty string and adds nothing to a parse pattern.
- Applying the setters in sort-weight order does not prevent rolling over.
  The working date starts at the clock, not at day one (finding 1 below).
- `endOf` moves one unit first (`date` counts as `day`), then takes
  `startOf`, then steps back one millisecond.
- The test suite imports `src/myment.ts`, whose `parse` returns the clock
  (finding 2). The scenarios are therefore stated on the model of
  `dist/myment.js`.

## Model

| member | source | states |
|---|---|---|
| Tokens.TableInWeightOrder | dist/myment.js:243-304 | the table holds seven handles, year to milliSeconds, and each handle's sortWeight is its position in the table |
| Tokens.TokensDisjoint | dist/myment.js:243-304 | no token text is accepted by two handles |
| Tokens.MatchTokenSpec | dist/myment.js:308-313 | matchToken(part) finds handle f exactly when f's token accepts part ("YYYY" by equality, the others by their anchored one-or-two-letter pattern) |
| Tokens.NoHandleForYY | dist/myment.js:308-313 | "YY", which the token regex does produce, finds no handle |
| Tokens.MatchTokenOnAlternatives | dist/myment.js:16 | of the texts the token regex can match, "YY" and only "YY" finds no handle |
| Tokens.IndexOfKeySpec | dist/myment.js:178 | findIndex by key gives the handle's sortWeight for a key of the table and -1 for any other key |
| Tokens.ParsePart | dist/myment.js:243-304 | a handle's parse on a Date replaces its time value by the setter's result on parseInt of the part (month shifted to zero-based) |
| Tokens.ApplyLands | dist/myment.js:243-304 | a setter given a value that keeps the date valid changes exactly its own field to that value |
| Tokens.StringifyRoundTrip | dist/myment.js:243-304 | parseInt of a handle's stringify gives back the field it renders (the month one-based) |
| Tokens.ScanLossless | dist/myment.js:16 | the scan of a template into literal characters and tokens spells the template back |
| Tokens.FirstAlternativeIsTokenAt | dist/myment.js:16 | the first alternative of the token regex that matches at a position is the longest run-of-letter token there |
| Tokens.ScanIsTokenize | dist/myment.js:16 | the global match of the token regex equals an independent letter-by-letter tokenizer |
| Tokens.ScanLiterals | dist/myment.js:16 | no character the scan leaves as a literal is a token letter |
| Tokens.ScanWithoutZ | src/myment.ts:3 | on a template without 'z' the token regexes of the two cuts scan alike |
| Numbers.FormatNumSpec | dist/myment.js:353-355 | formatNum pads 0..9 with one leading zero and prints 10 and up unchanged, so 0..99 becomes two digits of the same value |
| Numbers.NatToStringRoundTrip | dist/myment.js:250 | reading back the decimal text of a natural number gives the number |
| Numbers.ParseIntNumToString | dist/myment.js:251 | parseInt of toString of any integer, negative included, gives the integer back |
| Calendar.TimeOfFieldsOf | dist/myment.js:69-124 | the fields the getters read from an instant rebuild exactly that instant |
| Calendar.FieldsOfTimeOf | dist/myment.js:243-304 | the instant built from a valid field record reads back as that record |
| Calendar.SettersAreTimeOf | dist/myment.js:243-304 | each Date setter rebuilds the instant from the old fields with its own field replaced, out-of-range values included |
| Calendar.MonthRollsOver | dist/myment.js:260 | a date past the end of its month is the same instant as the date in the next month |
| Calendar.YearOfDayBounds | dist/myment.js:249 | the year computed for a day number is the one whose days contain it |
| HostDate.JsDate.constructor | dist/myment.js:158 | new Date(time) holds the given time value |
| HostDate.JsDate.SetFullYear | dist/myment.js:251 | the Date's time value becomes the calendar's full year setter applied to the old time value |
| HostDate.JsDate.SetMonth | dist/myment.js:260 | the Date's time value becomes the calendar's month setter applied to the old time value |
| HostDate.JsDate.SetDate | dist/myment.js:269 | the Date's time value becomes the calendar's date setter applied to the old time value |
| HostDate.JsDate.SetHours | dist/myment.js:277 | the Date's time value becomes the calendar's hours setter applied to the old time value |
| HostDate.JsDate.SetMinutes | dist/myment.js:285 | the Date's time value becomes the calendar's minutes setter applied to the old time value |
| HostDate.JsDate.SetSeconds | dist/myment.js:293 | the Date's time value becomes the calendar's seconds setter applied to the old time value |
| HostDate.JsDate.SetMilliseconds | dist/myment.js:302 | the Date's time value becomes the calendar's milliseconds setter applied to the old time value |
| Pattern.MatchAtSound | dist/myment.js:366 | a match of the compiled pattern at position i yields captures that fit their groups and spell the input from i |
| Pattern.MatchAtComplete | dist/myment.js:366 | when each digit group is followed by a separator, and the text does not go on with a digit after the last group, captures that fit and spell the input from i are the match found at i |
| Pattern.ExecFirst | dist/myment.js:366-369 | exec answers the leftmost position where the pattern matches, and fails only when it matches nowhere |
| Sorting.SortBySpec | dist/myment.js:343-345 | sorting by weight gives a sequence sorted by weight that is a permutation of its input |
| Sorting.SortBySorted | dist/myment.js:340 | sorting a sequence already in weight order leaves it unchanged |
| Formatter.FormatDefault | dist/myment.js:346-352 | formatDate in the default template is year, month, date, hours, minutes and seconds joined by '-', '-', ' ', ':' and ':' |
| Formatter.FormatYearPairs | dist/myment.js:346-352 | a template of YYYY followed by separator and doubled-letter pairs renders the year, then each separator and its field |
| Formatter.FormatLiteralText | dist/myment.js:346-352 | a template without token letters is rendered unchanged |
| Formatter.FormatTwoDigitYearVanishes | dist/myment.js:350 | the token YY renders as the empty string |
| Formatter.MillisecondToken | src/myment.ts:60-78 | 'z' renders the milliseconds in the current cut and stays literal in the earlier cut |
| Formatter.AlternativesWithoutZ | src/myment.ts:3 | the earlier cut's token regex is the current one without its last alternatives zz and z |
| Formatter.ChainAgreesWithTable | src/myment.ts:62-77 | the if/else chain of the earlier cut renders every token it matches as the current table does |
| Formatter.FormatTsAgrees | src/myment.ts:60-78 | the two cuts' formatDate agree on every template without 'z' |
| Parser.BuildPattern | dist/myment.js:358-365 | the replace callback builds the pattern and pushes the matched handles, one group per handle, as the compile function says |
| Parser.CompileWellFormed | dist/myment.js:358-365 | the compiled pattern has one capture group per pushed handle, each of the shape its handle captures |
| Parser.UnknownTokenCompilesToNothing | dist/myment.js:360-362 | a token no handle matches adds neither pattern nor handle |
| Parser.CompileTwoDigitYear | dist/myment.js:360-362 | the template YY compiles to the empty pattern with no handle |
| Parser.CompileDefault | dist/myment.js:358-365 | the default template compiles to the four-digit year group and five (\d{1,2}) groups separated by its literals |
| Parser.ExecEntries | dist/myment.js:366-372 | a successful exec yields one integer capture per handle |
| Parser.ParseDateMismatch | dist/myment.js:366-369 | when the pattern matches at no position, parseDate returns -1 |
| Parser.OrderedEntriesSpec | dist/myment.js:371-373 | the handle-value entries are sorted by sortWeight and are exactly the pairs of handle and capture |
| Parser.StepsSpec | dist/myment.js:374-377 | each entry becomes one setter call with parseInt of its value, in order |
| Parser.ApplyEntries | dist/myment.js:370-378 | the forEach over the entries leaves the Date at the setters applied in turn to the clock |
| Parser.ParseDate | dist/myment.js:356-379 | parseDate with its regex, its handle list and its working Date computes the as-written specification |
| Parser.ApplyOrder | dist/myment.js:370-378 | parseDate's result is the setters applied to the clock in non-decreasing sortWeight order, one per handle |
| Parser.StepFields | dist/myment.js:370-378 | the fields parseDate sets are exactly the handles of the template |
| Parser.ParseAgreesWhenNoRollover | dist/myment.js:370-378 | when no intermediate date is invalid, the as-written parse equals setting all fields at once |
| Parser.ParseFormatRoundTrip | dist/myment.js:346-379 | parsing a rendering with the same separated template restores the template's fields of the instant and keeps the clock's others (corrected parse) |
| Parser.RoundTripButMs | dist/myment.js:346-379 | with a template holding year to seconds, the parse of a rendering is the instant with the clock's milliseconds (corrected parse) |
| Parser.ParseDefaultRoundTrip | dist/myment.js:346-379 | the default template round-trips every four-digit-year instant up to milliseconds (corrected parse) |
| Parser.YearStep | dist/myment.js:251 | setFullYear on the clock sets the year and keeps the clock's date, or rolls the clock's 29 February past a short February |
| Parser.MonthFits | dist/myment.js:260 | setMonth changes only the month when the current date exists in the new month |
| Parser.RolledValid | dist/myment.js:260 | when the clock's date does not fit a valid month, that month is not December and the same fields one month later are valid |
| Parser.SixStepsLand | dist/myment.js:370-378 | the six setters of the default template, applied to the clock, land on the given fields with the clock's milliseconds when the clock fits their month, and one month later otherwise |
| Parser.ParseDefaultAsWritten | dist/myment.js:356-379 | as written, when the clock's date fits the rendered month, parsing a default rendering gives the instant back with the clock's milliseconds |
| Parser.StepsValidFrom | dist/myment.js:370-378 | setters applied in sort-weight order never pass through an invalid date when the start date is at most 28 (or already in the target month) and the date is set only after the year and month |
| Parser.ClockStepsValid | dist/myment.js:370-378 | with a clock day up to 28 and a template that reads the year and month whenever it reads the date, the parse of a rendering never rolls over |
| Parser.ParseFormatAsWritten | dist/myment.js:346-379 | under those conditions the as-written parse of a rendering restores the template's fields of the instant and keeps the clock's others |
| Parser.ClockDayFits | dist/myment.js:370-378 | a clock date that exists in the parsed month never rolls it over |
| Parser.LateClockMisses | dist/myment.js:370-378 | a clock date of 30 or 31 past the end of the parsed month always rolls it over |
| Parser.SpecRollsOver | dist/myment.js:370-378 | as written, when the clock's date, once the year is set, does not exist in the parsed month, the default-template parse lands on the same fields one month later, with the clock's milliseconds |
| Parser.ParseDateRollsOver | dist/myment.js:370-378 | the as-written parse of a default rendering keeps its month exactly when the clock's date fits that month, and otherwise reports the next month; the corrected parse always keeps it |
| Parser.RollOverExample | dist/myment.js:370-378 | with the clock on any 31st, parsing 2019-04-15 10:20:30 gives May as written and April corrected |
| Parser.FixedKeepsMonth | dist/myment.js:370-378 | the corrected parse of a default rendering always keeps the rendered month |
| Moments.Of | dist/myment.js:21-41 | a number gets the default format; a Date keeps its time, keeps a given format and gets the default format when none is given; no other case yields a format other than the default |
| Moments.Now | dist/myment.js:50-52 | now is the clock's instant with the given format, or the default format when none is given |
| Moments.Parse | dist/myment.js:62-65 | parse reads the text setter by setter from the clock, as parseDate does; it always yields the default format, and -1 when the text does not match |
| Moments.ParseFixed | dist/myment.js:62-65 | parse over the corrected parseDate: the default format, and -1 when the text does not match |
| Moments.TryParse | dist/myment.js:305-307 | an instance argument is used as it is; a string is parsed, so it carries the default format |
| Moments.Get | dist/myment.js:69-124 | the month getter reads 1 to 12, the date 1 to 31, hours 0 to 23, minutes and seconds 0 to 59 and milliSeconds 0 to 999 |
| Moments.WeekDay | dist/myment.js:111-117 | the weekDay getter reads a value from 0 to 6 |
| Moments.WeekDayAfterDays | dist/myment.js:111-117 | moving by n days moves the weekday on by n, modulo the week |
| Moments.GetRanges | dist/myment.js:69-124 | the date getter reads a day of the month the month getter names |
| Moments.GettersDetermineTime | dist/myment.js:69-124 | two instances that agree on all seven getters have the same instant |
| Moments.ParseToString | dist/myment.js:62-65 | as written, with a clock day up to 28 and a separated template that reads the year and month whenever it reads the date, parse of toString gives the template's fields of the instant over the clock's, in the default format |
| Moments.ParseToStringDefault | dist/myment.js:130-132 | as written, parse of the default toString gives the instant back up to its milliseconds when the clock's date fits the rendered month, and the same fields one month later otherwise |
| Moments.ParseFixedToString | dist/myment.js:62-65 | through the corrected parse, the same round trip holds for every clock and every separated template |
| Moments.ParseFixedToStringDefault | dist/myment.js:130-132 | through the corrected parse, the default round trip loses only the milliseconds, for every clock |
| Moments.CalcDuration | dist/myment.js:314-332 | calcDuration is the value times the key's unit: 365 days, 30 days, a day, an hour, a minute, a second, or 1 ms for any other key |
| Moments.Move | dist/myment.js:146-151 | move adds the sum of the entries' durations and gives the default format |
| Moments.MoveNothing | dist/myment.js:146-151 | an empty move keeps the instant |
| Moments.MoveAdditive | dist/myment.js:146-151 | two moves in turn are one move by both sets of entries |
| Moments.MoveInverse | dist/myment.js:146-151 | moving by the negated entries undoes a move |
| Moments.LookKeysSpec | dist/myment.js:333-342 | lookKeys yields exactly the handles whose key is given, in sortWeight order |
| Moments.FilterSorted | dist/myment.js:335-339 | filtering a weight-ordered table keeps it in weight order |
| Moments.Change | dist/myment.js:157-166 | change with its working Date applies the looked-up setters and wraps the Date |
| Moments.ChangeSpec | dist/myment.js:157-166 | change gives the default format, and an empty target keeps the instant |
| Moments.ChangeStepsSpec | dist/myment.js:159-163 | change sets exactly the fields whose keys the target names, each to the target's value |
| Moments.ChangeLands | dist/myment.js:157-166 | when no intermediate date is invalid, every named field reads the target's value and the others are kept |
| Moments.ChangeToMinimum | dist/myment.js:182-186 | a target of minimum values lands on them, whatever the date |
| Moments.StartOfIgnored | dist/myment.js:178-181 | startOf an unknown key or milliSeconds returns the instance itself |
| Moments.StartOfFields | dist/myment.js:177-187 | startOf keeps the fields up to the key and sets the finer ones to their minimum (month and date 1, the rest 0) |
| Moments.StartOfTruncates | dist/myment.js:177-187 | startOf is the instant of the truncated field record |
| Moments.StartOfIdempotent | dist/myment.js:177-187 | startOf twice is startOf once |
| Moments.StartOfNotLater | dist/myment.js:177-187 | startOf never moves an instant forward |
| Moments.StartOfSubDay | dist/myment.js:177-187 | for date, hours, minutes and seconds startOf rounds down to a multiple of the unit |
| Moments.EndOfMs | dist/myment.js:201-203 | endOf milliSeconds returns the instance itself |
| Moments.EndOfShape | dist/myment.js:204-206 | endOf moves one unit on ('date' as 'day'), takes startOf and steps back one millisecond |
| Moments.EndOfUnknown | dist/myment.js:198-207 | endOf an unknown key is the instant plus its unit minus one millisecond |
| Moments.StartOfNextUnit | dist/myment.js:204-205 | for a unit within the day, startOf after moving one unit is the next unit's start |
| Moments.EndOfSubDay | dist/myment.js:198-207 | for date, hours, minutes and seconds endOf is the last millisecond of the unit |
| Moments.StartEndBracket | dist/myment.js:177-207 | for units within the day, startOf and endOf bracket the instant |
| Moments.EndOfSubDayFields | dist/myment.js:192-207 | for units within the day endOf keeps the coarser fields and raises the finer ones to their maximum |
| Moments.EndOfCalendarFields | dist/myment.js:192-196 | the corrected endOf keeps the coarser fields and raises the finer ones to their maximum, the date to the month's last day |
| Moments.EndOfCalendarBracket | dist/myment.js:192-196 | the corrected endOf and startOf bracket the instant for every unit |
| Moments.EndOfCalendarSameUnit | dist/myment.js:192-196 | the corrected endOf stays in the instant's unit: its startOf is the instant's startOf |
| Moments.Trichotomy | dist/myment.js:208-222 | exactly one of isBefore, isSame and isAfter holds |
| Moments.Is | dist/myment.js:208-222 | an instance compared with itself is the same, and neither before nor after, at every key |
| Moments.CompareMyment | dist/myment.js:380-388 | compareMyment of an instance with itself holds for the same and same-or relations, and fails for before and after |
| Moments.SameOrSplits | dist/myment.js:217-222 | isSameOrBefore is isBefore or isSame, and isSameOrAfter is isAfter or isSame |
| Moments.CompareSplits | dist/myment.js:380-388 | the same split for compareMyment on any key |
| Moments.BeforeAfterConverse | dist/myment.js:208-216 | a.isBefore(b) is b.isAfter(a), and isSame is symmetric |
| Moments.SameAtKey | dist/myment.js:380-388 | isSame at a key holds exactly when the getters agree on that key and every coarser one |
| Moments.SameIsSameStart | dist/myment.js:380-388 | isSame at a key holds exactly when the two startOf instants agree |
| Moments.CompareRaw | dist/myment.js:380-384 | without a key, or with milliSeconds, the raw instants are compared |
| Moments.SameSecondAsOwnText | dist/myment.js:208-222 | as written, an instance is the same to the second as its own default rendering exactly when the clock's date fits the instance's month |
| Moments.OwnTextParsed | dist/myment.js:305-307 | when the clock's date fits the month, tryParse of an instance's own rendering is its instant with the clock's milliseconds |
| Moments.OwnTextOtherMonth | dist/myment.js:305-307 | otherwise tryParse of the rendering reads one month later |
| Moments.OtherMonthNotSame | dist/myment.js:380-388 | two instances whose month getters differ are never the same to the second |
| MomentsTs.ParseDateTs | src/myment.ts:84-97 | the earlier parseDate gives -1 when the text does not match and otherwise the clock |
| MomentsTs.Parse | src/myment.ts:23-25 | the earlier parse yields the default format and either -1 or the clock |
| MomentsTs.CompileTsItemsSpec | src/myment.ts:85-87 | each literal stays and each token, known or not, becomes one (\d{2}) group |
| MomentsTs.CompileTsDefault | src/myment.ts:85-87 | the default template compiles to six two-digit groups with its separators |
| MomentsTs.ToStringAgrees | src/myment.ts:31-33 | the two cuts' toString agree whenever the chosen template has no 'z' |
| MomentsTs.ParseTsOwnText | src/myment.ts:84-97 | the earlier parse accepts the default rendering of any four-digit-year instant and answers the clock |
| MomentsTs.ParseToStringTs | src/myment.ts:23-25 | so the earlier parse of toString gives the clock, not the instance |
| Scenarios.ParseScenario | test/index.ts:7-15 | parsing 2019-05-15 10:20:30 reads 2019, 5, 15, 10, 20, 30 through the getters, for every clock, since May has 31 days |
| Scenarios.SampleText | test/index.ts:8 | the sample stamp is the text 2019-05-15 10:20:30 |
| Scenarios.ReadTime | dist/myment.js:370-378 | parsing the default rendering of valid fields gives the fields the clock lets through (the same month, or the next when the clock's date does not fit), with the clock's milliseconds |
| Scenarios.LongMonthRead | dist/myment.js:370-378 | a text in a 31-day month is read with its own fields for every clock |
| Scenarios.ParsedGetters | dist/myment.js:69-124 | the getters of a parsed default text read its fields and the clock's milliseconds, the month as given exactly when the clock fits it and one more otherwise |
| Scenarios.ParsedPrints | dist/myment.js:130-132 | a parsed default text prints back the fields that were read, which are its own when the clock fits its month |
| Scenarios.ToStringScenario | test/index.ts:19 | the parsed instance prints back as 2019-05-15 10:20:30 |
| Scenarios.ToStringSlashScenario | test/index.ts:20 | with YYYY/MM/DD HH:mm:ss it prints 2019/05/15 10:20:30 |
| Scenarios.MoveYearUpScenario | test/index.ts:28 | moving a year on reads year 2020 |
| Scenarios.MoveYearDownScenario | test/index.ts:29 | moving a year back reads year 2018 |
| Scenarios.MoveLeapDayScenario | test/index.ts:30-31 | with a clock day up to 29, 2020-02-29 10:20:30 moved a year on prints 2021-02-28 10:20:30 |
| Scenarios.MoveLeapDayRolled | test/index.ts:30-31 | with a clock day of 30 or 31 the same move prints 2021-03-29 10:20:30, since 2020-02-29 is read as 29 March |
| Scenarios.StartOfYearScenario | test/index.ts:38 | startOf('year') prints 2019-01-01 00:00:00 |
| Scenarios.StartOfMonthScenario | test/index.ts:39 | startOf('month') prints 2019-05-01 00:00:00 |
| Scenarios.StartOfDateScenario | test/index.ts:40 | startOf('date') prints 2019-05-15 00:00:00 |
| Scenarios.StartOfHoursScenario | test/index.ts:41 | startOf('hours') prints 2019-05-15 10:00:00 |
| Scenarios.StartOfMinutesScenario | test/index.ts:42 | startOf('minutes') prints 2019-05-15 10:20:00 |
| Scenarios.StartOfSecondsScenario | test/index.ts:43 | startOf('seconds') prints 2019-05-15 10:20:30 |
| Scenarios.EndOfYearScenario | test/index.ts:50 | endOf('year') prints 2019-12-31 23:59:59 |
| Scenarios.EndOfMonthScenario | test/index.ts:51 | endOf('month') prints 2019-05-31 23:59:59 |
| Scenarios.EndOfDateScenario | test/index.ts:52 | endOf('date') prints 2019-05-15 23:59:59 |
| Scenarios.EndOfHoursScenario | test/index.ts:53 | endOf('hours') prints 2019-05-15 10:59:59 |
| Scenarios.EndOfMinutesScenario | test/index.ts:54 | endOf('minutes') prints 2019-05-15 10:20:59 |
| Scenarios.EndOfSecondsScenario | test/index.ts:55 | endOf('seconds') prints 2019-05-15 10:20:30 |
| Scenarios.EndOfYearFromNewYear | dist/myment.js:198-207 | from 2020-01-01 00:00:00.000, endOf('year') is 2019-12-31 23:59:59.999, one millisecond earlier |
| Scenarios.EndOfCalendarFromNewYear | dist/myment.js:192-196 | from the same instant the corrected endOf('year') is 2020-12-31 23:59:59.999 |
| Scenarios.HoldingText | test/index.ts:62-111 | the compared text of each case is the stamp of the fields it holds |
| Scenarios.SecondsLaterText | test/index.ts:62 | the stamp the case compares with is the text 2019-05-15 10:20:31 |
| Scenarios.SecondsEarlierText | test/index.ts:64 | the stamp the case compares with is the text 2019-05-15 10:20:29 |
| Scenarios.MinutesLaterText | test/index.ts:66 | the stamp the case compares with is the text 2019-05-15 10:21:30 |
| Scenarios.MinutesWithinText | test/index.ts:67 | the stamp the case compares with is the text 2019-05-15 10:20:50 |
| Scenarios.MinutesEarlierText | test/index.ts:68 | the stamp the case compares with is the text 2019-05-15 10:19:30 |
| Scenarios.HoursLaterText | test/index.ts:70 | the stamp the case compares with is the text 2019-05-15 11:20:30 |
| Scenarios.HoursWithinText | test/index.ts:71 | the stamp the case compares with is the text 2019-05-15 10:50:30 |
| Scenarios.HoursEarlierText | test/index.ts:72 | the stamp the case compares with is the text 2019-05-15 09:20:30 |
| Scenarios.DateLaterText | test/index.ts:74 | the stamp the case compares with is the text 2019-05-16 10:20:30 |
| Scenarios.DateWithinText | test/index.ts:75 | the stamp the case compares with is the text 2019-05-15 20:20:30 |
| Scenarios.DateEarlierText | test/index.ts:76 | the stamp the case compares with is the text 2019-05-14 10:20:30 |
| Scenarios.JuneText | test/index.ts:78 | the stamp the case compares with is the text 2019-06-15 10:20:30 |
| Scenarios.MonthWithinText | test/index.ts:79 | the stamp the case compares with is the text 2019-05-25 10:20:30 |
| Scenarios.AprilText | test/index.ts:80 | the stamp the case compares with is the text 2019-04-15 10:20:30 |
| Scenarios.YearLaterText | test/index.ts:82 | the stamp the case compares with is the text 2020-05-15 10:20:30 |
| Scenarios.YearEarlierText | test/index.ts:84 | the stamp the case compares with is the text 2018-05-15 10:20:30 |
| Scenarios.CompareSecondsLaterBeforeScenario | test/index.ts:62 | isBefore('2019-05-15 10:20:31', 'seconds') is true |
| Scenarios.IsText | dist/myment.js:208-222 | comparing an instance with a default text at a key compares the startOf instants of the instance and of the fields the parse reads |
| Scenarios.CompareSecondsLaterAfterScenario | test/index.ts:89 | isAfter('2019-05-15 10:20:31', 'seconds') is false |
| Scenarios.CompareSecondsWithinBeforeScenario | test/index.ts:63 | isBefore('2019-05-15 10:20:30', 'seconds') is false |
| Scenarios.CompareSecondsWithinAfterScenario | test/index.ts:90 | isAfter('2019-05-15 10:20:30', 'seconds') is false |
| Scenarios.CompareSecondsEarlierBeforeScenario | test/index.ts:64 | isBefore('2019-05-15 10:20:29', 'seconds') is false |
| Scenarios.CompareSecondsEarlierAfterScenario | test/index.ts:91 | isAfter('2019-05-15 10:20:29', 'seconds') is true |
| Scenarios.CompareMinutesLaterBeforeScenario | test/index.ts:66 | isBefore('2019-05-15 10:21:30', 'minutes') is true |
| Scenarios.CompareMinutesLaterAfterScenario | test/index.ts:93 | isAfter('2019-05-15 10:21:30', 'minutes') is false |
| Scenarios.CompareMinutesWithinBeforeScenario | test/index.ts:67 | isBefore('2019-05-15 10:20:50', 'minutes') is false |
| Scenarios.CompareMinutesWithinAfterScenario | test/index.ts:94 | isAfter('2019-05-15 10:20:50', 'minutes') is false |
| Scenarios.CompareMinutesEarlierBeforeScenario | test/index.ts:68 | isBefore('2019-05-15 10:19:30', 'minutes') is false |
| Scenarios.CompareMinutesEarlierAfterScenario | test/index.ts:95 | isAfter('2019-05-15 10:19:30', 'minutes') is true |
| Scenarios.CompareHoursLaterBeforeScenario | test/index.ts:70 | isBefore('2019-05-15 11:20:30', 'hours') is true |
| Scenarios.CompareHoursLaterAfterScenario | test/index.ts:97 | isAfter('2019-05-15 11:20:30', 'hours') is false |
| Scenarios.CompareHoursWithinBeforeScenario | test/index.ts:71 | isBefore('2019-05-15 10:50:30', 'hours') is false |
| Scenarios.CompareHoursWithinAfterScenario | test/index.ts:98 | isAfter('2019-05-15 10:50:30', 'hours') is false |
| Scenarios.CompareHoursEarlierBeforeScenario | test/index.ts:72 | isBefore('2019-05-15 09:20:30', 'hours') is false |
| Scenarios.CompareHoursEarlierAfterScenario | test/index.ts:99 | isAfter('2019-05-15 09:20:30', 'hours') is true |
| Scenarios.CompareDateLaterBeforeScenario | test/index.ts:74 | isBefore('2019-05-16 10:20:30', 'date') is true |
| Scenarios.CompareDateLaterAfterScenario | test/index.ts:101 | isAfter('2019-05-16 10:20:30', 'date') is false |
| Scenarios.CompareDateWithinBeforeScenario | test/index.ts:75 | isBefore('2019-05-15 20:20:30', 'date') is false |
| Scenarios.CompareDateWithinAfterScenario | test/index.ts:102 | isAfter('2019-05-15 20:20:30', 'date') is false |
| Scenarios.CompareDateEarlierBeforeScenario | test/index.ts:76 | isBefore('2019-05-14 10:20:30', 'date') is false |
| Scenarios.CompareDateEarlierAfterScenario | test/index.ts:103 | isAfter('2019-05-14 10:20:30', 'date') is true |
| Scenarios.CompareMonthLaterBeforeScenario | test/index.ts:78 | isBefore('2019-06-15 10:20:30', 'month') is true |
| Scenarios.CompareMonthLaterAfterScenario | test/index.ts:105 | isAfter('2019-06-15 10:20:30', 'month') is false |
| Scenarios.CompareMonthWithinBeforeScenario | test/index.ts:79 | isBefore('2019-05-25 10:20:30', 'month') is false |
| Scenarios.CompareMonthWithinAfterScenario | test/index.ts:106 | isAfter('2019-05-25 10:20:30', 'month') is false |
| Scenarios.CompareMonthEarlierBeforeScenario | test/index.ts:80 | isBefore('2019-04-15 10:20:30', 'month') is false |
| Scenarios.CompareMonthEarlierAfterScenario | test/index.ts:107 | with a clock day up to 30, isAfter('2019-04-15 10:20:30', 'month') is true |
| Scenarios.CompareMonthEarlierRolled | test/index.ts:107 | with a clock on a 31st, the April text is read as May, so isAfter and isBefore at month are both false |
| Scenarios.CompareYearLaterBeforeScenario | test/index.ts:82 | isBefore('2020-05-15 10:20:30', 'year') is true |
| Scenarios.CompareYearLaterAfterScenario | test/index.ts:109 | isAfter('2020-05-15 10:20:30', 'year') is false |
| Scenarios.CompareYearWithinBeforeScenario | test/index.ts:83 | isBefore('2019-06-15 10:20:30', 'year') is false |
| Scenarios.CompareYearWithinAfterScenario | test/index.ts:110 | isAfter('2019-06-15 10:20:30', 'year') is false |
| Scenarios.CompareYearEarlierBeforeScenario | test/index.ts:84 | isBefore('2018-05-15 10:20:30', 'year') is false |
| Scenarios.CompareYearEarlierAfterScenario | test/index.ts:111 | isAfter('2018-05-15 10:20:30', 'year') is true |

## Left out

- Time zones and daylight saving time. The calendar is the UTC calendar of the host's Date; the host's local-time offset is not modelled.
- The system clock. It is the parameter `now` wherever the engine calls `new Date()` without arguments.
- Floating point and NaN. Instants, field values and setter arguments are integers. A Date's 8.64e15 ms range limit is not modelled.
- The general regular-expression engine. Parse patterns are modelled as literal characters and digit groups. Regex metacharacters in a template (such as `.` or `(`) are read as themselves.
- Moments.LookKeysSpec: the `^k1|k2|...|kn$` regex built from the target's keys is modelled as membership in the key set. The regex also accepts a table key that only starts with k1, only ends with kn, or only contains a middle key; those keys are not modelled.
- Sorting.SortBySpec: `Array.prototype.sort` with `sortHandles` is modelled as a stable insertion sort. The comparator never answers 0, so the order of two equal weights is engine-defined. Templates that repeat a token are therefore not given a fixed order.
- Undefined values in `move` and `change`, and non-numeric values. Entries are (key, integer) pairs.
- `Duration`, `Mymont.during` and the `format` alias of `toString`: they only copy fields or forward a call.
- `Object.seal`, `Object.assign` and `dist/myment.d.ts`: none of them computes anything.
- The earlier cut's `move` stub and its `Duration` class: they compute nothing.
- Moments.ParseToString: the as-written round trip is proved for a clock day up to 28 and a template that reads the year and month whenever it reads the date. On other clocks a setter can roll the month over; `Moments.ParseFixedToString` states the round trip for every clock through the corrected parse.
- Moments.OwnTextParsed: stated for a clock whose date fits the instance's month; `Moments.OwnTextOtherMonth` gives the engine's answer otherwise.
- Scenarios.MoveLeapDayScenario: holds as written for a clock day up to 29; `Scenarios.MoveLeapDayRolled` gives the engine's answer on the 30th and 31st.
- Scenarios.CompareMonthEarlierAfterScenario: holds as written for a clock day up to 30; `Scenarios.CompareMonthEarlierRolled` gives the engine's answer on the 31st.
- Moments.EndOfShape: for `year` and `month`, the as-written `endOf` is stated only by its shape and the test-suite scenarios. It is not claimed to be the calendar end of the year or month (finding 3).

## Findings

| source | as written | input that shows it | evidently intended | confidence | as-written member | corrected member |
|---|---|---|---|---|---|---|
| dist/myment.js:370-378 | `parseDate` applies the setters one by one to a Date that starts at the clock, so `setMonth` rolls over when the clock's day does not exist in the parsed month | clock on any 31st; parse `2019-04-15 10:20:30` gives 15 May 2019 (and so test/index.ts:107 fails on a 31st, and test/index.ts:30-31 on a 30th or 31st) | the parsed fields are set together and the parsed month is kept | not executed | Parser.RollOverExample | Parser.FixedKeepsMonth |
| src/myment.ts:84-97 | the earlier `parseDate` checks that the text matches, then returns the clock without reading any capture | any clock; parse `2019-05-15 10:20:30` gives the clock, not 15 May 2019 | the captures are applied to the date, as the current cut does | not executed | MomentsTs.ParseToStringTs | Moments.ParseFixedToStringDefault |
| dist/myment.js:198-207 | `endOf('year')` and `endOf('month')` move by a fixed 365 or 30 days before `startOf`, so a move that stays in the same year or month steps back into the previous one | 2020-01-01 00:00:00.000; `endOf('year')` gives 2019-12-31 23:59:59.999 | the last millisecond of the instant's own year or month | not executed | Scenarios.EndOfYearFromNewYear | Moments.EndOfCalendarBracket |
