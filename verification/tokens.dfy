/** The token table of the date engine: seven handles, one per date field,
    each with its sort weight, key, token pattern, capture pattern, rendering
    and setter; the lookup of a scanned token in the table; and the scanner
    that splits a template into literal characters and tokens. */
module Tokens {
  import opened Wrappers
  import opened Numbers
  import opened Calendar
  import opened Pattern
  import HostDate

  datatype Field = Year | Month | Date | Hours | Minutes | Seconds | MilliSeconds

  /** The handles in table order, which is also sort-weight order. */
  const TokenHandles: seq<Field> := [Year, Month, Date, Hours, Minutes, Seconds, MilliSeconds]

  function SortWeight(f: Field): nat
  {
    match f
    case Year => 0
    case Month => 1
    case Date => 2
    case Hours => 3
    case Minutes => 4
    case Seconds => 5
    case MilliSeconds => 6
  }

  function Key(f: Field): string
  {
    match f
    case Year => "year"
    case Month => "month"
    case Date => "date"
    case Hours => "hours"
    case Minutes => "minutes"
    case Seconds => "seconds"
    case MilliSeconds => "milliSeconds"
  }

  /** `minValue || 0`: only month and date declare a minimum, 1. */
  function MinValue(f: Field): int
  {
    if f == Month || f == Date then 1 else 0
  }

  /** The handle's token: the exact string "YYYY" for the year, an anchored
      one-or-two-letter pattern for the others. */
  predicate TokenMatches(f: Field, part: string)
  {
    match f
    case Year => part == "YYYY"
    case Month => part == "M" || part == "MM"
    case Date => part == "D" || part == "DD"
    case Hours => part == "H" || part == "HH"
    case Minutes => part == "m" || part == "mm"
    case Seconds => part == "s" || part == "ss"
    case MilliSeconds => part == "z" || part == "zz"
  }

  /** The capture pattern a handle declares, if any. */
  function GenRegx(f: Field): Option<Atom>
  {
    match f
    case Year => Some(Digits(4, 4))
    case MilliSeconds => Some(Digits(1, 3))
    case _ => None
  }

  /** The handle's stringify on the date of instant t. */
  function Stringify(f: Field, t: int): string
  {
    match f
    case Year => NumToString(YearFromTime(t))
    case Month => FormatNum(MonthFromTime(t) + 1)
    case Date => FormatNum(DateFromTime(t))
    case Hours => FormatNum(HourFromTime(t))
    case Minutes => FormatNum(MinFromTime(t))
    case Seconds => FormatNum(SecFromTime(t))
    case MilliSeconds => NumToString(MsFromTime(t))
  }

  /** The handle's parse, after parseInt has read value v: the matching
      setter, with the month shifted to zero-based. */
  function Apply(f: Field, v: int, t: int): int
  {
    match f
    case Year => SetFullYear(t, v)
    case Month => SetMonth(t, v - 1)
    case Date => SetDate(t, v)
    case Hours => SetHours(t, v)
    case Minutes => SetMinutes(t, v)
    case Seconds => SetSeconds(t, v)
    case MilliSeconds => SetMilliseconds(t, v)
  }

  /** The handle's parse on the text part, on a date whose time value is t. */
  function ApplyPart(f: Field, part: string, t: int): int
    requires IsIntText(part)
  {
    Apply(f, ParseInt(part), t)
  }

  /** The handle's parse, run on a mutable host date. */
  method ParsePart(f: Field, part: string, d: HostDate.JsDate)
    requires IsIntText(part)
    modifies d
    ensures d.time == ApplyPart(f, part, old(d.time))
  {
    var v := ParseInt(part);
    ghost var t := d.time;
    assert ApplyPart(f, part, t) == Apply(f, v, t);
    match f
    case Year => d.SetFullYear(v); assert d.time == Apply(f, v, t);
    case Month => d.SetMonth(v - 1); assert d.time == Apply(f, v, t);
    case Date => d.SetDate(v); assert d.time == Apply(f, v, t);
    case Hours => d.SetHours(v); assert d.time == Apply(f, v, t);
    case Minutes => d.SetMinutes(v); assert d.time == Apply(f, v, t);
    case Seconds => d.SetSeconds(v); assert d.time == Apply(f, v, t);
    case MilliSeconds => d.SetMilliseconds(v); assert d.time == Apply(f, v, t);
  }

  /** The first handle of hs whose token matches part (Array.prototype.find). */
  function FindHandle(hs: seq<Field>, part: string): Option<Field>
  {
    if hs == [] then None
    else if TokenMatches(hs[0], part) then Some(hs[0])
    else FindHandle(hs[1..], part)
  }

  function MatchToken(part: string): Option<Field>
  {
    FindHandle(TokenHandles, part)
  }

  /** Index of the first handle of hs, from i on, whose key is key; -1 when
      there is none (Array.prototype.findIndex). */
  function FindKey(hs: seq<Field>, key: string, i: nat): int
    decreases |hs| - i
  {
    if i >= |hs| then -1 else if Key(hs[i]) == key then i else FindKey(hs, key, i + 1)
  }

  function IndexOfKey(key: string): int
  {
    FindKey(TokenHandles, key, 0)
  }

  /** The value of a field as the engine reads and writes it: the month is
      one-based. */
  function FieldValue(fs: DateFields, f: Field): int
  {
    match f
    case Year => fs.year
    case Month => fs.month0 + 1
    case Date => fs.date
    case Hours => fs.hours
    case Minutes => fs.minutes
    case Seconds => fs.seconds
    case MilliSeconds => fs.ms
  }

  /** fs with the field of handle f set to value v. */
  function WithField(fs: DateFields, f: Field, v: int): DateFields
  {
    match f
    case Year => fs.(year := v)
    case Month => fs.(month0 := v - 1)
    case Date => fs.(date := v)
    case Hours => fs.(hours := v)
    case Minutes => fs.(minutes := v)
    case Seconds => fs.(seconds := v)
    case MilliSeconds => fs.(ms := v)
  }

  // ----- applying several handles in turn -----

  /** The setters of a list of (handle, value) steps, applied front to
      back to one date. */
  function ApplyAll(steps: seq<(Field, int)>, t: int): int
  {
    if steps == [] then t else ApplyAll(steps[1..], Apply(steps[0].0, steps[0].1, t))
  }

  /** The same steps on a record of fields, without any rolling over. */
  function SetAll(fs: DateFields, steps: seq<(Field, int)>): DateFields
    decreases |steps|
  {
    if steps == [] then fs else SetAll(WithField(fs, steps[0].0, steps[0].1), steps[1..])
  }

  /** Every intermediate record of the steps is a valid date. */
  predicate StepsValid(fs: DateFields, steps: seq<(Field, int)>)
    decreases |steps|
  {
    steps == []
    || (ValidFields(WithField(fs, steps[0].0, steps[0].1))
        && StepsValid(WithField(fs, steps[0].0, steps[0].1), steps[1..]))
  }

  /** The fields of base, except that the fields in chosen come from src. */
  function Overlay(base: DateFields, src: DateFields, chosen: set<Field>): (r: DateFields)
    ensures forall g :: FieldValue(r, g) == if g in chosen then FieldValue(src, g) else FieldValue(base, g)
  {
    DateFields(
      if Year in chosen then src.year else base.year,
      if Month in chosen then src.month0 else base.month0,
      if Date in chosen then src.date else base.date,
      if Hours in chosen then src.hours else base.hours,
      if Minutes in chosen then src.minutes else base.minutes,
      if Seconds in chosen then src.seconds else base.seconds,
      if MilliSeconds in chosen then src.ms else base.ms)
  }

  // ----- the scanner -----

  datatype Item = Lit(c: char) | Tok(text: string)

  /** The letters that form one- or two-letter tokens; 'z' only in the
      pattern that has a milliseconds token. */
  function Letters(withZ: bool): string
  {
    "MDHms" + (if withZ then "z" else "")
  }

  predicate IsTokenLetter(c: char, withZ: bool)
  {
    c in Letters(withZ)
  }

  /** For each letter c, the doubled form before the single one, as `cc?`
      tries them. */
  function Pairs(cs: string): (r: seq<string>)
    ensures forall a :: a in r ==> 1 <= |a| <= 2
    ensures |r| == 2 * |cs|
  {
    if cs == [] then [] else [[cs[0], cs[0]], [cs[0]]] + Pairs(cs[1..])
  }

  /** The alternatives of the global token pattern, in the order they are
      tried: YYYY, YY, MM, M, DD, D, HH, H, mm, m, ss, s and, with a
      milliseconds token, zz, z. */
  function Alternatives(withZ: bool): (r: seq<string>)
    ensures forall a :: a in r ==> 1 <= |a| <= 4
  {
    ["YYYY", "YY"] + Pairs(Letters(withZ))
  }

  /** The first alternative that matches at the start of s. */
  function FirstAlternative(s: string, alts: seq<string>): (r: Option<string>)
    ensures r.Some? ==> r.value in alts && r.value <= s
  {
    if alts == [] then None
    else if alts[0] <= s then Some(alts[0])
    else FirstAlternative(s, alts[1..])
  }

  /** Global match of the token pattern: at each position the first
      alternative that matches is a token and scanning resumes after it; a
      position where none matches is a literal character. */
  function Scan(s: string, withZ: bool): seq<Item>
    decreases |s|
  {
    if s == [] then []
    else match FirstAlternative(s, Alternatives(withZ))
      case Some(a) => [Tok(a)] + Scan(s[|a|..], withZ)
      case None => [Lit(s[0])] + Scan(s[1..], withZ)
  }

  /** The text the items were scanned from. */
  function Flatten(items: seq<Item>): string
  {
    if items == [] then ""
    else match items[0]
      case Lit(c) => [c] + Flatten(items[1..])
      case Tok(t) => t + Flatten(items[1..])
  }

  /** Length of the token at the start of s, 0 when there is none, stated
      letter by letter: four Y's or else two; any other token letter doubled
      or else alone. */
  function TokenAt(s: string, withZ: bool): nat
  {
    if |s| >= 4 && s[0] == s[1] == s[2] == s[3] == 'Y' then 4
    else if |s| >= 2 && s[0] == s[1] == 'Y' then 2
    else if |s| >= 1 && IsTokenLetter(s[0], withZ) then
      (if |s| >= 2 && s[1] == s[0] then 2 else 1)
    else 0
  }

  /** The scanner's result described letter by letter, through TokenAt. */
  function Tokenize(s: string, withZ: bool): seq<Item>
    decreases |s|
  {
    if s == [] then []
    else
      var n := TokenAt(s, withZ);
      if n == 0 then [Lit(s[0])] + Tokenize(s[1..], withZ)
      else [Tok(s[..n])] + Tokenize(s[n..], withZ)
  }

  // ===== proofs =====

  /** The table lists each handle at the index of its sort weight. */
  lemma TableInWeightOrder(f: Field)
    ensures |TokenHandles| == 7 && 0 <= SortWeight(f) < 7 && TokenHandles[SortWeight(f)] == f
  {
  }

  /** No text matches the tokens of two handles. */
  lemma TokensDisjoint(f: Field, g: Field, part: string)
    requires TokenMatches(f, part) && TokenMatches(g, part)
    ensures f == g
  {
  }

  lemma {:induction false} FindHandleSpec(hs: seq<Field>, part: string, f: Field)
    ensures FindHandle(hs, part) == Some(f) <==> f in hs && TokenMatches(f, part)
  {
    if hs != [] {
      FindHandleSpec(hs[1..], part, f);
      if TokenMatches(hs[0], part) && TokenMatches(f, part) {
        TokensDisjoint(hs[0], f, part);
      }
    }
  }

  /** matchToken finds handle f exactly when f's token matches: the token
      patterns of the table do not overlap. */
  lemma MatchTokenSpec(part: string, f: Field)
    ensures MatchToken(part) == Some(f) <==> TokenMatches(f, part)
  {
    FindHandleSpec(TokenHandles, part, f);
    TableInWeightOrder(f);
  }

  lemma {:induction false} PairsMembers(cs: string, a: string)
    ensures a in Pairs(cs) <==> |a| >= 1 && a[0] in cs && (a == [a[0]] || a == [a[0], a[0]])
  {
    if cs != [] {
      PairsMembers(cs[1..], a);
      if |a| >= 1 && a[0] in cs && a[0] != cs[0] {
        assert a[0] in cs[1..];
      }
    }
  }

  /** "YY" is scanned as a token but names no handle. */
  lemma NoHandleForYY()
    ensures MatchToken("YY") == None
  {
    forall f ensures MatchToken("YY") != Some(f) {
      MatchTokenSpec("YY", f);
    }
  }

  /** The handle whose token an alternative other than "YY" is; it is the
      milliseconds handle only where 'z' is a token letter. */
  lemma AlternativeField(a: string, withZ: bool) returns (f: Field)
    requires a in Alternatives(withZ) && a != "YY"
    ensures TokenMatches(f, a) && (f == MilliSeconds ==> withZ)
  {
    if a == "YYYY" {
      f := Year;
    } else {
      assert a in Pairs(Letters(withZ));
      PairsMembers(Letters(withZ), a);
      var c := a[0];
      assert c in "MDHms" || (withZ && c == 'z');
      f := if c == 'M' then Month else if c == 'D' then Date else if c == 'H' then Hours
           else if c == 'm' then Minutes else if c == 's' then Seconds else MilliSeconds;
    }
  }

  lemma HandleOfAlternative(a: string)
    requires a in Alternatives(true) && a != "YY"
    ensures MatchToken(a).Some?
  {
    var f := AlternativeField(a, true);
    MatchTokenSpec(a, f);
  }

  /** Of the scanner's alternatives, only "YY" names no handle. */
  lemma MatchTokenOnAlternatives(a: string)
    requires a in Alternatives(true)
    ensures MatchToken(a).None? <==> a == "YY"
  {
    if a == "YY" {
      NoHandleForYY();
    } else {
      HandleOfAlternative(a);
    }
  }

  /** findIndex by key gives a handle's sort weight, and -1 for any other
      key. */
  lemma IndexOfKeySpec(key: string)
    ensures forall f :: Key(f) == key ==> IndexOfKey(key) == SortWeight(f)
    ensures (forall f :: Key(f) != key) ==> IndexOfKey(key) == -1
  {
  }

  /** findIndex finds each handle's own key at its sort weight. */
  lemma IndexOfFieldKey(f: Field)
    ensures IndexOfKey(Key(f)) == SortWeight(f)
  {
    match f
    case Year => assert IndexOfKey("year") == 0;
    case Month => assert IndexOfKey("month") == 1;
    case Date => assert IndexOfKey("date") == 2;
    case Hours => assert IndexOfKey("hours") == 3;
    case Minutes => assert IndexOfKey("minutes") == 4;
    case Seconds => assert IndexOfKey("seconds") == 5;
    case MilliSeconds => assert IndexOfKey("milliSeconds") == 6;
  }

  /** Each handle's parse replaces one field of the current fields and takes
      the instant of the result. */
  lemma ApplyIsTimeOf(f: Field, v: int, t: int)
    ensures Apply(f, v, t) == TimeOf(WithField(FieldsOf(t), f, v))
  {
    SettersAreTimeOf(t, if f == Month then v - 1 else v);
  }

  /** When the new fields are in range the date lands on them: the handle's
      field reads back v and no other field moves. */
  lemma ApplyLands(f: Field, v: int, t: int)
    requires ValidFields(WithField(FieldsOf(t), f, v))
    ensures FieldsOf(Apply(f, v, t)) == WithField(FieldsOf(t), f, v)
    ensures FieldValue(FieldsOf(Apply(f, v, t)), f) == v
  {
    ApplyIsTimeOf(f, v, t);
    FieldsOfTimeOf(WithField(FieldsOf(t), f, v));
  }

  /** Rendering a field and parsing it back gives the field's value. */
  lemma StringifyRoundTrip(f: Field, t: int)
    ensures IsIntText(Stringify(f, t)) && ParseInt(Stringify(f, t)) == FieldValue(FieldsOf(t), f)
  {
    FieldsValid(t);
    match f
    case Year => ParseIntNumToString(YearFromTime(t));
    case MilliSeconds => ParseIntNumToString(MsFromTime(t));
    case _ =>
      var v := FieldValue(FieldsOf(t), f);
      assert 0 <= v < 100;
      FormatNumSpec(v);
  }

  /** Replacing a field by its own value changes nothing, and the replaced
      field reads back the new value. */
  lemma WithFieldValue(fs: DateFields, f: Field, v: int)
    ensures WithField(fs, f, FieldValue(fs, f)) == fs
    ensures FieldValue(WithField(fs, f, v), f) == v
  {
  }

  /** Two records with the same value in every field are equal. */
  lemma FieldValuesDetermine(a: DateFields, b: DateFields)
    requires forall g :: FieldValue(a, g) == FieldValue(b, g)
    ensures a == b
  {
    assert FieldValue(a, Year) == FieldValue(b, Year);
    assert FieldValue(a, Month) == FieldValue(b, Month);
    assert FieldValue(a, Date) == FieldValue(b, Date);
    assert FieldValue(a, Hours) == FieldValue(b, Hours);
    assert FieldValue(a, Minutes) == FieldValue(b, Minutes);
    assert FieldValue(a, Seconds) == FieldValue(b, Seconds);
    assert FieldValue(a, MilliSeconds) == FieldValue(b, MilliSeconds);
  }

  /** While every intermediate date is valid, the setters do not roll over:
      applying the steps one by one lands on the record that takes each
      step's value. */
  lemma {:induction false} ApplyAllSetAll(steps: seq<(Field, int)>, t: int)
    requires StepsValid(FieldsOf(t), steps)
    ensures FieldsOf(ApplyAll(steps, t)) == SetAll(FieldsOf(t), steps)
    ensures ApplyAll(steps, t) == TimeOf(SetAll(FieldsOf(t), steps))
  {
    if steps == [] {
      TimeOfFieldsOf(t);
    } else {
      var (f, v) := steps[0];
      ApplyLands(f, v, t);
      ApplyAllSetAll(steps[1..], Apply(f, v, t));
    }
  }

  /** A field that several steps set, all to the same value, ends with that
      value; a field no step sets keeps its value. */
  lemma {:induction false} SetAllValue(fs: DateFields, steps: seq<(Field, int)>, g: Field, v: int)
    requires forall i :: 0 <= i < |steps| && steps[i].0 == g ==> steps[i].1 == v
    ensures FieldValue(SetAll(fs, steps), g)
      == if exists i :: 0 <= i < |steps| && steps[i].0 == g then v else FieldValue(fs, g)
    decreases |steps|
  {
    if steps != [] {
      var fs' := WithField(fs, steps[0].0, steps[0].1);
      assert forall i :: 0 <= i < |steps[1..]| ==> steps[1..][i] == steps[i + 1];
      SetAllValue(fs', steps[1..], g, v);
      if exists i :: 0 <= i < |steps| && steps[i].0 == g {
        if steps[0].0 != g {
          var i :| 0 <= i < |steps| && steps[i].0 == g;
          assert steps[1..][i - 1].0 == g;
        }
      } else {
        assert steps[0].0 != g;
        assert forall i :: 0 <= i < |steps[1..]| ==> steps[1..][i].0 != g;
      }
    }
  }

  /** Setting one field to its minimum keeps a date valid; year 0 is a
      leap year, so even 29 February survives the year's reset. */
  lemma MinFieldValid(fs: DateFields, f: Field)
    requires ValidFields(fs)
    ensures ValidFields(WithField(fs, f, MinValue(f)))
  {
    if f == Year {
      assert InLeapYear(0);
      assert DaysInMonth(fs.year, fs.month0) <= DaysInMonth(0, fs.month0);
    }
  }

  /** Setting only fields to their minimum (month to January, date to the
      first, the rest to zero) never leaves the range of a valid date. */
  lemma {:induction false} MinStepsValid(fs: DateFields, steps: seq<(Field, int)>)
    requires ValidFields(fs)
    requires forall i :: 0 <= i < |steps| ==> steps[i].1 == MinValue(steps[i].0)
    ensures StepsValid(fs, steps)
    decreases |steps|
  {
    if steps != [] {
      var fs' := WithField(fs, steps[0].0, steps[0].1);
      MinFieldValid(fs, steps[0].0);
      assert forall i :: 0 <= i < |steps[1..]| ==> steps[1..][i] == steps[i + 1];
      MinStepsValid(fs', steps[1..]);
    }
  }

  lemma {:induction false} FlattenAppend(a: seq<Item>, b: seq<Item>)
    ensures Flatten(a + b) == Flatten(a) + Flatten(b)
  {
    if a == [] {
      assert a + b == b;
    } else {
      assert (a + b)[0] == a[0];
      assert (a + b)[1..] == a[1..] + b;
      FlattenAppend(a[1..], b);
      match a[0]
      case Lit(c) =>
        assert Flatten(a + b) == [c] + Flatten(a[1..] + b);
        assert Flatten(a) == [c] + Flatten(a[1..]);
      case Tok(t) =>
        assert Flatten(a + b) == t + Flatten(a[1..] + b);
        assert Flatten(a) == t + Flatten(a[1..]);
    }
  }

  lemma FlattenCons(it: Item, rest: seq<Item>)
    ensures Flatten([it] + rest) == (if it.Lit? then [it.c] else it.text) + Flatten(rest)
  {
    assert ([it] + rest)[0] == it && ([it] + rest)[1..] == rest;
  }

  /** The scanner loses nothing: its items spell the template back. */
  lemma {:induction false} ScanLossless(s: string, withZ: bool)
    ensures Flatten(Scan(s, withZ)) == s
    decreases |s|
  {
    if s != [] {
      ScanStep(s, withZ);
      var n := TokenAt(s, withZ);
      var items := Scan(s, withZ);
      if n == 0 {
        ScanLossless(s[1..], withZ);
        FlattenCons(Lit(s[0]), Scan(s[1..], withZ));
        assert s == [s[0]] + s[1..];
      } else {
        ScanLossless(s[n..], withZ);
        FlattenCons(Tok(s[..n]), Scan(s[n..], withZ));
        assert s == s[..n] + s[n..];
      }
    }
  }

  /** The pairs of a letter c are tried before the pairs of the letters
      after it. */
  lemma PairsHead(s: string, cs: string)
    requires cs != []
    ensures var c := cs[0];
      FirstAlternative(s, Pairs(cs))
        == if [c, c] <= s then Some([c, c]) else if [c] <= s then Some([c])
           else FirstAlternative(s, Pairs(cs[1..]))
  {
    var c := cs[0];
    var ps := Pairs(cs);
    assert ps[0] == [c, c] && ps[1..][0] == [c] && ps[1..][1..] == Pairs(cs[1..]);
  }

  lemma LetterPrefixes(s: string, c: char)
    ensures [c, c] <= s <==> |s| >= 2 && s[0] == c && s[1] == c
    ensures [c] <= s <==> |s| >= 1 && s[0] == c
  {
    if |s| >= 2 && s[0] == c && s[1] == c {
      assert [c, c] == s[..2];
    }
    if |s| >= 1 && s[0] == c {
      assert [c] == s[..1];
    }
  }

  /** Among the letter pairs, the first that matches is the doubled letter
      when s starts with it twice, else the single letter. */
  lemma {:induction false} FirstPair(s: string, cs: string)
    ensures FirstAlternative(s, Pairs(cs))
      == if |s| >= 1 && s[0] in cs then Some(if |s| >= 2 && s[1] == s[0] then s[..2] else s[..1])
         else None
  {
    if cs != [] {
      var c := cs[0];
      PairsHead(s, cs);
      LetterPrefixes(s, c);
      FirstPair(s, cs[1..]);
      if |s| >= 1 && s[0] == c {
        if |s| >= 2 && s[1] == c {
          assert [c, c] == s[..2];
        } else {
          assert [c] == s[..1];
        }
      } else if |s| >= 1 {
        assert s[0] in cs <==> s[0] in cs[1..];
      }
    }
  }

  lemma AlternativesUnfold(s: string, withZ: bool)
    ensures FirstAlternative(s, Alternatives(withZ))
      == if "YYYY" <= s then Some("YYYY") else if "YY" <= s then Some("YY")
         else FirstAlternative(s, Pairs(Letters(withZ)))
  {
    var alts := Alternatives(withZ);
    assert alts[0] == "YYYY" && alts[1..][0] == "YY" && alts[1..][1..] == Pairs(Letters(withZ));
  }

  lemma YearPrefixes(s: string)
    ensures "YYYY" <= s <==> |s| >= 4 && s[0] == s[1] == s[2] == s[3] == 'Y'
    ensures "YY" <= s <==> |s| >= 2 && s[0] == s[1] == 'Y'
  {
    if |s| >= 4 && s[0] == s[1] == s[2] == s[3] == 'Y' {
      assert "YYYY" == s[..4];
    }
    if |s| >= 2 && s[0] == s[1] == 'Y' {
      assert "YY" == s[..2];
    }
  }

  /** The first alternative found is the token TokenAt describes: "YYYY" is
      tried before "YY" and a doubled letter before a single one. */
  lemma FirstAlternativeIsTokenAt(s: string, withZ: bool)
    ensures FirstAlternative(s, Alternatives(withZ))
      == if TokenAt(s, withZ) == 0 then None else Some(s[..TokenAt(s, withZ)])
  {
    AlternativesUnfold(s, withZ);
    YearPrefixes(s);
    FirstPair(s, Letters(withZ));
    if |s| >= 4 && s[0] == s[1] == s[2] == s[3] == 'Y' {
      assert "YYYY" == s[..4];
    } else if |s| >= 2 && s[0] == s[1] == 'Y' {
      assert "YY" == s[..2];
    }
  }

  /** One scanner step, by TokenAt. */
  lemma ScanStep(s: string, withZ: bool)
    requires s != []
    ensures var n := TokenAt(s, withZ);
      n <= |s| && Scan(s, withZ) == if n == 0 then [Lit(s[0])] + Scan(s[1..], withZ)
                                    else [Tok(s[..n])] + Scan(s[n..], withZ)
  {
    FirstAlternativeIsTokenAt(s, withZ);
  }

  /** The regular-expression scan and the letter-by-letter description
      agree on every template. */
  lemma {:induction false} ScanIsTokenize(s: string, withZ: bool)
    ensures Scan(s, withZ) == Tokenize(s, withZ)
    decreases |s|
  {
    if s != [] {
      ScanStep(s, withZ);
      var n := TokenAt(s, withZ);
      if n == 0 {
        ScanIsTokenize(s[1..], withZ);
      } else {
        ScanIsTokenize(s[n..], withZ);
      }
    }
  }

  /** Every token the scanner yields is one of the alternatives. */
  lemma {:induction false} ScanTokensAreAlternatives(s: string, withZ: bool)
    ensures forall it :: it in Scan(s, withZ) && it.Tok? ==> it.text in Alternatives(withZ)
    decreases |s|
  {
    if s != [] {
      match FirstAlternative(s, Alternatives(withZ))
      case Some(a) => ScanTokensAreAlternatives(s[|a|..], withZ);
      case None => ScanTokensAreAlternatives(s[1..], withZ);
    }
  }

  /** A character copied through as a literal is never M, D, H, m or s (nor
      z, where z is a token letter). */
  lemma {:induction false} ScanLiterals(s: string, withZ: bool)
    ensures forall it :: it in Scan(s, withZ) && it.Lit? ==> !IsTokenLetter(it.c, withZ)
    decreases |s|
  {
    if s != [] {
      ScanStep(s, withZ);
      var n := TokenAt(s, withZ);
      if n == 0 {
        ScanLiterals(s[1..], withZ);
      } else {
        ScanLiterals(s[n..], withZ);
      }
    }
  }

  /** Without a 'z' in the template the two token patterns scan alike. */
  lemma {:induction false} ScanWithoutZ(s: string)
    requires 'z' !in s
    ensures Scan(s, false) == Scan(s, true)
    decreases |s|
  {
    if s != [] {
      ScanStep(s, false);
      ScanStep(s, true);
      assert s[0] != 'z';
      assert TokenAt(s, false) == TokenAt(s, true);
      var n := TokenAt(s, true);
      if n == 0 {
        assert forall c :: c in s[1..] ==> c in s;
        ScanWithoutZ(s[1..]);
      } else {
        assert forall c :: c in s[n..] ==> c in s;
        ScanWithoutZ(s[n..]);
      }
    }
  }
}
