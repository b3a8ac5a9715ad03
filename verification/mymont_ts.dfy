/** The earlier cut of the engine: of, now, parse and toString of the
    Mymont value object. Its formatDate is the if/else chain of the
    Formatter module; its parseDate turns every token of the template into a
    two-digit capture group and, once the text matches, returns the clock
    without reading a single capture. */
module MomentsTs {
  import opened Wrappers
  import opened Numbers
  import opened Calendar
  import opened Tokens
  import opened Formatter
  import opened Pattern
  import Moments
  import Parser

  /** The capture group of every token in this cut: (\d{2}). */
  const TwoDigits: Atom := Digits(2, 2)

  /** The replace callback of this cut's parseDate: a literal is kept and
      every token, whichever it is, becomes a two-digit group. */
  function CompileTsItems(items: seq<Item>): seq<Atom>
  {
    if items == [] then []
    else (match items[0]
          case Lit(c) => [Char(c)]
          case Tok(_) => [TwoDigits]) + CompileTsItems(items[1..])
  }

  function CompileTs(format: string): seq<Atom>
  {
    CompileTsItems(Scan(format, false))
  }

  /** parseDate of this cut: -1 when the text does not match, otherwise the
      clock, whatever the captures hold. */
  function ParseDateTs(input: string, format: string, now: int): (r: int)
    ensures r == -1 || r == now
    ensures Exec(CompileTs(format), input).Some? ==> r == now
    ensures now != -1 ==> (r == -1 <==> Exec(CompileTs(format), input).None?)
  {
    if Exec(CompileTs(format), input).None? then -1 else now
  }

  /** Mymont.parse of this cut: a number is handed to of, so the result
      carries the default format. */
  function Parse(value: string, format: Option<string>, now: int): (m: Moments.Mymont)
    ensures m.formatStr == DefaultFormat
    ensures m.time == -1 || m.time == now
  {
    Moments.Of(Moments.Number(ParseDateTs(value, Moments.TemplateOr(format), now)), format)
  }

  /** toString of this cut: the given template when it is truthy, otherwise
      the instance's own. */
  function ToString(m: Moments.Mymont, format: Option<string>): string
  {
    FormatDateTs(m.time, if format.Some? && format.value != "" then format.value else m.formatStr)
  }

  // ===== proofs =====

  /** Each scanned item gives one atom: a literal its character, a token a
      two-digit group. */
  lemma {:induction false} CompileTsItemsSpec(items: seq<Item>)
    ensures |CompileTsItems(items)| == |items|
    ensures forall k :: 0 <= k < |items| ==>
      CompileTsItems(items)[k] == if items[k].Lit? then Char(items[k].c) else TwoDigits
  {
    if items != [] {
      CompileTsItemsSpec(items[1..]);
      var r := CompileTsItems(items);
      forall k | 1 <= k < |items| ensures r[k] == CompileTsItems(items[1..])[k - 1] {
      }
    }
  }

  /** The two cuts render every template without 'z' alike, so toString
      agrees between them there. */
  lemma ToStringAgrees(m: Moments.Mymont, format: Option<string>)
    requires var f := if format.Some? && format.value != "" then format.value else m.formatStr; 'z' !in f
    ensures ToString(m, format) == Moments.ToString(m, format)
  {
    FormatTsAgrees(m.time, if format.Some? && format.value != "" then format.value else m.formatStr);
  }

  /** The atoms of the separator and token pairs: each separator character,
      then a two-digit group. */
  function PairAtoms(ps: seq<(char, char)>): seq<Atom>
  {
    if ps == [] then [] else [Char(ps[0].0), TwoDigits] + PairAtoms(ps[1..])
  }

  lemma {:induction false} CompilePairItems(ps: seq<(char, char)>)
    ensures CompileTsItems(PairItems(ps)) == PairAtoms(ps)
  {
    if ps != [] {
      var items := PairItems(ps);
      assert items == [Lit(ps[0].0), Tok([ps[0].1, ps[0].1])] + PairItems(ps[1..]);
      assert items[1..] == [Tok([ps[0].1, ps[0].1])] + PairItems(ps[1..]);
      assert items[1..][1..] == PairItems(ps[1..]);
      CompilePairItems(ps[1..]);
    }
  }

  /** The pattern this cut builds from the default template. */
  const DefaultTsPattern: seq<Atom> :=
    [TwoDigits, Char('-'), TwoDigits, Char('-'), TwoDigits, Char(' '),
     TwoDigits, Char(':'), TwoDigits, Char(':'), TwoDigits]

  lemma DefaultPairAtoms()
    ensures [TwoDigits] + PairAtoms(DefaultPairs) == DefaultTsPattern
  {
    var p1 := DefaultPairs[1..];
    assert p1 == [('-', 'D'), (' ', 'H'), (':', 'm'), (':', 's')];
    assert p1[1..] == [(' ', 'H'), (':', 'm'), (':', 's')];
    assert p1[1..][1..] == [(':', 'm'), (':', 's')];
    assert p1[1..][1..][1..] == [(':', 's')];
    assert PairAtoms(p1[1..][1..][1..]) == [Char(':'), TwoDigits];
    assert PairAtoms(p1[1..][1..]) == [Char(':'), TwoDigits, Char(':'), TwoDigits];
    assert PairAtoms(p1[1..]) == [Char(' '), TwoDigits, Char(':'), TwoDigits, Char(':'), TwoDigits];
  }

  /** Every group of the default pattern is followed by a separator or ends
      it. */
  lemma DefaultTsSeparated()
    ensures Separated(DefaultTsPattern)
  {
  }

  /** The items the default template scans into give the default pattern. */
  lemma CompileDefaultItems(items: seq<Item>)
    requires items == [Tok("YYYY")] + PairItems(DefaultPairs)
    ensures CompileTsItems(items) == DefaultTsPattern
  {
    assert items[1..] == PairItems(DefaultPairs);
    CompilePairItems(DefaultPairs);
    DefaultPairAtoms();
  }

  lemma CompileTsDefault()
    ensures CompileTs(DefaultFormat) == DefaultTsPattern
  {
    ScanDefaultFormat(false);
    CompileDefaultItems(Scan(DefaultFormat, false));
  }

  predicate TwoDigitText(s: string)
  {
    |s| == 2 && AllDigits(s)
  }

  /** The renderings of the pair tokens, in order. */
  function PairCaps(ps: seq<(char, char)>, t: int): seq<string>
  {
    if ps == [] then [] else [TableReplacement([ps[0].1, ps[0].1], t)] + PairCaps(ps[1..], t)
  }

  /** When every pair token renders as two digits, the renderings fill the
      pairs' groups and spell out the pairs' text. */
  lemma {:induction false} PairCapsFill(ps: seq<(char, char)>, t: int)
    requires forall i :: 0 <= i < |ps| ==> TwoDigitText(TableReplacement([ps[i].1, ps[i].1], t))
    ensures Groups(PairAtoms(ps)) == |ps| == |PairCaps(ps, t)|
    ensures FitsAll(PairAtoms(ps), PairCaps(ps, t))
    ensures Fill(PairAtoms(ps), PairCaps(ps, t)) == PairText(ps, t)
  {
    if ps != [] {
      PairCapsFill(ps[1..], t);
      var p := PairAtoms(ps);
      var caps := PairCaps(ps, t);
      assert p[1..] == [TwoDigits] + PairAtoms(ps[1..]);
      assert p[1..][1..] == PairAtoms(ps[1..]);
      assert caps[1..] == PairCaps(ps[1..], t);
    }
  }

  /** Month, date, hours, minutes and seconds always render as two
      digits. */
  lemma FieldTwoDigits(f: Field, t: int)
    requires f != Year && f != MilliSeconds
    ensures TwoDigitText(Stringify(f, t))
  {
    FieldsValid(t);
    match f
    case Month => FormatNumSpec(MonthFromTime(t) + 1);
    case Date => FormatNumSpec(DateFromTime(t));
    case Hours => FormatNumSpec(HourFromTime(t));
    case Minutes => FormatNumSpec(MinFromTime(t));
    case Seconds => FormatNumSpec(SecFromTime(t));
  }

  lemma PairTwoDigits(x: char, f: Field, t: int)
    requires TokenMatches(f, [x, x]) && f != Year && f != MilliSeconds
    ensures TwoDigitText(TableReplacement([x, x], t))
  {
    TableRendersField([x, x], f, t);
    FieldTwoDigits(f, t);
  }

  lemma DefaultPairsTwoDigits(t: int)
    ensures forall i :: 0 <= i < |DefaultPairs| ==> TwoDigitText(TableReplacement([DefaultPairs[i].1, DefaultPairs[i].1], t))
  {
    PairTwoDigits('M', Month, t);
    PairTwoDigits('D', Date, t);
    PairTwoDigits('H', Hours, t);
    PairTwoDigits('m', Minutes, t);
    PairTwoDigits('s', Seconds, t);
  }

  /** A four-digit year followed by the text of pairs whose tokens render
      as two digits matches a two-digit group and the pairs' atoms from the
      third character on: the group takes the last two digits of the year. */
  lemma YearThenPairsMatch(s: string, y: string, ps: seq<(char, char)>, t: int)
    requires s == y + PairText(ps, t) && |y| == 4 && AllDigits(y)
    requires Separated([TwoDigits] + PairAtoms(ps))
    requires forall i :: 0 <= i < |ps| ==> TwoDigitText(TableReplacement([ps[i].1, ps[i].1], t))
    ensures MatchAt([TwoDigits] + PairAtoms(ps), s, 2).Some?
  {
    PairCapsFill(ps, t);
    var p := [TwoDigits] + PairAtoms(ps);
    var caps := [y[2..]] + PairCaps(ps, t);
    assert AllDigits(y[2..]) by {
      forall i | 0 <= i < 2 ensures IsDigit(y[2..][i]) {
        assert y[2..][i] == y[i + 2];
      }
    }
    assert p[1..] == PairAtoms(ps) && caps[1..] == PairCaps(ps, t);
    assert FitsAll(p, caps);
    assert Fill(p, caps) == y[2..] + PairText(ps, t);
    assert s[2..] == Fill(p, caps);
    MatchAtComplete(p, caps, s, 2);
  }

  /** The default rendering of an instant with a four-digit year matches the
      default pattern from its third character on. */
  lemma DefaultRenderingMatches(t: int)
    requires 1000 <= YearFromTime(t) <= 9999
    ensures 2 <= |FormatDate(t, DefaultFormat)| && MatchAt(DefaultTsPattern, FormatDate(t, DefaultFormat), 2).Some?
  {
    FormatDefaultSplit(t);
    Parser.RenderFits(Year, t);
    DefaultPairsTwoDigits(t);
    DefaultPairAtoms();
    DefaultTsSeparated();
    YearThenPairsMatch(FormatDate(t, DefaultFormat), Stringify(Year, t), DefaultPairs, t);
  }

  /** This cut's parse accepts every default rendering of an instant with a
      four-digit year, and answers with the clock instead of the instant. */
  lemma ParseTsOwnText(t: int, now: int)
    requires 1000 <= YearFromTime(t) <= 9999
    ensures ParseDateTs(FormatDateTs(t, DefaultFormat), DefaultFormat, now) == now
  {
    FormatTsAgrees(t, DefaultFormat);
    DefaultRenderingMatches(t);
    CompileTsDefault();
    ExecFirst(DefaultTsPattern, FormatDate(t, DefaultFormat));
  }

  /** So the round trip through toString and parse of this cut loses the
      instance: it gives the clock, in the default format. */
  lemma ParseToStringTs(m: Moments.Mymont, now: int)
    requires m.formatStr == DefaultFormat && 1000 <= YearFromTime(m.time) <= 9999
    ensures Parse(ToString(m, None), None, now) == Moments.Mymont(now, DefaultFormat)
  {
    ParseTsOwnText(m.time, now);
  }
}
