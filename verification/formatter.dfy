/** formatDate: the template is scanned with the global token pattern and
    each token is replaced by the rendering of the date's field it names.
    Two cuts of the engine exist: the current one dispatches through the
    token table and knows a milliseconds token; the earlier one dispatches
    through an if/else chain and scans without the "z" forms. */
module Formatter {
  import opened Numbers
  import opened Calendar
  import opened Tokens

  const DefaultFormat: string := "YYYY-MM-DD HH:mm:ss"

  /** String.prototype.replace over the scanned items: literals are copied,
      each token is replaced by what the callback returns for it. */
  function Replace(items: seq<Item>, callback: string -> string): string
  {
    if items == [] then ""
    else (match items[0]
          case Lit(c) => [c]
          case Tok(a) => callback(a)) + Replace(items[1..], callback)
  }

  /** The current cut's replacement of one token: the matching handle's
      rendering, or "" when no handle matches. */
  function TableReplacement(part: string, t: int): string
  {
    match MatchToken(part)
    case Some(f) => Stringify(f, t)
    case None => ""
  }

  function FormatDate(t: int, format: string): string
  {
    Replace(Scan(format, true), part => TableReplacement(part, t))
  }

  /** The earlier cut's replacement: an if/else chain over the token forms,
      "" for anything else. */
  function ChainReplacement(part: string, t: int): string
  {
    if part == "YYYY" then NumToString(YearFromTime(t))
    else if part == "M" || part == "MM" then FormatNum(MonthFromTime(t) + 1)
    else if part == "D" || part == "DD" then FormatNum(DateFromTime(t))
    else if part == "H" || part == "HH" then FormatNum(HourFromTime(t))
    else if part == "m" || part == "mm" then FormatNum(MinFromTime(t))
    else if part == "s" || part == "ss" then FormatNum(SecFromTime(t))
    else ""
  }

  function FormatDateTs(t: int, format: string): string
  {
    Replace(Scan(format, false), part => ChainReplacement(part, t))
  }

  // ===== proofs =====

  lemma {:induction false} ReplaceAppend(a: seq<Item>, b: seq<Item>, callback: string -> string)
    ensures Replace(a + b, callback) == Replace(a, callback) + Replace(b, callback)
  {
    if a == [] {
      assert a + b == b;
    } else {
      assert (a + b)[0] == a[0] && (a + b)[1..] == a[1..] + b;
      ReplaceAppend(a[1..], b, callback);
    }
  }

  /** Replacement only looks at the tokens: two callbacks that agree on
      every token of the items give the same text. */
  lemma {:induction false} ReplaceAgrees(items: seq<Item>, f: string -> string, g: string -> string)
    requires forall it :: it in items && it.Tok? ==> f(it.text) == g(it.text)
    ensures Replace(items, f) == Replace(items, g)
  {
    if items != [] {
      assert forall it :: it in items[1..] ==> it in items;
      ReplaceAgrees(items[1..], f, g);
    }
  }

  lemma {:induction false} ReplaceSeparators(s: string, withZ: bool, callback: string -> string)
    requires forall i :: 0 <= i < |s| ==> IsSeparator(s[i], withZ)
    ensures Replace(Tokenize(s, withZ), callback) == s
    decreases |s|
  {
    if s != [] {
      var items := Tokenize(s, withZ);
      assert TokenAt(s, withZ) == 0;
      assert items == [Lit(s[0])] + Tokenize(s[1..], withZ);
      ReplaceSeparators(s[1..], withZ, callback);
      assert items[1..] == Tokenize(s[1..], withZ);
      assert s == [s[0]] + s[1..];
    }
  }

  /** A template with no token letter and no Y is copied unchanged. */
  lemma FormatLiteralText(t: int, format: string)
    requires forall i :: 0 <= i < |format| ==> IsSeparator(format[i], true)
    ensures FormatDate(t, format) == format
  {
    ScanIsTokenize(format, true);
    ReplaceSeparators(format, true, part => TableReplacement(part, t));
  }

  lemma ScanTwoDigitYear(withZ: bool)
    ensures Scan("YY", withZ) == [Tok("YY")]
  {
    ScanStep("YY", withZ);
    assert "YY"[..2] == "YY" && "YY"[2..] == [];
  }

  lemma TwoDigitYearReplacement(t: int)
    ensures TableReplacement("YY", t) == ""
  {
    NoHandleForYY();
  }

  lemma ReplaceTwoDigitYear(t: int)
    ensures Replace([Tok("YY")], part => TableReplacement(part, t)) == ""
  {
    TwoDigitYearReplacement(t);
  }

  /** "YY" is scanned as one token that names no handle, so it vanishes. */
  lemma FormatTwoDigitYearVanishes(t: int)
    ensures FormatDate(t, "YY") == ""
  {
    ScanTwoDigitYear(true);
    ReplaceTwoDigitYear(t);
  }

  lemma {:induction false} PairsPrefix(cs: string, n: nat)
    requires n <= |cs|
    ensures Pairs(cs[..n]) == Pairs(cs)[..2 * n]
  {
    if cs != [] {
      PairsPrefix(cs[1..], if n == 0 then 0 else n - 1);
      if n > 0 {
        assert cs[..n][1..] == cs[1..][..n - 1];
      }
    }
  }

  lemma {:induction false} AlternativesPrefix(cs: string, n: nat)
    requires n <= |cs|
    ensures ["YYYY", "YY"] + Pairs(cs[..n]) == (["YYYY", "YY"] + Pairs(cs))[..2 + 2 * n]
  {
    PairsPrefix(cs, n);
  }

  /** The earlier scanner's alternatives are the current ones without the
      two "z" forms. */
  lemma AlternativesWithoutZ()
    ensures Alternatives(false) == Alternatives(true)[..12]
  {
    var cs := Letters(true);
    assert Letters(false) == cs[..5];
    AlternativesPrefix(cs, 5);
  }

  lemma ChainRendersField(part: string, f: Field, t: int)
    requires TokenMatches(f, part) && f != MilliSeconds
    ensures ChainReplacement(part, t) == Stringify(f, t)
  {
  }

  lemma TableRendersField(part: string, f: Field, t: int)
    requires TokenMatches(f, part)
    ensures TableReplacement(part, t) == Stringify(f, t)
  {
    MatchTokenSpec(part, f);
  }

  /** The table and the if/else chain render every token the earlier scanner
      can produce in the same way. */
  lemma ChainAgreesWithTable(part: string, t: int)
    requires part in Alternatives(false)
    ensures ChainReplacement(part, t) == TableReplacement(part, t)
  {
    if part == "YY" {
      NoHandleForYY();
    } else {
      var f := AlternativeField(part, false);
      ChainRendersField(part, f, t);
      TableRendersField(part, f, t);
    }
  }

  /** Where the template has no 'z', the earlier cut formats exactly as the
      current one. */
  lemma FormatTsAgrees(t: int, format: string)
    requires 'z' !in format
    ensures FormatDateTs(t, format) == FormatDate(t, format)
  {
    ScanWithoutZ(format);
    ScanTokensAreAlternatives(format, false);
    forall it | it in Scan(format, false) && it.Tok?
      ensures ChainReplacement(it.text, t) == TableReplacement(it.text, t)
    {
      ChainAgreesWithTable(it.text, t);
    }
    ReplaceAgrees(Scan(format, false), part => ChainReplacement(part, t), part => TableReplacement(part, t));
  }

  lemma ScanSingleZ(withZ: bool)
    ensures Scan("z", withZ) == if withZ then [Tok("z")] else [Lit('z')]
  {
    ScanStep("z", withZ);
    assert "z"[..1] == "z" && "z"[1..] == [];
  }

  lemma MillisecondReplacement(t: int)
    ensures TableReplacement("z", t) == NumToString(MsFromTime(t))
  {
    MatchTokenSpec("z", MilliSeconds);
  }

  lemma ReplaceSingleZ(t: int)
    ensures Replace([Lit('z')], part => ChainReplacement(part, t)) == "z"
    ensures Replace([Tok("z")], part => TableReplacement(part, t)) == NumToString(MsFromTime(t))
  {
    MillisecondReplacement(t);
  }

  /** With a 'z' the two cuts differ: the earlier one copies it, the current
      one renders the milliseconds. */
  lemma MillisecondToken(t: int)
    ensures FormatDateTs(t, "z") == "z"
    ensures FormatDate(t, "z") == NumToString(MsFromTime(t))
  {
    ScanSingleZ(false);
    ScanSingleZ(true);
    ReplaceSingleZ(t);
  }

  // ----- templates of the shape YYYY?MM?DD?HH?mm?ss -----

  /** A character that neither starts a token nor is a Y. */
  predicate IsSeparator(c: char, withZ: bool)
  {
    c != 'Y' && !IsTokenLetter(c, withZ)
  }

  /** Separator and letter pairs, each letter doubled: [('-', 'M')] stands
      for "-MM". */
  function PairTemplate(ps: seq<(char, char)>): string
  {
    if ps == [] then [] else [ps[0].0, ps[0].1, ps[0].1] + PairTemplate(ps[1..])
  }

  function PairItems(ps: seq<(char, char)>): seq<Item>
  {
    if ps == [] then [] else [Lit(ps[0].0), Tok([ps[0].1, ps[0].1])] + PairItems(ps[1..])
  }

  /** The text of PairItems(ps) once its tokens are replaced for instant t. */
  function PairText(ps: seq<(char, char)>, t: int): string
  {
    if ps == [] then [] else [ps[0].0] + TableReplacement([ps[0].1, ps[0].1], t) + PairText(ps[1..], t)
  }

  const DefaultPairs: seq<(char, char)> := [('-', 'M'), ('-', 'D'), (' ', 'H'), (':', 'm'), (':', 's')]

  lemma SeparatorPair(c: char, x: char, rest: string, withZ: bool)
    requires IsSeparator(c, withZ) && IsTokenLetter(x, withZ) && (rest == [] || rest[0] != x)
    ensures Tokenize([c, x, x] + rest, withZ) == [Lit(c), Tok([x, x])] + Tokenize(rest, withZ)
  {
    var s := [c, x, x] + rest;
    var s1 := [x, x] + rest;
    assert s[0] == c && s[1..] == s1;
    assert TokenAt(s, withZ) == 0;
    assert Tokenize(s, withZ) == [Lit(c)] + Tokenize(s1, withZ);
    assert s1[0] == x && s1[1] == x && x != 'Y';
    assert TokenAt(s1, withZ) == 2;
    assert s1[..2] == [x, x] && s1[2..] == rest;
    var tail := Tokenize(rest, withZ);
    assert Tokenize(s1, withZ) == [Tok([x, x])] + tail;
    ConsTwo(Lit(c), Tok([x, x]), tail);
  }

  lemma ConsTwo<T>(a: T, b: T, r: seq<T>)
    ensures [a] + ([b] + r) == [a, b] + r
  {
  }

  lemma {:induction false} PairTemplateTokens(ps: seq<(char, char)>, withZ: bool)
    requires forall i :: 0 <= i < |ps| ==> IsSeparator(ps[i].0, withZ) && IsTokenLetter(ps[i].1, withZ)
    ensures Tokenize(PairTemplate(ps), withZ) == PairItems(ps)
  {
    if ps != [] {
      PairTemplateTokens(ps[1..], withZ);
      var rest := PairTemplate(ps[1..]);
      assert rest == [] || rest[0] == ps[1].0;
      SeparatorPair(ps[0].0, ps[0].1, rest, withZ);
    }
  }

  lemma {:induction false} ReplacePairItems(ps: seq<(char, char)>, t: int)
    ensures Replace(PairItems(ps), part => TableReplacement(part, t)) == PairText(ps, t)
  {
    if ps != [] {
      var cb := part => TableReplacement(part, t);
      var items := PairItems(ps);
      assert items[0] == Lit(ps[0].0) && items[1..][0] == Tok([ps[0].1, ps[0].1]);
      assert items[1..][1..] == PairItems(ps[1..]);
      ReplacePairItems(ps[1..], t);
    }
  }

  lemma DefaultPairsAreSeparated(withZ: bool)
    ensures forall i :: 0 <= i < |DefaultPairs| ==>
      IsSeparator(DefaultPairs[i].0, withZ) && IsTokenLetter(DefaultPairs[i].1, withZ)
  {
  }

  lemma DefaultPairTemplate()
    ensures PairTemplate(DefaultPairs) == "-MM-DD HH:mm:ss"
  {
  }

  lemma DefaultFormatSplit(withZ: bool)
    ensures Tokenize(DefaultFormat, withZ) == [Tok("YYYY")] + Tokenize("-MM-DD HH:mm:ss", withZ)
  {
    var s := DefaultFormat;
    assert TokenAt(s, withZ) == 4;
    assert s[..4] == "YYYY" && s[4..] == "-MM-DD HH:mm:ss";
  }

  /** The default template scans into the year token followed by five
      separator and token pairs. */
  lemma ScanDefaultFormat(withZ: bool)
    ensures Scan(DefaultFormat, withZ) == [Tok("YYYY")] + PairItems(DefaultPairs)
  {
    ScanIsTokenize(DefaultFormat, withZ);
    DefaultFormatSplit(withZ);
    DefaultPairsAreSeparated(withZ);
    PairTemplateTokens(DefaultPairs, withZ);
    DefaultPairTemplate();
  }

  lemma PairTextStep(ps: seq<(char, char)>, f: Field, t: int)
    requires ps != [] && TokenMatches(f, [ps[0].1, ps[0].1])
    ensures PairText(ps, t) == [ps[0].0] + Stringify(f, t) + PairText(ps[1..], t)
  {
    TableRendersField([ps[0].1, ps[0].1], f, t);
  }

  /** Five links x[i] == [c[i]] + a[i] + x[i + 1] ending in [] spell out
      x[0]. */
  lemma Chain5<T>(x: seq<seq<T>>, c: seq<T>, a: seq<seq<T>>)
    requires |x| == 6 && |c| == 5 && |a| == 5 && x[5] == []
    requires forall i :: 0 <= i < 5 ==> x[i] == [c[i]] + a[i] + x[i + 1]
    ensures x[0] == [c[0]] + a[0] + [c[1]] + a[1] + [c[2]] + a[2] + [c[3]] + a[3] + [c[4]] + a[4]
  {
    assert x[4] == [c[4]] + a[4];
  }

  /** The text of five pairs whose tokens belong to the handles fs. */
  lemma PairTextFive(ps: seq<(char, char)>, fs: seq<Field>, t: int)
    requires |ps| == 5 && |fs| == 5
    requires forall i :: 0 <= i < 5 ==> TokenMatches(fs[i], [ps[i].1, ps[i].1])
    ensures PairText(ps, t)
      == [ps[0].0] + Stringify(fs[0], t) + [ps[1].0] + Stringify(fs[1], t) + [ps[2].0] + Stringify(fs[2], t)
         + [ps[3].0] + Stringify(fs[3], t) + [ps[4].0] + Stringify(fs[4], t)
  {
    var p1 := ps[1..];
    var p2 := p1[1..];
    var p3 := p2[1..];
    var p4 := p3[1..];
    assert p1[0] == ps[1] && p2[0] == ps[2] && p3[0] == ps[3] && p4[0] == ps[4] && p4[1..] == [];
    PairTextStep(ps, fs[0], t);
    PairTextStep(p1, fs[1], t);
    PairTextStep(p2, fs[2], t);
    PairTextStep(p3, fs[3], t);
    PairTextStep(p4, fs[4], t);
    var x := [PairText(ps, t), PairText(p1, t), PairText(p2, t), PairText(p3, t), PairText(p4, t), PairText(p4[1..], t)];
    var a := [Stringify(fs[0], t), Stringify(fs[1], t), Stringify(fs[2], t), Stringify(fs[3], t), Stringify(fs[4], t)];
    Chain5(x, [ps[0].0, ps[1].0, ps[2].0, ps[3].0, ps[4].0], a);
  }

  lemma DefaultPairText(t: int)
    ensures PairText(DefaultPairs, t)
      == "-" + Stringify(Month, t) + "-" + Stringify(Date, t) + " " + Stringify(Hours, t)
         + ":" + Stringify(Minutes, t) + ":" + Stringify(Seconds, t)
  {
    PairTextFive(DefaultPairs, [Month, Date, Hours, Minutes, Seconds], t);
  }

  lemma ReplaceYearToken(t: int)
    ensures Replace([Tok("YYYY")], part => TableReplacement(part, t)) == Stringify(Year, t)
  {
    TableRendersField("YYYY", Year, t);
  }

  /** A template made of the year token and separator and token pairs
      renders the year, then each separator followed by its token's
      rendering. */
  lemma FormatYearPairs(t: int, ps: seq<(char, char)>)
    requires forall i :: 0 <= i < |ps| ==> IsSeparator(ps[i].0, true) && IsTokenLetter(ps[i].1, true)
    ensures FormatDate(t, "YYYY" + PairTemplate(ps)) == Stringify(Year, t) + PairText(ps, t)
  {
    var s := "YYYY" + PairTemplate(ps);
    var cb := part => TableReplacement(part, t);
    assert s[0] == s[1] == s[2] == s[3] == 'Y';
    assert s[..4] == "YYYY" && s[4..] == PairTemplate(ps);
    ScanIsTokenize(s, true);
    PairTemplateTokens(ps, true);
    assert Scan(s, true) == [Tok("YYYY")] + PairItems(ps);
    ReplaceAppend([Tok("YYYY")], PairItems(ps), cb);
    ReplacePairItems(ps, t);
    ReplaceYearToken(t);
  }

  lemma FormatDefaultSplit(t: int)
    ensures FormatDate(t, DefaultFormat) == Stringify(Year, t) + PairText(DefaultPairs, t)
  {
    var cb := part => TableReplacement(part, t);
    ScanDefaultFormat(true);
    ReplaceAppend([Tok("YYYY")], PairItems(DefaultPairs), cb);
    ReplacePairItems(DefaultPairs, t);
    ReplaceYearToken(t);
  }

  /** The default template renders the unpadded year and the padded month,
      date, hours, minutes and seconds, with its own separators. */
  lemma FormatDefault(t: int)
    ensures FormatDate(t, DefaultFormat)
      == Stringify(Year, t) + "-" + Stringify(Month, t) + "-" + Stringify(Date, t)
         + " " + Stringify(Hours, t) + ":" + Stringify(Minutes, t) + ":" + Stringify(Seconds, t)
  {
    FormatDefaultSplit(t);
    DefaultPairText(t);
    Prefix10(Stringify(Year, t), "-", Stringify(Month, t), "-", Stringify(Date, t), " ", Stringify(Hours, t),
             ":", Stringify(Minutes, t), ":", Stringify(Seconds, t));
  }

  lemma Prefix10(y: string, c0: string, a0: string, c1: string, a1: string, c2: string, a2: string,
                  c3: string, a3: string, c4: string, a4: string)
    ensures y + (c0 + a0 + c1 + a1 + c2 + a2 + c3 + a3 + c4 + a4)
      == y + c0 + a0 + c1 + a1 + c2 + a2 + c3 + a3 + c4 + a4
  {
  }

}
