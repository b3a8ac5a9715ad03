/** parseDate of the current engine: the template is scanned with the token
    pattern; each token that names a handle becomes that handle's capture
    group and pushes the handle onto a list, a token that names none (YY)
    vanishes, and every other character stays a literal. The resulting
    pattern is run on the input (unanchored); on no match the result is -1.
    Otherwise capture k is paired with handle k, the pairs are sorted by the
    handles' sort weights and each handle's setter is applied in that order
    to a date that starts at the current instant `now`. */
module Parser {
  import opened Wrappers
  import opened Numbers
  import opened Calendar
  import opened Pattern
  import opened Tokens
  import opened Sorting
  import opened Formatter
  import HostDate

  /** The capture group of a handle: its own genRegx, else (\d{1,2}). */
  function Capture(f: Field): (a: Atom)
    ensures a.Digits? && 1 <= a.lo <= a.hi
  {
    match GenRegx(f)
    case Some(a) => a
    case None => Digits(1, 2)
  }

  /** The capture pattern built from a template and the handles pushed while
      building it. */
  datatype Compiled = Compiled(pattern: seq<Atom>, handles: seq<Field>)

  /** What the replace callback does with one scanned item. */
  function CompileItem(it: Item): Compiled
  {
    match it
    case Lit(c) => Compiled([Char(c)], [])
    case Tok(a) =>
      match MatchToken(a)
      case Some(f) => Compiled([Capture(f)], [f])
      case None => Compiled([], [])
  }

  function CompileItems(items: seq<Item>): Compiled
  {
    if items == [] then Compiled([], [])
    else
      var head := CompileItem(items[0]);
      var rest := CompileItems(items[1..]);
      Compiled(head.pattern + rest.pattern, head.handles + rest.handles)
  }

  function Compile(format: string): Compiled
  {
    CompileItems(Scan(format, true))
  }

  /** The groups of p, in order. */
  function GroupAtoms(p: seq<Atom>): seq<Atom>
  {
    if p == [] then [] else (if p[0].Digits? then [p[0]] else []) + GroupAtoms(p[1..])
  }

  function Captures(hs: seq<Field>): seq<Atom>
  {
    if hs == [] then [] else [Capture(hs[0])] + Captures(hs[1..])
  }

  /** Every group asks for at least one digit. */
  predicate GroupsPositive(p: seq<Atom>)
  {
    forall k :: 0 <= k < |p| && p[k].Digits? ==> p[k].lo >= 1
  }

  predicate WellFormed(c: Compiled)
  {
    Groups(c.pattern) == |c.handles| && GroupsPositive(c.pattern)
  }

  /** A handle with the text captured for it. */
  datatype Entry = Entry(handle: Field, value: string)

  function EntryWeight(e: Entry): nat
  {
    SortWeight(e.handle)
  }

  /** Pairs handle k with capture k (match[k + 1]). */
  function Zip(hs: seq<Field>, caps: seq<string>): seq<Entry>
    requires |caps| == |hs|
  {
    seq(|hs|, k requires 0 <= k < |hs| => Entry(hs[k], caps[k]))
  }

  predicate IntValues(es: seq<Entry>)
  {
    forall k :: 0 <= k < |es| ==> IsIntText(es[k].value)
  }

  /** The (handle, parseInt(value)) steps of the entries, in order. */
  function Steps(es: seq<Entry>): seq<(Field, int)>
    requires IntValues(es)
  {
    if es == [] then [] else [(es[0].handle, ParseInt(es[0].value))] + Steps(es[1..])
  }

  /** The pairs of a match, in sort-weight order. */
  function OrderedEntries(hs: seq<Field>, caps: seq<string>): seq<Entry>
    requires |caps| == |hs|
  {
    SortBy(Zip(hs, caps), EntryWeight)
  }

  /** The (handle, value) steps of a match of the template's pattern in the
      input, in the order the setters are applied. */
  function MatchSteps(input: string, format: string): seq<(Field, int)>
    requires Exec(Compile(format).pattern, input).Some?
  {
    var c := Compile(format);
    CompileWellFormed(Scan(format, true));
    ExecEntries(c, input);
    Steps(OrderedEntries(c.handles, Exec(c.pattern, input).value.1))
  }

  /** The result of parseDate as the engine computes it: -1 when the pattern
      matches nowhere, else the setters of the sorted pairs applied one after
      the other to now. */
  function ParseDateSpec(input: string, format: string, now: int): int
  {
    if Exec(Compile(format).pattern, input).None? then -1
    else ApplyAll(MatchSteps(input, format), now)
  }

  /** parseDate as its authors evidently meant it: the captured fields are
      all set at once, so none of them is read against a half-updated date;
      fields the template does not mention come from now. */
  function ParseDateFixed(input: string, format: string, now: int): int
  {
    if Exec(Compile(format).pattern, input).None? then -1
    else TimeOf(SetAll(FieldsOf(now), MatchSteps(input, format)))
  }

  /** The replace callback of parseDate run over the scanned template: a
      literal is kept, a token that names a handle is replaced by its capture
      group and the handle is pushed, any other token is dropped. */
  method BuildPattern(items: seq<Item>) returns (pattern: seq<Atom>, handles: seq<Field>)
    ensures Compiled(pattern, handles) == CompileItems(items)
  {
    pattern := [];
    handles := [];
    var i := 0;
    while i < |items|
      invariant 0 <= i <= |items|
      invariant Compiled(pattern, handles) == CompileItems(items[..i])
    {
      match items[i] {
        case Lit(c) =>
          pattern := pattern + [Char(c)];
        case Tok(a) =>
          var handle := MatchToken(a);
          if handle.Some? {
            handles := handles + [handle.value];
            pattern := pattern + [Capture(handle.value)];
          }
      }
      CompileItemsSnoc(items[..i], items[i]);
      assert items[..i + 1] == items[..i] + [items[i]];
      i := i + 1;
    }
    assert items[..i] == items;
  }

  /** The forEach of parseDate: each entry's handle parses its value into
      one mutable date, in the order given. */
  method ApplyEntries(entries: seq<Entry>, now: int) returns (t: int)
    requires IntValues(entries)
    ensures t == ApplyAll(Steps(entries), now)
  {
    var date := new HostDate.JsDate(now);
    var j := 0;
    while j < |entries|
      invariant 0 <= j <= |entries|
      invariant IntValues(entries[j..])
      invariant ApplyAll(Steps(entries[j..]), date.time) == ApplyAll(Steps(entries), now)
    {
      var e := entries[j];
      assert entries[j..][0] == e;
      assert entries[j..][1..] == entries[j + 1..];
      ParsePart(e.handle, e.value, date);
      j := j + 1;
    }
    t := date.time;
  }

  /** parseDate, step by step. */
  method ParseDate(input: string, format: string, now: int) returns (r: int)
    ensures r == ParseDateSpec(input, format, now)
  {
    var items := Scan(format, true);
    var pattern, handles := BuildPattern(items);
    var m := Exec(pattern, input);
    if m.None? {
      return -1;
    }
    CompileWellFormed(items);
    ExecEntries(Compiled(pattern, handles), input);
    var entries := OrderedEntries(handles, m.value.1);
    r := ApplyEntries(entries, now);
  }

  // ===== proofs =====

  lemma CompileItemsSingle(it: Item)
    ensures CompileItems([it]) == CompileItem(it)
  {
    assert [it][1..] == [];
  }

  lemma {:induction false} CompileItemsAppend(a: seq<Item>, b: seq<Item>)
    ensures CompileItems(a + b).pattern == CompileItems(a).pattern + CompileItems(b).pattern
    ensures CompileItems(a + b).handles == CompileItems(a).handles + CompileItems(b).handles
  {
    if a == [] {
      assert a + b == b;
    } else {
      assert (a + b)[0] == a[0] && (a + b)[1..] == a[1..] + b;
      CompileItemsAppend(a[1..], b);
    }
  }

  lemma CompileItemsSnoc(a: seq<Item>, it: Item)
    ensures CompileItems(a + [it])
      == Compiled(CompileItems(a).pattern + CompileItem(it).pattern,
                  CompileItems(a).handles + CompileItem(it).handles)
  {
    CompileItemsAppend(a, [it]);
    CompileItemsSingle(it);
  }

  lemma GroupsCons(a: Atom, p: seq<Atom>)
    ensures Groups([a] + p) == Groups(p) + (if a.Digits? then 1 else 0)
    ensures GroupAtoms([a] + p) == (if a.Digits? then [a] else []) + GroupAtoms(p)
  {
    assert ([a] + p)[1..] == p;
  }

  /** The capture pattern has exactly one group per pushed handle, and group k
      is the capture of handle k: capture k + 1 of a match belongs to
      handle k. */
  lemma {:induction false} CompileWellFormed(items: seq<Item>)
    ensures WellFormed(CompileItems(items))
    ensures GroupAtoms(CompileItems(items).pattern) == Captures(CompileItems(items).handles)
  {
    if items != [] {
      CompileWellFormed(items[1..]);
      var head := CompileItem(items[0]);
      var rest := CompileItems(items[1..]);
      var p := head.pattern + rest.pattern;
      if head.pattern != [] {
        GroupsCons(head.pattern[0], rest.pattern);
        assert head.pattern == [head.pattern[0]];
        forall k | 0 <= k < |p| && p[k].Digits? ensures p[k].lo >= 1 {
          if k > 0 {
            assert p[k] == rest.pattern[k - 1];
          }
        }
        if head.handles != [] {
          var f := head.handles[0];
          assert head.handles == [f] && head.pattern[0] == Capture(f);
          assert ([f] + rest.handles)[1..] == rest.handles;
          assert Captures([f] + rest.handles) == [Capture(f)] + Captures(rest.handles);
        } else {
          assert head.pattern[0].Char?;
          assert head.handles + rest.handles == rest.handles;
          assert GroupAtoms(p) == GroupAtoms(rest.pattern);
        }
      } else {
        assert head.handles == [];
        assert p == rest.pattern && head.handles + rest.handles == rest.handles;
      }
    }
  }

  /** A token that names no handle, like YY, adds neither a group nor a
      handle. */
  lemma UnknownTokenCompilesToNothing(a: string)
    requires MatchToken(a).None?
    ensures CompileItem(Tok(a)) == Compiled([], [])
  {
  }

  lemma CompileTwoDigitYear()
    ensures Compile("YY") == Compiled([], [])
  {
    ScanTwoDigitYear(true);
    NoHandleForYY();
    CompileItemsSingle(Tok("YY"));
  }

  lemma {:induction false} FitsAllCaps(p: seq<Atom>, caps: seq<string>)
    requires FitsAll(p, caps) && GroupsPositive(p)
    ensures forall k :: 0 <= k < |caps| ==> |caps[k]| >= 1 && AllDigits(caps[k])
  {
    if p != [] {
      assert GroupsPositive(p[1..]) by {
        forall k | 0 <= k < |p[1..]| && p[1..][k].Digits? ensures p[1..][k].lo >= 1 {
          assert p[1..][k] == p[k + 1];
        }
      }
      if p[0].Char? {
        FitsAllCaps(p[1..], caps);
      } else {
        FitsAllCaps(p[1..], caps[1..]);
        forall k | 0 <= k < |caps| ensures |caps[k]| >= 1 && AllDigits(caps[k]) {
          if k > 0 {
            assert caps[k] == caps[1..][k - 1];
          }
        }
      }
    }
  }

  /** A match of a well-formed pattern gives one capture per handle, each a
      non-empty run of digits that parseInt reads. */
  lemma ExecEntries(c: Compiled, input: string)
    requires WellFormed(c) && Exec(c.pattern, input).Some?
    ensures var caps := Exec(c.pattern, input).value.1;
      |caps| == |c.handles| && (forall k :: 0 <= k < |caps| ==> IsIntText(caps[k]))
      && IntValues(OrderedEntries(c.handles, caps))
  {
    ExecFirst(c.pattern, input);
    var m := Exec(c.pattern, input).value;
    MatchAtSound(c.pattern, input, m.0);
    FitsAllCaps(c.pattern, m.1);
    var zipped := Zip(c.handles, m.1);
    var sorted := OrderedEntries(c.handles, m.1);
    SortBySpec(zipped, EntryWeight);
    forall k | 0 <= k < |sorted| ensures IsIntText(sorted[k].value) {
      assert sorted[k] in multiset(zipped);
      var j :| 0 <= j < |zipped| && zipped[j] == sorted[k];
    }
  }

  /** Without a match anywhere in the input the result is -1; with one, the
      first match is used. */
  lemma ParseDateMismatch(input: string, format: string, now: int)
    ensures (forall k :: 0 <= k <= |input| ==> MatchAt(Compile(format).pattern, input, k).None?)
            ==> ParseDateSpec(input, format, now) == -1 && ParseDateFixed(input, format, now) == -1
  {
    var p := Compile(format).pattern;
    ExecFirst(p, input);
    if Exec(p, input).Some? {
      var k := Exec(p, input).value.0;
      assert MatchAt(p, input, k).Some?;
    }
  }

  /** The sorted pairs hold the same entries as the unsorted ones, in
      ascending sort weight. */
  lemma OrderedEntriesSpec(hs: seq<Field>, caps: seq<string>)
    requires |caps| == |hs|
    ensures var es := OrderedEntries(hs, caps);
      |es| == |hs| && SortedBy(es, EntryWeight)
      && forall e :: e in es <==> exists k :: 0 <= k < |hs| && e == Entry(hs[k], caps[k])
  {
    var zipped := Zip(hs, caps);
    var es := OrderedEntries(hs, caps);
    SortBySpec(zipped, EntryWeight);
    forall e ensures e in es <==> exists k :: 0 <= k < |hs| && e == Entry(hs[k], caps[k]) {
      assert e in es <==> e in multiset(es);
      assert e in zipped <==> e in multiset(zipped);
      if e in zipped {
        var k :| 0 <= k < |zipped| && zipped[k] == e;
      }
      if exists k :: 0 <= k < |hs| && e == Entry(hs[k], caps[k]) {
        var k :| 0 <= k < |hs| && e == Entry(hs[k], caps[k]);
        assert zipped[k] == e;
      }
    }
  }

  /** Setters are applied in ascending sort weight whatever the template
      order. */
  lemma {:induction false} StepsSpec(es: seq<Entry>)
    requires IntValues(es)
    ensures |Steps(es)| == |es|
    ensures forall k :: 0 <= k < |es| ==> Steps(es)[k] == (es[k].handle, ParseInt(es[k].value))
  {
    if es != [] {
      assert IntValues(es[1..]) by {
        forall k | 0 <= k < |es[1..]| ensures IsIntText(es[1..][k].value) {
          assert es[1..][k] == es[k + 1];
        }
      }
      StepsSpec(es[1..]);
    }
  }

  /** The steps of a match are the sorted pairs of handle k and capture k. */
  lemma MatchStepsEntries(input: string, format: string)
    requires Exec(Compile(format).pattern, input).Some?
    ensures var c := Compile(format);
      var caps := Exec(c.pattern, input).value.1;
      |caps| == |c.handles| && IntValues(OrderedEntries(c.handles, caps))
      && MatchSteps(input, format) == Steps(OrderedEntries(c.handles, caps))
  {
    CompileWellFormed(Scan(format, true));
    ExecEntries(Compile(format), input);
  }

  /** The setters run in ascending sort weight whatever the template order. */
  lemma ApplyOrder(input: string, format: string, now: int)
    requires Exec(Compile(format).pattern, input).Some?
    ensures var steps := MatchSteps(input, format);
      ParseDateSpec(input, format, now) == ApplyAll(steps, now)
      && |steps| == |Compile(format).handles|
      && forall i, j :: 0 <= i < j < |steps| ==> SortWeight(steps[i].0) <= SortWeight(steps[j].0)
  {
    var c := Compile(format);
    var caps := Exec(c.pattern, input).value.1;
    MatchStepsEntries(input, format);
    var es := OrderedEntries(c.handles, caps);
    OrderedEntriesSpec(c.handles, caps);
    StepsSpec(es);
    var steps := Steps(es);
    forall i, j | 0 <= i < j < |steps| ensures SortWeight(steps[i].0) <= SortWeight(steps[j].0) {
      assert EntryWeight(es[i]) <= EntryWeight(es[j]);
    }
  }

  /** steps are the steps of handles hs paired with captures caps, sorted. */
  predicate StepsOfEntries(hs: seq<Field>, caps: seq<string>, steps: seq<(Field, int)>)
  {
    |caps| == |hs| && IntValues(OrderedEntries(hs, caps)) && steps == Steps(OrderedEntries(hs, caps))
  }

  lemma MatchStepsOfEntries(input: string, format: string)
    requires Exec(Compile(format).pattern, input).Some?
    ensures var c := Compile(format);
      StepsOfEntries(c.handles, Exec(c.pattern, input).value.1, MatchSteps(input, format))
  {
    MatchStepsEntries(input, format);
  }

  /** Each step of sorted entries comes from one handle and its capture. */
  lemma EntryStepsFrom(hs: seq<Field>, caps: seq<string>, steps: seq<(Field, int)>)
    requires StepsOfEntries(hs, caps, steps)
    ensures forall i :: 0 <= i < |steps| ==>
        exists k :: (0 <= k < |hs| && IsIntText(caps[k]) && steps[i] == (hs[k], ParseInt(caps[k])))
  {
    forall i | 0 <= i < |steps|
      ensures exists k :: 0 <= k < |hs| && IsIntText(caps[k]) && steps[i] == (hs[k], ParseInt(caps[k]))
    {
      var k := EntryStepFrom(hs, caps, steps, i);
    }
  }

  /** The handle and capture step i comes from. */
  lemma EntryStepFrom(hs: seq<Field>, caps: seq<string>, steps: seq<(Field, int)>, i: int) returns (k: nat)
    requires StepsOfEntries(hs, caps, steps) && 0 <= i < |steps|
    ensures k < |hs| && IsIntText(caps[k]) && steps[i] == (hs[k], ParseInt(caps[k]))
  {
    var es := OrderedEntries(hs, caps);
    OrderedEntriesSpec(hs, caps);
    StepsSpec(es);
    assert es[i] in es;
    var j :| 0 <= j < |hs| && es[i] == Entry(hs[j], caps[j]);
    assert steps[i] == (hs[j], ParseInt(caps[j]));
    k := j;
  }


  /** Each handle gets a step from its sorted entries. */
  lemma EntryStepsCover(hs: seq<Field>, caps: seq<string>, steps: seq<(Field, int)>)
    requires StepsOfEntries(hs, caps, steps)
    ensures forall k :: 0 <= k < |hs| ==> exists i :: (0 <= i < |steps| && steps[i].0 == hs[k])
  {
    var es := OrderedEntries(hs, caps);
    OrderedEntriesSpec(hs, caps);
    StepsSpec(es);
    forall k | 0 <= k < |hs| ensures exists i :: 0 <= i < |steps| && steps[i].0 == hs[k] {
      assert Entry(hs[k], caps[k]) in es;
      var i :| 0 <= i < |es| && es[i] == Entry(hs[k], caps[k]);
      assert steps[i].0 == hs[k];
    }
  }

  /** The fields the steps of sorted entries set are exactly the handles. */
  lemma EntryStepFields(hs: seq<Field>, caps: seq<string>, steps: seq<(Field, int)>)
    requires StepsOfEntries(hs, caps, steps)
    ensures forall g :: (exists i :: 0 <= i < |steps| && steps[i].0 == g) <==> g in hs
  {
    EntryStepsFrom(hs, caps, steps);
    EntryStepsCover(hs, caps, steps);
    forall g | g in hs ensures exists i :: 0 <= i < |steps| && steps[i].0 == g {
      var k :| 0 <= k < |hs| && hs[k] == g;
    }
  }

  /** As long as no setter rolls the date over, the engine's step-by-step
      result is the corrected one. */
  lemma ParseAgreesWhenNoRollover(input: string, format: string, now: int)
    requires Exec(Compile(format).pattern, input).Some?
    requires StepsValid(FieldsOf(now), MatchSteps(input, format))
    ensures ParseDateSpec(input, format, now) == ParseDateFixed(input, format, now)
  {
    ApplyAllSetAll(MatchSteps(input, format), now);
  }

  // ----- formatting, then parsing -----

  /** The renderings of the handles' fields at instant t. */
  function Renders(hs: seq<Field>, t: int): (r: seq<string>)
    ensures |r| == |hs|
  {
    if hs == [] then [] else [Stringify(hs[0], t)] + Renders(hs[1..], t)
  }

  lemma {:induction false} RendersAt(hs: seq<Field>, t: int, k: nat)
    requires k < |hs|
    ensures Renders(hs, t)[k] == Stringify(hs[k], t)
  {
    if k > 0 {
      RendersAt(hs[1..], t, k - 1);
    }
  }

  lemma FillCons(a: Atom, p: seq<Atom>, caps: seq<string>)
    requires |caps| == Groups([a] + p)
    ensures a.Char? ==> |caps| == Groups(p) && Fill([a] + p, caps) == [a.c] + Fill(p, caps)
    ensures a.Digits? ==> |caps| >= 1 && |caps[1..]| == Groups(p)
                          && Fill([a] + p, caps) == caps[0] + Fill(p, caps[1..])
  {
    GroupsCons(a, p);
    assert ([a] + p)[0] == a && ([a] + p)[1..] == p;
  }

  lemma FitsAllCons(a: Atom, p: seq<Atom>, caps: seq<string>)
    requires |caps| == Groups([a] + p)
    ensures a.Char? ==> (FitsAll([a] + p, caps) <==> FitsAll(p, caps))
    ensures a.Digits? ==> |caps| >= 1
                          && (FitsAll([a] + p, caps) <==> Fits(a, caps[0]) && FitsAll(p, caps[1..]))
  {
    GroupsCons(a, p);
    assert ([a] + p)[0] == a && ([a] + p)[1..] == p;
  }

  /** Formatting and compiling one template agree: the formatted text is the
      capture pattern with group k filled by the rendering of handle k. */
  lemma {:induction false} FormatIsFill(items: seq<Item>, t: int)
    ensures Groups(CompileItems(items).pattern) == |CompileItems(items).handles|
    ensures Replace(items, part => TableReplacement(part, t))
      == Fill(CompileItems(items).pattern, Renders(CompileItems(items).handles, t))
  {
    CompileWellFormed(items);
    if items != [] {
      FormatIsFill(items[1..], t);
      var head := CompileItem(items[0]);
      var rest := CompileItems(items[1..]);
      var cb := part => TableReplacement(part, t);
      var tail := Replace(items[1..], cb);
      match items[0]
      case Lit(c) =>
        assert head.handles + rest.handles == rest.handles;
        assert Replace(items, cb) == [c] + tail;
        FillCons(Char(c), rest.pattern, Renders(rest.handles, t));
      case Tok(a) =>
        match MatchToken(a)
        case Some(f) =>
          var caps := Renders([f] + rest.handles, t);
          assert ([f] + rest.handles)[1..] == rest.handles;
          assert caps == [Stringify(f, t)] + Renders(rest.handles, t);
          FillCons(Capture(f), rest.pattern, caps);
          assert caps[1..] == Renders(rest.handles, t);
        case None =>
          assert head.pattern + rest.pattern == rest.pattern;
          assert head.handles + rest.handles == rest.handles;
          assert Replace(items, cb) == tail;
    }
  }

  /** Every rendering fits its handle's capture group, provided the year has
      four digits. */
  lemma RenderFits(f: Field, t: int)
    requires 1000 <= YearFromTime(t) <= 9999
    ensures Fits(Capture(f), Stringify(f, t))
  {
    FieldsValid(t);
    match f
    case Year => FourDigits(YearFromTime(t));
    case MilliSeconds => DigitsBelow1000(MsFromTime(t));
    case _ =>
      DaysInMonthAtMost31(YearFromTime(t), MonthFromTime(t));
      var v := FieldValue(FieldsOf(t), f);
      assert 0 <= v < 100;
      FormatNumSpec(v);
  }

  lemma {:induction false} CompileFits(items: seq<Item>, t: int)
    requires 1000 <= YearFromTime(t) <= 9999
    ensures Groups(CompileItems(items).pattern) == |CompileItems(items).handles|
    ensures FitsAll(CompileItems(items).pattern, Renders(CompileItems(items).handles, t))
  {
    CompileWellFormed(items);
    if items != [] {
      CompileFits(items[1..], t);
      var rest := CompileItems(items[1..]);
      var head := CompileItem(items[0]);
      match items[0]
      case Lit(c) =>
        assert head.handles + rest.handles == rest.handles;
        FitsAllCons(Char(c), rest.pattern, Renders(rest.handles, t));
      case Tok(a) =>
        match MatchToken(a)
        case Some(f) =>
          var caps := Renders([f] + rest.handles, t);
          assert ([f] + rest.handles)[1..] == rest.handles;
          assert caps == [Stringify(f, t)] + Renders(rest.handles, t);
          FitsAllCons(Capture(f), rest.pattern, caps);
          assert caps[1..] == Renders(rest.handles, t);
          RenderFits(f, t);
        case None =>
          assert head.pattern + rest.pattern == rest.pattern;
          assert head.handles + rest.handles == rest.handles;
    }
  }

  /** The text a template formats to is found by its own capture pattern at
      index 0, with the renderings as captures, when every group is followed
      by a literal that is not a digit. */
  lemma ExecOfFormat(t: int, format: string)
    requires Separated(Compile(format).pattern) && 1000 <= YearFromTime(t) <= 9999
    ensures Exec(Compile(format).pattern, FormatDate(t, format))
      == Some((0, Renders(Compile(format).handles, t)))
  {
    var c := Compile(format);
    var s := FormatDate(t, format);
    var caps := Renders(c.handles, t);
    FormatIsFill(Scan(format, true), t);
    CompileFits(Scan(format, true), t);
    assert s == Fill(c.pattern, caps);
    assert s[0..|s|] == s;
    MatchAtComplete(c.pattern, caps, s, 0);
  }

  /** Parsing a formatted date: every step sets its field to the value the
      field has at t. */
  lemma FormattedStepValues(t: int, format: string)
    requires Separated(Compile(format).pattern) && 1000 <= YearFromTime(t) <= 9999
    ensures Exec(Compile(format).pattern, FormatDate(t, format)).Some?
    ensures var steps := MatchSteps(FormatDate(t, format), format);
      forall i :: 0 <= i < |steps| ==> steps[i].1 == FieldValue(FieldsOf(t), steps[i].0)
  {
    var c := Compile(format);
    var s := FormatDate(t, format);
    ExecOfFormat(t, format);
    MatchStepsOfEntries(s, format);
    RenderedSteps(c.handles, t, MatchSteps(s, format));
  }

  /** The steps read from the renderings of the handles' fields at t set
      each field to its value at t. */
  lemma RenderedSteps(hs: seq<Field>, t: int, steps: seq<(Field, int)>)
    requires StepsOfEntries(hs, Renders(hs, t), steps)
    ensures forall i :: 0 <= i < |steps| ==> steps[i].1 == FieldValue(FieldsOf(t), steps[i].0)
  {
    var caps := Renders(hs, t);
    forall i | 0 <= i < |steps| ensures steps[i].1 == FieldValue(FieldsOf(t), steps[i].0) {
      var k := EntryStepFrom(hs, caps, steps, i);
      RenderedStep(hs, t, k, steps[i]);
    }
  }

  lemma RenderedStep(hs: seq<Field>, t: int, k: nat, step: (Field, int))
    requires k < |hs| && IsIntText(Renders(hs, t)[k]) && step == (hs[k], ParseInt(Renders(hs, t)[k]))
    ensures step.1 == FieldValue(FieldsOf(t), step.0)
  {
    RendersAt(hs, t, k);
    StringifyRoundTrip(hs[k], t);
  }



  /** The fields that the steps set are exactly the handles of the template. */
  lemma StepFields(input: string, format: string)
    requires Exec(Compile(format).pattern, input).Some?
    ensures var steps := MatchSteps(input, format);
      forall g :: (exists i :: 0 <= i < |steps| && steps[i].0 == g) <==> g in Compile(format).handles
  {
    var c := Compile(format);
    MatchStepsOfEntries(input, format);
    EntryStepFields(c.handles, Exec(c.pattern, input).value.1, MatchSteps(input, format));
  }

  /** Parsing a formatted date with the same template gives back every field
      the template mentions and takes the others from now (corrected
      parse). */
  lemma ParseFormatRoundTrip(t: int, format: string, now: int)
    requires Separated(Compile(format).pattern) && 1000 <= YearFromTime(t) <= 9999
    ensures ParseDateFixed(FormatDate(t, format), format, now)
      == TimeOf(Overlay(FieldsOf(now), FieldsOf(t), set f | f in Compile(format).handles))
  {
    var c := Compile(format);
    var s := FormatDate(t, format);
    FormattedStepValues(t, format);
    StepFields(s, format);
    var steps := MatchSteps(s, format);
    var chosen := set f | f in c.handles;
    var fs := SetAll(FieldsOf(now), steps);
    var ov := Overlay(FieldsOf(now), FieldsOf(t), chosen);
    forall g ensures FieldValue(fs, g) == FieldValue(ov, g) {
      SetAllValue(FieldsOf(now), steps, g, FieldValue(FieldsOf(t), g));
    }
    FieldValuesDetermine(fs, ov);
  }

  /** Some step of steps sets field g. */
  predicate SetsField(steps: seq<(Field, int)>, g: Field)
  {
    exists i :: 0 <= i < |steps| && steps[i].0 == g
  }

  /** Steps that set fields to v's values, in ascending sort weight, pass
      only through valid dates when they start from a record whose date is
      at most 28 (a day every month has) and, should they set the date, the
      year and the month are already v's or set before it. */
  lemma {:induction false} StepsValidFrom(fs: DateFields, v: DateFields, steps: seq<(Field, int)>)
    requires ValidFields(fs) && ValidFields(v)
    requires fs.date <= 28 || (fs.year == v.year && fs.month0 == v.month0)
    requires forall i :: 0 <= i < |steps| ==> steps[i].1 == FieldValue(v, steps[i].0)
    requires forall i, j :: 0 <= i < j < |steps| ==> SortWeight(steps[i].0) <= SortWeight(steps[j].0)
    requires SetsField(steps, Date) ==>
      (fs.year == v.year || SetsField(steps, Year)) && (fs.month0 == v.month0 || SetsField(steps, Month))
    ensures StepsValid(fs, steps)
    decreases |steps|
  {
    if steps != [] {
      var f := steps[0].0;
      var n := WithField(fs, f, steps[0].1);
      var rest := steps[1..];
      forall g | SetsField(rest, g) ensures SetsField(steps, g) && SortWeight(f) <= SortWeight(g) {
        var i :| 0 <= i < |rest| && rest[i].0 == g;
        assert steps[i + 1].0 == g;
      }
      if f == Date {
        assert SetsField(steps, Date);
        assert !SetsField(steps, Year) && !SetsField(steps, Month);
      } else if f == Month {
        assert !SetsField(steps, Year);
      }
      OneStepValid(fs, v, f);
      assert SetsField(rest, Date) ==> SetsField(steps, Date);
      assert SetsField(rest, Month) ==> SetsField(steps, Month);
      forall i | 0 <= i < |rest| ensures rest[i].1 == FieldValue(v, rest[i].0) {
        assert rest[i] == steps[i + 1];
      }
      forall i, j | 0 <= i < j < |rest| ensures SortWeight(rest[i].0) <= SortWeight(rest[j].0) {
        assert rest[i] == steps[i + 1] && rest[j] == steps[j + 1];
      }
      StepsValidFrom(n, v, rest);
    }
  }

  /** One such step: setting field f to v's value keeps the record valid
      and keeps its date at most 28 or its year and month v's. */
  lemma OneStepValid(fs: DateFields, v: DateFields, f: Field)
    requires ValidFields(fs) && ValidFields(v)
    requires fs.date <= 28 || (fs.year == v.year && fs.month0 == v.month0)
    requires f == Date ==> fs.year == v.year && fs.month0 == v.month0
    ensures var n := WithField(fs, f, FieldValue(v, f));
      ValidFields(n) && (n.date <= 28 || (n.year == v.year && n.month0 == v.month0))
  {
    DaysInMonthAtMost31(v.year, v.month0);
    DaysInMonthAtMost31(fs.year, fs.month0);
    DaysInMonthAtMost31(v.year, fs.month0);
    DaysInMonthAtMost31(fs.year, v.month0);
  }

  /** The clock's record and the steps read from a rendering of t meet the
      conditions above when the clock's date is at most 28 and a template
      that has the date also has the year and the month. */
  lemma ClockStepsValid(t: int, format: string, now: int)
    requires Separated(Compile(format).pattern) && 1000 <= YearFromTime(t) <= 9999
    requires DateFromTime(now) <= 28
    requires Date in Compile(format).handles ==> Year in Compile(format).handles && Month in Compile(format).handles
    ensures Exec(Compile(format).pattern, FormatDate(t, format)).Some?
    ensures StepsValid(FieldsOf(now), MatchSteps(FormatDate(t, format), format))
  {
    var s := FormatDate(t, format);
    FormattedStepValues(t, format);
    ApplyOrder(s, format, now);
    StepFields(s, format);
    FieldsValid(now);
    FieldsValid(t);
    var steps := MatchSteps(s, format);
    assert SetsField(steps, Date) ==> Date in Compile(format).handles;
    assert Year in Compile(format).handles ==> SetsField(steps, Year);
    assert Month in Compile(format).handles ==> SetsField(steps, Month);
    StepsValidFrom(FieldsOf(now), FieldsOf(t), steps);
  }

  /** The engine's parse of a rendering, under the conditions above: every
      field the template mentions comes from t, the others from the clock,
      as in the corrected parse. */
  lemma ParseFormatAsWritten(t: int, format: string, now: int)
    requires Separated(Compile(format).pattern) && 1000 <= YearFromTime(t) <= 9999
    requires DateFromTime(now) <= 28
    requires Date in Compile(format).handles ==> Year in Compile(format).handles && Month in Compile(format).handles
    ensures ParseDateSpec(FormatDate(t, format), format, now)
      == TimeOf(Overlay(FieldsOf(now), FieldsOf(t), set f | f in Compile(format).handles))
  {
    ClockStepsValid(t, format, now);
    ParseAgreesWhenNoRollover(FormatDate(t, format), format, now);
    ParseFormatRoundTrip(t, format, now);
  }

  // ----- the default template -----

  const DefaultHandles: seq<Field> := [Year, Month, Date, Hours, Minutes, Seconds]

  const DefaultPattern: seq<Atom> :=
    [Digits(4, 4), Char('-'), Digits(1, 2), Char('-'), Digits(1, 2), Char(' '),
     Digits(1, 2), Char(':'), Digits(1, 2), Char(':'), Digits(1, 2)]

  /** A literal followed by a token naming handle f compiles to that
      literal, f's capture group and the handle f. */
  lemma CompilePair(c: char, part: string, f: Field, rest: seq<Item>)
    requires TokenMatches(f, part)
    ensures CompileItems([Lit(c), Tok(part)] + rest).handles == [f] + CompileItems(rest).handles
    ensures CompileItems([Lit(c), Tok(part)] + rest).pattern == [Char(c), Capture(f)] + CompileItems(rest).pattern
  {
    var two := [Lit(c), Tok(part)];
    CompileItemsAppend(two, rest);
    MatchTokenSpec(part, f);
    assert two[1..] == [two[1]] && two[1..][1..] == [];
  }

  lemma PairItemsStep(ps: seq<(char, char)>)
    requires ps != []
    ensures PairItems(ps) == [Lit(ps[0].0), Tok([ps[0].1, ps[0].1])] + PairItems(ps[1..])
  {
  }

  /** A separator and a two-digit token in front of compiled items add the
      separator, a (\d{1,2}) group and the token's handle in front. */
  lemma PairCons(ps: seq<(char, char)>, f: Field, p: seq<Atom>, hs: seq<Field>)
    requires ps != [] && TokenMatches(f, [ps[0].1, ps[0].1]) && Capture(f) == Digits(1, 2)
    requires CompileItems(PairItems(ps[1..])) == Compiled(p, hs)
    ensures CompileItems(PairItems(ps)) == Compiled([Char(ps[0].0), Digits(1, 2)] + p, [f] + hs)
  {
    PairItemsStep(ps);
    CompilePair(ps[0].0, [ps[0].1, ps[0].1], f, PairItems(ps[1..]));
  }

  /** The pattern of separator and two-digit token pairs: each separator,
      then a (\d{1,2}) group. */
  function PairPattern(ps: seq<(char, char)>): seq<Atom>
  {
    if ps == [] then [] else [Char(ps[0].0), Digits(1, 2)] + PairPattern(ps[1..])
  }

  /** Pairs whose tokens name handles fs with the default group compile to
      the pairs' pattern and those handles. */
  lemma {:induction false} CompilePairsAll(ps: seq<(char, char)>, fs: seq<Field>)
    requires |ps| == |fs|
    requires forall i :: 0 <= i < |ps| ==> TokenMatches(fs[i], [ps[i].1, ps[i].1]) && Capture(fs[i]) == Digits(1, 2)
    ensures CompileItems(PairItems(ps)) == Compiled(PairPattern(ps), fs)
  {
    if ps != [] {
      CompilePairsAll(ps[1..], fs[1..]);
      PairCons(ps, fs[0], PairPattern(ps[1..]), fs[1..]);
      assert [fs[0]] + fs[1..] == fs;
    }
  }

  lemma CompileDefaultPairs()
    ensures CompileItems(PairItems(DefaultPairs)) == Compiled(PairPattern(DefaultPairs), DefaultHandles[1..])
  {
    var fs := DefaultHandles[1..];
    assert fs == [Month, Date, Hours, Minutes, Seconds];
    CompilePairsAll(DefaultPairs, fs);
  }

  lemma DefaultPairPattern()
    ensures [Digits(4, 4)] + PairPattern(DefaultPairs) == DefaultPattern
  {
    var p1 := DefaultPairs[1..];
    assert p1 == [('-', 'D'), (' ', 'H'), (':', 'm'), (':', 's')];
    assert p1[1..] == [(' ', 'H'), (':', 'm'), (':', 's')];
    assert p1[1..][1..] == [(':', 'm'), (':', 's')];
    assert p1[1..][1..][1..] == [(':', 's')];
    assert PairPattern(p1[1..][1..][1..]) == [Char(':'), Digits(1, 2)];
    assert PairPattern(p1[1..][1..]) == [Char(':'), Digits(1, 2), Char(':'), Digits(1, 2)];
    assert PairPattern(p1[1..]) == [Char(' '), Digits(1, 2), Char(':'), Digits(1, 2), Char(':'), Digits(1, 2)];
  }

  lemma CompileDefaultSplit()
    ensures Compile(DefaultFormat).pattern == [Digits(4, 4)] + CompileItems(PairItems(DefaultPairs)).pattern
    ensures Compile(DefaultFormat).handles == [Year] + CompileItems(PairItems(DefaultPairs)).handles
  {
    ScanDefaultFormat(true);
    CompileItemsAppend([Tok("YYYY")], PairItems(DefaultPairs));
    CompileItemsSingle(Tok("YYYY"));
    MatchTokenSpec("YYYY", Year);
  }

  lemma AssembleDefault(c: Compiled, p: Compiled)
    requires c.pattern == [Digits(4, 4)] + p.pattern && c.handles == [Year] + p.handles
    requires p == Compiled(PairPattern(DefaultPairs), DefaultHandles[1..])
    ensures c == Compiled(DefaultPattern, DefaultHandles)
  {
    DefaultPairPattern();
    assert [Year] + DefaultHandles[1..] == DefaultHandles;
  }

  /** The default template compiles to
      (\d{4})-(\d{1,2})-(\d{1,2}) (\d{1,2}):(\d{1,2}):(\d{1,2}) with the
      handles year, month, date, hours, minutes and seconds. */
  lemma CompileDefault()
    ensures Compile(DefaultFormat) == Compiled(DefaultPattern, DefaultHandles)
  {
    CompileDefaultSplit();
    CompileDefaultPairs();
    AssembleDefault(Compile(DefaultFormat), CompileItems(PairItems(DefaultPairs)));
  }

  lemma DefaultSeparated()
    ensures Separated(DefaultPattern)
  {
  }

  /** Captures of handles already in weight order are not reordered. */
  lemma ZipInOrder(hs: seq<Field>, caps: seq<string>)
    requires |caps| == |hs| && SortedBy(hs, SortWeight)
    ensures OrderedEntries(hs, caps) == Zip(hs, caps)
  {
    var zipped := Zip(hs, caps);
    forall i, j | 0 <= i < j < |zipped| ensures EntryWeight(zipped[i]) <= EntryWeight(zipped[j]) {
      assert zipped[i].handle == hs[i] && zipped[j].handle == hs[j];
    }
    SortBySorted(zipped, EntryWeight);
  }

  /** When the template names its handles in weight order, step i sets
      handle i to capture i. */
  lemma InOrderSteps(input: string, format: string)
    requires Exec(Compile(format).pattern, input).Some?
    requires SortedBy(Compile(format).handles, SortWeight)
    ensures var c := Compile(format);
      var caps := Exec(c.pattern, input).value.1;
      var steps := MatchSteps(input, format);
      |caps| == |c.handles| && |steps| == |c.handles|
      && forall i :: 0 <= i < |steps| ==>
           steps[i].0 == c.handles[i] && IsIntText(caps[i]) && steps[i].1 == ParseInt(caps[i])
  {
    var c := Compile(format);
    var caps := Exec(c.pattern, input).value.1;
    MatchStepsEntries(input, format);
    ZipInOrder(c.handles, caps);
    var zipped := Zip(c.handles, caps);
    StepsSpec(zipped);
    var steps := MatchSteps(input, format);
    assert steps == Steps(zipped);
    forall i | 0 <= i < |steps|
      ensures steps[i].0 == c.handles[i] && IsIntText(caps[i]) && steps[i].1 == ParseInt(caps[i])
    {
      assert zipped[i] == Entry(c.handles[i], caps[i]);
    }
  }

  lemma DefaultHandlesInOrder()
    ensures SortedBy(DefaultHandles, SortWeight)
  {
  }

  /** Parsing a date formatted with the default template applies year,
      month, date, hours, minutes and seconds in that order, each with the
      value it has at t. */
  lemma DefaultSteps(t: int)
    requires 1000 <= YearFromTime(t) <= 9999
    ensures Exec(Compile(DefaultFormat).pattern, FormatDate(t, DefaultFormat)).Some?
    ensures var steps := MatchSteps(FormatDate(t, DefaultFormat), DefaultFormat);
      |steps| == |DefaultHandles|
      && forall i :: 0 <= i < |steps| ==> steps[i] == (DefaultHandles[i], FieldValue(FieldsOf(t), DefaultHandles[i]))
  {
    CompileDefault();
    DefaultSeparated();
    DefaultHandlesInOrder();
    FormattedStepValues(t, DefaultFormat);
    InOrderSteps(FormatDate(t, DefaultFormat), DefaultFormat);
  }

  /** Overlaying every field but the milliseconds. */
  lemma OverlayButMs(base: DateFields, src: DateFields, chosen: set<Field>)
    requires forall g :: g in chosen <==> g != MilliSeconds
    ensures Overlay(base, src, chosen) == src.(ms := base.ms)
  {
    var ov := Overlay(base, src, chosen);
    var fs := src.(ms := base.ms);
    forall g ensures FieldValue(ov, g) == FieldValue(fs, g) {
      assert g in chosen <==> g != MilliSeconds;
    }
    FieldValuesDetermine(ov, fs);
  }

  lemma DefaultChosen(chosen: set<Field>)
    requires chosen == set f | f in DefaultHandles
    ensures forall g :: g in chosen <==> g != MilliSeconds
  {
    forall g ensures g in chosen <==> g != MilliSeconds {
      assert g in chosen <==> g in DefaultHandles;
    }
  }

  /** A template whose handles are those of the default template parses
      its own rendering back to t, with the milliseconds taken from now. */
  lemma RoundTripButMs(t: int, format: string, now: int)
    requires Separated(Compile(format).pattern) && 1000 <= YearFromTime(t) <= 9999
    requires Compile(format).handles == DefaultHandles
    ensures ParseDateFixed(FormatDate(t, format), format, now) == t - MsFromTime(t) + MsFromTime(now)
  {
    ParseFormatRoundTrip(t, format, now);
    var chosen := set f | f in Compile(format).handles;
    DefaultChosen(chosen);
    OverlayButMs(FieldsOf(now), FieldsOf(t), chosen);
    TimeOfMs(FieldsOf(t), MsFromTime(now));
    TimeOfFieldsOf(t);
  }

  /** With the default template the corrected parse gives back t, except
      that the milliseconds, which the template does not mention, come from
      now. */
  lemma ParseDefaultRoundTrip(t: int, now: int)
    requires 1000 <= YearFromTime(t) <= 9999
    ensures ParseDateFixed(FormatDate(t, DefaultFormat), DefaultFormat, now) == t - MsFromTime(t) + MsFromTime(now)
  {
    CompileDefault();
    DefaultSeparated();
    RoundTripButMs(t, DefaultFormat, now);
  }

  // ----- the rollover (see Findings) -----

  lemma ApplyAllCons(s: (Field, int), rest: seq<(Field, int)>, t: int)
    ensures ApplyAll([s] + rest, t) == ApplyAll(rest, Apply(s.0, s.1, t))
  {
    assert ([s] + rest)[1..] == rest;
  }

  /** Setting date, hours, minutes and seconds to values in range lands on
      them. */
  lemma LandFour(u: int, d: int, h: int, mi: int, s: int)
    requires ValidFields(FieldsOf(u).(date := d, hours := h, minutes := mi, seconds := s))
    ensures ApplyAll([(Date, d), (Hours, h), (Minutes, mi), (Seconds, s)], u)
      == TimeOf(FieldsOf(u).(date := d, hours := h, minutes := mi, seconds := s))
  {
    FieldsValid(u);
    var u1 := Apply(Date, d, u);
    ApplyLands(Date, d, u);
    var u2 := Apply(Hours, h, u1);
    ApplyLands(Hours, h, u1);
    var u3 := Apply(Minutes, mi, u2);
    ApplyLands(Minutes, mi, u2);
    var u4 := Apply(Seconds, s, u3);
    ApplyLands(Seconds, s, u3);
    TimeOfFieldsOf(u4);
    ApplyAllCons((Date, d), [(Hours, h), (Minutes, mi), (Seconds, s)], u);
    ApplyAllCons((Hours, h), [(Minutes, mi), (Seconds, s)], u1);
    ApplyAllCons((Minutes, mi), [(Seconds, s)], u2);
    ApplyAllCons((Seconds, s), [], u3);
  }

  /** The date setFullYear(y) leaves on the clock: the clock's own date,
      unless that day is missing from the clock's month in year y (29
      February), when it has rolled into the next month. */
  function DayAfterYear(now: int, y: int): int
  {
    var c := FieldsOf(now);
    if 0 <= c.month0 < 12 && c.date > DaysInMonth(y, c.month0) then c.date - DaysInMonth(y, c.month0) else c.date
  }

  /** The clock lets the engine's parse land in month m of year y: the date
      left on the clock once the year is set exists in month m. */
  predicate ClockFits(now: int, y: int, m: int)
  {
    0 <= m < 12 && DayAfterYear(now, y) <= DaysInMonth(y, m)
  }

  /** Setting year y keeps the clock's time of day and leaves the date
      DayAfterYear, in year y. */
  lemma YearStep(now: int, y: int)
    ensures var u := FieldsOf(Apply(Year, y, now)); var c := FieldsOf(now);
      u.year == y && u.date == DayAfterYear(now, y)
      && u.hours == c.hours && u.minutes == c.minutes && u.seconds == c.seconds && u.ms == c.ms
  {
    var c := FieldsOf(now);
    var n := c.(year := y);
    FieldsValid(now);
    ApplyIsTimeOf(Year, y, now);
    DaysInMonthAtMost31(c.year, c.month0);
    DaysInMonthAtMost31(y, c.month0);
    if c.date <= DaysInMonth(y, c.month0) {
      FieldsOfTimeOf(n);
    } else {
      ShortMonthNext(y, c.month0);
      MonthRollsOver(n);
      FieldsOfTimeOf(n.(month0 := n.month0 + 1, date := n.date - DaysInMonth(y, c.month0)));
    }
  }

  /** Setting month m + 1 while the date exists in month m lands in month m,
      all other fields kept. */
  lemma MonthFits(u: int, m: int)
    requires 0 <= m < 12 && DateFromTime(u) <= DaysInMonth(YearFromTime(u), m)
    ensures FieldsOf(Apply(Month, m + 1, u)) == FieldsOf(u).(month0 := m)
  {
    FieldsValid(u);
    ApplyIsTimeOf(Month, m + 1, u);
    FieldsOfTimeOf(FieldsOf(u).(month0 := m));
  }

  /** Setting month m + 1 while the date is past the end of month m lands in
      month m + 1 with the date reduced by the length of month m. */
  lemma MonthPastEnd(u: int, m: int)
    requires 0 <= m < 12 && DateFromTime(u) > DaysInMonth(YearFromTime(u), m)
    ensures m < 11
    ensures FieldsOf(Apply(Month, m + 1, u))
      == FieldsOf(u).(month0 := m + 1, date := DateFromTime(u) - DaysInMonth(YearFromTime(u), m))
  {
    var n := FieldsOf(u);
    FieldsValid(u);
    ApplyIsTimeOf(Month, m + 1, u);
    PastEndFields(n, m);
    FieldsOfTimeOf(n.(month0 := m + 1, date := n.date - DaysInMonth(n.year, m)));
  }

  /** When the clock does not fit month m of year y, that month is shorter
      than 31 days and is followed by one that has every date of it. */
  lemma RolledValid(v: DateFields, now: int)
    requires ValidFields(v) && !ClockFits(now, v.year, v.month0)
    ensures v.month0 < 11 && ValidFields(v.(month0 := v.month0 + 1))
  {
    var c := FieldsOf(now);
    FieldsValid(now);
    DaysInMonthAtMost31(c.year, c.month0);
    assert DayAfterYear(now, v.year) <= c.date <= 31;
    ShortMonthNext(v.year, v.month0);
  }

  /** The engine's six steps for the default template, applied to the
      clock: they land on v, with the clock's milliseconds, when the clock
      fits v's month, and one month later when it does not. */
  lemma SixStepsLand(v: DateFields, now: int)
    requires ValidFields(v)
    ensures ClockFits(now, v.year, v.month0) ==>
      ApplyAll(DefaultStepsOf(v), now)
        == TimeOf(v.(ms := MsFromTime(now)))
    ensures !ClockFits(now, v.year, v.month0) ==>
      v.month0 < 11 && ValidFields(v.(month0 := v.month0 + 1))
      && ApplyAll(DefaultStepsOf(v), now)
        == TimeOf(v.(month0 := v.month0 + 1, ms := MsFromTime(now)))
  {
    var u1 := Apply(Year, v.year, now);
    var u := Apply(Month, v.month0 + 1, u1);
    YearStep(now, v.year);
    FieldsValid(u1);
    DaysInMonthAtMost31(v.year, FieldsOf(u1).month0);
    if ClockFits(now, v.year, v.month0) {
      MonthFits(u1, v.month0);
    } else {
      MonthPastEnd(u1, v.month0);
      ShortMonthNext(v.year, v.month0);
    }
    LandFour(u, v.date, v.hours, v.minutes, v.seconds);
    TwoThenFour(v, now);
  }

  /** The steps the default template's handles give for the fields v:
      year, month (one-based), date, hours, minutes and seconds. */
  function DefaultStepsOf(v: DateFields): seq<(Field, int)>
  {
    [(Year, v.year), (Month, v.month0 + 1), (Date, v.date), (Hours, v.hours),
     (Minutes, v.minutes), (Seconds, v.seconds)]
  }

  /** The six steps are the year and month steps, then the four others. */
  lemma TwoThenFour(v: DateFields, now: int)
    ensures ApplyAll(DefaultStepsOf(v), now)
      == ApplyAll([(Date, v.date), (Hours, v.hours), (Minutes, v.minutes), (Seconds, v.seconds)],
                  Apply(Month, v.month0 + 1, Apply(Year, v.year, now)))
  {
    var rest := [(Date, v.date), (Hours, v.hours), (Minutes, v.minutes), (Seconds, v.seconds)];
    var six := DefaultStepsOf(v);
    var u1 := Apply(Year, v.year, now);
    assert six[1..][1..] == rest;
    assert ApplyAll(six, now) == ApplyAll(six[1..], u1);
    assert ApplyAll(six[1..], u1) == ApplyAll(rest, Apply(Month, v.month0 + 1, u1));
  }

  lemma SixSteps(steps: seq<(Field, int)>, v: DateFields)
    requires |steps| == |DefaultHandles|
    requires forall i :: 0 <= i < |steps| ==> steps[i] == (DefaultHandles[i], FieldValue(v, DefaultHandles[i]))
    ensures steps == DefaultStepsOf(v)
  {
    assert steps[0] == (Year, v.year) && steps[1] == (Month, v.month0 + 1);
    assert steps[2] == (Date, v.date) && steps[3] == (Hours, v.hours);
    assert steps[4] == (Minutes, v.minutes) && steps[5] == (Seconds, v.seconds);
  }

  /** The engine's parse of a default rendering applies year, month, date,
      hours, minutes and seconds of t, in that order, to now. */
  lemma DefaultParseSteps(t: int, now: int)
    requires 1000 <= YearFromTime(t) <= 9999
    ensures var v := FieldsOf(t);
      ParseDateSpec(FormatDate(t, DefaultFormat), DefaultFormat, now)
        == ApplyAll(DefaultStepsOf(v), now)
  {
    DefaultSteps(t);
    SixSteps(MatchSteps(FormatDate(t, DefaultFormat), DefaultFormat), FieldsOf(t));
  }

  lemma RolledMonth(v: DateFields, ms: int)
    requires ValidFields(v) && DaysInMonth(v.year, v.month0) < 31 && 0 <= ms < 1000
    ensures MonthFromTime(TimeOf(v.(month0 := v.month0 + 1, ms := ms))) == v.month0 + 1
  {
    ShortMonthNext(v.year, v.month0);
    FieldsOfTimeOf(v.(month0 := v.month0 + 1, ms := ms));
  }

  /** Replacing the milliseconds of an instant keeps its month. */
  lemma OtherMsSameMonth(t: int, ms: int, u: int)
    requires 0 <= ms < 1000 && u == t - MsFromTime(t) + ms
    ensures MonthFromTime(u) == MonthFromTime(t)
  {
    var w := FieldsOf(t).(ms := ms);
    MsReplaced(t, ms);
    assert u == TimeOf(w);
    OtherMsMonth(t, ms);
  }

  lemma MsReplaced(t: int, ms: int)
    ensures TimeOf(FieldsOf(t).(ms := ms)) == t - MsFromTime(t) + ms
  {
    TimeOfMs(FieldsOf(t), ms);
    TimeOfFieldsOf(t);
  }

  lemma OtherMsMonth(t: int, ms: int)
    requires 0 <= ms < 1000
    ensures MonthFromTime(TimeOf(FieldsOf(t).(ms := ms))) == MonthFromTime(t)
  {
    FieldsValid(t);
    FieldsOfTimeOf(FieldsOf(t).(ms := ms));
  }

  /** The engine's parse of a default rendering when the clock fits the
      rendered month: t again, with the clock's milliseconds. */
  lemma ParseDefaultAsWritten(t: int, now: int)
    requires 1000 <= YearFromTime(t) <= 9999
    requires ClockFits(now, YearFromTime(t), MonthFromTime(t))
    ensures ParseDateSpec(FormatDate(t, DefaultFormat), DefaultFormat, now) == t - MsFromTime(t) + MsFromTime(now)
  {
    FieldsValid(t);
    DefaultParseSteps(t, now);
    SixStepsLand(FieldsOf(t), now);
    MsReplaced(t, MsFromTime(now));
  }

  /** The engine's parse of a default rendering when the clock does not fit
      the rendered month: t's fields, one month on, with the clock's
      milliseconds. */
  lemma SpecRollsOver(t: int, now: int)
    requires 1000 <= YearFromTime(t) <= 9999
    requires !ClockFits(now, YearFromTime(t), MonthFromTime(t))
    ensures MonthFromTime(t) < 11
    ensures ParseDateSpec(FormatDate(t, DefaultFormat), DefaultFormat, now)
      == TimeOf(FieldsOf(t).(month0 := MonthFromTime(t) + 1, ms := MsFromTime(now)))
    ensures MonthFromTime(ParseDateSpec(FormatDate(t, DefaultFormat), DefaultFormat, now)) == MonthFromTime(t) + 1
  {
    var r := FieldsOf(t).(month0 := MonthFromTime(t) + 1, ms := MsFromTime(now));
    FieldsValid(t);
    FieldsValid(now);
    DefaultParseSteps(t, now);
    SixStepsLand(FieldsOf(t), now);
    FieldsOfTimeOf(r);
  }

  lemma FixedKeepsMonth(t: int, now: int)
    requires 1000 <= YearFromTime(t) <= 9999
    ensures ParseDateFixed(FormatDate(t, DefaultFormat), DefaultFormat, now) == t - MsFromTime(t) + MsFromTime(now)
    ensures MonthFromTime(ParseDateFixed(FormatDate(t, DefaultFormat), DefaultFormat, now)) == MonthFromTime(t)
  {
    FieldsValid(now);
    ParseDefaultRoundTrip(t, now);
    OtherMsSameMonth(t, MsFromTime(now), ParseDateFixed(FormatDate(t, DefaultFormat), DefaultFormat, now));
  }

  /** The engine's parseDate reads the default rendering of t in t's month
      exactly when the clock fits it; otherwise the month is set while the
      date is still the clock's, the date rolls over into the next month,
      and the later setters keep that month. The corrected parse always
      keeps t's month. */
  lemma ParseDateRollsOver(t: int, now: int)
    requires 1000 <= YearFromTime(t) <= 9999
    ensures MonthFromTime(ParseDateSpec(FormatDate(t, DefaultFormat), DefaultFormat, now)) == MonthFromTime(t)
      <==> ClockFits(now, YearFromTime(t), MonthFromTime(t))
    ensures !ClockFits(now, YearFromTime(t), MonthFromTime(t)) ==>
      MonthFromTime(ParseDateSpec(FormatDate(t, DefaultFormat), DefaultFormat, now)) == MonthFromTime(t) + 1
    ensures MonthFromTime(ParseDateFixed(FormatDate(t, DefaultFormat), DefaultFormat, now)) == MonthFromTime(t)
  {
    var p := ParseDateSpec(FormatDate(t, DefaultFormat), DefaultFormat, now);
    if ClockFits(now, YearFromTime(t), MonthFromTime(t)) {
      FieldsValid(now);
      ParseDefaultAsWritten(t, now);
      OtherMsSameMonth(t, MsFromTime(now), p);
    } else {
      SpecRollsOver(t, now);
    }
    FixedKeepsMonth(t, now);
  }

  /** A clock day that month m of year y has fits that month. */
  lemma ClockDayFits(now: int, y: int, m: int)
    requires 0 <= m < 12 && DateFromTime(now) <= DaysInMonth(y, m)
    ensures ClockFits(now, y, m)
  {
  }

  /** A clock on the 30th or 31st, in a year y whose month m is shorter than
      that day, does not fit month m. */
  lemma LateClockMisses(now: int, y: int, m: int)
    requires 0 <= m < 12 && DateFromTime(now) >= 30 && DateFromTime(now) > DaysInMonth(y, m)
    ensures !ClockFits(now, y, m)
  {
    FieldsValid(now);
    assert MonthFromTime(now) != 1;
  }

  /** The instance: with the clock on the 31st of any month and year, the
      rendering of 15 April 2019, 10:20:30 parses back as 15 May. */
  lemma RollOverExample(t: int, now: int)
    requires FieldsOf(t) == DateFields(2019, 3, 15, 10, 20, 30, 0)
    requires DateFromTime(now) == 31
    ensures MonthFromTime(ParseDateSpec(FormatDate(t, DefaultFormat), DefaultFormat, now)) == 4
    ensures MonthFromTime(ParseDateFixed(FormatDate(t, DefaultFormat), DefaultFormat, now)) == 3
  {
    assert DaysInMonth(2019, 3) == 30;
    LateClockMisses(now, 2019, 3);
    ParseDateRollsOver(t, now);
  }
}
