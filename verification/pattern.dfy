/** The part of the host's regular expressions that the parser builds: a
    sequence of literal characters and greedy capture groups of decimal
    digits, `(\d{lo,hi})`. A match is searched from each start index in turn
    (exec is not anchored); at one start index the groups take as many
    digits as they can and give them back one at a time when the rest of the
    pattern fails (backtracking). */
module Pattern {
  import opened Wrappers
  import opened Numbers

  datatype Atom = Char(c: char) | Digits(lo: nat, hi: nat)

  /** Number of capture groups. */
  function Groups(p: seq<Atom>): nat
  {
    if p == [] then 0 else Groups(p[1..]) + (if p[0].Digits? then 1 else 0)
  }

  /** Length of the run of digits that starts at index i. */
  function DigitRun(s: string, i: nat): (n: nat)
    requires i <= |s|
    ensures i + n <= |s|
    decreases |s| - i
  {
    if i < |s| && IsDigit(s[i]) then 1 + DigitRun(s, i + 1) else 0
  }

  /** The captures of the first way, in backtracking order, in which p matches
      s from index i on; None when there is none. */
  function MatchAt(p: seq<Atom>, s: string, i: nat): Option<seq<string>>
    requires i <= |s|
    decreases |p|, 1, 0
  {
    if p == [] then Some([])
    else match p[0]
      case Char(c) =>
        if i < |s| && s[i] == c then MatchAt(p[1..], s, i + 1) else None
      case Digits(lo, hi) =>
        var run := DigitRun(s, i);
        TryDigits(p, s, i, if run < hi then run else hi)
  }

  /** Lets the leading group take n digits, then n - 1, ..., down to its
      minimum, until the rest of the pattern matches. */
  function TryDigits(p: seq<Atom>, s: string, i: nat, n: nat): Option<seq<string>>
    requires p != [] && p[0].Digits? && i + n <= |s|
    decreases |p|, 0, n
  {
    if n < p[0].lo then None
    else match MatchAt(p[1..], s, i + n)
      case Some(caps) => Some([s[i..i + n]] + caps)
      case None => if n == 0 then None else TryDigits(p, s, i, n - 1)
  }

  /** Tries the start indexes i, i + 1, ..., |s| in turn. */
  function ExecFrom(p: seq<Atom>, s: string, i: nat): Option<(nat, seq<string>)>
    requires i <= |s|
    decreases |s| - i
  {
    match MatchAt(p, s, i)
    case Some(caps) => Some((i, caps))
    case None => if i == |s| then None else ExecFrom(p, s, i + 1)
  }

  /** RegExp.prototype.exec: the start index and the captures of the first
      match. */
  function Exec(p: seq<Atom>, s: string): Option<(nat, seq<string>)>
  {
    ExecFrom(p, s, 0)
  }

  /** The text p stands for once its groups are filled with caps. */
  function Fill(p: seq<Atom>, caps: seq<string>): string
    requires |caps| == Groups(p)
  {
    if p == [] then ""
    else match p[0]
      case Char(c) => [c] + Fill(p[1..], caps)
      case Digits(_, _) => caps[0] + Fill(p[1..], caps[1..])
  }

  /** A capture that group (\d{lo,hi}) can hold. */
  predicate Fits(a: Atom, cap: string)
  {
    a.Digits? && AllDigits(cap) && a.lo <= |cap| <= a.hi
  }

  /** caps can fill the groups of p, one each, in order. */
  predicate FitsAll(p: seq<Atom>, caps: seq<string>)
  {
    |caps| == Groups(p)
    && (p != [] ==> match p[0]
          case Char(_) => FitsAll(p[1..], caps)
          case Digits(_, _) => Fits(p[0], caps[0]) && FitsAll(p[1..], caps[1..]))
  }

  /** Every group is followed by a literal that is not a digit, or ends the
      pattern. */
  predicate Separated(p: seq<Atom>)
  {
    forall k :: 0 <= k < |p| - 1 && p[k].Digits? ==> p[k + 1].Char? && !IsDigit(p[k + 1].c)
  }

  /** Index j of s is not inside a run of digits that could extend a group. */
  predicate EndsRun(s: string, j: nat)
  {
    j >= |s| || !IsDigit(s[j])
  }

  // ===== proofs =====

  /** A match from i fills p's groups with captures that fit them, and the
      filled pattern is exactly the text found at i. */
  lemma {:induction false} MatchAtSound(p: seq<Atom>, s: string, i: nat)
    requires i <= |s| && MatchAt(p, s, i).Some?
    ensures var caps := MatchAt(p, s, i).value;
      FitsAll(p, caps) && i + |Fill(p, caps)| <= |s| && s[i..i + |Fill(p, caps)|] == Fill(p, caps)
    decreases |p|, 1, 0
  {
    if p != [] {
      match p[0]
      case Char(c) =>
        MatchAtSound(p[1..], s, i + 1);
      case Digits(lo, hi) =>
        var run := DigitRun(s, i);
        TryDigitsSound(p, s, i, if run < hi then run else hi);
    }
  }

  lemma {:induction false} TryDigitsSound(p: seq<Atom>, s: string, i: nat, n: nat)
    requires p != [] && p[0].Digits? && i + n <= |s| && n <= p[0].hi && n <= DigitRun(s, i)
    requires TryDigits(p, s, i, n).Some?
    ensures var caps := TryDigits(p, s, i, n).value;
      FitsAll(p, caps) && i + |Fill(p, caps)| <= |s| && s[i..i + |Fill(p, caps)|] == Fill(p, caps)
    decreases |p|, 0, n
  {
    match MatchAt(p[1..], s, i + n)
    case Some(rest) =>
      MatchAtSound(p[1..], s, i + n);
      DigitRunDigits(s, i, n);
      var caps := [s[i..i + n]] + rest;
      assert caps[1..] == rest;
      assert Fill(p, caps) == s[i..i + n] + Fill(p[1..], rest);
    case None =>
      TryDigitsSound(p, s, i, n - 1);
  }

  lemma {:induction false} DigitRunDigits(s: string, i: nat, n: nat)
    requires i <= |s| && n <= DigitRun(s, i)
    ensures i + n <= |s| && AllDigits(s[i..i + n])
    decreases n
  {
    if n > 0 {
      DigitRunDigits(s, i + 1, n - 1);
      var run := s[i..i + n];
      forall k | 0 <= k < n ensures IsDigit(run[k]) {
        if k == 0 {
          assert run[k] == s[i];
        } else {
          assert run[k] == s[i + 1..i + n][k - 1];
          assert IsDigit(s[i + 1..i + n][k - 1]);
        }
      }
    }
  }

  lemma {:induction false} DigitRunExact(s: string, i: nat, n: nat)
    requires i + n <= |s| && AllDigits(s[i..i + n]) && EndsRun(s, i + n)
    ensures DigitRun(s, i) == n
    decreases n
  {
    if n > 0 {
      assert s[i + 1..i + n] == s[i..i + n][1..];
      DigitRunExact(s, i + 1, n - 1);
    }
  }

  lemma SeparatedTail(p: seq<Atom>)
    requires p != [] && Separated(p)
    ensures Separated(p[1..])
  {
    forall k | 0 <= k < |p[1..]| - 1 && p[1..][k].Digits?
      ensures p[1..][k + 1].Char? && !IsDigit(p[1..][k + 1].c)
    {
      assert p[1..][k] == p[k + 1] && p[1..][k + 1] == p[k + 2];
    }
  }

  /** Greedy matching finds the intended captures: when every group of p is
      followed by a non-digit literal, and the text at i is p filled with
      captures that fit, followed by something that is not a digit, the match
      from i yields exactly those captures. */
  lemma {:induction false} MatchAtComplete(p: seq<Atom>, caps: seq<string>, s: string, i: nat)
    requires Separated(p) && FitsAll(p, caps)
    requires i + |Fill(p, caps)| <= |s| && s[i..i + |Fill(p, caps)|] == Fill(p, caps)
    requires EndsRun(s, i + |Fill(p, caps)|)
    ensures MatchAt(p, s, i) == Some(caps)
    decreases |p|
  {
    if p != [] {
      SeparatedTail(p);
      if p[0].Char? {
        CharStep(p, caps, s, i);
        MatchAtComplete(p[1..], caps, s, i + 1);
      } else {
        var cap := caps[0];
        DigitsStep(p, caps, s, i);
        MatchAtComplete(p[1..], caps[1..], s, i + |cap|);
        assert caps == [s[i..i + |cap|]] + caps[1..];
      }
    }
  }

  lemma CharStep(p: seq<Atom>, caps: seq<string>, s: string, i: nat)
    requires p != [] && p[0].Char? && FitsAll(p, caps)
    requires i + |Fill(p, caps)| <= |s| && s[i..i + |Fill(p, caps)|] == Fill(p, caps)
    ensures i < |s| && s[i] == p[0].c && FitsAll(p[1..], caps)
    ensures var rest := Fill(p[1..], caps);
      |Fill(p, caps)| == 1 + |rest| && s[i + 1..i + 1 + |rest|] == rest
  {
    var f := Fill(p, caps);
    var rest := Fill(p[1..], caps);
    assert f == [p[0].c] + rest;
    assert s[i] == s[i..i + |f|][0] == f[0];
    assert s[i + 1..i + 1 + |rest|] == s[i..i + |f|][1..];
  }

  /** The text at i starts with the leading group's capture, followed by
      the rest of the pattern filled with the remaining captures. */
  lemma DigitsSplit(p: seq<Atom>, caps: seq<string>, s: string, i: nat)
    requires p != [] && p[0].Digits? && FitsAll(p, caps)
    requires i + |Fill(p, caps)| <= |s| && s[i..i + |Fill(p, caps)|] == Fill(p, caps)
    ensures Fits(p[0], caps[0]) && FitsAll(p[1..], caps[1..])
    ensures i + |caps[0]| <= |s| && s[i..i + |caps[0]|] == caps[0]
    ensures var rest := Fill(p[1..], caps[1..]);
      |Fill(p, caps)| == |caps[0]| + |rest|
      && s[i + |caps[0]|..i + |caps[0]| + |rest|] == rest
  {
    var cap := caps[0];
    var rest := Fill(p[1..], caps[1..]);
    assert Fill(p, caps) == cap + rest;
    SliceSplit(s, i, cap, rest);
  }

  /** Text that spells a + b from i spells a from i and b right after. */
  lemma SliceSplit(s: string, i: nat, a: string, b: string)
    requires i + |a + b| <= |s| && s[i..i + |a + b|] == a + b
    ensures s[i..i + |a|] == a && s[i + |a|..i + |a| + |b|] == b
  {
    assert s[i..i + |a|] == s[i..i + |a + b|][..|a|];
    assert s[i + |a|..i + |a| + |b|] == s[i..i + |a + b|][|a|..];
  }

  /** In a separated pattern the leading group's capture ends a run of
      digits. */
  lemma DigitsEnd(p: seq<Atom>, caps: seq<string>, s: string, i: nat)
    requires p != [] && p[0].Digits? && Separated(p) && FitsAll(p, caps)
    requires i + |Fill(p, caps)| <= |s| && s[i..i + |Fill(p, caps)|] == Fill(p, caps)
    requires EndsRun(s, i + |Fill(p, caps)|)
    ensures EndsRun(s, i + |caps[0]|)
  {
    DigitsSplit(p, caps, s, i);
    var cap := caps[0];
    var rest := Fill(p[1..], caps[1..]);
    if |p| > 1 {
      assert p[1].Char? && !IsDigit(p[1].c);
      assert rest == [p[1].c] + Fill(p[2..], caps[1..]) by {
        assert p[1..][0] == p[1] && p[1..][1..] == p[2..];
      }
      assert s[i + |cap|..i + |cap| + |rest|][0] == rest[0];
    } else {
      assert rest == [];
    }
  }

  lemma DigitsStep(p: seq<Atom>, caps: seq<string>, s: string, i: nat)
    requires p != [] && p[0].Digits? && Separated(p) && FitsAll(p, caps)
    requires i + |Fill(p, caps)| <= |s| && s[i..i + |Fill(p, caps)|] == Fill(p, caps)
    requires EndsRun(s, i + |Fill(p, caps)|)
    ensures Fits(p[0], caps[0]) && FitsAll(p[1..], caps[1..])
    ensures i + |caps[0]| <= |s| && s[i..i + |caps[0]|] == caps[0]
    ensures var rest := Fill(p[1..], caps[1..]);
      |Fill(p, caps)| == |caps[0]| + |rest|
      && s[i + |caps[0]|..i + |caps[0]| + |rest|] == rest
    ensures DigitRun(s, i) == |caps[0]|
  {
    DigitsSplit(p, caps, s, i);
    DigitsEnd(p, caps, s, i);
    DigitRunExact(s, i, |caps[0]|);
  }

  /** exec reports the first start index from which the pattern matches, and
      no match at all only when no start index has one. */
  lemma {:induction false} ExecFromFirst(p: seq<Atom>, s: string, i: nat)
    requires i <= |s|
    ensures var r := ExecFrom(p, s, i);
      r.Some? ==> i <= r.value.0 <= |s| && MatchAt(p, s, r.value.0) == Some(r.value.1)
                  && forall k :: i <= k < r.value.0 ==> MatchAt(p, s, k).None?
    ensures ExecFrom(p, s, i).None? ==> forall k :: i <= k <= |s| ==> MatchAt(p, s, k).None?
    decreases |s| - i
  {
    if MatchAt(p, s, i).None? && i < |s| {
      ExecFromFirst(p, s, i + 1);
    }
  }

  lemma ExecFirst(p: seq<Atom>, s: string)
    ensures var r := Exec(p, s);
      r.Some? ==> r.value.0 <= |s| && MatchAt(p, s, r.value.0) == Some(r.value.1)
                  && forall k :: 0 <= k < r.value.0 ==> MatchAt(p, s, k).None?
    ensures Exec(p, s).None? ==> forall k :: 0 <= k <= |s| ==> MatchAt(p, s, k).None?
  {
    ExecFromFirst(p, s, 0);
  }
}
