/** Decimal text of integers: the host's Number toString and parseInt on the
    texts the engine feeds it, and the two-digit padding formatNum. */
module Numbers {

  predicate IsDigit(c: char) { '0' <= c <= '9' }

  predicate AllDigits(s: string)
  {
    forall i :: 0 <= i < |s| ==> IsDigit(s[i])
  }

  function DigitChar(d: int): (c: char)
    requires 0 <= d < 10
    ensures IsDigit(c)
  {
    (48 + d) as char
  }

  /** Decimal digits of n, most significant first, no leading zeros. */
  function NatToString(n: nat): (s: string)
    ensures 1 <= |s| && AllDigits(s)
  {
    if n < 10 then [DigitChar(n)] else NatToString(n / 10) + [DigitChar(n % 10)]
  }

  /** Number.prototype.toString for an integer. */
  function NumToString(n: int): string
  {
    if n < 0 then "-" + NatToString(-n) else NatToString(n)
  }

  /** Value of a string of decimal digits. */
  function DigitsValue(s: string): nat
    requires AllDigits(s)
  {
    if s == [] then 0 else DigitsValue(s[..|s| - 1]) * 10 + (s[|s| - 1] as int - 48)
  }

  /** The texts parseInt is given here: digits, optionally after a minus. */
  predicate IsIntText(s: string)
  {
    (|s| >= 1 && AllDigits(s)) || (|s| >= 2 && s[0] == '-' && AllDigits(s[1..]))
  }

  /** parseInt(s, 10) on such a text. */
  function ParseInt(s: string): int
    requires IsIntText(s)
  {
    if s[0] == '-' then -(DigitsValue(s[1..]) as int) else DigitsValue(s)
  }

  /** Pads a number below 10 with one leading "0"; larger numbers print as
      they are. */
  function FormatNum(n: int): string
  {
    if n >= 10 then NumToString(n) else "0" + NumToString(n)
  }

  /** Count of decimal digits of n. */
  function NumDigits(n: nat): nat
  {
    if n < 10 then 1 else 1 + NumDigits(n / 10)
  }

  lemma {:induction false} NatToStringLength(n: nat)
    ensures |NatToString(n)| == NumDigits(n)
  {
    if n >= 10 {
      NatToStringLength(n / 10);
    }
  }

  lemma DigitsBelow1000(n: nat)
    requires n < 1000
    ensures 1 <= |NatToString(n)| <= 3
  {
    NatToStringLength(n);
    if n >= 10 {
      if n >= 100 {
        assert NumDigits(n / 10 / 10) == 1;
      } else {
        assert NumDigits(n / 10) == 1;
      }
    }
  }

  lemma FourDigits(n: nat)
    requires 1000 <= n < 10000
    ensures |NatToString(n)| == 4
  {
    NatToStringLength(n);
    assert NumDigits(n / 10 / 10 / 10) == 1;
    assert NumDigits(n / 10 / 10) == 2;
    assert NumDigits(n / 10) == 3;
  }

  /** Reading back the digits of n gives n. */
  lemma {:induction false} NatToStringRoundTrip(n: nat)
    ensures DigitsValue(NatToString(n)) == n
  {
    if n >= 10 {
      var s := NatToString(n);
      var p := NatToString(n / 10);
      assert s[..|s| - 1] == p;
      NatToStringRoundTrip(n / 10);
    }
  }

  lemma NegativeText(n: int)
    requires n < 0
    ensures var s := NumToString(n); |s| >= 2 && s[0] == '-' && s[1..] == NatToString(-n)
  {
  }

  /** parseInt undoes toString on every integer. */
  lemma ParseIntNumToString(n: int)
    ensures IsIntText(NumToString(n)) && ParseInt(NumToString(n)) == n
  {
    var s := NumToString(n);
    if n < 0 {
      NegativeText(n);
      NatToStringRoundTrip(-n);
      assert ParseInt(s) == -(DigitsValue(s[1..]) as int);
    } else {
      assert s == NatToString(n);
      assert IsDigit(s[0]);
      NatToStringRoundTrip(n);
    }
  }

  /** formatNum: numbers from 10 on print unchanged; a number in 0..9 gets one
      leading "0"; so every number in 0..99 becomes exactly two digits whose
      value is the number. */
  lemma FormatNumSpec(n: int)
    ensures n >= 10 ==> FormatNum(n) == NumToString(n)
    ensures 0 <= n < 10 ==> FormatNum(n) == ['0', DigitChar(n)]
    ensures 0 <= n < 100 ==> |FormatNum(n)| == 2 && AllDigits(FormatNum(n))
                             && DigitsValue(FormatNum(n)) == n
  {
    if 10 <= n < 100 {
      NatToStringLength(n);
      assert NumDigits(n / 10) == 1;
      NatToStringRoundTrip(n);
    } else if 0 <= n < 10 {
      var s := FormatNum(n);
      assert s[..1] == "0";
      assert DigitsValue("0") == 0;
    }
  }

  /** The digits of a number in 0..99 padded to two. */
  lemma FormatNumDigits(n: int)
    requires 0 <= n < 100
    ensures FormatNum(n) == [DigitChar(n / 10), DigitChar(n % 10)]
  {
    if n >= 10 {
      assert NatToString(n / 10) == [DigitChar(n / 10)];
    }
  }

  /** The digits of a four-digit number. */
  lemma FourDigitsText(n: int)
    requires 1000 <= n < 10000
    ensures NumToString(n) == [DigitChar(n / 1000), DigitChar(n / 100 % 10), DigitChar(n / 10 % 10), DigitChar(n % 10)]
  {
    var a, b, c := n / 10, n / 100, n / 1000;
    assert a / 10 == b && b / 10 == c;
    assert a % 10 == n / 10 % 10 && b % 10 == n / 100 % 10;
    assert NatToString(c) == [DigitChar(c)];
    assert NatToString(b) == NatToString(c) + [DigitChar(b % 10)];
    assert NatToString(a) == NatToString(b) + [DigitChar(a % 10)];
    assert NatToString(n) == NatToString(a) + [DigitChar(n % 10)];
  }
}
