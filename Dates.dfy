/**
 * The formatting half of todayISO: a local calendar date, given as the
 * full year, the 0-based month index and the day of the month, written as
 * `Y-MM-DD`. The year is printed as JavaScript's String(number) prints an
 * integer; month and day are padded on the left with `0` to width 2.
 */
module Dates {
  import opened Wrappers

  predicate IsDigit(c: char) {
    '0' <= c <= '9'
  }

  predicate AllDigits(s: string) {
    forall i :: 0 <= i < |s| ==> IsDigit(s[i])
  }

  function DigitChar(d: nat): (c: char)
    requires d < 10
    ensures IsDigit(c) && DigitValue(c) == d
  {
    (('0' as int) + d) as char
  }

  function DigitValue(c: char): nat
    requires IsDigit(c)
  {
    (c as int) - ('0' as int)
  }

  /** The number a string of decimal digits denotes (leading zeros allowed). */
  function DecimalValue(s: string): nat
    requires AllDigits(s)
  {
    if s == [] then 0 else 10 * DecimalValue(s[..|s| - 1]) + DigitValue(s[|s| - 1])
  }

  /** String(n) for a non-negative integer: its decimal digits, with no leading zero. */
  function DecimalString(n: nat): (r: string)
    ensures |r| >= 1 && AllDigits(r)
    ensures r[0] == '0' <==> n == 0
    decreases n
  {
    if n < 10 then [DigitChar(n)] else DecimalString(n / 10) + [DigitChar(n % 10)]
  }

  /** String(y) for any integer: a minus sign before the digits of a negative one. */
  function IntString(y: int): (r: string)
    ensures |r| >= 1
    ensures r[0] == '-' <==> y < 0
    ensures y < 0 ==> r[1..] == DecimalString(-y)
    ensures y >= 0 ==> r == DecimalString(y)
  {
    if y < 0 then "-" + DecimalString(-y) else DecimalString(y)
  }

  /** k copies of c. */
  function Fill(c: char, k: nat): (r: string)
    ensures |r| == k && forall i :: 0 <= i < k ==> r[i] == c
  {
    if k == 0 then [] else [c] + Fill(c, k - 1)
  }

  /**
   * s.padStart(width, fill) for a one-character fill: fill characters are
   * prepended until the string is width long; a string already that long
   * is returned as it is.
   */
  function PadStart(s: string, width: nat, fill: char): (r: string)
    ensures |r| == if |s| >= width then |s| else width
    ensures r[|r| - |s|..] == s
    ensures forall k :: 0 <= k < |r| - |s| ==> r[k] == fill
  {
    if |s| >= width then s else Fill(fill, width - |s|) + s
  }

  /** String(n).padStart(2, "0"): below 100, the tens digit and the units digit, denoting n. */
  function TwoDigits(n: nat): (r: string)
    ensures n < 100 ==> |r| == 2 && AllDigits(r) && DecimalValue(r) == n
  {
    PaddedDigits(n);
    PadStart(DecimalString(n), 2, '0')
  }

  /**
   * The template `${y}-${m}-${day}`, for the year's text y and the month
   * number and day padded to width 2. For a month number and day below 100,
   * the year's text comes first, a dash follows it and another one three
   * places later, and the two two-digit fields denote the month number and
   * the day.
   */
  function DateString(y: string, mv: nat, dv: nat): (r: string)
    ensures mv < 100 && dv < 100 ==>
      && |r| == |y| + 6 && r[..|y|] == y
      && r[|y|] == '-' && r[|y| + 3] == '-'
      && AllDigits(r[|y| + 1..|y| + 3]) && DecimalValue(r[|y| + 1..|y| + 3]) == mv
      && AllDigits(r[|y| + 4..]) && DecimalValue(r[|y| + 4..]) == dv
  {
    var r := y + "-" + TwoDigits(mv) + "-" + TwoDigits(dv);
    if mv < 100 && dv < 100 then
      DateFields(y, TwoDigits(mv), TwoDigits(dv), mv, dv);
      r
    else r
  }

  /**
   * todayISO for the date a Date reports as year, 0-based month index and
   * day. For a month index below 99 and a day below 100 (a Date reports
   * 0-11 and 1-31), the result is String(year), a dash, two digits denoting
   * the month index plus one, a dash and two digits denoting the day; a
   * four-digit year gives ten characters.
   */
  function FormatDate(year: int, monthIndex: nat, day: nat): (r: string)
    ensures var y := IntString(year);
      monthIndex < 99 && day < 100 ==>
        && |r| == |y| + 6 && r[..|y|] == y
        && r[|y|] == '-' && r[|y| + 3] == '-'
        && AllDigits(r[|y| + 1..|y| + 3]) && DecimalValue(r[|y| + 1..|y| + 3]) == monthIndex + 1
        && AllDigits(r[|y| + 4..]) && DecimalValue(r[|y| + 4..]) == day
    ensures 1000 <= year < 10000 && monthIndex < 99 && day < 100 ==> |r| == 10
  {
    YearLength(year);
    DateString(IntString(year), monthIndex + 1, day)
  }

  /** Reads an integer as IntString writes it; None for anything else. */
  function ParseInt(s: string): Option<int> {
    if |s| >= 2 && s[0] == '-' && AllDigits(s[1..]) then Some(0 - DecimalValue(s[1..]) as int)
    else if |s| >= 1 && AllDigits(s) then Some(DecimalValue(s))
    else None
  }

  /**
   * Reads `Y-MM-DD` back into year, 0-based month index and day: the last
   * six characters are `-MM-DD`, everything before them is the year.
   */
  function ParseDate(s: string): Option<(int, nat, nat)> {
    if |s| < 7 || s[|s| - 6] != '-' || s[|s| - 3] != '-' then None
    else
      var mm, dd := s[|s| - 5..|s| - 3], s[|s| - 2..];
      match ParseInt(s[..|s| - 6])
      case None => None
      case Some(y) =>
        if !AllDigits(mm) || !AllDigits(dd) || DecimalValue(mm) == 0 then None
        else Some((y, DecimalValue(mm) - 1, DecimalValue(dd)))
  }

  /** Reading back the digits String(n) writes gives n. */
  lemma {:induction false} DecimalRoundTrip(n: nat)
    ensures DecimalValue(DecimalString(n)) == n
    decreases n
  {
    var r := DecimalString(n);
    if n < 10 {
      assert r[..0] == [];
    } else {
      DecimalRoundTrip(n / 10);
      assert r[..|r| - 1] == DecimalString(n / 10);
    }
  }

  /** The number of digits String(n) writes for numbers of up to four digits. */
  lemma DecimalLength(n: nat)
    ensures n < 10 ==> |DecimalString(n)| == 1
    ensures 10 <= n < 100 ==> |DecimalString(n)| == 2
    ensures 100 <= n < 1000 ==> |DecimalString(n)| == 3
    ensures 1000 <= n < 10000 ==> |DecimalString(n)| == 4
  {
    if n >= 10 {
      DecimalLength(n / 10);
    }
  }

  /** A number below 100 padded to width 2 is its tens digit followed by its units digit, denoting it. */
  lemma PaddedDigits(n: nat)
    ensures var t := PadStart(DecimalString(n), 2, '0');
      n < 100 ==> t == [DigitChar(n / 10), DigitChar(n % 10)] && |t| == 2 && AllDigits(t) && DecimalValue(t) == n
  {
    if n < 100 {
      var d := DecimalString(n);
      var t := PadStart(d, 2, '0');
      if n < 10 {
        assert d == [DigitChar(n)];
        assert t == [t[0]] + t[1..];
        assert t == [DigitChar(0), DigitChar(n)];
      } else {
        DecimalLength(n);
        assert DecimalString(n / 10) == [DigitChar(n / 10)];
        assert t == [DigitChar(n / 10), DigitChar(n % 10)];
      }
      PairValue(t);
    }
  }

  /** Two digits denote ten times the first plus the second. */
  lemma PairValue(t: string)
    requires |t| == 2 && AllDigits(t)
    ensures DecimalValue(t) == 10 * DigitValue(t[0]) + DigitValue(t[1])
  {
    var u := t[..1];
    assert u[..0] == [] && u[0] == t[0];
    assert DecimalValue(u) == DigitValue(t[0]);
    assert DecimalValue(t) == 10 * DecimalValue(u) + DigitValue(t[1]);
  }

  /** A year of four digits is printed with four characters. */
  lemma YearLength(year: int)
    ensures 1000 <= year < 10000 ==> |IntString(year)| == 4
  {
    if 1000 <= year < 10000 {
      DecimalLength(year);
    }
  }

  /** Reading back an integer String(y) writes gives y. */
  lemma IntRoundTrip(y: int)
    ensures ParseInt(IntString(y)) == Some(y)
  {
    var r := IntString(y);
    if y < 0 {
      DecimalRoundTrip(-y);
      assert !IsDigit(r[0]);
    } else {
      DecimalRoundTrip(y);
    }
  }

  /** Where the fields of `y-mm-dd` sit, for two-digit mm and dd, and what they denote. */
  lemma DateFields(y: string, m: string, d: string, mv: nat, dv: nat)
    requires |m| == 2 && AllDigits(m) && DecimalValue(m) == mv
    requires |d| == 2 && AllDigits(d) && DecimalValue(d) == dv
    ensures var r := y + "-" + m + "-" + d;
      && |r| == |y| + 6
      && r[..|y|] == y
      && r[|y|] == '-' && r[|y| + 3] == '-'
      && AllDigits(r[|y| + 1..|y| + 3]) && DecimalValue(r[|y| + 1..|y| + 3]) == mv
      && AllDigits(r[|y| + 4..]) && DecimalValue(r[|y| + 4..]) == dv
  {
    var r := y + "-" + m + "-" + d;
    assert r[|y| + 1..|y| + 3] == m;
    assert r[|y| + 4..] == d;
  }

  /** ParseDate inverts FormatDate on every date a Date can report. */
  lemma FormatDateRoundTrip(year: int, monthIndex: nat, day: nat)
    requires monthIndex < 12 && 1 <= day <= 31
    ensures ParseDate(FormatDate(year, monthIndex, day)) == Some((year, monthIndex, day))
  {
    var y := IntString(year);
    IntRoundTrip(year);
    DateStringRoundTrip(y, year, monthIndex + 1, day);
    assert FormatDate(year, monthIndex, day) == DateString(y, monthIndex + 1, day);
  }

  /** ParseDate reads `y-mm-dd` back as the year's value, the month number minus one, and the day. */
  lemma DateStringRoundTrip(y: string, yv: int, mv: nat, dv: nat)
    requires ParseInt(y) == Some(yv) && 1 <= mv < 100 && dv < 100
    ensures ParseDate(DateString(y, mv, dv)) == Some((yv, mv - 1, dv))
  {
    ParseLayout(DateString(y, mv, dv), y, yv, mv, dv);
  }

  /** ParseDate reads a string laid out as `y-mm-dd` as the values of its three fields. */
  lemma ParseLayout(r: string, y: string, yv: int, mv: nat, dv: nat)
    requires ParseInt(y) == Some(yv) && mv >= 1
    requires |r| == |y| + 6 && r[..|y|] == y && r[|y|] == '-' && r[|y| + 3] == '-'
    requires AllDigits(r[|y| + 1..|y| + 3]) && DecimalValue(r[|y| + 1..|y| + 3]) == mv
    requires AllDigits(r[|y| + 4..]) && DecimalValue(r[|y| + 4..]) == dv
    ensures ParseDate(r) == Some((yv, mv - 1, dv))
  {
    assert |r| - 6 == |y| && |r| - 5 == |y| + 1 && |r| - 3 == |y| + 3 && |r| - 2 == |y| + 4;
  }

  /** Distinct dates are formatted into distinct strings. */
  lemma FormatDateInjective(y1: int, m1: nat, d1: nat, y2: int, m2: nat, d2: nat)
    requires m1 < 12 && 1 <= d1 <= 31 && m2 < 12 && 1 <= d2 <= 31
    requires FormatDate(y1, m1, d1) == FormatDate(y2, m2, d2)
    ensures y1 == y2 && m1 == m2 && d1 == d2
  {
    FormatDateRoundTrip(y1, m1, d1);
    FormatDateRoundTrip(y2, m2, d2);
  }
}
