/**
 * The date string the roster generator writes into every entry:
 * `${year}-${String(month + 1).padStart(2, "0")}-${String(day).padStart(2, "0")}`,
 * the extended calendar-date form YYYY-MM-DD of ISO 8601:2004, section 4.1.2.2,
 * except that the year is written as JavaScript renders the number (no padding,
 * a minus sign for negative years). Reading such a string back gives the
 * ordering key by which prior-month entries are sorted.
 */
module DateText {
  import opened Wrappers

  predicate IsDigit(c: char)
  {
    '0' <= c <= '9'
  }

  predicate AllDigits(s: string)
  {
    forall i :: 0 <= i < |s| ==> IsDigit(s[i])
  }

  function DigitChar(d: int): (c: char)
    requires 0 <= d < 10
    ensures IsDigit(c)
  {
    ('0' as int + d) as char
  }

  function DigitValue(c: char): int
    requires IsDigit(c)
  {
    c as int - '0' as int
  }

  /** `String(n)` for a non-negative integer: its decimal digits, most significant first. */
  function NatToString(n: nat): string
  {
    if n < 10 then [DigitChar(n)] else NatToString(n / 10) + [DigitChar(n % 10)]
  }

  /** `String(n)` is a non-empty run of digits: one digit below 10, two from 10 to 99. */
  lemma {:induction false} NatToStringDigits(n: nat)
    ensures var s := NatToString(n);
            && 1 <= |s| && AllDigits(s)
            && (n < 10 <==> |s| == 1)
            && (10 <= n < 100 ==> |s| == 2)
  {
    if n >= 10 {
      NatToStringDigits(n / 10);
    }
  }

  /** `${n}` for any integer. */
  function IntToString(n: int): string
  {
    if n < 0 then "-" + NatToString(-n) else NatToString(n)
  }

  /** The number a string of decimal digits denotes. */
  function DigitsValue(s: string): nat
    requires AllDigits(s)
  {
    if s == [] then 0 else DigitsValue(s[..|s| - 1]) * 10 + DigitValue(s[|s| - 1])
  }

  /** Reads back what IntToString writes: an optional minus sign and at least one digit. */
  function ParseInt(s: string): Option<int>
  {
    if |s| >= 2 && s[0] == '-' && AllDigits(s[1..]) then Some(-(DigitsValue(s[1..]) as int))
    else if |s| >= 1 && AllDigits(s) then Some(DigitsValue(s))
    else None
  }

  /** `s.padStart(2, "0")`. */
  function PadStart2(s: string): string
  {
    if |s| >= 2 then s else if |s| == 1 then "0" + s else "00"
  }

  /** `padStart(2, "0")` keeps the text as a suffix and fills it on the left with zeros to length 2. */
  lemma PadStart2Pads(s: string)
    ensures var r := PadStart2(s);
            && |r| == (if |s| >= 2 then |s| else 2)
            && r[|r| - |s|..] == s
            && forall i :: 0 <= i < |r| - |s| ==> r[i] == '0'
  {
  }

  /** The date string of day `day` of the 0-based `month` of `year`. */
  function FormatDate(year: int, month: int, day: int): string
    requires 0 <= month < 12 && 1 <= day <= 31
  {
    IntToString(year) + "-" + PadStart2(NatToString(month + 1)) + "-" + PadStart2(NatToString(day))
  }

  /**
   * Reads a string of the form Y-MM-DD, where Y is an optional minus sign and
   * digits and MM and DD are two digits each, as (year, month, day) with the
   * month 1-based as written.
   */
  function ParseDate(s: string): Option<(int, int, int)>
  {
    if |s| >= 7 && s[|s| - 6] == '-' && s[|s| - 3] == '-'
       && AllDigits(s[|s| - 5..|s| - 3]) && AllDigits(s[|s| - 2..])
    then
      match ParseInt(s[..|s| - 6])
      case Some(y) => Some((y, DigitsValue(s[|s| - 5..|s| - 3]), DigitsValue(s[|s| - 2..])))
      case None => None
    else None
  }

  /**
   * The sort key of a date string: earlier dates have smaller keys. A string that
   * does not read as a date has no key.
   */
  function DateKey(s: string): Option<int>
  {
    match ParseDate(s)
    case Some((y, m, d)) => Some(y * 10000 + m * 100 + d)
    case None => None
  }

  /** Ordering of keys: a missing key comes before every present one. */
  predicate KeyLe(a: Option<int>, b: Option<int>)
  {
    match a
    case None => true
    case Some(x) => b.Some? && x <= b.value
  }

  /** The digits written for `n` read back as `n`. */
  lemma {:induction false} NatToStringRoundTrip(n: nat)
    ensures AllDigits(NatToString(n)) && DigitsValue(NatToString(n)) == n
  {
    var s := NatToString(n);
    NatToStringDigits(n);
    if n >= 10 {
      NatToStringRoundTrip(n / 10);
      assert s[..|s| - 1] == NatToString(n / 10);
    }
  }

  /** Reading back the written year gives the year. */
  lemma {:induction false} IntToStringRoundTrip(n: int)
    ensures ParseInt(IntToString(n)) == Some(n)
  {
    var s := IntToString(n);
    if n < 0 {
      NatToStringRoundTrip(-n);
      assert s[1..] == NatToString(-n);
    } else {
      NatToStringRoundTrip(n);
    }
  }

  /** A number below 100, written and padded to two places, reads back as that number. */
  lemma {:induction false} PaddedRoundTrip(n: nat)
    requires n < 100
    ensures |PadStart2(NatToString(n))| == 2
    ensures AllDigits(PadStart2(NatToString(n)))
    ensures DigitsValue(PadStart2(NatToString(n))) == n
  {
    var t := NatToString(n);
    var p := PadStart2(t);
    NatToStringRoundTrip(n);
    NatToStringDigits(n);
    if n < 10 {
      assert p == ['0', t[0]];
      assert p[..1] == ['0'];
      assert t[..0] == [];
    }
  }

  /** The date string reads back as the year, the 1-based month and the day it was written from. */
  lemma {:induction false} DateRoundTrip(year: int, month: int, day: int)
    requires 0 <= month < 12 && 1 <= day <= 31
    ensures ParseDate(FormatDate(year, month, day)) == Some((year, month + 1, day))
  {
    PaddedRoundTrip(month + 1);
    PaddedRoundTrip(day);
    IntToStringRoundTrip(year);
    ParseJoined(IntToString(year), PadStart2(NatToString(month + 1)), PadStart2(NatToString(day)), year);
  }

  /** Reading a string assembled as year, dash, two digits, dash, two digits. */
  lemma {:induction false} ParseJoined(y: string, mm: string, dd: string, year: int)
    requires ParseInt(y) == Some(year)
    requires |mm| == 2 && |dd| == 2 && AllDigits(mm) && AllDigits(dd)
    ensures ParseDate(y + "-" + mm + "-" + dd) == Some((year, DigitsValue(mm), DigitsValue(dd)))
  {
    var tail := "-" + mm + "-" + dd;
    assert |tail| == 6 && tail[0] == '-' && tail[3] == '-';
    assert tail[1..3] == mm && tail[4..] == dd;
    assert y + "-" + mm + "-" + dd == y + tail;
    SuffixSlices(y, tail);
  }

  /** Slices of `a + b` taken from its end fall inside `b`. */
  lemma {:induction false} SuffixSlices(a: string, b: string)
    requires |b| == 6
    ensures (a + b)[..|a + b| - 6] == a
    ensures (a + b)[|a + b| - 6] == b[0] && (a + b)[|a + b| - 3] == b[3]
    ensures (a + b)[|a + b| - 5..|a + b| - 3] == b[1..3]
    ensures (a + b)[|a + b| - 2..] == b[4..]
  {
  }

  /** Within one month, a later day has a strictly larger sort key. */
  lemma {:induction false} DateKeyIncreasing(year: int, month: int, d1: int, d2: int)
    requires 0 <= month < 12 && 1 <= d1 < d2 <= 31
    ensures DateKey(FormatDate(year, month, d1)).Some?
    ensures DateKey(FormatDate(year, month, d2)).Some?
    ensures DateKey(FormatDate(year, month, d1)).value < DateKey(FormatDate(year, month, d2)).value
  {
    DateRoundTrip(year, month, d1);
    DateRoundTrip(year, month, d2);
  }

  /** Distinct dates are written as distinct strings, so entries keyed by date string do not collide. */
  lemma {:induction false} FormatDateInjective(y1: int, m1: int, d1: int, y2: int, m2: int, d2: int)
    requires 0 <= m1 < 12 && 1 <= d1 <= 31 && 0 <= m2 < 12 && 1 <= d2 <= 31
    requires FormatDate(y1, m1, d1) == FormatDate(y2, m2, d2)
    ensures y1 == y2 && m1 == m2 && d1 == d2
  {
    DateRoundTrip(y1, m1, d1);
    DateRoundTrip(y2, m2, d2);
  }
}
