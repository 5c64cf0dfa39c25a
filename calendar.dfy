/**
 * The Gregorian calendar arithmetic that the roster generator obtains from the
 * JavaScript Date object: `new Date(year, month + 1, 0).getDate()` (the number of
 * days in a month) and `new Date(year, month, day).getDay()` (the weekday).
 * Months are 0-based as in JavaScript; weekdays run from 0 (Sunday) to 6 (Saturday).
 */
module Calendar {

  /**
   * The Date constructor reads a year argument in 0..99 as a year of the twentieth
   * century (1900 + year); every other year is taken as it is.
   */
  function JsFullYear(year: int): int
  {
    if 0 <= year <= 99 then 1900 + year else year
  }

  predicate IsLeapYear(y: int)
  {
    y % 4 == 0 && (y % 100 != 0 || y % 400 == 0)
  }

  /**
   * Days from a fixed epoch up to March 1 of year `y`: the running total over every
   * March-based year, each ending in February, up to the one that ends in February of `y`.
   */
  function YearDays(y: int): int
  {
    365 * y + y / 4 - y / 100 + y / 400
  }

  /**
   * A running day number of the date `day` of the 1-based month `m` of year `y`
   * (proleptic Gregorian, years counted from March so that the leap day ends a year).
   * Consecutive dates have consecutive numbers; `day` may lie outside the month.
   */
  function DayNumber(y: int, m: int, day: int): int
    requires 1 <= m <= 12
  {
    var ym := if m <= 2 then y - 1 else y;
    var mp := if m >= 3 then m - 3 else m + 9;
    YearDays(ym) + MarchOffset(mp) + day - 1
  }

  /** Number of days in the 0-based `month` of year `y`. */
  function DaysInMonth(y: int, month: int): (n: int)
    requires 0 <= month < 12
    ensures 28 <= n <= 31
    ensures n == 29 <==> month == 1 && IsLeapYear(y)
  {
    if month == 1 then (if IsLeapYear(y) then 29 else 28)
    else if month == 3 || month == 5 || month == 8 || month == 10 then 30
    else 31
  }

  /** Weekday (0 = Sunday) of the date `day` of the 0-based `month` of year `y`. */
  function DayOfWeek(y: int, month: int, day: int): (w: int)
    requires 0 <= month < 12
    ensures 0 <= w < 7
  {
    (DayNumber(y, month + 1, day) + 3) % 7
  }

  /** `new Date(year, month + 1, 0).getDate()`: the length of `month` of the year the constructor reads. */
  function MonthLength(year: int, month: int): (n: int)
    requires 0 <= month < 12
    ensures 28 <= n <= 31
  {
    DaysInMonth(JsFullYear(year), month)
  }

  /**
   * `new Date(year, month, day).getDay()`, counted on from the weekday of the first
   * of the month (WeekdayIsDayOfWeek shows it is the weekday of the date itself).
   */
  function Weekday(year: int, month: int, day: int): (w: int)
    requires 0 <= month < 12
    ensures 0 <= w < 7
  {
    (FirstWeekday(year, month) + day - 1) % 7
  }

  /** `new Date(year, month, 1).getDay()`. */
  function FirstWeekday(year: int, month: int): (w: int)
    requires 0 <= month < 12
    ensures 0 <= w < 7
  {
    DayOfWeek(JsFullYear(year), month, 1)
  }

  /** The weekday of every date is the one its day number gives. */
  lemma {:induction false} WeekdayIsDayOfWeek(year: int, month: int, day: int)
    requires 0 <= month < 12
    ensures Weekday(year, month, day) == DayOfWeek(JsFullYear(year), month, day)
  {
    var y := JsFullYear(year);
    var n := DayNumber(y, month + 1, 1) + 3;
    assert DayNumber(y, month + 1, day) + 3 == n + (day - 1);
    var q, r := n / 7, n % 7;
    var q2, r2 := (r + day - 1) / 7, (r + day - 1) % 7;
    assert n + (day - 1) == 7 * (q + q2) + r2;
    ModUnique(n + (day - 1), 7, q + q2, r2);
  }

  /** One step of floor division by a positive constant. */
  lemma {:induction false} DivStep(z: int, k: int)
    requires k == 4 || k == 100 || k == 400
    ensures z / k - (z - 1) / k == if z % k == 0 then 1 else 0
  {
    var q, r := z / k, z % k;
    assert z == k * q + r && 0 <= r < k;
    if r == 0 {
      assert z - 1 == k * (q - 1) + (k - 1);
    } else {
      assert z - 1 == k * q + (r - 1);
    }
  }

  /** Euclidean division leaves a unique remainder: `x = n * q + r` with `0 <= r < n` fixes `x % n`. */
  lemma {:induction false} ModUnique(x: int, n: int, q: int, r: int)
    requires n > 0 && 0 <= r < n && x == n * q + r
    ensures x % n == r
  {
    var q', r' := x / n, x % n;
    assert n * (q - q') == r' - r;
    if q - q' >= 1 {
    } else if q - q' <= -1 {
    }
  }

  /** The year-length law behind the leap rule: a year has 366 days exactly when it is a leap year. */
  lemma {:induction false} YearLength(y: int)
    ensures YearDays(y) - YearDays(y - 1) == if IsLeapYear(y) then 366 else 365
  {
    DivStep(y, 4);
    DivStep(y, 100);
    DivStep(y, 400);
    assert YearDays(y) - YearDays(y - 1)
        == 365 + (y / 4 - (y - 1) / 4) - (y / 100 - (y - 1) / 100) + (y / 400 - (y - 1) / 400);
    if y % 400 == 0 {
      var q := y / 400;
      assert y == 400 * q;
      ModUnique(y, 100, 4 * q, 0);
      ModUnique(y, 4, 100 * q, 0);
    } else if y % 100 == 0 {
      var q := y / 100;
      assert y == 100 * q;
      ModUnique(y, 4, 25 * q, 0);
    }
  }

  /**
   * Day 0 of the next month is the last day of this month, which is what
   * `new Date(year, month + 1, 0).getDate()` relies on: the first day of the next
   * month comes exactly DaysInMonth days after the first day of this one.
   */
  lemma {:induction false} DaysInMonthSpansMonth(y: int, month: int)
    requires 0 <= month < 12
    ensures DayNumber(NextMonthYear(y, month), NextMonth(month) + 1, 1) == DayNumber(y, month + 1, 1) + DaysInMonth(y, month)
  {
    if month == 1 {
      YearLength(y);
    } else if month == 11 {
      MonthStep(y, 11, 31);
    } else {
      MonthStep(y, month, DaysInMonth(y, month));
    }
  }

  /** The month after the 0-based `month`, and the year it falls in. */
  function NextMonth(month: int): int
  {
    if month == 11 then 0 else month + 1
  }

  function NextMonthYear(y: int, month: int): int
  {
    if month == 11 then y + 1 else y
  }

  /** Days from March 1 to the first day of the `k`-th month counted from March. */
  function MarchOffset(k: int): int
  {
    (153 * k + 2) / 5
  }

  /** Month lengths as the March-based day numbering sees them, one month at a time. */
  lemma {:induction false} MonthStep(y: int, month: int, n: int)
    requires 0 <= month < 12 && month != 1
    requires n == DaysInMonth(y, month)
    ensures DayNumber(NextMonthYear(y, month), NextMonth(month) + 1, 1) == DayNumber(y, month + 1, 1) + n
  {
    if month == 0 { assert MarchOffset(11) - MarchOffset(10) == 31; }
    else if month == 2 { assert MarchOffset(1) - MarchOffset(0) == 31; }
    else if month == 3 { assert MarchOffset(2) - MarchOffset(1) == 30; }
    else if month == 4 { assert MarchOffset(3) - MarchOffset(2) == 31; }
    else if month == 5 { assert MarchOffset(4) - MarchOffset(3) == 30; }
    else if month == 6 { assert MarchOffset(5) - MarchOffset(4) == 31; }
    else if month == 7 { assert MarchOffset(6) - MarchOffset(5) == 31; }
    else if month == 8 { assert MarchOffset(7) - MarchOffset(6) == 30; }
    else if month == 9 { assert MarchOffset(8) - MarchOffset(7) == 31; }
    else if month == 10 { assert MarchOffset(9) - MarchOffset(8) == 30; }
    else { assert MarchOffset(10) - MarchOffset(9) == 31; }
  }

  /** The weekday advances by one, cyclically, from each day to the next. */
  lemma {:induction false} NextDayWeekday(y: int, month: int, day: int)
    requires 0 <= month < 12
    ensures DayOfWeek(y, month, day + 1) == (DayOfWeek(y, month, day) + 1) % 7
  {
    var n := DayNumber(y, month + 1, day) + 3;
    assert DayNumber(y, month + 1, day + 1) + 3 == n + 1;
    Mod7Succ(n);
  }

  lemma {:induction false} Mod7Succ(x: int)
    ensures (x % 7 + 1) % 7 == (x + 1) % 7
  {
    var q, r := x / 7, x % 7;
    if r < 6 {
      ModUnique(x + 1, 7, q, r + 1);
    } else {
      ModUnique(x + 1, 7, q + 1, 0);
    }
  }

  /** February 2026 has 28 days and begins on a Sunday. */
  lemma {:induction false} February2026()
    ensures MonthLength(2026, 1) == 28
    ensures Weekday(2026, 1, 1) == 0
  {
  }
}
