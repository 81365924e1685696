/**
 * Calendar dates as the event list reads them: a `YYYY-MM-DD` text is split on
 * '-', each part is read as a decimal integer, and the three numbers are handed
 * to the Date constructor with the month made 0-based. The Date constructor is
 * modelled after the day arithmetic of ECMA-262 (MakeDay, DayFromYear,
 * section 21.4.1 of the 2023 edition), so an out-of-range month or day rolls
 * over exactly as it does there. Instants are milliseconds on the local
 * time line.
 */
module Dates {

  /** Milliseconds in one day (msPerDay). */
  const MS_PER_DAY := 86_400_000

  predicate IsDigit(c: char) {
    '0' <= c <= '9'
  }

  predicate AllDigits(p: string) {
    forall i :: 0 <= i < |p| ==> IsDigit(p[i])
  }

  /** Ten characters: four digits, '-', two digits, '-', two digits. */
  predicate IsoShaped(s: string) {
    |s| == 10 && s[4] == '-' && s[7] == '-' &&
    forall i :: 0 <= i < 10 && i != 4 && i != 7 ==> IsDigit(s[i])
  }

  /** The date strings of the event data. */
  type IsoDate = s: string | IsoShaped(s) witness "1970-01-01"

  // ---------------------------------------------------------------------------
  // String.prototype.split with a one-character separator

  /** The parts of `s` between occurrences of `sep`, as `s.split(sep)` gives them. */
  function Split(s: string, sep: char): (parts: seq<string>)
    ensures |parts| >= 1
  {
    if |s| == 0 then [""]
    else
      var rest := Split(s[1..], sep);
      if s[0] == sep then [""] + rest
      else [[s[0]] + rest[0]] + rest[1..]
  }

  /** The parts glued back together with `sep` between them. */
  function Join(parts: seq<string>, sep: char): string
  {
    if |parts| == 0 then ""
    else if |parts| == 1 then parts[0]
    else parts[0] + [sep] + Join(parts[1..], sep)
  }

  /** Splitting loses nothing: joining the parts gives back the text, and no part holds the separator. */
  lemma {:induction false} SplitJoin(s: string, sep: char)
    ensures Join(Split(s, sep), sep) == s
    ensures forall p :: p in Split(s, sep) ==> sep !in p
  {
    if |s| > 0 {
      var rest := Split(s[1..], sep);
      SplitJoin(s[1..], sep);
      assert s == [s[0]] + s[1..];
      if s[0] != sep {
        if |rest| > 1 {
          assert Join(rest, sep) == rest[0] + [sep] + Join(rest[1..], sep);
          assert Split(s, sep)[1..] == rest[1..];
        }
        forall p | p in Split(s, sep) ensures sep !in p {
          if p != [s[0]] + rest[0] {
            assert p in rest[1..];
          }
        }
      }
    }
  }

  lemma {:induction false} SplitWithout(p: string, sep: char)
    requires sep !in p
    ensures Split(p, sep) == [p]
  {
    if |p| > 0 {
      SplitWithout(p[1..], sep);
      assert [p[0]] + p[1..] == p;
    }
  }

  lemma {:induction false} SplitFirst(p: string, sep: char, rest: string)
    requires sep !in p
    ensures Split(p + [sep] + rest, sep) == [p] + Split(rest, sep)
  {
    if |p| == 0 {
      assert p + [sep] + rest == [sep] + rest;
      assert ([sep] + rest)[1..] == rest;
    } else {
      SplitFirst(p[1..], sep, rest);
      assert (p + [sep] + rest)[1..] == p[1..] + [sep] + rest;
      assert [p[0]] + p[1..] == p;
    }
  }

  /** A `YYYY-MM-DD` text splits into exactly its year, month and day parts. */
  lemma SplitIso(s: IsoDate)
    ensures Split(s, '-') == [s[..4], s[5..7], s[8..]]
  {
    assert '-' !in s[..4] by {
      forall i | 0 <= i < 4 ensures s[..4][i] != '-' { assert IsDigit(s[i]); }
    }
    assert '-' !in s[5..7] by {
      forall i | 0 <= i < 2 ensures s[5..7][i] != '-' { assert IsDigit(s[5 + i]); }
    }
    assert '-' !in s[8..] by {
      forall i | 0 <= i < 2 ensures s[8..][i] != '-' { assert IsDigit(s[8 + i]); }
    }
    assert s == s[..4] + ['-'] + (s[5..7] + ['-'] + s[8..]);
    assert s[5..] == s[5..7] + ['-'] + s[8..];
    SplitFirst(s[..4], '-', s[5..]);
    SplitFirst(s[5..7], '-', s[8..]);
    SplitWithout(s[8..], '-');
  }

  // ---------------------------------------------------------------------------
  // parseInt on a run of decimal digits

  function DigitValue(c: char): nat
    requires IsDigit(c)
  {
    c as int - '0' as int
  }

  /** 10 to the power `k`. */
  function Pow10(k: nat): nat {
    if k == 0 then 1 else 10 * Pow10(k - 1)
  }

  /**
   * The number a run of decimal digits denotes (leading zeros allowed); `k`
   * digits spell a number below 10^k.
   */
  function DigitsValue(p: string): (n: nat)
    requires AllDigits(p)
    ensures n < Pow10(|p|)
  {
    if |p| == 0 then 0
    else 10 * DigitsValue(p[..|p| - 1]) + DigitValue(p[|p| - 1])
  }

  lemma DigitsValueOfTwo(p: string)
    requires |p| == 2 && AllDigits(p)
    ensures DigitsValue(p) == 10 * DigitValue(p[0]) + DigitValue(p[1])
  {
    assert DigitsValue(p[..1][..0]) == 0;
  }

  lemma DigitsValueOfFour(p: string)
    requires |p| == 4 && AllDigits(p)
    ensures DigitsValue(p) ==
            1000 * DigitValue(p[0]) + 100 * DigitValue(p[1]) + 10 * DigitValue(p[2]) + DigitValue(p[3])
  {
    DigitsValueOfTwo(p[..2]);
    assert p[..3][..2] == p[..2];
  }

  /** The numbers a `YYYY-MM-DD` text spells out, digit by digit. */
  lemma FieldsOf(s: IsoDate)
    ensures YearText(s) ==
            1000 * DigitValue(s[0]) + 100 * DigitValue(s[1]) + 10 * DigitValue(s[2]) + DigitValue(s[3])
    ensures MonthText(s) == 10 * DigitValue(s[5]) + DigitValue(s[6])
    ensures DayText(s) == 10 * DigitValue(s[8]) + DigitValue(s[9])
  {
    assert IsDigit(s[0]) && IsDigit(s[1]) && IsDigit(s[2]) && IsDigit(s[3]);
    assert IsDigit(s[5]) && IsDigit(s[6]) && IsDigit(s[8]) && IsDigit(s[9]);
    DigitsValueOfFour(s[..4]);
    DigitsValueOfTwo(s[5..7]);
    DigitsValueOfTwo(s[8..]);
  }

  /** The year, month and day numbers written in a `YYYY-MM-DD` text. */
  function YearText(s: IsoDate): (year: nat)
    ensures year <= 9999
  {
    assert AllDigits(s[..4]) by { forall i | 0 <= i < 4 ensures IsDigit(s[..4][i]) { assert IsDigit(s[i]); } }
    assert Pow10(4) == 10000;
    DigitsValue(s[..4])
  }

  function MonthText(s: IsoDate): (month: nat)
    ensures month <= 99
  {
    assert AllDigits(s[5..7]) by { forall i | 0 <= i < 2 ensures IsDigit(s[5..7][i]) { assert IsDigit(s[5 + i]); } }
    assert Pow10(2) == 100;
    DigitsValue(s[5..7])
  }

  function DayText(s: IsoDate): (day: nat)
    ensures day <= 99
  {
    assert AllDigits(s[8..]) by { forall i | 0 <= i < 2 ensures IsDigit(s[8..][i]) { assert IsDigit(s[8 + i]); } }
    assert Pow10(2) == 100;
    DigitsValue(s[8..])
  }

  // ---------------------------------------------------------------------------
  // The Date constructor: year/month/day arithmetic of ECMA-262

  predicate IsLeapYear(y: int) {
    y % 4 == 0 && (y % 100 != 0 || y % 400 == 0)
  }

  function DaysInYear(y: int): int {
    if IsLeapYear(y) then 366 else 365
  }

  /** Day number (days since 1970-01-01) of January 1 of year `y`. */
  function DayFromYear(y: int): int {
    365 * (y - 1970) + (y - 1969) / 4 - (y - 1901) / 100 + (y - 1601) / 400
  }

  /** Days in month `m` (0-based) of a common or a leap year. */
  function DaysInMonth(m: int, leap: bool): int
    requires 0 <= m < 12
  {
    if m == 1 then (if leap then 29 else 28)
    else if m == 3 || m == 5 || m == 8 || m == 10 then 30
    else 31
  }

  /** Days of the year before the first day of month `m` (0-based): the lengths of the months before it. */
  function DaysBeforeMonth(m: int, leap: bool): int
    requires 0 <= m < 12
  {
    if m == 0 then 0 else DaysBeforeMonth(m - 1, leap) + DaysInMonth(m - 1, leap)
  }

  /**
   * MakeDay(year, month, date): the day number of day `date` of month `month`
   * (0-based) of `year`. A month outside 0..11 moves whole years first, and
   * `date` counts on from the first of the month without a bound, so day 0 is
   * the last day of the month before.
   */
  function MakeDay(year: int, month: int, date: int): int {
    var ym := year + month / 12;
    var mn := month % 12;
    DayFromYear(ym) + DaysBeforeMonth(mn, IsLeapYear(ym)) + date - 1
  }

  /**
   * A date that exists in its month lands inside the year left after whole
   * years are moved out of the month index.
   */
  lemma MakeDayInItsYear(year: int, month: int, date: int)
    ensures var ym := year + month / 12;
            1 <= date <= DaysInMonth(month % 12, IsLeapYear(ym)) ==>
            DayFromYear(ym) <= MakeDay(year, month, date) < DayFromYear(ym + 1)
  {
    var ym, mn := year + month / 12, month % 12;
    if 1 <= date <= DaysInMonth(mn, IsLeapYear(ym)) {
      DayWithinYear(ym, mn + 1, date);
      YearStep(ym);
    }
  }

  /** Twelve months more is one year later: a month index of 12 or more, or below 0, moves whole years. */
  lemma MonthsMoveYears(y: int, m: int, d: int)
    ensures MakeDay(y, m + 12, d) == MakeDay(y + 1, m, d)
  {
    assert (m + 12) / 12 == m / 12 + 1 && (m + 12) % 12 == m % 12;
  }

  /** The date counts on from the first of the month, with no bound in either direction. */
  lemma DateCountsOn(y: int, m: int, d: int)
    ensures MakeDay(y, m, d) == MakeDay(y, m, 1) + d - 1
  {
  }

  /** The Date constructor reads a year argument 0..99 as 1900..1999. */
  function FullYear(y: int): (full: int)
    ensures 0 <= y <= 99 ==> 1900 <= full <= 1999 && full % 100 == y
    ensures !(0 <= y <= 99) ==> full == y
  {
    if 0 <= y <= 99 then 1900 + y else y
  }

  /** `new Date(year, monthIndex, day).getTime()`: local midnight of that day. */
  function NewDate(year: int, monthIndex: int, day: int): (t: int)
    ensures t % MS_PER_DAY == 0
  {
    var n := MakeDay(FullYear(year), monthIndex, day);
    WholeDays(n);
    n * MS_PER_DAY
  }

  lemma WholeDays(n: int)
    ensures (n * MS_PER_DAY) % MS_PER_DAY == 0
  {
    assert n * MS_PER_DAY == MS_PER_DAY * n + 0;
  }

  /**
   * dateParse: split the text on '-', read the three parts as integers and
   * build the Date with the month made 0-based.
   */
  function DateParse(s: IsoDate): (t: int)
    ensures t == NewDate(YearText(s), MonthText(s) - 1, DayText(s))
  {
    SplitIso(s);
    var parts := Split(s, '-');
    NewDate(DigitsValue(parts[0]), DigitsValue(parts[1]) - 1, DigitsValue(parts[2]))
  }

  // ---------------------------------------------------------------------------
  // Properties of the day arithmetic

  /** The day after the last day of a month is the first day of the next month. */
  lemma MonthRollsOver(y: int, m: int)
    requires 0 <= m < 12
    ensures MakeDay(y, m, DaysInMonth(m, IsLeapYear(y)) + 1) ==
            (if m < 11 then MakeDay(y, m + 1, 1) else MakeDay(y + 1, 0, 1))
  {
    var leap := IsLeapYear(y);
    MakeDayInYear(y, m, DaysInMonth(m, leap) + 1);
    if m < 11 {
      MakeDayInYear(y, m + 1, 1);
      assert DaysBeforeMonth(m + 1, leap) == DaysBeforeMonth(m, leap) + DaysInMonth(m, leap);
    } else {
      MakeDayInYear(y + 1, 0, 1);
      MonthsMakeYear(y);
      YearStep(y);
    }
  }

  /** The leap-day count `(y - 1969) / 4` steps up by one exactly after a year divisible by 4. */
  lemma FourYearStep(y: int)
    ensures (y + 1 - 1969) / 4 == (y - 1969) / 4 + (if y % 4 == 0 then 1 else 0)
  {
    var q, r := y / 4, y % 4;
    assert y == 4 * q + r && 0 <= r < 4;
    if r == 0 {
      assert y - 1968 == 4 * (q - 492) && y - 1969 == 4 * (q - 493) + 3;
    } else {
      assert y - 1968 == 4 * (q - 492) + r && y - 1969 == 4 * (q - 492) + (r - 1);
    }
  }

  lemma CenturyStep(y: int)
    ensures (y + 1 - 1901) / 100 == (y - 1901) / 100 + (if y % 100 == 0 then 1 else 0)
  {
    var q, r := y / 100, y % 100;
    assert y == 100 * q + r && 0 <= r < 100;
    if r == 0 {
      assert y - 1900 == 100 * (q - 19) && y - 1901 == 100 * (q - 20) + 99;
    } else {
      assert y - 1900 == 100 * (q - 19) + r && y - 1901 == 100 * (q - 19) + (r - 1);
    }
  }

  lemma QuadCenturyStep(y: int)
    ensures (y + 1 - 1601) / 400 == (y - 1601) / 400 + (if y % 400 == 0 then 1 else 0)
  {
    var q, r := y / 400, y % 400;
    assert y == 400 * q + r && 0 <= r < 400;
    if r == 0 {
      assert y - 1600 == 400 * (q - 4) && y - 1601 == 400 * (q - 5) + 399;
    } else {
      assert y - 1600 == 400 * (q - 4) + r && y - 1601 == 400 * (q - 4) + (r - 1);
    }
  }

  /** A year's length counts the leap day by the three rules separately. */
  lemma LeapDayCount(y: int)
    ensures DaysInYear(y) ==
            365 + (if y % 4 == 0 then 1 else 0) - (if y % 100 == 0 then 1 else 0) + (if y % 400 == 0 then 1 else 0)
  {
    if y % 400 == 0 {
      assert y == 100 * (4 * (y / 400));
    }
    if y % 100 == 0 {
      assert y == 4 * (25 * (y / 100));
    }
  }

  /** Consecutive years are `DaysInYear` apart. */
  lemma YearStep(y: int)
    ensures DayFromYear(y + 1) == DayFromYear(y) + DaysInYear(y)
  {
    FourYearStep(y);
    CenturyStep(y);
    QuadCenturyStep(y);
    LeapDayCount(y);
  }

  /** Every day of an earlier year comes before every day of a later year. */
  lemma {:induction false} YearsInOrder(y1: int, y2: int)
    requires y1 < y2
    ensures DayFromYear(y1) + DaysInYear(y1) <= DayFromYear(y2)
    decreases y2 - y1
  {
    YearStep(y1);
    if y1 + 1 < y2 {
      YearsInOrder(y1 + 1, y2);
    }
  }

  /** A real calendar date, month 1-based: the month and day exist in that year. */
  predicate IsCalendarDay(y: int, month: int, day: int) {
    1 <= month <= 12 && 1 <= day <= DaysInMonth(month - 1, IsLeapYear(y))
  }

  /** Year, month, day in the usual order: (y1, m1, d1) comes strictly before (y2, m2, d2). */
  predicate FieldsBefore(y1: int, m1: int, d1: int, y2: int, m2: int, d2: int) {
    y1 < y2 || (y1 == y2 && (m1 < m2 || (m1 == m2 && d1 < d2)))
  }

  /** Within a year, MakeDay is the year start plus the days before the month. */
  lemma MakeDayInYear(y: int, m: int, d: int)
    requires 0 <= m < 12
    ensures MakeDay(y, m, d) == DayFromYear(y) + DaysBeforeMonth(m, IsLeapYear(y)) + d - 1
  {
    assert m / 12 == 0 && m % 12 == m;
  }

  /** December ends the year: the months of a year add up to its length. */
  lemma MonthsMakeYear(y: int)
    ensures DaysBeforeMonth(11, IsLeapYear(y)) + DaysInMonth(11, IsLeapYear(y)) == DaysInYear(y)
  {
    if IsLeapYear(y) {
      assert DaysBeforeMonth(11, true) == 335;
    } else {
      assert DaysBeforeMonth(11, false) == 334;
    }
  }

  lemma {:induction false} BeforeMonthGrows(m1: int, m2: int, leap: bool)
    requires 0 <= m1 <= m2 < 12
    ensures DaysBeforeMonth(m1, leap) <= DaysBeforeMonth(m2, leap)
    decreases m2 - m1
  {
    if m1 < m2 {
      BeforeMonthGrows(m1, m2 - 1, leap);
      assert DaysBeforeMonth(m2, leap) == DaysBeforeMonth(m2 - 1, leap) + DaysInMonth(m2 - 1, leap);
    }
  }

  /** Within its year, a real calendar day falls on day 0 .. length - 1. */
  lemma DayOfYearBounds(month: int, day: int, leap: bool)
    requires 1 <= month <= 12 && 1 <= day <= DaysInMonth(month - 1, leap)
    ensures 0 <= DaysBeforeMonth(month - 1, leap) + day - 1
    ensures DaysBeforeMonth(month - 1, leap) + day - 1 < DaysBeforeMonth(11, leap) + DaysInMonth(11, leap)
  {
    BeforeMonthGrows(0, month - 1, leap);
    if month < 12 {
      BeforeMonthGrows(month, 11, leap);
      assert DaysBeforeMonth(month, leap) == DaysBeforeMonth(month - 1, leap) + DaysInMonth(month - 1, leap);
    }
  }

  /** The day number of a real calendar date, month 1-based: its year's start plus its day of the year. */
  function CalendarDay(y: int, month: int, day: int): int
    requires 1 <= month <= 12
  {
    DayFromYear(y) + DaysBeforeMonth(month - 1, IsLeapYear(y)) + day - 1
  }

  lemma DayWithinYear(y: int, month: int, day: int)
    requires IsCalendarDay(y, month, day)
    ensures DayFromYear(y) <= CalendarDay(y, month, day) < DayFromYear(y) + DaysInYear(y)
  {
    MonthsMakeYear(y);
    DayOfYearBounds(month, day, IsLeapYear(y));
  }

  /** Within one year, a day of an earlier month comes before every day of a later month. */
  lemma MonthsInOrder(m1: int, d1: int, m2: int, d2: int, leap: bool)
    requires 1 <= m1 < m2 <= 12 && 1 <= d1 <= DaysInMonth(m1 - 1, leap) && 1 <= d2
    ensures DaysBeforeMonth(m1 - 1, leap) + d1 < DaysBeforeMonth(m2 - 1, leap) + d2
  {
    assert DaysBeforeMonth(m1, leap) == DaysBeforeMonth(m1 - 1, leap) + DaysInMonth(m1 - 1, leap);
    BeforeMonthGrows(m1, m2 - 1, leap);
  }

  /**
   * On real calendar dates the day number is strictly increasing in the
   * (year, month, day) order, so two dates are the same day exactly when
   * their fields agree.
   */
  lemma CalendarDayOrder(y1: int, m1: int, d1: int, y2: int, m2: int, d2: int)
    requires IsCalendarDay(y1, m1, d1) && IsCalendarDay(y2, m2, d2)
    ensures CalendarDay(y1, m1, d1) < CalendarDay(y2, m2, d2) <==> FieldsBefore(y1, m1, d1, y2, m2, d2)
    ensures CalendarDay(y1, m1, d1) == CalendarDay(y2, m2, d2) <==> (y1 == y2 && m1 == m2 && d1 == d2)
  {
    DayWithinYear(y1, m1, d1);
    DayWithinYear(y2, m2, d2);
    if y1 < y2 {
      YearsInOrder(y1, y2);
    } else if y2 < y1 {
      YearsInOrder(y2, y1);
    } else if m1 < m2 {
      MonthsInOrder(m1, d1, m2, d2, IsLeapYear(y1));
    } else if m2 < m1 {
      MonthsInOrder(m2, d2, m1, d1, IsLeapYear(y1));
    }
  }

  /** Equal-length digit runs with the same value are the same text. */
  lemma {:induction false} DigitsInjective(p: string, q: string)
    requires AllDigits(p) && AllDigits(q) && |p| == |q|
    requires DigitsValue(p) == DigitsValue(q)
    ensures p == q
  {
    if |p| > 0 {
      var n := |p| - 1;
      var p', q' := p[..n], q[..n];
      assert DigitsValue(p) == 10 * DigitsValue(p') + DigitValue(p[n]);
      assert DigitsValue(q) == 10 * DigitsValue(q') + DigitValue(q[n]);
      DecimalDigitsAgree(DigitsValue(p'), DigitValue(p[n]), DigitsValue(q'), DigitValue(q[n]));
      DigitsInjective(p', q');
      assert p == p' + [p[n]] && q == q' + [q[n]];
    }
  }

  /** A number is determined by its last decimal digit and the number the other digits spell. */
  lemma DecimalDigitsAgree(x1: int, d1: int, x2: int, d2: int)
    requires 0 <= d1 < 10 && 0 <= d2 < 10
    requires 10 * x1 + d1 == 10 * x2 + d2
    ensures x1 == x2 && d1 == d2
  {
  }

  /** A `YYYY-MM-DD` text is determined by the three numbers written in it. */
  lemma TextFromFields(a: IsoDate, b: IsoDate)
    requires YearText(a) == YearText(b) && MonthText(a) == MonthText(b) && DayText(a) == DayText(b)
    ensures a == b
  {
    DigitsInjective(a[..4], b[..4]);
    DigitsInjective(a[5..7], b[5..7]);
    DigitsInjective(a[8..], b[8..]);
    assert a == a[..4] + "-" + a[5..7] + "-" + a[8..];
    assert b == b[..4] + "-" + b[5..7] + "-" + b[8..];
  }

  lemma ScaledByDay(x: int, y: int)
    ensures x * MS_PER_DAY < y * MS_PER_DAY <==> x < y
    ensures x * MS_PER_DAY == y * MS_PER_DAY <==> x == y
  {
  }

  /** A `YYYY-MM-DD` text naming a day that exists, with a four-digit year of 100 or more. */
  predicate IsCalendarDate(s: IsoDate) {
    YearText(s) >= 100 && IsCalendarDay(YearText(s), MonthText(s), DayText(s))
  }

  /**
   * On real calendar dates with a year of 100 or more (`IsCalendarDate`),
   * parsed instants are ordered as the written (year, month, day) fields
   * are, and equal instants come only from equal fields.
   */
  lemma ParseOrder(a: IsoDate, b: IsoDate)
    requires IsCalendarDate(a) && IsCalendarDate(b)
    ensures DateParse(a) < DateParse(b) <==>
            FieldsBefore(YearText(a), MonthText(a), DayText(a), YearText(b), MonthText(b), DayText(b))
    ensures DateParse(a) == DateParse(b) <==> a == b
  {
    var da := CalendarDay(YearText(a), MonthText(a), DayText(a));
    var db := CalendarDay(YearText(b), MonthText(b), DayText(b));
    ParsedCalendarDay(a);
    ParsedCalendarDay(b);
    ScaledByDay(da, db);
    CalendarDayOrder(YearText(a), MonthText(a), DayText(a), YearText(b), MonthText(b), DayText(b));
    if da == db {
      TextFromFields(a, b);
    }
  }

  /** A real calendar date with a year of 100 or more parses to local midnight of its calendar day. */
  lemma ParsedCalendarDay(s: IsoDate)
    requires IsCalendarDate(s)
    ensures DateParse(s) == CalendarDay(YearText(s), MonthText(s), DayText(s)) * MS_PER_DAY
  {
    assert FullYear(YearText(s)) == YearText(s);
    MakeDayInYear(YearText(s), MonthText(s) - 1, DayText(s));
  }

  /**
   * A year written 0000..0099 is taken as 1900..1999: "00yy-MM-DD" and
   * "19yy-MM-DD" are the same instant.
   */
  lemma TwoDigitYearIs1900s(a: IsoDate, b: IsoDate)
    requires YearText(a) <= 99 && YearText(b) == 1900 + YearText(a)
    requires a[4..] == b[4..]
    ensures a != b && DateParse(a) == DateParse(b)
  {
    assert a[5..7] == b[5..7] by {
      assert a[5..7] == a[4..][1..3] && b[5..7] == b[4..][1..3];
    }
    assert a[8..] == b[8..] by {
      assert a[8..] == a[4..][4..] && b[8..] == b[4..][4..];
    }
    assert MonthText(a) == MonthText(b) && DayText(a) == DayText(b);
    assert FullYear(YearText(a)) == FullYear(YearText(b));
    assert DayNumber(a) == DayNumber(b);
  }

  /** The largest magnitude of a valid time value: 8.64e15 ms, 100,000,000 days each side of 1970. */
  const MAX_TIME := 8_640_000_000_000_000

  /**
   * No `YYYY-MM-DD` text leads to an invalid Date: whatever digits it holds,
   * the instant lies within the range TimeClip accepts.
   */
  lemma DateParseIsValidTime(s: IsoDate)
    ensures -MAX_TIME <= DateParse(s) <= MAX_TIME
  {
    MakeDayBounds(FullYear(YearText(s)), MonthText(s) - 1, DayText(s));
    assert DateParse(s) == DayNumber(s) * MS_PER_DAY;
  }

  /** The day numbers of a four-digit year, a two-digit month and a two-digit day stay within 100,000,000 days. */
  lemma MakeDayBounds(y: int, m: int, d: int)
    requires 0 <= y <= 9999 && -1 <= m <= 98 && 0 <= d <= 99
    ensures -100_000_000 <= MakeDay(y, m, d) <= 100_000_000
  {
    var ym := y + m / 12;
    assert -1 <= ym <= 10007;
    BeforeMonthGrows(0, m % 12, IsLeapYear(ym));
    BeforeMonthGrows(m % 12, 11, IsLeapYear(ym));
    assert DaysBeforeMonth(11, IsLeapYear(ym)) <= 335 by { MonthsMakeYear(ym); }
  }

  /** Day number of a date text: the parsed instant is local midnight of that day. */
  function DayNumber(s: IsoDate): (n: int)
    ensures DateParse(s) == n * MS_PER_DAY
  {
    MakeDay(FullYear(YearText(s)), MonthText(s) - 1, DayText(s))
  }

  /** The day numbers of the dates the worked example of the event list uses, counted from 1970-01-01. */
  lemma ExampleMakeDays()
    ensures MakeDay(2025, 0, 10) == 20098
    ensures MakeDay(2024, 0, 2) == 19724
    ensures MakeDay(2025, 2, 7) == 20154
    ensures MakeDay(2025, 1, 1) == 20120
  {
    Days2024();
    Days2025();
  }

  lemma Days2024()
    ensures MakeDay(2024, 0, 2) == 19724
  {
    assert DayFromYear(2024) == 19723;
    MakeDayInYear(2024, 0, 2);
  }

  lemma Days2025()
    ensures MakeDay(2025, 0, 10) == 20098
    ensures MakeDay(2025, 2, 7) == 20154
    ensures MakeDay(2025, 1, 1) == 20120
  {
    assert DayFromYear(2025) == 20089;
    assert !IsLeapYear(2025);
    assert DaysBeforeMonth(1, false) == 31 && DaysBeforeMonth(2, false) == 59;
    MakeDayInYear(2025, 0, 10);
    MakeDayInYear(2025, 1, 1);
    MakeDayInYear(2025, 2, 7);
  }

  /**
   * Two different texts can name the same day: "2024-02-30" rolls over past
   * 29 February 2024 to 1 March.
   */
  lemma RolledOverSameDay(a: IsoDate, b: IsoDate)
    requires a == "2024-02-30" && b == "2024-03-01"
    ensures a != b && DateParse(a) == DateParse(b)
  {
    DayNumberOfFeb30(a);
    DayNumberOfMar1(b);
    assert a[9] != b[9];
    LeapFebruaryRollsOver(2024);
  }

  /** In a leap year, 30 February is 1 March. */
  lemma LeapFebruaryRollsOver(y: int)
    requires IsLeapYear(y)
    ensures MakeDay(y, 1, 30) == MakeDay(y, 2, 1)
  {
    assert DaysInMonth(1, true) == 29;
    MonthRollsOver(y, 1);
  }

  lemma DayNumberOfFeb30(s: IsoDate)
    requires s == "2024-02-30"
    ensures DayNumber(s) == MakeDay(2024, 1, 30)
  {
    FieldsOf(s);
    assert s[0] == '2' && s[1] == '0' && s[2] == '2' && s[3] == '4';
    assert s[5] == '0' && s[6] == '2' && s[8] == '3' && s[9] == '0';
  }

  lemma DayNumberOfMar1(s: IsoDate)
    requires s == "2024-03-01"
    ensures DayNumber(s) == MakeDay(2024, 2, 1)
  {
    FieldsOf(s);
    assert s[0] == '2' && s[1] == '0' && s[2] == '2' && s[3] == '4';
    assert s[5] == '0' && s[6] == '3' && s[8] == '0' && s[9] == '1';
  }

  lemma DayNumberOfJan10(s: IsoDate)
    requires s == "2025-01-10"
    ensures DayNumber(s) == MakeDay(2025, 0, 10)
  {
    FieldsOf(s);
    assert s[0] == '2' && s[1] == '0' && s[2] == '2' && s[3] == '5';
    assert s[5] == '0' && s[6] == '1' && s[8] == '1' && s[9] == '0';
  }

  lemma DayNumberOfJan2(s: IsoDate)
    requires s == "2024-01-02"
    ensures DayNumber(s) == MakeDay(2024, 0, 2)
  {
    FieldsOf(s);
    assert s[0] == '2' && s[1] == '0' && s[2] == '2' && s[3] == '4';
    assert s[5] == '0' && s[6] == '1' && s[8] == '0' && s[9] == '2';
  }

  lemma DayNumberOfMar7(s: IsoDate)
    requires s == "2025-03-07"
    ensures DayNumber(s) == MakeDay(2025, 2, 7)
  {
    FieldsOf(s);
    assert s[0] == '2' && s[1] == '0' && s[2] == '2' && s[3] == '5';
    assert s[5] == '0' && s[6] == '3' && s[8] == '0' && s[9] == '7';
  }
}
