/**
 * Calendar days and months as the core uses them. A transaction's date is a
 * `YYYY-MM-DD` string; the core sorts such strings, slices their first seven
 * characters (`YYYY-MM`), tests prefixes, and subtracts their `Date.getTime()`
 * values in whole days. Here a date is a (year, month, day) triple; `DateText`
 * and `MonthText` give the strings, and the lemmas below show that each string
 * operation the core performs means what it is used for: string order is
 * chronological order, the seven-character prefix is the month, and a time
 * difference of one day is the calendar's next day.
 */
module Calendar {
  import opened Seqs

  datatype Date = Date(year: int, month: int, day: int)

  /** A `YYYY-MM` month key. */
  datatype Month = Month(year: int, month: int)

  predicate IsLeapYear(y: int) {
    y % 4 == 0 && (y % 100 != 0 || y % 400 == 0)
  }

  function DaysInMonth(y: int, m: int): (n: int)
    ensures 28 <= n <= 31
  {
    if m == 2 then (if IsLeapYear(y) then 29 else 28)
    else if m == 4 || m == 6 || m == 9 || m == 11 then 30
    else 31
  }

  function DaysInYear(y: int): int {
    if IsLeapYear(y) then 366 else 365
  }

  /** A day of the proleptic Gregorian calendar from year 0 on. */
  predicate IsCalendarDate(d: Date) {
    0 <= d.year && 1 <= d.month <= 12 && 1 <= d.day <= DaysInMonth(d.year, d.month)
  }

  /** A calendar day whose year has four digits, so that it has a `YYYY-MM-DD` form. */
  predicate IsIsoDate(d: Date) {
    IsCalendarDate(d) && d.year <= 9999
  }

  /** The dates a `YYYY-MM-DD` string can denote. */
  type IsoDate = d: Date | IsIsoDate(d) witness Date(1970, 1, 1)

  predicate IsIsoMonth(m: Month) {
    0 <= m.year <= 9999 && 1 <= m.month <= 12
  }

  function MonthOf(d: Date): (m: Month)
    ensures IsIsoDate(d) ==> IsIsoMonth(m)
  {
    Month(d.year, d.month)
  }

  /** Chronological order of dates. */
  predicate Before(a: Date, b: Date) {
    a.year < b.year ||
    (a.year == b.year && (a.month < b.month || (a.month == b.month && a.day < b.day)))
  }

  /** Chronological order of months. */
  predicate MonthBefore(a: Month, b: Month) {
    a.year < b.year || (a.year == b.year && a.month < b.month)
  }

  /** The calendar day after `d`. */
  function NextDay(d: Date): (e: Date)
    ensures IsCalendarDate(d) ==> IsCalendarDate(e) && Before(d, e)
  {
    if d.day < DaysInMonth(d.year, d.month) then Date(d.year, d.month, d.day + 1)
    else if d.month < 12 then Date(d.year, d.month + 1, 1)
    else Date(d.year + 1, 1, 1)
  }

  /** The day `n` days after `d`. */
  function AddDays(d: Date, n: nat): Date {
    if n == 0 then d else NextDay(AddDays(d, n - 1))
  }

  /** `S` holds the `k` consecutive calendar days starting at `d`. */
  predicate RunFrom(S: set<Date>, d: Date, k: nat) {
    forall i :: 0 <= i < k ==> AddDays(d, i) in S
  }

  /** `S` holds `k` consecutive calendar days: some day and the `k - 1` days after it. */
  predicate HasConsecutiveDays(S: set<Date>, k: nat) {
    exists d :: d in S && RunFrom(S, d, k)
  }

  // ---------------------------------------------------------------------------
  // Day numbers: what `new Date(s).getTime() / 86_400_000` measures for a
  // `YYYY-MM-DD` string s, which JavaScript reads as midnight UTC, up to a
  // constant offset. Here: days since 0000-01-01.

  function DaysBeforeYear(y: nat): nat {
    if y == 0 then 0 else DaysBeforeYear(y - 1) + DaysInYear(y - 1)
  }

  function DaysBeforeMonth(y: int, m: int): nat
    decreases m
  {
    if m <= 1 then 0 else DaysBeforeMonth(y, m - 1) + DaysInMonth(y, m - 1)
  }

  function DayNumber(d: Date): int
    requires IsCalendarDate(d)
  {
    DaysBeforeYear(d.year) + DaysBeforeMonth(d.year, d.month) + d.day - 1
  }

  lemma YearLength(y: int)
    ensures DaysBeforeMonth(y, 12) + DaysInMonth(y, 12) == DaysInYear(y)
  {
    assert DaysBeforeMonth(y, 2) == 31;
    assert DaysBeforeMonth(y, 3) == 31 + DaysInMonth(y, 2);
    assert DaysBeforeMonth(y, 4) == 62 + DaysInMonth(y, 2);
    assert DaysBeforeMonth(y, 5) == 92 + DaysInMonth(y, 2);
    assert DaysBeforeMonth(y, 6) == 123 + DaysInMonth(y, 2);
    assert DaysBeforeMonth(y, 7) == 153 + DaysInMonth(y, 2);
    assert DaysBeforeMonth(y, 8) == 184 + DaysInMonth(y, 2);
    assert DaysBeforeMonth(y, 9) == 215 + DaysInMonth(y, 2);
    assert DaysBeforeMonth(y, 10) == 245 + DaysInMonth(y, 2);
    assert DaysBeforeMonth(y, 11) == 276 + DaysInMonth(y, 2);
    assert DaysBeforeMonth(y, 12) == 306 + DaysInMonth(y, 2);
  }

  lemma {:induction false} MonthSpan(y: int, m1: int, m2: int)
    requires 1 <= m1 < m2
    ensures DaysBeforeMonth(y, m1) + DaysInMonth(y, m1) <= DaysBeforeMonth(y, m2)
    decreases m2
  {
    if m2 > m1 + 1 {
      MonthSpan(y, m1, m2 - 1);
    }
  }

  lemma {:induction false} YearSpan(y1: nat, y2: nat)
    requires y1 < y2
    ensures DaysBeforeYear(y1) + DaysInYear(y1) <= DaysBeforeYear(y2)
    decreases y2
  {
    if y2 > y1 + 1 {
      YearSpan(y1, y2 - 1);
    }
  }

  /** The day number of a date lies within its year's span of day numbers. */
  lemma DayOfYearBound(d: Date)
    requires IsCalendarDate(d)
    ensures DaysBeforeYear(d.year) <= DayNumber(d) < DaysBeforeYear(d.year) + DaysInYear(d.year)
  {
    YearLength(d.year);
    if d.month < 12 {
      MonthSpan(d.year, d.month, 12);
    }
  }

  /** Later dates have larger day numbers. */
  lemma DayNumberIncreasing(a: Date, b: Date)
    requires IsCalendarDate(a) && IsCalendarDate(b) && Before(a, b)
    ensures DayNumber(a) < DayNumber(b)
  {
    if a.year < b.year {
      DayOfYearBound(a);
      YearSpan(a.year, b.year);
    } else if a.month < b.month {
      MonthSpan(a.year, a.month, b.month);
    }
  }

  /** The next day is exactly one day number further. */
  lemma DayNumberNext(d: Date)
    requires IsCalendarDate(d)
    ensures DayNumber(NextDay(d)) == DayNumber(d) + 1
  {
    if d.day == DaysInMonth(d.year, d.month) && d.month == 12 {
      YearLength(d.year);
    }
  }

  /**
   * For two ordered calendar days, a day-number difference of exactly one means
   * the second is the next day after the first.
   */
  lemma DayStep(a: Date, b: Date)
    requires IsCalendarDate(a) && IsCalendarDate(b) && Before(a, b)
    ensures DayNumber(b) - DayNumber(a) == 1 <==> b == NextDay(a)
  {
    DayNumberNext(a);
    var n := NextDay(a);
    if b != n {
      if Before(b, n) {
        DayNumberIncreasing(b, n);
      } else {
        DayNumberIncreasing(n, b);
      }
    }
  }

  /** No calendar day lies strictly between a day and the next. */
  lemma NothingBetween(a: Date, c: Date)
    requires IsCalendarDate(a) && IsCalendarDate(c) && Before(a, c)
    ensures !Before(c, NextDay(a))
  {
    DayNumberNext(a);
    DayNumberIncreasing(a, c);
    if Before(c, NextDay(a)) {
      DayNumberIncreasing(c, NextDay(a));
    }
  }

  // ---------------------------------------------------------------------------
  // Text forms. `TextBefore` is lexicographic comparison of characters. For
  // strings whose characters are all at most U+FFFF (such as the ASCII date and
  // month strings) it is JavaScript's string `<`, the default order of
  // `Array.prototype.sort`, which compares UTF-16 code units.

  predicate TextBefore(s: string, t: string) {
    if s == [] then t != []
    else t != [] && (s[0] < t[0] || (s[0] == t[0] && TextBefore(s[1..], t[1..])))
  }

  /** `s.startsWith(prefix)`. */
  predicate StartsWith(s: string, prefix: string) {
    |prefix| <= |s| && s[..|prefix|] == prefix
  }

  function Pow10(n: nat): nat {
    if n == 0 then 1 else 10 * Pow10(n - 1)
  }

  function Digit(v: int): char
    requires 0 <= v < 10
  {
    ('0' as int + v) as char
  }

  /** `v` written with exactly `width` decimal digits, zero-padded. */
  function Pad(v: nat, width: nat): (s: string)
    requires v < Pow10(width)
    ensures |s| == width
  {
    if width == 0 then [] else Pad(v / 10, width - 1) + [Digit(v % 10)]
  }

  /** The `YYYY-MM` string of a month. */
  function MonthText(m: Month): (s: string)
    requires IsIsoMonth(m)
    ensures |s| == 7
  {
    Pad(m.year, 4) + "-" + Pad(m.month, 2)
  }

  /** The `YYYY-MM-DD` string of a date. */
  function DateText(d: Date): (s: string)
    requires IsIsoDate(d)
    ensures |s| == 10
  {
    MonthText(MonthOf(d)) + "-" + Pad(d.day, 2)
  }

  lemma TextBeforeIrreflexive(s: string)
    ensures !TextBefore(s, s)
  {}

  lemma {:induction false} TextBeforeTransitive(a: string, b: string, c: string)
    requires TextBefore(a, b) && TextBefore(b, c)
    ensures TextBefore(a, c)
  {
    if a != [] && a[0] == b[0] && b[0] == c[0] {
      TextBeforeTransitive(a[1..], b[1..], c[1..]);
    }
  }

  lemma {:induction false} TextBeforeTotal(a: string, b: string)
    requires a != b
    ensures TextBefore(a, b) || TextBefore(b, a)
  {
    if a != [] && b != [] && a[0] == b[0] {
      assert a == [a[0]] + a[1..] && b == [b[0]] + b[1..];
      TextBeforeTotal(a[1..], b[1..]);
    }
  }

  /** String order is a strict total order, as `sort` needs of its comparator. */
  lemma TextBeforeIsStrictTotalOrder()
    ensures StrictTotalOrder(TextBefore)
  {
    forall a ensures !TextBefore(a, a) {
      TextBeforeIrreflexive(a);
    }
    forall a, b, c | TextBefore(a, b) && TextBefore(b, c) ensures TextBefore(a, c) {
      TextBeforeTransitive(a, b, c);
    }
    forall a, b | a != b ensures TextBefore(a, b) || TextBefore(b, a) {
      TextBeforeTotal(a, b);
    }
  }

  /** The default order of `sort` on the `YYYY-MM-DD` strings of two dates. */
  predicate DateTextBefore(a: IsoDate, b: IsoDate) {
    TextBefore(DateText(a), DateText(b))
  }

  /** Comparing date strings is comparing the dates, so it is a strict total order. */
  lemma DateTextBeforeIsStrictTotalOrder()
    ensures StrictTotalOrder(DateTextBefore)
    ensures forall a: IsoDate, b: IsoDate :: DateTextBefore(a, b) <==> Before(a, b)
  {
    forall a: IsoDate, b: IsoDate ensures DateTextBefore(a, b) <==> Before(a, b) {
      DateTextOrder(a, b);
    }
  }

  /** Comparing two strings cut at the same length compares the heads, then the tails. */
  lemma {:induction false} TextBeforeConcat(a1: string, a2: string, b1: string, b2: string)
    requires |a1| == |b1|
    ensures TextBefore(a1 + a2, b1 + b2) <==> TextBefore(a1, b1) || (a1 == b1 && TextBefore(a2, b2))
  {
    if a1 != [] {
      assert (a1 + a2)[0] == a1[0] && (a1 + a2)[1..] == a1[1..] + a2;
      assert (b1 + b2)[0] == b1[0] && (b1 + b2)[1..] == b1[1..] + b2;
      TextBeforeConcat(a1[1..], a2, b1[1..], b2);
      assert a1 == [a1[0]] + a1[1..] && b1 == [b1[0]] + b1[1..];
    } else {
      assert a1 + a2 == a2 && b1 + b2 == b2;
    }
  }

  /** A number compares with another as its leading digits, then its last digit, do. */
  lemma DivModOrder(x: nat, y: nat)
    ensures x < y <==> x / 10 < y / 10 || (x / 10 == y / 10 && x % 10 < y % 10)
    ensures x == y <==> x / 10 == y / 10 && x % 10 == y % 10
  {
    assert x == 10 * (x / 10) + x % 10;
    assert y == 10 * (y / 10) + y % 10;
  }

  /** One-digit strings compare as their digits do. */
  lemma DigitOrder(a: int, b: int)
    requires 0 <= a < 10 && 0 <= b < 10
    ensures TextBefore([Digit(a)], [Digit(b)]) <==> a < b
    ensures [Digit(a)] == [Digit(b)] <==> a == b
  {
    assert [Digit(a)][1..] == [] && [Digit(b)][1..] == [];
    if [Digit(a)] == [Digit(b)] {
      assert [Digit(a)][0] == [Digit(b)][0];
    }
  }

  /** Zero-padded numbers of one width compare as strings as they do as numbers. */
  lemma {:induction false} PadOrder(x: nat, y: nat, w: nat)
    requires x < Pow10(w) && y < Pow10(w)
    ensures TextBefore(Pad(x, w), Pad(y, w)) <==> x < y
    ensures Pad(x, w) == Pad(y, w) <==> x == y
  {
    if w > 0 {
      var hx, hy := Pad(x / 10, w - 1), Pad(y / 10, w - 1);
      var dx, dy := [Digit(x % 10)], [Digit(y % 10)];
      PadOrder(x / 10, y / 10, w - 1);
      DivModOrder(x, y);
      DigitOrder(x % 10, y % 10);
      TextBeforeConcat(hx, dx, hy, dy);
      assert Pad(x, w) == hx + dx && Pad(y, w) == hy + dy;
      if hx + dx == hy + dy {
        assert (hx + dx)[..w - 1] == hx && (hy + dy)[..w - 1] == hy;
        assert (hx + dx)[w - 1..] == dx && (hy + dy)[w - 1..] == dy;
      }
    }
  }

  /** Month strings compare as the months do. */
  lemma MonthTextOrder(a: Month, b: Month)
    requires IsIsoMonth(a) && IsIsoMonth(b)
    ensures TextBefore(MonthText(a), MonthText(b)) <==> MonthBefore(a, b)
    ensures MonthText(a) == MonthText(b) <==> a == b
  {
    PadOrder(a.year, b.year, 4);
    PadOrder(a.month, b.month, 2);
    TextBeforeConcat(Pad(a.year, 4), "-" + Pad(a.month, 2), Pad(b.year, 4), "-" + Pad(b.month, 2));
    TextBeforeConcat("-", Pad(a.month, 2), "-", Pad(b.month, 2));
    assert MonthText(a) == Pad(a.year, 4) + ("-" + Pad(a.month, 2));
    assert MonthText(b) == Pad(b.year, 4) + ("-" + Pad(b.month, 2));
    if MonthText(a) == MonthText(b) {
      assert MonthText(a)[..4] == Pad(a.year, 4) && MonthText(b)[..4] == Pad(b.year, 4);
      assert MonthText(a)[5..] == Pad(a.month, 2) && MonthText(b)[5..] == Pad(b.month, 2);
    }
  }

  /**
   * Sorting `YYYY-MM-DD` strings sorts the dates chronologically, and two dates
   * have the same string only if they are the same date.
   */
  lemma DateTextOrder(a: Date, b: Date)
    requires IsIsoDate(a) && IsIsoDate(b)
    ensures TextBefore(DateText(a), DateText(b)) <==> Before(a, b)
    ensures DateText(a) == DateText(b) <==> a == b
  {
    MonthTextOrder(MonthOf(a), MonthOf(b));
    PadOrder(a.day, b.day, 2);
    TextBeforeConcat(MonthText(MonthOf(a)), "-" + Pad(a.day, 2), MonthText(MonthOf(b)), "-" + Pad(b.day, 2));
    TextBeforeConcat("-", Pad(a.day, 2), "-", Pad(b.day, 2));
    assert DateText(a) == MonthText(MonthOf(a)) + ("-" + Pad(a.day, 2));
    assert DateText(b) == MonthText(MonthOf(b)) + ("-" + Pad(b.day, 2));
    if DateText(a) == DateText(b) {
      assert DateText(a)[..7] == MonthText(MonthOf(a)) && DateText(b)[..7] == MonthText(MonthOf(b));
      assert DateText(a)[8..] == Pad(a.day, 2) && DateText(b)[8..] == Pad(b.day, 2);
    }
  }

  /** `date.slice(0, 7)` is the date's month. */
  lemma DateTextMonthPrefix(d: Date)
    requires IsIsoDate(d)
    ensures DateText(d)[..7] == MonthText(MonthOf(d))
  {}

  /** `date.startsWith(month)` holds exactly for the dates in that month. */
  lemma StartsWithMonth(d: Date, m: Month)
    requires IsIsoDate(d) && IsIsoMonth(m)
    ensures StartsWith(DateText(d), MonthText(m)) <==> MonthOf(d) == m
  {
    DateTextMonthPrefix(d);
    MonthTextOrder(MonthOf(d), m);
  }
}
