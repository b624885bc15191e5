// The proleptic Gregorian calendar behind mktime and localtime.
//
// A month is named by its index 12 * year + month, with year counted from 1900
// and month from 0 as in std::tm; a day by its number since 1970-01-01.  An
// out-of-range month field therefore needs no separate carry: the index absorbs it.
module Calendar {

  const JANUARY_1970 := 840

  predicate IsLeap(year: int) {
    (year + 1900) % 4 == 0 && ((year + 1900) % 100 != 0 || (year + 1900) % 400 == 0)
  }

  function MonthLength(month: int): (d: int)
    ensures 28 <= d <= 31
  {
    var mon := month % 12;
    if mon == 1 then (if IsLeap(month / 12) then 29 else 28)
    else if mon == 3 || mon == 5 || mon == 8 || mon == 10 then 30 else 31
  }

  /** The number of the first day of a month: month lengths added up from 1 January 1970. */
  function MonthDay(month: int): int
    decreases if month < JANUARY_1970 then JANUARY_1970 - month else month - JANUARY_1970
  {
    if month == JANUARY_1970 then 0
    else if month > JANUARY_1970 then MonthDay(month - 1) + MonthLength(month - 1)
    else MonthDay(month + 1) - MonthLength(month)
  }

  lemma MonthStep(month: int)
    ensures MonthDay(month + 1) == MonthDay(month) + MonthLength(month)
  {
    hide MonthLength;
  }

  lemma {:induction false} MonthsApart(a: int, b: int)
    requires a <= b
    ensures MonthDay(a) + 28 * (b - a) <= MonthDay(b) <= MonthDay(a) + 31 * (b - a)
    decreases b - a
  {
    hide MonthLength;
    if a < b {
      MonthStep(b - 1);
      MonthsApart(a, b - 1);
    }
  }

  /** The month at or after `month` that holds day n. */
  function MonthFrom(month: int, n: int): (m: int)
    requires MonthDay(month) <= n
    ensures MonthDay(m) <= n < MonthDay(m + 1)
    decreases n - MonthDay(month)
  {
    hide MonthLength;
    MonthStep(month);
    if n < MonthDay(month + 1) then month else MonthFrom(month + 1, n)
  }

  /** A month that has begun by day n, from which the search for its own month can start. */
  function EarlyMonth(n: int): (month: int)
    ensures MonthDay(month) <= n
  {
    hide MonthLength;
    var k := if n >= 0 then n / 31 else n / 28;
    if n >= 0 then MonthsApart(JANUARY_1970, JANUARY_1970 + k); JANUARY_1970 + k
    else MonthsApart(JANUARY_1970 + k, JANUARY_1970); JANUARY_1970 + k
  }

  function MonthOf(n: int): (m: int)
    ensures MonthDay(m) <= n < MonthDay(m + 1)
  {
    MonthFrom(EarlyMonth(n), n)
  }

  /** Day of the month, from 1. */
  function DayOfMonth(n: int): (d: int)
    ensures 1 <= d <= MonthLength(MonthOf(n))
  {
    hide MonthLength;
    MonthStep(MonthOf(n));
    n - MonthDay(MonthOf(n)) + 1
  }

  /** Day of the week, 0 for Sunday; 1970-01-01 was a Thursday. */
  function DayOfWeek(n: int): (w: int)
    ensures 0 <= w < 7
  {
    (n + 4) % 7
  }

  /** Years since 1900. */
  function YearOf(n: int): int {
    MonthOf(n) / 12
  }

  /** Breaking a day number into month and day is the only way to write it as a date. */
  lemma DateUnique(n: int, month: int)
    requires MonthDay(month) <= n < MonthDay(month + 1)
    ensures MonthOf(n) == month
    ensures DayOfMonth(n) == n - MonthDay(month) + 1
  {
    hide MonthDay, MonthOf;
    var m := MonthOf(n);
    if m < month { MonthsApart(m + 1, month); }
    if month < m { MonthsApart(month + 1, m); }
  }

  lemma DateOf(month: int, mday: int)
    requires 1 <= mday <= MonthLength(month)
    ensures MonthOf(MonthDay(month) + mday - 1) == month
    ensures DayOfMonth(MonthDay(month) + mday - 1) == mday
  {
    hide *;
    MonthStep(month);
    DateUnique(MonthDay(month) + mday - 1, month);
  }

  lemma MonthOfMonotone(a: int, b: int)
    requires a <= b
    ensures MonthOf(a) <= MonthOf(b)
  {
    hide *;
    if MonthOf(b) < MonthOf(a) {
      MonthsApart(MonthOf(b) + 1, MonthOf(a));
    }
  }

  lemma NextDay(n: int)
    ensures DayOfMonth(n) < MonthLength(MonthOf(n)) ==>
              MonthOf(n + 1) == MonthOf(n) && DayOfMonth(n + 1) == DayOfMonth(n) + 1
    ensures DayOfMonth(n) == MonthLength(MonthOf(n)) ==>
              MonthOf(n + 1) == MonthOf(n) + 1 && DayOfMonth(n + 1) == 1
  {
    hide MonthDay, MonthLength, MonthOf;
    MonthStep(MonthOf(n));
    if DayOfMonth(n) < MonthLength(MonthOf(n)) {
      DateUnique(n + 1, MonthOf(n));
    } else {
      MonthsApart(MonthOf(n) + 1, MonthOf(n) + 2);
      DateUnique(n + 1, MonthOf(n) + 1);
    }
  }

  /** 1 January, by the formula of section 4.16 of POSIX.1-2017. */
  function PosixYearDay(year: int): int {
    365 * (year - 70) + (year - 69) / 4 - (year - 1) / 100 + (year + 299) / 400
  }

  lemma YearStep(year: int)
    ensures MonthDay(12 * year + 12) == MonthDay(12 * year) + if IsLeap(year) then 366 else 365
  {
    hide MonthDay;
    var m := 12 * year;
    MonthStep(m); MonthStep(m + 1); MonthStep(m + 2); MonthStep(m + 3);
    MonthStep(m + 4); MonthStep(m + 5); MonthStep(m + 6); MonthStep(m + 7);
    MonthStep(m + 8); MonthStep(m + 9); MonthStep(m + 10); MonthStep(m + 11);
  }

  lemma PosixYearStep(year: int)
    ensures PosixYearDay(year + 1) == PosixYearDay(year) + if IsLeap(year) then 366 else 365
  {
    FourYears(year);
    Centuries(year);
    FourCenturies(year);
  }

  lemma FourYears(year: int)
    ensures (year - 68) / 4 == (year - 69) / 4 + if (year + 1900) % 4 == 0 then 1 else 0
  {
    var q, r := year / 4, year % 4;
    assert year == 4 * q + r;
    if r == 0 { assert year - 69 == 4 * (q - 18) + 3; }
  }

  lemma Centuries(year: int)
    ensures year / 100 == (year - 1) / 100 + if (year + 1900) % 100 == 0 then 1 else 0
    ensures (year + 1900) % 100 == 0 ==> (year + 1900) % 4 == 0
  {
    var q, r := year / 100, year % 100;
    assert year == 100 * q + r;
    assert (year + 1900) % 100 == r by { assert year + 1900 == 100 * (q + 19) + r; }
    if r == 0 {
      assert (year - 1) / 100 == q - 1 by { assert year - 1 == 100 * (q - 1) + 99; }
      assert (year + 1900) % 4 == 0 by { assert year + 1900 == 4 * (25 * (q + 19)); }
    } else {
      assert (year - 1) / 100 == q by { assert year - 1 == 100 * q + (r - 1); }
    }
  }

  lemma FourCenturies(year: int)
    ensures (year + 300) / 400 == (year + 299) / 400 + if (year + 1900) % 400 == 0 then 1 else 0
    ensures (year + 1900) % 400 == 0 ==> (year + 1900) % 100 == 0
  {
    var q, r := (year + 300) / 400, (year + 300) % 400;
    PartsOf400(q, r);
    assert year + 1900 == 400 * (q + 4) + r;
    PartsOf400(q + 4, r);
    if r == 0 {
      assert year + 299 == 400 * (q - 1) + 399;
      PartsOf400(q - 1, 399);
    } else {
      assert year + 299 == 400 * q + (r - 1);
      PartsOf400(q, r - 1);
    }
  }

  lemma PartsOf400(q: int, r: int)
    requires 0 <= r < 400
    ensures (400 * q + r) / 400 == q && (400 * q + r) % 400 == r
    ensures r == 0 ==> (400 * q + r) % 100 == 0
  {
    assert 400 * q == 100 * (4 * q);
  }

  /** The month-by-month calendar gives the same day numbers as the closed formula. */
  lemma {:induction false} YearDayIsPosix(year: int)
    ensures MonthDay(12 * year) == PosixYearDay(year)
    decreases if year < 70 then 70 - year else year - 70
  {
    hide IsLeap;
    if year > 70 {
      YearDayIsPosix(year - 1);
      YearStep(year - 1);
      PosixYearStep(year - 1);
    } else if year < 70 {
      YearDayIsPosix(year + 1);
      YearStep(year);
      PosixYearStep(year);
    }
  }

  /** Days from 1 March to the first of the k-th month after it: the months alternate 31 and 30 days in
      runs of five from March and from August. */
  function SinceMarch(k: int): int {
    (153 * k + 2) / 5
  }

  /** Every month from March to February begins as many days after 1 March as the closed formula gives. */
  lemma {:induction false} MonthsFromMarch(year: int, k: int)
    requires 0 <= k <= 11
    ensures MonthDay(12 * year + 2 + k) == MonthDay(12 * year + 2) + SinceMarch(k)
    decreases k
  {
    hide MonthDay, MonthLength;
    if k > 0 {
      MonthsFromMarch(year, k - 1);
      MonthStep(12 * year + 2 + k - 1);
      LengthFromMarch(year, k - 1);
    }
  }

  lemma LengthFromMarch(year: int, k: int)
    requires 0 <= k <= 10
    ensures MonthLength(12 * year + 2 + k) == SinceMarch(k + 1) - SinceMarch(k)
  {
    hide IsLeap;
    assert (12 * year + 2 + k) % 12 == (2 + k) % 12;
    assert k in {0, 1, 2, 3, 4, 5, 6, 7, 8, 9, 10};
  }

  /** January has 31 days, and February 28 or 29. */
  lemma FirstMonths(year: int)
    ensures MonthDay(12 * year + 1) == MonthDay(12 * year) + 31
    ensures MonthDay(12 * year + 2) == MonthDay(12 * year + 1) + if IsLeap(year) then 29 else 28
  {
    hide MonthDay, IsLeap;
    MonthStep(12 * year);
    MonthStep(12 * year + 1);
  }

  // ---------- The cycle of 400 years ----------

  const CYCLE_DAYS := 146097
  const CYCLE_MONTHS := 4800

  lemma LengthRepeats(month: int)
    ensures MonthLength(month + CYCLE_MONTHS) == MonthLength(month)
  {
    hide IsLeap;
    assert (month + CYCLE_MONTHS) % 12 == month % 12;
    assert (month + CYCLE_MONTHS) / 12 == month / 12 + 400;
    LeapRepeats(month / 12);
  }

  lemma LeapRepeats(year: int)
    ensures IsLeap(year + 400) == IsLeap(year)
  {
    Repeats4(year + 1900);
    Repeats100(year + 1900);
    Repeats400(year + 1900);
  }

  lemma Repeats4(y: int)
    ensures (y + 400) % 4 == y % 4
  {
  }

  lemma Repeats100(y: int)
    ensures (y + 400) % 100 == y % 100
  {
  }

  lemma Repeats400(y: int)
    ensures (y + 400) % 400 == y % 400
  {
  }

  lemma {:induction false} MonthDayRepeats(month: int)
    ensures MonthDay(month + CYCLE_MONTHS) == MonthDay(month) + CYCLE_DAYS
    decreases if month < JANUARY_1970 then JANUARY_1970 - month else month - JANUARY_1970
  {
    hide MonthLength, MonthDay;
    if month == JANUARY_1970 {
      YearDayIsPosix(70);
      YearDayIsPosix(470);
    } else if month > JANUARY_1970 {
      MonthDayRepeats(month - 1);
      MonthStep(month - 1);
      MonthStep(month - 1 + CYCLE_MONTHS);
      LengthRepeats(month - 1);
    } else {
      MonthDayRepeats(month + 1);
      MonthStep(month);
      MonthStep(month + CYCLE_MONTHS);
      LengthRepeats(month);
    }
  }

  /** Dates and weekdays repeat after 400 years. */
  lemma DateRepeats(n: int)
    ensures MonthOf(n + CYCLE_DAYS) == MonthOf(n) + CYCLE_MONTHS
    ensures DayOfMonth(n + CYCLE_DAYS) == DayOfMonth(n) && DayOfWeek(n + CYCLE_DAYS) == DayOfWeek(n)
  {
    hide MonthDay, MonthOf;
    MonthDayRepeats(MonthOf(n));
    MonthDayRepeats(MonthOf(n) + 1);
    DateUnique(n + CYCLE_DAYS, MonthOf(n) + CYCLE_MONTHS);
  }
}
