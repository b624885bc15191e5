// The day search: find_next_day walks one day at a time, at most 366 times.
module Days {
  import opened Calendar
  import opened CronExprs
  import opened BrokenDownTime
  import opened Steps

  /** The day the walk stops on after starting from day n with `count` steps already made. */
  function Landing(cex: CronExpr, n: int, count: nat): (l: int)
    requires count <= 366
    ensures n <= l <= n + 366 - count
    ensures forall k :: n <= k < l ==> !cex.MatchesDay(k)
    ensures cex.MatchesDay(l) || l == n + 366 - count
    decreases 366 - count
  {
    if !cex.MatchesDay(n) && count < 366 then Landing(cex, n + 1, count + 1) else n
  }

  lemma LandingAtMatch(cex: CronExpr, n: int, l: int)
    requires n <= l <= n + 366 && cex.MatchesDay(l)
    requires forall k :: n <= k < l ==> !cex.MatchesDay(k)
    ensures Landing(cex, n, 0) == l
  {
    hide Landing, CronExpr.MatchesDay;
    var r := Landing(cex, n, 0);
    assert r < l ==> !cex.MatchesDay(r);
  }

  /** The step moves to the landing day and zeroes the marked time fields exactly when it moves. */
  lemma {:induction false} DayStepLands(x: int, cex: CronExpr, marked: set<Field>, count: nat)
    requires marked <= TIME_FIELDS && count <= 366
    ensures var n := DayOf(x);
            var l := Landing(cex, n, count);
            DayStep(x, cex, DayOfMonth(n), DayOfWeek(n), marked, count)
            == (if l == n then x else l * 86400 + x % 86400 - Zeroed(x, marked), DayOfMonth(l))
    decreases 366 - count
  {
    hide MonthOf, DayOfMonth, DayOfWeek, ResetFrom, Zeroed, DayOf, DayStep;
    var n := DayOf(x);
    if !cex.MatchesDay(n) && count < 366 {
      var z := (n + 1) * 86400 + x % 86400 - Zeroed(x, marked);
      OneDayOn(x, cex, marked, count);
      DayStepLands(z, cex, marked, count + 1);
      ZeroedInDay(z, z, marked);
    } else {
      DayStays(x, cex, marked, count);
    }
  }

  lemma DayStays(x: int, cex: CronExpr, marked: set<Field>, count: nat)
    requires cex.MatchesDay(DayOf(x)) || count >= 366
    ensures var n := DayOf(x);
            DayStep(x, cex, DayOfMonth(n), DayOfWeek(n), marked, count) == (x, DayOfMonth(n))
  {
    hide MonthOf, DayOfMonth, DayOfWeek, ResetFrom, DayOf;
  }

  /** One iteration of the walk. */
  lemma OneDayOn(x: int, cex: CronExpr, marked: set<Field>, count: nat)
    requires marked <= TIME_FIELDS && count < 366 && !cex.MatchesDay(DayOf(x))
    ensures var n := DayOf(x);
            var z := (n + 1) * 86400 + x % 86400 - Zeroed(x, marked);
            && DayStep(x, cex, DayOfMonth(n), DayOfWeek(n), marked, count)
               == DayStep(z, cex, DayOfMonth(n + 1), DayOfWeek(n + 1), marked, count + 1)
            && DayOf(z) == n + 1 && z % 86400 == x % 86400 - Zeroed(x, marked) && Zeroed(z, marked) == 0
  {
    hide MonthOf, DayOfMonth, DayOfWeek, ResetFrom, Zeroed, DayOf;
    var n := DayOf(x);
    var y := x + 86400;
    PartsAt(x);
    DayAtTime(n + 1, x % 86400);
    Quotient(n + 1, 86400, x % 86400);
    ResetMarked(y, marked);
    ZeroedInDay(x, y, marked);
    DayAtTime(n + 1, x % 86400 - Zeroed(x, marked));
    Quotient(n + 1, 86400, x % 86400 - Zeroed(x, marked));
  }

  lemma DayAtTime(n: int, t: int)
    requires 0 <= t < 86400
    ensures DayOf(n * 86400 + t) == n
  {
    Quotient(n, 86400, t);
  }

  predicate OneDaySetFull(cex: CronExpr) {
    Full(cex.daysOfMonth, 31) || Full(cex.daysOfWeek, 7)
  }

  // ---------- With one day set full ----------

  /** A day with a given number comes within 60 days. */
  lemma DayNumberSoon(n: int, mday: int) returns (k: int)
    requires 1 <= mday <= 31
    ensures n <= k <= n + 60 && DayOfMonth(k) == mday
  {
    hide MonthDay, MonthOf, DayOfMonth;
    var m, d := MonthOf(n), DayOfMonth(n);
    assert n == MonthDay(m) + d - 1 by { DayWithin(n); }
    MonthStep(m);
    MonthStep(m + 1);
    if d <= mday <= MonthLength(m) {
      k := MonthDay(m) + mday - 1;
      DateOf(m, mday);
    } else if mday <= MonthLength(m + 1) {
      k := MonthDay(m + 1) + mday - 1;
      DateOf(m + 1, mday);
    } else {
      assert MonthLength(m) == 31 && MonthLength(m + 2) == 31;
      k := MonthDay(m + 2) + mday - 1;
      DateOf(m + 2, mday);
    }
  }

  lemma DayWithin(n: int)
    ensures n == MonthDay(MonthOf(n)) + DayOfMonth(n) - 1
  {
    hide MonthDay, MonthOf, MonthLength;
  }

  lemma WeekdaySoon(n: int, wday: int) returns (k: int)
    requires 0 <= wday < 7
    ensures n <= k <= n + 6 && DayOfWeek(k) == wday
  {
    k := n + (wday - DayOfWeek(n)) % 7;
  }

  /** Fewer than 28 days on, the day number is another one. */
  lemma SoonNumberDiffers(n: int, k: int)
    requires n < k < n + 28
    ensures DayOfMonth(k) != DayOfMonth(n)
  {
    hide MonthDay, MonthOf, MonthLength, DayOfMonth;
    DayWithin(n);
    DayWithin(k);
    MonthOfMonotone(n, k);
    if MonthOf(k) > MonthOf(n) {
      MonthsApart(MonthOf(n), MonthOf(k));
      assert MonthDay(MonthOf(k)) >= MonthDay(MonthOf(n)) + 28;
    }
  }

  /** The day search with one day set full: it stops on the first matching day, never on its cap
      of 366, after at most 60 steps (6 when only the weekday is restricted), and it returns
      another day number exactly when it moved. */
  lemma DaySearch(cex: CronExpr, n: int)
    requires cex.WellFormed() && OneDaySetFull(cex)
    ensures var l := Landing(cex, n, 0);
            && n <= l <= n + 60 && (Full(cex.daysOfMonth, 31) ==> l <= n + 6)
            && cex.MatchesDay(l) && (forall k :: n <= k < l ==> !cex.MatchesDay(k))
            && (DayOfMonth(l) == DayOfMonth(n) <==> l == n)
  {
    hide Landing, MonthOf, DayOfMonth, MonthLength;
    var l := Landing(cex, n, 0);
    if Full(cex.daysOfMonth, 31) {
      var wday :| wday in cex.daysOfWeek;
      var k := WeekdaySoon(n, wday);
      assert cex.MatchesDay(k);
      assert l <= k;
      if l != n { SoonNumberDiffers(n, l); }
    } else {
      var bit :| bit in cex.daysOfMonth;
      var k := DayNumberSoon(n, bit + 1);
      assert cex.MatchesDay(k);
      assert l <= k;
      assert l != n ==> !cex.MatchesDay(n);
      assert DayOfWeek(n) in cex.daysOfWeek;
    }
  }

  // ---------- With any day sets ----------

  /** In the ten years after a year 400 * k + 2001, 1 January falls on every weekday. */
  lemma JanuaryOnWeekday(k: int, wday: int) returns (year: int)
    requires 0 <= wday < 7
    ensures 400 * k + 101 <= year <= 400 * k + 110
    ensures DayOfWeek(MonthDay(12 * year)) == wday
  {
    hide MonthDay, IsLeap, DayOfWeek;
    var y := 400 * k + 101;
    LeapPattern(k);
    YearStep(y); YearStep(y + 1); YearStep(y + 2); YearStep(y + 3); YearStep(y + 4);
    YearStep(y + 5); YearStep(y + 6); YearStep(y + 7); YearStep(y + 8);
    var n := MonthDay(12 * y);
    var delta := (wday - DayOfWeek(n)) % 7;
    year := y + if delta <= 2 then delta else if delta == 3 then 8 else if delta == 4 then 9 else delta - 1;
    WeekdayAfter(n, wday, MonthDay(12 * year) - n);
  }

  lemma LeapPattern(k: int)
    ensures var y := 400 * k + 101;
            && IsLeap(y + 3) && IsLeap(y + 7)
            && !IsLeap(y) && !IsLeap(y + 1) && !IsLeap(y + 2) && !IsLeap(y + 4)
            && !IsLeap(y + 5) && !IsLeap(y + 6) && !IsLeap(y + 8)
  {
    hide IsLeap;
    LeapCycle(k + 5, 1); LeapCycle(k + 5, 2); LeapCycle(k + 5, 3); LeapCycle(k + 5, 4); LeapCycle(k + 5, 5);
    LeapCycle(k + 5, 6); LeapCycle(k + 5, 7); LeapCycle(k + 5, 8); LeapCycle(k + 5, 9);
  }

  lemma LeapCycle(c: int, r: int)
    requires 0 < r < 100
    ensures IsLeap(400 * c + r - 1900) == (r % 4 == 0)
  {
    Remainders(100 * c + r / 4, r % 4, 4 * c, r);
  }

  lemma Remainders(p: int, i: int, q: int, j: int)
    requires 0 <= i < 4 && 0 <= j < 100
    ensures (4 * p + i) % 4 == i && (100 * q + j) % 100 == j
  {
  }

  lemma WeekdayAfter(n: int, wday: int, days: int)
    requires 0 <= wday < 7 && days % 7 == (wday - DayOfWeek(n)) % 7
    ensures DayOfWeek(n + days) == wday
  {
  }

  /** Every day number meets every weekday, so some day from n on matches any two day sets. */
  lemma MatchingDayExists(cex: CronExpr, n: int)
    requires cex.WellFormed()
    ensures exists k :: k >= n && cex.MatchesDay(k)
  {
    hide MonthDay, MonthOf, DayOfMonth, MonthLength, DayOfWeek;
    var bit :| bit in cex.daysOfMonth;
    var wday :| wday in cex.daysOfWeek;
    assert 0 <= bit < 31 && 0 <= wday < 7;
    var c := if n < 0 then 0 else n;
    var year := JanuaryOnWeekday(c, (wday - bit) % 7);
    EpochDay();
    MonthsApart(JANUARY_1970, 12 * year);
    JanuaryLength(year);
    DateOf(12 * year, bit + 1);
    var k := MonthDay(12 * year) + bit;
    WeekdayBack(wday, bit);
    WeekdayAfter(MonthDay(12 * year), wday, bit);
    assert k >= n && cex.MatchesDay(k);
  }

  lemma WeekdayBack(wday: int, days: int)
    requires 0 <= wday < 7
    ensures days % 7 == (wday - (wday - days) % 7) % 7
  {
  }

  lemma EpochDay()
    ensures MonthDay(JANUARY_1970) == 0
  {
  }

  lemma JanuaryLength(year: int)
    ensures MonthLength(12 * year) == 31
  {
  }

  ghost function FirstMatchingDay(cex: CronExpr, n: int): (k: int)
    requires cex.WellFormed()
    ensures k >= n && cex.MatchesDay(k)
    ensures forall j :: n <= j < k ==> !cex.MatchesDay(j)
  {
    MatchingDayExists(cex, n);
    var k :| k >= n && cex.MatchesDay(k);
    FirstMatchingUpTo(cex, n, k)
  }

  ghost function FirstMatchingUpTo(cex: CronExpr, n: int, k: int): (f: int)
    requires n <= k && cex.MatchesDay(k)
    ensures n <= f <= k && cex.MatchesDay(f)
    ensures forall j :: n <= j < f ==> !cex.MatchesDay(j)
    decreases k - n
  {
    if cex.MatchesDay(n) then n else FirstMatchingUpTo(cex, n + 1, k)
  }
}
