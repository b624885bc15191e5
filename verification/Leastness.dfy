// When the answer is the least matching instant: the conditions under which the search skips
// nothing, and gives up only when nothing is left to find.
module Leastness {
  import opened Calendar
  import opened CronExprs
  import opened BrokenDownTime
  import opened Steps
  import opened Days
  import opened Search
  import opened Soundness
  import opened Moves

  // ---------- The conditions, on the six sets alone ----------

  predicate Gapless(s: set<int>) {
    forall a, b, v :: a in s && b in s && a < v < b ==> v in s
  }

  predicate OthersFull(cex: CronExpr) {
    && Full(cex.minutes, 60) && Full(cex.hours, 24)
    && Full(cex.daysOfMonth, 31) && Full(cex.daysOfWeek, 7) && Full(cex.months, 12)
  }

  /** A second that was moved is the first allowed one whenever a higher field changes after it. */
  predicate SecondsOk(cex: CronExpr) {
    Gapless(cex.seconds) || OthersFull(cex)
  }

  function LongestMonth(mon: int): int {
    if mon == 1 then 29 else if mon == 3 || mon == 5 || mon == 8 || mon == 10 then 30 else 31
  }

  /** len is a length that month mon has in some year. */
  predicate HasLength(mon: int, len: int) {
    len == LongestMonth(mon) || (mon == 1 && len == 28)
  }

  /** Day d of month mon, which is not allowed, does not fit the next allowed month, and that
      month has an allowed day. */
  predicate Overflows(cex: CronExpr, mon: int, d: int, len: int)
    requires cex.WellFormed()
  {
    && 0 <= mon < 12 && mon !in cex.months && d - 1 in cex.daysOfMonth && d <= LongestMonth(mon)
    && HasLength(NextUnit(cex.months, 12, mon) % 12, len) && len < d
    && exists b :: b in cex.daysOfMonth && b < len
  }

  predicate DaysFit(cex: CronExpr)
    requires cex.WellFormed()
  {
    forall mon, d, len :: 0 <= mon < 12 && 28 <= len <= 31 && 1 <= d <= 31 ==> !Overflows(cex, mon, d, len)
  }

  /** The only day that ever matches is 29 February. */
  predicate LeapDayOnly(cex: CronExpr) {
    cex.months == {1} && 28 in cex.daysOfMonth && forall b :: b in cex.daysOfMonth ==> b >= 28
  }

  /** A day from which the search takes a month step. */
  predicate StepDay(cex: CronExpr, n: int) {
    cex.MatchesDay(n) && !cex.MatchesMonth(n)
  }

  /** The month step from day n passes no matching day. */
  predicate MonthStepFits(cex: CronExpr, n: int)
    requires cex.WellFormed()
  {
    forall k :: n < k < MonthDay(MonthReached(cex, n)) ==> !(cex.MatchesDay(k) && cex.MatchesMonth(k))
  }

  /** No month step in a cycle of 400 years passes a matching day: what DaysFit is for, for any day sets. */
  predicate MonthStepsFit(cex: CronExpr)
    requires cex.WellFormed()
  {
    forall n :: 0 <= n < CYCLE_DAYS && StepDay(cex, n) ==> MonthStepFits(cex, n)
  }

  /** Some allowed month has an allowed day. */
  predicate Satisfiable(cex: CronExpr) {
    exists m, b :: m in cex.months && b in cex.daysOfMonth && b < LongestMonth(m)
  }

  lemma LengthOf(month: int)
    ensures HasLength(month % 12, MonthLength(month))
    ensures MonthLength(month) <= LongestMonth(month % 12)
  {
  }

  // ---------- Nothing is skipped ----------

  /** The instants of minute u match in every field but the second. */
  predicate MatchesMinute(cex: CronExpr, u: int) {
    && u % 60 in cex.minutes && u / 60 % 24 in cex.hours
    && cex.MatchesDay(u / 1440) && cex.MatchesMonth(u / 1440)
  }

  lemma MatchesInMinute(cex: CronExpr, x: int)
    ensures cex.Matches(x) <==> SecondOf(x) in cex.seconds && MatchesMinute(cex, x / 60)
    ensures x / 60 / 60 == x / 3600 && x / 60 / 1440 == DayOf(x)
  {
    hide CronExpr.MatchesDay, CronExpr.MatchesMonth;
    MinuteQuotients(x);
  }

  lemma MinuteQuotients(x: int)
    ensures x / 60 / 60 == x / 3600 && x / 60 / 1440 == x / 86400
  {
    PartsAt(x);
    AtParts(DayOf(x), HourOf(x), MinuteOf(x), SecondOf(x));
    MinuteDay(DayOf(x), HourOf(x), MinuteOf(x));
  }

  lemma MinuteDay(n: int, h: int, m: int)
    requires 0 <= h < 24 && 0 <= m < 60
    ensures (n * 1440 + h * 60 + m) / 60 == n * 24 + h
    ensures (n * 1440 + h * 60 + m) / 1440 == n
  {
  }

  lemma NextSecondFirst(s: set<int>, x: int, i: int)
    requires BitSet(s, 60) && Gapless(s) && SecondOf(x) !in s && i in s
    ensures SecondOf(NextUnit(s, 60, x)) <= i
  {
    hide NextSetBit;
    CycleOf(60, x);
  }

  /** The minutes passed in one turn do not match. */
  lemma MinutesPassed(cex: CronExpr, x: int, u: int)
    requires cex.WellFormed() && DayStepExact(cex) && MonthStepsFit(cex) && x >= 0
    requires NextUnit(cex.seconds, 60, x) / 60 <= u < TurnOf(cex, x).at / 60
    ensures !MatchesMinute(cex, u)
  {
    hide NextUnit, MinuteOf, HourOf, DayOf, SecondOf, SecondLeft, CronExpr.MatchesDay, CronExpr.MatchesMonth, Landing,
         MonthReached, MonthDay, MonthStepsFit, HidesMove, DayStepExact;
    var y := NextUnit(cex.seconds, 60, x);
    var s := SecondLeft(cex, x);
    SecondTurn(cex, x);
    MinuteQuotients(y);
    if MinuteOf(y) !in cex.minutes {
      Quotient(NextUnit(cex.minutes, 60, y / 60), 60, s);
    } else if HourOf(y) !in cex.hours {
      HourMinutes(NextUnit(cex.hours, 24, y / 3600), s, u);
      assert y / 60 / 60 <= u / 60;
    } else if HidesMove(cex, DayOf(y)) {
      var l := Landing(cex, DayOf(y), 0);
      DayMinutes(l, s, u);
      DayMinutes(MonthDay(MonthReached(cex, l)), s, u);
      assert DayOf(y) <= u / 1440 by { hide *; DayOrder(y, u); }
      if !cex.MatchesMonth(l) && l <= u / 1440 {
        assert DayOf(y) >= 0 by { hide *; DayNotNegative(x, y); }
        DayStepExactOn(cex, DayOf(y));
        MonthStepFitsOn(cex, l, u / 1440);
      }
    } else if !cex.MatchesDay(DayOf(y)) {
      DayMinutes(Landing(cex, DayOf(y), 0), s, u);
      assert DayOf(y) <= u / 1440 by { hide *; DayOrder(y, u); }
    } else if !cex.MatchesMonth(DayOf(y)) {
      DayMinutes(MonthDay(MonthReached(cex, DayOf(y))), s, u);
      DayOrder(y, u);
      assert DayOf(y) >= 0 by { hide *; DayNotNegative(x, y); }
      MonthStepFitsOn(cex, DayOf(y), u / 1440);
    }
  }

  lemma HourMinutes(h: int, s: int, u: int)
    requires 0 <= s < 60
    ensures u < (h * 3600 + s) / 60 ==> u / 60 < h
  {
    Quotient(h * 60, 60, s);
  }

  lemma DayMinutes(n: int, s: int, u: int)
    requires 0 <= s < 60
    ensures (n * 86400 + s) / 60 == n * 1440
    ensures u < (n * 86400 + s) / 60 ==> u / 1440 < n
  {
    Quotient(n * 1440, 60, s);
  }

  lemma DayOrder(y: int, u: int)
    requires y / 60 <= u
    ensures DayOf(y) <= u / 1440
  {
    MinuteQuotients(y);
  }

  /** The days a month step passes do not match: if the month written overflowed, it has no allowed day. */
  lemma MonthsPassed(cex: CronExpr, n: int, k: int)
    requires cex.WellFormed() && DaysFit(cex) && cex.MatchesDay(n) && !cex.MatchesMonth(n)
    requires n <= k < MonthDay(MonthReached(cex, n))
    ensures !cex.MatchesDay(k) || !cex.MatchesMonth(k)
  {
    hide NextUnit, MonthOf, MonthDay, DayOfMonth, MonthLength, DayOfWeek, LongestMonth, HasLength;
    var m, d := MonthOf(n), DayOfMonth(n);
    var month := NextUnit(cex.months, 12, m);
    MonthOfMonotone(n, k);
    MonthBefore(k, MonthReached(cex, n));
    if MonthOf(k) >= month {
      assert MonthOf(k) == month && d > MonthLength(month);
      LengthOf(m);
      LengthOf(month);
      NextUnitShift(cex.months, m);
      var len := MonthLength(month);
      assert DayOfMonth(k) - 1 < len;
      assert !Overflows(cex, m % 12, d, len);
    }
  }

  lemma DaysFitSteps(cex: CronExpr)
    requires cex.WellFormed() && DaysFit(cex)
    ensures MonthStepsFit(cex)
  {
    hide DaysFit, MonthReached, MonthDay, CronExpr.MatchesDay, CronExpr.MatchesMonth;
    forall n | StepDay(cex, n) ensures MonthStepFits(cex, n) {
      forall k | n < k < MonthDay(MonthReached(cex, n)) ensures !(cex.MatchesDay(k) && cex.MatchesMonth(k)) {
        MonthsPassed(cex, n, k);
      }
    }
  }

  lemma MonthReachedRepeats(cex: CronExpr, n: int)
    requires cex.WellFormed()
    ensures MonthReached(cex, n + CYCLE_DAYS) == MonthReached(cex, n) + CYCLE_MONTHS
    ensures NextUnit(cex.months, 12, MonthOf(n + CYCLE_DAYS)) == NextUnit(cex.months, 12, MonthOf(n)) + CYCLE_MONTHS
  {
    hide NextUnit, MonthOf, DayOfMonth, MonthLength;
    DateRepeats(n);
    var m := MonthOf(n);
    NextUnitShift(cex.months, m);
    NextUnitShift(cex.months, m + CYCLE_MONTHS);
    SameMonth(m);
    LengthRepeats(NextUnit(cex.months, 12, m));
  }

  /** One cycle of the calendar stands for all month steps. */
  lemma {:induction false} MonthStepFitsOn(cex: CronExpr, n: int, k: int)
    requires cex.WellFormed() && MonthStepsFit(cex) && n >= 0 && StepDay(cex, n)
    requires n <= k < MonthDay(MonthReached(cex, n))
    ensures !cex.MatchesDay(k) || !cex.MatchesMonth(k)
    decreases n
  {
    hide MonthReached, MonthDay, CronExpr.MatchesDay, CronExpr.MatchesMonth, NextUnit, MonthOf;
    if n >= CYCLE_DAYS {
      hide MonthStepsFit;
      var p := n - CYCLE_DAYS;
      assert n == p + CYCLE_DAYS && k == k - CYCLE_DAYS + CYCLE_DAYS;
      DayRepeats(cex, p);
      DayRepeats(cex, k - CYCLE_DAYS);
      MonthReachedRepeats(cex, p);
      MonthDayRepeats(MonthReached(cex, p));
      MonthStepFitsOn(cex, p, k - CYCLE_DAYS);
    } else {
      assert MonthStepFits(cex, n);
    }
  }

  lemma MonthBefore(k: int, month: int)
    requires k < MonthDay(month)
    ensures MonthOf(k) < month
  {
    hide MonthOf, MonthDay, MonthLength;
    if MonthOf(k) >= month { MonthsApart(month, MonthOf(k)); }
  }

  /** The next allowed month has the same place in the year whichever year it is sought from. */
  lemma NextUnitShift(months: set<int>, m: int)
    requires BitSet(months, 12)
    ensures NextUnit(months, 12, m) == m - m % 12 + NextUnit(months, 12, m % 12)
    ensures NextUnit(months, 12, m) % 12 == NextUnit(months, 12, m % 12) % 12
  {
    hide NextSetBit;
    assert m % 12 % 12 == m % 12;
    var r := NextUnit(months, 12, m % 12);
    assert (12 * (m / 12) + r) % 12 == r % 12;
  }

  lemma FullTurn(cex: CronExpr, x: int)
    requires cex.WellFormed() && OthersFull(cex)
    ensures TurnOf(cex, x) == Stop(NextUnit(cex.seconds, 60, x))
  {
    hide NextUnit, DayOf, DayOfMonth, MonthOf, SecondLeft;
    var y := NextUnit(cex.seconds, 60, x);
    PartsAt(y);
    assert 0 <= DayOfMonth(DayOf(y)) - 1 < 31;
  }

  /** One turn passes no matching instant. */
  lemma TurnSkipsNothing(cex: CronExpr, x: int, z: int)
    requires cex.WellFormed() && DayStepExact(cex) && MonthStepsFit(cex) && SecondsOk(cex)
    requires 0 <= x <= z < TurnOf(cex, x).at
    ensures !cex.Matches(z)
  {
    hide NextUnit, MinuteOf, HourOf, DayOf, SecondOf, CronExpr.MatchesDay, CronExpr.MatchesMonth, Landing,
         MonthReached, MonthDay, MonthStepsFit, MatchesMinute, TurnOf, CronExpr.Matches, SecondLeft, Gapless,
         DayStepExact;
    var y := NextUnit(cex.seconds, 60, x);
    var at := TurnOf(cex, x).at;
    MatchesInMinute(cex, z);
    SecondIs(z);
    if z < y {
      assert z % 60 !in cex.seconds;
    } else if z / 60 < at / 60 {
      MinutesPassed(cex, x, z / 60);
    } else {
      LowPart(cex, x);
      SecondIs(at);
      if TurnOf(cex, x) != Stop(y) && cex.Matches(z) {
        assert z % 60 < SecondLeft(cex, x);
        assert SecondOf(x) !in cex.seconds by { if SecondOf(x) in cex.seconds { LeftZero(cex, x); } }
        if Gapless(cex.seconds) {
          NextSecondFirst(cex.seconds, x, SecondOf(z));
          LeftMoved(cex, x);
        } else {
          FullTurn(cex, x);
        }
      }
    }
  }

  lemma LeftZero(cex: CronExpr, x: int)
    requires cex.WellFormed() && SecondOf(x) in cex.seconds
    ensures SecondLeft(cex, x) == 0
  {
  }

  lemma LeftMoved(cex: CronExpr, x: int)
    requires cex.WellFormed() && SecondOf(x) !in cex.seconds
    ensures SecondLeft(cex, x) == SecondOf(NextUnit(cex.seconds, 60, x))
  {
    hide NextUnit;
  }

  /** A turn that changes a field above the second leaves a date whose second is the one left over. */
  lemma LowPart(cex: CronExpr, x: int)
    requires cex.WellFormed()
    ensures TurnOf(cex, x) == Stop(NextUnit(cex.seconds, 60, x)) || TurnOf(cex, x).at % 60 == SecondLeft(cex, x)
  {
    hide NextUnit, MinuteOf, HourOf, DayOf, SecondOf, SecondLeft, CronExpr.MatchesDay, CronExpr.MatchesMonth, Landing,
         MonthReached, MonthDay, HidesMove;
    var y := NextUnit(cex.seconds, 60, x);
    var s := SecondLeft(cex, x);
    var l := Landing(cex, DayOf(y), 0);
    SecondTurn(cex, x);
    if MinuteOf(y) !in cex.minutes {
      LowSecond(NextUnit(cex.minutes, 60, y / 60), 60, s);
    } else if HourOf(y) !in cex.hours {
      LowSecond(NextUnit(cex.hours, 24, y / 3600), 3600, s);
    } else {
      LowSecond(l, 86400, s);
      LowSecond(MonthDay(MonthReached(cex, l)), 86400, s);
      LowSecond(MonthDay(MonthReached(cex, DayOf(y))), 86400, s);
    }
  }

  lemma LowSecond(u: int, p: int, s: int)
    requires 0 <= s < 60 && (p == 60 || p == 3600 || p == 86400)
    ensures (u * p + s) % 60 == s
  {
    Quotient(u * (p / 60), 60, s);
    assert p == 60 * (p / 60);
  }

  /** The whole search passes no matching instant, whether it finds one or gives up. */
  lemma {:induction false} SearchSkipsNothing(cex: CronExpr, x: int, dot: int, z: int)
    requires cex.WellFormed() && DayStepExact(cex) && MonthStepsFit(cex) && SecondsOk(cex)
    requires 0 <= x <= z < FindNext(cex, x, dot).at
    ensures !cex.Matches(z)
    decreases MonthsLeft(x, dot), Ceiling(cex, x) - x
  {
    hide FindNext, TurnOf, CronExpr.Matches, Ceiling, MonthOf, MonthStepsFit, SecondsOk, DayOf, DayStepSound;
    var turn := TurnOf(cex, x);
    TailForm(cex, x, dot);
    if z < turn.at {
      TurnSkipsNothing(cex, x, z);
    } else if !turn.Stop? {
      MonthsLeftMonotone(x, turn.at, dot);
      SearchSkipsNothing(cex, turn.at, dot, z);
    }
  }
}
