// How long the search goes without a match before it gives up, for any day sets.
module Gaps {
  import opened Calendar
  import opened CronExprs
  import opened BrokenDownTime
  import opened Steps
  import opened Days
  import opened Search
  import opened Soundness
  import opened Moves
  import opened Leastness

  // ---------- Days and years in order ----------

  lemma DaysInOrder(x: int, y: int)
    requires x <= y
    ensures DayOf(x) <= DayOf(y)
  {
  }

  lemma YearsInOrder(x: int, y: int)
    requires x <= y
    ensures YearOf(DayOf(x)) <= YearOf(DayOf(y))
  {
    hide DayOf, MonthOf;
    DaysInOrder(x, y);
    MonthOfMonotone(DayOf(x), DayOf(y));
  }

  lemma LaterYear(x: int, y: int)
    requires YearOf(DayOf(x)) < YearOf(DayOf(y))
    ensures x < y
  {
    hide DayOf, MonthOf;
    if y <= x { YearsInOrder(y, x); }
  }

  lemma MonthsInOrder(n: int, month: int)
    requires MonthOf(n) < month
    ensures n < MonthDay(month)
  {
    hide MonthOf, MonthDay, MonthLength;
    MonthsApart(MonthOf(n) + 1, month);
  }

  /** The last allowed time of a matching day in an allowed month is a match. */
  lemma MatchOn(cex: CronExpr, n: int)
    requires cex.WellFormed() && cex.MatchesDay(n) && cex.MatchesMonth(n)
    ensures cex.Matches(n * 86400 + LastTime(cex)) && DayOf(n * 86400 + LastTime(cex)) == n
  {
    hide LastTime, DayOf, SecondOf, MinuteOf, HourOf, CronExpr.MatchesDay, CronExpr.MatchesMonth;
    DayAtTime(n, LastTime(cex));
    Quotient(n, 86400, LastTime(cex));
    SameTimeParts(n * 86400 + LastTime(cex), LastTime(cex));
  }

  // ---------- The condition ----------

  /** The year of the month that a month step from day n goes to. */
  function YearSteppedTo(cex: CronExpr, n: int): int
    requires cex.WellFormed()
  {
    NextUnit(cex.months, 12, MonthOf(n)) / 12
  }

  /** The first day on which a match keeps the search from giving up at day n: 1 January four years before
      the year stepped to, or the day before if its last second is an allowed time. */
  function MeetFrom(cex: CronExpr, n: int): int
    requires cex.WellFormed()
  {
    MonthDay(12 * (YearSteppedTo(cex, n) - 4)) - if LastTime(cex) == 86399 then 1 else 0
  }

  predicate Met(cex: CronExpr, n: int)
    requires cex.WellFormed()
  {
    exists k :: MeetFrom(cex, n) <= k < n && cex.MatchesDay(k) && cex.MatchesMonth(k)
  }

  /** No month step in a cycle of 400 years comes after four years without a match. */
  predicate YearsMeet(cex: CronExpr)
    requires cex.WellFormed()
  {
    forall n :: 0 <= n < CYCLE_DAYS && StepDay(cex, n) ==> Met(cex, n)
  }

  lemma MeetFromRepeats(cex: CronExpr, n: int)
    requires cex.WellFormed()
    ensures MeetFrom(cex, n + CYCLE_DAYS) == MeetFrom(cex, n) + CYCLE_DAYS
    ensures YearSteppedTo(cex, n + CYCLE_DAYS) == YearSteppedTo(cex, n) + 400
  {
    hide NextUnit, MonthOf, MonthDay, LastTime;
    MonthReachedRepeats(cex, n);
    MonthDayRepeats(12 * (YearSteppedTo(cex, n) - 4));
  }

  lemma MetRepeats(cex: CronExpr, n: int)
    requires cex.WellFormed()
    ensures Met(cex, n + CYCLE_DAYS) == Met(cex, n)
    ensures StepDay(cex, n + CYCLE_DAYS) == StepDay(cex, n)
  {
    hide MeetFrom, CronExpr.MatchesDay, CronExpr.MatchesMonth, MatchesMidnight;
    MeetFromRepeats(cex, n);
    DayRepeats(cex, n);
    if Met(cex, n) {
      var k :| MeetFrom(cex, n) <= k < n && cex.MatchesDay(k) && cex.MatchesMonth(k);
      DayRepeats(cex, k);
      assert cex.MatchesDay(k + CYCLE_DAYS);
    }
    if Met(cex, n + CYCLE_DAYS) {
      var k :| MeetFrom(cex, n + CYCLE_DAYS) <= k < n + CYCLE_DAYS && cex.MatchesDay(k) && cex.MatchesMonth(k);
      DayRepeats(cex, k - CYCLE_DAYS);
      assert k - CYCLE_DAYS + CYCLE_DAYS == k;
      assert cex.MatchesDay(k - CYCLE_DAYS);
    }
  }

  lemma {:induction false} YearsMeetOn(cex: CronExpr, n: int)
    requires cex.WellFormed() && YearsMeet(cex) && n >= 0 && StepDay(cex, n)
    ensures Met(cex, n)
    decreases n
  {
    hide Met, StepDay;
    if n >= CYCLE_DAYS {
      assert n == n - CYCLE_DAYS + CYCLE_DAYS;
      MetRepeats(cex, n - CYCLE_DAYS);
      YearsMeetOn(cex, n - CYCLE_DAYS);
    }
  }

  // ---------- Month steps ----------

  /** A month step does not overflow into another year: December has 31 days. */
  lemma YearReached(cex: CronExpr, n: int)
    requires cex.WellFormed()
    ensures YearOf(MonthDay(MonthReached(cex, n))) == YearSteppedTo(cex, n)
  {
    hide MonthOf, MonthDay, DayOfMonth, NextUnit;
    var m := MonthReached(cex, n);
    DateOf(m, 1);
    assert MonthOf(MonthDay(m)) == m;
    DecemberLength(NextUnit(cex.months, 12, MonthOf(n)));
  }

  lemma DecemberLength(month: int)
    ensures month % 12 == 11 ==> MonthLength(month) == 31
    ensures month % 12 != 11 ==> (month + 1) / 12 == month / 12
  {
  }

  /** Two days of months that are not allowed, the second before the first day reached from the first,
      step to the same month. */
  lemma SameStep(cex: CronExpr, n: int, k: int)
    requires cex.WellFormed() && !cex.MatchesMonth(n) && !cex.MatchesMonth(k)
    requires n <= k < MonthDay(MonthReached(cex, n))
    ensures NextUnit(cex.months, 12, MonthOf(k)) == NextUnit(cex.months, 12, MonthOf(n))
  {
    hide MonthOf, MonthDay, DayOfMonth, NextUnit, MonthLength;
    MonthOfMonotone(n, k);
    MonthBefore(k, MonthReached(cex, n));
    var a, b := NextUnit(cex.months, 12, MonthOf(n)), NextUnit(cex.months, 12, MonthOf(k));
    assert a % 12 in cex.months && MonthOf(k) != a;
    NextUnitBelow(cex.months, 12, MonthOf(k), a);
  }

  /** The day from which a month step is taken. */
  lemma NextMonthFrom(cex: CronExpr, x: int) returns (n: int)
    requires cex.WellFormed() && x >= 0 && TurnOf(cex, x).NextMonth?
    ensures DayOf(x) <= n <= DayOf(Ceiling(cex, x)) && !cex.MatchesMonth(n)
    ensures TurnOf(cex, x).at == MonthDay(MonthReached(cex, n)) * 86400 + SecondLeft(cex, x)
    ensures DayStepExact(cex) ==> StepDay(cex, n)
  {
    hide NextUnit, HourOf, MinuteOf, SecondOf, DayOf, SecondLeft, CronExpr.MatchesDay, CronExpr.MatchesMonth, Landing,
         Ceiling, MonthDay, MonthReached, HidesMove, DayStepExact;
    var y := NextUnit(cex.seconds, 60, x);
    SecondTurn(cex, x);
    SecondBelowCeiling(cex, x);
    DaysInOrder(x, y);
    DaysInOrder(y, Ceiling(cex, x));
    n := DayOf(y);
    if HidesMove(cex, n) {
      n := Landing(cex, DayOf(y), 0);
      var z := n * 86400 + SecondLeft(cex, x);
      UnfoldHidden(cex, x, 0, Marks(cex, x) + {Minute} + {HourOfDay} + {DayOfMonthField}, z);
      DaysInOrder(x, z);
      DaysInOrder(z, Ceiling(cex, x));
      if DayStepExact(cex) {
        assert DayOf(y) >= 0 by { DayNotNegative(x, y); }
        DayStepExactOn(cex, DayOf(y));
      }
    }
  }

  /** The search cannot pass a later matching day that it can serve without a month step. */
  lemma CeilingWithin(cex: CronExpr, x: int, n: int)
    requires cex.WellFormed() && cex.MatchesDay(n) && x <= n * 86400 + LastTime(cex)
    ensures Ceiling(cex, x) <= n * 86400 + LastTime(cex)
  {
    hide CronExpr.MatchesDay, LastTime, FirstMatchingDay;
    var a := (x - LastTime(cex) + 86399) / 86400;
    assert a <= n;
    assert FirstMatchingDay(cex, a) <= n;
  }

  // ---------- A gap makes the search give up ----------

  /** A search that finds something beyond step day n has not gone beyond the years that n steps to. */
  lemma {:induction false} FoundPast(cex: CronExpr, x: int, dot: int, n: int)
    requires cex.WellFormed() && DayStepSound(cex) && x >= 0
    requires StepDay(cex, n) && x <= n * 86400 + LastTime(cex)
    requires FindNext(cex, x, dot).Found? && n < DayOf(FindNext(cex, x, dot).at)
    ensures YearSteppedTo(cex, n) <= dot + MAX_YEARS_DIFF
    decreases MonthsLeft(x, dot), Ceiling(cex, x) - x
  {
    hide FindNext, Ceiling, MonthOf, DayOf, TurnOf, CronExpr.Matches, LastTime, DayStepSound, DayStepExact, CronExpr.MatchesDay,
         CronExpr.MatchesMonth, YearSteppedTo, MonthReached, MonthDay, SecondLeft, TooFar;
    var turn := TurnOf(cex, x);
    TailForm(cex, x, dot);
    CeilingWithin(cex, x, n);
    DayAtTime(n, LastTime(cex));
    DaysInOrder(Ceiling(cex, x), n * 86400 + LastTime(cex));
    if turn.Stop? {
      DaysInOrder(turn.at, Ceiling(cex, x));
    } else if turn.Again? {
      MonthsLeftMonotone(x, turn.at, dot);
      FoundPast(cex, turn.at, dot, n);
    } else if turn.at <= n * 86400 + LastTime(cex) {
      MonthLeftFalls(x, turn.at, dot);
      FoundPast(cex, turn.at, dot, n);
    } else {
      var k := NextMonthFrom(cex, x);
      SecondTurn(cex, x);
      SecondLeftBelow(cex, x);
      var first := MonthDay(MonthReached(cex, k));
      DayAtTime(first, SecondLeft(cex, x));
      StepPast(cex, k, n, dot, first, turn.at);
    }
  }

  lemma SecondLeftBelow(cex: CronExpr, x: int)
    requires cex.WellFormed()
    ensures SecondLeft(cex, x) <= LastTime(cex) % 60 <= LastTime(cex) < 86400
  {
    hide LastTime, NextUnit;
  }

  lemma MonthLeftFalls(x: int, z: int, dot: int)
    requires MonthOf(DayOf(x)) < MonthOf(DayOf(z)) && !TooFar(z, dot)
    ensures MonthsLeft(z, dot) < MonthsLeft(x, dot)
  {
    hide MonthOf, DayOf;
  }

  lemma StepPast(cex: CronExpr, k: int, n: int, dot: int, first: int, z: int)
    requires cex.WellFormed() && !cex.MatchesMonth(k) && !cex.MatchesMonth(n) && k <= n < first
    requires first == MonthDay(MonthReached(cex, k)) == DayOf(z) && !TooFar(z, dot)
    ensures YearSteppedTo(cex, n) <= dot + MAX_YEARS_DIFF
  {
    hide MonthOf, MonthDay, MonthReached, NextUnit, CronExpr.MatchesMonth, DayOf;
    SameStep(cex, k, n);
    YearReached(cex, k);
  }

  /** Where a step day is not met, the search from the last second four years before gives up. */
  lemma UnmetGivesUp(cex: CronExpr, n: int) returns (t: int)
    requires cex.WellFormed() && DayStepSound(cex) && StepDay(cex, n) && !Met(cex, n)
    requires n >= 0 && YearSteppedTo(cex, n) >= 75
    ensures t >= 0 && CronNext(cex, t) == INVALID_TIME
  {
    hide FindNext, MonthOf, MonthDay, CronExpr.Matches, LastTime, DayStepSound, YearSteppedTo, StepDay, CronExpr.MatchesDay,
         CronExpr.MatchesMonth, DayOf, Met;
    var year := YearSteppedTo(cex, n);
    var d := MonthDay(12 * (year - 4)) - 1;
    t := d * 86400 + 86399;
    DayAtTime(d, 86399);
    YearBefore(year - 4);
    StepDayLater(cex, n);
    assert DayOf(t) == d && YearOf(d) == year - 5;
    var r := FindNext(cex, t, year - 5);
    FindNextSound(cex, t, year - 5);
    if r.Found? {
      DaysInOrder(t, r.at);
      MatchNotUnmet(cex, n, t, r.at);
      FoundPast(cex, t, year - 5, n);
    }
    GaveUpInvalid(cex, t);
  }

  lemma YearBefore(year: int)
    ensures YearOf(MonthDay(12 * year) - 1) == year - 1
    ensures year >= 71 ==> MonthDay(12 * year) > 0
  {
    hide MonthOf, MonthDay, MonthLength;
    MonthStep(12 * year - 1);
    DateUnique(MonthDay(12 * year) - 1, 12 * year - 1);
    EpochDay();
    if year >= 71 { MonthsApart(JANUARY_1970, 12 * year); }
  }

  lemma StepDayLater(cex: CronExpr, n: int)
    requires cex.WellFormed()
    ensures var year := YearSteppedTo(cex, n);
            MonthDay(12 * (year - 4)) <= MonthDay(12 * (year - 1)) <= n
  {
    hide MonthOf, MonthDay, MonthLength, NextUnit;
    var year := YearSteppedTo(cex, n);
    assert NextUnit(cex.months, 12, MonthOf(n)) <= MonthOf(n) + 12;
    MonthsApart(12 * (year - 4), 12 * (year - 1));
    MonthsApart(12 * (year - 1), MonthOf(n));
  }

  /** Every match after the last second before the window, or at it, lies beyond an unmet step day. */
  lemma MatchNotUnmet(cex: CronExpr, n: int, t: int, z: int)
    requires cex.WellFormed() && StepDay(cex, n) && !Met(cex, n) && cex.Matches(z)
    requires t <= z && t == (MonthDay(12 * (YearSteppedTo(cex, n) - 4)) - 1) * 86400 + 86399
    ensures n < DayOf(z)
  {
    hide MonthDay, LastTime, YearSteppedTo, CronExpr.MatchesDay, CronExpr.MatchesMonth, CronExpr.MatchesTime;
    var d := MonthDay(12 * (YearSteppedTo(cex, n) - 4)) - 1;
    TimeAtMost(cex, z);
    assert d <= DayOf(z) && (DayOf(z) == d ==> z % 86400 == 86399) by { hide *; InLastSecond(d, z); }
    assert 0 <= LastTime(cex) < 86400;
    assert MeetFrom(cex, n) <= DayOf(z);
  }

  lemma InLastSecond(d: int, z: int)
    requires d * 86400 + 86399 <= z
    ensures d <= DayOf(z) && (DayOf(z) == d ==> z % 86400 == 86399)
  {
  }

  /** No match is later in its day than the last allowed time. */
  lemma TimeAtMost(cex: CronExpr, x: int)
    requires cex.WellFormed() && cex.Matches(x)
    ensures x % 86400 <= LastTime(cex)
  {
    hide LastTime, HourOf, MinuteOf, SecondOf, DayOf, CronExpr.MatchesDay, CronExpr.MatchesMonth, FieldStep;
    SecondUnchanged(cex, x);
    MinuteSettled(cex, x);
    HourSettled(cex, x);
  }

  lemma GaveUpInvalid(cex: CronExpr, t: int)
    requires cex.WellFormed() && t >= 0
    ensures FindNext(cex, t, YearOf(DayOf(t))).GaveUp? ==> CronNext(cex, t) == INVALID_TIME
  {
    hide FindNext, YearOf, DayOf;
  }

  // ---------- Without a gap it does not ----------

  /** A search that gives up does so at a month step into a year too far on. */
  lemma {:induction false} GivesUpAtStep(cex: CronExpr, x: int, dot: int) returns (n: int)
    requires cex.WellFormed() && DayStepExact(cex) && x >= 0 && dot <= YearOf(DayOf(x))
    requires FindNext(cex, x, dot).GaveUp?
    ensures StepDay(cex, n) && DayOf(x) <= n < DayOf(FindNext(cex, x, dot).at)
    ensures YearSteppedTo(cex, n) > dot + MAX_YEARS_DIFF
    decreases MonthsLeft(x, dot), Ceiling(cex, x) - x
  {
    hide FindNext, Ceiling, MonthOf, DayOf, TurnOf, CronExpr.Matches, DayStepSound, DayStepExact, StepDay, YearSteppedTo,
         MonthReached, MonthDay, SecondLeft, YearOf, TooFar;
    var turn := TurnOf(cex, x);
    assert DayStepSound(cex) by { ExactIsSound(cex); }
    TailForm(cex, x, dot);
    YearsInOrder(x, turn.at);
    DaysInOrder(x, turn.at);
    if turn.Again? {
      MonthsLeftMonotone(x, turn.at, dot);
      n := GivesUpAtStep(cex, turn.at, dot);
    } else if TooFar(turn.at, dot) {
      n := NextMonthFrom(cex, x);
      SecondTurn(cex, x);
      DayAtTime(MonthDay(MonthReached(cex, n)), SecondLeft(cex, x));
      YearReached(cex, n);
      MonthStepLater(cex, n);
      FarYear(turn.at, dot);
    } else {
      MonthLeftFalls(x, turn.at, dot);
      n := GivesUpAtStep(cex, turn.at, dot);
    }
  }

  lemma ExactIsSound(cex: CronExpr)
    requires DayStepExact(cex)
    ensures DayStepSound(cex)
  {
    hide DayStepSound;
  }

  lemma FarYear(z: int, dot: int)
    requires TooFar(z, dot) && dot <= YearOf(DayOf(z))
    ensures YearOf(DayOf(z)) > dot + MAX_YEARS_DIFF
  {
    hide DayOf, YearOf;
  }

  lemma MonthStepLater(cex: CronExpr, n: int)
    requires cex.WellFormed() && !cex.MatchesMonth(n)
    ensures n < MonthDay(MonthReached(cex, n))
  {
    hide MonthOf, MonthDay, NextUnit, DayOfMonth, MonthLength;
    assert NextUnit(cex.months, 12, MonthOf(n)) > MonthOf(n);
    MonthsApart(MonthOf(n) + 1, MonthReached(cex, n));
  }

  /** One turn does not pass the last allowed time of a matching day, whatever the seconds. */
  lemma TurnKeepsLastTime(cex: CronExpr, x: int, k: int)
    requires cex.WellFormed() && DayStepExact(cex) && MonthStepsFit(cex) && x >= 0
    requires cex.MatchesDay(k) && cex.MatchesMonth(k) && x <= k * 86400 + LastTime(cex)
    ensures TurnOf(cex, x).at <= k * 86400 + LastTime(cex)
  {
    hide NextUnit, MinuteOf, HourOf, DayOf, SecondOf, CronExpr.MatchesDay, CronExpr.MatchesMonth, MatchesMinute, TurnOf,
         CronExpr.Matches, SecondLeft, DayStepExact, MonthStepsFit, LastTime, Greatest;
    var y, z, at := NextUnit(cex.seconds, 60, x), k * 86400 + LastTime(cex), TurnOf(cex, x).at;
    MatchOn(cex, k);
    MatchesInMinute(cex, z);
    SecondIs(z);
    SecondTurn(cex, x);
    NextUnitBelow(cex.seconds, 60, x, z);
    if z / 60 < at / 60 {
      MinutesInOrder(y, z);
      MinutesPassed(cex, x, z / 60);
    }
    LowPart(cex, x);
    SecondLeftBelow(cex, x);
    SecondIs(at);
    LastSecondOf(k, LastTime(cex));
  }

  lemma MinutesInOrder(y: int, z: int)
    requires y <= z
    ensures y / 60 <= z / 60
  {
  }

  lemma LastSecondOf(k: int, t: int)
    ensures (k * 86400 + t) % 60 == t % 60
  {
  }

  lemma {:induction false} SearchKeepsLastTime(cex: CronExpr, x: int, dot: int, k: int)
    requires cex.WellFormed() && DayStepExact(cex) && MonthStepsFit(cex) && x >= 0
    requires cex.MatchesDay(k) && cex.MatchesMonth(k) && x <= k * 86400 + LastTime(cex)
    ensures FindNext(cex, x, dot).at <= k * 86400 + LastTime(cex)
    decreases MonthsLeft(x, dot), Ceiling(cex, x) - x
  {
    hide FindNext, TurnOf, CronExpr.Matches, CronExpr.MatchesDay, CronExpr.MatchesMonth, Ceiling, MonthOf, DayOf,
         MonthStepsFit, DayStepSound, DayStepExact, LastTime, TooFar;
    var turn := TurnOf(cex, x);
    ExactIsSound(cex);
    TailForm(cex, x, dot);
    TurnKeepsLastTime(cex, x, k);
    if turn.Again? || (turn.NextMonth? && !TooFar(turn.at, dot)) {
      MonthsLeftMonotone(x, turn.at, dot);
      if turn.NextMonth? { MonthLeftFalls(x, turn.at, dot); }
      SearchKeepsLastTime(cex, turn.at, dot, k);
    }
  }

  /** With every step day met, a search finds something. */
  lemma MetSearchFinds(cex: CronExpr, x: int)
    requires cex.WellFormed() && DayStepExact(cex) && MonthStepsFit(cex) && YearsMeet(cex) && x >= 0
    ensures FindNext(cex, x, YearOf(DayOf(x))).Found?
  {
    hide FindNext, CronExpr.Matches, CronExpr.MatchesDay, CronExpr.MatchesMonth, MonthOf, DayOf, YearsMeet, StepDay, MeetFrom,
         MonthStepsFit, DayStepExact, LastTime, YearSteppedTo, YearOf;
    var dot := YearOf(DayOf(x));
    if FindNext(cex, x, dot).GaveUp? {
      var n := GivesUpAtStep(cex, x, dot);
      DayNotNegative(0, x);
      YearsMeetOn(cex, n);
      var k :| MeetFrom(cex, n) <= k < n && cex.MatchesDay(k) && cex.MatchesMonth(k);
      WindowLater(cex, x, n, k);
      SearchKeepsLastTime(cex, x, dot, k);
      DayAtTime(k, LastTime(cex));
      DaysInOrder(FindNext(cex, x, dot).at, k * 86400 + LastTime(cex));
    }
  }

  /** The window before a step day too far on begins after the search does. */
  lemma WindowLater(cex: CronExpr, x: int, n: int, k: int)
    requires cex.WellFormed() && YearSteppedTo(cex, n) > YearOf(DayOf(x)) + MAX_YEARS_DIFF && MeetFrom(cex, n) <= k
    ensures x <= k * 86400 + LastTime(cex)
  {
    hide LastTime, YearSteppedTo, MonthOf, MonthDay, DayOf;
    var month := 12 * (YearSteppedTo(cex, n) - 4);
    assert MonthOf(DayOf(x)) < month;
    MonthsInOrder(DayOf(x), month);
    assert 0 <= LastTime(cex) < 86400;
    WithinDay(x, k, LastTime(cex));
  }

  lemma WithinDay(x: int, k: int, t: int)
    requires DayOf(x) < k || (DayOf(x) <= k && t == 86399)
    requires 0 <= t
    ensures x <= k * 86400 + t
  {
  }
}
