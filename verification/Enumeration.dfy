// Iterating cron_next.
module Enumeration {
  import opened Calendar
  import opened CronExprs
  import opened BrokenDownTime
  import opened Search
  import opened Days
  import opened Leastness
  import opened Gaps
  import opened Exact
  import opened Steps
  import opened Soundness

  lemma ReliableIsWellFormed(cex: CronExpr)
    requires Reliable(cex)
    ensures cex.WellFormed()
  {
  }

  /** On reliable sets cron_next never fails, and its answer is the least matching instant after its input. */
  lemma NextIsFirst(cex: CronExpr, t: int)
    requires cex.WellFormed() && Reliable(cex) && t >= 0
    ensures IsFirstMatch(cex, t + 1, CronNext(cex, t))
  {
    hide CronNext, Reliable, CronExpr.WellFormed;
    ReliableIsExact(cex, t);
  }

  /** With one day set full, the reliable sets are exactly those that can match and meet the three
      conditions of the exactness theorem. */
  lemma ReliableIff(cex: CronExpr)
    requires cex.WellFormed() && OneDaySetFull(cex)
    ensures Reliable(cex) <==> Satisfiable(cex) && ConditionsHold(cex)
  {
    hide CronNext, Satisfiable, SecondsOk, DaysFit, LeapDayOnly, OneDaySetFull, Reliable, CronExpr.WellFormed, CronExpr.Matches;
    if Satisfiable(cex) && ConditionsHold(cex) {
      ConditionsMakeReliable(cex);
    }
    if Reliable(cex) {
      forall t | t >= 0 ensures IsAnswer(cex, t, CronNext(cex, t)) { ReliableIsExact(cex, t); }
      ExactIff(cex);
      ReliableIsExact(cex, 0);
      if !Satisfiable(cex) { NeverMatches(cex, CronNext(cex, 0)); }
    }
  }

  /** A single second, one day set full, and either no day beyond the 28th or every month allowed:
      the sets the service means to build are reliable. */
  lemma SingleSecondReliable(cex: CronExpr, s: int)
    requires cex.WellFormed() && OneDaySetFull(cex) && cex.seconds == {s}
    requires (forall b :: b in cex.daysOfMonth ==> b < 28) || Full(cex.months, 12)
    ensures Reliable(cex)
  {
    hide Reliable;
    SingleSecondFits(cex, s);
    ConditionsMakeReliable(cex);
  }

  lemma SingleSecondFits(cex: CronExpr, s: int)
    requires cex.WellFormed() && cex.seconds == {s}
    requires (forall b :: b in cex.daysOfMonth ==> b < 28) || Full(cex.months, 12)
    ensures Satisfiable(cex) && ConditionsHold(cex)
  {
    hide NextUnit;
    var b :| b in cex.daysOfMonth;
    if Full(cex.months, 12) {
      assert 0 in cex.months && b < LongestMonth(0);
      assert 2 in cex.months;
    } else {
      var m :| m in cex.months;
      assert b < LongestMonth(m);
    }
  }

  /** 00:00:00 on the first Monday of every month. */
  const FIRST_MONDAY := CronExpr({0}, {0}, {0}, {1}, {0, 1, 2, 3, 4, 5, 6}, {0, 1, 2, 3, 4, 5, 6, 7, 8, 9, 10, 11})

  /** Sets with both day fields restricted can be reliable too: hidden moves then end on midnights that match. */
  lemma FirstMondaysReliable()
    ensures Reliable(FIRST_MONDAY)
  {
    hide Landing, DayOfMonth, MonthOf, MonthDay, HidesMove;
    var cex := FIRST_MONDAY;
    FirstMondaySets();
    forall n ensures cex.MatchesDay(Landing(cex, n, 0)) && MatchesMidnight(cex, Landing(cex, n, 0)) {
      var k := FirstMondayOf(MonthOf(n) + 1);
      MonthsApart(MonthOf(n), MonthOf(n) + 1);
      assert cex.MatchesDay(k);
      assert Landing(cex, n, 0) <= k;
    }
  }

  lemma FirstMondaySets()
    ensures FIRST_MONDAY.WellFormed() && SecondsOk(FIRST_MONDAY) && forall n :: !StepDay(FIRST_MONDAY, n)
  {
    hide DayOfMonth, MonthOf;
    var cex := FIRST_MONDAY;
    assert 0 in cex.seconds && 0 in cex.minutes && 0 in cex.hours;
    assert 1 in cex.daysOfWeek && 0 in cex.daysOfMonth && 0 in cex.months;
  }

  lemma FirstMondayOf(month: int) returns (k: int)
    ensures MonthDay(month) <= k < MonthDay(month) + 7 && DayOfWeek(k) == 1
    ensures MonthOf(k) == month && 1 <= DayOfMonth(k) <= 7
  {
    hide DayOfMonth, MonthOf, MonthDay, MonthLength, DayOfWeek;
    k := WeekdaySoon(MonthDay(month), 1);
    DateOf(month, k - MonthDay(month) + 1);
  }

  /** The instant after n answers, each fed back as the next input. */
  function Answer(cex: CronExpr, t: int, n: nat): int
    requires cex.WellFormed()
  {
    if n == 0 then t else CronNext(cex, Answer(cex, t, n - 1))
  }

  ghost predicate Listed(cex: CronExpr, t: int, n: nat, z: int)
    requires cex.WellFormed()
  {
    exists i :: 1 <= i <= n && Answer(cex, t, i) == z
  }

  /** The answers strictly increase, all match, and leave out no match. */
  lemma {:induction false} AnswersEnumerate(cex: CronExpr, t: int, n: nat)
    requires cex.WellFormed() && Reliable(cex) && t >= 0
    ensures Answer(cex, t, n) >= t
    ensures forall i, j :: 0 <= i < j <= n ==> Answer(cex, t, i) < Answer(cex, t, j)
    ensures forall i :: 1 <= i <= n ==> cex.Matches(Answer(cex, t, i))
    ensures forall z :: t < z <= Answer(cex, t, n) && cex.Matches(z) ==> Listed(cex, t, n, z)
  {
    hide CronNext, Reliable, CronExpr.Matches, CronExpr.WellFormed;
    if n > 0 {
      AnswersEnumerate(cex, t, n - 1);
      NextIsFirst(cex, Answer(cex, t, n - 1));
      forall z | t < z <= Answer(cex, t, n) && cex.Matches(z)
        ensures Listed(cex, t, n, z)
      {
        if z > Answer(cex, t, n - 1) {
          assert Answer(cex, t, n) == z;
        } else {
          assert Listed(cex, t, n - 1, z);
        }
      }
    }
  }

  /** cron_next is monotone, and constant from an instant up to its answer. */
  lemma NextMonotone(cex: CronExpr, s: int, t: int)
    requires cex.WellFormed() && Reliable(cex) && 0 <= s <= t
    ensures CronNext(cex, s) <= CronNext(cex, t)
    ensures t < CronNext(cex, s) ==> CronNext(cex, t) == CronNext(cex, s)
  {
    hide CronNext, Reliable, CronExpr.Matches, CronExpr.WellFormed;
    NextIsFirst(cex, s);
    NextIsFirst(cex, t);
    assert cex.Matches(CronNext(cex, t)) && cex.Matches(CronNext(cex, s));
  }
}
