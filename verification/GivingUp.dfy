// Exactly when cron_next can answer INVALID_TIME.
module GivingUp {
  import opened Calendar
  import opened CronExprs
  import opened BrokenDownTime
  import opened Steps
  import opened Days
  import opened Search
  import opened Soundness
  import opened Moves
  import opened Leastness
  import opened Gaps
  import opened Exact

  /** A date that every turn after the first month step starts on: its time of day can be met without
      a carry, and its month has no matching day before it. */
  predicate OnTrack(cex: CronExpr, x: int)
    requires cex.WellFormed()
  {
    && x % 86400 <= LastTime(cex)
    && forall k :: MonthDay(MonthOf(DayOf(x))) <= k < DayOf(x) ==> !cex.MatchesDay(k)
  }

  /** The first matching day of a month has the least allowed number, or comes in its first week. */
  lemma FirstMatchEarly(cex: CronExpr, n: int, d: int)
    requires cex.WellFormed() && OneDaySetFull(cex)
    requires forall j :: MonthDay(MonthOf(n)) <= j < n ==> !cex.MatchesDay(j)
    requires d - 1 in cex.daysOfMonth
    ensures DayOfMonth(n) <= d || DayOfMonth(n) <= 7
  {
    hide MonthOf, MonthDay, DayOfMonth, MonthLength, DayOfWeek;
    var m := MonthOf(n);
    DayWithin(n);
    if Full(cex.daysOfWeek, 7) {
      var matches := cex.MatchesDay(MonthDay(m) + d - 1);
      if d < DayOfMonth(n) { DateOf(m, d); }
    } else {
      var w :| w in cex.daysOfWeek;
      var j := WeekdaySoon(MonthDay(m), w);
      var matches := cex.MatchesDay(j);
      if j < n { DateOf(m, j - MonthDay(m) + 1); }
    }
  }

  /** A month step from the first matching day of a month passes no match, even when the day overflows
      the month written: that month then has no allowed day. */
  lemma MonthStepPasses(cex: CronExpr, n: int, k: int)
    requires cex.WellFormed() && OneDaySetFull(cex) && !cex.MatchesMonth(n)
    requires forall j :: MonthDay(MonthOf(n)) <= j < n ==> !cex.MatchesDay(j)
    requires n <= k < MonthDay(MonthReached(cex, n))
    ensures !cex.MatchesDay(k) || !cex.MatchesMonth(k)
  {
    hide NextUnit, MonthOf, MonthDay, DayOfMonth, MonthLength, DayOfWeek, OneDaySetFull;
    MonthOfMonotone(n, k);
    MonthBefore(k, MonthReached(cex, n));
    if cex.MatchesDay(k) { FirstMatchEarly(cex, n, DayOfMonth(k)); }
  }

  /** From a date on track, one turn passes no match and leaves a date on track. */
  lemma TurnStaysOnTrack(cex: CronExpr, x: int, k: int)
    requires cex.WellFormed() && OneDaySetFull(cex) && OnTrack(cex, x)
    ensures var at := TurnOf(cex, x).at;
            && (DayOf(x) <= k < DayOf(at) ==> !cex.MatchesDay(k) || !cex.MatchesMonth(k))
            && (!TurnOf(cex, x).Stop? ==> OnTrack(cex, at))
  {
    hide NextUnit, MinuteOf, HourOf, DayOf, SecondOf, SecondLeft, CronExpr.MatchesDay, CronExpr.MatchesMonth, Landing,
         MonthReached, MonthDay, MonthOf, LastTime, OneDaySetFull, HidesMove, HiddenTurnOf;
    var y, s := NextUnit(cex.seconds, 60, x), SecondLeft(cex, x);
    TimeStays(cex, x);
    NothingHidden(cex, DayOf(y));
    DayAtTime(Landing(cex, DayOf(y), 0), s);
    Quotient(Landing(cex, DayOf(y), 0), 86400, s);
    var first := MonthDay(MonthReached(cex, DayOf(y)));
    DayAtTime(first, s);
    Quotient(first, 86400, s);
    if MinuteOf(y) in cex.minutes && HourOf(y) in cex.hours {
      if !cex.MatchesDay(DayOf(y)) {
        var l := Landing(cex, DayOf(y), 0);
        MonthOfMonotone(DayOf(y), l);
        if MonthOf(l) > MonthOf(DayOf(y)) { MonthsInOrder(DayOf(y), MonthOf(l)); }
      } else if !cex.MatchesMonth(DayOf(y)) {
        FirstDayOf(MonthReached(cex, DayOf(y)));
        if DayOf(y) <= k < first { MonthStepPasses(cex, DayOf(y), k); }
      }
    }
  }

  lemma FirstDayOf(month: int)
    ensures MonthOf(MonthDay(month)) == month
  {
    hide MonthOf, MonthDay, MonthLength;
    DateOf(month, 1);
  }

  /** As long as the time of day can be met, the seconds, minute and hour steps stay in the day. */
  lemma TimeStays(cex: CronExpr, x: int)
    requires cex.WellFormed() && OneDaySetFull(cex) && x % 86400 <= LastTime(cex)
    ensures var y := NextUnit(cex.seconds, 60, x);
            && DayOf(y) == DayOf(x) && y % 86400 <= LastTime(cex)
            && 0 <= SecondLeft(cex, x) <= LastTime(cex)
            && (MinuteOf(y) !in cex.minutes || HourOf(y) !in cex.hours ==>
                  DayOf(TurnOf(cex, x).at) == DayOf(x) && TurnOf(cex, x).at % 86400 <= LastTime(cex))
  {
    hide NextUnit, MinuteOf, HourOf, DayOf, SecondOf, SecondLeft, CronExpr.MatchesDay, CronExpr.MatchesMonth, Landing,
         MonthReached, MonthDay, MonthOf, LastTime, Greatest, OneDaySetFull, TurnOf;
    var y, c := NextUnit(cex.seconds, 60, x), DayOf(x) * 86400 + LastTime(cex);
    SecondTurn(cex, x);
    LastInDay(cex, DayOf(x));
    StartOfDay(x);
    NextUnitBelow(cex.seconds, 60, x, c);
    InDay(cex, x, y);
    SecondLeftBelow(cex, x);
    if MinuteOf(y) !in cex.minutes || HourOf(y) !in cex.hours {
      TurnInDay(cex, x, c);
      InDay(cex, x, TurnOf(cex, x).at);
    }
  }

  lemma StartOfDay(x: int)
    ensures x == DayOf(x) * 86400 + x % 86400
  {
  }

  /** A minute or hour step does not pass a later allowed time of day. */
  lemma TurnInDay(cex: CronExpr, x: int, c: int)
    requires cex.WellFormed() && OneDaySetFull(cex)
    requires x <= NextUnit(cex.seconds, 60, x) <= c
    requires c / 60 % 60 in cex.minutes && c / 3600 % 24 in cex.hours
    requires SecondLeft(cex, x) <= c % 60 <= c % 3600
    requires var y := NextUnit(cex.seconds, 60, x); MinuteOf(y) !in cex.minutes || HourOf(y) !in cex.hours
    ensures x <= TurnOf(cex, x).at <= c
  {
    hide NextUnit, MinuteOf, HourOf, DayOf, SecondOf, SecondLeft, CronExpr.MatchesDay, CronExpr.MatchesMonth, Landing,
         MonthReached, MonthDay, OneDaySetFull, HidesMove, HiddenTurnOf;
    var y, s := NextUnit(cex.seconds, 60, x), SecondLeft(cex, x);
    TurnLeavesMinute(cex, x);
    UnitsInOrder(y, c);
    if MinuteOf(y) !in cex.minutes {
      NextUnitBelow(cex.minutes, 60, y / 60, c / 60);
      UnitBelow(NextUnit(cex.minutes, 60, y / 60), 60, s, c);
    } else {
      NextUnitBelow(cex.hours, 24, y / 3600, c / 3600);
      UnitBelow(NextUnit(cex.hours, 24, y / 3600), 3600, s, c);
    }
  }

  lemma UnitBelow(u: int, p: int, s: int, c: int)
    requires (p == 60 || p == 3600) && u <= c / p && s <= c % p
    ensures u * p + s <= c
  {
  }

  lemma LastInDay(cex: CronExpr, n: int)
    requires cex.WellFormed()
    ensures var c := n * 86400 + LastTime(cex);
            && DayOf(c) == n && c % 60 in cex.seconds && c / 60 % 60 in cex.minutes && c / 3600 % 24 in cex.hours
            && c % 60 == LastTime(cex) % 60 <= c % 3600
  {
    hide LastTime, Greatest, DayOf, HourOf, MinuteOf, SecondOf;
    var c := n * 86400 + LastTime(cex);
    DayAtTime(n, LastTime(cex));
    Quotient(n, 86400, LastTime(cex));
    SameTimeParts(c, LastTime(cex));
    PartsAt(c);
    SecondIs(c);
    SecondIs(LastTime(cex));
    MinuteIs(c);
  }

  lemma InDay(cex: CronExpr, x: int, y: int)
    requires cex.WellFormed() && x <= y <= DayOf(x) * 86400 + LastTime(cex)
    ensures DayOf(y) == DayOf(x) && y % 86400 <= LastTime(cex)
  {
    hide LastTime;
    Quotient(DayOf(x), 86400, y - DayOf(x) * 86400);
  }

  lemma UnitsInOrder(y: int, c: int)
    requires y <= c
    ensures y / 60 <= c / 60 && y / 3600 <= c / 3600
  {
  }

  // ---------- The search on track ----------

  /** From a date on track, the search passes no matching day in an allowed month, whatever the sets. */
  lemma {:induction false} SearchPassesNoDay(cex: CronExpr, x: int, dot: int, k: int)
    requires cex.WellFormed() && OneDaySetFull(cex) && x >= 0 && OnTrack(cex, x)
    requires DayOf(x) <= k < DayOf(FindNext(cex, x, dot).at)
    ensures !cex.MatchesDay(k) || !cex.MatchesMonth(k)
    decreases MonthsLeft(x, dot), Ceiling(cex, x) - x
  {
    hide FindNext, TurnOf, CronExpr.Matches, CronExpr.MatchesDay, CronExpr.MatchesMonth, Ceiling, MonthOf, DayOf, OnTrack,
         OneDaySetFull, DayStepSound;
    var turn := TurnOf(cex, x);
    OneDaySetFullIsSound(cex);
    TailForm(cex, x, dot);
    TurnStaysOnTrack(cex, x, k);
    if k >= DayOf(turn.at) && !turn.Stop? {
      MonthsLeftMonotone(x, turn.at, dot);
      SearchPassesNoDay(cex, turn.at, dot, k);
    }
  }

  /** After the first month step the search cannot fail, if some year it looks through has a match. */
  lemma FoundFromMonth(cex: CronExpr, z: int, dot: int)
    requires cex.WellFormed() && OneDaySetFull(cex) && Satisfiable(cex) && !LeapDayOnly(cex)
    requires z >= 0 && OnTrack(cex, z) && dot <= YearOf(DayOf(z)) <= dot + 2
    ensures FindNext(cex, z, dot).Found?
  {
    hide FindNext, CronExpr.Matches, MonthOf, DayOf, OnTrack, OneDaySetFull, Satisfiable, LeapDayOnly, YearOf,
         CronExpr.MatchesDay, CronExpr.MatchesMonth, Settled, MonthsLeft, Ceiling;
    var r := FindNext(cex, z, dot);
    if r.GaveUp? {
      var m := MatchInYear(cex, dot + 3);
      YearsInOrder(z, r.at);
      LaterYear(z, m);
      LaterYear(m, r.at);
      LaterYearDay(m, r.at);
      DaysInOrder(z, m);
      MatchHasDay(cex, m);
      SearchPassesNoDay(cex, z, dot, DayOf(m));
    }
  }

  lemma LaterYearDay(x: int, y: int)
    requires YearOf(DayOf(x)) < YearOf(DayOf(y))
    ensures DayOf(x) < DayOf(y)
  {
    hide DayOf, MonthOf;
    if DayOf(y) <= DayOf(x) { MonthOfMonotone(DayOf(y), DayOf(x)); }
  }

  /** x is reached from `start` without a month step in between. */
  lemma {:induction false} ChainFound(cex: CronExpr, start: int, x: int, dot: int)
    requires cex.WellFormed() && OneDaySetFull(cex) && Satisfiable(cex) && !LeapDayOnly(cex)
    requires 0 <= start <= x && YearOf(DayOf(start)) == dot && Ceiling(cex, x) == Ceiling(cex, start)
    ensures FindNext(cex, x, dot).Found?
    decreases MonthsLeft(x, dot), Ceiling(cex, x) - x
  {
    hide FindNext, Ceiling, MonthOf, DayOf, TurnOf, CronExpr.Matches, OneDaySetFull, YearOf, Satisfiable, LeapDayOnly, OnTrack,
         DayStepSound;
    var turn := TurnOf(cex, x);
    OneDaySetFullIsSound(cex);
    TailForm(cex, x, dot);
    if turn.Again? {
      MonthsLeftMonotone(x, turn.at, dot);
      ChainFound(cex, start, turn.at, dot);
    } else if turn.NextMonth? {
      MonthTurnYear(cex, start, x);
      YearsInOrder(start, turn.at);
      MonthTurnOnTrack(cex, x);
      FoundFromMonth(cex, turn.at, dot);
    }
  }

  lemma MonthTurnOnTrack(cex: CronExpr, x: int)
    requires cex.WellFormed() && OneDaySetFull(cex) && TurnOf(cex, x).NextMonth?
    ensures OnTrack(cex, TurnOf(cex, x).at)
  {
    hide NextUnit, MinuteOf, HourOf, DayOf, SecondOf, SecondLeft, CronExpr.MatchesDay, CronExpr.MatchesMonth, Landing,
         MonthReached, MonthDay, MonthOf, LastTime, OneDaySetFull, HidesMove, HiddenTurnOf;
    var y, s := NextUnit(cex.seconds, 60, x), SecondLeft(cex, x);
    var month := MonthReached(cex, DayOf(y));
    SecondTurn(cex, x);
    NothingHidden(cex, DayOf(y));
    SecondLeftBelow(cex, x);
    DayAtTime(MonthDay(month), s);
    Quotient(MonthDay(month), 86400, s);
    FirstDayOf(month);
  }

  // ---------- The theorem ----------

  ghost predicate NeverGivesUp(cex: CronExpr)
    requires cex.WellFormed()
  {
    forall t :: t >= 0 ==> CronNext(cex, t) != INVALID_TIME
  }

  /** With one day set full, cron_next always finds an instant if and only if some allowed month has an
      allowed day and that is not 29 February alone; no condition on the seconds or on overflowing days. */
  lemma NeverGivesUpIff(cex: CronExpr)
    requires cex.WellFormed() && OneDaySetFull(cex)
    ensures NeverGivesUp(cex) <==> Satisfiable(cex) && !LeapDayOnly(cex)
  {
    hide CronNext, CronExpr.Matches, Satisfiable, LeapDayOnly, OneDaySetFull;
    if !Satisfiable(cex) {
      UnsatisfiableGivesUp(cex, 0);
    } else if LeapDayOnly(cex) {
      var t := LeapDayMissed(cex);
    } else {
      forall t | t >= 0 ensures CronNext(cex, t) != INVALID_TIME { AlwaysFound(cex, t); }
    }
  }

  /** For any day sets whose hidden moves end harmlessly and whose month steps pass no match: cron_next
      always finds an instant if and only if no month step comes after four years without a match. */
  lemma NeverGivesUpAnyIff(cex: CronExpr)
    requires cex.WellFormed() && DayStepExact(cex) && MonthStepsFit(cex)
    ensures NeverGivesUp(cex) <==> YearsMeet(cex)
  {
    hide CronNext, DayStepExact, DayStepSound, MonthStepsFit, YearsMeet;
    if YearsMeet(cex) {
      forall t | t >= 0 ensures CronNext(cex, t) != INVALID_TIME { MetFinds(cex, t); }
    } else {
      ExactIsSound(cex);
      var t := UnmetSearch(cex);
    }
  }

  lemma MetFinds(cex: CronExpr, t: int)
    requires cex.WellFormed() && DayStepExact(cex) && MonthStepsFit(cex) && YearsMeet(cex) && t >= 0
    ensures CronNext(cex, t) != INVALID_TIME
  {
    hide FindNext, DayOf, YearOf, DayStepExact, MonthStepsFit, YearsMeet, TooFar, Settled, Ceiling, MonthsLeft;
    MetSearchFinds(cex, t);
    MetSearchFinds(cex, t + 1);
  }

  lemma AlwaysFound(cex: CronExpr, t: int)
    requires cex.WellFormed() && OneDaySetFull(cex) && Satisfiable(cex) && !LeapDayOnly(cex) && t >= 0
    ensures CronNext(cex, t) != INVALID_TIME
  {
    hide FindNext, DayOf, YearOf, OneDaySetFull, Satisfiable, LeapDayOnly, TooFar, Settled, Ceiling, MonthsLeft;
    ChainFound(cex, t, t, YearOf(DayOf(t)));
    ChainFound(cex, t + 1, t + 1, YearOf(DayOf(t + 1)));
  }

  /** With one day set full and no allowed day in an allowed month, every search gives up. */
  lemma UnsatisfiableGivesUp(cex: CronExpr, t: int)
    requires cex.WellFormed() && OneDaySetFull(cex) && !Satisfiable(cex) && t >= 0
    ensures CronNext(cex, t) == INVALID_TIME
  {
    hide CronNext, CronExpr.Matches, Satisfiable, OneDaySetFull, DayStepSound;
    OneDaySetFullIsSound(cex);
    CronNextSound(cex, t);
    NeverMatches(cex, CronNext(cex, t));
  }
}
