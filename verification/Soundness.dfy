// What the search returns matches: exactly when the day step never hides a move.
module Soundness {
  import opened Calendar
  import opened CronExprs
  import opened BrokenDownTime
  import opened Steps
  import opened Days
  import opened Search

  // ---------- Resumed frames ----------

  lemma ResumeMonth(cex: CronExpr, x: int, dot: int, marked: set<Field>)
    requires cex.WellFormed() && Settled(cex, x) && Markable(marked)
    requires cex.MatchesMonth(DayOf(x))
    ensures FromMonth(cex, x, dot, marked) == Found(x)
  {
    hide FieldStep, Settled, MonthOf, DayOf, FindNext;
    MonthMovesOn(cex, x, marked);
  }

  lemma ResumeDay(cex: CronExpr, x: int, dot: int, marked: set<Field>)
    requires cex.WellFormed() && Settled(cex, x) && marked <= TIME_FIELDS
    requires cex.MatchesDay(DayOf(x)) && cex.MatchesMonth(DayOf(x))
    ensures FromDay(cex, x, dot, marked) == Found(x)
  {
    hide Settled, MonthOf, DayOf, FindNext, FromMonth, CronExpr.MatchesMonth, DayOfMonth, DayOfWeek;
    ResumeMonth(cex, x, dot, marked + {DayOfMonthField});
  }

  /** A frame resumed after a successful nested call changes nothing more. */
  lemma ResumeHour(cex: CronExpr, x: int, dot: int, marked: set<Field>)
    requires cex.WellFormed() && SettledInHour(cex, x) && marked <= {Second, Minute}
    requires cex.Matches(x)
    ensures Settled(cex, x)
    ensures FromHour(cex, x, dot, marked) == Found(x)
    ensures FromDay(cex, x, dot, marked) == Found(x)
    ensures FromMonth(cex, x, dot, marked) == Found(x)
  {
    hide FieldStep, Settled, SettledInHour, MonthOf, DayOf, HourOf, FindNext, FromDay, FromMonth,
         CronExpr.MatchesMonth, CronExpr.MatchesDay;
    HourBelowCeiling(cex, x, marked);
    ResumeDay(cex, x, dot, marked + {HourOfDay});
    ResumeDay(cex, x, dot, marked);
    ResumeMonth(cex, x, dot, marked);
  }

  // ---------- Soundness ----------

  /** The day step from day n moves to another day with the same number, which reads as "no change". */
  predicate HidesMove(cex: CronExpr, n: int) {
    !cex.MatchesDay(n) && DayOfMonth(Landing(cex, n, 0)) == DayOfMonth(n)
  }

  predicate MatchesMidnight(cex: CronExpr, n: int) {
    cex.MatchesDay(n) && 0 in cex.hours && 0 in cex.minutes && 0 in cex.seconds
  }

  /** No hidden move in a cycle of 400 years ends in an allowed month anywhere but on a midnight that
      matches: a finite condition on the six sets. */
  predicate DayStepSound(cex: CronExpr) {
    forall n :: 0 <= n < CYCLE_DAYS && HidesMove(cex, n) && cex.MatchesMonth(Landing(cex, n, 0)) ==>
      MatchesMidnight(cex, Landing(cex, n, 0))
  }

  /** Besides, one that ends in a month that is not allowed ends on a matching day, not on the cap of the walk. */
  predicate DayStepExact(cex: CronExpr) {
    && DayStepSound(cex)
    && forall n :: 0 <= n < CYCLE_DAYS && HidesMove(cex, n) ==> cex.MatchesDay(Landing(cex, n, 0))
  }

  lemma {:induction false} LandingRepeats(cex: CronExpr, n: int, count: nat)
    requires count <= 366
    ensures Landing(cex, n + CYCLE_DAYS, count) == Landing(cex, n, count) + CYCLE_DAYS
    decreases 366 - count
  {
    hide MonthOf, DayOfMonth, DayOfWeek;
    DateRepeats(n);
    if !cex.MatchesDay(n) && count < 366 {
      LandingRepeats(cex, n + 1, count + 1);
      assert n + 1 + CYCLE_DAYS == n + CYCLE_DAYS + 1;
    }
  }

  /** One cycle of the calendar stands for all days. */
  lemma DayRepeats(cex: CronExpr, n: int)
    ensures cex.MatchesDay(n + CYCLE_DAYS) == cex.MatchesDay(n)
    ensures cex.MatchesMonth(n + CYCLE_DAYS) == cex.MatchesMonth(n)
    ensures MatchesMidnight(cex, n + CYCLE_DAYS) == MatchesMidnight(cex, n)
  {
    hide MonthOf, DayOfMonth, DayOfWeek;
    DateRepeats(n);
    SameMonth(MonthOf(n));
  }

  lemma SameMonth(month: int)
    ensures (month + CYCLE_MONTHS) % 12 == month % 12
  {
  }

  lemma HiddenRepeats(cex: CronExpr, n: int)
    ensures Landing(cex, n + CYCLE_DAYS, 0) == Landing(cex, n, 0) + CYCLE_DAYS
    ensures HidesMove(cex, n + CYCLE_DAYS) == HidesMove(cex, n)
  {
    hide MonthOf, DayOfMonth, DayOfWeek, Landing, CronExpr.MatchesDay;
    LandingRepeats(cex, n, 0);
    DayRepeats(cex, n);
    DateRepeats(n);
    DateRepeats(Landing(cex, n, 0));
  }

  lemma {:induction false} DayStepSoundOn(cex: CronExpr, n: int)
    requires DayStepSound(cex) && n >= 0 && HidesMove(cex, n) && cex.MatchesMonth(Landing(cex, n, 0))
    ensures MatchesMidnight(cex, Landing(cex, n, 0))
    decreases n
  {
    if n < CYCLE_DAYS {
      hide Landing, HidesMove, CronExpr.MatchesMonth, MatchesMidnight;
    } else {
      hide *;
      var k := n - CYCLE_DAYS;
      assert n == k + CYCLE_DAYS;
      HiddenRepeats(cex, k);
      DayRepeats(cex, Landing(cex, k, 0));
      DayStepSoundOn(cex, k);
    }
  }

  lemma {:induction false} DayStepExactOn(cex: CronExpr, n: int)
    requires DayStepExact(cex) && n >= 0 && HidesMove(cex, n)
    ensures cex.MatchesDay(Landing(cex, n, 0))
    decreases n
  {
    if n < CYCLE_DAYS {
      hide Landing, HidesMove, CronExpr.MatchesDay, DayStepSound;
    } else {
      hide *;
      var k := n - CYCLE_DAYS;
      assert n == k + CYCLE_DAYS;
      HiddenRepeats(cex, k);
      DayRepeats(cex, Landing(cex, k, 0));
      DayStepExactOn(cex, k);
    }
  }

  lemma NothingHidden(cex: CronExpr, n: int)
    requires cex.WellFormed() && OneDaySetFull(cex)
    ensures !HidesMove(cex, n)
  {
    hide Landing, DayOfMonth, CronExpr.MatchesDay;
    DaySearch(cex, n);
  }

  lemma OneDaySetFullIsSound(cex: CronExpr)
    requires cex.WellFormed() && OneDaySetFull(cex)
    ensures DayStepSound(cex) && DayStepExact(cex)
  {
    hide HidesMove, Landing, CronExpr.MatchesMonth, CronExpr.MatchesDay;
    forall n ensures !HidesMove(cex, n) {
      NothingHidden(cex, n);
    }
  }

  /** With the day step sound, a search that succeeds leaves a date that matches all six sets. */
  lemma {:induction false} FindNextSound(cex: CronExpr, x: int, dot: int)
    requires cex.WellFormed() && DayStepSound(cex) && x >= 0
    ensures FindNext(cex, x, dot).Found? ==> cex.Matches(FindNext(cex, x, dot).at)
    decreases MonthsLeft(x, dot), Ceiling(cex, x) - x, 4
  {
    hide FieldStep, Ceiling, MonthsLeft, Settled, SettledInHour, FromHour, DayStepSound, CronExpr.Matches,
         DayOf, HourOf, MinuteOf, SecondOf, Advanced, LastTime;
    SecondBelowCeiling(cex, x);
    var (y, second) := FieldStep(x, cex.seconds, Second, {});
    var marked := if second == SecondOf(x) then {Second} else {};
    MonthsLeftMonotone(x, y, dot);
    MinuteBelowCeiling(cex, y, marked);
    var (z, minute) := FieldStep(y, cex.minutes, Minute, marked);
    MonthsLeftMonotone(y, z, dot);
    if minute == MinuteOf(y) {
      FromHourSound(cex, z, dot, marked + {Minute});
    } else {
      FindNextSound(cex, z, dot);
      var r := FindNext(cex, z, dot);
      if r.Found? {
        Nearer(cex, dot, z, r.at);
        ResumeHour(cex, r.at, dot, marked);
      }
    }
  }

  lemma {:induction false} FromHourSound(cex: CronExpr, x: int, dot: int, marked: set<Field>)
    requires cex.WellFormed() && DayStepSound(cex) && x >= 0
    requires SettledInHour(cex, x) && marked <= {Second, Minute} && Minute in marked
    requires SecondOf(x) in cex.seconds && MinuteOf(x) in cex.minutes
    ensures FromHour(cex, x, dot, marked).Found? ==> cex.Matches(FromHour(cex, x, dot, marked).at)
    decreases MonthsLeft(x, dot), Ceiling(cex, x) - x, 3
  {
    hide FieldStep, Ceiling, MonthsLeft, Settled, SettledInHour, FromDay, FindNext, DayStepSound, CronExpr.Matches,
         DayOf, HourOf, MinuteOf, SecondOf, Advanced, LastTime;
    HourBelowCeiling(cex, x, marked);
    var (y, hour) := FieldStep(x, cex.hours, HourOfDay, marked);
    MonthsLeftMonotone(x, y, dot);
    if hour == HourOf(x) {
      FromDaySound(cex, y, dot, marked + {HourOfDay});
    } else {
      FindNextSound(cex, y, dot);
      var r := FindNext(cex, y, dot);
      if r.Found? {
        Nearer(cex, dot, y, r.at);
        ResumeHour(cex, r.at, dot, marked);
      }
    }
  }

  lemma {:induction false} FromDaySound(cex: CronExpr, x: int, dot: int, marked: set<Field>)
    requires cex.WellFormed() && DayStepSound(cex) && x >= 0
    requires Settled(cex, x) && {Minute, HourOfDay} <= marked <= TIME_FIELDS
    requires cex.MatchesTime(x)
    ensures FromDay(cex, x, dot, marked).Found? ==> cex.Matches(FromDay(cex, x, dot, marked).at)
    decreases MonthsLeft(x, dot), Ceiling(cex, x) - x, 2
  {
    hide DayStep, Landing, Ceiling, MonthsLeft, Settled, FromMonth, FindNext, DayStepSound, CronExpr.Matches,
         CronExpr.MatchesTime, DayOf, DayOfMonth, DayOfWeek, MonthOf, Advanced, LastTime;
    DayBelowCeiling(cex, x, marked);
    var n := DayOf(x);
    var (y, mday) := DayStep(x, cex, DayOfMonth(n), DayOfWeek(n), marked, 0);
    MonthsLeftMonotone(x, y, dot);
    if mday == DayOfMonth(n) {
      SameNumberMatches(cex, x, marked);
      FromMonthSound(cex, y, dot, marked + {DayOfMonthField});
    } else {
      FindNextSound(cex, y, dot);
      var r := FindNext(cex, y, dot);
      if r.Found? {
        Nearer(cex, dot, y, r.at);
        ResumeHour(cex, r.at, dot, {});
        ResumeMonth(cex, r.at, dot, marked);
      }
    }
  }

  /** A day step that returns the number it was given leaves a date that only its month can fail. */
  lemma SameNumberMatches(cex: CronExpr, x: int, marked: set<Field>)
    requires cex.WellFormed() && DayStepSound(cex) && x >= 0
    requires {Minute, HourOfDay} <= marked <= TIME_FIELDS && cex.MatchesTime(x)
    requires DayStep(x, cex, DayOfMonth(DayOf(x)), DayOfWeek(DayOf(x)), marked, 0).1 == DayOfMonth(DayOf(x))
    ensures var y := DayStep(x, cex, DayOfMonth(DayOf(x)), DayOfWeek(DayOf(x)), marked, 0).0;
            cex.MatchesMonth(DayOf(y)) ==> cex.Matches(y)
  {
    hide DayStepSound, DayStep, Landing, DayOfMonth, DayOfWeek, MonthOf, DayOf, HourOf, MinuteOf, SecondOf, Zeroed;
    var n := DayOf(x);
    assert n >= 0 by { PartsAt(x); }
    var l := Landing(cex, n, 0);
    DayStepLands(x, cex, marked, 0);
    if l != n {
      assert !cex.MatchesDay(n);
      ZeroedInDay(x, x, marked);
      var s := if Second in marked then 0 else SecondOf(x);
      AtParts(l, 0, 0, s) by { PartsAt(x); }
      assert HidesMove(cex, n);
      if cex.MatchesMonth(l) { DayStepSoundOn(cex, n); }
    } else {
      StaysOnMatch(cex, n);
    }
  }

  lemma StaysOnMatch(cex: CronExpr, n: int)
    requires Landing(cex, n, 0) == n
    ensures cex.MatchesDay(n)
  {
    hide Landing, CronExpr.MatchesDay;
  }

  lemma {:induction false} FromMonthSound(cex: CronExpr, x: int, dot: int, marked: set<Field>)
    requires cex.WellFormed() && DayStepSound(cex) && x >= 0
    requires Settled(cex, x) && Markable(marked) && DayOfMonthField in marked
    requires cex.MatchesMonth(DayOf(x)) ==> cex.Matches(x)
    ensures FromMonth(cex, x, dot, marked).Found? ==> cex.Matches(FromMonth(cex, x, dot, marked).at)
    decreases MonthsLeft(x, dot), Ceiling(cex, x) - x, 1
  {
    hide FieldStep, Ceiling, Settled, FindNext, DayStepSound, CronExpr.Matches,
         DayOf, MonthOf, Advanced, LastTime;
    MonthMovesOn(cex, x, marked);
    var (y, month) := FieldStep(x, cex.months, MonthField, marked);
    if month != MonthOf(DayOf(x)) % 12 && !TooFar(y, dot) {
      FindNextSound(cex, y, dot);
    }
  }

  lemma CronNextSound(cex: CronExpr, t: int)
    requires cex.WellFormed() && DayStepSound(cex) && t >= 0
    ensures CronNext(cex, t) == INVALID_TIME || cex.Matches(CronNext(cex, t))
  {
    hide FindNext, CronExpr.Matches;
    FindNextSound(cex, t, YearOf(DayOf(t)));
    FindNextSound(cex, t + 1, YearOf(DayOf(t + 1)));
  }

  /** From an allowed time on a day whose move is hidden, the search stops at midnight of the landing day. */
  lemma HiddenMoveReturned(cex: CronExpr, n: int)
    requires cex.WellFormed() && n >= 0 && HidesMove(cex, n) && cex.MatchesMonth(Landing(cex, n, 0))
    ensures CronNext(cex, n * 86400 + LastTime(cex)) == Landing(cex, n, 0) * 86400 > n * 86400 + LastTime(cex)
  {
    hide FieldStep, DayStep, Landing, Settled, SettledInHour, DayOf, HourOf, MinuteOf, SecondOf, DayOfMonth,
         DayOfWeek, MonthOf, LastTime, Zeroed, YearOf, TooFar, Advanced, CronExpr.MatchesDay, Greatest;
    var t := n * 86400 + LastTime(cex);
    var l := Landing(cex, n, 0);
    var dot := YearOf(DayOf(t));
    Quotient(n, 86400, LastTime(cex));
    assert DayOf(t) == n by { DayAtTime(n, LastTime(cex)); }
    SameTimeParts(t, LastTime(cex));
    SecondUnchanged(cex, t);
    MinuteBelowCeiling(cex, t, {Second});
    HourBelowCeiling(cex, t, {Second, Minute});
    assert FindNext(cex, t, dot) == FromDay(cex, t, dot, TIME_FIELDS) by {
      assert {Second} + {Minute} == {Second, Minute};
      assert {Second, Minute} + {HourOfDay} == TIME_FIELDS;
      assert FindNext(cex, t, dot) == FromHour(cex, t, dot, {Second} + {Minute}) by { hide FromHour; }
      hide FindNext, FromDay;
    }
    DayBelowCeiling(cex, t, TIME_FIELDS);
    DayStepLands(t, cex, TIME_FIELDS, 0);
    assert l != n by { if l == n { StaysOnMatch(cex, n); } }
    ZeroedInDay(t, t, TIME_FIELDS);
    assert DayOf(l * 86400) == l by { DayAtTime(l, 0); }
    hide FindNext;
    ResumeMonth(cex, l * 86400, dot, TIME_FIELDS + {DayOfMonthField});
  }

  lemma SecondUnchanged(cex: CronExpr, x: int)
    requires cex.WellFormed() && SecondOf(x) in cex.seconds
    ensures FieldStep(x, cex.seconds, Second, {}) == (x, SecondOf(x))
    ensures x % 60 <= LastTime(cex) % 60
  {
    hide LastTime, ResetFrom;
  }

  /** Soundness, exactly: every answer matches all six sets if and only if no hidden move of the
      day step within 400 years ends in an allowed month off a matching midnight. */
  lemma SoundIff(cex: CronExpr)
    requires cex.WellFormed()
    ensures (forall t :: t >= 0 ==> CronNext(cex, t) == INVALID_TIME || cex.Matches(CronNext(cex, t)))
       <==> DayStepSound(cex)
  {
    hide CronNext, CronExpr.Matches, Landing, HidesMove, LastTime, CronExpr.MatchesMonth, MatchesMidnight;
    if DayStepSound(cex) {
      forall t | t >= 0
        ensures CronNext(cex, t) == INVALID_TIME || cex.Matches(CronNext(cex, t))
      {
        CronNextSound(cex, t);
      }
    } else {
      var n :| 0 <= n < CYCLE_DAYS && HidesMove(cex, n) && cex.MatchesMonth(Landing(cex, n, 0))
        && !MatchesMidnight(cex, Landing(cex, n, 0));
      HiddenMoveReturned(cex, n);
      MidnightMatches(cex, Landing(cex, n, 0));
    }
  }

  lemma MidnightMatches(cex: CronExpr, n: int)
    ensures cex.Matches(n * 86400) ==> MatchesMidnight(cex, n)
  {
    hide DayOfMonth, MonthOf, DayOf, HourOf, MinuteOf, SecondOf;
    AtParts(n, 0, 0, 0);
  }

  /** 10:00:00 on every Friday the 13th. */
  const FRIDAY_13TH := CronExpr({0}, {0}, {10}, {5}, {12}, {0, 1, 2, 3, 4, 5, 6, 7, 8, 9, 10, 11})

  /** With both day sets restricted the search can return an instant that does not match: from
      Tuesday 13 January 1970, 10:00:00, it answers midnight of Friday 13 February. */
  lemma BothDaySetsRestricted()
    ensures FRIDAY_13TH.WellFormed()
    ensures CronNext(FRIDAY_13TH, At(12, 10, 0, 0)) == At(43, 0, 0, 0)
    ensures !FRIDAY_13TH.Matches(At(43, 0, 0, 0))
  {
    hide Landing, CronNext, MonthOf, DayOfMonth, LastTime, CronExpr.WellFormed, SecondOf, MinuteOf, DayOf, HourOf, HidesMove;
    var cex := FRIDAY_13TH;
    FridayTime();
    FridayLanding();
    HiddenMoveReturned(cex, 12);
    AtParts(43, 0, 0, 0);
  }

  lemma FridayLanding()
    ensures Landing(FRIDAY_13TH, 12, 0) == 43
    ensures HidesMove(FRIDAY_13TH, 12) && FRIDAY_13TH.MatchesMonth(43)
  {
    hide Landing, MonthOf, DayOfMonth, MonthDay, MonthLength;
    EarlyMonths();
    forall k | 0 <= k < 31 ensures DayOfMonth(k) == k + 1 { DateOf(840, k + 1); }
    forall k | 31 <= k < 59 ensures DayOfMonth(k) == k - 30 && MonthOf(k) == 841 { DateOf(841, k - 30); }
    LandingAtMatch(FRIDAY_13TH, 12, 43);
  }

  lemma EarlyMonths()
    ensures MonthDay(840) == 0 && MonthDay(841) == 31 && MonthLength(840) == 31 && MonthLength(841) == 28
  {
  }

  lemma FridayTime()
    ensures FRIDAY_13TH.WellFormed() && LastTime(FRIDAY_13TH) == 36000
  {
    hide Greatest, SecondOf, MinuteOf, HourOf, DayOf;
    var cex := FRIDAY_13TH;
    assert 0 in cex.seconds && 0 in cex.minutes && 10 in cex.hours;
    assert 5 in cex.daysOfWeek && 12 in cex.daysOfMonth && 0 in cex.months;
  }
}
