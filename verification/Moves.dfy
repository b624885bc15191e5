// Where the day step is exact, as with one day set full, the recursion is a tail recursion: a closed
// form of one turn of it.
module Moves {
  import opened Calendar
  import opened CronExprs
  import opened BrokenDownTime
  import opened Steps
  import opened Days
  import opened Search
  import opened Soundness

  /** One turn of the search: it stops, searches again, or searches again if the year allows. */
  datatype Turn = Stop(at: int) | Again(at: int) | NextMonth(at: int)

  /** The second that a later change of a higher field leaves: 0 if the second matched and was
      marked, and otherwise the second it was moved to. */
  function SecondLeft(cex: CronExpr, x: int): int
    requires cex.WellFormed()
  {
    if SecondOf(x) in cex.seconds then 0 else SecondOf(NextUnit(cex.seconds, 60, x))
  }

  /** The first day of the month that a month step from day n goes to. */
  function MonthReached(cex: CronExpr, n: int): int
    requires cex.WellFormed()
  {
    Overflowed(DayOfMonth(n), NextUnit(cex.months, 12, MonthOf(n)))
  }

  function TurnOf(cex: CronExpr, x: int): Turn
    requires cex.WellFormed()
  {
    var y := NextUnit(cex.seconds, 60, x);
    var s := SecondLeft(cex, x);
    if MinuteOf(y) !in cex.minutes then Again(NextUnit(cex.minutes, 60, y / 60) * 60 + s)
    else if HourOf(y) !in cex.hours then Again(NextUnit(cex.hours, 24, y / 3600) * 3600 + s)
    else if HidesMove(cex, DayOf(y)) then HiddenTurnOf(cex, Landing(cex, DayOf(y), 0), s)
    else if !cex.MatchesDay(DayOf(y)) then Again(Landing(cex, DayOf(y), 0) * 86400 + s)
    else if !cex.MatchesMonth(DayOf(y)) then NextMonth(MonthDay(MonthReached(cex, DayOf(y))) * 86400 + s)
    else Stop(y)
  }

  /** After a move to day l that reads as no change, the same frame goes on to the month step. */
  function HiddenTurnOf(cex: CronExpr, l: int, s: int): Turn
    requires cex.WellFormed()
  {
    if cex.MatchesMonth(l) then Stop(l * 86400 + s) else NextMonth(MonthDay(MonthReached(cex, l)) * 86400 + s)
  }

  function Marks(cex: CronExpr, x: int): set<Field> {
    if SecondOf(x) in cex.seconds then {Second} else {}
  }

  lemma SecondTurn(cex: CronExpr, x: int)
    requires cex.WellFormed()
    ensures var y := NextUnit(cex.seconds, 60, x);
            && FieldStep(x, cex.seconds, Second, {}).0 == y
            && (FieldStep(x, cex.seconds, Second, {}).1 == SecondOf(x) <==> SecondOf(x) in cex.seconds)
            && (SecondOf(x) in cex.seconds ==> y == x)
            && 0 <= SecondLeft(cex, x) == (if Second in Marks(cex, x) then 0 else SecondOf(y)) < 60
  {
    hide FieldStep, NextUnit, HourOf, MinuteOf, DayOf;
    SecondStep(x, cex.seconds);
    NextUnitBelow(cex.seconds, 60, x, if SecondOf(x) in cex.seconds then x else NextUnit(cex.seconds, 60, x));
  }

  /** The phases that leave their field alone pass the date on. */
  lemma Unfold(cex: CronExpr, x: int, dot: int)
    requires cex.WellFormed()
    ensures var y, marks := NextUnit(cex.seconds, 60, x), Marks(cex, x);
            && (MinuteOf(y) in cex.minutes ==>
                  SettledInHour(cex, y) && FindNext(cex, x, dot) == FromHour(cex, y, dot, marks + {Minute}))
            && (MinuteOf(y) in cex.minutes && HourOf(y) in cex.hours ==>
                  Settled(cex, y) && FindNext(cex, x, dot) == FromDay(cex, y, dot, marks + {Minute} + {HourOfDay}))
  {
    hide FieldStep, NextUnit, HourOf, MinuteOf, SecondOf, DayOf, Settled, SettledInHour, FromDay, SecondLeft;
    var y, marks := NextUnit(cex.seconds, 60, x), Marks(cex, x);
    SecondTurn(cex, x);
    SecondBelowCeiling(cex, x);
    MinuteBelowCeiling(cex, y, marks);
    if MinuteOf(y) in cex.minutes {
      HourBelowCeiling(cex, y, marks + {Minute});
    }
  }

  lemma UnfoldDay(cex: CronExpr, x: int, dot: int)
    requires cex.WellFormed()
    ensures var y, marks := NextUnit(cex.seconds, 60, x), Marks(cex, x);
            && (MinuteOf(y) in cex.minutes && HourOf(y) in cex.hours && cex.MatchesDay(DayOf(y)) ==>
                  Settled(cex, y) && FindNext(cex, x, dot)
                    == FromMonth(cex, y, dot, marks + {Minute} + {HourOfDay} + {DayOfMonthField}))
  {
    hide NextUnit, HourOf, MinuteOf, SecondOf, DayOf, Settled, FindNext, FromMonth, DayOfMonth, DayOfWeek;
    Unfold(cex, x, dot);
  }

  // ---------- The four ways a turn changes a field ----------

  /** After a nested search that succeeds, the outer frames change nothing. */
  lemma NestedHour(cex: CronExpr, z: int, dot: int, marked: set<Field>)
    requires cex.WellFormed() && DayStepSound(cex) && z >= 0 && marked <= {Second, Minute}
    ensures var r := FindNext(cex, z, dot);
            r.Found? ==>
              && SettledInHour(cex, r.at) && Settled(cex, r.at) && cex.Matches(r.at)
              && FromHour(cex, r.at, dot, marked) == r && FromDay(cex, r.at, dot, marked) == r
  {
    hide FindNext, FromHour, FromDay, Advanced, CronExpr.Matches, SettledInHour, Settled, DayStepSound;
    FindNextSound(cex, z, dot);
    var r := FindNext(cex, z, dot);
    if r.Found? {
      Nearer(cex, dot, z, r.at);
      ResumeHour(cex, r.at, dot, marked);
    }
  }

  lemma NestedDay(cex: CronExpr, z: int, dot: int, marked: set<Field>)
    requires cex.WellFormed() && DayStepSound(cex) && z >= 0 && marked <= TIME_FIELDS
    ensures var r := FindNext(cex, z, dot);
            r.Found? ==>
              && Settled(cex, r.at) && cex.MatchesMonth(DayOf(r.at)) && cex.Matches(r.at)
              && FromMonth(cex, r.at, dot, marked) == r
  {
    hide FindNext, FromMonth, Advanced, SettledInHour, Settled, CronExpr.MatchesMonth, CronExpr.MatchesDay, DayOf,
         DayStepSound;
    NestedHour(cex, z, dot, {});
    var r := FindNext(cex, z, dot);
    if r.Found? {
      ResumeMonth(cex, r.at, dot, marked);
    }
  }

  lemma MinuteTurn(cex: CronExpr, x: int, dot: int)
    requires cex.WellFormed() && DayStepSound(cex) && x >= 0
    requires var y := NextUnit(cex.seconds, 60, x); MinuteOf(y) !in cex.minutes
    ensures var z := TurnOf(cex, x).at;
            && x < z && FindNext(cex, x, dot) == FindNext(cex, z, dot)
            && Ceiling(cex, z) == Ceiling(cex, x)
  {
    hide FieldStep, NextUnit, HourOf, MinuteOf, SecondOf, DayOf, FromHour, Settled, SettledInHour, Zeroed,
         SecondLeft, Ceiling, Advanced, CronExpr.Matches, Landing, HidesMove, DayStepSound, HiddenTurnOf;
    var y, marks := NextUnit(cex.seconds, 60, x), Marks(cex, x);
    SecondTurn(cex, x);
    SecondBelowCeiling(cex, x);
    MinuteBelowCeiling(cex, y, marks);
    MinuteStep(y, cex.minutes, marks);
    ZeroedInMinute(y / 60, y / 60, y % 60, marks);
    SecondIs(y);
    NestedHour(cex, TurnOf(cex, x).at, dot, marks);
  }

  lemma SecondIs(x: int)
    ensures SecondOf(x) == x % 60
    ensures x == x / 60 * 60 + x % 60 && 0 <= x % 60 < 60
  {
  }

  lemma HourTurn(cex: CronExpr, x: int, dot: int)
    requires cex.WellFormed() && DayStepSound(cex) && x >= 0
    requires var y := NextUnit(cex.seconds, 60, x); MinuteOf(y) in cex.minutes && HourOf(y) !in cex.hours
    ensures var z := TurnOf(cex, x).at;
            && x < z && FindNext(cex, x, dot) == FindNext(cex, z, dot)
            && Ceiling(cex, z) == Ceiling(cex, x)
  {
    hide FieldStep, NextUnit, HourOf, MinuteOf, SecondOf, DayOf, FindNext, FromDay, Settled, SettledInHour, Zeroed,
         SecondLeft, Ceiling, Advanced, CronExpr.Matches, Landing, HidesMove, DayStepSound, HiddenTurnOf;
    var y, marks := NextUnit(cex.seconds, 60, x), Marks(cex, x);
    SecondTurn(cex, x);
    SecondBelowCeiling(cex, x);
    Unfold(cex, x, dot);
    HourBelowCeiling(cex, y, marks + {Minute});
    HourStep(y, cex.hours, marks + {Minute});
    LowZeroed(y, marks);
    NestedHour(cex, TurnOf(cex, x).at, dot, marks + {Minute});
  }

  lemma LowZeroed(y: int, marks: set<Field>)
    requires marks <= {Second}
    ensures y % 3600 - Zeroed(y, marks + {Minute}) == if Second in marks then 0 else SecondOf(y)
    ensures y % 86400 - Zeroed(y, marks + {Minute} + {HourOfDay}) == if Second in marks then 0 else SecondOf(y)
  {
    hide HourOf, MinuteOf, SecondOf, DayOf;
    PartsAt(y);
  }

  /** The day step moves to a day with another number and searches again. */
  lemma DayTurn(cex: CronExpr, x: int, dot: int)
    requires cex.WellFormed() && DayStepSound(cex) && x >= 0
    requires var y := NextUnit(cex.seconds, 60, x);
             && MinuteOf(y) in cex.minutes && HourOf(y) in cex.hours
             && !cex.MatchesDay(DayOf(y)) && !HidesMove(cex, DayOf(y))
    ensures var z := TurnOf(cex, x).at;
            && x < z && FindNext(cex, x, dot) == FindNext(cex, z, dot)
            && Ceiling(cex, z) == Ceiling(cex, x)
  {
    hide DayStep, NextUnit, HourOf, MinuteOf, SecondOf, DayOf, FindNext, FromMonth, Settled, SettledInHour, Zeroed,
         SecondLeft, Ceiling, Advanced, CronExpr.Matches, CronExpr.MatchesDay, Landing, DayOfMonth, DayOfWeek,
         DayStepSound, HiddenTurnOf;
    var y, marks := NextUnit(cex.seconds, 60, x), Marks(cex, x);
    SecondTurn(cex, x);
    SecondBelowCeiling(cex, x);
    Unfold(cex, x, dot);
    var marked := marks + {Minute} + {HourOfDay};
    DayBelowCeiling(cex, y, marked);
    DayStepLands(y, cex, marked, 0);
    if Landing(cex, DayOf(y), 0) == DayOf(y) { StaysOnMatch(cex, DayOf(y)); }
    LowZeroed(y, marks);
    NestedDay(cex, TurnOf(cex, x).at, dot, marked);
  }

  /** A hidden move passes the date on to the month step, with the day of the month marked. */
  lemma UnfoldHidden(cex: CronExpr, x: int, dot: int, marked: set<Field>, z: int)
    requires cex.WellFormed() && x >= 0
    requires Markable(marked) && DayOfMonthField in marked
    requires marked == Marks(cex, x) + {Minute} + {HourOfDay} + {DayOfMonthField}
    requires var y := NextUnit(cex.seconds, 60, x);
             && MinuteOf(y) in cex.minutes && HourOf(y) in cex.hours && HidesMove(cex, DayOf(y))
             && z == Landing(cex, DayOf(y), 0) * 86400 + SecondLeft(cex, x)
    ensures x < z <= Ceiling(cex, x) && DayOf(z) == Landing(cex, DayOf(NextUnit(cex.seconds, 60, x)), 0)
    ensures Settled(cex, z) && FindNext(cex, x, dot) == FromMonth(cex, z, dot, marked)
  {
    hide DayStep, NextUnit, HourOf, MinuteOf, SecondOf, DayOf, FindNext, FromMonth, FromDay, Settled, SettledInHour, Zeroed,
         SecondLeft, Ceiling, Advanced, CronExpr.Matches, CronExpr.MatchesDay, Landing, DayOfMonth, DayOfWeek, HidesMove,
         FieldStep;
    var y := NextUnit(cex.seconds, 60, x);
    SecondTurn(cex, x);
    SecondBelowCeiling(cex, x);
    Unfold(cex, x, dot);
    HiddenDay(cex, y, Marks(cex, x), SecondLeft(cex, x), dot, Marks(cex, x) + {Minute} + {HourOfDay}, z);
    StartsLater(x, y, Landing(cex, DayOf(y), 0), SecondLeft(cex, x));
  }

  /** The day phase on a hidden move. */
  lemma HiddenDay(cex: CronExpr, y: int, marks: set<Field>, s: int, dot: int, marked: set<Field>, z: int)
    requires cex.WellFormed() && Settled(cex, y) && HidesMove(cex, DayOf(y)) && marks <= {Second}
    requires 0 <= s < 60 && s == if Second in marks then 0 else SecondOf(y)
    requires marked <= TIME_FIELDS && marked == marks + {Minute} + {HourOfDay}
    requires z == Landing(cex, DayOf(y), 0) * 86400 + s
    ensures DayOf(y) < DayOf(z) == Landing(cex, DayOf(y), 0) && z <= Ceiling(cex, y)
    ensures Settled(cex, z) && FromDay(cex, y, dot, marked) == FromMonth(cex, z, dot, marked + {DayOfMonthField})
  {
    hide DayStep, HourOf, MinuteOf, SecondOf, DayOf, FindNext, FromMonth, FromDay, Settled, SettledInHour, Zeroed,
         Ceiling, Advanced, CronExpr.Matches, CronExpr.MatchesDay, Landing, DayOfMonth, DayOfWeek, HidesMove;
    var l := Landing(cex, DayOf(y), 0);
    HiddenNumber(cex, DayOf(y));
    DayBelowCeiling(cex, y, marked);
    DayStepLands(y, cex, marked, 0);
    LowZeroed(y, marks);
    DayAtTime(l, s);
    SameDayNumber(cex, y, dot, marked);
  }

  lemma HiddenNumber(cex: CronExpr, n: int)
    requires HidesMove(cex, n)
    ensures var l := Landing(cex, n, 0); n < l && DayOfMonth(l) == DayOfMonth(n)
  {
    hide Landing, DayOfMonth, CronExpr.MatchesDay;
    if Landing(cex, n, 0) == n { StaysOnMatch(cex, n); }
  }

  lemma SameDayNumber(cex: CronExpr, x: int, dot: int, marked: set<Field>)
    requires cex.WellFormed() && Settled(cex, x) && marked <= TIME_FIELDS
    requires DayStep(x, cex, DayOfMonth(DayOf(x)), DayOfWeek(DayOf(x)), marked, 0).1 == DayOfMonth(DayOf(x))
    ensures var y := DayStep(x, cex, DayOfMonth(DayOf(x)), DayOfWeek(DayOf(x)), marked, 0).0;
            Settled(cex, y) && FromDay(cex, x, dot, marked) == FromMonth(cex, y, dot, marked + {DayOfMonthField})
  {
    hide DayStep, DayOf, FindNext, FromMonth, Settled, Ceiling, Advanced, CronExpr.MatchesMonth, DayOfMonth, DayOfWeek;
    DayBelowCeiling(cex, x, marked);
  }

  lemma StartsLater(x: int, y: int, l: int, s: int)
    requires x <= y && DayOf(y) < l && s >= 0
    ensures x < l * 86400 + s
  {
  }

  /** A month step from date y, with the fields above the second marked. */
  lemma MonthStepFrom(cex: CronExpr, y: int, dot: int, marks: set<Field>)
    requires cex.WellFormed() && Settled(cex, y) && marks <= {Second} && !cex.MatchesMonth(DayOf(y))
    ensures var z := MonthDay(MonthReached(cex, DayOf(y))) * 86400 + if Second in marks then 0 else SecondOf(y);
            && y < z && MonthOf(DayOf(y)) < MonthOf(DayOf(z)) == MonthReached(cex, DayOf(y))
            && DayOf(z) == MonthDay(MonthOf(DayOf(z)))
            && FromMonth(cex, y, dot, marks + {Minute} + {HourOfDay} + {DayOfMonthField})
               == if TooFar(z, dot) then GaveUp(z) else FindNext(cex, z, dot)
  {
    hide FieldStep, NextUnit, HourOf, MinuteOf, SecondOf, DayOf, FindNext, Settled, SettledInHour, Zeroed,
         Advanced, Landing, DayOfMonth, MonthOf, MonthDay, TooFar, MonthLength;
    var marked := marks + {Minute} + {HourOfDay} + {DayOfMonthField};
    MonthMovesOn(cex, y, marked);
    MonthStepTo(y, cex.months, marked);
    LowZeroed(y, marks);
    ZeroedMonth(y, marks);
  }

  lemma MonthTurn(cex: CronExpr, x: int, dot: int)
    requires cex.WellFormed() && x >= 0
    requires TurnOf(cex, x).NextMonth? && !HidesMove(cex, DayOf(NextUnit(cex.seconds, 60, x)))
    ensures var z := TurnOf(cex, x).at;
            && x < z && MonthOf(DayOf(x)) < MonthOf(DayOf(z)) == MonthReached(cex, DayOf(NextUnit(cex.seconds, 60, x)))
            && DayOf(z) == MonthDay(MonthOf(DayOf(z)))
            && FindNext(cex, x, dot) == if TooFar(z, dot) then GaveUp(z) else FindNext(cex, z, dot)
  {
    hide NextUnit, HourOf, MinuteOf, SecondOf, DayOf, FindNext, FromMonth, Settled, SettledInHour, HidesMove, HiddenTurnOf,
         SecondLeft, Advanced, CronExpr.MatchesDay, Landing, DayOfMonth, MonthOf, MonthDay, TooFar, MonthReached,
         CronExpr.MatchesMonth;
    var y, marks := NextUnit(cex.seconds, 60, x), Marks(cex, x);
    SecondTurn(cex, x);
    UnfoldDay(cex, x, dot);
    MonthStepFrom(cex, y, dot, marks);
    MonthOfMonotone(DayOf(x), DayOf(y)) by { PartsAt(x); PartsAt(y); }
  }

  lemma ZeroedMonth(y: int, marks: set<Field>)
    ensures Zeroed(y, marks + {Minute} + {HourOfDay} + {DayOfMonthField}) == Zeroed(y, marks + {Minute} + {HourOfDay})
  {
  }

  lemma StopTurn(cex: CronExpr, x: int, dot: int)
    requires cex.WellFormed() && x >= 0 && TurnOf(cex, x).Stop?
    requires !HidesMove(cex, DayOf(NextUnit(cex.seconds, 60, x)))
    ensures FindNext(cex, x, dot) == Found(TurnOf(cex, x).at)
    ensures x <= TurnOf(cex, x).at <= Ceiling(cex, x) && cex.Matches(TurnOf(cex, x).at)
  {
    hide NextUnit, HourOf, MinuteOf, SecondOf, DayOf, FindNext, FromMonth, Settled, SettledInHour, HidesMove, HiddenTurnOf,
         SecondLeft, Advanced, CronExpr.MatchesDay, CronExpr.MatchesMonth, Landing, Ceiling, FieldStep;
    var y, marks := NextUnit(cex.seconds, 60, x), Marks(cex, x);
    SecondTurn(cex, x);
    SecondBelowCeiling(cex, x);
    UnfoldDay(cex, x, dot);
    ResumeMonth(cex, y, dot, marks + {Minute} + {HourOfDay} + {DayOfMonthField});
  }

  lemma HiddenTurn(cex: CronExpr, x: int, dot: int)
    requires cex.WellFormed() && DayStepSound(cex) && x >= 0
    requires var y := NextUnit(cex.seconds, 60, x);
             MinuteOf(y) in cex.minutes && HourOf(y) in cex.hours && HidesMove(cex, DayOf(y))
    ensures var turn, z := TurnOf(cex, x), TurnOf(cex, x).at;
            && x < z && !turn.Again?
            && (turn.Stop? ==> z <= Ceiling(cex, x) && cex.Matches(z) && FindNext(cex, x, dot) == Found(z))
            && (turn.NextMonth? ==>
                  && MonthOf(DayOf(x)) < MonthOf(DayOf(z))
                  && FindNext(cex, x, dot) == if TooFar(z, dot) then GaveUp(z) else FindNext(cex, z, dot))
  {
    hide NextUnit, HourOf, MinuteOf, SecondOf, DayOf, FindNext, FromMonth, Settled, SettledInHour, HidesMove, DayStepSound,
         SecondLeft, Advanced, CronExpr.Matches, CronExpr.MatchesDay, CronExpr.MatchesMonth, Landing, Ceiling, TooFar,
         MonthOf, MonthDay, MonthReached, MatchesMidnight;
    var y, marks, s := NextUnit(cex.seconds, 60, x), Marks(cex, x), SecondLeft(cex, x);
    var l := Landing(cex, DayOf(y), 0);
    SecondTurn(cex, x);
    UnfoldHidden(cex, x, dot, marks + {Minute} + {HourOfDay} + {DayOfMonthField}, l * 86400 + s);
    AtSecond(l, s);
    if cex.MatchesMonth(l) {
      assert DayOf(y) >= 0 by { hide *; DayNotNegative(x, y); }
      DayStepSoundOn(cex, DayOf(y));
      SecondLeftAllowed(cex, x);
      MidnightSecond(cex, l, s);
      ResumeMonth(cex, l * 86400 + s, dot, marks + {Minute} + {HourOfDay} + {DayOfMonthField});
    } else {
      MonthStepFrom(cex, l * 86400 + s, dot, marks);
      MonthOfMonotone(DayOf(x), l) by { hide *; PartsAt(x); PartsAt(l * 86400 + s); DaysOfTimes(x, l * 86400 + s); }
    }
  }

  lemma DayNotNegative(x: int, y: int)
    requires 0 <= x <= y
    ensures DayOf(y) >= 0
  {
  }

  lemma DaysOfTimes(x: int, y: int)
    requires x <= y
    ensures DayOf(x) <= DayOf(y)
  {
  }

  lemma AtSecond(l: int, s: int)
    requires 0 <= s < 60
    ensures DayOf(l * 86400 + s) == l && SecondOf(l * 86400 + s) == s
    ensures MinuteOf(l * 86400 + s) == 0 && HourOf(l * 86400 + s) == 0
  {
    AtParts(l, 0, 0, s);
  }

  lemma SecondLeftAllowed(cex: CronExpr, x: int)
    requires cex.WellFormed()
    ensures SecondLeft(cex, x) == 0 || SecondLeft(cex, x) in cex.seconds
  {
    hide NextUnit;
  }

  lemma MidnightSecond(cex: CronExpr, l: int, s: int)
    requires MatchesMidnight(cex, l) && cex.MatchesMonth(l) && 0 <= s < 60 && (s == 0 || s in cex.seconds)
    ensures cex.Matches(l * 86400 + s)
  {
    hide HourOf, MinuteOf, SecondOf, DayOf, CronExpr.MatchesDay, CronExpr.MatchesMonth;
    AtSecond(l, s);
  }

  /** The whole recursion, turn by turn: every nested search starts strictly later, and the frame
      around it adds nothing to what it finds. */
  lemma TailForm(cex: CronExpr, x: int, dot: int)
    requires cex.WellFormed() && DayStepSound(cex) && x >= 0
    ensures TurnOf(cex, x).Stop? ==>
              var y := TurnOf(cex, x).at;
              x <= y <= Ceiling(cex, x) && cex.Matches(y) && FindNext(cex, x, dot) == Found(y)
    ensures TurnOf(cex, x).Again? ==>
              var z := TurnOf(cex, x).at;
              x < z && Ceiling(cex, z) == Ceiling(cex, x) && FindNext(cex, x, dot) == FindNext(cex, z, dot)
    ensures TurnOf(cex, x).NextMonth? ==>
              var z := TurnOf(cex, x).at;
              && x < z && MonthOf(DayOf(x)) < MonthOf(DayOf(z))
              && FindNext(cex, x, dot) == if TooFar(z, dot) then GaveUp(z) else FindNext(cex, z, dot)
  {
    hide NextUnit, HourOf, MinuteOf, SecondOf, DayOf, FindNext, SecondLeft, CronExpr.Matches, CronExpr.MatchesDay,
         CronExpr.MatchesMonth, Landing, Ceiling, MonthOf, MonthReached, TooFar, MonthDay, DayStepSound, HidesMove,
         HiddenTurnOf;
    var y := NextUnit(cex.seconds, 60, x);
    if MinuteOf(y) !in cex.minutes {
      MinuteTurn(cex, x, dot);
    } else if HourOf(y) !in cex.hours {
      HourTurn(cex, x, dot);
    } else if HidesMove(cex, DayOf(y)) {
      HiddenTurn(cex, x, dot);
    } else if !cex.MatchesDay(DayOf(y)) {
      DayTurn(cex, x, dot);
    } else if !cex.MatchesMonth(DayOf(y)) {
      MonthTurn(cex, x, dot);
    } else {
      StopTurn(cex, x, dot);
    }
  }
}
