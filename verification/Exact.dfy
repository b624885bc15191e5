// Exactly when the answer is the least matching instant after the input.
module Exact {
  import opened Calendar
  import opened CronExprs
  import opened BrokenDownTime
  import opened Steps
  import opened Days
  import opened Search
  import opened Soundness
  import opened Moves
  import opened Leastness
  import opened Gaps

  /** r is the least matching instant after t, or INVALID_TIME when none matches after t. */
  ghost predicate IsAnswer(cex: CronExpr, t: int, r: int) {
    && (r == INVALID_TIME ==> forall z :: z > t ==> !cex.Matches(z))
    && (r != INVALID_TIME ==> IsFirstMatch(cex, t + 1, r))
  }

  ghost predicate AlwaysExact(cex: CronExpr)
    requires cex.WellFormed()
  {
    forall t :: t >= 0 ==> IsAnswer(cex, t, CronNext(cex, t))
  }

  // ---------- The conditions suffice ----------

  lemma NeverMatches(cex: CronExpr, x: int)
    requires !Satisfiable(cex)
    ensures !cex.Matches(x)
  {
    hide MonthOf, DayOfMonth, DayOf, LongestMonth, MonthLength, SecondOf, MinuteOf, HourOf, DayOfWeek;
    var n := DayOf(x);
    LengthOf(MonthOf(n));
    assert DayOfMonth(n) - 1 < LongestMonth(MonthOf(n) % 12);
  }

  /** A day of the given month that both day sets allow, if a day number below its length does. */
  lemma DayInMonth(cex: CronExpr, month: int, b: int) returns (n: int)
    requires cex.WellFormed() && OneDaySetFull(cex) && b in cex.daysOfMonth && b < MonthLength(month)
    ensures MonthOf(n) == month && cex.MatchesDay(n)
  {
    hide MonthOf, MonthDay, MonthLength, DayOfMonth, DayOfWeek;
    if Full(cex.daysOfMonth, 31) {
      var w :| w in cex.daysOfWeek;
      n := WeekdaySoon(MonthDay(month), w);
      DateOf(month, n - MonthDay(month) + 1);
    } else {
      n := MonthDay(month) + b;
      DateOf(month, b + 1);
    }
  }

  /** Every year has a match, unless only 29 February ever matches. */
  lemma MatchInYear(cex: CronExpr, year: int) returns (z: int)
    requires cex.WellFormed() && OneDaySetFull(cex) && Satisfiable(cex) && !LeapDayOnly(cex)
    ensures cex.Matches(z) && YearOf(DayOf(z)) == year
  {
    hide LastTime, DayOf, MonthOf, DayOfMonth, OneDaySetFull, CronExpr.MatchesDay, CronExpr.Matches, MonthLength,
         LongestMonth, Satisfiable, LeapDayOnly, DayOfWeek, BitSet;
    var m, b := ShortMonthDay(cex);
    var month := 12 * year + m;
    InTwelve(cex, m);
    ShortestMonth(year, m);
    var n := DayInMonth(cex, month, b);
    MatchOn(cex, n);
    z := n * 86400 + LastTime(cex);
  }

  lemma InTwelve(cex: CronExpr, m: int)
    requires cex.WellFormed() && m in cex.months
    ensures 0 <= m < 12
  {
  }

  lemma ShortestMonth(year: int, m: int)
    requires 0 <= m < 12
    ensures (12 * year + m) / 12 == year && (12 * year + m) % 12 == m
    ensures MonthLength(12 * year + m) >= if m == 1 then 28 else LongestMonth(m)
  {
  }

  /** An allowed month and an allowed day number that the month has in every year. */
  lemma ShortMonthDay(cex: CronExpr) returns (m: int, b: int)
    requires cex.WellFormed() && Satisfiable(cex) && !LeapDayOnly(cex)
    ensures m in cex.months && b in cex.daysOfMonth && b < if m == 1 then 28 else LongestMonth(m)
  {
    m, b :| m in cex.months && b in cex.daysOfMonth && b < LongestMonth(m);
    if m == 1 && b == 28 {
      if cex.months != {1} {
        m := AnotherElement(cex.months, 1);
      } else {
        b :| b in cex.daysOfMonth && b < 28;
      }
    }
  }

  lemma AnotherElement(s: set<int>, a: int) returns (e: int)
    requires a in s && s != {a}
    ensures e in s && e != a
  {
    assert exists i :: i in s && i != a by {
      assert (forall i :: i in s ==> i == a) ==> s == {a};
    }
    e :| e in s && e != a;
  }

  predicate ConditionsHold(cex: CronExpr)
    requires cex.WellFormed()
  {
    SecondsOk(cex) && DaysFit(cex) && !LeapDayOnly(cex)
  }

  /** Sets on which every search succeeds and skips nothing, whatever the day sets: each condition is a
      finite one on the six sets. */
  predicate Reliable(cex: CronExpr) {
    cex.WellFormed() && DayStepExact(cex) && SecondsOk(cex) && MonthStepsFit(cex) && YearsMeet(cex)
  }

  /** A search on reliable sets succeeds, on the first match from its start on. */
  lemma SearchIsFirst(cex: CronExpr, x: int)
    requires Reliable(cex) && x >= 0
    ensures cex.WellFormed() && FindNext(cex, x, YearOf(DayOf(x))).Found?
    ensures IsFirstMatch(cex, x, FindNext(cex, x, YearOf(DayOf(x))).at)
  {
    hide FindNext, DayOf, MonthOf, CronExpr.Matches, SecondsOk, MonthStepsFit, DayStepSound, YearsMeet;
    var dot := YearOf(DayOf(x));
    var r := FindNext(cex, x, dot);
    forall z | x <= z < r.at ensures !cex.Matches(z) {
      SearchSkipsNothing(cex, x, dot, z);
    }
    MetSearchFinds(cex, x);
    FindNextSound(cex, x, dot);
  }

  /** On reliable sets, restricted in one day field, in both or in none, the answer is the least match
      after the input. */
  lemma ReliableIsExact(cex: CronExpr, t: int)
    requires cex.WellFormed() && Reliable(cex) && t >= 0
    ensures CronNext(cex, t) != INVALID_TIME && IsAnswer(cex, t, CronNext(cex, t))
  {
    hide FindNext, DayOf, MonthOf, YearOf, CronExpr.Matches, Reliable, TooFar, Advanced, CronExpr.WellFormed;
    SearchIsFirst(cex, t);
    SearchIsFirst(cex, t + 1);
  }

  /** With one day set full, the conditions on the sets make them reliable. */
  lemma ConditionsMakeReliable(cex: CronExpr)
    requires cex.WellFormed() && OneDaySetFull(cex) && Satisfiable(cex) && ConditionsHold(cex)
    ensures Reliable(cex)
  {
    hide OneDaySetFull, Satisfiable, SecondsOk, DaysFit, LeapDayOnly, DayStepSound, DayStepExact, MonthStepsFit, StepDay, Met;
    OneDaySetFullIsSound(cex);
    DaysFitSteps(cex);
    forall n | StepDay(cex, n) ensures Met(cex, n) {
      MetByYear(cex, n);
    }
  }

  lemma MetByYear(cex: CronExpr, n: int)
    requires cex.WellFormed() && OneDaySetFull(cex) && Satisfiable(cex) && !LeapDayOnly(cex)
    ensures Met(cex, n)
  {
    hide OneDaySetFull, Satisfiable, LeapDayOnly, MonthDay, DayOf, MonthOf, CronExpr.MatchesDay, CronExpr.MatchesMonth,
         YearSteppedTo, LastTime;
    var year := YearSteppedTo(cex, n);
    var z := MatchInYear(cex, year - 3);
    var k := DayOf(z);
    StepDayLater(cex, n);
    MonthsInOrder(k, 12 * (year - 2));
    MonthsApart(12 * (year - 2), 12 * (year - 1));
    if k < MonthDay(12 * (year - 4)) { MonthBefore(k, 12 * (year - 4)); }
    assert cex.MatchesDay(k) && cex.MatchesMonth(k);
  }

  lemma ConditionsSuffice(cex: CronExpr, t: int)
    requires cex.WellFormed() && OneDaySetFull(cex) && t >= 0
    requires !Satisfiable(cex) || ConditionsHold(cex)
    ensures IsAnswer(cex, t, CronNext(cex, t))
    ensures Satisfiable(cex) ==> CronNext(cex, t) != INVALID_TIME
  {
    hide CronNext, CronExpr.Matches, ConditionsHold, OneDaySetFull, Satisfiable, Reliable, DayStepSound;
    if Satisfiable(cex) {
      ConditionsMakeReliable(cex);
      ReliableIsExact(cex, t);
    } else {
      forall z ensures !cex.Matches(z) { NeverMatches(cex, z); }
      OneDaySetFullIsSound(cex);
      CronNextSound(cex, t);
    }
  }

  // ---------- How far the search goes ----------

  lemma CeilingSoon(cex: CronExpr, x: int)
    requires cex.WellFormed() && OneDaySetFull(cex)
    ensures DayOf(Ceiling(cex, x)) <= DayOf(x) + 61
  {
    hide Landing, LastTime, DayOfMonth, CronExpr.MatchesDay, FirstMatchingDay;
    var n := (x - LastTime(cex) + 86399) / 86400;
    assert n <= DayOf(x) + 1;
    DaySearch(cex, n);
    assert FirstMatchingDay(cex, n) <= Landing(cex, n, 0);
    DayAtTime(FirstMatchingDay(cex, n), LastTime(cex));
  }

  lemma SoonYear(n: int, k: int)
    requires n <= k <= n + 61
    ensures MonthOf(n) <= MonthOf(k) <= MonthOf(n) + 3
  {
    hide MonthOf, MonthDay, MonthLength;
    MonthOfMonotone(n, k);
    if MonthOf(k) > MonthOf(n) + 3 {
      MonthsApart(MonthOf(n) + 1, MonthOf(k));
    }
  }

  /** A search that succeeds ends at most one year after the last year it may start a month in. */
  lemma {:induction false} YearBound(cex: CronExpr, x: int, dot: int)
    requires cex.WellFormed() && OneDaySetFull(cex) && x >= 0
    requires YearOf(DayOf(x)) <= dot + MAX_YEARS_DIFF
    ensures YearOf(DayOf(FindNext(cex, x, dot).at)) <= dot + MAX_YEARS_DIFF + 2
    ensures FindNext(cex, x, dot).Found? ==> YearOf(DayOf(FindNext(cex, x, dot).at)) <= dot + MAX_YEARS_DIFF + 1
  {
    hide FindNext, Ceiling, MonthOf, DayOf, YearOf;
    ChainBound(cex, x, x, dot);
  }

  lemma YearAfter(cex: CronExpr, x: int, y: int)
    requires cex.WellFormed() && OneDaySetFull(cex) && x <= y <= Ceiling(cex, x)
    ensures YearOf(DayOf(y)) <= YearOf(DayOf(x)) + 1
  {
    hide Ceiling, MonthOf, DayOf;
    CeilingSoon(cex, x);
    DaysInOrder(x, y);
    DaysInOrder(y, Ceiling(cex, x));
    SoonYear(DayOf(x), DayOf(y));
  }

  /** x is reached from `start` without a month step in between. */
  lemma {:induction false} ChainBound(cex: CronExpr, start: int, x: int, dot: int)
    requires cex.WellFormed() && OneDaySetFull(cex) && 0 <= start <= x
    requires YearOf(DayOf(start)) <= dot + MAX_YEARS_DIFF && Ceiling(cex, x) == Ceiling(cex, start)
    ensures YearOf(DayOf(FindNext(cex, x, dot).at)) <= dot + MAX_YEARS_DIFF + 2
    ensures FindNext(cex, x, dot).Found? ==> YearOf(DayOf(FindNext(cex, x, dot).at)) <= dot + MAX_YEARS_DIFF + 1
    decreases MonthsLeft(x, dot), Ceiling(cex, x) - x
  {
    hide FindNext, Ceiling, MonthOf, DayOf, TurnOf, CronExpr.Matches, OneDaySetFull, YearOf, DayStepSound;
    var turn := TurnOf(cex, x);
    OneDaySetFullIsSound(cex);
    TailForm(cex, x, dot);
    if turn.Stop? {
      YearAfter(cex, start, turn.at);
    } else if turn.Again? {
      MonthsLeftMonotone(x, turn.at, dot);
      ChainBound(cex, start, turn.at, dot);
    } else if TooFar(turn.at, dot) {
      YearAfter(cex, start, x);
      MonthTurnYear(cex, start, x);
    } else {
      MonthTurnLeft(x, turn.at, dot);
      ChainBound(cex, turn.at, turn.at, dot);
    }
  }

  lemma MonthTurnLeft(x: int, z: int, dot: int)
    requires MonthOf(DayOf(x)) < MonthOf(DayOf(z)) && !TooFar(z, dot)
    ensures MonthsLeft(z, dot) < MonthsLeft(x, dot)
    ensures YearOf(DayOf(z)) <= dot + MAX_YEARS_DIFF
  {
    hide MonthOf, DayOf;
  }

  lemma MonthTurnYear(cex: CronExpr, start: int, x: int)
    requires cex.WellFormed() && OneDaySetFull(cex) && 0 <= start <= x && Ceiling(cex, x) == Ceiling(cex, start)
    requires TurnOf(cex, x).NextMonth?
    ensures YearOf(DayOf(TurnOf(cex, x).at)) <= YearOf(DayOf(start)) + 2
  {
    hide Ceiling, MonthOf, DayOf, TurnOf, FindNext, NextUnit, DayOfMonth, MonthLength, HidesMove;
    var y := NextUnit(cex.seconds, 60, x);
    NothingHidden(cex, DayOf(y));
    MonthTurn(cex, x, 0);
    SecondBelowCeiling(cex, x);
    SecondTurn(cex, x);
    YearAfter(cex, start, y);
    CeilingSoon(cex, start);
    DaysInOrder(start, y);
    DaysInOrder(y, Ceiling(cex, start));
    SoonYear(DayOf(start), DayOf(y));
    assert MonthReached(cex, DayOf(y)) <= MonthOf(DayOf(y)) + 13;
  }

  // ---------- Each condition is needed ----------

  /** With only 29 February allowed, the search from 1 March 2096 gives up before 2104. */
  lemma LeapDayMissed(cex: CronExpr) returns (t: int)
    requires cex.WellFormed() && OneDaySetFull(cex) && LeapDayOnly(cex)
    ensures t >= 0 && CronNext(cex, t) == INVALID_TIME
    ensures !IsAnswer(cex, t, CronNext(cex, t))
  {
    hide FindNext, CronNext, DayOf, MonthOf, DayOfMonth, MonthDay, CronExpr.Matches, OneDaySetFull, LastTime, MonthLength;
    var march, leap := 12 * 196 + 2, MonthDay(12 * 204 + 1) + 28;
    var n := MonthDay(march);
    t := n * 86400;
    MonthsApart(JANUARY_1970, march);
    EpochDay();
    DayAtTime(n, 0);
    DateOf(march, 1);
    assert YearOf(DayOf(t)) == 196;
    LeapFebruary();
    DateOf(12 * 204 + 1, 29);
    assert cex.MatchesDay(leap) && cex.MatchesMonth(leap) by { LeapDayMatches(cex, leap); }
    MatchOn(cex, leap);
    LaterYear(t, leap * 86400 + LastTime(cex));
    NoneBefore2102(cex, t);
    GivenUp(cex, t);
  }

  /** From a time in March 2096 the search, which looks until 2101, meets no 29 February. */
  lemma NoneBefore2102(cex: CronExpr, t: int)
    requires cex.WellFormed() && OneDaySetFull(cex) && LeapDayOnly(cex)
    requires t >= 0 && MonthOf(DayOf(t)) == 12 * 196 + 2
    ensures FindNext(cex, t, 196).GaveUp?
  {
    hide FindNext, DayOf, MonthOf, CronExpr.Matches, OneDaySetFull, LeapDayOnly, IsLeap, Settled, MonthsLeft, Ceiling,
         DayStepSound;
    YearBound(cex, t, 196);
    OneDaySetFullIsSound(cex);
    FindNextSound(cex, t, 196);
    var r := FindNext(cex, t, 196);
    if r.Found? {
      MatchIsLeapDay(cex, r.at);
      DaysInOrder(t, r.at);
      MonthOfMonotone(DayOf(t), DayOf(r.at));
      NoLeapFebruary(MonthOf(DayOf(r.at)));
    }
  }

  lemma GivenUp(cex: CronExpr, t: int)
    requires cex.WellFormed() && t >= 0 && FindNext(cex, t, YearOf(DayOf(t))).GaveUp?
    ensures CronNext(cex, t) == INVALID_TIME
  {
    hide FindNext, YearOf, DayOf;
  }

  lemma NoLeapFebruary(month: int)
    requires 12 * 196 + 2 <= month && month % 12 == 1 && month / 12 <= 201
    ensures !IsLeap(month / 12)
  {
    var year := month / 12;
    assert year in {197, 198, 199, 200, 201};
  }

  lemma LeapFebruary()
    ensures MonthLength(12 * 204 + 1) == 29
  {
  }

  lemma LeapDayMatches(cex: CronExpr, n: int)
    requires cex.WellFormed() && OneDaySetFull(cex) && LeapDayOnly(cex)
    requires DayOfMonth(n) == 29 && MonthOf(n) % 12 == 1
    ensures cex.MatchesDay(n) && cex.MatchesMonth(n)
  {
    hide DayOfMonth, MonthOf;
    assert 0 !in cex.daysOfMonth;
    assert DayOfWeek(n) in cex.daysOfWeek;
  }

  lemma MatchIsLeapDay(cex: CronExpr, x: int)
    requires LeapDayOnly(cex) && cex.Matches(x)
    ensures MonthOf(DayOf(x)) % 12 == 1 && IsLeap(YearOf(DayOf(x)))
  {
    hide DayOf, MonthOf, SecondOf, MinuteOf, HourOf;
    assert DayOfMonth(DayOf(x)) >= 29;
  }

  /** Days from the first of a month after February to the end of the year. */
  function YearTail(mon: int): int
    requires 2 <= mon <= 12
    decreases 12 - mon
  {
    if mon == 12 then 0 else LongestMonth(mon) + YearTail(mon + 1)
  }

  lemma {:induction false} YearTailDays(year: int, mon: int)
    requires 2 <= mon <= 12
    ensures MonthDay(12 * year + 12) == MonthDay(12 * year + mon) + YearTail(mon)
    decreases 12 - mon
  {
    hide MonthDay, LongestMonth, MonthLength;
    if mon < 12 {
      MonthStep(12 * year + mon);
      SameLength(year, mon);
      YearTailDays(year, mon + 1);
    }
  }

  lemma SameLength(year: int, mon: int)
    requires 0 <= mon < 12 && mon != 1
    ensures MonthLength(12 * year + mon) == LongestMonth(mon)
  {
    assert (12 * year + mon) % 12 == mon;
  }

  /** The first of any month of the year falls on any weekday in some year. */
  lemma MonthOnWeekday(mon: int, wday: int) returns (year: int)
    requires 0 <= mon < 12 && 0 <= wday < 7
    ensures 100 <= year <= 110 && DayOfWeek(MonthDay(12 * year + mon)) == wday
  {
    hide MonthDay, MonthLength, YearTail, DayOfWeek;
    if mon == 0 {
      year := JanuaryOnWeekday(0, wday);
    } else if mon == 1 {
      year := JanuaryOnWeekday(0, (wday - 31) % 7);
      MonthStep(12 * year);
      JanuaryLength(year);
      WeekdayAfter(MonthDay(12 * year), wday, 31) by { WeekdayBack(wday, 31); }
    } else {
      var next := JanuaryOnWeekday(0, (wday + YearTail(mon)) % 7);
      year := next - 1;
      YearTailDays(year, mon);
      WeekdayAfter(MonthDay(12 * next), wday, -YearTail(mon)) by { WeekdayBack(wday, -YearTail(mon)); }
    }
  }

  /** With the weekday restricted: a day that overflows the next month and has an allowed weekday. */
  lemma OverflowOnWeekday(cex: CronExpr, mon: int, d: int, len: int) returns (year: int, day: int)
    requires cex.WellFormed() && Full(cex.daysOfMonth, 31) && mon != 1 && Overflows(cex, mon, d, len)
    ensures 100 <= year && d <= day + 1 && 0 < day <= LongestMonth(mon)
    ensures day - 1 in cex.daysOfMonth && DayOfWeek(MonthDay(12 * year + mon) + day - 1) in cex.daysOfWeek
    ensures MonthLength(12 * year + NextUnit(cex.months, 12, mon)) < day
  {
    hide MonthDay, MonthLength, NextUnit, DayOfWeek;
    var w :| w in cex.daysOfWeek;
    var next := NextUnit(cex.months, 12, mon);
    day := if next % 12 == 1 then 30 else d;
    year := MonthOnWeekday(mon, (w - (day - 1)) % 7);
    WeekdayBack(w, day - 1);
    WeekdayAfter(MonthDay(12 * year + mon), w, day - 1);
    NextLength(year, next, len, day);
  }

  /** With every weekday allowed: a year in which the next month has the given length. */
  lemma OverflowInYear(cex: CronExpr, mon: int, d: int, len: int) returns (year: int)
    requires cex.WellFormed() && Full(cex.daysOfWeek, 7) && Overflows(cex, mon, d, len)
    ensures 100 <= year && DayOfWeek(MonthDay(12 * year + mon) + d - 1) in cex.daysOfWeek
    ensures MonthLength(12 * year + NextUnit(cex.months, 12, mon)) == len
  {
    hide MonthDay, MonthLength, NextUnit, DayOfWeek;
    var next := NextUnit(cex.months, 12, mon);
    year := (if len == 29 then 204 else 205) - next / 12;
    NextLength(year, next, len, d);
  }

  /** A month that is not allowed, a matching day in it that overflows the next allowed month, and
      a matching day of that month. */
  lemma OverflowDays(cex: CronExpr, mon: int, d: int, len: int) returns (month: int, n: int, k: int)
    requires cex.WellFormed() && OneDaySetFull(cex) && Overflows(cex, mon, d, len)
    ensures month >= JANUARY_1970 && month % 12 == mon && MonthOf(n) == month && cex.MatchesDay(n)
    ensures DayOfMonth(n) > MonthLength(NextUnit(cex.months, 12, month))
    ensures MonthOf(k) == NextUnit(cex.months, 12, month) && cex.MatchesDay(k)
  {
    hide MonthDay, MonthLength, MonthOf, DayOfMonth, NextUnit, DayOfWeek, LongestMonth, HasLength;
    NotFebruary(cex, mon, d, len);
    var next := NextUnit(cex.months, 12, mon);
    var year, day, b;
    if Full(cex.daysOfMonth, 31) {
      year, day := OverflowOnWeekday(cex, mon, d, len);
      b := 0;
    } else {
      day := d;
      year := OverflowInYear(cex, mon, d, len);
      b :| b in cex.daysOfMonth && b < len;
    }
    month := 12 * year + mon;
    Twelfths(year, mon);
    NextUnitShift(cex.months, month);
    SameLength(year, mon);
    n := MonthDay(month) + day - 1;
    DateOf(month, day);
    k := DayInMonth(cex, 12 * year + next, b);
  }

  lemma Twelfths(year: int, mon: int)
    requires 0 <= mon < 12
    ensures (12 * year + mon) % 12 == mon
  {
  }

  /** February has no day that overflows a month other than itself. */
  lemma NotFebruary(cex: CronExpr, mon: int, d: int, len: int)
    requires cex.WellFormed() && Overflows(cex, mon, d, len)
    ensures mon != 1
  {
    hide NextUnit;
    NextIsNotSame(cex.months, mon);
  }

  lemma NextIsNotSame(months: set<int>, mon: int)
    requires BitSet(months, 12) && 0 <= mon < 12 && mon !in months
    ensures NextUnit(months, 12, mon) % 12 != mon
  {
    hide NextUnit;
  }

  lemma NextLength(year: int, next: int, len: int, day: int)
    requires 0 <= next && HasLength(next % 12, len) && len < day <= 31
    requires next % 12 == 1 ==> day >= 30 || year + next / 12 == (if len == 29 then 204 else 205)
    ensures MonthLength(12 * year + next) < day
    ensures next % 12 == 1 && year + next / 12 == (if len == 29 then 204 else 205) ==> MonthLength(12 * year + next) == len
    ensures next % 12 != 1 ==> MonthLength(12 * year + next) == len
  {
    assert (12 * year + next) % 12 == next % 12;
    assert (12 * year + next) / 12 == year + next / 12;
  }

  /** When a day does not fit the next allowed month, a search from it passes that month by. */
  lemma OverflowMissed(cex: CronExpr) returns (t: int)
    requires cex.WellFormed() && OneDaySetFull(cex) && !DaysFit(cex)
    ensures t >= 0 && !IsAnswer(cex, t, CronNext(cex, t))
  {
    hide FindNext, DayOf, MonthOf, DayOfMonth, MonthDay, CronExpr.Matches, OneDaySetFull, LastTime, MonthLength,
         NextUnit, CronExpr.MatchesDay, Overflows, TurnOf, HourOf, MinuteOf, SecondOf, DayStepSound;
    var mon, d, len :| 0 <= mon < 12 && 28 <= len <= 31 && 1 <= d <= 31 && Overflows(cex, mon, d, len);
    var month, n, k := OverflowDays(cex, mon, d, len);
    t := n * 86400 + LastTime(cex);
    assert mon !in cex.months by { MonthNotAllowed(cex, mon, d, len); }
    assert n >= 0 by { DayWithin(n); EpochDay(); MonthsApart(JANUARY_1970, month); }
    DayAtTime(n, LastTime(cex));
    var next := NextUnit(cex.months, 12, month);
    var at := TurnOf(cex, t).at;
    TurnAtMonth(cex, n);
    assert cex.MatchesMonth(k) by { hide *; assert next % 12 in cex.months; }
    MatchOn(cex, k);
    var z := k * 86400 + LastTime(cex);
    EarlierMonth(t, z);
    EarlierMonth(z, at);
    OneDaySetFullIsSound(cex);
    TailForm(cex, t, YearOf(n));
    assert !cex.Matches(t) by { NotThatMonth(cex, t); }
    assert CronNext(cex, t) == INVALID_TIME || CronNext(cex, t) >= at;
  }

  lemma MonthNotAllowed(cex: CronExpr, mon: int, d: int, len: int)
    requires cex.WellFormed() && Overflows(cex, mon, d, len)
    ensures mon !in cex.months
  {
  }

  lemma NotThatMonth(cex: CronExpr, t: int)
    requires !cex.MatchesMonth(DayOf(t))
    ensures !cex.Matches(t)
  {
  }

  lemma EarlierMonth(x: int, y: int)
    requires MonthOf(DayOf(x)) < MonthOf(DayOf(y))
    ensures x < y
  {
    hide DayOf, MonthOf;
    if y <= x {
      DaysInOrder(y, x);
      MonthOfMonotone(DayOf(y), DayOf(x));
    }
  }

  /** From an allowed time on a matching day of a month that is not allowed, the turn is a month step. */
  lemma TurnAtMonth(cex: CronExpr, n: int)
    requires cex.WellFormed() && n >= 0 && cex.MatchesDay(n) && !cex.MatchesMonth(n)
    ensures var turn := TurnOf(cex, n * 86400 + LastTime(cex));
            turn.NextMonth? && MonthOf(DayOf(turn.at)) == MonthReached(cex, n)
  {
    hide DayOf, MonthOf, DayOfMonth, MonthDay, LastTime, NextUnit, CronExpr.MatchesDay, CronExpr.MatchesMonth,
         HourOf, MinuteOf, SecondOf, MonthReached, SecondLeft, HidesMove, HiddenTurnOf;
    var t := n * 86400 + LastTime(cex);
    DayAtTime(n, LastTime(cex));
    Quotient(n, 86400, LastTime(cex));
    SameTimeParts(t, LastTime(cex));
    SecondTurn(cex, t);
    MatchIsNotHidden(cex, n);
    MonthTurn(cex, t, 0);
  }

  lemma MatchIsNotHidden(cex: CronExpr, n: int)
    requires cex.MatchesDay(n)
    ensures !HidesMove(cex, n)
  {
  }

  /** A field that is not full leaves some minute unmatched. */
  lemma UnmatchedMinute(cex: CronExpr) returns (u: int)
    requires cex.WellFormed() && !OthersFull(cex)
    ensures u >= 0 && !MatchesMinute(cex, u)
  {
    hide DayOfMonth, MonthOf, MonthDay, MonthLength;
    if !Full(cex.minutes, 60) {
      u :| 0 <= u < 60 && u !in cex.minutes;
    } else if !Full(cex.hours, 24) {
      var h :| 0 <= h < 24 && h !in cex.hours;
      u := h * 60;
    } else {
      var n := UnmatchedDay(cex);
      u := n * 1440;
    }
  }

  lemma UnmatchedDay(cex: CronExpr) returns (n: int)
    requires cex.WellFormed()
    requires !Full(cex.daysOfMonth, 31) || !Full(cex.daysOfWeek, 7) || !Full(cex.months, 12)
    ensures n >= 0 && !(cex.MatchesDay(n) && cex.MatchesMonth(n))
  {
    hide DayOfMonth, MonthOf, MonthDay, MonthLength;
    EpochDay();
    JanuaryLength(70);
    if !Full(cex.daysOfMonth, 31) {
      n :| 0 <= n < 31 && n !in cex.daysOfMonth;
      DateOf(JANUARY_1970, n + 1);
    } else if !Full(cex.daysOfWeek, 7) {
      var w :| 0 <= w < 7 && w !in cex.daysOfWeek;
      n := (w + 3) % 7;
    } else {
      var m :| 0 <= m < 12 && m !in cex.months;
      MonthsApart(JANUARY_1970, JANUARY_1970 + m);
      n := MonthDay(JANUARY_1970 + m);
      DateOf(JANUARY_1970 + m, 1);
    }
  }

  /** Between an unmatched minute and a later matching one, some minute begins a match. */
  lemma {:induction false} MatchBegins(cex: CronExpr, first: int, last: int) returns (u: int)
    requires first < last && !MatchesMinute(cex, first) && MatchesMinute(cex, last)
    ensures first < u <= last && MatchesMinute(cex, u) && !MatchesMinute(cex, u - 1)
    decreases last - first
  {
    hide MatchesMinute;
    if MatchesMinute(cex, first + 1) {
      u := first + 1;
      assert u - 1 == first;
    } else {
      assert first + 1 != last;
      u := MatchBegins(cex, first + 1, last);
    }
  }

  /** A turn that changes a field leaves the minute it found. */
  lemma TurnLeavesMinute(cex: CronExpr, x: int)
    requires cex.WellFormed() && TurnOf(cex, x) != Stop(NextUnit(cex.seconds, 60, x))
    ensures TurnOf(cex, x).at / 60 > NextUnit(cex.seconds, 60, x) / 60
  {
    hide NextUnit, SecondOf, SecondLeft, CronExpr.MatchesDay, CronExpr.MatchesMonth, Landing, MonthReached, MonthDay,
         MinuteOf, HourOf, DayOf, HidesMove;
    var y := NextUnit(cex.seconds, 60, x);
    var s := SecondLeft(cex, x);
    SecondTurn(cex, x);
    MinuteQuotients(y);
    MinuteIs(y);
    if MinuteOf(y) !in cex.minutes {
      Quotient(NextUnit(cex.minutes, 60, y / 60), 60, s);
    } else if HourOf(y) !in cex.hours {
      Quotient(NextUnit(cex.hours, 24, y / 3600) * 60, 60, s);
      LaterUnit(y / 60, 60, NextUnit(cex.hours, 24, y / 3600));
    } else if HidesMove(cex, DayOf(y)) {
      var l := Landing(cex, DayOf(y), 0);
      HiddenNumber(cex, DayOf(y));
      LaterDay(y, l, s);
      if !cex.MatchesMonth(l) {
        MonthStepLater(cex, l);
        LaterDay(y, MonthDay(MonthReached(cex, l)), s);
      }
    } else if !cex.MatchesDay(DayOf(y)) {
      var l := Landing(cex, DayOf(y), 0);
      if l == DayOf(y) { StaysOnMatch(cex, l); }
      LaterDay(y, l, s);
    } else {
      MonthStepLater(cex, DayOf(y));
      LaterDay(y, MonthDay(MonthReached(cex, DayOf(y))), s);
    }
  }

  lemma LaterDay(y: int, n: int, s: int)
    requires DayOf(y) < n && 0 <= s < 60
    ensures (n * 86400 + s) / 60 > y / 60
  {
    hide DayOf;
    Quotient(n * 1440, 60, s);
    MinuteIs(y);
    MinuteQuotients(y);
    LaterUnit(y / 60, 1440, n);
  }

  lemma MinuteIs(y: int)
    ensures y / 60 % 60 == MinuteOf(y) && y / 3600 % 24 == HourOf(y) && y / 86400 == DayOf(y)
  {
  }

  lemma LaterUnit(u: int, p: int, q: int)
    requires (p == 60 || p == 1440) && u / p < q
    ensures u < q * p
  {
  }

  lemma MatchStops(cex: CronExpr, x: int)
    requires cex.WellFormed() && cex.Matches(x)
    ensures TurnOf(cex, x) == Stop(x)
  {
    hide NextUnit, MinuteOf, HourOf, DayOf, SecondLeft, CronExpr.MatchesDay, CronExpr.MatchesMonth,
         HidesMove, HiddenTurnOf;
    SecondTurn(cex, x);
    MatchIsNotHidden(cex, DayOf(x));
  }

  lemma FirstMinuteOfMatch(cex: CronExpr) returns (u: int)
    requires cex.WellFormed() && Matchable(cex) && !OthersFull(cex)
    ensures u > 0 && MatchesMinute(cex, u) && !MatchesMinute(cex, u - 1)
  {
    hide DayOf, CronExpr.Matches, MatchesMinute, SecondOf, Matchable, OthersFull, CronExpr.MatchesDay, CronExpr.MatchesMonth,
         LastTime;
    var from := UnmatchedMinute(cex);
    var n := LaterMatch(cex, DayOf(from * 60));
    MatchOn(cex, n);
    var late := n * 86400 + LastTime(cex);
    if late <= from * 60 { DaysInOrder(late, from * 60); }
    MatchesInMinute(cex, late);
    MinutesInOrder(from * 60, late);
    u := MatchBegins(cex, from, late / 60);
  }

  /** From second v of a minute before a match begins, v in a gap that ends later in that minute,
      the turn goes to the minute of the match but keeps the second at the end of the gap. */
  lemma TurnKeepsSecond(cex: CronExpr, u: int, v: int, b: int)
    requires cex.WellFormed() && DayStepExact(cex) && MonthStepsFit(cex)
    requires u > 0 && MatchesMinute(cex, u) && !MatchesMinute(cex, u - 1)
    requires 0 <= v < b && b in cex.seconds && v !in cex.seconds
    ensures var at := TurnOf(cex, (u - 1) * 60 + v).at;
            at / 60 == u && v < at % 60 && cex.Matches(at)
  {
    hide FindNext, DayOf, CronExpr.Matches, TurnOf, NextUnit, MatchesMinute, SecondOf, MonthStepsFit, SecondLeft,
         BitSet, Ceiling, MinuteOf, HourOf, DayStepSound, DayStepExact, HidesMove;
    var t := (u - 1) * 60 + v;
    var y := NextUnit(cex.seconds, 60, t);
    ExactIsSound(cex);
    BelowSixty(cex, b);
    SecondIn(u - 1, v);
    SecondIn(u - 1, b);
    NextUnitBelow(cex.seconds, 60, t, (u - 1) * 60 + b);
    SecondIs(y);
    assert (u - 1) * 60 + v <= y <= (u - 1) * 60 + b;
    assert y / 60 == u - 1 && v <= y % 60;
    assert y != t;
    assert TurnOf(cex, t) != Stop(y) by {
      if TurnOf(cex, t) == Stop(y) {
        TailForm(cex, t, 0);
        MatchesInMinute(cex, y);
      }
    }
    LowPart(cex, t);
    LeftMoved(cex, t);
    TurnLeavesMinute(cex, t);
    var at := TurnOf(cex, t).at;
    assert at / 60 <= u by { if u < at / 60 { MinutesPassed(cex, t, u); } }
    SecondIs(at);
    MatchesInMinute(cex, at);
  }

  /** With a gap in the seconds, an earlier second of the minute found would do. */
  lemma SecondMissed(cex: CronExpr) returns (t: int)
    requires cex.WellFormed() && DayStepExact(cex) && MonthStepsFit(cex) && Matchable(cex) && !SecondsOk(cex)
    ensures t >= 0 && !IsAnswer(cex, t, CronNext(cex, t))
  {
    hide FindNext, DayOf, YearOf, CronExpr.Matches, TurnOf, NextUnit, MatchesMinute, SecondOf, Matchable, MonthStepsFit,
         DayStepExact, OthersFull;
    var a, b, v :| a in cex.seconds && b in cex.seconds && a < v < b && v !in cex.seconds;
    BelowSixty(cex, a);
    BelowSixty(cex, b);
    var u := FirstMinuteOfMatch(cex);
    t := (u - 1) * 60 + v;
    TurnKeepsSecond(cex, u, v, b);
    var at := TurnOf(cex, t).at;
    SecondIs(at);
    SecondIn(u - 1, v);
    SecondIn(u, a);
    MatchesInMinute(cex, t);
    MatchesInMinute(cex, u * 60 + a);
    ExactIsSound(cex);
    EarlierMatchMissed(cex, t, at, u * 60 + a);
  }

  /** A turn that goes to a match beyond an earlier one makes the answer wrong. */
  lemma EarlierMatchMissed(cex: CronExpr, t: int, at: int, z: int)
    requires cex.WellFormed() && DayStepSound(cex) && t >= 0 && !cex.Matches(t)
    requires TurnOf(cex, t).at == at && cex.Matches(at)
    requires t < z < at && cex.Matches(z)
    ensures !IsAnswer(cex, t, CronNext(cex, t))
  {
    hide FindNext, DayOf, YearOf, CronExpr.Matches, TurnOf, TooFar, DayStepSound, Ceiling, MonthOf;
    TailForm(cex, t, YearOf(DayOf(t)));
    MatchStops(cex, at);
    TailForm(cex, at, YearOf(DayOf(t)));
  }

  // ---------- For any day sets ----------

  /** Some day of a cycle of 400 years matches. */
  predicate Matchable(cex: CronExpr) {
    exists n :: 0 <= n < CYCLE_DAYS && cex.MatchesDay(n) && cex.MatchesMonth(n)
  }

  lemma {:induction false} LaterMatch(cex: CronExpr, after: int) returns (n: int)
    requires Matchable(cex)
    ensures n > after && cex.MatchesDay(n) && cex.MatchesMonth(n)
    decreases if after < 0 then 0 else after + 1
  {
    hide CronExpr.MatchesDay, CronExpr.MatchesMonth;
    if after < 0 {
      n :| 0 <= n < CYCLE_DAYS && cex.MatchesDay(n) && cex.MatchesMonth(n);
    } else {
      hide Matchable;
      n := LaterMatch(cex, after - CYCLE_DAYS);
      DayRepeats(cex, n);
      n := n + CYCLE_DAYS;
    }
  }

  lemma {:induction false} NoDayMatches(cex: CronExpr, n: int)
    requires !Matchable(cex) && n >= 0
    ensures !cex.MatchesDay(n) || !cex.MatchesMonth(n)
    decreases n
  {
    hide CronExpr.MatchesDay, CronExpr.MatchesMonth;
    if n >= CYCLE_DAYS {
      hide Matchable;
      NoDayMatches(cex, n - CYCLE_DAYS);
      assert n == n - CYCLE_DAYS + CYCLE_DAYS;
      DayRepeats(cex, n - CYCLE_DAYS);
    }
  }

  /** A match that a month step passes is missed from the last allowed time of the day stepped from. */
  lemma StepMissed(cex: CronExpr) returns (t: int)
    requires cex.WellFormed() && DayStepSound(cex) && !MonthStepsFit(cex)
    ensures t >= 0 && !IsAnswer(cex, t, CronNext(cex, t))
  {
    hide FindNext, DayOf, MonthOf, DayOfMonth, MonthDay, CronExpr.Matches, LastTime, MonthReached, DayStepSound,
         NextUnit, CronExpr.MatchesDay, CronExpr.MatchesMonth, TurnOf, HourOf, MinuteOf, SecondOf, TooFar;
    var n :| 0 <= n < CYCLE_DAYS && StepDay(cex, n) && !MonthStepFits(cex, n);
    var k :| n < k < MonthDay(MonthReached(cex, n)) && cex.MatchesDay(k) && cex.MatchesMonth(k);
    t := n * 86400 + LastTime(cex);
    DayAtTime(n, LastTime(cex));
    var at := TurnOf(cex, t).at;
    TurnAtMonth(cex, n);
    MatchOn(cex, k);
    var z := k * 86400 + LastTime(cex);
    MonthBefore(k, MonthReached(cex, n));
    EarlierMonth(z, at);
    TailForm(cex, t, YearOf(n));
    assert !cex.Matches(t) by { NotThatMonth(cex, t); }
    assert CronNext(cex, t) == INVALID_TIME || CronNext(cex, t) >= at;
  }

  /** Where some step day is not met, some search gives up though matches lie ahead. */
  lemma UnmetMissed(cex: CronExpr) returns (t: int)
    requires cex.WellFormed() && DayStepSound(cex) && Matchable(cex) && !YearsMeet(cex)
    ensures t >= 0 && CronNext(cex, t) == INVALID_TIME && !IsAnswer(cex, t, CronNext(cex, t))
  {
    hide CronNext, DayOf, CronExpr.Matches, LastTime, DayStepSound, CronExpr.MatchesDay, CronExpr.MatchesMonth, Matchable,
         Met, StepDay, MonthOf, YearSteppedTo;
    t := UnmetSearch(cex);
    var k := LaterMatch(cex, DayOf(t));
    MatchOn(cex, k);
    var z := k * 86400 + LastTime(cex);
    if z <= t { DaysInOrder(z, t); }
  }

  lemma UnmetSearch(cex: CronExpr) returns (t: int)
    requires cex.WellFormed() && DayStepSound(cex) && !YearsMeet(cex)
    ensures t >= 0 && CronNext(cex, t) == INVALID_TIME
  {
    hide CronNext, DayStepSound, Met, StepDay, MonthOf, YearSteppedTo, MeetFrom;
    var n :| 0 <= n < CYCLE_DAYS && StepDay(cex, n) && !Met(cex, n);
    MetRepeats(cex, n);
    MeetFromRepeats(cex, n);
    SteppedFromEpoch(cex, n);
    t := UnmetGivesUp(cex, n + CYCLE_DAYS);
  }

  lemma SteppedFromEpoch(cex: CronExpr, n: int)
    requires cex.WellFormed() && n >= 0
    ensures YearSteppedTo(cex, n) >= 70
  {
    hide MonthOf, MonthDay, NextUnit;
    EpochDay();
    JanuaryLength(70);
    DateOf(JANUARY_1970, 1);
    MonthOfMonotone(0, n);
  }

  /** Leastness, exactly, for any day sets whose hidden moves end harmlessly: the answer is always the
      least later match, or INVALID_TIME when there is none, if and only if no day ever matches or the
      seconds are kept, no month step passes a match, and none comes after four years without one. */
  lemma ExactIffAny(cex: CronExpr)
    requires cex.WellFormed() && DayStepExact(cex)
    ensures AlwaysExact(cex) <==> !Matchable(cex) || (SecondsOk(cex) && MonthStepsFit(cex) && YearsMeet(cex))
  {
    hide CronNext, IsAnswer, SecondsOk, MonthStepsFit, YearsMeet, DayStepExact, Matchable, CronExpr.WellFormed;
    ExactIsSound(cex);
    if !Matchable(cex) {
      forall t | t >= 0 ensures IsAnswer(cex, t, CronNext(cex, t)) { UnmatchableIsExact(cex, t); }
    } else if !MonthStepsFit(cex) {
      var t := StepMissed(cex);
    } else if !SecondsOk(cex) {
      var t := SecondMissed(cex);
    } else if !YearsMeet(cex) {
      var t := UnmetMissed(cex);
    } else {
      forall t | t >= 0 ensures IsAnswer(cex, t, CronNext(cex, t)) { ReliableIsExact(cex, t); }
    }
  }

  lemma UnmatchableIsExact(cex: CronExpr, t: int)
    requires cex.WellFormed() && DayStepSound(cex) && !Matchable(cex) && t >= 0
    ensures CronNext(cex, t) == INVALID_TIME && IsAnswer(cex, t, CronNext(cex, t))
  {
    hide CronNext, DayStepSound, Matchable, CronExpr.MatchesDay, CronExpr.MatchesMonth, CronExpr.MatchesTime, DayOf;
    forall z | z >= 0 ensures !cex.Matches(z) {
      assert DayOf(z) >= 0 by { DayNotNegative(0, z); }
      NoDayMatches(cex, DayOf(z));
    }
    CronNextSound(cex, t);
    Progress(cex, t);
  }

  lemma BelowSixty(cex: CronExpr, b: int)
    requires cex.WellFormed() && b in cex.seconds
    ensures 0 <= b < 60
  {
  }

  lemma SecondIn(u: int, s: int)
    requires 0 <= s < 60
    ensures (u * 60 + s) % 60 == s == SecondOf(u * 60 + s) && (u * 60 + s) / 60 == u
  {
    Quotient(u, 60, s);
  }

  // ---------- The theorem ----------

  /** With one day set full, cron_next always answers with the least matching instant after its
      input, or INVALID_TIME when there is none, if and only if no instant matches at all or the
      three conditions on the sets hold. */
  lemma ExactIff(cex: CronExpr)
    requires cex.WellFormed() && OneDaySetFull(cex)
    ensures AlwaysExact(cex) <==> !Satisfiable(cex) || ConditionsHold(cex)
  {
    hide CronNext, IsAnswer, Satisfiable, SecondsOk, DaysFit, LeapDayOnly, OneDaySetFull, MonthStepsFit, Matchable, DayStepExact,
         DayStepSound;
    if !Satisfiable(cex) || ConditionsHold(cex) {
      forall t | t >= 0 ensures IsAnswer(cex, t, CronNext(cex, t)) {
        ConditionsSuffice(cex, t);
      }
    } else if LeapDayOnly(cex) {
      var t := LeapDayMissed(cex);
    } else if !DaysFit(cex) {
      var t := OverflowMissed(cex);
    } else {
      OneDaySetFullIsSound(cex);
      DaysFitSteps(cex);
      SatisfiableMatches(cex);
      var t := SecondMissed(cex);
    }
  }

  lemma SatisfiableMatches(cex: CronExpr)
    requires cex.WellFormed() && OneDaySetFull(cex) && Satisfiable(cex) && !LeapDayOnly(cex)
    ensures Matchable(cex)
  {
    hide CronExpr.Matches, OneDaySetFull, Satisfiable, LeapDayOnly, Matchable, DayOf, MonthOf;
    var z := MatchInYear(cex, 71);
    MatchHasDay(cex, z);
    if !Matchable(cex) {
      MatchAfterEpoch(z);
      NoDayMatches(cex, DayOf(z));
    }
  }

  lemma MatchHasDay(cex: CronExpr, x: int)
    requires cex.Matches(x)
    ensures cex.MatchesDay(DayOf(x)) && cex.MatchesMonth(DayOf(x))
  {
  }

  lemma MatchAfterEpoch(z: int)
    requires YearOf(DayOf(z)) == 71
    ensures DayOf(z) >= 0
  {
    hide MonthOf, MonthDay, DayOf;
    EpochDay();
    MonthsApart(JANUARY_1970, MonthOf(DayOf(z)));
  }

  /** With any day sets, always answering exactly requires the day step to be sound. */
  lemma ExactNeedsSound(cex: CronExpr)
    requires cex.WellFormed() && AlwaysExact(cex)
    ensures DayStepSound(cex)
  {
    hide CronNext, CronExpr.Matches, DayStepSound;
    SoundIff(cex);
    assert forall t :: t >= 0 ==> IsAnswer(cex, t, CronNext(cex, t));
  }
}
