// The recursive search as a function on instants, in the phases the source runs through:
// seconds and minutes, then hours, then days, then months.  Each phase that changes its field
// searches again from the new date and then resumes on the date that search left behind.
module Search {
  import opened Calendar
  import opened CronExprs
  import opened BrokenDownTime
  import opened Steps
  import opened Days

  const MAX_YEARS_DIFF := 4

  /** true from the source's search is Found, false is GaveUp; `at` is where the date stands. */
  datatype Outcome = Found(at: int) | GaveUp(at: int)

  /** date.tm_year - dot > CRON_MAX_YEARS_DIFF, in unsigned arithmetic. */
  predicate TooFar(x: int, dot: int) {
    YearOf(DayOf(x)) < dot || YearOf(DayOf(x)) - dot > MAX_YEARS_DIFF
  }

  // ---------- Why the search ends ----------

  function Greatest(s: set<int>, size: nat): (g: int)
    requires BitSet(s, size)
    ensures g in s && forall i :: i in s ==> i <= g
  {
    if size - 1 in s then size - 1 else Greatest(s, size - 1)
  }

  /** The last allowed time of day. */
  function LastTime(cex: CronExpr): (t: int)
    requires cex.WellFormed()
    ensures 0 <= t < 86400
    ensures t % 60 == Greatest(cex.seconds, 60)
    ensures t % 3600 == Greatest(cex.minutes, 60) * 60 + Greatest(cex.seconds, 60)
    ensures SecondOf(t) in cex.seconds && MinuteOf(t) in cex.minutes && HourOf(t) in cex.hours
  {
    hide DayOf, HourOf, MinuteOf, SecondOf;
    var h, m, s := Greatest(cex.hours, 24), Greatest(cex.minutes, 60), Greatest(cex.seconds, 60);
    AtParts(0, h, m, s);
    PartsAt(At(0, h, m, s));
    At(0, h, m, s)
  }

  /** No part of the time of day lies beyond the last allowed one, so it can be met without a carry. */
  predicate Settled(cex: CronExpr, x: int)
    requires cex.WellFormed()
  {
    SettledInHour(cex, x) && x % 86400 <= LastTime(cex)
  }

  predicate SettledInHour(cex: CronExpr, x: int)
    requires cex.WellFormed()
  {
    x % 60 <= LastTime(cex) % 60 && x % 3600 <= LastTime(cex) % 3600
  }

  /** The last allowed time on the first matching day on which x can still be served: no step
      before the month check passes it. */
  ghost function Ceiling(cex: CronExpr, x: int): (c: int)
    requires cex.WellFormed()
    ensures x <= c && c % 86400 == LastTime(cex) && cex.MatchesDay(DayOf(c))
  {
    hide CronExpr.MatchesDay, LastTime;
    var n := FirstMatchingDay(cex, (x - LastTime(cex) + 86399) / 86400);
    Quotient(n, 86400, LastTime(cex));
    n * 86400 + LastTime(cex)
  }

  lemma CeilingStable(cex: CronExpr, x: int, y: int)
    requires cex.WellFormed() && x <= y <= Ceiling(cex, x)
    ensures Ceiling(cex, y) == Ceiling(cex, x)
  {
    hide CronExpr.MatchesDay, LastTime, FirstMatchingDay;
    var t := LastTime(cex);
    var a, b := (x - t + 86399) / 86400, (y - t + 86399) / 86400;
    assert a <= b <= FirstMatchingDay(cex, a);
  }

  function MonthsLeft(x: int, dot: int): nat {
    var left := 12 * (dot + MAX_YEARS_DIFF + 1) - MonthOf(DayOf(x));
    if left < 0 then 0 else left
  }

  lemma MonthsLeftMonotone(x: int, y: int, dot: int)
    requires x <= y
    ensures MonthsLeft(y, dot) <= MonthsLeft(x, dot)
  {
    hide MonthOf;
    MonthOfMonotone(DayOf(x), DayOf(y));
  }

  /** An allowed unit is never passed by going to the next allowed one. */
  lemma NextUnitBelow(target: set<int>, p: int, u: int, v: int)
    requires (p == 60 || p == 24 || p == 12) && BitSet(target, p)
    requires u <= v && v % p in target
    ensures NextUnit(target, p, u) <= v
  {
    hide NextUnit;
  }

  lemma SecondBelowCeiling(cex: CronExpr, x: int)
    requires cex.WellFormed()
    ensures var y := FieldStep(x, cex.seconds, Second, {}).0;
            && x <= y <= Ceiling(cex, x) && Ceiling(cex, y) == Ceiling(cex, x)
            && SecondOf(y) in cex.seconds && y % 60 <= LastTime(cex) % 60
  {
    hide FieldStep, Ceiling, NextUnit, LastTime;
    SecondStep(x, cex.seconds);
    var c := Ceiling(cex, x);
    assert c % 60 == c % 86400 % 60;
    NextUnitBelow(cex.seconds, 60, x, c);
    CeilingStable(cex, x, NextUnit(cex.seconds, 60, x));
  }

  lemma MinuteBelowCeiling(cex: CronExpr, x: int, marked: set<Field>)
    requires cex.WellFormed() && marked <= {Second}
    requires x % 60 <= LastTime(cex) % 60
    ensures var (y, next) := FieldStep(x, cex.minutes, Minute, marked);
            && (next == MinuteOf(x) <==> MinuteOf(x) in cex.minutes)
            && (next == MinuteOf(x) ==> y == x && SettledInHour(cex, x))
            && (next != MinuteOf(x) ==> x < y <= Ceiling(cex, x) && Ceiling(cex, y) == Ceiling(cex, x))
  {
    hide FieldStep, Ceiling, NextUnit, LastTime, Zeroed, Greatest;
    MinuteStep(x, cex.minutes, marked);
    if MinuteOf(x) in cex.minutes {
      MinuteSettled(cex, x);
    } else {
      var c := Ceiling(cex, x);
      CeilingTime(cex, x);
      var u, r := NextUnit(cex.minutes, 60, x / 60), x % 60;
      NextUnitBelow(cex.minutes, 60, x / 60, c / 60);
      ZeroedInMinute(x / 60, u, r, marked);
      assert u * 60 + r - Zeroed(x, marked) <= c;
      CeilingStable(cex, x, u * 60 + r - Zeroed(x, marked));
    }
  }

  lemma CeilingTime(cex: CronExpr, x: int)
    requires cex.WellFormed()
    ensures var c, t := Ceiling(cex, x), LastTime(cex);
            && c % 60 == t % 60 && c % 3600 == t % 3600
            && MinuteOf(c) in cex.minutes && HourOf(c) in cex.hours
  {
    hide Ceiling, LastTime, Greatest, SecondOf, MinuteOf, HourOf, DayOf;
    var c := Ceiling(cex, x);
    SameTimeParts(c, LastTime(cex));
    PartsAt(c);
    PartsAt(LastTime(cex));
    SecondInHour(c);
    SecondInHour(LastTime(cex));
  }

  lemma MinuteSettled(cex: CronExpr, x: int)
    requires cex.WellFormed() && x % 60 <= LastTime(cex) % 60 && MinuteOf(x) in cex.minutes
    ensures SettledInHour(cex, x)
  {
    hide LastTime, HourOf, DayOf, MinuteOf, SecondOf, Greatest;
    PartsAt(x);
    SecondInHour(x);
  }

  lemma HourBelowCeiling(cex: CronExpr, x: int, marked: set<Field>)
    requires cex.WellFormed() && marked <= {Second, Minute}
    requires SettledInHour(cex, x)
    ensures var (y, next) := FieldStep(x, cex.hours, HourOfDay, marked);
            && (next == HourOf(x) <==> HourOf(x) in cex.hours)
            && (next == HourOf(x) ==> y == x && Settled(cex, x))
            && (next != HourOf(x) ==> x < y <= Ceiling(cex, x) && Ceiling(cex, y) == Ceiling(cex, x))
  {
    hide FieldStep, Ceiling, NextUnit, LastTime, Zeroed, Greatest;
    HourStep(x, cex.hours, marked);
    PartsAt(x);
    if HourOf(x) in cex.hours {
      HourSettled(cex, x);
    } else {
      var c := Ceiling(cex, x);
      CeilingTime(cex, x);
      var u := NextUnit(cex.hours, 24, x / 3600);
      NextUnitBelow(cex.hours, 24, x / 3600, c / 3600);
      ZeroedInHour(x / 3600, u, x % 3600, marked);
      CeilingStable(cex, x, u * 3600 + x % 3600 - Zeroed(x, marked));
    }
  }

  lemma HourSettled(cex: CronExpr, x: int)
    requires cex.WellFormed() && SettledInHour(cex, x) && HourOf(x) in cex.hours
    ensures Settled(cex, x)
  {
    hide SecondOf, MinuteOf, HourOf, DayOf;
    PartsAt(x);
    var h, m, s := Greatest(cex.hours, 24), Greatest(cex.minutes, 60), Greatest(cex.seconds, 60);
    PartsAt(LastTime(cex));
    AtParts(0, h, m, s);
  }

  /** Zeroing fields keeps a time settled. */
  lemma ZeroedSettled(cex: CronExpr, x: int, n: int, marked: set<Field>)
    requires cex.WellFormed() && Settled(cex, x) && marked <= TIME_FIELDS
    ensures var y := n * 86400 + x % 86400 - Zeroed(x, marked);
            Settled(cex, y) && y % 86400 <= x % 86400
  {
    hide SecondOf, MinuteOf, HourOf, DayOf, LastTime;
    PartsAt(x);
    var h := if HourOfDay in marked then 0 else HourOf(x);
    var m := if Minute in marked then 0 else MinuteOf(x);
    var s := if Second in marked then 0 else SecondOf(x);
    AtParts(n, h, m, s);
    SecondInHour(x);
    SecondInHour(At(n, h, m, s));
  }

  lemma SecondInHour(x: int)
    ensures x % 60 == SecondOf(x)
  {
  }

  lemma DayBelowCeiling(cex: CronExpr, x: int, marked: set<Field>)
    requires cex.WellFormed() && marked <= TIME_FIELDS && Settled(cex, x)
    ensures var n := DayOf(x);
            var (y, mday) := DayStep(x, cex, DayOfMonth(n), DayOfWeek(n), marked, 0);
            && mday == DayOfMonth(DayOf(y))
            && x <= y <= Ceiling(cex, x) && Ceiling(cex, y) == Ceiling(cex, x)
            && Settled(cex, y) && (mday != DayOfMonth(n) ==> x < y)
  {
    hide DayStep, Ceiling, LastTime, Zeroed, MonthOf, DayOfMonth, DayOfWeek, CronExpr.MatchesDay, Greatest;
    var n := DayOf(x);
    var l := Landing(cex, n, 0);
    DayStepLands(x, cex, marked, 0);
    if l != n {
      var y := l * 86400 + x % 86400 - Zeroed(x, marked);
      ZeroedSettled(cex, x, l, marked);
      ZeroedInDay(x, x, marked);
      Quotient(l, 86400, x % 86400 - Zeroed(x, marked));
      var c := Ceiling(cex, x);
      assert l <= DayOf(c);
      CeilingStable(cex, x, y);
    } else {
      CeilingStable(cex, x, x);
    }
  }

  lemma MonthMovesOn(cex: CronExpr, x: int, marked: set<Field>)
    requires cex.WellFormed() && Markable(marked)
    requires MonthOf(DayOf(x)) % 12 in cex.months || DayOfMonthField in marked
    ensures var (y, next) := FieldStep(x, cex.months, MonthField, marked);
            && (next == MonthOf(DayOf(x)) % 12 <==> MonthOf(DayOf(x)) % 12 in cex.months)
            && (next == MonthOf(DayOf(x)) % 12 ==> y == x)
            && (next != MonthOf(DayOf(x)) % 12 ==> x < y && MonthOf(DayOf(x)) < MonthOf(DayOf(y)))
  {
    hide FieldStep, MonthOf, MonthDay, MonthLength, NextUnit, DayOfMonth;
    if MonthOf(DayOf(x)) % 12 in cex.months {
      MonthStays(x, cex.months, marked);
    } else {
      MonthStepTo(x, cex.months, marked);
      var y := FieldStep(x, cex.months, MonthField, marked).0;
      if DayOf(y) <= DayOf(x) { MonthOfMonotone(DayOf(y), DayOf(x)); }
    }
  }

  // ---------- The search ----------

  /** The date y was reached from x without passing the months that are left, or in a later one. */
  ghost predicate Advanced(cex: CronExpr, dot: int, x: int, y: int)
    requires cex.WellFormed()
  {
    && x <= y && Settled(cex, y) && cex.MatchesMonth(DayOf(y))
    && MonthsLeft(y, dot) <= MonthsLeft(x, dot)
    && (Ceiling(cex, y) == Ceiling(cex, x) || MonthsLeft(y, dot) < MonthsLeft(x, dot))
  }

  /** What a nested search leaves behind is nearer the end than where it started. */
  lemma Nearer(cex: CronExpr, dot: int, x: int, y: int)
    requires cex.WellFormed() && Advanced(cex, dot, x, y)
    ensures SettledInHour(cex, y) && Settled(cex, y) && cex.MatchesMonth(DayOf(y)) && x <= y
    ensures MonthsLeft(y, dot) < MonthsLeft(x, dot)
         || (MonthsLeft(y, dot) == MonthsLeft(x, dot) && Ceiling(cex, y) == Ceiling(cex, x))
  {
    hide Ceiling, MonthsLeft, LastTime, CronExpr.MatchesMonth;
  }

  lemma AfterStep(cex: CronExpr, dot: int, x: int, y: int, r: Outcome)
    requires cex.WellFormed() && x <= y && Ceiling(cex, y) == Ceiling(cex, x)
    requires r.Found? ==> Advanced(cex, dot, y, r.at)
    ensures r.Found? ==> Advanced(cex, dot, x, r.at)
  {
    hide Ceiling, MonthsLeft, Settled, CronExpr.MatchesMonth;
    MonthsLeftMonotone(x, y, dot);
  }

  lemma AfterSearch(cex: CronExpr, dot: int, x: int, y: int, z: int)
    requires cex.WellFormed() && Advanced(cex, dot, x, y) && Advanced(cex, dot, y, z)
    ensures Advanced(cex, dot, x, z)
  {
    hide Ceiling, MonthsLeft, Settled, CronExpr.MatchesMonth;
  }

  /** Resuming a frame after its nested search from y, seen from x. */
  lemma Resumed(cex: CronExpr, dot: int, x: int, y: int, at: int, r: Outcome)
    requires cex.WellFormed() && x <= y && Ceiling(cex, y) == Ceiling(cex, x)
    requires Advanced(cex, dot, y, at)
    requires r.Found? ==> Advanced(cex, dot, at, r.at)
    ensures r.Found? ==> Advanced(cex, dot, x, r.at)
  {
    hide *;
    if r.Found? {
      AfterSearch(cex, dot, y, at, r.at);
    }
    AfterStep(cex, dot, x, y, r);
  }

  function FindNext(cex: CronExpr, x: int, dot: int): (r: Outcome)
    requires cex.WellFormed()
    ensures r.Found? ==> Advanced(cex, dot, x, r.at)
    ensures r.GaveUp? ==> x < r.at && TooFar(r.at, dot)
    decreases MonthsLeft(x, dot), Ceiling(cex, x) - x, 4
  {
    hide *;
    SecondBelowCeiling(cex, x);
    var (y, second) := FieldStep(x, cex.seconds, Second, {});
    var marked := if second == SecondOf(x) then {Second} else {};
    MonthsLeftMonotone(x, y, dot);
    MinuteBelowCeiling(cex, y, marked);
    var (z, minute) := FieldStep(y, cex.minutes, Minute, marked);
    if minute == MinuteOf(y) then
      var r := FromHour(cex, z, dot, marked + {Minute});
      AfterStep(cex, dot, x, z, r);
      r
    else
      MonthsLeftMonotone(y, z, dot);
      match FindNext(cex, z, dot)
      case GaveUp(at) => GaveUp(at)
      case Found(at) =>
        Nearer(cex, dot, z, at);
        var r := FromHour(cex, at, dot, marked);
        Resumed(cex, dot, x, z, at, r);
        r
  }

  function FromHour(cex: CronExpr, x: int, dot: int, marked: set<Field>): (r: Outcome)
    requires cex.WellFormed() && SettledInHour(cex, x) && marked <= {Second, Minute}
    ensures r.Found? ==> Advanced(cex, dot, x, r.at)
    ensures r.GaveUp? ==> x < r.at && TooFar(r.at, dot)
    decreases MonthsLeft(x, dot), Ceiling(cex, x) - x, 3
  {
    hide *;
    HourBelowCeiling(cex, x, marked);
    var (y, hour) := FieldStep(x, cex.hours, HourOfDay, marked);
    if hour == HourOf(x) then FromDay(cex, y, dot, marked + {HourOfDay})
    else
      MonthsLeftMonotone(x, y, dot);
      match FindNext(cex, y, dot)
      case GaveUp(at) => GaveUp(at)
      case Found(at) =>
        Nearer(cex, dot, y, at);
        var r := FromDay(cex, at, dot, marked);
        Resumed(cex, dot, x, y, at, r);
        r
  }

  function FromDay(cex: CronExpr, x: int, dot: int, marked: set<Field>): (r: Outcome)
    requires cex.WellFormed() && Settled(cex, x) && marked <= TIME_FIELDS
    ensures r.Found? ==> Advanced(cex, dot, x, r.at)
    ensures r.GaveUp? ==> x < r.at && TooFar(r.at, dot)
    decreases MonthsLeft(x, dot), Ceiling(cex, x) - x, 2
  {
    hide *;
    DayBelowCeiling(cex, x, marked);
    var n := DayOf(x);
    var (y, mday) := DayStep(x, cex, DayOfMonth(n), DayOfWeek(n), marked, 0);
    MonthsLeftMonotone(x, y, dot);
    if mday == DayOfMonth(n) then
      var r := FromMonth(cex, y, dot, marked + {DayOfMonthField});
      AfterStep(cex, dot, x, y, r);
      r
    else
      match FindNext(cex, y, dot)
      case GaveUp(at) => GaveUp(at)
      case Found(at) =>
        Nearer(cex, dot, y, at);
        var r := FromMonth(cex, at, dot, marked);
        Resumed(cex, dot, x, y, at, r);
        r
  }

  function FromMonth(cex: CronExpr, x: int, dot: int, marked: set<Field>): (r: Outcome)
    requires cex.WellFormed() && Settled(cex, x) && Markable(marked)
    requires cex.MatchesMonth(DayOf(x)) || DayOfMonthField in marked
    ensures r.Found? ==> Advanced(cex, dot, x, r.at)
    ensures r.GaveUp? ==> x < r.at && TooFar(r.at, dot)
    decreases MonthsLeft(x, dot), Ceiling(cex, x) - x, 1
  {
    hide FieldStep, Ceiling, Settled, SettledInHour, MonthOf;
    MonthMovesOn(cex, x, marked);
    var (y, month) := FieldStep(x, cex.months, MonthField, marked);
    if month == MonthOf(DayOf(x)) % 12 then Found(y)
    else if TooFar(y, dot) then GaveUp(y)
    else FindNext(cex, y, dot)
  }

  /** cron_next on time_t.  The second search starts one second on, when the input itself matched. */
  function CronNext(cex: CronExpr, t: int): int
    requires cex.WellFormed()
  {
    if t == INVALID_TIME then INVALID_TIME
    else
      match FindNext(cex, t, YearOf(DayOf(t)))
      case GaveUp(_) => INVALID_TIME
      case Found(y) =>
        if y != t then y
        else
          match FindNext(cex, t + 1, YearOf(DayOf(t + 1)))
          case GaveUp(_) => INVALID_TIME
          case Found(z) => z
  }

  /** Progress, for any day sets: whatever comes back is INVALID_TIME or strictly later. */
  lemma Progress(cex: CronExpr, t: int)
    requires cex.WellFormed() && t >= 0
    ensures CronNext(cex, t) == INVALID_TIME || CronNext(cex, t) > t
  {
    hide FindNext;
  }
}
