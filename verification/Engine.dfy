// The search as the source runs it: on one std::tm, changed in place.
//
// The bool or value each method returns and the date it leaves are those of the functions of
// modules Steps and Search.  For instants from the epoch on no write ever reads as INVALID_TIME,
// so the bad_cronexpr of the write helpers is never thrown.
module Engine {
  import opened Calendar
  import opened CronExprs
  import opened BrokenDownTime
  import opened Steps
  import opened Days
  import opened Search

  lemma MonthNotBeforeEpoch(n: int)
    requires n >= 0
    ensures MonthOf(n) >= JANUARY_1970 && MonthDay(MonthOf(n)) >= 0
  {
    hide MonthLength, MonthOf;
    MonthsApart(JANUARY_1970, JANUARY_1970 + 1);
    DateUnique(0, JANUARY_1970);
    MonthOfMonotone(0, n);
    MonthsApart(JANUARY_1970, MonthOf(n));
  }

  lemma InMonthNotBeforeEpoch(x: int, month: int)
    requires month >= JANUARY_1970
    ensures InMonth(x, month) >= 0
  {
    hide MonthLength, MonthOf, DayOfMonth;
    MonthsApart(JANUARY_1970, month);
    InMonthParts(x, month);
  }

  /** No write of the search goes before the epoch. */
  lemma WritesNotBeforeEpoch(x: int, field: Field, val: int)
    requires x >= 0 && val >= 0 && !field.YearField? && (field.DayOfMonthField? ==> val >= 1)
    ensures SetTo(x, field, val) >= 0
    ensures AddTo(x, field, 1) >= 0
    ensures AddTo(x, YearField, 1) >= 0
  {
    hide MonthLength, MonthOf, DayOfMonth, MonthDay, InMonth, SecondOf, MinuteOf, HourOf, DayOf;
    var n := DayOf(x);
    PartsAt(x);
    MonthNotBeforeEpoch(n);
    InMonthNotBeforeEpoch(x, MonthOf(n) + 1);
    InMonthNotBeforeEpoch(x, MonthOf(n) + 12);
    if field.MonthField? {
      YearNotBeforeEpoch(n);
      InMonthNotBeforeEpoch(x, 12 * YearOf(n) + val);
    } else if field.DayOfMonthField? {
      DayWithin(n);
    }
  }

  lemma YearNotBeforeEpoch(n: int)
    requires MonthOf(n) >= JANUARY_1970
    ensures 12 * YearOf(n) >= JANUARY_1970
  {
    hide MonthOf;
  }

  method ResetAllFields(date: Tm, marked: set<Field>, ghost x: int)
    requires date.Shows(x) && x >= 0 && Markable(marked)
    modifies date
    ensures date.Shows(ResetFrom(x, marked, 0)) && ResetFrom(x, marked, 0) >= 0
  {
    hide Tm.Shows, ResetTo;
    ghost var y := x;
    for i := 0 to 7
      invariant date.Shows(y) && y >= 0
      invariant ResetFrom(y, marked, i) == ResetFrom(x, marked, 0)
    {
      if FIELDS[i] in marked {
        WritesNotBeforeEpoch(y, FIELDS[i], if FIELDS[i] == DayOfMonthField then 1 else 0);
        ResetIsSet(y, FIELDS[i]);
        var ok := date.ResetField(FIELDS[i], y);
        assert ok;
        y := ResetTo(y, FIELDS[i]);
      }
    }
  }

  lemma ResetIsSet(x: int, field: Field)
    ensures ResetTo(x, field) == SetTo(x, field, if field == DayOfMonthField then 1 else 0)
  {
  }

  method FindNextField(target: set<int>, date: Tm, value: int, field: Field, marked: set<Field>, ghost x: int)
    returns (next: int)
    requires date.Shows(x) && x >= 0 && Markable(marked)
    requires Searched(field) && BitSet(target, FieldSize(field)) && value == FieldOf(x, field)
    modifies date
    ensures date.Shows(FieldStep(x, target, field, marked).0)
    ensures next == FieldStep(x, target, field, marked).1
  {
    hide Tm.Shows, ResetTo, SetTo, AddTo, ResetFrom, MonthOf, DayOf, YearOf;
    ghost var y := x;
    next := NextSetBit(target, FieldSize(field), value);
    if next == INVALID_INDEX {
      CarryNotBeforeEpoch(x, field);
      var ok := date.AddToField(CarryField(field), 1, x);
      assert ok;
      y := AddTo(x, CarryField(field), 1);
      ok := date.ResetField(field, y);
      assert ok;
      y := ResetTo(y, field);
      next := NextSetBit(target, FieldSize(field), 0);
    }
    if next == INVALID_INDEX || next != value {
      WritesNotBeforeEpoch(y, field, next);
      var ok := date.SetField(field, next, y);
      assert ok;
      ResetAllFields(date, marked, SetTo(y, field, next));
    }
  }

  lemma CarryNotBeforeEpoch(x: int, field: Field)
    requires x >= 0 && Searched(field)
    ensures AddTo(x, CarryField(field), 1) >= 0
    ensures ResetTo(AddTo(x, CarryField(field), 1), field) >= 0
  {
    hide AddTo, SetTo;
    WritesNotBeforeEpoch(x, Minute, 0);
    WritesNotBeforeEpoch(x, HourOfDay, 0);
    WritesNotBeforeEpoch(x, DayOfWeekField, 0);
    WritesNotBeforeEpoch(AddTo(x, CarryField(field), 1), field, 0);
  }

  method FindNextDay(date: Tm, cex: CronExpr, mday: int, wday: int, marked: set<Field>, ghost x: int)
    returns (dayOfMonth: int)
    requires date.Shows(x) && x >= 0 && Markable(marked)
    modifies date
    ensures date.Shows(DayStep(x, cex, mday, wday, marked, 0).0)
    ensures dayOfMonth == DayStep(x, cex, mday, wday, marked, 0).1
  {
    hide AddTo, ResetFrom, MonthOf, DayOf, DayOfMonth, DayOfWeek;
    dayOfMonth := mday;
    var dayOfWeek := wday;
    var count := 0;
    ghost var y := x;
    while (dayOfMonth - 1 !in cex.daysOfMonth || dayOfWeek !in cex.daysOfWeek) && count < 366
      invariant date.Shows(y) && y >= 0 && count <= 366
      invariant DayStep(y, cex, dayOfMonth, dayOfWeek, marked, count) == DayStep(x, cex, mday, wday, marked, 0)
      decreases 366 - count
    {
      count := count + 1;
      WritesNotBeforeEpoch(y, DayOfMonthField, 1);
      var ok := date.AddToField(DayOfMonthField, 1, y);
      assert ok;
      dayOfMonth := date.mday;
      dayOfWeek := date.wday;
      y := AddTo(y, DayOfMonthField, 1);
      ResetAllFields(date, marked, y);
      y := ResetFrom(y, marked, 0);
    }
  }

  lemma Shown(date: Tm, x: int)
    requires date.Shows(x)
    ensures date.sec == SecondOf(x) && date.min == MinuteOf(x) && date.hour == HourOf(x)
    ensures date.mday == DayOfMonth(DayOf(x)) && date.wday == DayOfWeek(DayOf(x))
    ensures date.mon == MonthOf(DayOf(x)) % 12 && date.year == YearOf(DayOf(x))
  {
  }

  // The recursive search is one function in the source; here each of its phases is a method.

  method Find(cex: CronExpr, date: Tm, dot: int, ghost x: int) returns (res: bool)
    requires cex.WellFormed() && date.Shows(x) && x >= 0
    modifies date
    ensures res == FindNext(cex, x, dot).Found?
    ensures date.Shows(FindNext(cex, x, dot).at) && FindNext(cex, x, dot).at >= x
    decreases MonthsLeft(x, dot), Ceiling(cex, x) - x, 4
  {
    hide Tm.Shows, FieldStep, MonthsLeft, Ceiling, Settled, SettledInHour, Advanced,
         DayOf, SecondOf, MinuteOf, HourOf, LastTime, FromHour;
    SecondBelowCeiling(cex, x);
    ghost var y := FieldStep(x, cex.seconds, Second, {}).0;
    MonthsLeftMonotone(x, y, dot);
    Shown(date, x);
    var second := date.sec;
    var updatedSecond := FindNextField(cex.seconds, date, second, Second, {}, x);
    var marked := if second == updatedSecond then {Second} else {};

    MinuteBelowCeiling(cex, y, marked);
    ghost var z := FieldStep(y, cex.minutes, Minute, marked).0;
    MonthsLeftMonotone(y, z, dot);
    Shown(date, y);
    var minute := date.min;
    var updatedMinute := FindNextField(cex.minutes, date, minute, Minute, marked, y);
    if minute == updatedMinute {
      res := FindFromHour(cex, date, dot, marked + {Minute}, z);
    } else {
      res := Find(cex, date, dot, z);
      if res {
        ghost var at := FindNext(cex, z, dot).at;
        Nearer(cex, dot, z, at);
        res := FindFromHour(cex, date, dot, marked, at);
      }
    }
  }

  method FindFromHour(cex: CronExpr, date: Tm, dot: int, marked: set<Field>, ghost x: int) returns (res: bool)
    requires cex.WellFormed() && date.Shows(x) && x >= 0
    requires SettledInHour(cex, x) && marked <= {Second, Minute}
    modifies date
    ensures res == FromHour(cex, x, dot, marked).Found?
    ensures date.Shows(FromHour(cex, x, dot, marked).at) && FromHour(cex, x, dot, marked).at >= x
    decreases MonthsLeft(x, dot), Ceiling(cex, x) - x, 3
  {
    hide Tm.Shows, FieldStep, MonthsLeft, Ceiling, Settled, SettledInHour, Advanced,
         DayOf, SecondOf, MinuteOf, HourOf, LastTime, FromDay, FindNext;
    HourBelowCeiling(cex, x, marked);
    ghost var y := FieldStep(x, cex.hours, HourOfDay, marked).0;
    MonthsLeftMonotone(x, y, dot);
    Shown(date, x);
    var hour := date.hour;
    var updatedHour := FindNextField(cex.hours, date, hour, HourOfDay, marked, x);
    if hour == updatedHour {
      res := FindFromDay(cex, date, dot, marked + {HourOfDay}, y);
    } else {
      res := Find(cex, date, dot, y);
      if res {
        ghost var at := FindNext(cex, y, dot).at;
        Nearer(cex, dot, y, at);
        res := FindFromDay(cex, date, dot, marked, at);
      }
    }
  }

  method FindFromDay(cex: CronExpr, date: Tm, dot: int, marked: set<Field>, ghost x: int) returns (res: bool)
    requires cex.WellFormed() && date.Shows(x) && x >= 0
    requires Settled(cex, x) && marked <= TIME_FIELDS
    modifies date
    ensures res == FromDay(cex, x, dot, marked).Found?
    ensures date.Shows(FromDay(cex, x, dot, marked).at) && FromDay(cex, x, dot, marked).at >= x
    decreases MonthsLeft(x, dot), Ceiling(cex, x) - x, 2
  {
    hide Tm.Shows, DayStep, MonthsLeft, Ceiling, Settled, SettledInHour, Advanced,
         DayOf, DayOfMonth, DayOfWeek, MonthOf, LastTime, FromMonth, FindNext;
    DayBelowCeiling(cex, x, marked);
    ghost var y := DayStep(x, cex, DayOfMonth(DayOf(x)), DayOfWeek(DayOf(x)), marked, 0).0;
    MonthsLeftMonotone(x, y, dot);
    Shown(date, x);
    var dayOfWeek := date.wday;
    var dayOfMonth := date.mday;
    var updatedDayOfMonth := FindNextDay(date, cex, dayOfMonth, dayOfWeek, marked, x);
    if dayOfMonth == updatedDayOfMonth {
      res := FindFromMonth(cex, date, dot, marked + {DayOfMonthField}, y);
    } else {
      res := Find(cex, date, dot, y);
      if res {
        ghost var at := FindNext(cex, y, dot).at;
        Nearer(cex, dot, y, at);
        res := FindFromMonth(cex, date, dot, marked, at);
      }
    }
  }

  method FindFromMonth(cex: CronExpr, date: Tm, dot: int, marked: set<Field>, ghost x: int) returns (res: bool)
    requires cex.WellFormed() && date.Shows(x) && x >= 0
    requires Settled(cex, x) && Markable(marked)
    requires cex.MatchesMonth(DayOf(x)) || DayOfMonthField in marked
    modifies date
    ensures res == FromMonth(cex, x, dot, marked).Found?
    ensures date.Shows(FromMonth(cex, x, dot, marked).at) && FromMonth(cex, x, dot, marked).at >= x
    decreases MonthsLeft(x, dot), Ceiling(cex, x) - x, 1
  {
    hide Tm.Shows, FieldStep, Ceiling, Settled, SettledInHour, Advanced,
         DayOf, DayOfMonth, DayOfWeek, MonthOf, LastTime, FindNext;
    MonthMovesOn(cex, x, marked);
    ghost var y := FieldStep(x, cex.months, MonthField, marked).0;
    Shown(date, x);
    var month := date.mon;
    var updatedMonth := FindNextField(cex.months, date, month, MonthField, marked, x);
    res := true;
    if month != updatedMonth {
      Shown(date, y);
      if date.year < dot || date.year - dot > MAX_YEARS_DIFF {
        return false;
      }
      res := Find(cex, date, dot, y);
    }
  }

  /** mktime on a normalised date only reads it. */
  method TimeOf(date: Tm, ghost x: int) returns (t: int)
    requires date.Shows(x)
    modifies date
    ensures t == x && date.Shows(x)
  {
    hide Tm.Shows;
    date.ShownInstant(x);
    t := date.ToTime();
  }

  /** cron_next on time_t. */
  method Next(cex: CronExpr, t: int) returns (next: int)
    requires cex.WellFormed() && t >= INVALID_TIME
    ensures next == CronNext(cex, t)
  {
    hide Tm.Shows, FindNext, DayOf, YearOf, SecondOf, MinuteOf, HourOf, DayOfMonth, DayOfWeek, MonthOf, Advanced, TooFar;
    var date := new Tm(t);
    var original := TimeOf(date, t);
    if original == INVALID_TIME {
      return INVALID_TIME;
    }
    Shown(date, t);
    var found := Find(cex, date, date.year, t);
    if !found {
      return INVALID_TIME;
    }
    ghost var y := FindNext(cex, t, YearOf(DayOf(t))).at;
    var calculated := TimeOf(date, y);
    if calculated == INVALID_TIME {
      return calculated;
    }
    if calculated == original {
      var ok := date.AddToField(Second, 1, t);
      assert ok;
      Shown(date, t + 1);
      found := Find(cex, date, date.year, t + 1);
      if !found {
        return INVALID_TIME;
      }
      y := FindNext(cex, t + 1, YearOf(DayOf(t + 1))).at;
    }
    next := TimeOf(date, y);
  }
}
