// One step of the search on one field, as functions on instants, and what each step reaches.
module Steps {
  import opened Calendar
  import opened CronExprs
  import opened BrokenDownTime

  const INVALID_INDEX := -1

  /** The first set bit from `offset` on. */
  function NextSetBit(target: set<int>, size: int, offset: int): (r: int)
    requires 0 <= offset <= size
    ensures r == INVALID_INDEX ==> forall i :: offset <= i < size ==> i !in target
    ensures r != INVALID_INDEX ==> offset <= r < size && r in target
    ensures r != INVALID_INDEX ==> forall i :: offset <= i < r ==> i !in target
    decreases size - offset
  {
    if offset == size then INVALID_INDEX
    else if offset in target then offset
    else NextSetBit(target, size, offset + 1)
  }

  /** The value a search step reads from its field of the date. */
  function FieldOf(x: int, field: Field): (v: int)
    ensures field.Second? || field.Minute? ==> 0 <= v < 60
    ensures field.HourOfDay? ==> 0 <= v < 24
    ensures field.MonthField? ==> 0 <= v < 12
  {
    match field
    case Second => SecondOf(x)
    case Minute => MinuteOf(x)
    case HourOfDay => HourOf(x)
    case DayOfWeekField => DayOfWeek(DayOf(x))
    case DayOfMonthField => DayOfMonth(DayOf(x))
    case MonthField => MonthOf(DayOf(x)) % 12
    case YearField => YearOf(DayOf(x))
  }

  function FieldSize(field: Field): int {
    if field.HourOfDay? then 24 else if field.MonthField? then 12 else 60
  }

  predicate Searched(field: Field) {
    field.Second? || field.Minute? || field.HourOfDay? || field.MonthField?
  }

  /** The field whose increment carries out of `field` when no later bit is set. */
  function CarryField(field: Field): Field
    requires Searched(field)
  {
    match field
    case Second => Minute
    case Minute => HourOfDay
    case HourOfDay => DayOfWeekField
    case MonthField => YearField
  }

  /** find_next on one field: the instant it leaves and the value it returns. */
  function FieldStep(x: int, target: set<int>, field: Field, marked: set<Field>): (int, int)
    requires Searched(field)
  {
    var value := FieldOf(x, field);
    var found := NextSetBit(target, FieldSize(field), value);
    var y := if found == INVALID_INDEX then ResetTo(AddTo(x, CarryField(field), 1), field) else x;
    var next := if found == INVALID_INDEX then NextSetBit(target, FieldSize(field), 0) else found;
    if next != value then (ResetFrom(SetTo(y, field, next), marked, 0), next) else (y, next)
  }

  /** find_next_day after `count` iterations: the instant it leaves and the day number it returns. */
  function DayStep(x: int, cex: CronExpr, mday: int, wday: int, marked: set<Field>, count: nat): (int, int)
    decreases 366 - count
  {
    if (mday - 1 !in cex.daysOfMonth || wday !in cex.daysOfWeek) && count < 366 then
      var y := AddTo(x, DayOfMonthField, 1);
      DayStep(ResetFrom(y, marked, 0), cex, DayOfMonth(DayOf(y)), DayOfWeek(DayOf(y)), marked, count + 1)
    else (x, mday)
  }

  // ---------- What the marked resets do ----------

  const TIME_FIELDS := {Second, Minute, HourOfDay}

  /** The seconds that zeroing the marked time fields takes off an instant. */
  function Zeroed(x: int, marked: set<Field>): int {
    (if HourOfDay in marked then HourOf(x) * 3600 else 0)
    + (if Minute in marked then MinuteOf(x) * 60 else 0)
    + (if Second in marked then SecondOf(x) else 0)
  }

  predicate Markable(marked: set<Field>) {
    marked <= {Second, Minute, HourOfDay, DayOfMonthField}
  }

  lemma ResetTime(n: int, h: int, m: int, s: int)
    requires 0 <= h < 24 && 0 <= m < 60 && 0 <= s < 60
    ensures ResetTo(At(n, h, m, s), Second) == At(n, h, m, 0)
    ensures ResetTo(At(n, h, m, s), Minute) == At(n, h, 0, s)
    ensures ResetTo(At(n, h, m, s), HourOfDay) == At(n, 0, m, s)
    ensures ResetTo(At(n, h, m, s), DayOfMonthField) == At(MonthDay(MonthOf(n)), h, m, s)
  {
    hide MonthOf, MonthDay, SecondOf, MinuteOf, HourOf, DayOf;
    AtParts(n, h, m, s);
  }

  /** Resetting the marked fields zeroes them in the time of day, and goes to the first of the
      month when the day of the month is marked. */
  lemma ResetMarked(x: int, marked: set<Field>)
    requires Markable(marked)
    ensures ResetFrom(x, marked, 0) == x - Zeroed(x, marked)
              - if DayOfMonthField in marked then (DayOf(x) - MonthDay(MonthOf(DayOf(x)))) * 86400 else 0
  {
    hide ResetTo, MonthOf, MonthDay, SecondOf, MinuteOf, HourOf, DayOf;
    PartsAt(x);
    var n, h, m, s := DayOf(x), HourOf(x), MinuteOf(x), SecondOf(x);
    ResetTime(n, h, m, s);
    var s' := if Second in marked then 0 else s;
    ResetTime(n, h, m, s');
    var m' := if Minute in marked then 0 else m;
    ResetTime(n, h, m', s');
    var h' := if HourOfDay in marked then 0 else h;
    ResetTime(n, h', m', s');
    assert ResetFrom(x, marked, 0) == ResetFrom(At(n, h, m, s'), marked, 1);
    assert ResetFrom(At(n, h, m, s'), marked, 1) == ResetFrom(At(n, h, m', s'), marked, 2);
    var y := At(n, h', m', s');
    assert ResetFrom(At(n, h, m', s'), marked, 2) == ResetFrom(y, marked, 3) == ResetFrom(y, marked, 4);
    var z := if DayOfMonthField in marked then ResetTo(y, DayOfMonthField) else y;
    assert ResetFrom(y, marked, 4) == ResetFrom(z, marked, 5) == ResetFrom(z, marked, 6) == ResetFrom(z, marked, 7);
  }

  // ---------- What a step on one field reaches ----------

  /** The first unit from u on whose position in its cycle of p is a set bit. */
  function NextUnit(target: set<int>, p: int, u: int): (r: int)
    requires p == 60 || p == 24 || p == 12
    requires BitSet(target, p)
    ensures u <= r <= u + p && r % p in target
    ensures forall v :: u <= v < r ==> v % p !in target
  {
    var base := u - u % p;
    var found := NextSetBit(target, p, u % p);
    CycleOf(p, u);
    if found != INVALID_INDEX then base + found else base + p + NextSetBit(target, p, 0)
  }

  /** Positions in the cycle that holds u and in the next one. */
  lemma CycleOf(p: int, u: int)
    requires p == 60 || p == 24 || p == 12
    ensures forall v :: u - u % p <= v < u - u % p + p ==> v % p == v - (u - u % p)
    ensures forall v :: u - u % p + p <= v < u - u % p + 2 * p ==> v % p == v - (u - u % p + p)
  {
    var q := u / p;
    assert u - u % p == q * p;
    forall v | q * p <= v < q * p + p ensures v % p == v - q * p {
      Quotient(q, p, v - q * p);
    }
    assert q * p + p == (q + 1) * p;
    forall v | q * p + p <= v < q * p + 2 * p ensures v % p == v - (q * p + p) {
      Quotient(q + 1, p, v - (q * p + p));
    }
  }

  lemma SecondStep(x: int, target: set<int>)
    requires BitSet(target, 60)
    ensures FieldStep(x, target, Second, {}).0 == NextUnit(target, 60, x)
    ensures FieldStep(x, target, Second, {}).1 == SecondOf(NextUnit(target, 60, x))
    ensures FieldStep(x, target, Second, {}).1 == SecondOf(x) <==> SecondOf(x) in target
  {
    hide ResetFrom, HourOf, DayOf;
    CycleOf(60, x);
    var found := NextSetBit(target, 60, SecondOf(x));
    var y := if found == INVALID_INDEX then ResetTo(x + 60, Second) else x;
    assert SecondOf(x + 60) == SecondOf(x);
    var next := if found == INVALID_INDEX then NextSetBit(target, 60, 0) else found;
    ResetMarked(SetTo(y, Second, next), {});
  }

  /** A change of minute goes to the start of the next allowed minute, or keeps the second if unmarked. */
  lemma MinuteStep(x: int, target: set<int>, marked: set<Field>)
    requires BitSet(target, 60) && marked <= {Second}
    ensures MinuteOf(x) in target ==> FieldStep(x, target, Minute, marked) == (x, MinuteOf(x))
    ensures MinuteOf(x) !in target ==>
              var (y, next) := FieldStep(x, target, Minute, marked);
              && next != MinuteOf(x)
              && y == NextUnit(target, 60, x / 60) * 60 + x % 60 - Zeroed(x, marked)
              && y / 60 == NextUnit(target, 60, x / 60) > x / 60
  {
    hide ResetFrom, HourOf, DayOf, SecondOf, Zeroed, NextUnit;
    if MinuteOf(x) !in target {
      var u, r := NextUnit(target, 60, x / 60), x % 60;
      MinuteWritten(x, target, marked);
      ResetMarked(u * 60 + r, marked);
      ZeroedInMinute(x / 60, u, r, marked);
      Quotient(u, 60, r - Zeroed(x, marked));
    }
  }

  /** The minute is written before the marked fields are reset. */
  lemma MinuteWritten(x: int, target: set<int>, marked: set<Field>)
    requires BitSet(target, 60) && MinuteOf(x) !in target
    ensures FieldStep(x, target, Minute, marked).1 != MinuteOf(x)
    ensures FieldStep(x, target, Minute, marked).0
         == ResetFrom(NextUnit(target, 60, x / 60) * 60 + x % 60, marked, 0)
  {
    hide ResetFrom, HourOf, DayOf, SecondOf;
    CycleOf(60, x / 60);
    var found := NextSetBit(target, 60, MinuteOf(x));
    var y := if found == INVALID_INDEX then ResetTo(x + 3600, Minute) else x;
    assert MinuteOf(x + 3600) == MinuteOf(x);
    assert MinuteOf(y) == if found == INVALID_INDEX then 0 else MinuteOf(x);
  }

  lemma ZeroedInMinute(a: int, b: int, r: int, marked: set<Field>)
    requires 0 <= r < 60 && marked <= {Second}
    ensures Zeroed(a * 60 + r, marked) == Zeroed(b * 60 + r, marked) == if Second in marked then r else 0
  {
    hide HourOf, MinuteOf;
    Quotient(a, 60, r);
    Quotient(b, 60, r);
  }

  lemma HourStep(x: int, target: set<int>, marked: set<Field>)
    requires BitSet(target, 24) && marked <= {Second, Minute}
    ensures HourOf(x) in target ==> FieldStep(x, target, HourOfDay, marked) == (x, HourOf(x))
    ensures HourOf(x) !in target ==>
              var (y, next) := FieldStep(x, target, HourOfDay, marked);
              && next != HourOf(x)
              && y == NextUnit(target, 24, x / 3600) * 3600 + x % 3600 - Zeroed(x, marked)
              && y / 3600 == NextUnit(target, 24, x / 3600) > x / 3600
  {
    hide ResetFrom, DayOf, SecondOf, MinuteOf, Zeroed, NextUnit;
    if HourOf(x) !in target {
      var u, r := NextUnit(target, 24, x / 3600), x % 3600;
      HourWritten(x, target, marked);
      ResetMarked(u * 3600 + r, marked);
      ZeroedInHour(x / 3600, u, r, marked);
      Quotient(u, 3600, r - Zeroed(x, marked));
    }
  }

  /** The hour is written before the marked fields are reset. */
  lemma HourWritten(x: int, target: set<int>, marked: set<Field>)
    requires BitSet(target, 24) && HourOf(x) !in target
    ensures FieldStep(x, target, HourOfDay, marked).1 != HourOf(x)
    ensures FieldStep(x, target, HourOfDay, marked).0
         == ResetFrom(NextUnit(target, 24, x / 3600) * 3600 + x % 3600, marked, 0)
  {
    hide ResetFrom, DayOf, SecondOf, MinuteOf;
    CycleOf(24, x / 3600);
    var found := NextSetBit(target, 24, HourOf(x));
    var y := if found == INVALID_INDEX then ResetTo(x + 86400, HourOfDay) else x;
    assert HourOf(x + 86400) == HourOf(x);
    assert HourOf(y) == if found == INVALID_INDEX then 0 else HourOf(x);
  }

  lemma ZeroedInHour(a: int, b: int, r: int, marked: set<Field>)
    requires 0 <= r < 3600 && marked <= {Second, Minute}
    ensures Zeroed(a * 3600 + r, marked) == Zeroed(b * 3600 + r, marked)
    ensures 0 <= Zeroed(a * 3600 + r, marked) <= r
    ensures {Second, Minute} <= marked ==> Zeroed(a * 3600 + r, marked) == r
  {
    hide HourOf;
    SameHourParts(a, b, r);
  }

  lemma SameHourParts(a: int, b: int, r: int)
    requires 0 <= r < 3600
    ensures SecondOf(a * 3600 + r) == SecondOf(b * 3600 + r) == r % 60
    ensures MinuteOf(a * 3600 + r) == MinuteOf(b * 3600 + r) == r / 60
  {
    assert (a * 3600 + r) / 60 == a * 60 + r / 60;
    assert (b * 3600 + r) / 60 == b * 60 + r / 60;
  }

  /** The month a date lands in when its month is overwritten: the next one if the day does not fit. */
  function Overflowed(mday: int, month: int): int {
    if mday > MonthLength(month) then month + 1 else month
  }

  lemma InMonthParts(x: int, month: int)
    ensures var y, d := InMonth(x, month), DayOfMonth(DayOf(x));
            && DayOf(y) == MonthDay(month) + d - 1
            && y % 86400 == x % 86400
            && MonthOf(DayOf(y)) == Overflowed(d, month)
            && DayOfMonth(DayOf(y)) == if d > MonthLength(month) then d - MonthLength(month) else d
  {
    hide MonthDay, MonthOf, MonthLength;
    var y, d := InMonth(x, month), DayOfMonth(DayOf(x));
    assert DayOf(y) == MonthDay(month) + d - 1;
    if d > MonthLength(month) {
      MonthStep(month);
      MonthStep(month + 1);
      DateUnique(DayOf(y), month + 1);
    } else {
      DateOf(month, d);
    }
  }

  /** The date as it stands when the month has been written and nothing reset yet. */
  function MonthWritten(x: int, target: set<int>): (int, int)
    requires BitSet(target, 12)
  {
    var value := FieldOf(x, MonthField);
    var found := NextSetBit(target, 12, value);
    var y := if found == INVALID_INDEX then ResetTo(AddTo(x, YearField, 1), MonthField) else x;
    var next := if found == INVALID_INDEX then NextSetBit(target, 12, 0) else found;
    (SetTo(y, MonthField, next), next)
  }

  lemma MonthWrittenParts(x: int, target: set<int>)
    requires BitSet(target, 12) && MonthOf(DayOf(x)) % 12 !in target
    ensures var month := NextUnit(target, 12, MonthOf(DayOf(x)));
            var (y, next) := MonthWritten(x, target);
            && next != MonthOf(DayOf(x)) % 12
            && y % 86400 == x % 86400
            && MonthOf(DayOf(y)) == Overflowed(DayOfMonth(DayOf(x)), month)
  {
    hide MonthDay, MonthOf, DayOfMonth, InMonth, DayOf;
    var m, d := MonthOf(DayOf(x)), DayOfMonth(DayOf(x));
    var month := NextUnit(target, 12, m);
    CycleOf(12, m);
    var found := NextSetBit(target, 12, m % 12);
    if found != INVALID_INDEX {
      assert MonthWritten(x, target).0 == InMonth(x, month);
      InMonthParts(x, month);
    } else {
      var w := AddTo(x, YearField, 1);
      InMonthParts(x, m + 12);
      var january := 12 * (m / 12) + 12;
      assert 12 * YearOf(DayOf(w)) == january;
      var v := ResetTo(w, MonthField);
      InMonthParts(w, january);
      assert MonthOf(DayOf(v)) == january;
      assert MonthWritten(x, target).0 == InMonth(v, month);
      InMonthParts(v, month);
    }
  }

  /** A change of month goes to the first of the next allowed month, or of the month after it
      when the day of the month did not fit there. */
  lemma MonthStepTo(x: int, target: set<int>, marked: set<Field>)
    requires BitSet(target, 12)
    requires DayOfMonthField in marked && Markable(marked)
    ensures MonthOf(DayOf(x)) % 12 in target ==>
              FieldStep(x, target, MonthField, marked) == (x, MonthOf(DayOf(x)) % 12)
    ensures MonthOf(DayOf(x)) % 12 !in target ==>
              var month := NextUnit(target, 12, MonthOf(DayOf(x)));
              var first := Overflowed(DayOfMonth(DayOf(x)), month);
              var (y, next) := FieldStep(x, target, MonthField, marked);
              && next != MonthOf(DayOf(x)) % 12
              && y == MonthDay(first) * 86400 + x % 86400 - Zeroed(x, marked)
              && DayOf(y) == MonthDay(first) && DayOfMonth(DayOf(y)) == 1
              && MonthOf(DayOf(y)) == first && first >= month > MonthOf(DayOf(x))
  {
    hide MonthDay, MonthOf, DayOfMonth, MonthLength, FieldStep, MonthWritten, ResetFrom, NextUnit, DayOf, Zeroed;
    if MonthOf(DayOf(x)) % 12 !in target {
      var month := NextUnit(target, 12, MonthOf(DayOf(x)));
      MonthWrittenParts(x, target);
      MonthStepWrites(x, target, marked);
      FirstOfMonth(x, MonthWritten(x, target).0, marked);
      DateOf(Overflowed(DayOfMonth(DayOf(x)), month), 1);
      assert month > MonthOf(DayOf(x));
    } else {
      MonthStays(x, target, marked);
    }
  }

  lemma MonthStays(x: int, target: set<int>, marked: set<Field>)
    requires MonthOf(DayOf(x)) % 12 in target
    ensures FieldStep(x, target, MonthField, marked) == (x, MonthOf(DayOf(x)) % 12)
  {
    hide MonthOf, ResetFrom;
  }

  lemma MonthStepWrites(x: int, target: set<int>, marked: set<Field>)
    requires BitSet(target, 12) && MonthOf(DayOf(x)) % 12 !in target
    requires MonthWritten(x, target).1 != MonthOf(DayOf(x)) % 12
    ensures FieldStep(x, target, MonthField, marked)
         == (ResetFrom(MonthWritten(x, target).0, marked, 0), MonthWritten(x, target).1)
  {
    hide MonthOf, ResetFrom;
  }

  lemma FirstOfMonth(x: int, z: int, marked: set<Field>)
    requires z % 86400 == x % 86400
    requires DayOfMonthField in marked && Markable(marked)
    ensures var y := ResetFrom(z, marked, 0);
            && y == MonthDay(MonthOf(DayOf(z))) * 86400 + x % 86400 - Zeroed(x, marked)
            && DayOf(y) == MonthDay(MonthOf(DayOf(z)))
  {
    hide MonthOf, MonthDay, ResetFrom, Zeroed, SecondOf, MinuteOf, HourOf;
    ResetMarked(z, marked);
    ZeroedInDay(x, z, marked);
    Quotient(MonthDay(MonthOf(DayOf(z))), 86400, x % 86400 - Zeroed(x, marked));
  }

  lemma SameTimeParts(x: int, y: int)
    requires x % 86400 == y % 86400
    ensures HourOf(x) == HourOf(y) && MinuteOf(x) == MinuteOf(y) && SecondOf(x) == SecondOf(y)
  {
    PartsAt(x);
    PartsAt(y);
    AtParts(0, HourOf(x), MinuteOf(x), SecondOf(x));
    AtParts(0, HourOf(y), MinuteOf(y), SecondOf(y));
  }

  lemma ZeroedInDay(x: int, y: int, marked: set<Field>)
    requires x % 86400 == y % 86400
    ensures 0 <= Zeroed(x, marked) == Zeroed(y, marked) <= x % 86400
    ensures Zeroed(y - Zeroed(y, marked), marked) == 0
    ensures {Minute, HourOfDay} <= marked ==>
              x % 86400 - Zeroed(x, marked) == if Second in marked then 0 else SecondOf(x)
  {
    hide SecondOf, MinuteOf, HourOf, DayOf;
    SameTimeParts(x, y);
    PartsAt(x);
    PartsAt(y);
    AtParts(DayOf(x), HourOf(x), MinuteOf(x), SecondOf(x));
    AtParts(DayOf(y), if HourOfDay in marked then 0 else HourOf(y),
            if Minute in marked then 0 else MinuteOf(y), if Second in marked then 0 else SecondOf(y));
  }

  /** On a non-empty set the search for a bit never fails, so set_field never receives INVALID_INDEX. */
  lemma StepValueAllowed(x: int, target: set<int>, field: Field, marked: set<Field>)
    requires Searched(field) && BitSet(target, FieldSize(field))
    ensures FieldStep(x, target, field, marked).1 in target
    ensures FieldStep(x, target, field, marked).1 != INVALID_INDEX
  {
    hide ResetFrom, SetTo, AddTo, ResetTo;
    var bit :| bit in target;
    assert 0 <= bit < FieldSize(field);
  }
}
