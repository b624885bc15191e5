// Broken-down time: std::tm, and the writes the search makes to it.
module BrokenDownTime {
  import opened Calendar
  import opened CronExprs

  /** The fields of a std::tm that the search can mark, in the order of enum cron_field. */
  datatype Field = Second | Minute | HourOfDay | DayOfWeekField | DayOfMonthField | MonthField | YearField

  const FIELDS := [Second, Minute, HourOfDay, DayOfWeekField, DayOfMonthField, MonthField, YearField]

  const INVALID_TIME := -1

  /** The instant a date in month `month` has when day of month and time of day are those of x. */
  function InMonth(x: int, month: int): int {
    (MonthDay(month) + DayOfMonth(DayOf(x)) - 1) * 86400 + x % 86400
  }

  /** The instant after adding to one field of the broken-down time of x and normalising. */
  function AddTo(x: int, field: Field, val: int): int {
    match field
    case Second => x + val
    case Minute => x + 60 * val
    case HourOfDay => x + 3600 * val
    case DayOfWeekField => x + 86400 * val
    case DayOfMonthField => x + 86400 * val
    case MonthField => InMonth(x, MonthOf(DayOf(x)) + val)
    case YearField => InMonth(x, MonthOf(DayOf(x)) + 12 * val)
  }

  /** The instant after setting one field and normalising.  mktime ignores the weekday. */
  function SetTo(x: int, field: Field, val: int): int {
    match field
    case Second => x - SecondOf(x) + val
    case Minute => x + 60 * (val - MinuteOf(x))
    case HourOfDay => x + 3600 * (val - HourOf(x))
    case DayOfWeekField => x
    case DayOfMonthField => x + 86400 * (val - DayOfMonth(DayOf(x)))
    case MonthField => InMonth(x, 12 * YearOf(DayOf(x)) + val)
    case YearField => InMonth(x, 12 * val + MonthOf(DayOf(x)) % 12)
  }

  function ResetTo(x: int, field: Field): int {
    SetTo(x, field, if field == DayOfMonthField then 1 else 0)
  }

  /** Resetting the marked fields among those with index at least i, in index order. */
  function ResetFrom(x: int, marked: set<Field>, i: nat): int
    decreases 7 - i
  {
    if i >= 7 then x
    else ResetFrom(if FIELDS[i] in marked then ResetTo(x, FIELDS[i]) else x, marked, i + 1)
  }

  class Tm {
    var sec: int
    var min: int
    var hour: int
    var mday: int
    var mon: int
    var year: int
    var wday: int

    /** What mktime makes of the fields, in or out of their ranges. */
    function Instant(): int
      reads this
    {
      (MonthDay(12 * year + mon) + mday - 1) * 86400 + hour * 3600 + min * 60 + sec
    }

    /** The fields are those of the instant x, normalised and with the right weekday. */
    predicate Shows(x: int)
      reads this
    {
      && sec == SecondOf(x) && min == MinuteOf(x) && hour == HourOf(x)
      && mday == DayOfMonth(DayOf(x)) && wday == DayOfWeek(DayOf(x))
      && mon == MonthOf(DayOf(x)) % 12 && year == YearOf(DayOf(x))
    }

    /** localtime: break an instant into fields. */
    constructor (t: int)
      ensures Shows(t)
    {
      sec := SecondOf(t);
      min := MinuteOf(t);
      hour := HourOf(t);
      mday := DayOfMonth(DayOf(t));
      wday := DayOfWeek(DayOf(t));
      mon := MonthOf(DayOf(t)) % 12;
      year := YearOf(DayOf(t));
    }

    /** mktime: the instant of the fields, which are normalised on the way. */
    method ToTime() returns (t: int)
      modifies this
      ensures t == old(Instant()) && Shows(t)
    {
      t := Instant();
      sec := SecondOf(t);
      min := MinuteOf(t);
      hour := HourOf(t);
      mday := DayOfMonth(DayOf(t));
      wday := DayOfWeek(DayOf(t));
      mon := MonthOf(DayOf(t)) % 12;
      year := YearOf(DayOf(t));
    }

    /** Round trip: breaking an instant down and putting it together again gives it back. */
    lemma ShownInstant(x: int)
      requires Shows(x)
      ensures Instant() == x
    {
      hide MonthDay, MonthOf;
      assert 12 * year + mon == MonthOf(DayOf(x));
      PartsAt(x);
    }

    /** `ok` is false where the source throws bad_cronexpr. */
    method AddToField(field: Field, val: int, ghost x: int) returns (ok: bool)
      requires Shows(x)
      modifies this
      ensures Shows(AddTo(x, field, val)) && ok == (AddTo(x, field, val) != INVALID_TIME)
    {
      hide MonthDay, MonthOf, DayOfMonth;
      ShownInstant(x);
      assert 12 * year + mon == MonthOf(DayOf(x));
      PartsAt(x);
      match field {
        case Second => sec := sec + val;
        case Minute => min := min + val;
        case HourOfDay => hour := hour + val;
        case DayOfWeekField => mday := mday + val;
        case DayOfMonthField => mday := mday + val;
        case MonthField => mon := mon + val;
        case YearField => year := year + val;
      }
      assert Instant() == AddTo(x, field, val);
      var t := ToTime();
      ok := t != INVALID_TIME;
    }

    method SetField(field: Field, val: int, ghost x: int) returns (ok: bool)
      requires Shows(x)
      modifies this
      ensures Shows(SetTo(x, field, val)) && ok == (SetTo(x, field, val) != INVALID_TIME)
    {
      hide MonthDay, MonthOf, DayOfMonth;
      ShownInstant(x);
      assert 12 * year + mon == MonthOf(DayOf(x));
      PartsAt(x);
      match field {
        case Second => sec := val;
        case Minute => min := val;
        case HourOfDay => hour := val;
        case DayOfWeekField => wday := val;
        case DayOfMonthField => mday := val;
        case MonthField => mon := val;
        case YearField => year := val;
      }
      assert Instant() == SetTo(x, field, val);
      var t := ToTime();
      ok := t != INVALID_TIME;
    }

    method ResetField(field: Field, ghost x: int) returns (ok: bool)
      requires Shows(x)
      modifies this
      ensures Shows(ResetTo(x, field)) && ok == (ResetTo(x, field) != INVALID_TIME)
    {
      ok := SetField(field, if field == DayOfMonthField then 1 else 0, x);
    }
  }
}
