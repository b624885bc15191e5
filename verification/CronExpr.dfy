// Parsed cron expressions and what it means for an instant to match one.
//
// Instants are seconds since the epoch in local time.
module CronExprs {
  import opened Calendar

  /** The six bit sets of a cronexpr, as the sets of their set bits. */
  datatype CronExpr = CronExpr(
    seconds: set<int>, minutes: set<int>, hours: set<int>,
    daysOfWeek: set<int>, daysOfMonth: set<int>, months: set<int>)
  {
    predicate WellFormed() {
      && BitSet(seconds, 60) && BitSet(minutes, 60) && BitSet(hours, 24)
      && BitSet(daysOfWeek, 7) && BitSet(daysOfMonth, 31) && BitSet(months, 12)
    }

    /** Both day sets must hold the day.  Bit 0 of daysOfMonth is day 1. */
    predicate MatchesDay(n: int) {
      DayOfMonth(n) - 1 in daysOfMonth && DayOfWeek(n) in daysOfWeek
    }

    predicate MatchesMonth(n: int) {
      MonthOf(n) % 12 in months
    }

    predicate MatchesTime(x: int) {
      SecondOf(x) in seconds && MinuteOf(x) in minutes && HourOf(x) in hours
    }

    /** All six fields of the instant lie in their sets. */
    predicate Matches(x: int) {
      MatchesTime(x) && MatchesDay(DayOf(x)) && MatchesMonth(DayOf(x))
    }
  }

  /** A non-empty set of bits of a bitset<size>. */
  predicate BitSet(s: set<int>, size: int) {
    (exists i :: i in s) && forall i :: i in s ==> 0 <= i < size
  }

  predicate Full(s: set<int>, size: int) {
    forall i :: 0 <= i < size ==> i in s
  }

  function SecondOf(x: int): int { x % 60 }
  function MinuteOf(x: int): int { x / 60 % 60 }
  function HourOf(x: int): int { x / 3600 % 24 }
  function DayOf(x: int): int { x / 86400 }

  /** y is the least matching instant from x on. */
  ghost predicate IsFirstMatch(cex: CronExpr, x: int, y: int) {
    x <= y && cex.Matches(y) && forall z :: x <= z < y ==> !cex.Matches(z)
  }

  /** The instant with the given day number and time of day. */
  function At(n: int, h: int, m: int, s: int): int {
    n * 86400 + h * 3600 + m * 60 + s
  }

  lemma AtParts(n: int, h: int, m: int, s: int)
    requires 0 <= h < 24 && 0 <= m < 60 && 0 <= s < 60
    ensures var x := At(n, h, m, s);
            && DayOf(x) == n && HourOf(x) == h && MinuteOf(x) == m && SecondOf(x) == s
            && x % 3600 == m * 60 + s && x % 86400 == h * 3600 + m * 60 + s
            && x / 60 == n * 1440 + h * 60 + m && x / 3600 == n * 24 + h
  {
    var x := At(n, h, m, s);
    assert x / 60 == n * 1440 + h * 60 + m;
    assert x / 3600 == n * 24 + h;
    assert x / 86400 == n;
  }

  lemma Quotient(q: int, p: int, r: int)
    requires 0 <= r < p && p in {12, 24, 60, 3600, 86400}
    ensures (q * p + r) / p == q && (q * p + r) % p == r
  {
    if p == 12 { assert (q * 12 + r) / 12 == q; }
    else if p == 24 { assert (q * 24 + r) / 24 == q; }
    else if p == 60 { assert (q * 60 + r) / 60 == q; }
    else if p == 3600 { assert (q * 3600 + r) / 3600 == q; }
    else { assert (q * 86400 + r) / 86400 == q; }
  }

  lemma PartsAt(x: int)
    ensures x == At(DayOf(x), HourOf(x), MinuteOf(x), SecondOf(x))
    ensures 0 <= HourOf(x) < 24 && 0 <= MinuteOf(x) < 60 && 0 <= SecondOf(x) < 60
    ensures x % 86400 == HourOf(x) * 3600 + MinuteOf(x) * 60 + SecondOf(x)
    ensures x % 3600 == MinuteOf(x) * 60 + SecondOf(x)
  {
    var q, s := x / 60, x % 60;
    var r, m := q / 60, q % 60;
    var n, h := r / 24, r % 24;
    Quotient(r, 3600, m * 60 + s);
    Quotient(n, 86400, h * 3600 + m * 60 + s);
  }
}
