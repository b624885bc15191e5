// A whole expression, from its text to the instants that match it and to the answers of cron_next.
module Expressions {
  import opened Calendar
  import opened CronExprs
  import opened Text
  import opened Names
  import opened Fields
  import opened FieldMeaning
  import opened Parser
  import opened Search
  import opened Days
  import opened Exact
  import opened Enumeration

  /** The items of the six fields, in the order in which they are written. */
  datatype Schedule = Schedule(
    seconds: seq<Item>, minutes: seq<Item>, hours: seq<Item>,
    daysOfMonth: seq<Item>, months: seq<Item>, daysOfWeek: seq<Item>)
  {
    predicate Valid() {
      && AllValid(seconds, 0, 59) && AllValid(minutes, 0, 59) && AllValid(hours, 0, 23)
      && AllValid(daysOfMonth, 1, 31) && AllValid(months, 1, 12) && AllValid(daysOfWeek, 0, 6)
    }

    /** No 8-bit counter wraps down to a value that its field does not name. */
    predicate Covered() {
      && WrapsCovered(seconds, 0, 59) && WrapsCovered(minutes, 0, 59) && WrapsCovered(hours, 0, 23)
      && WrapsCovered(daysOfMonth, 1, 31) && WrapsCovered(months, 1, 12) && WrapsCovered(daysOfWeek, 0, 6)
    }

    /** Each field of the instant is a value that an item of that field names. */
    predicate Describes(x: int) {
      && Named(seconds, 0, 59, SecondOf(x)) && Named(minutes, 0, 59, MinuteOf(x)) && Named(hours, 0, 23, HourOf(x))
      && Named(daysOfMonth, 1, 31, DayOfMonth(DayOf(x))) && Named(months, 1, 12, MonthOf(DayOf(x)) % 12 + 1)
      && Named(daysOfWeek, 0, 6, DayOfWeek(DayOf(x)))
    }

    function Written(): string
      requires Valid()
    {
      Join([FieldString(seconds, 0, 59), FieldString(minutes, 0, 59), FieldString(hours, 0, 23),
            FieldString(daysOfMonth, 1, 31), FieldString(months, 1, 12), FieldString(daysOfWeek, 0, 6)], ' ')
    }
  }

  function FieldString(items: seq<Item>, minval: int, maxval: int): string
    requires Bounds(minval, maxval) && AllValid(items, minval, maxval)
  {
    Join(RenderAll(items), ',')
  }

  // ---------- What an accepted text means ----------

  /** The fields of an accepted text, names replaced and `?` read as `*`. */
  lemma FieldsOf(expr: string)
    requires Parse(expr).Ok?
    ensures var f := DropEmpty(Tokens(expr, ' '));
            && |f| == 6
            && FieldSet(f[0], 0, 59).Ok? && FieldSet(f[1], 0, 59).Ok? && FieldSet(f[2], 0, 23).Ok?
            && FieldSet(StarForQuestion(f[3]), 1, 31).Ok? && FieldSet(MonthText(f[4]), 1, 12).Ok?
            && FieldSet(WeekdayText(f[5]), 0, 6).Ok?
            && Parse(expr).value == CronExpr(FieldSet(f[0], 0, 59).value, FieldSet(f[1], 0, 59).value,
                 FieldSet(f[2], 0, 23).value, FieldSet(WeekdayText(f[5]), 0, 6).value,
                 FieldSet(StarForQuestion(f[3]), 1, 31).value, FieldSet(MonthText(f[4]), 1, 12).value)
  {
    hide FieldSet, WeekdayText, MonthText, StarForQuestion, DropEmpty, Tokens;
  }

  /** The schedule that an accepted text stands for, whatever its spelling. */
  function Read(expr: string): Schedule
    requires Parse(expr).Ok?
  {
    hide Parse, FieldBits, WeekdayText, MonthText, StarForQuestion, DropEmpty, Tokens;
    FieldsOf(expr);
    var f := DropEmpty(Tokens(expr, ' '));
    Schedule(FieldItems(f[0], 0, 59), FieldItems(f[1], 0, 59), FieldItems(f[2], 0, 23),
             FieldItems(StarForQuestion(f[3]), 1, 31), FieldItems(MonthText(f[4]), 1, 12),
             FieldItems(WeekdayText(f[5]), 0, 6))
  }

  /** The bits of a set, counted from minval, are the values the items name. */
  ghost predicate Holds(bits: set<int>, items: seq<Item>, minval: int, maxval: int) {
    forall v :: v - minval in bits <==> Named(items, minval, maxval, v)
  }

  ghost predicate HoldsAll(cex: CronExpr, s: Schedule) {
    && Holds(cex.seconds, s.seconds, 0, 59) && Holds(cex.minutes, s.minutes, 0, 59) && Holds(cex.hours, s.hours, 0, 23)
    && Holds(cex.daysOfMonth, s.daysOfMonth, 1, 31) && Holds(cex.months, s.months, 1, 12)
    && Holds(cex.daysOfWeek, s.daysOfWeek, 0, 6)
  }

  lemma FieldHolds(value: string, minval: int, maxval: int)
    requires Bounds(minval, maxval) && FieldSet(value, minval, maxval).Ok?
    ensures var items := FieldItems(value, minval, maxval);
            && AllValid(items, minval, maxval)
            && (Holds(FieldSet(value, minval, maxval).value, items, minval, maxval) <==> WrapsCovered(items, minval, maxval))
  {
    hide FieldBits, FieldItems, Named, WrapsCovered;
    FieldMeansIff(value, minval, maxval);
  }

  /** Every accepted text, in any spelling, gives six sets that hold exactly the values its items name,
      if and only if no 8-bit counter wraps down to a value that its field does not name. */
  lemma AcceptedMeansIff(expr: string)
    requires Parse(expr).Ok?
    ensures Read(expr).Valid()
    ensures HoldsAll(Parse(expr).value, Read(expr)) <==> Read(expr).Covered()
  {
    hide Parse, FieldSet, FieldItems, Holds, WrapsCovered, WeekdayText, MonthText, StarForQuestion, DropEmpty, Tokens, AllValid;
    FieldsOf(expr);
    var f := DropEmpty(Tokens(expr, ' '));
    FieldHolds(f[0], 0, 59);
    FieldHolds(f[1], 0, 59);
    FieldHolds(f[2], 0, 23);
    FieldHolds(StarForQuestion(f[3]), 1, 31);
    FieldHolds(MonthText(f[4]), 1, 12);
    FieldHolds(WeekdayText(f[5]), 0, 6);
  }

  /** From text to time: an instant matches an accepted text exactly when each of its fields is a value
      that an item of that field names. */
  lemma AcceptedMeans(expr: string, x: int)
    requires Parse(expr).Ok? && Read(expr).Covered()
    ensures Parse(expr).value.Matches(x) <==> Read(expr).Describes(x)
  {
    hide Named, Parse, Read, SecondOf, MinuteOf, HourOf, DayOf, DayOfMonth, DayOfWeek, MonthOf, WrapsCovered;
    AcceptedMeansIff(expr);
    MonthNumber(MonthOf(DayOf(x)) % 12);
    assert SecondOf(x) == SecondOf(x) - 0 && MinuteOf(x) == MinuteOf(x) - 0 && HourOf(x) == HourOf(x) - 0;
    assert DayOfWeek(DayOf(x)) == DayOfWeek(DayOf(x)) - 0;
  }

  lemma MonthNumber(m: int)
    ensures m + 1 - 1 == m
  {
  }

  /** From text to answer: on sets that search exactly, cron_next gives the least later instant that the
      text describes. */
  lemma AcceptedAnswer(expr: string, t: int)
    requires Parse(expr).Ok? && Read(expr).Covered() && Reliable(Parse(expr).value) && t >= 0
    ensures Parse(expr).value.WellFormed()
    ensures var r := CronNext(Parse(expr).value, t);
            t < r && Read(expr).Describes(r) && forall z :: t < z < r ==> !Read(expr).Describes(z)
  {
    hide Parse, Read, Schedule.Describes, Reliable, CronNext, CronExpr.Matches, Schedule.Covered;
    var cex := Parse(expr).value;
    assert cex.WellFormed() by { hide *; ReliableIsWellFormed(cex); }
    NextIsFirst(cex, t);
    forall x ensures cex.Matches(x) <==> Read(expr).Describes(x) { AcceptedMeans(expr, x); }
  }

  ghost predicate OnlySecond(s: Schedule, v: int) {
    forall u :: Named(s.seconds, 0, 59, u) <==> u == v
  }

  /** One second; one day field that names everything; and no day beyond the 28th or every month. */
  ghost predicate Ordinary(s: Schedule) {
    && (exists v :: OnlySecond(s, v))
    && ((forall v :: 1 <= v <= 31 ==> Named(s.daysOfMonth, 1, 31, v))
        || (forall v :: 0 <= v <= 6 ==> Named(s.daysOfWeek, 0, 6, v)))
    && ((forall v :: Named(s.daysOfMonth, 1, 31, v) ==> v <= 28) || (forall v :: 1 <= v <= 12 ==> Named(s.months, 1, 12, v)))
  }

  /** The usual expressions search exactly. */
  lemma OrdinaryIsReliable(expr: string)
    requires Parse(expr).Ok? && Read(expr).Covered() && Ordinary(Read(expr))
    ensures Reliable(Parse(expr).value)
  {
    hide Parse, Named, Read, Reliable, Schedule.Covered;
    AcceptedMeansIff(expr);
    var cex, s := Parse(expr).value, Read(expr);
    var v :| OnlySecond(s, v);
    assert cex.seconds == {v} by {
      forall b ensures b in cex.seconds <==> b == v { assert b - 0 in cex.seconds <==> Named(s.seconds, 0, 59, b); }
    }
    forall b ensures b in cex.daysOfMonth <==> Named(s.daysOfMonth, 1, 31, b + 1) { assert b + 1 - 1 == b; }
    forall b ensures b in cex.months <==> Named(s.months, 1, 12, b + 1) { assert b + 1 - 1 == b; }
    forall b ensures b in cex.daysOfWeek <==> Named(s.daysOfWeek, 0, 6, b) { assert b - 0 == b; }
    SingleSecondReliable(cex, v);
  }

  // ---------- Texts written from a schedule ----------

  predicate FieldChar(c: char) {
    IsDigit(c) || c == '-' || c == '*' || c == '/' || c == ','
  }

  lemma {:induction false} JoinFieldChars(texts: seq<string>)
    requires forall t :: t in texts ==> FieldText(t)
    ensures forall c :: c in Join(texts, ',') ==> FieldChar(c)
  {
    if |texts| == 1 {
      assert texts[0] in texts;
    } else if texts != [] {
      assert texts[0] in texts;
      JoinFieldChars(texts[1..]);
    }
  }

  /** A written field is read back, and holds no blank and no letter. */
  lemma FieldReadBack(items: seq<Item>, minval: int, maxval: int)
    requires Bounds(minval, maxval) && AllValid(items, minval, maxval)
    ensures var text := FieldString(items, minval, maxval);
            && text != [] && (forall c :: c in text ==> FieldChar(c))
            && FieldSet(text, minval, maxval).Ok? && FieldItems(text, minval, maxval) == items
  {
    hide RenderAll, Join, Render, Denotes, FieldBits, Valid, FieldItems;
    assert forall i :: i in items ==> Writable(i) by { AllWritable(items, minval, maxval); }
    var texts := RenderAll(items);
    forall t | t in texts ensures FieldText(t) {
      var k :| 0 <= k < |texts| && texts[k] == t;
      assert items[k] in items;
      ItemParses(items[k], minval, maxval);
    }
    JoinFieldChars(texts);
    assert texts[|texts| - 1] in texts;
    LastOfJoin(texts, ',');
    FieldParses(items, minval, maxval);
  }

  lemma {:induction false} NoNameFound(text: string, name: string)
    requires |name| == 3 && name[0] !in text
    ensures Find(text, name) == -1
  {
    if |text| >= 3 {
      assert text[..3][0] in text;
      NoNameFound(text[1..], name);
    }
  }

  lemma {:induction false} NothingReplaced(text: string, names: seq<string>, i: nat)
    requires ThreeLetterNames(names) && i <= |names| && forall c :: c in text ==> FieldChar(c)
    ensures ReplaceFrom(text, names, i) == text
    decreases |names| - i
  {
    if i < |names| {
      assert IsUpper(names[i][0]);
      NoNameFound(text, names[i]);
      NothingReplaced(text, names, i + 1);
    }
  }

  /** Fields of digits and signs pass the name replacement and the `?` rule unchanged. */
  lemma TextUnchanged(text: string)
    requires forall c :: c in text ==> FieldChar(c)
    ensures WeekdayText(text) == text && StarForQuestion(text) == text && MonthText(text) == text
  {
    hide ReplaceFrom, ThreeLetterNames;
    TraitNames();
    assert Upper(text) == text by {
      forall i | 0 <= i < |text| ensures Upper(text)[i] == text[i] { assert text[i] in text; }
    }
    NothingReplaced(text, DAYS, 0);
    NothingReplaced(text, MONTHS, 0);
    assert '?' !in text;
    assert "?"[0] in "?";
  }

  lemma SixTokens(fields: seq<string>)
    requires |fields| == 6
    requires forall k :: 0 <= k < 6 ==> fields[k] != [] && forall c :: c in fields[k] ==> FieldChar(c)
    ensures DropEmpty(Tokens(Join(fields, ' '), ' ')) == fields && Join(fields, ' ') != []
  {
    hide Tokens, Join;
    forall t | t in fields ensures Plain(t, ' ') {
      var k :| 0 <= k < 6 && fields[k] == t;
    }
    TokensOfJoin(fields, ' ');
    NothingDropped(fields);
    LastOfJoin(fields, ' ');
  }

  lemma {:induction false} NothingDropped(tokens: seq<string>)
    requires forall k :: 0 <= k < |tokens| ==> tokens[k] != []
    ensures DropEmpty(tokens) == tokens
  {
    if tokens != [] { NothingDropped(tokens[1..]); }
  }

  /** Round trip: a schedule written as text is accepted and read back as that schedule. */
  lemma ReadWritten(s: Schedule)
    requires s.Valid()
    ensures Parse(s.Written()).Ok? && Read(s.Written()) == s
  {
    hide FieldString, FieldSet, AllValid, WeekdayText, MonthText, StarForQuestion, Join, DropEmpty, Tokens, FieldItems;
    FieldReadBack(s.seconds, 0, 59);
    FieldReadBack(s.minutes, 0, 59);
    FieldReadBack(s.hours, 0, 23);
    FieldReadBack(s.daysOfMonth, 1, 31);
    FieldReadBack(s.months, 1, 12);
    FieldReadBack(s.daysOfWeek, 0, 6);
    var fields := [FieldString(s.seconds, 0, 59), FieldString(s.minutes, 0, 59), FieldString(s.hours, 0, 23),
                   FieldString(s.daysOfMonth, 1, 31), FieldString(s.months, 1, 12), FieldString(s.daysOfWeek, 0, 6)];
    SixTokens(fields);
    TextUnchanged(fields[3]);
    TextUnchanged(fields[4]);
    TextUnchanged(fields[5]);
  }

  lemma OneText(n: int, minval: int, maxval: int)
    requires Bounds(minval, maxval) && minval <= n <= maxval
    ensures AllValid([Plainly(One(n))], minval, maxval)
    ensures FieldString([Plainly(One(n))], minval, maxval) == Decimal(n)
  {
    hide Decimal;
  }

  lemma StarText(minval: int, maxval: int)
    requires Bounds(minval, maxval)
    ensures AllValid([Plainly(Any)], minval, maxval) && FieldString([Plainly(Any)], minval, maxval) == "*"
  {
  }
}
