// Usual expressions, from their text to the instants that match them.
module Usual {
  import opened Calendar
  import opened CronExprs
  import opened Text
  import opened Fields
  import opened FieldMeaning
  import opened Names
  import opened Parser
  import opened Prefix
  import opened Expressions
  import opened NamedFields
  import opened Acceptance

  /** An expression of six fields, from the sets of its fields. */
  lemma FromFields(expr: string, f: seq<string>, cex: CronExpr)
    requires |f| == 6 && expr == Join(f, ' ') && forall k :: 0 <= k < 6 ==> f[k] != [] && Plain(f[k], ' ')
    requires FieldSet(f[0], 0, 59) == Ok(cex.seconds) && FieldSet(f[1], 0, 59) == Ok(cex.minutes)
    requires FieldSet(f[2], 0, 23) == Ok(cex.hours) && FieldSet(StarForQuestion(f[3]), 1, 31) == Ok(cex.daysOfMonth)
    requires FieldSet(MonthText(f[4]), 1, 12) == Ok(cex.months) && FieldSet(WeekdayText(f[5]), 0, 6) == Ok(cex.daysOfWeek)
    ensures Parse(expr) == Ok(cex)
  {
    hide Tokens, Join, FieldSet, MonthText, WeekdayText, StarForQuestion, Parse;
    forall t | t in f ensures Plain(t, ' ') {
      var k :| 0 <= k < 6 && f[k] == t;
    }
    TokensOfJoin(f, ' ');
    NothingDropped(f);
    SomeText(f);
    ExpressionAcceptedIff(expr);
    AllRead(f);
    FieldsOf(expr);
  }

  lemma SomeText(f: seq<string>)
    requires |f| == 6 && f[0] != []
    ensures Join(f, ' ') != []
  {
  }

  lemma AllRead(f: seq<string>)
    requires |f| == 6
    requires FieldSet(f[0], 0, 59).Ok? && FieldSet(f[1], 0, 59).Ok? && FieldSet(f[2], 0, 23).Ok?
    requires FieldSet(StarForQuestion(f[3]), 1, 31).Ok? && FieldSet(MonthText(f[4]), 1, 12).Ok?
    requires FieldSet(WeekdayText(f[5]), 0, 6).Ok?
    ensures forall k :: 0 <= k < 6 ==> Read6(f)[k].Ok?
  {
    hide FieldSet, MonthText, WeekdayText, StarForQuestion;
  }

  lemma Decimals()
    ensures Decimal(0) == "0" && Decimal(1) == "1" && Decimal(5) == "5" && Decimal(7) == "7" && Decimal(9) == "9"
    ensures Decimal(12) == "12" && Decimal(15) == "15" && Decimal(17) == "17"
  {
  }

  /** Every day of the month and every month is allowed by a star. */
  lemma DateAllowed(n: int)
    ensures DayOfMonth(n) - 1 in Interval(0, 30) && MonthOf(n) % 12 in Interval(0, 11) && DayOfWeek(n) in Interval(0, 6)
  {
    hide MonthOf, DayOfMonth, DayOfWeek;
  }

  // ---------- Nine o'clock on Mondays ----------

  lemma NineOnMonday(x: int)
    ensures Parse("0 0 9 * * MON").Ok?
    ensures Parse("0 0 9 * * MON").value.Matches(x)
       <==> SecondOf(x) == 0 && MinuteOf(x) == 0 && HourOf(x) == 9 && DayOfWeek(DayOf(x)) == 1
  {
    hide Parse, FieldSet, MonthText, WeekdayText, StarForQuestion, Decimal, Interval, Join, Spells,
         SecondOf, MinuteOf, HourOf, DayOf, DayOfMonth, DayOfWeek, MonthOf;
    var cex := CronExpr({0}, {0}, {9}, {1}, Interval(0, 30), Interval(0, 11));
    Decimals();
    SingleValue(0, 0, 59);
    SingleValue(9, 0, 23);
    StarAndQuestion();
    MondaySpelled();
    WeekdayNames("MON");
    NineText();
    FromFields("0 0 9 * * MON", ["0", "0", "9", "*", "*", "MON"], cex);
    DateAllowed(DayOf(x));
  }

  lemma MondaySpelled()
    ensures Spells("MON", "MON")
  {
  }

  lemma NineText()
    ensures Join(["0", "0", "9", "*", "*", "MON"], ' ') == "0 0 9 * * MON"
  {
    hide Join;
    SixJoined("0", "0", "9", "*", "*", "MON");
    assert "0" + [' '] + ("0" + [' '] + ("9" + [' '] + ("*" + [' '] + ("*" + [' '] + "MON")))) == "0 0 9 * * MON";
  }

  // ---------- Every quarter of an hour at work ----------

  lemma AtWork(x: int)
    ensures Parse("0 */15 9-17 * * mon-FRI").Ok?
    ensures Parse("0 */15 9-17 * * mon-FRI").value.Matches(x)
       <==> && SecondOf(x) == 0 && MinuteOf(x) % 15 == 0 && 9 <= HourOf(x) <= 17
            && 1 <= DayOfWeek(DayOf(x)) <= 5
  {
    hide Parse, FieldSet, MonthText, WeekdayText, StarForQuestion, Decimal, Interval, Join,
         SecondOf, MinuteOf, HourOf, DayOf, DayOfMonth, DayOfWeek, MonthOf;
    Quarters();
    WorkHours();
    WorkDays();
    var minutes, hours, days :=
      FieldSet("*/15", 0, 59).value, FieldSet("9-17", 0, 23).value, FieldSet(WeekdayText("mon-FRI"), 0, 6).value;
    var cex := CronExpr({0}, minutes, hours, days, Interval(0, 30), Interval(0, 11));
    Decimals();
    SingleValue(0, 0, 59);
    StarAndQuestion();
    WorkText();
    FromFields("0 */15 9-17 * * mon-FRI", ["0", "*/15", "9-17", "*", "*", "mon-FRI"], cex);
    DateAllowed(DayOf(x));
    PartsAt(x);
  }

  lemma WorkText()
    ensures Join(["0", "*/15", "9-17", "*", "*", "mon-FRI"], ' ') == "0 */15 9-17 * * mon-FRI"
  {
    hide Join;
    SixJoined("0", "*/15", "9-17", "*", "*", "mon-FRI");
    assert "0" + [' '] + ("*/15" + [' '] + ("9-17" + [' '] + ("*" + [' '] + ("*" + [' '] + "mon-FRI"))))
        == "0 */15 9-17 * * mon-FRI";
  }

  lemma SixJoined(a: string, b: string, c: string, d: string, e: string, f: string)
    ensures Join([a, b, c, d, e, f], ' ')
         == a + [' '] + (b + [' '] + (c + [' '] + (d + [' '] + (e + [' '] + f))))
  {
    JoinStep(a, [b, c, d, e, f]);
    JoinStep(b, [c, d, e, f]);
    JoinStep(c, [d, e, f]);
    JoinStep(d, [e, f]);
    JoinStep(e, [f]);
    assert Join([f], ' ') == f;
  }

  lemma JoinStep(a: string, rest: seq<string>)
    requires rest != []
    ensures Join([a] + rest, ' ') == a + [' '] + Join(rest, ' ')
  {
    assert ([a] + rest)[1..] == rest;
  }

  /** A field of one item without a wrap. */
  lemma OneItem(item: Item, text: string, minval: int, maxval: int)
    requires Bounds(minval, maxval) && Valid(item, minval, maxval) && !Wraps(item, minval) && Writable(item)
    requires Render(item) == text
    ensures FieldSet(text, minval, maxval).Ok?
    ensures forall b :: b in FieldSet(text, minval, maxval).value <==> Denotes(item, minval, maxval, b + minval)
  {
    hide FieldBits, FieldItems, Denotes, Wraps, Render, Valid, Writable, WrapsCovered;
    var items := [item];
    assert AllValid(items, minval, maxval);
    OneText(item, text);
    FieldParses(items, minval, maxval);
    NoWrapsCovered(items, minval, maxval);
    FieldMeansIff(text, minval, maxval);
    assert items[0] in items;
    forall b ensures b in FieldSet(text, minval, maxval).value <==> Denotes(item, minval, maxval, b + minval) {
      assert b + minval - minval in FieldSet(text, minval, maxval).value <==> Named(items, minval, maxval, b + minval);
    }
  }

  lemma OneText(item: Item, text: string)
    requires Writable(item) && Render(item) == text
    ensures Join(RenderAll([item]), ',') == text
  {
    hide Render, Writable;
    assert RenderAll([item])[0] == text;
  }

  lemma Quarters()
    ensures FieldSet("*/15", 0, 59).Ok?
    ensures forall b :: b in FieldSet("*/15", 0, 59).value <==> 0 <= b <= 59 && b % 15 == 0
  {
    hide FieldSet, Denotes, Wraps, Valid, Render;
    QuarterItem();
    OneItem(Every(Any, 15), "*/15", 0, 59);
    forall b ensures b in FieldSet("*/15", 0, 59).value <==> 0 <= b <= 59 && b % 15 == 0 {
      QuarterMeans(b);
    }
  }

  lemma QuarterItem()
    ensures var item := Every(Any, 15);
            Valid(item, 0, 59) && !Wraps(item, 0) && Writable(item) && Render(item) == "*/15"
  {
    hide Decimal;
    Decimals();
  }

  lemma QuarterMeans(b: int)
    ensures Denotes(Every(Any, 15), 0, 59, b + 0) <==> 0 <= b <= 59 && b % 15 == 0
  {
  }

  lemma WorkHours()
    ensures FieldSet("9-17", 0, 23).Ok? && forall b :: b in FieldSet("9-17", 0, 23).value <==> 9 <= b <= 17
  {
    hide FieldSet, Decimal;
    Decimals();
    OneItem(Plainly(Span(9, 17)), "9-17", 0, 23);
  }

  lemma WorkDays()
    ensures FieldSet(WeekdayText("mon-FRI"), 0, 6).Ok?
    ensures forall b :: b in FieldSet(WeekdayText("mon-FRI"), 0, 6).value <==> 1 <= b <= 5
  {
    hide FieldSet, Decimal, WeekdayText;
    Decimals();
    WorkDaysText();
    OneItem(Plainly(Span(1, 5)), "1-5", 0, 6);
  }

  lemma WorkDaysText()
    ensures WeekdayText("mon-FRI") == "1-5"
  {
    hide Decimal, WeekdayText, ThreeLetterNames;
    TraitNames();
    Decimals();
    TwoNames("mon-FRI", DAYS, 1, '-', 5);
    WeekdayNamesParse("mon-FRI", [Name(1), Other('-'), Name(5)]);
    assert "1" + "-" + "5" == "1-5";
  }

  lemma NoLetterAt(text: string, names: seq<string>, k: nat)
    requires ThreeLetterNames(names) && k < 3 && (k < |text| ==> !IsUpper(text[k]))
    ensures NoNameAt(text, names)
  {
    forall j | 0 <= j < |names| ensures !StartsWith(text, names[j]) {
      assert IsUpper(names[j][k]);
      assert |text| >= 3 ==> text[..3][k] == text[k];
    }
  }

  /** Two names with a sign between them. */
  lemma TwoNames(value: string, names: seq<string>, i: nat, sign: char, j: nat)
    requires ThreeLetterNames(names) && i < |names| && j < |names| && i != j && !IsUpper(sign)
    requires |names[i]| == 3 && Upper(value) == names[i] + [sign] + names[j]
    ensures var pieces := [Name(i), Other(sign), Name(j)];
            && Known(pieces, names) && OnlyAsPieces(pieces, names)
            && Spelled(pieces, names, 0) == Upper(value)
            && Spelled(pieces, names, |names|) == Decimal(i) + [sign] + Decimal(j)
  {
    hide Decimal, ThreeLetterNames, OnlyAsPieces, NoNameAt;
    var last, rest := [Name(j)], [Other(sign), Name(j)];
    var pieces := [Name(i)] + rest;
    assert pieces == [Name(i), Other(sign), Name(j)] && pieces[1..] == rest && rest[1..] == last && last[1..] == [];
    LastName(names, j);
    assert Spelled(rest, names, 0) == [sign] + names[j];
    assert Spelled(rest, names, |names|) == [sign] + Decimal(j);
    assert OnlyAsPieces(rest, names) by { SignThenName(names, sign, j); }
    NoLetterAt(names[i][1..] + ([sign] + names[j]), names, 2);
    NoLetterAt(names[i][2..] + ([sign] + names[j]), names, 1);
    assert OnlyAsPieces(pieces, names) by { NameFirst(pieces, names, i); }
    assert names[i] + ([sign] + names[j]) == names[i] + [sign] + names[j];
    assert Decimal(i) + ([sign] + Decimal(j)) == Decimal(i) + [sign] + Decimal(j);
  }

  lemma LastName(names: seq<string>, j: nat)
    requires ThreeLetterNames(names) && j < |names|
    ensures Known([Name(j)], names) && OnlyAsPieces([Name(j)], names)
    ensures Spelled([Name(j)], names, 0) == names[j] && Spelled([Name(j)], names, |names|) == Decimal(j)
  {
    hide Decimal, ThreeLetterNames, NoNameAt;
    assert [Name(j)][1..] == [];
    assert names[j] + [] == names[j] && Decimal(j) + [] == Decimal(j);
    NameLength(names, j);
    TailsAreShort(names, j);
  }

  lemma SignThenName(names: seq<string>, sign: char, j: nat)
    requires ThreeLetterNames(names) && j < |names| && !IsUpper(sign)
    ensures Known([Other(sign), Name(j)], names) && OnlyAsPieces([Other(sign), Name(j)], names)
  {
    hide Decimal, ThreeLetterNames, NoNameAt;
    LastName(names, j);
    assert [Other(sign), Name(j)][1..] == [Name(j)];
    NoLetterAt([sign] + names[j], names, 0);
  }

  lemma NameFirst(pieces: seq<Piece>, names: seq<string>, i: nat)
    requires ThreeLetterNames(names) && Known(pieces, names) && i < |names| && |names[i]| == 3
    requires pieces != [] && pieces[0] == Name(i) && Name(i) !in pieces[1..] && OnlyAsPieces(pieces[1..], names)
    requires NoNameAt(names[i][1..] + Spelled(pieces[1..], names, 0), names)
    requires NoNameAt(names[i][2..] + Spelled(pieces[1..], names, 0), names)
    ensures OnlyAsPieces(pieces, names)
  {
    hide ThreeLetterNames, NoNameAt, Spelled;
  }

  // ---------- Noon on the 1st and 15th of January and July ----------

  lemma TwiceAYear(x: int)
    ensures Parse("0 0 12 1,15 JAN,jul ?").Ok?
    ensures Parse("0 0 12 1,15 JAN,jul ?").value.Matches(x)
       <==> && SecondOf(x) == 0 && MinuteOf(x) == 0 && HourOf(x) == 12
            && DayOfMonth(DayOf(x)) in {1, 15} && MonthOf(DayOf(x)) % 12 in {0, 6}
  {
    hide Parse, FieldSet, MonthText, WeekdayText, StarForQuestion, Decimal, Interval, Join,
         SecondOf, MinuteOf, HourOf, DayOf, DayOfMonth, DayOfWeek, MonthOf;
    var cex := CronExpr({0}, {0}, {12}, Interval(0, 6), {0, 14}, {0, 6});
    Decimals();
    SingleValue(0, 0, 59);
    SingleValue(12, 0, 23);
    StarAndQuestion();
    TwoValues(1, 15, "1,15", 1, 31);
    TwoValues(1, 7, "1,7", 1, 12);
    JanuaryAndJuly();
    assert StarForQuestion("1,15") == "1,15" by { NotQuestion(); }
    TwiceText();
    FromFields("0 0 12 1,15 JAN,jul ?", ["0", "0", "12", "1,15", "JAN,jul", "?"], cex);
    DateAllowed(DayOf(x));
  }

  lemma NotQuestion()
    ensures StarForQuestion("1,15") == "1,15"
  {
  }

  lemma TwiceText()
    ensures Join(["0", "0", "12", "1,15", "JAN,jul", "?"], ' ') == "0 0 12 1,15 JAN,jul ?"
  {
    hide Join;
    SixJoined("0", "0", "12", "1,15", "JAN,jul", "?");
    assert "0" + [' '] + ("0" + [' '] + ("12" + [' '] + ("1,15" + [' '] + ("JAN,jul" + [' '] + "?"))))
        == "0 0 12 1,15 JAN,jul ?";
  }

  lemma JanuaryAndJuly()
    ensures MonthText("JAN,jul") == "1,7"
  {
    hide Decimal, MonthText, ThreeLetterNames;
    TraitNames();
    Decimals();
    assert Upper("JAN,jul") == "JAN,JUL";
    TwoNames("JAN,jul", MONTHS, 1, ',', 7);
    MonthNamesParse("JAN,jul", [Name(1), Other(','), Name(7)]);
    assert "1" + "," + "7" == "1,7";
  }

  lemma TwoValues(a: int, b: int, text: string, minval: int, maxval: int)
    requires Bounds(minval, maxval) && minval <= a <= maxval && minval <= b <= maxval
    requires text == Decimal(a) + "," + Decimal(b)
    ensures FieldSet(text, minval, maxval) == Ok({a - minval, b - minval})
  {
    hide FieldBits, Decimal;
    var values := [a, b];
    ValuesRoundTrip(values, minval, maxval);
    assert Join(RenderAll(Singles(values)), ',') == text;
    var bits := FieldBits(text, minval, maxval).value;
    forall v ensures v in bits <==> v in {a - minval, b - minval} {
      assert v + minval - minval in bits <==> v + minval in values;
    }
    assert bits == {a - minval, b - minval};
  }
}
