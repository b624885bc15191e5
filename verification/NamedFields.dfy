// The names and signs of the day and month fields, each by its own spelling.
module NamedFields {
  import opened Text
  import opened Fields
  import opened FieldMeaning
  import opened Names
  import opened Parser
  import opened Expressions

  /** The text spells the name, each letter in upper or lower case. */
  predicate Spells(text: string, name: string) {
    && |text| == |name|
    && forall i :: 0 <= i < |name| ==> text[i] == name[i] || text[i] as int == name[i] as int + 32
  }

  lemma SpellsUpper(text: string, name: string)
    requires Spells(text, name) && forall i :: 0 <= i < |name| ==> 'A' <= name[i] <= 'Z'
    ensures Upper(text) == name
  {
    forall i | 0 <= i < |name| ensures Upper(text)[i] == name[i] {
    }
  }

  /** A field that is one name, by its place in the table. */
  lemma OneName(text: string, names: seq<string>, i: nat)
    requires ThreeLetterNames(names) && i < |names| && Upper(text) == names[i]
    ensures ReplaceFrom(Upper(text), names, 0) == Decimal(i)
  {
    hide Decimal, ThreeLetterNames, ReplaceFrom;
    var pieces := [Name(i)];
    assert pieces[1..] == [] && Spelled([], names, 0) == [] && Spelled([], names, |names|) == [];
    NameLength(names, i);
    assert names[i] + [] == names[i] && Decimal(i) + [] == Decimal(i);
    assert Spelled(pieces, names, 0) == names[i] && Spelled(pieces, names, |names|) == Decimal(i);
    assert OnlyAsPieces(pieces, names) by { TailsAreShort(names, i); }
    NamesBecomeNumbers(pieces, names, 0);
  }

  lemma TailsAreShort(names: seq<string>, i: nat)
    requires ThreeLetterNames(names) && i < |names|
    ensures NoNameAt(names[i][1..] + [], names) && NoNameAt(names[i][2..] + [], names)
  {
  }

  lemma SingleValue(n: int, minval: int, maxval: int)
    requires Bounds(minval, maxval) && minval <= n <= maxval
    ensures FieldSet(Decimal(n), minval, maxval) == Ok({n - minval})
  {
    hide FieldBits, Decimal, FieldItems, BitsOf;
    OneText(n, minval, maxval);
    var items := [Plainly(One(n))];
    FieldReadBack(items, minval, maxval);
    FieldRead(Decimal(n), minval, maxval);
    var bits := FieldBits(Decimal(n), minval, maxval).value;
    assert forall b :: b in BitsOf(items[0], minval, maxval) <==> b == n - minval by { OneBit(n, minval, maxval); }
    assert items[0] in items;
    assert bits == {n - minval};
  }

  lemma OneBit(n: int, minval: int, maxval: int)
    requires Bounds(minval, maxval) && minval <= n <= maxval
    ensures Valid(Plainly(One(n)), minval, maxval)
    ensures forall b :: b in BitsOf(Plainly(One(n)), minval, maxval) <==> b == n - minval
  {
  }

  lemma WeekdayIs(text: string, name: string, i: nat)
    requires ThreeLetterNames(DAYS) && i < |DAYS| && name == DAYS[i] && Spells(text, name)
    ensures FieldSet(WeekdayText(text), 0, 6) == Ok({i})
  {
    hide FieldSet, ReplaceFrom, Decimal;
    SpellsUpper(text, name);
    OneName(text, DAYS, i);
    assert Decimal(i)[0] in Decimal(i);
    assert Decimal(i) != "?";
    SingleValue(i, 0, 6);
    assert i - 0 == i;
  }

  lemma MonthIs(text: string, name: string, i: nat)
    requires ThreeLetterNames(MONTHS) && 1 <= i < |MONTHS| && name == MONTHS[i] && Spells(text, name)
    ensures FieldSet(MonthText(text), 1, 12) == Ok({i - 1})
  {
    hide FieldSet, ReplaceFrom, Decimal;
    SpellsUpper(text, name);
    OneName(text, MONTHS, i);
    SingleValue(i, 1, 12);
  }

  /** The weekday names, in any case; Sunday is bit 0. */
  lemma WeekdayNames(text: string)
    ensures Spells(text, "SUN") ==> FieldSet(WeekdayText(text), 0, 6) == Ok({0})
    ensures Spells(text, "MON") ==> FieldSet(WeekdayText(text), 0, 6) == Ok({1})
    ensures Spells(text, "TUE") ==> FieldSet(WeekdayText(text), 0, 6) == Ok({2})
    ensures Spells(text, "WED") ==> FieldSet(WeekdayText(text), 0, 6) == Ok({3})
    ensures Spells(text, "THU") ==> FieldSet(WeekdayText(text), 0, 6) == Ok({4})
    ensures Spells(text, "FRI") ==> FieldSet(WeekdayText(text), 0, 6) == Ok({5})
    ensures Spells(text, "SAT") ==> FieldSet(WeekdayText(text), 0, 6) == Ok({6})
  {
    hide FieldSet, WeekdayText, ThreeLetterNames, Spells;
    TraitNames();
    if Spells(text, "SUN") { WeekdayIs(text, "SUN", 0); }
    if Spells(text, "MON") { WeekdayIs(text, "MON", 1); }
    if Spells(text, "TUE") { WeekdayIs(text, "TUE", 2); }
    if Spells(text, "WED") { WeekdayIs(text, "WED", 3); }
    if Spells(text, "THU") { WeekdayIs(text, "THU", 4); }
    if Spells(text, "FRI") { WeekdayIs(text, "FRI", 5); }
    if Spells(text, "SAT") { WeekdayIs(text, "SAT", 6); }
  }

  /** The month names, in any case; January is bit 0. */
  lemma MonthNames(text: string)
    ensures Spells(text, "JAN") ==> FieldSet(MonthText(text), 1, 12) == Ok({0})
    ensures Spells(text, "FEB") ==> FieldSet(MonthText(text), 1, 12) == Ok({1})
    ensures Spells(text, "MAR") ==> FieldSet(MonthText(text), 1, 12) == Ok({2})
    ensures Spells(text, "APR") ==> FieldSet(MonthText(text), 1, 12) == Ok({3})
    ensures Spells(text, "MAY") ==> FieldSet(MonthText(text), 1, 12) == Ok({4})
    ensures Spells(text, "JUN") ==> FieldSet(MonthText(text), 1, 12) == Ok({5})
  {
    hide FieldSet, MonthText, ThreeLetterNames, Spells;
    TraitNames();
    if Spells(text, "JAN") { MonthIs(text, "JAN", 1); }
    if Spells(text, "FEB") { MonthIs(text, "FEB", 2); }
    if Spells(text, "MAR") { MonthIs(text, "MAR", 3); }
    if Spells(text, "APR") { MonthIs(text, "APR", 4); }
    if Spells(text, "MAY") { MonthIs(text, "MAY", 5); }
    if Spells(text, "JUN") { MonthIs(text, "JUN", 6); }
  }

  lemma LaterMonthNames(text: string)
    ensures Spells(text, "JUL") ==> FieldSet(MonthText(text), 1, 12) == Ok({6})
    ensures Spells(text, "AUG") ==> FieldSet(MonthText(text), 1, 12) == Ok({7})
    ensures Spells(text, "SEP") ==> FieldSet(MonthText(text), 1, 12) == Ok({8})
    ensures Spells(text, "OCT") ==> FieldSet(MonthText(text), 1, 12) == Ok({9})
    ensures Spells(text, "NOV") ==> FieldSet(MonthText(text), 1, 12) == Ok({10})
    ensures Spells(text, "DEC") ==> FieldSet(MonthText(text), 1, 12) == Ok({11})
  {
    hide FieldSet, MonthText, ThreeLetterNames, Spells;
    TraitNames();
    if Spells(text, "JUL") { MonthIs(text, "JUL", 7); }
    if Spells(text, "AUG") { MonthIs(text, "AUG", 8); }
    if Spells(text, "SEP") { MonthIs(text, "SEP", 9); }
    if Spells(text, "OCT") { MonthIs(text, "OCT", 10); }
    if Spells(text, "NOV") { MonthIs(text, "NOV", 11); }
    if Spells(text, "DEC") { MonthIs(text, "DEC", 12); }
  }

  /** `*` and, in the two day fields, `?` allow everything. */
  lemma StarAndQuestion()
    ensures FieldSet("*", 0, 59) == Ok(Interval(0, 59)) && FieldSet("*", 0, 23) == Ok(Interval(0, 23))
    ensures FieldSet(StarForQuestion("*"), 1, 31) == FieldSet(StarForQuestion("?"), 1, 31) == Ok(Interval(0, 30))
    ensures FieldSet(MonthText("*"), 1, 12) == Ok(Interval(0, 11))
    ensures FieldSet(WeekdayText("*"), 0, 6) == FieldSet(WeekdayText("?"), 0, 6) == Ok(Interval(0, 6))
  {
    hide FieldSet, ReplaceFrom, ThreeLetterNames, Interval;
    TraitNames();
    StarFull(0, 59);
    StarFull(0, 23);
    StarFull(1, 31);
    StarFull(1, 12);
    StarFull(0, 6);
    SignsStay("*");
    SignsStay("?");
    assert Upper("*") == "*" && Upper("?") == "?";
  }

  lemma SignsStay(text: string)
    requires text == "*" || text == "?"
    ensures ThreeLetterNames(DAYS) && ThreeLetterNames(MONTHS)
    ensures ReplaceFrom(text, DAYS, 0) == text && ReplaceFrom(text, MONTHS, 0) == text
  {
    hide ThreeLetterNames;
    TraitNames();
    TooShort(text, DAYS, 0);
    TooShort(text, MONTHS, 0);
  }

  lemma {:induction false} TooShort(text: string, names: seq<string>, i: nat)
    requires ThreeLetterNames(names) && i <= |names| && |text| < 3
    ensures ReplaceFrom(text, names, i) == text
    decreases |names| - i
  {
    hide ThreeLetterNames;
    ReplaceStep(text, names, i);
    if i < |names| {
      NameLength(names, i);
      assert Find(text, names[i]) == -1;
      TooShort(text, names, i + 1);
    }
  }

  lemma StarFull(minval: int, maxval: int)
    requires Bounds(minval, maxval)
    ensures FieldSet("*", minval, maxval) == Ok(Interval(0, maxval - minval))
  {
    hide FieldBits, FieldItems, BitsOf;
    StarText(minval, maxval);
    var items := [Plainly(Any)];
    FieldReadBack(items, minval, maxval);
    FieldRead("*", minval, maxval);
    assert items[0] in items;
    assert forall b :: b in BitsOf(items[0], minval, maxval) <==> 0 <= b <= maxval - minval by { AnyBits(minval, maxval); }
    assert FieldBits("*", minval, maxval).value == Interval(0, maxval - minval);
  }

  lemma AnyBits(minval: int, maxval: int)
    requires Bounds(minval, maxval)
    ensures Valid(Plainly(Any), minval, maxval)
    ensures forall b :: b in BitsOf(Plainly(Any), minval, maxval) <==> 0 <= b <= maxval - minval
  {
  }

  lemma {:induction false} LetterMissing(text: string, name: string, k: nat)
    requires |name| == 3 && k < 3 && name[k] !in text
    ensures Find(text, name) == -1
  {
    if |text| >= 3 {
      assert text[..3][k] in text;
      LetterMissing(text[1..], name, k);
    }
  }

  lemma NameAbsent(text: string, names: seq<string>, i: nat, k: nat)
    requires ThreeLetterNames(names) && i < |names| && k < 3 && |names[i]| == 3 && names[i][k] !in text
    ensures ReplaceFrom(text, names, i) == ReplaceFrom(text, names, i + 1)
  {
    hide ThreeLetterNames, Find, ReplaceFrom;
    ReplaceStep(text, names, i);
    NameLength(names, i);
    LetterMissing(text, names[i], k);
  }

  lemma FirstTuesday()
    ensures ReplaceFirst("TUE,TUE", "TUE", 2) == "2,TUE"
  {
    hide Decimal;
    var text := "TUE,TUE";
    assert text[..3] == "TUE" && text[3..] == ",TUE" && text[..0] == "";
    DecimalTwo();
  }

  /** Of seven names, only the one with index 2 is found, and after it none. */
  lemma OnlyThird(text: string, later: string, names: seq<string>)
    requires ThreeLetterNames(names) && |names| == 7 && forall j :: 0 <= j < 7 ==> |names[j]| == 3
    requires names[0][0] !in text && names[1][0] !in text && later == ReplaceFirst(text, names[2], 2)
    requires names[3][0] !in later && names[4][1] !in later && names[5][0] !in later && names[6][0] !in later
    ensures ReplaceFrom(text, names, 0) == later
  {
    hide ReplaceFrom, ThreeLetterNames, Decimal, Find, ReplaceFirst;
    NameAbsent(text, names, 0, 0);
    NameAbsent(text, names, 1, 0);
    ReplaceStep(text, names, 2);
    NameAbsent(later, names, 3, 0);
    NameAbsent(later, names, 4, 1);
    NameAbsent(later, names, 5, 0);
    NameAbsent(later, names, 6, 0);
    ReplaceStep(later, names, 7);
  }

  lemma RepeatedTuesday()
    ensures WeekdayText("TUE,TUE") == "2,TUE"
  {
    hide ReplaceFrom, ThreeLetterNames, Upper;
    TuesdayUpper();
    TuesdayReplaced();
  }

  lemma TuesdayUpper()
    ensures Upper("TUE,TUE") == "TUE,TUE"
  {
  }

  lemma TuesdayReplaced()
    ensures ThreeLetterNames(DAYS) && ReplaceFrom("TUE,TUE", DAYS, 0) == "2,TUE"
  {
    hide ReplaceFrom, ThreeLetterNames, Decimal, Find, ReplaceFirst;
    TraitNames();
    FirstTuesday();
    OtherLetters();
    OnlyThird("TUE,TUE", "2,TUE", DAYS);
  }

  lemma OtherLetters()
    ensures "SUN"[0] !in "TUE,TUE" && "MON"[0] !in "TUE,TUE"
    ensures "WED"[0] !in "2,TUE" && "THU"[1] !in "2,TUE" && "FRI"[0] !in "2,TUE" && "SAT"[0] !in "2,TUE"
  {
  }

  lemma DecimalTwo()
    ensures Decimal(2) == "2" && Decimal(0) == "0"
  {
  }

  lemma NotNumbers()
    ensures ToCronInt("TUE") == Bad(NotANumber)
  {
    assert CString("TUE") == "TUE";
  }

  /** Only the first occurrence of a name is replaced, so a repeated name is refused. */
  lemma RepeatedNameRefused()
    ensures FieldSet(WeekdayText("TUE,TUE"), 0, 6) == Bad(NotANumber)
  {
    hide ToCronInt, WeekdayText, Decimal;
    RepeatedTuesday();
    NotNumbers();
    DecimalReadBack(2);
    DecimalTwo();
    TokensOfJoin(["2", "TUE"], ',');
    assert Join(["2", "TUE"], ',') == "2,TUE";
    assert ItemBits("TUE", 0, 6) == Bad(NotANumber);
    assert ItemBits("2", 0, 6).Ok?;
    assert ["2", "TUE"][1..] == ["TUE"];
  }

  /** The name of month 0 is refused. */
  lemma NilRefused()
    ensures FieldSet(MonthText("NIL"), 1, 12) == Bad(BelowMinimum)
  {
    hide ToCronInt, ReplaceFrom, Decimal, ThreeLetterNames;
    TraitNames();
    assert Upper("NIL") == "NIL";
    OneName("NIL", MONTHS, 0);
    DecimalReadBack(0);
    DecimalTwo();
    TokensOfJoin(["0"], ',');
    assert Join(["0"], ',') == "0";
    assert ItemBits("0", 1, 12) == Bad(BelowMinimum);
  }
}
