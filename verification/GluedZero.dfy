// What an accepted six-field expression means once "0" is glued to its front, whatever its seconds field.
module GluedZero {
  import opened Text
  import opened Fields
  import opened FieldMeaning
  import opened Parser
  import opened Prefix
  import opened Expressions
  import opened CronExprs

  // ---------- One item ----------

  function BaseFromZero(base: Base): Base {
    match base
    case Any => One(0)
    case One(_) => One(0)
    case Span(_, b) => Span(0, b)
  }

  /** The item that an item which does not start with a digit becomes: it starts at 0. */
  function FromZero(item: Item): Item {
    match item
    case Plainly(base) => Plainly(BaseFromZero(base))
    case Every(base, step) => Every(BaseFromZero(base), step)
  }

  /** A 0 before anything but a digit is the whole number. */
  lemma ZeroAlone(text: string)
    requires text == [] || !IsDigit(text[0])
    ensures ToCronInt("0" + text) == Ok(0)
  {
    var s := CString(text);
    assert ("0" + text)[1..] == text;
    assert ("0" + s)[1..] == s;
    assert CString("0" + text) == "0" + s;
    assert DigitRun("0" + s) == "0";
    assert "0"[..0] == [];
    assert Value("0") == 0;
  }

  lemma NoNumber(text: string)
    requires text == [] || text[0] == '\0'
    ensures ToCronInt(text).Bad? && forall delimiter :: Tokens(text, delimiter) == []
  {
  }

  /** An accepted range starts with something: not with a NUL, and not with the dash. */
  lemma RangeStarts(text: string)
    requires MakeRange(text, 0, 59).Ok?
    ensures text != [] && text[0] != '\0' && text[0] != '-'
  {
    hide ToCronInt, Tokens;
    if text == [] || text[0] == '\0' {
      NoNumber(text);
    } else {
      GluedTokens(text, '-');
      NoNumber([]);
    }
  }

  lemma RangeFromZero(text: string)
    requires text != [] && !IsDigit(text[0]) && MakeRange(text, 0, 59).Ok?
    ensures MakeRange("0" + text, 0, 59).Ok?
    ensures BaseOf("0" + text, 0, 59) == BaseFromZero(BaseOf(text, 0, 59))
  {
    hide ToCronInt, Tokens;
    RangeStarts(text);
    StarHasNoDash();
    assert ("0" + text)[0] == '0';
    assert '-' in "0" + text <==> '-' in text;
    ZeroAlone(text);
    GluedTokens(text, '-');
    ZeroAlone(Tokens(text, '-')[0]);
  }

  lemma ItemFromZero(text: string)
    requires text != [] && !IsDigit(text[0]) && ItemBits(text, 0, 59).Ok?
    ensures ItemBits("0" + text, 0, 59).Ok?
    ensures ItemOf("0" + text, 0, 59) == FromZero(ItemOf(text, 0, 59))
  {
    hide ToCronInt, Tokens, MakeRange, StepBits, Interval, BaseOf;
    assert '/' in "0" + text <==> '/' in text;
    if '/' !in text {
      RangeFromZero(text);
    } else {
      ItemStarts(text);
      GluedTokens(text, '/');
      var base := Tokens(text, '/')[0];
      RangeStarts(base);
      RangeFromZero(base);
      assert '-' in "0" + base <==> '-' in base;
    }
  }

  lemma ItemStarts(text: string)
    requires ItemBits(text, 0, 59).Ok?
    ensures text != [] && text[0] != '\0' && text[0] != '/'
  {
    hide ToCronInt, Tokens, MakeRange, StepBits, Interval;
    if '/' !in text {
      RangeStarts(text);
    } else if text[0] == '\0' {
      NoNumber(text);
    } else {
      GluedTokens(text, '/');
      RangeStarts(Tokens(text, '/')[0]);
    }
  }

  // ---------- The seconds field ----------

  /** The complete reading: a glued 0 makes the first item of the seconds start at 0, if it does not
      start with a digit, and leaves the others. */
  lemma FieldFromZero(field: string)
    requires field != [] && !IsDigit(field[0]) && FieldBits(field, 0, 59).Ok?
    ensures FieldBits("0" + field, 0, 59).Ok?
    ensures var items := FieldItems(field, 0, 59);
            items != [] && FieldItems("0" + field, 0, 59) == [FromZero(items[0])] + items[1..]
  {
    hide ItemBits, Tokens, ItemOf, ItemsBits;
    FieldStarts(field);
    GluedTokens(field, ',');
    var tokens := Tokens(field, ',');
    ItemsUnion(tokens, 0, 59);
    assert tokens[0] in tokens;
    ItemStarts(tokens[0]);
    ItemFromZero(tokens[0]);
    var glued := ["0" + tokens[0]] + tokens[1..];
    forall t | t in glued ensures ItemBits(t, 0, 59).Ok? {
      assert t == glued[0] || t in tokens;
    }
    ItemsUnion(glued, 0, 59);
    assert ("0" + field)[|field|] == field[|field| - 1];
  }

  lemma FieldStarts(field: string)
    requires field != [] && FieldBits(field, 0, 59).Ok?
    ensures field[0] != '\0'
  {
    hide ItemsBits, Tokens;
    if field[0] == '\0' { NoNumber(field); }
  }

  /** Every second that the first item sets and its form from 0 does not, or the other way round, is set
      by another item. */
  predicate ZeroCovered(items: seq<Item>)
    requires AllValid(items, 0, 59)
  {
    forall b :: 0 <= b < 60 ==>
      (b in BitsOf(items[0], 0, 59) <==> b in BitsOf(FromZero(items[0]), 0, 59)) || SetIn(items[1..], b)
  }

  predicate SetIn(items: seq<Item>, b: int)
    requires forall i :: i in items ==> Valid(i, 0, 59)
  {
    exists i :: i in items && b in BitsOf(i, 0, 59)
  }

  lemma UnionOfItems(items: seq<Item>, b: int)
    requires AllValid(items, 0, 59)
    ensures (exists i :: i in items && b in BitsOf(i, 0, 59)) <==> b in BitsOf(items[0], 0, 59) || SetIn(items[1..], b)
  {
    hide BitsOf, Valid;
    assert items == [items[0]] + items[1..];
  }

  /** A seconds field that does not start with a digit keeps its set if and only if what its first item
      loses and gains by starting at 0 is set by other items. */
  lemma SecondsKeptIff(field: string)
    requires field != [] && !IsDigit(field[0]) && FieldBits(field, 0, 59).Ok?
    ensures var items := FieldItems(field, 0, 59);
            && AllValid(items, 0, 59)
            && (FieldSet("0" + field, 0, 59) == FieldSet(field, 0, 59) <==> ZeroCovered(items))
  {
    hide FieldBits, FieldItems, BitsOf, Valid;
    FieldRead(field, 0, 59);
    FieldFromZero(field);
    FieldRead("0" + field, 0, 59);
    var items, glued := FieldItems(field, 0, 59), FieldItems("0" + field, 0, 59);
    assert glued[1..] == items[1..];
    var bits, gluedBits := FieldBits(field, 0, 59).value, FieldBits("0" + field, 0, 59).value;
    forall b
      ensures b in bits <==> b in BitsOf(items[0], 0, 59) || SetIn(items[1..], b)
      ensures b in gluedBits <==> b in BitsOf(FromZero(items[0]), 0, 59) || SetIn(items[1..], b)
    {
      UnionOfItems(items, b);
      UnionOfItems(glued, b);
    }
    if ZeroCovered(items) { assert bits == gluedBits; }
  }

  /** A field that starts with a digit keeps its items. */
  lemma ItemKept(text: string)
    requires text != [] && IsDigit(text[0]) && ItemBits(text, 0, 59).Ok?
    ensures ItemBits("0" + text, 0, 59).Ok? && ItemOf("0" + text, 0, 59) == ItemOf(text, 0, 59)
  {
    hide ToCronInt, Tokens, MakeRange, StepBits, Interval;
    GluedItem(text, 0, 59);
    assert '/' in "0" + text <==> '/' in text;
    if '/' !in text {
      RangeKept(text);
    } else {
      GluedTokens(text, '/');
      RangeKept(Tokens(text, '/')[0]);
    }
  }

  lemma RangeKept(text: string)
    requires text != [] && IsDigit(text[0]) && MakeRange(text, 0, 59).Ok?
    ensures MakeRange("0" + text, 0, 59).Ok? && BaseOf("0" + text, 0, 59) == BaseOf(text, 0, 59)
  {
    hide MakeRange;
    GluedRange(text, 0, 59);
    assert '-' in "0" + text <==> '-' in text;
    assert ("0" + text)[0] == '0' && text[0] != '*';
  }

  lemma FieldKept(field: string)
    requires field != [] && IsDigit(field[0]) && FieldBits(field, 0, 59).Ok?
    ensures FieldBits("0" + field, 0, 59) == FieldBits(field, 0, 59)
    ensures FieldItems("0" + field, 0, 59) == FieldItems(field, 0, 59)
  {
    hide ItemBits, Tokens, ItemOf, ItemsBits;
    assert FieldBits("0" + field, 0, 59) == FieldBits(field, 0, 59) by { hide FieldBits; GluedField(field); }
    GluedTokens(field, ',');
    var tokens := Tokens(field, ',');
    ItemsUnion(tokens, 0, 59);
    assert tokens[0] in tokens;
    ItemKept(tokens[0]);
    var glued := ["0" + tokens[0]] + tokens[1..];
    ItemsUnion(glued, 0, 59);
  }

  // ---------- Whole expressions ----------

  /** An expression with the fields of an accepted one but for the seconds. */
  lemma OtherSeconds(expr: string, other: string, g: string)
    requires Parse(expr).Ok? && other != [] && FieldSet(g, 0, 59).Ok?
    requires DropEmpty(Tokens(other, ' ')) == [g] + DropEmpty(Tokens(expr, ' '))[1..]
    ensures Parse(other) == Ok(Parse(expr).value.(seconds := FieldSet(g, 0, 59).value))
    ensures Read(other) == Read(expr).(seconds := FieldItems(g, 0, 59))
  {
    FieldsOf(expr);
    var f := DropEmpty(Tokens(expr, ' '));
    var h := DropEmpty(Tokens(other, ' '));
    assert h[1] == f[1] && h[2] == f[2] && h[3] == f[3] && h[4] == f[4] && h[5] == f[5];
    SameButSeconds(expr, other, g, f, h);
  }

  lemma SameButSeconds(expr: string, other: string, g: string, f: seq<string>, h: seq<string>)
    requires Parse(expr).Ok? && other != [] && FieldSet(g, 0, 59).Ok?
    requires f == DropEmpty(Tokens(expr, ' ')) && h == DropEmpty(Tokens(other, ' ')) && |f| == |h| == 6
    requires h[0] == g && h[1] == f[1] && h[2] == f[2] && h[3] == f[3] && h[4] == f[4] && h[5] == f[5]
    ensures Parse(other) == Ok(Parse(expr).value.(seconds := FieldSet(g, 0, 59).value))
    ensures Read(other) == Read(expr).(seconds := FieldItems(g, 0, 59))
  {
    hide FieldSet, FieldItems, WeekdayText, MonthText, StarForQuestion, DropEmpty, Tokens;
    FieldsOf(expr);
  }

  /** What the service reads from an accepted six-field expression: the same schedule, but for the first
      item of its seconds, which starts at 0 unless it is written with a digit first. */
  lemma GluedReading(expr: string)
    requires expr != [] && expr[0] != ' ' && Parse(expr).Ok?
    ensures Parse("0" + expr).Ok? && Read(expr).seconds != []
    ensures var s := Read(expr);
            Read("0" + expr) == if IsDigit(expr[0]) then s else s.(seconds := [FromZero(s.seconds[0])] + s.seconds[1..])
  {
    hide Parse, FieldBits, FieldItems, WeekdayText, MonthText, StarForQuestion, DropEmpty, Tokens;
    FieldsOf(expr);
    ExpressionStarts(expr);
    PrefixFields(expr);
    var f := DropEmpty(Tokens(expr, ' '))[0];
    FieldRead(f, 0, 59);
    if IsDigit(expr[0]) { FieldKept(f); } else { FieldFromZero(f); }
    OtherSeconds(expr, "0" + expr, "0" + f);
  }

  lemma ExpressionStarts(expr: string)
    requires Parse(expr).Ok?
    ensures expr != [] && expr[0] != '\0'
  {
    hide Tokens, FieldSet, WeekdayText, MonthText, StarForQuestion;
    if expr != [] && expr[0] == '\0' { NoNumber(expr); }
  }

  /** An accepted six-field expression keeps its meaning if and only if it starts with a digit or its other
      seconds cover the change. */
  lemma MeaningKeptIff(expr: string)
    requires expr != [] && expr[0] != ' ' && Parse(expr).Ok?
    ensures AllValid(Read(expr).seconds, 0, 59)
    ensures Parse("0" + expr) == Parse(expr) <==> IsDigit(expr[0]) || ZeroCovered(Read(expr).seconds)
  {
    hide Parse, FieldBits, FieldItems, ZeroCovered, WeekdayText, MonthText, StarForQuestion, DropEmpty, Tokens, AllValid;
    FieldsOf(expr);
    ExpressionStarts(expr);
    PrefixFields(expr);
    var f := DropEmpty(Tokens(expr, ' '))[0];
    FieldRead(f, 0, 59);
    if IsDigit(expr[0]) {
      FieldKept(f);
    } else {
      FieldFromZero(f);
      SecondsKeptIff(f);
    }
    OtherSeconds(expr, "0" + expr, "0" + f);
  }
}
