// What gluing "0" to the front of a cron expression does, as the service does before it parses one.
module Prefix {
  import opened Text
  import opened Fields
  import opened Parser
  import opened CronExprs

  // ---------- Fields ----------

  /** A glued 0 lengthens the first token and leaves the others. */
  lemma GluedTokens(text: string, delimiter: char)
    requires text != [] && text[0] != '\0' && delimiter != '0'
    ensures var tokens := Tokens(text, delimiter);
            && tokens != [] && Tokens("0" + text, delimiter) == ["0" + tokens[0]] + tokens[1..]
            && (tokens[0] == [] <==> text[0] == delimiter)
            && (text[0] != delimiter ==> tokens[0][0] == text[0])
  {
    hide IndexOf, Lines;
    var s := CString(text);
    assert ("0" + text)[1..] == text;
    assert CString("0" + text) == "0" + s;
    var j := IndexOf(s, delimiter);
    FirstIndex(s, delimiter);
    LinesUnfold(s, delimiter);
    LinesUnfold("0" + s, delimiter);
    var rest := if j == |s| then [] else s[j + 1..];
    assert ("0" + s)[..j + 1] == "0" + s[..j];
    assert j < |s| ==> ("0" + s)[j + 2..] == rest;
    assert ([s[..j]] + Lines(rest, delimiter))[1..] == Lines(rest, delimiter);
  }

  lemma FirstIndex(s: string, delimiter: char)
    requires s != [] && delimiter != '0'
    ensures IndexOf("0" + s, delimiter) == IndexOf(s, delimiter) + 1
    ensures IndexOf(s, delimiter) == 0 <==> s[0] == delimiter
  {
    assert ("0" + s)[1..] == s;
  }

  /** Gluing "0" to the front of an expression adds a field of its own only when the expression starts
      with a blank; otherwise it lengthens the first field. */
  lemma PrefixFields(expr: string)
    requires expr != [] && expr[0] != '\0'
    ensures var fields, glued := DropEmpty(Tokens(expr, ' ')), DropEmpty(Tokens("0" + expr, ' '));
            && (expr[0] == ' ' ==> glued == ["0"] + fields)
            && (expr[0] != ' ' ==>
                  fields != [] && fields[0] != [] && fields[0][0] == expr[0] && glued == ["0" + fields[0]] + fields[1..])
  {
    hide Tokens;
    GluedTokens(expr, ' ');
    var tokens := Tokens(expr, ' ');
    assert tokens == [tokens[0]] + tokens[1..];
    DropFirst(tokens[0], tokens[1..]);
    DropFirst("0" + tokens[0], tokens[1..]);
    assert tokens[0] == [] ==> "0" + tokens[0] == "0" && [] + DropEmpty(tokens[1..]) == DropEmpty(tokens[1..]);
  }

  lemma DropFirst(t: string, tokens: seq<string>)
    ensures DropEmpty([t] + tokens) == (if t == [] then [] else [t]) + DropEmpty(tokens)
  {
    assert ([t] + tokens)[1..] == tokens;
  }

  lemma {:induction false} ItemErrors(items: seq<string>, minval: int, maxval: int)
    requires Bounds(minval, maxval)
    ensures ItemsBits(items, minval, maxval) != Bad(NotSixFields)
  {
    hide Tokens;
    if items != [] { ItemErrors(items[1..], minval, maxval); }
  }

  /** The number of fields is the only reason for the error of that name. */
  lemma SixFieldsIff(expr: string)
    requires expr != []
    ensures Parse(expr) == Bad(NotSixFields) <==> |DropEmpty(Tokens(expr, ' '))| != 6
  {
    hide WeekdayText, MonthText, StarForQuestion, Tokens, DropEmpty, FieldSet;
    forall text, minval, maxval | Bounds(minval, maxval) ensures FieldSet(text, minval, maxval) != Bad(NotSixFields) {
      FieldErrors(text, minval, maxval);
    }
  }

  lemma FieldErrors(text: string, minval: int, maxval: int)
    requires Bounds(minval, maxval)
    ensures FieldSet(text, minval, maxval) != Bad(NotSixFields)
  {
    hide Tokens, ItemsBits;
    ItemErrors(Tokens(text, ','), minval, maxval);
  }

  /** So a five-field expression is refused for its number of fields exactly when it does not start with
      a blank. */
  lemma FiveFieldsRefused(expr: string)
    requires expr != [] && expr[0] != '\0' && |DropEmpty(Tokens(expr, ' '))| == 5
    ensures Parse("0" + expr) == Bad(NotSixFields) <==> expr[0] != ' '
  {
    hide Tokens, DropEmpty, Parse;
    PrefixFields(expr);
    SixFieldsIff("0" + expr);
  }

  /** Nine o'clock on Mondays, as the usual five fields: refused. */
  lemma NineOnMondays()
    ensures Parse("0" + "0 9 * * 1") == Bad(NotSixFields)
  {
    hide Tokens, Parse;
    var fields := ["0", "9", "*", "*", "1"];
    TokensOfJoin(fields, ' ');
    assert Join(fields, ' ') == "0 9 * * 1";
    FiveFieldsRefused("0 9 * * 1");
  }

  lemma ZeroField()
    ensures FieldSet("0", 0, 59) == Ok({0})
  {
    hide Decimal, ToCronInt;
    DecimalReadBack(0);
    assert Decimal(0) == "0" by { DecimalZero(); }
    TokensOfJoin(["0"], ',');
    assert Tokens("0", ',') == ["0"];
    assert ItemBits("0", 0, 59) == Ok(Interval(0, 0));
    assert Interval(0, 0) == {0};
    assert ["0"][1..] == [];
    assert ItemsBits(["0"], 0, 59) == Ok({0} + {});
  }

  lemma DecimalZero()
    ensures Decimal(0) == "0"
  {
  }

  /** With a blank in front, the glued "0" is the seconds field the service means it to be. */
  lemma BlankGivesSecondZero(expr: string)
    requires expr != [] && expr[0] == ' ' && Parse("0" + expr).Ok?
    ensures Parse("0" + expr).value.seconds == {0}
  {
    hide WeekdayText, MonthText, FieldSet, Tokens, DropEmpty;
    PrefixFields(expr);
    ZeroField();
  }

  // ---------- Numbers and items ----------

  lemma {:induction false} GluedValue(digits: string)
    requires forall i :: 0 <= i < |digits| ==> IsDigit(digits[i])
    ensures Value("0" + digits) == Value(digits)
  {
    if digits != [] {
      var n := |digits|;
      GluedValue(digits[..n - 1]);
      assert ("0" + digits)[..n] == "0" + digits[..n - 1];
    } else {
      assert "0" + digits == "0";
      assert "0"[..0] == [];
    }
  }

  /** A leading 0 does not change a number. */
  lemma GluedNumber(text: string)
    requires text != [] && IsDigit(text[0])
    ensures ToCronInt("0" + text) == ToCronInt(text)
  {
    hide Value;
    var s := CString(text);
    assert ("0" + text)[1..] == text;
    assert ("0" + s)[1..] == s;
    assert CString("0" + text) == "0" + s;
    assert DigitRun("0" + s) == "0" + DigitRun(s);
    GluedValue(DigitRun(s));
  }

  lemma GluedRange(text: string, minval: int, maxval: int)
    requires text != [] && IsDigit(text[0])
    ensures MakeRange("0" + text, minval, maxval) == MakeRange(text, minval, maxval)
  {
    hide ToCronInt, Tokens;
    assert ("0" + text)[0] == '0' && text[0] != '*';
    assert text != "*" && "0" + text != "*";
    GluedNumber(text);
    GluedTokens(text, '-');
    GluedNumber(Tokens(text, '-')[0]);
  }

  lemma GluedItem(text: string, minval: int, maxval: int)
    requires Bounds(minval, maxval) && text != [] && IsDigit(text[0])
    ensures ItemBits("0" + text, minval, maxval) == ItemBits(text, minval, maxval)
  {
    hide ToCronInt, Tokens, MakeRange, StepBits;
    GluedRange(text, minval, maxval);
    GluedTokens(text, '/');
    var base := Tokens(text, '/')[0];
    GluedRange(base, minval, maxval);
    assert '-' in "0" + base <==> '-' in base;
  }

  /** `*` with a step counts from 0 as before. */
  lemma GluedStarStep(text: string)
    requires StarStep(text)
    ensures ItemBits("0" + text, 0, 59) == ItemBits(text, 0, 59)
  {
    hide ToCronInt, Tokens, StepBits;
    GluedTokens(text, '/');
    ZeroAndStar();
    assert "0" + "*" == "0*";
    assert '-' !in "*" && '-' !in "0*";
  }

  predicate StarStep(item: string) {
    item != [] && item[0] == '*' && '/' in item && Tokens(item, '/') != [] && Tokens(item, '/')[0] == "*"
  }

  /** The first item of the field starts with a digit or is a `*` with a step. */
  predicate KeepsZero(field: string) {
    field != [] && (IsDigit(field[0]) || (field[0] == '*' && Tokens(field, ',') != [] && StarStep(Tokens(field, ',')[0])))
  }

  /** A glued 0 changes nothing in such a seconds field. */
  lemma GluedField(field: string)
    requires KeepsZero(field)
    ensures FieldSet("0" + field, 0, 59) == FieldSet(field, 0, 59)
  {
    hide ItemBits, Tokens;
    GluedTokens(field, ',');
    var tokens := Tokens(field, ',');
    if IsDigit(field[0]) { GluedItem(tokens[0], 0, 59); } else { GluedStarStep(tokens[0]); }
    assert (["0" + tokens[0]] + tokens[1..])[1..] == tokens[1..];
    assert ("0" + field)[|field|] == field[|field| - 1];
  }

  /** A glued 0 turns every second into second 0. */
  lemma GluedStar()
    ensures FieldSet("*", 0, 59) == Ok(Interval(0, 59)) && FieldSet("0*", 0, 59) == Ok({0})
  {
    hide ToCronInt;
    TokensOfJoin(["*"], ',');
    TokensOfJoin(["0*"], ',');
    assert Tokens("*", ',') == ["*"] && Tokens("0*", ',') == ["0*"];
    ZeroAndStar();
    assert Interval(0, 0) == {0};
    assert ItemBits("0*", 0, 59) == Ok({0});
    assert ItemBits("*", 0, 59) == Ok(Interval(0, 59));
    assert ["0*"][1..] == [] && ["*"][1..] == [];
    assert ItemsBits(["0*"], 0, 59) == Ok({0} + {});
    assert ItemsBits(["*"], 0, 59) == Ok(Interval(0, 59) + {});
    assert Interval(0, 59) + {} == Interval(0, 59);
  }

  lemma ZeroAndStar()
    ensures ToCronInt("0*") == Ok(0)
  {
    assert "0*"[1..] == "*" && "*"[1..] == "";
    assert CString("0*") == "0*";
    assert DigitRun("0*") == "0";
    assert "0"[..0] == "";
    assert Value("0") == 0;
  }

  /** What the service makes of a six-field expression: one whose seconds start with a digit or are `*` with
      a step keeps its meaning, and one whose seconds are `*` runs at second 0 only. */
  lemma GluedSixFields(expr: string)
    requires expr != [] && expr[0] != ' ' && expr[0] != '\0' && |DropEmpty(Tokens(expr, ' '))| == 6
    ensures var seconds := DropEmpty(Tokens(expr, ' '))[0];
            && (KeepsZero(seconds) ==> Parse("0" + expr) == Parse(expr))
            && (seconds == "*" ==>
                  Parse("0" + expr) == match Parse(expr)
                                       case Bad(e) => Bad(e)
                                       case Ok(cex) => Ok(cex.(seconds := {0})))
  {
    hide Tokens, DropEmpty, FieldSet, MonthText, WeekdayText, StarForQuestion, CronExpr.WellFormed, KeepsZero;
    PrefixFields(expr);
    var seconds := DropEmpty(Tokens(expr, ' '))[0];
    if KeepsZero(seconds) { GluedField(seconds); }
    GluedStar();
    assert "0" + "*" == "0*";
  }
}
