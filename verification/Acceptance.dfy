// Which texts are accepted, from numbers up to whole expressions, and which error the others give.
module Acceptance {
  import opened Text
  import opened Fields
  import opened FieldMeaning
  import opened Parser
  import opened Prefix
  import opened Expressions
  import opened CronExprs

  // ---------- Numbers ----------

  lemma {:induction false} CStringPrefix(s: string, rest: string)
    requires '\0' !in s
    ensures CString(s + rest) == s + CString(rest)
  {
    if s == [] {
      assert s + rest == rest && s + CString(rest) == CString(rest);
    } else {
      assert (s + rest)[1..] == s[1..] + rest;
      CStringPrefix(s[1..], rest);
      assert s == [s[0]] + s[1..];
    }
  }

  /** Nothing after a NUL is read. */
  lemma NulEnds(s: string, rest: string)
    requires '\0' !in s
    ensures ToCronInt(s + "\0" + rest) == ToCronInt(s)
    ensures forall delimiter :: Tokens(s + "\0" + rest, delimiter) == Tokens(s, delimiter)
  {
    hide SkipSpaces, DigitRun, Value, Lines;
    CStringPrefix(s, "\0" + rest);
    assert s + "\0" + rest == s + ("\0" + rest);
    assert CString("\0" + rest) == [];
    CStringWhole(s);
    assert s + [] == s;
  }

  lemma {:induction false} SpacesSkipped(spaces: string, rest: string)
    requires (forall c :: c in spaces ==> IsSpace(c)) && (rest == [] || !IsSpace(rest[0]))
    ensures SkipSpaces(spaces + rest) == rest
  {
    if spaces == [] {
      assert spaces + rest == rest;
    } else {
      assert spaces[0] in spaces;
      assert (spaces + rest)[1..] == spaces[1..] + rest;
      SpacesSkipped(spaces[1..], rest);
    }
  }

  lemma {:induction false} DigitsTaken(digits: string, rest: string)
    requires (forall c :: c in digits ==> IsDigit(c)) && (rest == [] || !IsDigit(rest[0]))
    ensures DigitRun(digits + rest) == digits
  {
    if digits == [] {
      assert digits + rest == rest;
    } else {
      assert digits[0] in digits;
      assert (digits + rest)[1..] == digits[1..] + rest;
      DigitsTaken(digits[1..], rest);
    }
  }

  /** A number is read past spaces and a sign and up to the first character that is not a digit; a minus sign
      negates it in 64 bits, and the result is cut to eight. */
  lemma NumberRead(spaces: string, sign: string, digits: string, rest: string)
    requires (forall c :: c in spaces ==> IsSpace(c)) && sign in {"", "+", "-"}
    requires digits != [] && (forall c :: c in digits ==> IsDigit(c)) && (rest == [] || !IsDigit(rest[0]))
    ensures ToCronInt(spaces + sign + digits + rest)
         == if Value(digits) > ULONG_MAX then Bad(NumberTooLarge)
            else if sign == "-" then Ok((0x1_0000_0000_0000_0000 - Value(digits)) % 256)
            else Ok(Value(digits) % 256)
  {
    hide SkipSpaces, DigitRun, Value, CString, ToCronInt, IsSpace, IsDigit;
    var tail := CString(rest);
    var s := sign + digits + tail;
    NoNul(spaces, sign, digits);
    CStringPrefix(spaces + sign + digits, rest);
    TailOf(rest);
    assert spaces + sign + digits + tail == spaces + s;
    SignedDigits(sign, digits, tail);
    SpacesSkipped(spaces, s);
    ReadAfterSpaces(spaces + sign + digits + rest, s, sign, digits, tail);
  }

  lemma NoNul(spaces: string, sign: string, digits: string)
    requires (forall c :: c in spaces ==> IsSpace(c)) && sign in {"", "+", "-"} && forall c :: c in digits ==> IsDigit(c)
    ensures '\0' !in spaces + sign + digits
  {
    assert '\0' !in "+" && '\0' !in "-";
  }

  lemma SignedDigits(sign: string, digits: string, tail: string)
    requires sign in {"", "+", "-"} && digits != [] && forall c :: c in digits ==> IsDigit(c)
    ensures var s := sign + digits + tail; s != [] && !IsSpace(s[0])
  {
    assert digits[0] in digits;
    assert (sign + digits + tail)[0] == if sign == "" then digits[0] else sign[0];
  }

  lemma ReadAfterSpaces(text: string, s: string, sign: string, digits: string, tail: string)
    requires SkipSpaces(CString(text)) == s == sign + digits + tail && sign in {"", "+", "-"}
    requires digits != [] && (forall c :: c in digits ==> IsDigit(c)) && (tail == [] || !IsDigit(tail[0]))
    ensures ToCronInt(text) == if Value(digits) > ULONG_MAX then Bad(NumberTooLarge)
                               else if sign == "-" then Ok((0x1_0000_0000_0000_0000 - Value(digits)) % 256)
                               else Ok(Value(digits) % 256)
  {
    hide SkipSpaces, DigitRun, Value, CString;
    assert digits[0] in digits && s[0] == if sign == "" then digits[0] else sign[0];
    DigitsTaken(digits, tail);
    assert sign == "" ==> s == digits + tail;
    assert sign != "" ==> s[1..] == digits + tail;
  }

  lemma TailOf(rest: string)
    ensures rest == [] || !IsDigit(rest[0]) ==> CString(rest) == [] || !IsDigit(CString(rest)[0])
  {
  }

  /** The six characters that isspace takes in the C locale, and the ten digits. */
  lemma SpacesAndDigits(c: char)
    ensures IsSpace(c) <==> c as int == 32 || 9 <= c as int <= 13
    ensures IsDigit(c) <==> 48 <= c as int <= 57
  {
  }

  /** Without a digit there is no number. */
  lemma NoNumberRead(spaces: string, sign: string, rest: string)
    requires (forall c :: c in spaces ==> IsSpace(c)) && sign in {"", "+", "-"}
    requires rest == [] || (!IsDigit(rest[0]) && (sign == "" ==> !IsSpace(rest[0]) && rest[0] != '+' && rest[0] != '-'))
    ensures ToCronInt(spaces + sign + rest) == Bad(NotANumber)
  {
    hide SkipSpaces, Value, CString;
    var tail := CString(rest);
    CStringPrefix(spaces + sign, rest);
    FirstOf(rest);
    var s := sign + tail;
    assert spaces + sign + tail == spaces + s;
    SpacesSkipped(spaces, s);
    assert sign == "" ==> s == tail;
    assert sign != "" ==> s[0] == sign[0] && s[1..] == tail;
  }

  lemma FirstOf(rest: string)
    ensures CString(rest) == [] || (rest != [] && CString(rest)[0] == rest[0])
  {
  }

  /** The limit of an unsigned long. */
  lemma NumberLimit()
    ensures ToCronInt(Decimal(18446744073709551615)) == Ok(255)
    ensures ToCronInt(Decimal(18446744073709551616)) == Bad(NumberTooLarge)
  {
    hide Decimal, ToCronInt;
    DecimalReadBack(18446744073709551615);
    DecimalReadBack(18446744073709551616);
  }

  // ---------- Items and fields ----------

  predicate NumberWithin(text: string, minval: int, maxval: int) {
    ToCronInt(text).Ok? && minval <= ToCronInt(text).value <= maxval
  }

  /** A range is accepted when it is `*`, a number within the bounds, or two such numbers in order. */
  lemma RangeAcceptedIff(text: string, minval: int, maxval: int)
    requires Bounds(minval, maxval)
    ensures var parts := Tokens(text, '-');
            MakeRange(text, minval, maxval).Ok?
            <==> || text == "*"
                 || ('-' !in text && NumberWithin(text, minval, maxval))
                 || ('-' in text && |parts| == 2
                     && NumberWithin(parts[0], minval, maxval) && NumberWithin(parts[1], minval, maxval)
                     && ToCronInt(parts[0]).value <= ToCronInt(parts[1]).value)
    ensures text != "*" && '-' !in text && MakeRange(text, minval, maxval).Ok? ==>
              MakeRange(text, minval, maxval).value == (ToCronInt(text).value, ToCronInt(text).value)
    ensures '-' in text && MakeRange(text, minval, maxval).Ok? ==>
              var parts := Tokens(text, '-');
              |parts| == 2 && MakeRange(text, minval, maxval).value == (ToCronInt(parts[0]).value, ToCronInt(parts[1]).value)
  {
    hide ToCronInt, Tokens;
    StarHasNoDash();
  }

  /** Both ends of a range are numbers. */
  predicate TwoNumbers(text: string) {
    var parts := Tokens(text, '-');
    '-' in text && |parts| == 2 && ToCronInt(parts[0]).Ok? && ToCronInt(parts[1]).Ok?
  }

  /** The error of a range that is not accepted. */
  lemma RangeErrors(text: string, minval: int, maxval: int)
    requires Bounds(minval, maxval)
    ensures '-' in text && |Tokens(text, '-')| != 2 ==> MakeRange(text, minval, maxval) == Bad(BadRange)
    ensures TwoNumbers(text) ==>
              var a, b := ToCronInt(Tokens(text, '-')[0]).value, ToCronInt(Tokens(text, '-')[1]).value;
              && (a > maxval || b > maxval ==> MakeRange(text, minval, maxval) == Bad(ExceedsMaximum))
              && (a <= maxval && b <= maxval && (a < minval || b < minval) ==>
                    MakeRange(text, minval, maxval) == Bad(BelowMinimum))
              && (minval <= b < a <= maxval ==> MakeRange(text, minval, maxval) == Bad(StartExceedsEnd))
    ensures text != "*" && '-' !in text && ToCronInt(text).Ok? ==>
              && (ToCronInt(text).value > maxval ==> MakeRange(text, minval, maxval) == Bad(ExceedsMaximum))
              && (ToCronInt(text).value < minval ==> MakeRange(text, minval, maxval) == Bad(BelowMinimum))
  {
    hide ToCronInt, Tokens;
    StarHasNoDash();
  }

  /** An item is accepted when it is a range, or a range and a step that is not 0 in eight bits. */
  lemma ItemAcceptedIff(text: string, minval: int, maxval: int)
    requires Bounds(minval, maxval)
    ensures var parts := Tokens(text, '/');
            ItemBits(text, minval, maxval).Ok?
            <==> || ('/' !in text && MakeRange(text, minval, maxval).Ok?)
                 || ('/' in text && |parts| == 2 && MakeRange(parts[0], minval, maxval).Ok?
                     && ToCronInt(parts[1]).Ok? && ToCronInt(parts[1]).value != 0)
    ensures '/' in text && |Tokens(text, '/')| != 2 ==> ItemBits(text, minval, maxval) == Bad(BadIncrementer)
    ensures var parts := Tokens(text, '/');
            '/' in text && |parts| == 2 && MakeRange(parts[0], minval, maxval).Ok? && ToCronInt(parts[1]) == Ok(0) ==>
              ItemBits(text, minval, maxval) == Bad(ZeroIncrement)
  {
    hide ToCronInt, Tokens, MakeRange, StepBits, Interval;
  }

  /** A field is accepted when it holds an item, does not end with a comma, and all its items are accepted. */
  lemma FieldAcceptedIff(value: string, minval: int, maxval: int)
    requires Bounds(minval, maxval)
    ensures FieldSet(value, minval, maxval).Ok?
       <==> && Tokens(value, ',') != [] && value != [] && value[|value| - 1] != ','
            && forall t :: t in Tokens(value, ',') ==> ItemBits(t, minval, maxval).Ok?
    ensures value != [] && value[|value| - 1] == ',' ==> FieldSet(value, minval, maxval) == Bad(TrailingComma)
    ensures value == [] ==> FieldSet(value, minval, maxval) == Bad(NoItems)
  {
    hide ItemBits, ItemsBits, Tokens;
    ItemsUnion(Tokens(value, ','), minval, maxval);
    if value == [] { NoTokens(value); }
  }

  /** The error of a field is that of its first item that is not accepted. */
  lemma {:induction false} FirstItemError(items: seq<string>, k: nat, minval: int, maxval: int)
    requires Bounds(minval, maxval) && k < |items| && ItemBits(items[k], minval, maxval).Bad?
    requires forall j :: 0 <= j < k ==> ItemBits(items[j], minval, maxval).Ok?
    ensures ItemsBits(items, minval, maxval) == Bad(ItemBits(items[k], minval, maxval).error)
  {
    hide ItemBits;
    if k > 0 { FirstItemError(items[1..], k - 1, minval, maxval); }
  }

  lemma NoTokens(value: string)
    requires value == []
    ensures Tokens(value, ',') == []
  {
  }

  // ---------- Expressions ----------

  /** What set_cron_field makes of the six fields, in the order in which make_cron reads them: the
      weekdays come before the days of the month and the months. */
  function Read6(fields: seq<string>): seq<Result<set<int>>>
    requires |fields| == 6
  {
    [FieldSet(fields[0], 0, 59), FieldSet(fields[1], 0, 59), FieldSet(fields[2], 0, 23),
     FieldSet(WeekdayText(fields[5]), 0, 6), FieldSet(StarForQuestion(fields[3]), 1, 31),
     FieldSet(MonthText(fields[4]), 1, 12)]
  }

  predicate FirstBad(results: seq<Result<set<int>>>, k: nat) {
    k < |results| && results[k].Bad? && forall j :: 0 <= j < k ==> results[j].Ok?
  }

  /** An expression is accepted exactly when it has six fields that are; otherwise the error is that of
      the first bad field. */
  lemma ExpressionAcceptedIff(expr: string)
    ensures expr == [] ==> Parse(expr) == Bad(EmptyExpression)
    ensures var fields := DropEmpty(Tokens(expr, ' '));
            && (expr != [] && |fields| != 6 ==> Parse(expr) == Bad(NotSixFields))
            && (Parse(expr).Ok? <==> expr != [] && |fields| == 6 && forall k :: 0 <= k < 6 ==> Read6(fields)[k].Ok?)
            && (expr != [] && |fields| == 6 ==>
                  forall k: nat :: FirstBad(Read6(fields), k) ==> Parse(expr) == Bad(Read6(fields)[k].error))
  {
    hide Tokens, DropEmpty, FieldSet, WeekdayText, MonthText, StarForQuestion;
    var fields := DropEmpty(Tokens(expr, ' '));
    if expr != [] && |fields| == 6 {
      var r := Read6(fields);
      assert r[0] == FieldSet(fields[0], 0, 59) && r[1] == FieldSet(fields[1], 0, 59) && r[2] == FieldSet(fields[2], 0, 23);
      assert r[3] == FieldSet(WeekdayText(fields[5]), 0, 6) && r[4] == FieldSet(StarForQuestion(fields[3]), 1, 31);
      assert r[5] == FieldSet(MonthText(fields[4]), 1, 12);
      forall k: nat | FirstBad(r, k) ensures Parse(expr) == Bad(r[k].error) {
        if k == 1 { assert r[0].Ok?; }
        if k == 2 { assert r[0].Ok? && r[1].Ok?; }
        if k == 3 { assert r[0].Ok? && r[1].Ok? && r[2].Ok?; }
        if k == 4 { assert r[0].Ok? && r[1].Ok? && r[2].Ok? && r[3].Ok?; }
        if k == 5 { assert r[0].Ok? && r[1].Ok? && r[2].Ok? && r[3].Ok? && r[4].Ok?; }
      }
    }
  }

  /** `0 0 9, * * *` is refused. */
  lemma TrailingCommaRefused()
    ensures Parse("0 0 9, * * *") == Bad(TrailingComma)
  {
    hide Tokens, Parse, FieldBits, WeekdayText, MonthText, StarForQuestion, Decimal;
    var fields := ["0", "0", "9,", "*", "*", "*"];
    TokensOfJoin(fields, ' ');
    assert Join(fields, ' ') == "0 0 9, * * *";
    NothingDropped(fields);
    ZeroField();
    FieldAcceptedIff("9,", 0, 23);
    ExpressionAcceptedIff("0 0 9, * * *");
    var r := Read6(fields);
    assert r[0].Ok? && r[1].Ok? && r[2] == Bad(TrailingComma);
    assert FirstBad(r, 2);
  }
}
