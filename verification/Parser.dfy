// make_cron: a six-field expression to its six bit sets.
module Parser {
  import opened Text
  import opened Fields
  import opened Names
  import opened CronExprs

  function DropEmpty(tokens: seq<string>): seq<string> {
    if tokens == [] then []
    else (if tokens[0] == [] then [] else [tokens[0]]) + DropEmpty(tokens[1..])
  }

  function StarForQuestion(text: string): string {
    if text == "?" then "*" else text
  }

  function WeekdayText(value: string): string {
    TraitNames();
    StarForQuestion(ReplaceFrom(Upper(value), DAYS, 0))
  }

  function MonthText(value: string): string {
    TraitNames();
    ReplaceFrom(Upper(value), MONTHS, 0)
  }

  lemma SetsWellFormed(s: set<int>, m: set<int>, h: set<int>, w: set<int>, d: set<int>, mon: set<int>)
    requires BitSet(s, 60) && BitSet(m, 60) && BitSet(h, 24) && BitSet(w, 7) && BitSet(d, 31) && BitSet(mon, 12)
    ensures CronExpr(s, m, h, w, d, mon).WellFormed()
  {
    hide BitSet;
  }

  /** set_cron_field with the size of its target. */
  function FieldSet(value: string, minval: int, maxval: int): (r: Result<set<int>>)
    requires Bounds(minval, maxval)
    ensures r.Ok? ==> BitSet(r.value, maxval - minval + 1)
  {
    FieldBits(value, minval, maxval)
  }

  /** The fields in the order in which the source reads them, each with the error it may raise. */
  function Parse(expr: string): (r: Result<CronExpr>)
    ensures r.Ok? ==> r.value.WellFormed()
  {
    hide *;
    var fields := DropEmpty(Tokens(expr, ' '));
    if expr == [] then Bad(EmptyExpression)
    else if |fields| != 6 then Bad(NotSixFields)
    else
      match FieldSet(fields[0], 0, 59)
      case Bad(e) => Bad(e)
      case Ok(seconds) =>
        match FieldSet(fields[1], 0, 59)
        case Bad(e) => Bad(e)
        case Ok(minutes) =>
          match FieldSet(fields[2], 0, 23)
          case Bad(e) => Bad(e)
          case Ok(hours) =>
            match FieldSet(WeekdayText(fields[5]), 0, 6)
            case Bad(e) => Bad(e)
            case Ok(daysOfWeek) =>
              match FieldSet(StarForQuestion(fields[3]), 1, 31)
              case Bad(e) => Bad(e)
              case Ok(daysOfMonth) =>
                match FieldSet(MonthText(fields[4]), 1, 12)
                case Bad(e) => Bad(e)
                case Ok(months) =>
                  SetsWellFormed(seconds, minutes, hours, daysOfWeek, daysOfMonth, months);
                  Ok(CronExpr(seconds, minutes, hours, daysOfWeek, daysOfMonth, months))
  }

  /** erase(remove_if(empty)) */
  method EraseEmpty(tokens: seq<string>) returns (kept: seq<string>)
    ensures kept == DropEmpty(tokens)
  {
    hide DropEmpty;
    kept := [];
    DropLast([], []);
    for k := 0 to |tokens|
      invariant kept == DropEmpty(tokens[..k])
    {
      assert tokens[..k + 1] == tokens[..k] + [tokens[k]];
      DropLast(tokens[..k], tokens[k]);
      if tokens[k] != [] {
        kept := kept + [tokens[k]];
      }
    }
    assert tokens[..|tokens|] == tokens;
  }

  lemma {:induction false} DropLast(tokens: seq<string>, t: string)
    ensures DropEmpty(tokens + [t]) == DropEmpty(tokens) + if t == [] then [] else [t]
    ensures DropEmpty([]) == []
  {
    if tokens != [] {
      assert (tokens + [t])[1..] == tokens[1..] + [t];
      DropLast(tokens[1..], t);
    }
  }

  method SetDaysOfWeek(value: string) returns (r: Result<set<int>>)
    ensures r == FieldBits(WeekdayText(value), 0, 6)
  {
    hide FieldBits, ReplaceFrom;
    TraitNames();
    var days := Upper(value);
    var replaced := ReplaceOrdinals(days, DAYS);
    if |replaced| == 1 && replaced[0] == '?' {
      assert replaced == "?";
      replaced := replaced[0 := '*'];
      assert replaced == "*";
    }
    r := SetCronField(replaced, 0, 6, 7);
  }

  method SetDaysOfMonth(value: string) returns (r: Result<set<int>>)
    ensures r == FieldBits(StarForQuestion(value), 1, 31)
  {
    hide FieldBits;
    var text := value;
    if |text| == 1 && text[0] == '?' {
      assert text == "?";
      text := text[0 := '*'];
      assert text == "*";
    }
    r := SetCronField(text, 1, 31, 31);
  }

  method SetMonth(value: string) returns (r: Result<set<int>>)
    ensures r == FieldBits(MonthText(value), 1, 12)
  {
    hide FieldBits, ReplaceFrom;
    TraitNames();
    var month := Upper(value);
    var replaced := ReplaceOrdinals(month, MONTHS);
    r := SetCronField(replaced, 1, 12, 12);
  }

  /** make_cron. */
  method MakeCron(expr: string) returns (r: Result<CronExpr>)
    ensures r == Parse(expr)
  {
    hide FieldBits, WeekdayText, MonthText, Tokens, StarForQuestion, CronExpr.WellFormed;
    if |expr| == 0 {
      return Bad(EmptyExpression);
    }
    var tokens := Split(expr, ' ');
    var fields := EraseEmpty(tokens);
    if |fields| != 6 {
      return Bad(NotSixFields);
    }
    var seconds := SetCronField(fields[0], 0, 59, 60);
    if seconds.Bad? { return Bad(seconds.error); }
    var minutes := SetCronField(fields[1], 0, 59, 60);
    if minutes.Bad? { return Bad(minutes.error); }
    var hours := SetCronField(fields[2], 0, 23, 24);
    if hours.Bad? { return Bad(hours.error); }
    var daysOfWeek := SetDaysOfWeek(fields[5]);
    if daysOfWeek.Bad? { return Bad(daysOfWeek.error); }
    var daysOfMonth := SetDaysOfMonth(fields[3]);
    if daysOfMonth.Bad? { return Bad(daysOfMonth.error); }
    var months := SetMonth(fields[4]);
    if months.Bad? { return Bad(months.error); }
    r := Ok(CronExpr(seconds.value, minutes.value, hours.value, daysOfWeek.value, daysOfMonth.value, months.value));
  }

  // ---------- Names ----------

  /** A month field written with names reads as the same field written with numbers. */
  lemma MonthNamesParse(value: string, pieces: seq<Piece>)
    requires ThreeLetterNames(MONTHS) && Known(pieces, MONTHS) && OnlyAsPieces(pieces, MONTHS)
    requires Upper(value) == Spelled(pieces, MONTHS, 0)
    ensures MonthText(value) == MonthText(Spelled(pieces, MONTHS, |MONTHS|)) == Spelled(pieces, MONTHS, |MONTHS|)
  {
    hide Spelled, OnlyAsPieces, ReplaceFrom;
    NamesBecomeNumbers(pieces, MONTHS, 0);
    NumbersStay(pieces, MONTHS, 0);
    UpperNumbers(value, pieces, MONTHS);
  }

  /** A weekday field written with names reads as the same field written with numbers. */
  lemma WeekdayNamesParse(value: string, pieces: seq<Piece>)
    requires ThreeLetterNames(DAYS) && Known(pieces, DAYS) && OnlyAsPieces(pieces, DAYS)
    requires Upper(value) == Spelled(pieces, DAYS, 0)
    ensures WeekdayText(value) == WeekdayText(Spelled(pieces, DAYS, |DAYS|)) == StarForQuestion(Spelled(pieces, DAYS, |DAYS|))
  {
    hide Spelled, OnlyAsPieces, ReplaceFrom;
    NamesBecomeNumbers(pieces, DAYS, 0);
    NumbersStay(pieces, DAYS, 0);
    UpperNumbers(value, pieces, DAYS);
  }

  lemma UpperNumbers(value: string, pieces: seq<Piece>, names: seq<string>)
    requires ThreeLetterNames(names) && Known(pieces, names) && Upper(value) == Spelled(pieces, names, 0)
    ensures Upper(Spelled(pieces, names, |names|)) == Spelled(pieces, names, |names|)
  {
    hide Spelled, ThreeLetterNames;
    var named, numeric := Spelled(pieces, names, 0), Spelled(pieces, names, |names|);
    forall c | c in named ensures UpperChar(c) == c {
      var k :| 0 <= k < |named| && named[k] == c;
      assert c == UpperChar(value[k]);
    }
    NumbersStayUpper(pieces, names);
    assert Upper(numeric) == numeric by {
      forall k | 0 <= k < |numeric| ensures Upper(numeric)[k] == numeric[k] { assert numeric[k] in numeric; }
    }
  }

  /** Both spellings of an expression parse to the same sets: an expression whose month and weekday fields
      are written with names, and one with the same other fields and those two in numbers. */
  lemma NamesParse(named: string, numeric: string, months: seq<Piece>, days: seq<Piece>)
    requires ThreeLetterNames(MONTHS) && Known(months, MONTHS) && OnlyAsPieces(months, MONTHS)
    requires ThreeLetterNames(DAYS) && Known(days, DAYS) && OnlyAsPieces(days, DAYS)
    requires var f, g := DropEmpty(Tokens(named, ' ')), DropEmpty(Tokens(numeric, ' '));
             && |f| == |g| == 6 && f[..4] == g[..4]
             && Upper(f[4]) == Spelled(months, MONTHS, 0) && g[4] == Spelled(months, MONTHS, |MONTHS|)
             && Upper(f[5]) == Spelled(days, DAYS, 0) && g[5] == Spelled(days, DAYS, |DAYS|)
    ensures Parse(named) == Parse(numeric)
  {
    hide Spelled, OnlyAsPieces, MonthText, WeekdayText, FieldSet, StarForQuestion, ThreeLetterNames;
    var f, g := DropEmpty(Tokens(named, ' ')), DropEmpty(Tokens(numeric, ' '));
    MonthNamesParse(f[4], months);
    WeekdayNamesParse(f[5], days);
    assert f[..4][0] == g[..4][0] && f[..4][1] == g[..4][1] && f[..4][2] == g[..4][2] && f[..4][3] == g[..4][3];
  }
}
