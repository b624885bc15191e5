// Concrete inputs that are accepted and do not mean what they seem to.
module Examples {
  import opened Calendar
  import opened CronExprs
  import opened BrokenDownTime
  import opened Steps
  import opened Days
  import opened Search
  import opened Soundness
  import opened Leastness
  import opened Exact
  import opened Text
  import opened Fields
  import opened FieldMeaning
  import opened Parser
  import opened Expressions
  import opened GluedZero
  import opened Jobs
  import opened Runs
  import opened Service

  // ---------- A seconds field that a glued 0 changes ----------

  /** 09:00:05 every day. */
  const NINE_FIVE := Schedule(
    [Plainly(One(5))], [Plainly(One(0))], [Plainly(One(9))], [Plainly(Any)], [Plainly(Any)], [Plainly(Any)])

  lemma NineFiveText()
    ensures NINE_FIVE.Valid() && NINE_FIVE.Written() == "5 0 9 * * *"
  {
    hide FieldString, Decimal;
    OneText(5, 0, 59);
    OneText(0, 0, 59);
    OneText(9, 0, 23);
    StarText(1, 31);
    StarText(1, 12);
    StarText(0, 6);
    assert Decimal(0) == "0" && Decimal(5) == "5" && Decimal(9) == "9" by { OneDigit(); }
    assert Join(["*", "*"], ' ') == "* *";
    assert Join(["*", "*", "*"], ' ') == "* * *";
    assert Join(["9", "*", "*", "*"], ' ') == "9 * * *";
    assert Join(["0", "9", "*", "*", "*"], ' ') == "0 9 * * *";
    assert Join(["5", "0", "9", "*", "*", "*"], ' ') == "5 0 9 * * *";
  }

  lemma OneDigit()
    ensures Decimal(0) == "0" && Decimal(5) == "5" && Decimal(9) == "9"
    ensures Decimal(1) == "1" && Decimal(2) == "2" && Decimal(12) == "12" && Decimal(59) == "59" && Decimal(255) == "255"
  {
  }

  lemma PlusFive()
    ensures FieldSet("+5", 0, 59).Ok? && FieldItems("+5", 0, 59) == [Plainly(One(5))]
  {
    hide ToCronInt;
    assert ToCronInt("+5") == Ok(5) by { PlusFiveRead(); }
    TokensOfJoin(["+5"], ',');
    assert Tokens("+5", ',') == ["+5"];
    assert ItemBits("+5", 0, 59).Ok?;
  }

  lemma PlusFiveRead()
    ensures ToCronInt("+5") == Ok(5)
  {
    assert CString("+5") == "+5";
    assert "+5"[1..] == "5" && "5"[1..] == "";
    assert DigitRun("5") == "5";
    assert "5"[..0] == [];
    assert Value("5") == 5;
  }

  /** `+5 0 9 * * *` is accepted as 09:00:05; the service reads `0+5 0 9 * * *`, which is 09:00:00. */
  lemma PlusFiveMoves()
    ensures Parse("+5 0 9 * * *").Ok? && Read("+5 0 9 * * *") == NINE_FIVE
    ensures Parse("0" + "+5 0 9 * * *") != Parse("+5 0 9 * * *")
  {
    hide Parse, Read, Schedule.Written, FieldItems, FieldSet, Tokens;
    NineFiveText();
    ReadWritten(NINE_FIVE);
    PlusFive();
    var plain, plus := ["5", "0", "9", "*", "*", "*"], ["+5", "0", "9", "*", "*", "*"];
    TokensOfJoin(plain, ' ');
    TokensOfJoin(plus, ' ');
    assert Join(plain, ' ') == "5 0 9 * * *" && Join(plus, ' ') == "+5 0 9 * * *";
    NothingDropped(plain);
    NothingDropped(plus);
    assert [plus[0]] + plain[1..] == plus;
    OtherSeconds("5 0 9 * * *", "+5 0 9 * * *", "+5");
    MeaningKeptIff("+5 0 9 * * *");
    assert 5 in BitsOf(NINE_FIVE.seconds[0], 0, 59) && 5 !in BitsOf(FromZero(NINE_FIVE.seconds[0]), 0, 59);
    assert !SetIn(NINE_FIVE.seconds[1..], 5);
  }

  // ---------- A counter that wraps ----------

  /** The minutes `59/255` name minute 59 only, and the wrapped counter sets minute 58 too. */
  lemma WrappedMinute()
    ensures FieldSet("59/255", 0, 59).Ok? && FieldItems("59/255", 0, 59) == [Every(One(59), 255)]
    ensures 58 in FieldSet("59/255", 0, 59).value && !Named([Every(One(59), 255)], 0, 59, 58)
  {
    hide FieldItems, FieldBits, BitsOf, Denotes, Join, RenderAll, Valid;
    var item := Every(One(59), 255);
    WrappedText();
    WrappedBit();
    FieldParses([item], 0, 59);
    FieldRead("59/255", 0, 59);
    assert item in [item];
  }

  lemma WrappedText()
    ensures var items := [Every(One(59), 255)];
            AllValid(items, 0, 59) && Join(RenderAll(items), ',') == "59/255"
  {
    hide Decimal;
    var item := Every(One(59), 255);
    OneDigit();
    assert Render(item) == "59/255";
    assert RenderAll([item]) == ["59/255"];
    JoinOne("59/255");
  }

  lemma WrappedBit()
    ensures Valid(Every(One(59), 255), 0, 59)
    ensures 58 in BitsOf(Every(One(59), 255), 0, 59) && !Denotes(Every(One(59), 255), 0, 59, 58)
  {
    hide BitsOf;
    assert ComesDownOn(Every(One(59), 255), 0, 58);
    BitsOfMeans(Every(One(59), 255), 0, 59, 58);
    assert 58 - 0 == 58;
  }

  lemma JoinOne(text: string)
    ensures Join([text], ',') == text
  {
  }

  // ---------- An answer that is not the least ----------

  /** Noon on Mondays in February: from 30 or 31 January the search goes to March. */
  const FEBRUARY_MONDAYS := Schedule(
    [Plainly(One(0))], [Plainly(One(0))], [Plainly(One(12))], [Plainly(Any)], [Plainly(One(2))], [Plainly(One(1))])

  lemma FebruaryMondaysText()
    ensures FEBRUARY_MONDAYS.Valid() && FEBRUARY_MONDAYS.Written() == "0 0 12 * 2 1"
  {
    hide FieldString, Decimal;
    OneText(0, 0, 59);
    OneText(12, 0, 23);
    StarText(1, 31);
    OneText(2, 1, 12);
    OneText(1, 0, 6);
    OneDigit();
    assert Join(["2", "1"], ' ') == "2 1";
    assert Join(["*", "2", "1"], ' ') == "* 2 1";
    assert Join(["12", "*", "2", "1"], ' ') == "12 * 2 1";
    assert Join(["0", "12", "*", "2", "1"], ' ') == "0 12 * 2 1";
    assert Join(["0", "0", "12", "*", "2", "1"], ' ') == "0 0 12 * 2 1";
  }

  lemma FebruaryMondaysMissed() returns (t: int)
    ensures Parse("0 0 12 * 2 1").Ok? && Read("0 0 12 * 2 1") == FEBRUARY_MONDAYS
    ensures Parse("0 0 12 * 2 1").value.WellFormed()
    ensures t >= 0 && !IsAnswer(Parse("0 0 12 * 2 1").value, t, CronNext(Parse("0 0 12 * 2 1").value, t))
  {
    hide Parse, Read, Schedule.Written, CronNext, IsAnswer, DaysFit;
    FebruaryMondaysText();
    ReadWritten(FEBRUARY_MONDAYS);
    var cex := Parse("0 0 12 * 2 1").value;
    AcceptedMeansIff("0 0 12 * 2 1");
    FebruaryOverflows(cex);
    t := OverflowMissed(cex);
  }

  lemma FebruaryOverflows(cex: CronExpr)
    requires cex.WellFormed() && HoldsAll(cex, FEBRUARY_MONDAYS)
    ensures OneDaySetFull(cex) && !DaysFit(cex)
  {
    forall b | 0 <= b < 31 ensures b in cex.daysOfMonth {
      assert FEBRUARY_MONDAYS.daysOfMonth[0] in FEBRUARY_MONDAYS.daysOfMonth;
      assert Named(FEBRUARY_MONDAYS.daysOfMonth, 1, 31, b + 1);
      assert b + 1 - 1 in cex.daysOfMonth;
    }
    forall b ensures b in cex.months <==> b == 1 {
      assert b + 1 - 1 in cex.months <==> Named(FEBRUARY_MONDAYS.months, 1, 12, b + 1);
      assert FEBRUARY_MONDAYS.months[0] in FEBRUARY_MONDAYS.months;
    }
    assert NextUnit(cex.months, 12, 0) == 1;
    assert 0 in cex.daysOfMonth && 0 < 28;
    assert Overflows(cex, 0, 30, 28);
  }

  // ---------- Accepted bodies ----------

  /** A run time of 2^31 is stored as -2^31. */
  const LATE: Body := map[
    "name" := Str("late", 0), "payload" := Str("x", 0), "type" := Number(0), "next_run_time" := Number(0x8000_0000)]

  /** The job is accepted for 2038 and reported by every tick from the start. */
  lemma LateJobReportedAtOnce(t: Table, now: int, id: int, ops: seq<Op>, tick: int)
    requires Ordered(t) && id == t.lastId + 1 && Untouched(ops, id) && now >= 0 && tick >= 0
    ensures Build(LATE, now).Ready? && Build(LATE, now).job.nextRunTime == 0x8000_0000
    ensures Reports(Run(Apply(t, InsertJob(Build(LATE, now).job)).0, ops), tick, id)
  {
    hide Run, Apply, Reports, Ordered, Untouched;
    var job := Build(LATE, now).job;
    assert ToInt32(0x8000_0000) == -0x8000_0000;
    ReportedFromItsTime(t, job, id, ops);
  }

  const NO_RETRIES: Body := map[
    "name" := Str("poll", 0), "payload" := Str("x", 0), "type" := Number(0), "next_run_time" := Number(1),
    "max_retries" := Number(-1)]

  /** A negative max_retries is accepted, and breaks the bound as soon as the job is inserted. */
  lemma NegativeRetriesAccepted(t: Table, now: int)
    requires now >= 0
    ensures Build(NO_RETRIES, now).Ready? && Build(NO_RETRIES, now).job.maxRetries == -1
    ensures !AllRetriesInBounds(Run(t, [InsertJob(Build(NO_RETRIES, now).job)]))
  {
    hide Run, AllRetriesInBounds;
    var job := Build(NO_RETRIES, now).job;
    assert ToInt32(-1) == -1;
    RunOne(t, InsertJob(job));
    NewRowInTable(t, job);
  }

  // ---------- The cap of the day walk ----------

  const AUGUST_1999 := 1195

  /** The first days of the months from August 1999 to August 2000. */
  lemma MonthsTo2000(k: int)
    requires 0 <= k <= 12
    ensures MonthDay(AUGUST_1999 + k)
         == [10804, 10835, 10865, 10896, 10926, 10957, 10988, 11017, 11048, 11078, 11109, 11139, 11170][k]
  {
    hide MonthDay;
    YearDayIsPosix(99);
    MonthsToAugust();
    AugustOn(k);
  }

  lemma MonthsToAugust()
    ensures MonthDay(AUGUST_1999) == MonthDay(12 * 99) + 212
  {
    hide MonthDay;
    MonthsFromMarch(99, 5);
    FirstMonths(99);
  }

  lemma {:induction false} AugustOn(k: int)
    requires 0 <= k <= 12
    ensures MonthDay(AUGUST_1999 + k) - MonthDay(AUGUST_1999)
         == [0, 31, 61, 92, 122, 153, 184, 213, 244, 274, 305, 335, 366][k]
    decreases k
  {
    hide MonthDay;
    if k > 0 {
      AugustOn(k - 1);
      MonthStep(AUGUST_1999 + k - 1);
    }
  }

  /** From Saturday 14 August 1999 the walk for a Friday the 13th stops on its cap, Monday 14 August 2000. */
  lemma NoFriday13th(n: int)
    requires 10817 <= n < 11184
    ensures !FRIDAY_13TH.MatchesDay(n)
  {
    hide MonthDay, MonthOf, MonthLength;
    if DayOfMonth(n) == 13 {
      var m := MonthOf(n);
      MonthsTo2000(0);
      MonthsTo2000(12);
      if m < AUGUST_1999 { MonthsApart(m + 1, AUGUST_1999); }
      if m > AUGUST_1999 + 12 { MonthsApart(AUGUST_1999 + 12, m); MonthStep(AUGUST_1999 + 12); }
      DayWithin(n);
      MonthsTo2000(m - AUGUST_1999);
    }
  }

  /** Then the move is hidden by the equal day number, and the search answers with that midnight, which is
      neither a Friday nor a 13th. */
  lemma CapRunsOut()
    ensures CronNext(FRIDAY_13TH, 10817 * 86400 + 36000) == 11183 * 86400
    ensures DayOfMonth(11183) == 14 && DayOfWeek(11183) == 1
  {
    hide Landing, CronNext, MonthOf, DayOfMonth, LastTime, CronExpr.WellFormed, HidesMove, MonthDay, MonthLength;
    FridayTime();
    MonthsTo2000(0);
    MonthsTo2000(12);
    DateOf(AUGUST_1999, 14) by { AugustLength(); }
    DateOf(AUGUST_1999 + 12, 14) by { AugustLength(); }
    CapLanding();
    HiddenMoveReturned(FRIDAY_13TH, 10817);
  }

  lemma AugustLength()
    ensures MonthLength(AUGUST_1999) == 31 && MonthLength(AUGUST_1999 + 12) == 31
  {
  }

  lemma CapLanding()
    ensures Landing(FRIDAY_13TH, 10817, 0) == 11183
    ensures DayOfMonth(10817) == DayOfMonth(11183) ==> HidesMove(FRIDAY_13TH, 10817)
    ensures FRIDAY_13TH.MatchesMonth(11183)
  {
    hide Landing, MonthOf, DayOfMonth, DayOfWeek, CronExpr.MatchesDay;
    NoFriday13th(10817);
    NoFriday13th(11183);
    forall n | 10817 <= n < 11184 ensures !FRIDAY_13TH.MatchesDay(n) { NoFriday13th(n); }
    assert MonthOf(11183) % 12 in FRIDAY_13TH.months;
  }
}
