// Validating a request body and building the job it asks for.
module Service {
  import opened Text
  import opened Parser
  import opened Prefix
  import opened GluedZero
  import opened CronExprs
  import opened BrokenDownTime
  import opened Days
  import opened Search
  import opened Engine
  import opened Exact
  import opened Leastness
  import opened GivingUp
  import opened Fields
  import opened FieldMeaning
  import opened Expressions
  import opened Enumeration
  import opened Jobs
  import opened Runs

  /** A value of a JSON object.  `i` is what rvalue::i() reads from a number or a string. */
  datatype Json = Null | Bool(b: bool) | Number(i: int) | Str(s: string, i: int) | List | Object

  type Body = map<string, Json>

  datatype InputError =
    | NameRequired | TypeRequired | PayloadRequired | NextRunTimeRequired | IntervalRequired | CronRequired
    | InvalidCron(error: CronError)

  predicate HasText(body: Body, key: string) {
    key in body && body[key].Str? && body[key].s != []
  }

  predicate HasPositive(body: Body, key: string) {
    key in body && body[key].Number? && body[key].i > 0
  }

  predicate HasNumber(body: Body, key: string) {
    key in body && body[key].Number?
  }

  /** validate_job_input: the error it writes, if it refuses the body. */
  function InputErrorOf(body: Body): (r: Option<InputError>)
    ensures r.None? ==> HasText(body, "name") && HasText(body, "payload")
    ensures r.None? ==> "type" in body && body["type"].Number? && 0 <= body["type"].i <= 2
  {
    if !HasText(body, "name") then Some(NameRequired)
    else if !("type" in body && body["type"].Number? && 0 <= body["type"].i <= 2) then Some(TypeRequired)
    else if !HasText(body, "payload") then Some(PayloadRequired)
    else if body["type"].i == 0 && !HasPositive(body, "next_run_time") then Some(NextRunTimeRequired)
    else if body["type"].i == 1 && !HasPositive(body, "interval_seconds") then Some(IntervalRequired)
    else if body["type"].i == 2 && !HasText(body, "cron_expr") then Some(CronRequired)
    else if body["type"].i == 2 && FullCron(body["cron_expr"].s).Bad? then
      Some(InvalidCron(FullCron(body["cron_expr"].s).error))
    else None
  }

  /** The parse of "0" + cron_expr, with no blank between the two. */
  function FullCron(cronExpr: string): Result<CronExpr> {
    Parse("0" + cronExpr)
  }

  /** is_valid_cron */
  method IsValidCron(cronExpr: string) returns (valid: bool, error: Option<CronError>)
    ensures valid <==> FullCron(cronExpr).Ok?
    ensures error == if valid then None else Some(FullCron(cronExpr).error)
  {
    hide Parse;
    var fullExpr := "0" + cronExpr;
    var r := MakeCron(fullExpr);
    if r.Bad? {
      return false, Some(r.error);
    }
    return true, None;
  }

  /** validate_job_input: false, and the error written, when the body is refused. */
  method ValidateJobInput(body: Body) returns (valid: bool, error: Option<InputError>)
    ensures error == InputErrorOf(body) && (valid <==> error.None?)
  {
    hide FullCron;
    if "name" !in body || !body["name"].Str? || body["name"].s == "" {
      return false, Some(NameRequired);
    }
    if "type" !in body || !body["type"].Number? || body["type"].i < 0 || body["type"].i > 2 {
      return false, Some(TypeRequired);
    }
    if "payload" !in body || !body["payload"].Str? || body["payload"].s == "" {
      return false, Some(PayloadRequired);
    }
    var jobType := body["type"].i;
    if jobType == 0 {
      if "next_run_time" !in body || !body["next_run_time"].Number? || body["next_run_time"].i <= 0 {
        return false, Some(NextRunTimeRequired);
      }
    }
    if jobType == 1 {
      if "interval_seconds" !in body || !body["interval_seconds"].Number? || body["interval_seconds"].i <= 0 {
        return false, Some(IntervalRequired);
      }
    }
    if jobType == 2 {
      if "cron_expr" !in body || !body["cron_expr"].Str? || body["cron_expr"].s == "" {
        return false, Some(CronRequired);
      }
      var cronValid, cronError := IsValidCron(body["cron_expr"].s);
      if !cronValid {
        return false, Some(InvalidCron(cronError.value));
      }
    }
    return true, None;
  }

  /** A run time, or the exception thrown on the way. */
  datatype RunTime = At(time: int) | BadOptionalAccess | CronThrown(error: CronError)

  /** compute_next_run_time */
  function NextRunTime(jobType: int, now: int, interval: Option<int>, cronExpr: Option<string>, clientTime: int): RunTime {
    if jobType == 0 then At(clientTime)
    else if jobType == 1 then (if interval.None? then BadOptionalAccess else At(now + interval.value))
    else if jobType == 2 then
      (if cronExpr.None? then BadOptionalAccess
       else
         match FullCron(cronExpr.value)
         case Bad(e) => CronThrown(e)
         case Ok(cex) => At(CronNext(cex, now)))
    else At(-1)
  }

  method ComputeNextRunTime(jobType: int, now: int, interval: Option<int>, cronExpr: Option<string>, clientTime: int)
    returns (r: RunTime)
    requires now >= 0
    ensures r == NextRunTime(jobType, now, interval, cronExpr, clientTime)
  {
    hide Parse, CronNext, CronExpr.WellFormed;
    if jobType == 0 {
      return At(clientTime);
    }
    if jobType == 1 {
      return if interval.None? then BadOptionalAccess else At(now + interval.value);
    }
    if jobType == 2 {
      if cronExpr.None? {
        return BadOptionalAccess;
      }
      var cex := MakeCron("0" + cronExpr.value);
      if cex.Bad? {
        return CronThrown(cex.error);
      }
      var next := Next(cex.value, now);
      return At(next);
    }
    r := At(-1);
  }

  function IntToType(n: int): JobType {
    if n == 1 then RECURRING else if n == 2 then CRON else ONE_TIME
  }

  /** The outcome of create_job: the body refused, a job to insert, or an exception. */
  datatype Built = Refused(error: InputError) | Ready(job: Job) | JsonThrown | Uncaught(cause: RunTime)

  predicate Given(body: Body, key: string) {
    key in body && !body[key].Null?
  }

  /** A field present with a JSON type that the accessor does not take makes rvalue throw. */
  predicate Misfit(body: Body) {
    || (Given(body, "interval_seconds") && !body["interval_seconds"].Number? && !body["interval_seconds"].Str?)
    || (Given(body, "cron_expr") && !body["cron_expr"].Str?)
  }

  function IntervalOf(body: Body): Option<int> {
    if Given(body, "interval_seconds") && (body["interval_seconds"].Number? || body["interval_seconds"].Str?)
    then Some(ToInt32(body["interval_seconds"].i)) else None
  }

  function CronOf(body: Body): Option<string> {
    if Given(body, "cron_expr") && body["cron_expr"].Str? then Some(body["cron_expr"].s) else None
  }

  function NumberOr(body: Body, key: string, default: int): int {
    if HasNumber(body, key) then body[key].i else default
  }

  /** create_job up to the insert; the id is the one the insert will set. */
  function Build(body: Body, now: int): Built {
    match InputErrorOf(body)
    case Some(e) => Refused(e)
    case None =>
      if Misfit(body) then JsonThrown
      else
        match NextRunTime(body["type"].i, now, IntervalOf(body), CronOf(body), NumberOr(body, "next_run_time", 0))
        case At(time) =>
          Ready(Job(0, body["name"].s, IntToType(body["type"].i), ACTIVE, time, IntervalOf(body), CronOf(body),
                    body["payload"].s, 0, ToInt32(NumberOr(body, "max_retries", 3))))
        case cause => Uncaught(cause)
  }

  /** create_job: the job it returns has the id of the new row, or -1 when the body was refused. */
  method CreateJob(table: JobTable, body: Body, now: int) returns (built: Built, id: int)
    requires now >= 0
    modifies table
    ensures built == Build(body, now)
    ensures built.Ready? ==>
              (table.Contents(), Inserted(id)) == Apply(old(table.Contents()), InsertJob(built.job))
    ensures !built.Ready? ==> id == -1 && table.Contents() == old(table.Contents())
  {
    hide Parse, CronNext, InputErrorOf, Apply, NextRunTime;
    id := -1;
    var valid, error := ValidateJobInput(body);
    if !valid {
      return Refused(error.value), -1;
    }
    if Misfit(body) {
      return JsonThrown, -1;
    }
    var jobType := body["type"].i;
    var time := ComputeNextRunTime(jobType, now, IntervalOf(body), CronOf(body), NumberOr(body, "next_run_time", 0));
    if !time.At? {
      return Uncaught(time), -1;
    }
    var job := Job(0, body["name"].s, IntToType(jobType), ACTIVE, time.time, IntervalOf(body), CronOf(body),
                   body["payload"].s, 0, ToInt32(NumberOr(body, "max_retries", 3)));
    built := Ready(job);
    id := table.Insert(job);
  }

  // ---------- What an accepted body leads to ----------

  /** For every body that validation accepts, create_job reads no absent optional and meets no
      expression that does not parse; it throws exactly on an optional field of the wrong JSON type. */
  lemma AcceptedBodyBuilds(body: Body, now: int)
    requires InputErrorOf(body).None? && now >= 0
    ensures Build(body, now).Ready? || Build(body, now).JsonThrown?
    ensures Build(body, now).JsonThrown? <==> Misfit(body)
  {
    hide Parse, CronNext;
  }

  /** The job built: its run time is the client's time, now plus the interval as an int, or the answer of
      cron_next on the parse of the expression with 0 in front; every other column comes from the body. */
  lemma BuiltRunTime(body: Body, now: int)
    requires now >= 0 && Build(body, now).Ready?
    ensures HasText(body, "name") && HasText(body, "payload") && HasNumber(body, "type")
    ensures var job := Build(body, now).job;
            && job.status == ACTIVE && job.retryCount == 0
            && job.name == body["name"].s && job.payload == body["payload"].s && job.name != [] && job.payload != []
            && (job.jobType == ONE_TIME <==> body["type"].i == 0)
            && (job.jobType == RECURRING <==> body["type"].i == 1)
            && (job.jobType == CRON <==> body["type"].i == 2)
            && ("max_retries" !in body || !body["max_retries"].Number? ==> job.maxRetries == 3)
            && (HasNumber(body, "max_retries") && 0 <= body["max_retries"].i < 0x8000_0000 ==>
                  job.maxRetries == body["max_retries"].i)
    ensures var job := Build(body, now).job;
            && (job.jobType == ONE_TIME ==>
                  HasPositive(body, "next_run_time") && job.nextRunTime == body["next_run_time"].i > 0)
            && (job.jobType == RECURRING ==>
                  && HasPositive(body, "interval_seconds") && body["interval_seconds"].i > 0
                  && job.nextRunTime == now + ToInt32(body["interval_seconds"].i))
            && (job.jobType == CRON ==>
                  && HasText(body, "cron_expr") && Parse("0" + body["cron_expr"].s).Ok?
                  && job.nextRunTime == CronNext(Parse("0" + body["cron_expr"].s).value, now)
                  && (job.nextRunTime == INVALID_TIME || job.nextRunTime > now))
  {
    hide Parse, CronNext, CronExpr.WellFormed;
    if body["type"].i == 2 {
      Progress(FullCron(body["cron_expr"].s).value, now);
    }
  }

  /** The two optional columns: absent or null gives none, and otherwise the value sent. */
  lemma BuiltOptionals(body: Body, now: int)
    requires now >= 0 && Build(body, now).Ready?
    ensures var job := Build(body, now).job;
            && ("interval_seconds" !in body || body["interval_seconds"].Null? ==> job.intervalSeconds == None)
            && ("interval_seconds" in body && !body["interval_seconds"].Null? ==>
                  && (body["interval_seconds"].Number? || body["interval_seconds"].Str?)
                  && job.intervalSeconds == Some(ToInt32(body["interval_seconds"].i)))
            && ("cron_expr" !in body || body["cron_expr"].Null? ==> job.cronExpr == None)
            && ("cron_expr" in body && !body["cron_expr"].Null? ==>
                  body["cron_expr"].Str? && job.cronExpr == Some(body["cron_expr"].s))
  {
    hide InputErrorOf, NextRunTime;
  }

  /** create_job throws on an accepted body exactly when one of the two optional fields has a JSON type
      that its accessor does not take. */
  lemma ThrowsIff(body: Body, now: int)
    requires now >= 0 && InputErrorOf(body).None?
    ensures Build(body, now).JsonThrown?
       <==> || ("interval_seconds" in body
                && (body["interval_seconds"].Bool? || body["interval_seconds"].List? || body["interval_seconds"].Object?))
            || ("cron_expr" in body
                && (body["cron_expr"].Bool? || body["cron_expr"].Number? || body["cron_expr"].List? || body["cron_expr"].Object?))
  {
    hide InputErrorOf;
    AcceptedBodyBuilds(body, now);
  }

  // ---------- Validation ----------

  predicate TypeOk(body: Body) {
    "type" in body && body["type"].Number? && 0 <= body["type"].i <= 2
  }

  predicate TextOk(body: Body, key: string) {
    key in body && body[key].Str? && |body[key].s| >= 1
  }

  predicate PositiveOk(body: Body, key: string) {
    key in body && body[key].Number? && body[key].i >= 1
  }

  /** What the client must send for the type of the job. */
  predicate ScheduleOk(body: Body)
    requires TypeOk(body)
  {
    && (body["type"].i == 0 ==> PositiveOk(body, "next_run_time"))
    && (body["type"].i == 1 ==> PositiveOk(body, "interval_seconds"))
    && (body["type"].i == 2 ==> TextOk(body, "cron_expr") && Parse("0" + body["cron_expr"].s).Ok?)
  }

  /** A body is accepted exactly when every field its type needs is right, and the error names the first
      that is not. */
  lemma ValidationExactly(body: Body)
    ensures InputErrorOf(body).None? <==> TextOk(body, "name") && TypeOk(body) && TextOk(body, "payload") && ScheduleOk(body)
    ensures InputErrorOf(body) == Some(NameRequired) <==> !TextOk(body, "name")
    ensures InputErrorOf(body) == Some(TypeRequired) <==> TextOk(body, "name") && !TypeOk(body)
    ensures InputErrorOf(body) == Some(PayloadRequired)
       <==> TextOk(body, "name") && TypeOk(body) && !TextOk(body, "payload")
    ensures TextOk(body, "name") && TypeOk(body) && TextOk(body, "payload") ==>
              && (InputErrorOf(body) == Some(NextRunTimeRequired)
                  <==> body["type"].i == 0 && !PositiveOk(body, "next_run_time"))
              && (InputErrorOf(body) == Some(IntervalRequired)
                  <==> body["type"].i == 1 && !PositiveOk(body, "interval_seconds"))
              && (InputErrorOf(body) == Some(CronRequired) <==> body["type"].i == 2 && !TextOk(body, "cron_expr"))
              && forall e :: InputErrorOf(body) == Some(InvalidCron(e))
                  <==> body["type"].i == 2 && TextOk(body, "cron_expr") && Parse("0" + body["cron_expr"].s) == Bad(e)
  {
    hide Parse;
  }

  /** The fields before the schedule are right, and a cron expression is there. */
  predicate AsksForCron(body: Body) {
    && HasText(body, "name") && HasText(body, "payload")
    && HasNumber(body, "type") && body["type"].i == 2 && HasText(body, "cron_expr")
  }

  /** The usual five fields are refused for their number if and only if they do not start with a blank. */
  lemma FiveFieldBody(body: Body)
    requires AsksForCron(body) && body["cron_expr"].s[0] != '\0'
    requires |DropEmpty(Tokens(body["cron_expr"].s, ' '))| == 5
    ensures InputErrorOf(body) == Some(InvalidCron(NotSixFields)) <==> body["cron_expr"].s[0] != ' '
  {
    hide Parse, Tokens, DropEmpty;
    ValidationExactly(body);
    FiveFieldsRefused(body["cron_expr"].s);
  }

  /** Six fields that make_cron accepts are accepted, and run as the same schedule but for the first item
      of the seconds, which starts at 0 unless it is written with a digit first; the sets are those that
      make_cron gives for the expression itself if and only if other seconds cover the change. */
  lemma SixFieldBody(body: Body, now: int)
    requires AsksForCron(body) && body["cron_expr"].s[0] != ' ' && Parse(body["cron_expr"].s).Ok?
    requires !Misfit(body) && now >= 0
    ensures var expr := body["cron_expr"].s;
            var s := Read(expr);
            && InputErrorOf(body).None? && Build(body, now).Ready? && Parse("0" + expr).Ok?
            && Build(body, now).job.nextRunTime == CronNext(Parse("0" + expr).value, now)
            && s.seconds != [] && AllValid(s.seconds, 0, 59)
            && Read("0" + expr) == (if IsDigit(expr[0]) then s else s.(seconds := [FromZero(s.seconds[0])] + s.seconds[1..]))
            && (Parse("0" + expr) == Parse(expr) <==> IsDigit(expr[0]) || ZeroCovered(s.seconds))
  {
    hide Parse, Read, CronNext, InputErrorOf, Build, ZeroCovered;
    var expr := body["cron_expr"].s;
    GluedReading(expr);
    MeaningKeptIff(expr);
    ValidationExactly(body);
    AcceptedBodyBuilds(body, now);
    BuiltRunTime(body, now);
  }

  /** Whatever its expression, a cron job on reliable sets runs at the least instant after now that the
      text with 0 in front describes. */
  lemma CronRunTimeMeans(body: Body, now: int)
    requires now >= 0 && Build(body, now).Ready? && Build(body, now).job.jobType == CRON
    requires HasText(body, "cron_expr") && Parse("0" + body["cron_expr"].s).Ok?
    requires Reliable(Parse("0" + body["cron_expr"].s).value) && Read("0" + body["cron_expr"].s).Covered()
    ensures var s, r := Read("0" + body["cron_expr"].s), Build(body, now).job.nextRunTime;
            now < r && s.Describes(r) && forall z :: now < z < r ==> !s.Describes(z)
  {
    hide Parse, Read, CronNext, Build, Reliable, Schedule.Covered, Schedule.Describes;
    BuiltRunTime(body, now);
    AcceptedAnswer("0" + body["cron_expr"].s, now);
  }

  /** A recurring job runs next at its interval from now exactly when the interval fits in an int;
      validation accepts larger ones, and 2^32 seconds becomes no delay at all. */
  lemma RecurringIff(body: Body, now: int)
    requires now >= 0 && Build(body, now).Ready? && Build(body, now).job.jobType == RECURRING
    ensures Build(body, now).job.nextRunTime == now + body["interval_seconds"].i
       <==> body["interval_seconds"].i < 0x8000_0000
    ensures body["interval_seconds"].i == 0x1_0000_0000 ==> Build(body, now).job.nextRunTime == now
  {
    hide Build, InputErrorOf;
    BuiltRunTime(body, now);
  }

  /** A body that validation accepts and that runs at once: its interval of 2^32 seconds is stored as 0. */
  const NO_DELAY: Body := map[
    "name" := Str("poll", 0), "payload" := Str("x", 0), "type" := Number(1), "interval_seconds" := Number(0x1_0000_0000)]

  lemma LongIntervalAccepted(now: int)
    requires now >= 0
    ensures Build(NO_DELAY, now).Ready? && Build(NO_DELAY, now).job.jobType == RECURRING
    ensures Build(NO_DELAY, now).job.nextRunTime == now
  {
  }

  /** On sets that search exactly, the run time is the least matching instant after now. */
  lemma CronJobRunsNext(body: Body, now: int)
    requires now >= 0 && Build(body, now).Ready? && Build(body, now).job.jobType == CRON
    requires HasText(body, "cron_expr") && FullCron(body["cron_expr"].s).Ok?
    requires Reliable(FullCron(body["cron_expr"].s).value)
    ensures IsFirstMatch(FullCron(body["cron_expr"].s).value, now + 1, Build(body, now).job.nextRunTime)
  {
    hide Parse, CronNext, Reliable;
    NextIsFirst(FullCron(body["cron_expr"].s).value, now);
  }

  /** Over every run, the created job and all others keep 0 <= retry_count <= max_retries, if and only if
      the max_retries sent, as an int, is not negative; validation does not look at it. */
  lemma CreatedRetriesIff(t: Table, body: Body, now: int)
    requires now >= 0 && Build(body, now).Ready? && AllRetriesInBounds(t)
    ensures (forall ops :: (forall op :: op in ops ==> KeepsRetries(op)) ==>
               AllRetriesInBounds(Run(t, [InsertJob(Build(body, now).job)] + ops)))
       <==> ToInt32(NumberOr(body, "max_retries", 3)) >= 0
  {
    hide InputErrorOf, NextRunTime, Run, AllRetriesInBounds, RetriesInBounds;
    var op := InsertJob(Build(body, now).job);
    BuiltRetries(body, now);
    if KeepsRetries(op) {
      forall ops | forall o :: o in ops ==> KeepsRetries(o)
        ensures AllRetriesInBounds(Run(t, [op] + ops))
      {
        RetryBound(t, [op] + ops);
      }
    } else {
      RunOne(t, op);
      NewRowInTable(t, op.job);
      assert [op] + [] == [op];
      assert forall o :: o in [] ==> KeepsRetries(o);
      assert !AllRetriesInBounds(Run(t, [op] + []));
    }
  }

  lemma BuiltRetries(body: Body, now: int)
    requires now >= 0 && Build(body, now).Ready?
    ensures KeepsRetries(InsertJob(Build(body, now).job)) <==> ToInt32(NumberOr(body, "max_retries", 3)) >= 0
  {
    hide InputErrorOf, NextRunTime;
  }

  lemma RunOne(t: Table, op: Op)
    ensures Run(t, [op]) == Apply(t, op).0
  {
    hide Apply;
    assert [op][1..] == [];
  }

  lemma NewRowInTable(t: Table, job: Job)
    requires !RetriesInBounds(job)
    ensures !AllRetriesInBounds(Apply(t, InsertJob(job)).0)
  {
    var rows := Apply(t, InsertJob(job)).0.rows;
    assert rows[|rows| - 1] in rows;
  }

  // ---------- Cron searches that fail ----------

  /** With one day set full, an accepted cron expression gets a run time after now at every now, if and
      only if some allowed month has an allowed day and that is not 29 February alone. */
  lemma FailedCronIff(body: Body)
    requires InputErrorOf(body).None? && body["type"].i == 2 && !Misfit(body)
    requires OneDaySetFull(FullCron(body["cron_expr"].s).value)
    ensures var cex := FullCron(body["cron_expr"].s).value;
            (forall now :: now >= 0 ==> Build(body, now).Ready? && Build(body, now).job.nextRunTime > now)
            <==> Satisfiable(cex) && !LeapDayOnly(cex)
  {
    hide Parse, CronNext, Satisfiable, LeapDayOnly, OneDaySetFull;
    var cex := FullCron(body["cron_expr"].s).value;
    forall now | now >= 0
      ensures Build(body, now).Ready? && Build(body, now).job.nextRunTime == CronNext(cex, now)
      ensures CronNext(cex, now) > now <==> CronNext(cex, now) != INVALID_TIME
    {
      Progress(cex, now);
    }
    NeverGivesUpIff(cex);
  }

  /** 00:00:00 on 30 February: an accepted body for which every search fails. */
  const FEBRUARY_30 := Schedule(
    [Plainly(One(0))], [Plainly(One(0))], [Plainly(One(0))], [Plainly(One(30))], [Plainly(One(2))], [Plainly(Any)])

  const NEVER: Body := map[
    "name" := Str("never", 0), "payload" := Str("x", 0), "type" := Number(2), "cron_expr" := Str(" 0 0 30 2 *", 0)]

  lemma FebruaryText()
    ensures FEBRUARY_30.Valid() && FEBRUARY_30.Written() == "0 0 0 30 2 *"
  {
    hide FieldString, Decimal;
    OneText(0, 0, 59);
    OneText(0, 0, 23);
    OneText(30, 1, 31);
    OneText(2, 1, 12);
    StarText(0, 6);
    assert Decimal(0) == "0" && Decimal(2) == "2" && Decimal(30) == "30" by { SmallDecimals(); }
    assert Join(["2", "*"], ' ') == "2 *";
    assert Join(["30", "2", "*"], ' ') == "30 2 *";
    assert Join(["0", "30", "2", "*"], ' ') == "0 30 2 *";
    assert Join(["0", "0", "30", "2", "*"], ' ') == "0 0 30 2 *";
    assert Join(["0", "0", "0", "30", "2", "*"], ' ') == "0 0 0 30 2 *";
  }

  lemma SmallDecimals()
    ensures Decimal(0) == "0" && Decimal(2) == "2" && Decimal(30) == "30"
  {
  }

  lemma FebruarySets()
    ensures Parse("0 0 0 30 2 *").Ok?
    ensures OneDaySetFull(Parse("0 0 0 30 2 *").value) && !Satisfiable(Parse("0 0 0 30 2 *").value)
  {
    hide Parse, Read, Schedule.Written;
    FebruaryText();
    ReadWritten(FEBRUARY_30);
    var text := FEBRUARY_30.Written();
    var cex := Parse(text).value;
    AcceptedMeansIff(text);
    assert FEBRUARY_30.Covered();
    forall b | b in cex.daysOfMonth ensures b == 29 { assert Named(FEBRUARY_30.daysOfMonth, 1, 31, b + 1); }
    forall b | b in cex.months ensures b == 1 { assert Named(FEBRUARY_30.months, 1, 12, b + 1); }
    forall b | 0 <= b < 7 ensures b in cex.daysOfWeek {
      assert FEBRUARY_30.daysOfWeek[0] in FEBRUARY_30.daysOfWeek;
      assert Named(FEBRUARY_30.daysOfWeek, 0, 6, b);
    }
  }

  lemma NeverRuns(now: int)
    requires now >= 0
    ensures Build(NEVER, now).Ready? && Build(NEVER, now).job.jobType == CRON
    ensures Build(NEVER, now).job.nextRunTime == INVALID_TIME
  {
    hide Parse, CronNext, Satisfiable, OneDaySetFull;
    FebruarySets();
    assert "0" + " 0 0 30 2 *" == "0 0 0 30 2 *";
    var cex := FullCron(" 0 0 30 2 *").value;
    UnsatisfiableGivesUp(cex, now);
  }

  /** Over every run that leaves it alone, a job whose search failed is reported by every tick. */
  lemma FailedCronIsDue(t: Table, body: Body, now: int, id: int, ops: seq<Op>, tick: int)
    requires Ordered(t) && id == t.lastId + 1 && Untouched(ops, id)
    requires now >= 0 && Build(body, now).Ready? && Build(body, now).job.nextRunTime == INVALID_TIME && tick >= 0
    ensures Reports(Run(Apply(t, InsertJob(Build(body, now).job)).0, ops), tick, id)
  {
    hide Build, Run, Apply, Reports, Ordered, ToInt32;
    var job := Build(body, now).job;
    BuiltRunTime(body, now);
    ReportedFromItsTime(t, job, id, ops);
    assert ToInt32(INVALID_TIME) == INVALID_TIME;
  }
}
