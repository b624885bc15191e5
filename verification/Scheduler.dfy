// The polling loop, interleaved with the requests that change the table.
module Scheduler {
  import opened CronExprs
  import opened Search
  import opened Exact
  import opened Enumeration
  import opened Jobs
  import opened Runs
  import opened Service

  /** One turn of the loop: the operations that handlers complete before it
      polls, and the time it reads. */
  datatype Round = Round(handlers: seq<Op>, now: int)

  /** What each tick of a run reports. */
  function Log(t: Table, rounds: seq<Round>): (log: seq<seq<Job>>)
    ensures |log| == |rounds|
    decreases |rounds|
  {
    if rounds == [] then []
    else
      var polled := Run(t, rounds[0].handlers);
      [DueJobs(polled.rows, rounds[0].now)] + Log(polled, rounds[1..])
  }

  /** The table as the k-th tick finds it. */
  function TableAt(t: Table, rounds: seq<Round>, k: nat): Table
    requires k < |rounds|
    decreases k
  {
    if k == 0 then Run(t, rounds[0].handlers)
    else TableAt(Run(t, rounds[0].handlers), rounds[1..], k - 1)
  }

  /** All operations up to the k-th tick. */
  function OpsUpTo(rounds: seq<Round>, k: nat): seq<Op>
    requires k < |rounds|
    decreases k
  {
    rounds[0].handlers + if k == 0 then [] else OpsUpTo(rounds[1..], k - 1)
  }

  lemma {:induction false} RunAppend(t: Table, first: seq<Op>, second: seq<Op>)
    ensures Run(t, first + second) == Run(Run(t, first), second)
    decreases |first|
  {
    hide Apply;
    if first == [] {
      assert first + second == second;
    } else {
      assert (first + second)[1..] == first[1..] + second;
      RunAppend(Apply(t, first[0]).0, first[1..], second);
    }
  }

  /** A tick sees the effect of exactly the operations completed before it. */
  lemma {:induction false} TickSees(t: Table, rounds: seq<Round>, k: nat)
    requires k < |rounds|
    ensures TableAt(t, rounds, k) == Run(t, OpsUpTo(rounds, k))
    ensures Log(t, rounds)[k] == DueJobs(TableAt(t, rounds, k).rows, rounds[k].now)
    decreases |rounds|
  {
    hide Run, DueJobs;
    var polled := Run(t, rounds[0].handlers);
    if k == 0 {
      assert rounds[0].handlers + [] == rounds[0].handlers;
      if |rounds| > 1 { TickSees(polled, rounds[1..], 0); }
    } else {
      TickSees(polled, rounds[1..], k - 1);
      RunAppend(t, rounds[0].handlers, OpsUpTo(rounds[1..], k - 1));
    }
  }

  /** Over every interleaving, a tick reports exactly the rows that are there, ACTIVE and due, each once. */
  lemma TickReportsExactly(t: Table, rounds: seq<Round>, k: nat)
    requires Ordered(t) && k < |rounds|
    ensures var due, rows := Log(t, rounds)[k], Run(t, OpsUpTo(rounds, k)).rows;
            && (forall row :: row in due <==> row in rows && row.status == ACTIVE && row.nextRunTime <= rounds[k].now)
            && (forall i, j :: 0 <= i < j < |due| ==> due[i].id < due[j].id)
  {
    hide Run, DueJobs, Log, TableAt, OpsUpTo;
    TickSees(t, rounds, k);
    RunOrdered(t, OpsUpTo(rounds, k));
    DueExactly(Run(t, OpsUpTo(rounds, k)).rows, rounds[k].now);
  }

  /** A job inserted before the first round and left alone is reported by a tick exactly when the
      tick's clock has reached the stored run time, whatever the handlers do to other jobs. */
  lemma JobReportedOnTime(t: Table, job: Job, id: int, rounds: seq<Round>, k: nat)
    requires Ordered(t) && job.status == ACTIVE && id == t.lastId + 1 && k < |rounds|
    requires Untouched(OpsUpTo(rounds, k), id)
    ensures var log := Log(Apply(t, InsertJob(job)).0, rounds);
            (exists row :: row in log[k] && row.id == id) <==> ToInt32(job.nextRunTime) <= rounds[k].now
  {
    hide Run, DueJobs, Log, TableAt, OpsUpTo, Apply, ToInt32;
    var start := Apply(t, InsertJob(job)).0;
    TickSees(start, rounds, k);
    ReportedFromItsTime(t, job, id, OpsUpTo(rounds, k));
    assert Reports(Run(start, OpsUpTo(rounds, k)), rounds[k].now, id) <==> ToInt32(job.nextRunTime) <= rounds[k].now;
  }

  /** From request to report: a cron job created at `now`, on sets that search exactly, is reported
      by a tick exactly when an instant after `now` that matches its expression has come. */
  lemma CronJobReported(t: Table, body: Body, now: int, job: Job, id: int, rounds: seq<Round>, k: nat)
    requires Ordered(t) && now >= 0 && Build(body, now) == Ready(job) && job.jobType == CRON && job.nextRunTime < 0x8000_0000
    requires HasText(body, "cron_expr") && FullCron(body["cron_expr"].s).Ok? && Reliable(FullCron(body["cron_expr"].s).value)
    requires id == t.lastId + 1 && k < |rounds| && Untouched(OpsUpTo(rounds, k), id)
    ensures var log := Log(Apply(t, InsertJob(job)).0, rounds);
            (exists row :: row in log[k] && row.id == id)
            <==> exists z :: now < z <= rounds[k].now && FullCron(body["cron_expr"].s).value.Matches(z)
  {
    hide Log, OpsUpTo, Apply, Untouched, Reliable, InputErrorOf, FullCron, CronNext, CronExpr.Matches;
    var cex := FullCron(body["cron_expr"].s).value;
    assert cex.WellFormed() by { hide *; ReliableIsWellFormed(cex); }
    NextIsFirst(cex, now);
    JobReportedOnTime(t, job, id, rounds, k);
    assert job.nextRunTime == CronNext(cex, now);
    assert ToInt32(job.nextRunTime) == job.nextRunTime;
    assert cex.Matches(job.nextRunTime);
  }

  /** scheduler_loop: `rounds` is what happens until `running` is cleared. */
  method SchedulerLoop(table: JobTable, rounds: seq<Round>) returns (log: seq<seq<Job>>)
    modifies table
    ensures log == Log(old(table.Contents()), rounds)
  {
    hide Run, DueJobs, Apply;
    log := [];
    var k := 0;
    while k < |rounds|
      invariant 0 <= k <= |rounds|
      invariant log + Log(table.Contents(), rounds[k..]) == Log(old(table.Contents()), rounds)
    {
      ghost var before, polls := table.Contents(), log;
      assert rounds[k..][0] == rounds[k] && rounds[k..][1..] == rounds[k + 1..];
      ServeHandlers(table, rounds[k].handlers);
      var dueJobs := table.SelectDue(rounds[k].now);
      log := log + [dueJobs];
      k := k + 1;
      assert Log(before, rounds[k - 1..]) == [dueJobs] + Log(table.Contents(), rounds[k..]);
      assert polls + ([dueJobs] + Log(table.Contents(), rounds[k..])) == log + Log(table.Contents(), rounds[k..]);
    }
  }

  /** The requests served between two polls. */
  method ServeHandlers(table: JobTable, ops: seq<Op>)
    modifies table
    ensures table.Contents() == Run(old(table.Contents()), ops)
  {
    hide Apply;
    for i := 0 to |ops|
      invariant Run(table.Contents(), ops[i..]) == Run(old(table.Contents()), ops)
    {
      assert ops[i..][0] == ops[i] && ops[i..][1..] == ops[i + 1..];
      var reply := table.Execute(ops[i]);
    }
  }
}
