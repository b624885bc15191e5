// What each repository operation writes, column by column, and what it leaves alone.
module Columns {
  import opened Jobs
  import opened Runs

  /** The columns of the jobs table. */
  datatype Column =
    | IdColumn | NameColumn | TypeColumn | StatusColumn | NextRunTimeColumn
    | IntervalColumn | CronColumn | PayloadColumn | RetryCountColumn | MaxRetriesColumn

  predicate SameIn(a: Job, b: Job, column: Column) {
    match column
    case IdColumn => a.id == b.id
    case NameColumn => a.name == b.name
    case TypeColumn => a.jobType == b.jobType
    case StatusColumn => a.status == b.status
    case NextRunTimeColumn => a.nextRunTime == b.nextRunTime
    case IntervalColumn => a.intervalSeconds == b.intervalSeconds
    case CronColumn => a.cronExpr == b.cronExpr
    case PayloadColumn => a.payload == b.payload
    case RetryCountColumn => a.retryCount == b.retryCount
    case MaxRetriesColumn => a.maxRetries == b.maxRetries
  }

  predicate SameBut(a: Job, b: Job, columns: set<Column>) {
    forall c: Column :: c !in columns ==> SameIn(a, b, c)
  }

  /** insert_job stores every column of the job under the next id; only the run time is narrowed. */
  lemma InsertedColumns(t: Table, job: Job)
    requires Ordered(t)
    ensures var row := Lookup(Apply(t, InsertJob(job)).0.rows, t.lastId + 1);
            && row.Some? && SameBut(row.value, job, {IdColumn, NextRunTimeColumn})
            && row.value.id == t.lastId + 1
            && (-0x8000_0000 <= job.nextRunTime < 0x8000_0000 ==> row.value.nextRunTime == job.nextRunTime)
    ensures Apply(t, InsertJob(job)).1 == Inserted(t.lastId + 1)
    ensures |Apply(t, InsertJob(job)).0.rows| == |t.rows| + 1
  {
    hide Lookup, ToInt32;
    InsertedRow(t, job);
  }

  /** The one column an UPDATE statement sets, but for update_job. */
  function Written(op: Op): Column
    requires !op.InsertJob? && !op.DeleteJob? && !op.UpdateJob?
  {
    match op
    case PauseJob(_) => StatusColumn
    case ResumeJob(_) => StatusColumn
    case UpdateJobStatus(_, _) => StatusColumn
    case UpdateNextRunTime(_, _) => NextRunTimeColumn
    case IncrementRetryCount(_) => RetryCountColumn
    case ResetRetryCount(_) => RetryCountColumn
  }

  /** Every UPDATE writes one column of the row it names, and this is what it writes and answers. */
  lemma OneColumnWritten(t: Table, op: Op)
    requires Ordered(t) && !op.InsertJob? && !op.DeleteJob? && !op.UpdateJob?
    requires Lookup(t.rows, op.id).Some?
    ensures var before, after := Lookup(t.rows, op.id).value, Lookup(Apply(t, op).0.rows, op.id);
            && after.Some? && SameBut(before, after.value, {Written(op)})
            && (op.PauseJob? ==> after.value.status == PAUSED)
            && (op.ResumeJob? ==> after.value.status == ACTIVE)
            && (op.UpdateJobStatus? ==> after.value.status == op.status)
            && (op.UpdateNextRunTime? ==> after.value.nextRunTime == op.time)
            && (op.ResetRetryCount? ==> after.value.retryCount == 0)
            && (op.IncrementRetryCount? ==>
                  after.value.retryCount == before.retryCount + if before.retryCount < before.maxRetries then 1 else 0)
            && Apply(t, op).1 == Changed(op.IncrementRetryCount? ==> before.retryCount < before.maxRetries)
  {
    hide Lookup, Updated, Ordered;
    ApplyByRow(t, op, op.id);
    var before := Lookup(t.rows, op.id).value;
    assert before in t.rows && before.id == op.id;
    assert SomeHit(t.rows, op) <==> Hits(op, before) by { OneHit(t, op, before); }
  }

  lemma OneHit(t: Table, op: Op, row: Job)
    requires Ordered(t) && row in t.rows && !op.InsertJob? && row.id == op.id
    ensures SomeHit(t.rows, op) <==> Hits(op, row)
  {
    OnlyRow(t, row);
  }

  /** update_job writes every column but the id. */
  lemma AllColumnsWritten(t: Table, id: int, job: Job)
    requires Ordered(t) && Lookup(t.rows, id).Some?
    ensures var after := Lookup(Apply(t, UpdateJob(id, job)).0.rows, id);
            after.Some? && after.value.id == id && SameBut(after.value, job, {IdColumn})
    ensures Apply(t, UpdateJob(id, job)).1 == Changed(true)
  {
    hide Lookup, Updated, Ordered;
    var row := Lookup(t.rows, id).value;
    assert row in t.rows && row.id == id;
    ApplyByRow(t, UpdateJob(id, job), id);
    assert Hits(UpdateJob(id, job), row);
  }

  /** delete_job takes the row away and nothing else, and answers whether it was there. */
  lemma OneRowDeleted(t: Table, id: int, other: int)
    requires Ordered(t)
    ensures Lookup(Apply(t, DeleteJob(id)).0.rows, other) == if other == id then None else Lookup(t.rows, other)
    ensures Apply(t, DeleteJob(id)).1 == Changed(Lookup(t.rows, id).Some?)
  {
    hide Without;
    LookupWithout(t.rows, id, other);
    if Lookup(t.rows, id).Some? {
      assert Hits(DeleteJob(id), Lookup(t.rows, id).value);
    }
  }

  /** Pausing and resuming an ACTIVE job that is otherwise left alone gives back the row it was, so it is
      reported by exactly the ticks from its own run time on. */
  lemma PauseThenResume(t: Table, id: int, ops: seq<Op>, now: int)
    requires Ordered(t) && Lookup(t.rows, id).Some? && Lookup(t.rows, id).value.status == ACTIVE
    requires Untouched(ops, id)
    ensures var later := Run(t, [PauseJob(id)] + ops + [ResumeJob(id)]);
            && Lookup(later.rows, id) == Lookup(t.rows, id)
            && (Reports(later, now, id) <==> Lookup(t.rows, id).value.nextRunTime <= now)
  {
    hide Lookup, Run, Ordered, Untouched, Apply, Reports;
    var paused := Apply(t, PauseJob(id)).0;
    var late := Run(paused, ops);
    IdBelowCounter(t, id);
    OneColumnWritten(t, PauseJob(id));
    ApplyOrdered(t, PauseJob(id));
    UntouchedRow(paused, ops, id);
    RunOrdered(paused, ops);
    OneColumnWritten(late, ResumeJob(id));
    ApplyOrdered(late, ResumeJob(id));
    RunBetween(t, PauseJob(id), ops, ResumeJob(id));
    SameRow(Lookup(t.rows, id).value, Lookup(paused.rows, id).value,
      Lookup(Apply(late, ResumeJob(id)).0.rows, id).value);
    ReportsIff(Apply(late, ResumeJob(id)).0, now, id);
  }

  lemma SameRow(a: Job, b: Job, c: Job)
    requires SameBut(a, b, {StatusColumn}) && SameBut(b, c, {StatusColumn}) && a.status == c.status
    ensures a == c
  {
    assert SameIn(a, b, IdColumn) && SameIn(b, c, IdColumn) && SameIn(a, b, NameColumn) && SameIn(b, c, NameColumn);
    assert SameIn(a, b, TypeColumn) && SameIn(b, c, TypeColumn);
    assert SameIn(a, b, NextRunTimeColumn) && SameIn(b, c, NextRunTimeColumn);
    assert SameIn(a, b, IntervalColumn) && SameIn(b, c, IntervalColumn);
    assert SameIn(a, b, CronColumn) && SameIn(b, c, CronColumn);
    assert SameIn(a, b, PayloadColumn) && SameIn(b, c, PayloadColumn);
    assert SameIn(a, b, RetryCountColumn) && SameIn(b, c, RetryCountColumn);
    assert SameIn(a, b, MaxRetriesColumn) && SameIn(b, c, MaxRetriesColumn);
  }

  lemma {:induction false} RunAppended(t: Table, ops: seq<Op>, last: Op)
    ensures Run(t, ops + [last]) == Apply(Run(t, ops), last).0
    decreases |ops|
  {
    hide Apply;
    if ops == [] {
      assert [] + [last] == [last] && [last][1..] == [];
    } else {
      assert (ops + [last])[1..] == ops[1..] + [last];
      RunAppended(Apply(t, ops[0]).0, ops[1..], last);
    }
  }

  lemma RunBetween(t: Table, first: Op, ops: seq<Op>, last: Op)
    ensures Run(t, [first] + ops + [last]) == Apply(Run(Apply(t, first).0, ops), last).0
  {
    hide Apply;
    RunAppended(t, [first] + ops, last);
    assert ([first] + ops)[1..] == ops;
  }
}
