// What every run of repository operations keeps.
module Runs {
  import opened Jobs

  // ---------- One operation ----------

  lemma {:induction false} LookupWithout(rows: seq<Job>, id: int, other: int)
    ensures Lookup(Without(rows, id), other) == if other == id then None else Lookup(rows, other)
    ensures forall row :: row in Without(rows, id) <==> row in rows && row.id != id
  {
    if rows != [] {
      LookupWithout(rows[1..], id, other);
      var rest := Without(rows[1..], id);
      assert ([rows[0]] + rest)[1..] == rest;
      assert [] + rest == rest;
      assert rows == [rows[0]] + rows[1..];
    }
  }

  lemma {:induction false} LookupUpdated(rows: seq<Job>, op: Op, id: int)
    ensures Lookup(Updated(rows, op), id)
         == match Lookup(rows, id)
            case None => None
            case Some(row) => Some(AfterUpdate(op, row))
  {
    hide AfterUpdate;
    if rows != [] {
      LookupUpdated(rows[1..], op, id);
      assert ([AfterUpdate(op, rows[0])] + Updated(rows[1..], op))[1..] == Updated(rows[1..], op);
    }
  }

  lemma {:induction false} LookupAppended(rows: seq<Job>, row: Job, id: int)
    ensures Lookup(rows + [row], id)
         == if Lookup(rows, id).Some? then Lookup(rows, id) else if row.id == id then Some(row) else None
  {
    if rows != [] {
      assert (rows + [row])[1..] == rows[1..] + [row];
      LookupAppended(rows[1..], row, id);
    } else {
      assert (rows + [row])[1..] == [];
    }
  }

  /** What an operation makes of the row with a given id. */
  function RowAfter(op: Op, lastId: nat, id: int, row: Option<Job>): Option<Job> {
    match op
    case InsertJob(job) => if id == lastId + 1 then Some(Stored(job, id)) else row
    case DeleteJob(i) => if i == id then None else row
    case _ =>
      match row
      case None => None
      case Some(r) => Some(AfterUpdate(op, r))
  }

  /** Every operation acts on each row by itself, so it changes at most the row it names. */
  lemma ApplyByRow(t: Table, op: Op, id: int)
    requires Ordered(t)
    ensures Lookup(Apply(t, op).0.rows, id) == RowAfter(op, t.lastId, id, Lookup(t.rows, id))
    ensures (op.InsertJob? || op.id != id) && id <= t.lastId ==> Lookup(Apply(t, op).0.rows, id) == Lookup(t.rows, id)
  {
    hide Updated, Without, Effect, Stored;
    if op.InsertJob? {
      var row := Stored(op.job, t.lastId + 1);
      assert row.id == t.lastId + 1 by { StoredId(op.job, t.lastId + 1); }
      LookupAppended(t.rows, row, id);
    } else if op.DeleteJob? {
      LookupWithout(t.rows, op.id, id);
    } else {
      LookupUpdated(t.rows, op, id);
    }
  }

  lemma StoredId(job: Job, id: int)
    ensures Stored(job, id).id == id
  {
  }

  lemma {:induction false} WithoutOrdered(rows: seq<Job>, id: int)
    requires forall i, j :: 0 <= i < j < |rows| ==> rows[i].id < rows[j].id
    ensures forall i, j :: 0 <= i < j < |Without(rows, id)| ==> Without(rows, id)[i].id < Without(rows, id)[j].id
    ensures forall row :: row in Without(rows, id) ==> row in rows
  {
    if rows != [] {
      WithoutOrdered(rows[1..], id);
      forall row | row in Without(rows[1..], id) ensures rows[0].id < row.id && row in rows {
        var k :| 0 <= k < |rows[1..]| && rows[1..][k] == row;
        assert rows[k + 1] == row;
      }
    }
  }

  /** Rowids stay strictly increasing and the counter never falls. */
  lemma ApplyOrdered(t: Table, op: Op)
    requires Ordered(t)
    ensures Ordered(Apply(t, op).0) && Apply(t, op).0.lastId >= t.lastId
    ensures op.InsertJob? ==> Apply(t, op).1 == Inserted(t.lastId + 1) && Apply(t, op).0.lastId == t.lastId + 1
  {
    hide AfterUpdate, Updated, SomeHit;
    if op.DeleteJob? {
      WithoutOrdered(t.rows, op.id);
      var rows := Without(t.rows, op.id);
      forall i | 0 <= i < |rows| ensures 1 <= rows[i].id <= t.lastId {
        assert rows[i] in t.rows;
      }
    } else if op.InsertJob? {
      StoredId(op.job, t.lastId + 1);
    }
  }

  // ---------- Runs ----------

  function Run(t: Table, ops: seq<Op>): Table
    decreases |ops|
  {
    if ops == [] then t else Run(Apply(t, ops[0]).0, ops[1..])
  }

  lemma {:induction false} RunOrdered(t: Table, ops: seq<Op>)
    requires Ordered(t)
    ensures Ordered(Run(t, ops)) && Run(t, ops).lastId >= t.lastId
    decreases |ops|
  {
    hide Ordered, Apply;
    if ops != [] {
      ApplyOrdered(t, ops[0]);
      RunOrdered(Apply(t, ops[0]).0, ops[1..]);
    }
  }

  /** Once an id at or below the counter has no row, no run gives it one again. */
  lemma {:induction false} GoneStaysGone(t: Table, ops: seq<Op>, id: int)
    requires Ordered(t) && id <= t.lastId && Lookup(t.rows, id).None?
    ensures Lookup(Run(t, ops).rows, id).None?
    decreases |ops|
  {
    hide Ordered, Apply, Lookup;
    if ops != [] {
      ApplyOrdered(t, ops[0]);
      ApplyByRow(t, ops[0], id);
      GoneStaysGone(Apply(t, ops[0]).0, ops[1..], id);
    }
  }

  lemma {:induction false} NothingUpdated(rows: seq<Job>, op: Op)
    requires !SomeHit(rows, op)
    ensures Updated(rows, op) == rows
  {
  }

  lemma {:induction false} NothingWithout(rows: seq<Job>, id: int)
    requires forall row :: row in rows ==> row.id != id
    ensures Without(rows, id) == rows
  {
    if rows != [] {
      assert rows[0] in rows;
      NothingWithout(rows[1..], id);
    }
  }

  /** An operation on an id without a row leaves the table as it is and answers false (true for
      update_job_status, which does not look). */
  lemma AbsentRefused(t: Table, op: Op)
    requires !op.InsertJob? && Lookup(t.rows, op.id).None?
    ensures Apply(t, op) == (t, Changed(op.UpdateJobStatus?))
  {
    assert !SomeHit(t.rows, op);
    NothingUpdated(t.rows, op);
    NothingWithout(t.rows, op.id);
  }

  /** After delete_job(id) has answered true, every later operation on the id is refused. */
  lemma DeletedForGood(t: Table, id: int, ops: seq<Op>, op: Op)
    requires Ordered(t) && Apply(t, DeleteJob(id)).1 == Changed(true)
    requires !op.InsertJob? && op.id == id
    ensures var later := Run(Apply(t, DeleteJob(id)).0, ops);
            Lookup(later.rows, id) == None && Apply(later, op) == (later, Changed(op.UpdateJobStatus?))
  {
    hide Lookup;
    var row :| row in t.rows && Hits(DeleteJob(id), row);
    assert id <= t.lastId;
    ApplyOrdered(t, DeleteJob(id));
    ApplyByRow(t, DeleteJob(id), id);
    GoneStaysGone(Apply(t, DeleteJob(id)).0, ops, id);
    AbsentRefused(Run(Apply(t, DeleteJob(id)).0, ops), op);
  }

  // ---------- Retries ----------

  predicate RetriesInBounds(job: Job) {
    0 <= job.retryCount <= job.maxRetries
  }

  /** Only whole rows written from outside can bring in bad counts. */
  predicate KeepsRetries(op: Op) {
    op.InsertJob? || op.UpdateJob? ==> RetriesInBounds(op.job)
  }

  ghost predicate AllRetriesInBounds(t: Table) {
    forall row :: row in t.rows ==> RetriesInBounds(row)
  }

  lemma ApplyKeepsRetries(t: Table, op: Op)
    requires AllRetriesInBounds(t) && KeepsRetries(op)
    ensures AllRetriesInBounds(Apply(t, op).0)
  {
    if op.DeleteJob? {
      LookupWithout(t.rows, op.id, 0);
    } else if !op.InsertJob? {
      var rows := Updated(t.rows, op);
      forall row | row in rows ensures RetriesInBounds(row) {
        var i :| 0 <= i < |rows| && rows[i] == row;
        assert t.rows[i] in t.rows;
      }
    }
  }

  /** Over every run, 0 <= retry_count <= max_retries in every row. */
  lemma {:induction false} RetryBound(t: Table, ops: seq<Op>)
    requires AllRetriesInBounds(t) && forall op :: op in ops ==> KeepsRetries(op)
    ensures AllRetriesInBounds(Run(t, ops))
    decreases |ops|
  {
    hide AllRetriesInBounds, Apply;
    if ops != [] {
      assert ops[0] in ops;
      ApplyKeepsRetries(t, ops[0]);
      RetryBound(Apply(t, ops[0]).0, ops[1..]);
    }
  }

  /** Successful increments of a row since its last reset, with `count` of them before the run. */
  function Increments(t: Table, ops: seq<Op>, id: int, count: int): int
    decreases |ops|
  {
    if ops == [] then count
    else
      var (later, reply) := Apply(t, ops[0]);
      var now := if ops[0] == IncrementRetryCount(id) && reply == Changed(true) then count + 1
                 else if ops[0] == ResetRetryCount(id) && reply == Changed(true) then 0
                 else count;
      Increments(later, ops[1..], id, now)
  }

  /** While a row lives and is not rewritten by update_job, its count is that number. */
  lemma {:induction false} RetryCountIsIncrements(t: Table, ops: seq<Op>, id: int)
    requires Ordered(t) && Lookup(t.rows, id).Some? && Lookup(Run(t, ops).rows, id).Some?
    requires forall op :: op in ops ==> !(op.UpdateJob? && op.id == id)
    ensures Lookup(Run(t, ops).rows, id).value.retryCount
         == Increments(t, ops, id, Lookup(t.rows, id).value.retryCount)
    decreases |ops|
  {
    hide Ordered, Lookup;
    if ops != [] {
      var later := Apply(t, ops[0]).0;
      assert ops[0] in ops;
      IdBelowCounter(t, id);
      ApplyOrdered(t, ops[0]);
      ApplyByRow(t, ops[0], id);
      if Lookup(later.rows, id).None? { GoneStaysGone(later, ops[1..], id); }
      RetryStep(t, ops[0], id);
      RetryCountIsIncrements(later, ops[1..], id);
    }
  }

  lemma IdBelowCounter(t: Table, id: int)
    requires Ordered(t) && Lookup(t.rows, id).Some?
    ensures 1 <= id <= t.lastId
  {
  }

  lemma RetryStep(t: Table, op: Op, id: int)
    requires Ordered(t) && Lookup(t.rows, id).Some? && !(op.UpdateJob? && op.id == id)
    requires Lookup(Apply(t, op).0.rows, id).Some?
    ensures var count := Lookup(t.rows, id).value.retryCount;
            Lookup(Apply(t, op).0.rows, id).value.retryCount
            == if op == IncrementRetryCount(id) && Apply(t, op).1 == Changed(true) then count + 1
               else if op == ResetRetryCount(id) && Apply(t, op).1 == Changed(true) then 0
               else count
  {
    hide Updated, Without;
    var row := Lookup(t.rows, id).value;
    ApplyByRow(t, op, id);
    IdBelowCounter(t, id);
    OnlyRow(t, row);
  }

  lemma OnlyRow(t: Table, row: Job)
    requires Ordered(t) && row in t.rows
    ensures forall other :: other in t.rows && other.id == row.id ==> other == row
  {
  }

  // ---------- Due jobs ----------

  /** A row is reported iff it is there, ACTIVE and due; and no row is reported twice. */
  lemma {:induction false} DueExactly(rows: seq<Job>, now: int)
    requires forall i, j :: 0 <= i < j < |rows| ==> rows[i].id < rows[j].id
    ensures forall row :: row in DueJobs(rows, now) <==> row in rows && row.status == ACTIVE && row.nextRunTime <= now
    ensures forall i, j :: 0 <= i < j < |DueJobs(rows, now)| ==> DueJobs(rows, now)[i].id < DueJobs(rows, now)[j].id
  {
    if rows != [] {
      DueExactly(rows[1..], now);
      assert rows == [rows[0]] + rows[1..];
      forall row | row in DueJobs(rows[1..], now) ensures rows[0].id < row.id {
        var k :| 0 <= k < |rows[1..]| && rows[1..][k] == row;
        assert rows[k + 1] == row;
      }
    }
  }

  /** A tick at time `now` reports the job with this id. */
  predicate Reports(t: Table, now: int, id: int) {
    exists row :: row in DueJobs(t.rows, now) && row.id == id
  }

  lemma ReportsIff(t: Table, now: int, id: int)
    requires Ordered(t)
    ensures Reports(t, now, id) <==>
              var row := Lookup(t.rows, id);
              row.Some? && row.value.status == ACTIVE && row.value.nextRunTime <= now
  {
    hide Lookup, DueJobs;
    DueExactly(t.rows, now);
    if Lookup(t.rows, id).Some? { OnlyRow(t, Lookup(t.rows, id).value); }
  }

  predicate Untouched(ops: seq<Op>, id: int) {
    forall op :: op in ops ==> op.InsertJob? || op.id != id
  }

  lemma {:induction false} UntouchedRow(t: Table, ops: seq<Op>, id: int)
    requires Ordered(t) && id <= t.lastId && Untouched(ops, id)
    ensures Lookup(Run(t, ops).rows, id) == Lookup(t.rows, id)
    decreases |ops|
  {
    hide Ordered, Lookup, Apply;
    if ops != [] {
      assert ops[0] in ops;
      ApplyOrdered(t, ops[0]);
      ApplyByRow(t, ops[0], id);
      UntouchedRow(Apply(t, ops[0]).0, ops[1..], id);
    }
  }

  lemma InsertedRow(t: Table, job: Job)
    requires Ordered(t)
    ensures Lookup(Apply(t, InsertJob(job)).0.rows, t.lastId + 1) == Some(Stored(job, t.lastId + 1))
  {
    hide Lookup;
    ApplyByRow(t, InsertJob(job), t.lastId + 1);
  }

  /** A job inserted as ACTIVE and otherwise left alone is reported, whatever happens to other rows,
      by exactly the ticks from its stored time on; that is its own run time if and only if the run
      time fits 32 bits. */
  lemma ReportedFromItsTime(t: Table, job: Job, id: int, ops: seq<Op>)
    requires Ordered(t) && job.status == ACTIVE && id == t.lastId + 1 && Untouched(ops, id)
    ensures var later := Run(Apply(t, InsertJob(job)).0, ops);
            && (forall now :: Reports(later, now, id) <==> ToInt32(job.nextRunTime) <= now)
            && ((forall now :: Reports(later, now, id) <==> job.nextRunTime <= now)
                  <==> -0x8000_0000 <= job.nextRunTime < 0x8000_0000)
  {
    hide Lookup, Run, Apply, Reports, Ordered, ToInt32;
    var start := Apply(t, InsertJob(job)).0;
    var later := Run(start, ops);
    ApplyOrdered(t, InsertJob(job));
    InsertedRow(t, job);
    UntouchedRow(start, ops, id);
    RunOrdered(start, ops);
    forall now ensures Reports(later, now, id) <==> ToInt32(job.nextRunTime) <= now {
      ReportsIff(later, now, id);
    }
    assert Reports(later, ToInt32(job.nextRunTime), id);
    assert Reports(later, job.nextRunTime, id) <==> ToInt32(job.nextRunTime) <= job.nextRunTime;
  }

  predicate Reactivates(op: Op, id: int) {
    (op.ResumeJob? || op.UpdateJob? || op.UpdateJobStatus?) && op.id == id
  }

  lemma {:induction false} StaysPaused(t: Table, ops: seq<Op>, id: int)
    requires Ordered(t) && id <= t.lastId
    requires Lookup(t.rows, id).Some? ==> Lookup(t.rows, id).value.status == PAUSED
    requires forall op :: op in ops ==> !Reactivates(op, id)
    ensures Lookup(Run(t, ops).rows, id).Some? ==> Lookup(Run(t, ops).rows, id).value.status == PAUSED
    decreases |ops|
  {
    hide Ordered, Lookup, Apply;
    if ops != [] {
      assert ops[0] in ops;
      ApplyOrdered(t, ops[0]);
      ApplyByRow(t, ops[0], id);
      StaysPaused(Apply(t, ops[0]).0, ops[1..], id);
    }
  }

  /** A paused job is reported by no tick until something sets its status again. */
  lemma PausedNotReported(t: Table, id: int, ops: seq<Op>, now: int)
    requires Ordered(t) && id <= t.lastId && forall op :: op in ops ==> !Reactivates(op, id)
    ensures !Reports(Run(Apply(t, PauseJob(id)).0, ops), now, id)
  {
    hide Lookup, Run, Apply, Reports, Ordered;
    var start := Apply(t, PauseJob(id)).0;
    ApplyOrdered(t, PauseJob(id));
    ApplyByRow(t, PauseJob(id), id);
    StaysPaused(start, ops, id);
    RunOrdered(start, ops);
    ReportsIff(Run(start, ops), now, id);
  }

  /** After update_next_run_time has answered true, an ACTIVE job left alone is reported by exactly
      the ticks from the new time on; that time is bound in 64 bits. */
  lemma RescheduledReported(t: Table, id: int, time: int, ops: seq<Op>, now: int)
    requires Ordered(t) && Lookup(t.rows, id).Some? && Lookup(t.rows, id).value.status == ACTIVE
    requires Untouched(ops, id)
    ensures Apply(t, UpdateNextRunTime(id, time)).1 == Changed(true)
    ensures Reports(Run(Apply(t, UpdateNextRunTime(id, time)).0, ops), now, id) <==> time <= now
  {
    hide Lookup, Run, Reports, Ordered, Updated;
    var op := UpdateNextRunTime(id, time);
    AfterOneOp(t, op, id, ops, now);
    assert Hits(op, Lookup(t.rows, id).value);
  }

  /** A resumed job left alone is reported by exactly the ticks from its run time on. */
  lemma ResumedReported(t: Table, id: int, ops: seq<Op>, now: int)
    requires Ordered(t) && Lookup(t.rows, id).Some? && Untouched(ops, id)
    ensures Apply(t, ResumeJob(id)).1 == Changed(true)
    ensures Reports(Run(Apply(t, ResumeJob(id)).0, ops), now, id) <==> Lookup(t.rows, id).value.nextRunTime <= now
  {
    hide Lookup, Run, Reports, Ordered, Updated;
    var op := ResumeJob(id);
    AfterOneOp(t, op, id, ops, now);
    assert Hits(op, Lookup(t.rows, id).value);
  }

  lemma AfterOneOp(t: Table, op: Op, id: int, ops: seq<Op>, now: int)
    requires Ordered(t) && Lookup(t.rows, id).Some? && Untouched(ops, id)
    requires op.UpdateNextRunTime? || op.ResumeJob? || op.UpdateJob?
    ensures var row := AfterUpdate(op, Lookup(t.rows, id).value);
            && Lookup(Run(Apply(t, op).0, ops).rows, id) == Some(row)
            && (Reports(Run(Apply(t, op).0, ops), now, id) <==> row.status == ACTIVE && row.nextRunTime <= now)
  {
    hide Lookup, Run, Reports, Ordered, Apply, AfterUpdate;
    var later := Apply(t, op).0;
    IdBelowCounter(t, id);
    ApplyOrdered(t, op);
    ApplyByRow(t, op, id);
    UntouchedRow(later, ops, id);
    RunOrdered(later, ops);
    ReportsIff(Run(later, ops), now, id);
  }
}
