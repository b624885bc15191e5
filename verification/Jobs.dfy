// The jobs table and the repository operations on it.
//
// Each SQL statement is one atomic step.  Rows are kept in rowid order, which is the order in
// which a full scan returns them.
module Jobs {

  datatype Option<+T> = None | Some(value: T)

  datatype Status = ACTIVE | PAUSED | RUNNING | COMPLETED | FAILED | CANCELED
  datatype JobType = ONE_TIME | RECURRING | CRON

  datatype Job = Job(
    id: int, name: string, jobType: JobType, status: Status, nextRunTime: int,
    intervalSeconds: Option<int>, cronExpr: Option<string>, payload: string,
    retryCount: int, maxRetries: int)

  /** Narrowing a 64-bit integer to int. */
  function ToInt32(n: int): (r: int)
    ensures -0x8000_0000 <= r < 0x8000_0000
    ensures (n - r) % 0x1_0000_0000 == 0
    ensures r == n <==> -0x8000_0000 <= n < 0x8000_0000
  {
    (n + 0x8000_0000) % 0x1_0000_0000 - 0x8000_0000
  }

  datatype Op =
    | InsertJob(job: Job)
    | DeleteJob(id: int)
    | PauseJob(id: int)
    | ResumeJob(id: int)
    | UpdateNextRunTime(id: int, time: int)
    | IncrementRetryCount(id: int)
    | ResetRetryCount(id: int)
    | UpdateJobStatus(id: int, status: Status)
    | UpdateJob(id: int, job: Job)

  datatype Reply = Inserted(id: int) | Changed(ok: bool)

  /** The table: its rows and the AUTOINCREMENT counter. */
  datatype Table = Table(rows: seq<Job>, lastId: nat)

  /** Rowids strictly increase and none exceeds the counter. */
  predicate Ordered(t: Table) {
    && (forall i, j :: 0 <= i < j < |t.rows| ==> t.rows[i].id < t.rows[j].id)
    && (forall i :: 0 <= i < |t.rows| ==> 1 <= t.rows[i].id <= t.lastId)
  }

  /** The row INSERT stores: next_run_time is bound as a 32-bit integer. */
  function Stored(job: Job, id: int): Job {
    job.(id := id, nextRunTime := ToInt32(job.nextRunTime))
  }

  /** The WHERE clause of an UPDATE or DELETE. */
  predicate Hits(op: Op, row: Job) {
    !op.InsertJob? && row.id == op.id && (op.IncrementRetryCount? ==> row.retryCount < row.maxRetries)
  }

  /** The SET clause of an UPDATE. */
  function Effect(op: Op, row: Job): Job {
    match op
    case InsertJob(_) => row
    case DeleteJob(_) => row
    case PauseJob(_) => row.(status := PAUSED)
    case ResumeJob(_) => row.(status := ACTIVE)
    case UpdateNextRunTime(_, time) => row.(nextRunTime := time)
    case IncrementRetryCount(_) => row.(retryCount := row.retryCount + 1)
    case ResetRetryCount(_) => row.(retryCount := 0)
    case UpdateJobStatus(_, status) => row.(status := status)
    case UpdateJob(_, job) => job.(id := row.id)
  }

  /** What one statement makes of one row. */
  function AfterUpdate(op: Op, row: Job): (r: Job)
    ensures r.id == row.id
  {
    if Hits(op, row) then Effect(op, row) else row
  }

  function Updated(rows: seq<Job>, op: Op): (r: seq<Job>)
    ensures |r| == |rows|
    ensures forall i :: 0 <= i < |rows| ==> r[i] == AfterUpdate(op, rows[i])
  {
    if rows == [] then []
    else [AfterUpdate(op, rows[0])] + Updated(rows[1..], op)
  }

  function Without(rows: seq<Job>, id: int): seq<Job> {
    if rows == [] then []
    else (if rows[0].id == id then [] else [rows[0]]) + Without(rows[1..], id)
  }

  /** sqlite3_changes(DB) != 0 */
  predicate SomeHit(rows: seq<Job>, op: Op) {
    exists row :: row in rows && Hits(op, row)
  }

  function Apply(t: Table, op: Op): (Table, Reply) {
    match op
    case InsertJob(job) =>
      (Table(t.rows + [Stored(job, t.lastId + 1)], t.lastId + 1), Inserted(t.lastId + 1))
    case DeleteJob(id) =>
      (t.(rows := Without(t.rows, id)), Changed(SomeHit(t.rows, op)))
    case UpdateJobStatus(_, _) =>
      (t.(rows := Updated(t.rows, op)), Changed(true))
    case _ =>
      (t.(rows := Updated(t.rows, op)), Changed(SomeHit(t.rows, op)))
  }

  /** get_job_by_id */
  function Lookup(rows: seq<Job>, id: int): (r: Option<Job>)
    ensures r.Some? ==> r.value in rows && r.value.id == id
    ensures r.None? ==> forall row :: row in rows ==> row.id != id
  {
    if rows == [] then None
    else if rows[0].id == id then Some(rows[0])
    else Lookup(rows[1..], id)
  }

  /** select_due_jobs */
  function DueJobs(rows: seq<Job>, now: int): seq<Job> {
    if rows == [] then []
    else (if rows[0].status == ACTIVE && rows[0].nextRunTime <= now then [rows[0]] else []) + DueJobs(rows[1..], now)
  }

  // ---------- The repository as the source runs it ----------

  class JobTable {
    var rows: seq<Job>
    var lastId: nat

    function Contents(): Table
      reads this
    {
      Table(rows, lastId)
    }

    constructor ()
      ensures Contents() == Table([], 0) && Ordered(Contents())
    {
      rows := [];
      lastId := 0;
    }

    method Insert(job: Job) returns (id: int)
      modifies this
      ensures (Contents(), Inserted(id)) == Apply(old(Contents()), InsertJob(job))
    {
      lastId := lastId + 1;
      rows := rows + [Stored(job, lastId)];
      id := lastId;
    }

    method Delete(id: int) returns (ok: bool)
      modifies this
      ensures (Contents(), Changed(ok)) == Apply(old(Contents()), DeleteJob(id))
    {
      ok := HasHit(DeleteJob(id));
      rows := Without(rows, id);
    }

    /** Whether a statement would change a row. */
    method HasHit(op: Op) returns (hit: bool)
      ensures hit == SomeHit(rows, op)
    {
      hit := false;
      for i := 0 to |rows|
        invariant hit == exists k :: 0 <= k < i && Hits(op, rows[k])
      {
        hit := hit || Hits(op, rows[i]);
      }
    }

    /** The UPDATE statements that report whether a row changed. */
    method Update(op: Op) returns (ok: bool)
      requires !op.InsertJob? && !op.DeleteJob? && !op.UpdateJobStatus?
      modifies this
      ensures (Contents(), Changed(ok)) == Apply(old(Contents()), op)
    {
      ok := HasHit(op);
      rows := Updated(rows, op);
    }

    method Pause(id: int) returns (ok: bool)
      modifies this
      ensures (Contents(), Changed(ok)) == Apply(old(Contents()), PauseJob(id))
    {
      ok := Update(PauseJob(id));
    }

    method Resume(id: int) returns (ok: bool)
      modifies this
      ensures (Contents(), Changed(ok)) == Apply(old(Contents()), ResumeJob(id))
    {
      ok := Update(ResumeJob(id));
    }

    method Reschedule(id: int, time: int) returns (ok: bool)
      modifies this
      ensures (Contents(), Changed(ok)) == Apply(old(Contents()), UpdateNextRunTime(id, time))
    {
      ok := Update(UpdateNextRunTime(id, time));
    }

    method IncrementRetry(id: int) returns (ok: bool)
      modifies this
      ensures (Contents(), Changed(ok)) == Apply(old(Contents()), IncrementRetryCount(id))
    {
      ok := Update(IncrementRetryCount(id));
    }

    method ResetRetry(id: int) returns (ok: bool)
      modifies this
      ensures (Contents(), Changed(ok)) == Apply(old(Contents()), ResetRetryCount(id))
    {
      ok := Update(ResetRetryCount(id));
    }

    /** update_job_status answers true even when no row has the id. */
    method SetStatus(id: int, status: Status) returns (ok: bool)
      modifies this
      ensures (Contents(), Changed(ok)) == Apply(old(Contents()), UpdateJobStatus(id, status))
    {
      rows := Updated(rows, UpdateJobStatus(id, status));
      ok := true;
    }

    method Execute(op: Op) returns (reply: Reply)
      modifies this
      ensures (Contents(), reply) == Apply(old(Contents()), op)
    {
      hide Apply;
      var ok;
      match op {
        case InsertJob(job) => var id := Insert(job); return Inserted(id);
        case DeleteJob(id) => ok := Delete(id);
        case UpdateJobStatus(id, status) => ok := SetStatus(id, status);
        case _ => ok := Update(op);
      }
      reply := Changed(ok);
    }

    method GetById(id: int) returns (job: Option<Job>)
      ensures job == Lookup(rows, id)
    {
      for i := 0 to |rows|
        invariant Lookup(rows, id) == Lookup(rows[i..], id)
      {
        assert rows[i..][0] == rows[i] && rows[i..][1..] == rows[i + 1..];
        if rows[i].id == id {
          return Some(rows[i]);
        }
      }
      job := None;
    }

    method SelectDue(now: int) returns (jobs: seq<Job>)
      ensures jobs == DueJobs(rows, now)
    {
      jobs := [];
      for i := 0 to |rows|
        invariant jobs + DueJobs(rows[i..], now) == DueJobs(rows, now)
      {
        assert rows[i..][0] == rows[i] && rows[i..][1..] == rows[i + 1..];
        if rows[i].status == ACTIVE && rows[i].nextRunTime <= now {
          jobs := jobs + [rows[i]];
        }
      }
    }
  }
}
