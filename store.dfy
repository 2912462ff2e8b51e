/**
 * The database the routers talk to, reduced to its tables: a resume table is
 * a map from `resumeId` to row, the log table a sequence in insertion order.
 * Resume ids come from an auto-increment counter, log ids are positions in the
 * log table, and timestamps come from one monotonic clock per database.
 */
module Store {
  import opened Common
  import opened Listing
  import opened Audit

  /** A resume table as the database keeps it: keyed, ids below the next one, timestamps in the past. */
  ghost predicate TableValid(rows: map<int, Resume>, nextId: int, clock: int) {
    && Keyed(rows)
    && forall k :: k in rows ==> 1 <= k < nextId && rows[k].createdAt <= rows[k].updatedAt < clock
  }

  /** Storing a row under its own id, created no later than it was updated, at the current time, keeps a table valid as the clock advances. */
  lemma TableValidPut(rows: map<int, Resume>, nextId: int, clock: int, row: Resume, nextId': int)
    requires TableValid(rows, nextId, clock)
    requires 1 <= row.resumeId < nextId' && nextId <= nextId'
    requires row.createdAt <= row.updatedAt == clock
    ensures TableValid(rows[row.resumeId := row], nextId', clock + 1)
  {
  }

  /** The `Resume` and `ResumeLog` tables. */
  class ResumeDb {
    /** The status a new row gets from the schema's default. */
    const initialStatus: Status
    var resumes: map<int, Resume>
    var logs: seq<StatusLog>
    var nextResumeId: int
    var clock: int

    /**
     * Besides the shape of both tables, the audit invariant: the logs of every
     * stored resume form a chain from the initial status to its current one.
     */
    ghost predicate Valid()
      reads this
    {
      && nextResumeId >= 1
      && TableValid(resumes, nextResumeId, clock)
      && LogsValid(logs, nextResumeId, clock)
      && Audited(initialStatus, resumes, logs)
    }

    constructor (initialStatus: Status)
      ensures Valid()
      ensures this.initialStatus == initialStatus && resumes == map[] && logs == []
      ensures nextResumeId == 1 && clock == 0
    {
      this.initialStatus := initialStatus;
      resumes := map[];
      logs := [];
      nextResumeId := 1;
      clock := 0;
    }
  }

  /** The `MyResumes` table of the older router. */
  class MyResumeDb {
    const initialStatus: Status
    var myResumes: map<int, Resume>
    var nextId: int
    var clock: int

    ghost predicate Valid()
      reads this
    {
      nextId >= 1 && TableValid(myResumes, nextId, clock)
    }

    constructor (initialStatus: Status)
      ensures Valid()
      ensures this.initialStatus == initialStatus && myResumes == map[]
      ensures nextId == 1 && clock == 0
    {
      this.initialStatus := initialStatus;
      myResumes := map[];
      nextId := 1;
      clock := 0;
    }
  }
}
