/**
 * The handlers of `src/routes/recruiter.router.js`: a recruiter moves a
 * resume to another status, recording why in the `ResumeLog` table in the
 * same transaction, and reads back a resume's log. Only recruiters reach
 * these handlers.
 */
module Recruiter {
  import opened Common
  import opened Listing
  import opened Audit
  import opened Store
  import Resumes

  /** A status change request that passed the checks. */
  datatype Change = Change(status: Status, reason: string)

  /**
   * The checks run before any lookup, in order: a status is given, it is one
   * of the five statuses, a reason is given.
   */
  function ValidateChange(status: Option<string>, reason: Option<string>): (v: Result<Change>)
    ensures v.Ok? <==> (exists st :: status == Some(Name(st))) && !Blank(reason)
    ensures v.Ok? ==> status == Some(Name(v.value.status)) && v.value.reason == reason.value
    ensures v == BadRequest(MissingStatus) <==> Blank(status)
    ensures v == BadRequest(UnknownStatus) <==> !Blank(status) && forall st :: Name(st) != status.value
    ensures v == BadRequest(MissingReason) <==> (exists st :: status == Some(Name(st))) && Blank(reason)
    ensures v.Ok? || v.BadRequest?
  {
    if Blank(status) then BadRequest(MissingStatus)
    else
      match ParseStatus(status.value)
      case None => BadRequest(UnknownStatus)
      case Some(st) => if Blank(reason) then BadRequest(MissingReason) else Ok(Change(st, reason.value))
  }

  /**
   * `PATCH /resume/recruiter/:id`. After the checks, 404 when no resume has
   * that id. Otherwise, in one transaction, sets the resume's status and
   * appends one log recording the caller, the status read before the update
   * and the reason. Any status may follow any other. When the database
   * rejects the log insert (`logInsertFails`), the transaction is rolled back
   * and the error passed on: the status update and the log happen together
   * or not at all.
   */
  method ChangeStatus(db: ResumeDb, recruiterId: int, resumeId: int, status: Option<string>, reason: Option<string>,
                      logInsertFails: bool)
    returns (r: Result<StatusLog>)
    requires db.Valid()
    modifies db
    ensures db.Valid()
    ensures r.BadRequest? <==> ValidateChange(status, reason).BadRequest?
    ensures r.BadRequest? ==> ValidateChange(status, reason) == BadRequest(r.why)
    ensures r.NotFound? <==> ValidateChange(status, reason).Ok? && resumeId !in old(db.resumes)
    ensures r.Unexpected? <==> ValidateChange(status, reason).Ok? && resumeId in old(db.resumes) && logInsertFails
    ensures !r.Created?
    ensures !r.Ok? ==> unchanged(db)
    ensures r.Ok? ==>
      var change := ValidateChange(status, reason).value;
      var before := old(db.resumes[resumeId]);
      && r.value == StatusLog(|old(db.logs)| + 1, recruiterId, resumeId, before.status, change.status, change.reason,
                              old(db.clock))
      && db.resumes == old(db.resumes)[resumeId := before.(status := change.status, updatedAt := old(db.clock))]
      && db.logs == old(db.logs) + [r.value]
      && db.nextResumeId == old(db.nextResumeId) && db.clock == old(db.clock) + 1
  {
    var checked := ValidateChange(status, reason);
    if !checked.Ok? {
      return checked.PropagateFailure();
    }
    var change := checked.value;
    // read outside the transaction
    var found := FindFirst(db.resumes, (row: Resume) => row.resumeId == resumeId);
    if found.None? {
      return NotFound;
    }
    var previous := found.value.status;
    // the transaction: update the status, then insert the log
    var saved := db.resumes;
    var updated := found.value.(status := change.status, updatedAt := db.clock);
    db.resumes := db.resumes[resumeId := updated];
    if logInsertFails {
      db.resumes := saved;
      return Unexpected;
    }
    var log := StatusLog(|db.logs| + 1, recruiterId, resumeId, previous, change.status, change.reason, db.clock);
    AuditedAfterChange(db.initialStatus, saved, db.logs, log, updated);
    TableValidPut(saved, db.nextResumeId, db.clock, updated, db.nextResumeId);
    LogsValidAppend(db.logs, db.nextResumeId, db.clock, log);
    db.logs := db.logs + [log];
    db.clock := db.clock + 1;
    r := Ok(log);
  }

  /** `GET /resume/recruiter/:id`: the logs of that resume, newest first. */
  function StatusLogs(logs: seq<StatusLog>, resumeId: int): (r: Result<seq<StatusLog>>)
    requires Chronological(logs)
    ensures r.Ok?
    ensures forall l :: l in r.value <==> l in logs && l.resumeId == resumeId
    ensures forall i, j :: 0 <= i < j < |r.value| ==> r.value[i].createdAt > r.value[j].createdAt
  {
    var trail := LogsFor(logs, resumeId);
    NewestFirst(trail);
    Ok(Reverse(trail))
  }

  /** Read backwards, a chronological trail holds the same logs, strictly newest first. */
  lemma NewestFirst(trail: seq<StatusLog>)
    requires Chronological(trail)
    ensures forall l :: l in Reverse(trail) <==> l in trail
    ensures forall i, j :: 0 <= i < j < |trail| ==> Reverse(trail)[i].createdAt > Reverse(trail)[j].createdAt
  {
    var newest := Reverse(trail);
    var n := |trail|;
    forall l | l in trail
      ensures l in newest
    {
      var p :| 0 <= p < n && trail[p] == l;
      assert newest[n - 1 - p] == l;
    }
    forall i, j | 0 <= i < j < n
      ensures newest[i].createdAt > newest[j].createdAt
    {
      assert trail[n - 1 - j].createdAt < trail[n - 1 - i].createdAt;
    }
  }

  /** Each log of a chain starts from the status the log before it set. */
  lemma {:induction false} ChainLinks(from: Status, trail: seq<StatusLog>, to: Status)
    requires Chain(from, trail, to)
    ensures trail != [] ==> trail[0].previousStatus == from
    ensures forall i :: 0 <= i < |trail| - 1 ==> trail[i + 1].previousStatus == trail[i].status
    decreases |trail|
  {
    if trail != [] {
      ChainLinks(trail[0].status, trail[1..], to);
      forall i | 0 <= i < |trail| - 1
        ensures trail[i + 1].previousStatus == trail[i].status
      {
        if i > 0 {
          assert trail[i + 1] == trail[1..][i] && trail[i] == trail[1..][i - 1];
        }
      }
    }
  }

  /**
   * The log of a resume read newest first replays its history: the newest
   * log set the current status, each log's `previousStatus` is the status the
   * next older log set, and the oldest one starts from `from`.
   */
  lemma TrailReplays(logs: seq<StatusLog>, resumeId: int, from: Status, current: Status)
    requires Chronological(logs) && Chain(from, LogsFor(logs, resumeId), current)
    ensures var ls := StatusLogs(logs, resumeId).value;
      && (ls == [] ==> current == from)
      && (ls != [] ==> ls[0].status == current && ls[|ls| - 1].previousStatus == from)
      && forall i :: 0 <= i < |ls| - 1 ==> ls[i].previousStatus == ls[i + 1].status
  {
    var trail := LogsFor(logs, resumeId);
    var ls := StatusLogs(logs, resumeId).value;
    var n := |trail|;
    ChainLinks(from, trail, current);
    if n > 0 {
      ChainEndsAtLast(from, trail, current);
    }
    forall i | 0 <= i < n - 1
      ensures ls[i].previousStatus == ls[i + 1].status
    {
      assert trail[n - 1 - i].previousStatus == trail[n - 2 - i].status;
    }
  }

  /**
   * An applicant files a resume; a recruiter moves it to the first
   * interview; the log then holds exactly that one change.
   */
  method ReviewScenario() {
    var db := new ResumeDb(Apply);
    var content := seq(150, _ => 'a');
    assert ValidateCreate(Some("Backend Engineer"), Some(content)).Ok?;
    var created := Resumes.Create(db, 7, Some("Backend Engineer"), Some(content));
    var id := created.value.resumeId;
    assert ValidateChange(Some("INTERVIEW1"), Some("passed screening")) == Ok(Change(Interview1, "passed screening"));
    var changed := ChangeStatus(db, 3, id, Some("INTERVIEW1"), Some("passed screening"), false);
    assert changed == Ok(StatusLog(1, 3, id, Apply, Interview1, "passed screening", 1));
    assert db.logs == [changed.value];
    assert LogsFor(db.logs, id) == [changed.value];
    assert StatusLogs(db.logs, id).value == [changed.value];
  }

  /** A change on an id no resume has is refused with 404 and writes nothing. */
  method UnknownResumeScenario() {
    var db := new ResumeDb(Apply);
    var content := seq(150, _ => 'a');
    assert ValidateCreate(Some("Backend Engineer"), Some(content)).Ok?;
    var created := Resumes.Create(db, 7, Some("Backend Engineer"), Some(content));
    assert created.Code() == 201;
    var id := created.value.resumeId;
    assert ValidateChange(Some("DROP"), Some("no such resume")).Ok?;
    var missing := ChangeStatus(db, 3, id + 1, Some("DROP"), Some("no such resume"), false);
    assert missing.Code() == 404 && db.logs == [];
  }
}
