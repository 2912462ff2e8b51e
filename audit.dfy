/**
 * The `ResumeLog` table read as an audit trail: the logs of one resume, in
 * the order they were written, and what it means for that trail to account
 * for every status change the resume went through.
 */
module Audit {
  import opened Common

  /** Every log was written strictly after the one before it. */
  ghost predicate Chronological(logs: seq<StatusLog>) {
    forall i, j :: 0 <= i < j < |logs| ==> logs[i].createdAt < logs[j].createdAt
  }

  /** The logs about resume `resumeId`, oldest first. */
  function LogsFor(logs: seq<StatusLog>, resumeId: int): (trail: seq<StatusLog>)
    ensures forall l :: l in trail <==> l in logs && l.resumeId == resumeId
    ensures Chronological(logs) ==> Chronological(trail)
    ensures |trail| <= |logs|
    decreases |logs|
  {
    if |logs| == 0 then []
    else
      var earlier := logs[..|logs| - 1];
      var last := logs[|logs| - 1];
      assert logs == earlier + [last];
      var trail := LogsFor(earlier, resumeId) + (if last.resumeId == resumeId then [last] else []);
      assert Chronological(logs) ==> Chronological(trail) by {
        if Chronological(logs) {
          forall l | l in earlier
            ensures l.createdAt < last.createdAt
          {
            var p :| 0 <= p < |earlier| && earlier[p] == l;
            assert logs[p] == l;
          }
        }
      }
      trail
  }

  /** Appending a log extends the trail of its own resume and of no other. */
  lemma LogsForAppend(logs: seq<StatusLog>, log: StatusLog, resumeId: int)
    ensures LogsFor(logs + [log], resumeId)
         == LogsFor(logs, resumeId) + (if log.resumeId == resumeId then [log] else [])
  {
    assert (logs + [log])[..|logs|] == logs;
  }

  /** A resume nothing was ever logged about has an empty trail. */
  lemma LogsForNone(logs: seq<StatusLog>, resumeId: int)
    requires forall i :: 0 <= i < |logs| ==> logs[i].resumeId != resumeId
    ensures LogsFor(logs, resumeId) == []
  {
  }

  /**
   * `trail` accounts for every status change from `from` to `to`: each log's
   * `previousStatus` is the status the one before it set, the first one's is
   * `from`, and the last one set `to`.
   */
  predicate Chain(from: Status, trail: seq<StatusLog>, to: Status)
    decreases |trail|
  {
    if trail == [] then from == to
    else trail[0].previousStatus == from && Chain(trail[0].status, trail[1..], to)
  }

  /** A log whose `previousStatus` is the current status extends the chain to its own `status`. */
  lemma {:induction false} ChainExtend(from: Status, trail: seq<StatusLog>, to: Status, log: StatusLog)
    requires Chain(from, trail, to) && log.previousStatus == to
    ensures Chain(from, trail + [log], log.status)
    decreases |trail|
  {
    if trail == [] {
      assert [log][1..] == [];
    } else {
      ChainExtend(trail[0].status, trail[1..], to, log);
      assert (trail + [log])[1..] == trail[1..] + [log];
    }
  }

  /** On a non-empty chain, the last log names the status the chain ends in. */
  lemma {:induction false} ChainEndsAtLast(from: Status, trail: seq<StatusLog>, to: Status)
    requires Chain(from, trail, to) && trail != []
    ensures trail[|trail| - 1].status == to
    decreases |trail|
  {
    if |trail| > 1 {
      ChainEndsAtLast(trail[0].status, trail[1..], to);
    }
  }

  /**
   * The audit invariant of a resume table and its log table: for every stored
   * resume, its logs form a chain from the status new resumes start in to its
   * current status. No status change goes unlogged.
   */
  ghost predicate Audited(initial: Status, rows: map<int, Resume>, logs: seq<StatusLog>) {
    forall k :: k in rows ==> Chain(initial, LogsFor(logs, k), rows[k].status)
  }

  /** A new resume in the initial status, which no log mentions yet, keeps the invariant. */
  lemma AuditedAfterInsert(initial: Status, rows: map<int, Resume>, logs: seq<StatusLog>, row: Resume)
    requires Audited(initial, rows, logs)
    requires row.status == initial
    requires forall i :: 0 <= i < |logs| ==> logs[i].resumeId != row.resumeId
    ensures Audited(initial, rows[row.resumeId := row], logs)
  {
    LogsForNone(logs, row.resumeId);
  }

  /** Rewriting a row without touching its status keeps the invariant. */
  lemma AuditedAfterEdit(initial: Status, rows: map<int, Resume>, logs: seq<StatusLog>, id: int, row: Resume)
    requires Audited(initial, rows, logs)
    requires id in rows && row.status == rows[id].status
    ensures Audited(initial, rows[id := row], logs)
  {
  }

  /** Removing a row keeps the invariant. */
  lemma AuditedAfterRemove(initial: Status, rows: map<int, Resume>, logs: seq<StatusLog>, id: int)
    requires Audited(initial, rows, logs)
    ensures Audited(initial, rows - {id}, logs)
  {
  }

  /**
   * Setting a resume's status and appending a log about it whose
   * `previousStatus` is the status it had, and whose `status` is the one it
   * now has, keeps the invariant.
   */
  lemma AuditedAfterChange(initial: Status, rows: map<int, Resume>, logs: seq<StatusLog>, log: StatusLog, row: Resume)
    requires Audited(initial, rows, logs)
    requires log.resumeId in rows && log.previousStatus == rows[log.resumeId].status
    requires row.status == log.status
    ensures Audited(initial, rows[log.resumeId := row], logs + [log])
  {
    var after := rows[log.resumeId := row];
    forall k | k in after
      ensures Chain(initial, LogsFor(logs + [log], k), after[k].status)
    {
      LogsForAppend(logs, log, k);
      if k == log.resumeId {
        ChainExtend(initial, LogsFor(logs, k), rows[k].status, log);
      } else {
        assert LogsFor(logs, k) + [] == LogsFor(logs, k);
      }
    }
  }

  /** The log table as the store keeps it: numbered in order, about existing resumes, written in time order. */
  ghost predicate LogsValid(logs: seq<StatusLog>, nextResumeId: int, clock: int) {
    && Chronological(logs)
    && forall i :: 0 <= i < |logs| ==>
         && logs[i].resumeLogId == i + 1
         && 1 <= logs[i].resumeId < nextResumeId
         && logs[i].createdAt < clock
  }

  /** Appending the next log, stamped with the current time, and then advancing the clock keeps the log table valid. */
  lemma LogsValidAppend(logs: seq<StatusLog>, nextResumeId: int, clock: int, log: StatusLog)
    requires LogsValid(logs, nextResumeId, clock)
    requires log.resumeLogId == |logs| + 1 && 1 <= log.resumeId < nextResumeId && log.createdAt == clock
    ensures LogsValid(logs + [log], nextResumeId, clock + 1)
  {
    var after := logs + [log];
    assert forall i :: 0 <= i < |logs| ==> after[i] == logs[i];
  }
}
