/**
 * The handlers of `src/routes/resumes.router.js` over the `Resume` table:
 * create, list, detail, patch and delete, with role-scoped visibility for
 * the two queries. The caller `(userId, role)` has already been
 * authenticated, and the handlers that require the `APPLICANT` role are only
 * reached by applicants.
 */
module Resumes {
  import opened Common
  import opened Listing
  import opened Audit
  import opened Store

  /** The `userId` condition of the list and detail queries: applicants see their own rows, everyone else every row of a positive owner. */
  predicate Visible(caller: int, role: Role, r: Resume) {
    if role == Applicant then r.userId == caller else r.userId > 0
  }

  /** `createdAt: sort ?? 'desc'`; the database accepts only `'asc'` and `'desc'`. */
  function SortOrder(sort: Option<string>): (o: Option<Order>)
    ensures o == Some(Asc) <==> sort == Some("asc")
    ensures o == Some(Desc) <==> sort.None? || sort == Some("desc")
  {
    match sort
    case None => Some(Desc)
    case Some(s) => if s == "asc" then Some(Asc) else if s == "desc" then Some(Desc) else None
  }

  /** Matches the `status` query string, when there is one. */
  predicate HasStatus(r: Resume, status: Option<string>) {
    status.None? || Name(r.status) == status.value
  }

  /**
   * `GET /resume`: the rows visible to the caller, narrowed to the `status`
   * query when given, ordered by `createdAt` as `sort` says (newest first by
   * default). A `sort` or `status` value the database rejects is an error.
   */
  function List(rows: map<int, Resume>, caller: int, role: Role, sort: Option<string>, status: Option<string>)
    : (res: Result<seq<Resume>>)
    requires Keyed(rows)
    ensures res.Ok? || res.Unexpected?
    ensures res.Ok? <==> SortOrder(sort).Some? && (status.None? || ParseStatus(status.value).Some?)
    ensures res.Ok? ==> forall i :: 0 <= i < |res.value| ==>
              && res.value[i].resumeId in rows && rows[res.value[i].resumeId] == res.value[i]
              && Visible(caller, role, res.value[i]) && HasStatus(res.value[i], status)
    ensures res.Ok? ==>
              forall k :: k in rows && Visible(caller, role, rows[k]) && HasStatus(rows[k], status) ==> rows[k] in res.value
    ensures res.Ok? ==> forall i, j :: 0 <= i < j < |res.value| ==> res.value[i].resumeId != res.value[j].resumeId
    ensures res.Ok? ==> InOrder(res.value, if sort == Some("asc") then Asc else Desc)
  {
    var order := SortOrder(sort);
    if order.None? || (status.Some? && ParseStatus(status.value).None?) then Unexpected
    else
      Ok(FindMany(rows, (r: Resume) => Visible(caller, role, r) && HasStatus(r, status), order.value))
  }

  /** `GET /resume/:id`: the resume with that id when the caller may see it, otherwise 404. */
  function Detail(rows: map<int, Resume>, caller: int, role: Role, id: int): (r: Result<Resume>)
    requires Keyed(rows)
    ensures r.Ok? <==> id in rows && Visible(caller, role, rows[id])
    ensures r.Ok? ==> r.value == rows[id]
    ensures r.Ok? || r.NotFound?
  {
    match FindFirst(rows, (row: Resume) => row.resumeId == id && Visible(caller, role, row))
    case Some(row) => Ok(row)
    case None => NotFound
  }

  /** The detail query finds a resume exactly when the unfiltered list shows it. */
  lemma DetailIffListed(rows: map<int, Resume>, caller: int, role: Role, id: int)
    requires Keyed(rows)
    ensures var listed := List(rows, caller, role, None, None);
      && listed.Ok?
      && (Detail(rows, caller, role, id).Ok? <==> exists r :: r in listed.value && r.resumeId == id)
  {
    var listed := List(rows, caller, role, None, None).value;
    if Detail(rows, caller, role, id).Ok? {
      assert rows[id] in listed && rows[id].resumeId == id;
    }
    if exists r :: r in listed && r.resumeId == id {
      var r :| r in listed && r.resumeId == id;
      var i :| 0 <= i < |listed| && listed[i] == r;
      assert rows[id] == r;
    }
  }

  /**
   * `POST /resume`: after the title and content checks, stores one new resume
   * owned by the caller in the initial status, and answers 201 with it.
   */
  method Create(db: ResumeDb, caller: int, title: Option<string>, content: Option<string>) returns (r: Result<Resume>)
    requires db.Valid()
    modifies db
    ensures db.Valid()
    ensures r.Created? <==> ValidateCreate(title, content).Ok?
    ensures !r.Created? ==> r.BadRequest? && ValidateCreate(title, content) == BadRequest(r.why) && unchanged(db)
    ensures r.Created? ==>
      var row := Resume(old(db.nextResumeId), caller, title.value, content.value, db.initialStatus, old(db.clock), old(db.clock));
      && r.value == row
      && row.resumeId !in old(db.resumes)
      && db.resumes == old(db.resumes)[row.resumeId := row]
      && db.logs == old(db.logs)
      && db.nextResumeId == old(db.nextResumeId) + 1 && db.clock == old(db.clock) + 1
  {
    var draft :- ValidateCreate(title, content);
    var row := Resume(db.nextResumeId, caller, draft.title, draft.content, db.initialStatus, db.clock, db.clock);
    AuditedAfterInsert(db.initialStatus, db.resumes, db.logs, row);
    db.resumes := db.resumes[row.resumeId := row];
    db.nextResumeId := db.nextResumeId + 1;
    db.clock := db.clock + 1;
    r := Created(row);
  }

  /**
   * `PATCH /resume/:id`: 404 unless the caller owns a resume with that id;
   * otherwise sets the title and content that were given and leaves every
   * other column, and every other row, as it was.
   */
  method Patch(db: ResumeDb, caller: int, id: int, title: Option<string>, content: Option<string>)
    returns (r: Result<Resume>)
    requires db.Valid()
    modifies db
    ensures db.Valid()
    ensures r.Ok? <==> Owns(old(db.resumes), caller, id)
    ensures !r.Ok? ==> r.NotFound? && unchanged(db)
    ensures r.Ok? ==>
      var before := old(db.resumes[id]);
      && r.value == before.(title := title.GetOr(before.title), content := content.GetOr(before.content),
                            updatedAt := old(db.clock))
      && db.resumes == old(db.resumes)[id := r.value]
      && db.logs == old(db.logs)
      && db.nextResumeId == old(db.nextResumeId) && db.clock == old(db.clock) + 1
  {
    var found := FindFirst(db.resumes, (row: Resume) => row.userId == caller && row.resumeId == id);
    if found.None? {
      return NotFound;
    }
    var before := found.value;
    var after := before.(title := title.GetOr(before.title), content := content.GetOr(before.content),
                         updatedAt := db.clock);
    AuditedAfterEdit(db.initialStatus, db.resumes, db.logs, id, after);
    db.resumes := db.resumes[id := after];
    db.clock := db.clock + 1;
    r := Ok(after);
  }

  /**
   * `DELETE /resume/:id`: 404 unless the caller owns a resume with that id;
   * otherwise removes exactly that row and answers with the caller's id.
   * No one finds the removed resume afterwards.
   */
  method Delete(db: ResumeDb, caller: int, id: int) returns (r: Result<int>)
    requires db.Valid()
    modifies db
    ensures db.Valid()
    ensures r.Ok? <==> Owns(old(db.resumes), caller, id)
    ensures !r.Ok? ==> r.NotFound? && unchanged(db)
    ensures r.Ok? ==> r.value == caller && db.resumes == old(db.resumes) - {id} && db.logs == old(db.logs)
    ensures r.Ok? ==> db.nextResumeId == old(db.nextResumeId) && db.clock == old(db.clock)
    ensures r.Ok? ==> forall c, role :: Detail(db.resumes, c, role, id).NotFound?
  {
    var found := FindFirst(db.resumes, (row: Resume) => row.userId == caller && row.resumeId == id);
    if found.None? {
      return NotFound;
    }
    AuditedAfterRemove(db.initialStatus, db.resumes, db.logs, id);
    db.resumes := db.resumes - {id};
    r := Ok(caller);
  }
}
