/**
 * The handlers of `src/routes/resume.router.js`, the older router over the
 * `MyResumes` table. Every handler works on the caller's own resumes only,
 * whatever the caller's role, and the edit handler runs its own checks.
 */
module MyResumes {
  import opened Common
  import opened Listing
  import opened Store

  /**
   * `GET /resume`: the caller's resumes, newest first. The `sort` query is
   * read but has no effect: `'desc' ?? sort.toLowerCase()` is always `'desc'`.
   */
  function List(rows: map<int, Resume>, caller: int, sort: Option<string>): (res: Result<seq<Resume>>)
    requires Keyed(rows)
    ensures res.Ok?
    ensures forall i :: 0 <= i < |res.value| ==>
              res.value[i].resumeId in rows && rows[res.value[i].resumeId] == res.value[i] && res.value[i].userId == caller
    ensures forall k :: Owns(rows, caller, k) ==> rows[k] in res.value
    ensures forall i, j :: 0 <= i < j < |res.value| ==> res.value[i].resumeId != res.value[j].resumeId
    ensures InOrder(res.value, Desc)
  {
    Ok(FindMany(rows, (r: Resume) => r.userId == caller, Desc))
  }

  /**
   * `GET /resume/:id`: the caller's resumes with that id; 404 when there
   * are none, that is when the caller owns no resume with that id.
   */
  function Detail(rows: map<int, Resume>, caller: int, id: int): (r: Result<Resume>)
    requires Keyed(rows)
    ensures r.Ok? <==> Owns(rows, caller, id)
    ensures r.Ok? ==> r.value == rows[id]
    ensures r.Ok? || r.NotFound?
  {
    var mine := FindMany(rows, (row: Resume) => row.userId == caller && row.resumeId == id, Desc);
    if |mine| == 0 then NotFound else Ok(mine[0])
  }

  /** The detail handler finds a resume exactly when the caller's list shows it. */
  lemma DetailIffListed(rows: map<int, Resume>, caller: int, id: int, sort: Option<string>)
    requires Keyed(rows)
    ensures Detail(rows, caller, id).Ok? <==> exists r :: r in List(rows, caller, sort).value && r.resumeId == id
  {
    var listed := List(rows, caller, sort).value;
    if Detail(rows, caller, id).Ok? {
      assert rows[id] in listed && rows[id].resumeId == id;
    }
    if exists r :: r in listed && r.resumeId == id {
      var r :| r in listed && r.resumeId == id;
      var i :| 0 <= i < |listed| && listed[i] == r;
      assert rows[id] == r;
    }
  }

  /** A title and content that passed the edit checks; an absent title is left as it is. */
  datatype Edit = Edit(title: Option<string>, content: string)

  /**
   * The edit checks, in order: something to edit, a title that is not
   * empty, content at least 150 characters long. Content is read without a
   * check that it was given, so a request with a title and no content fails
   * with an unexpected error. Only a request with content of the minimum
   * length and a title that is absent or non-empty passes.
   */
  function ValidateEdit(title: Option<string>, content: Option<string>): (v: Result<Edit>)
    ensures v.Ok? <==> title != Some("") && content.Some? && |content.value| >= MinContentLength
    ensures v.Ok? ==> v.value == Edit(title, content.value)
    ensures v == BadRequest(NothingToEdit) <==> Blank(title) && Blank(content)
    ensures v == BadRequest(EmptyTitle) <==> title == Some("") && !Blank(content)
    ensures v.Unexpected? <==> !Blank(title) && content.None?
    ensures v == BadRequest(ContentTooShort) <==>
              || (!Blank(title) && content.Some? && |content.value| < MinContentLength)
              || (title.None? && !Blank(content) && |content.value| < MinContentLength)
    ensures v.Ok? || v.BadRequest? || v.Unexpected?
  {
    if Blank(title) && Blank(content) then BadRequest(NothingToEdit)
    else if title == Some("") then BadRequest(EmptyTitle)
    else if content.None? then Unexpected
    else if |content.value| < MinContentLength then BadRequest(ContentTooShort)
    else Ok(Edit(title, content.value))
  }

  /** `POST /resume`: the same checks as the newer router, then one new row owned by the caller. */
  method Create(db: MyResumeDb, caller: int, title: Option<string>, content: Option<string>) returns (r: Result<Resume>)
    requires db.Valid()
    modifies db
    ensures db.Valid()
    ensures r.Created? <==> ValidateCreate(title, content).Ok?
    ensures !r.Created? ==> r.BadRequest? && ValidateCreate(title, content) == BadRequest(r.why) && unchanged(db)
    ensures r.Created? ==>
      var row := Resume(old(db.nextId), caller, title.value, content.value, db.initialStatus, old(db.clock), old(db.clock));
      && r.value == row
      && row.resumeId !in old(db.myResumes)
      && db.myResumes == old(db.myResumes)[row.resumeId := row]
      && db.nextId == old(db.nextId) + 1 && db.clock == old(db.clock) + 1
  {
    var draft :- ValidateCreate(title, content);
    var row := Resume(db.nextId, caller, draft.title, draft.content, db.initialStatus, db.clock, db.clock);
    TableValidPut(db.myResumes, db.nextId, db.clock, row, db.nextId + 1);
    db.myResumes := db.myResumes[row.resumeId := row];
    db.nextId := db.nextId + 1;
    db.clock := db.clock + 1;
    r := Created(row);
  }

  /**
   * `PATCH /resume/:id`: the edit checks first, then 404 unless the caller
   * owns a resume with that id; otherwise sets the content, and the title
   * when one was given, leaving every other column and row as it was.
   */
  method Patch(db: MyResumeDb, caller: int, id: int, title: Option<string>, content: Option<string>)
    returns (r: Result<Resume>)
    requires db.Valid()
    modifies db
    ensures db.Valid()
    ensures r.BadRequest? <==> ValidateEdit(title, content).BadRequest?
    ensures r.BadRequest? ==> ValidateEdit(title, content) == BadRequest(r.why)
    ensures r.Unexpected? <==> ValidateEdit(title, content).Unexpected?
    ensures r.NotFound? <==> ValidateEdit(title, content).Ok? && !Owns(old(db.myResumes), caller, id)
    ensures r.Ok? <==> ValidateEdit(title, content).Ok? && Owns(old(db.myResumes), caller, id)
    ensures !r.Ok? ==> unchanged(db)
    ensures r.Ok? ==>
      var before := old(db.myResumes[id]);
      && r.value == before.(title := title.GetOr(before.title), content := content.value, updatedAt := old(db.clock))
      && db.myResumes == old(db.myResumes)[id := r.value]
      && db.nextId == old(db.nextId) && db.clock == old(db.clock) + 1
  {
    var edit :- ValidateEdit(title, content);
    var found := FindFirst(db.myResumes, (row: Resume) => row.userId == caller && row.resumeId == id);
    if found.None? {
      return NotFound;
    }
    var before := found.value;
    var after := before.(title := edit.title.GetOr(before.title), content := edit.content, updatedAt := db.clock);
    TableValidPut(db.myResumes, db.nextId, db.clock, after, db.nextId);
    db.myResumes := db.myResumes[id := after];
    db.clock := db.clock + 1;
    r := Ok(after);
  }

  /**
   * `DELETE /resume/:id`: 404 unless the caller owns a resume with that id;
   * otherwise removes exactly that row and answers with the caller's id.
   */
  method Delete(db: MyResumeDb, caller: int, id: int) returns (r: Result<int>)
    requires db.Valid()
    modifies db
    ensures db.Valid()
    ensures r.Ok? <==> Owns(old(db.myResumes), caller, id)
    ensures !r.Ok? ==> r.NotFound? && unchanged(db)
    ensures r.Ok? ==> r.value == caller && db.myResumes == old(db.myResumes) - {id}
    ensures r.Ok? ==> db.nextId == old(db.nextId) && db.clock == old(db.clock)
    ensures r.Ok? ==> Detail(db.myResumes, caller, id).NotFound?
  {
    var found := FindFirst(db.myResumes, (row: Resume) => row.userId == caller && row.resumeId == id);
    if found.None? {
      return NotFound;
    }
    db.myResumes := db.myResumes - {id};
    r := Ok(caller);
  }
}
