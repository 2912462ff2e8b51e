/**
 * Values shared by the resume routers: the rows of the `Resume`, `MyResumes`
 * and `ResumeLog` tables, the closed set of application statuses, the request
 * inputs as JavaScript sees them, and the outcome of a handler.
 */
module Common {

  /** A request field: `None` stands for `undefined`. */
  datatype Option<+T> = None | Some(value: T)
  {
    /** The value, or `default` for `undefined`: Prisma leaves a field given as `undefined` as it was. */
    function GetOr(default: T): T {
      match this
      case Some(v) => v
      case None => default
    }
  }

  /** JavaScript falsiness of a string field: `!x` holds for `undefined` and `''`. */
  predicate Blank(s: Option<string>) {
    s.None? || s.value == ""
  }

  /** The closed set of statuses a resume can be in. */
  datatype Status = Apply | Drop | Interview1 | Interview2 | FinalPass

  /** The enum value as the database and the request bodies spell it. */
  function Name(s: Status): string {
    match s
    case Apply => "APPLY"
    case Drop => "DROP"
    case Interview1 => "INTERVIEW1"
    case Interview2 => "INTERVIEW2"
    case FinalPass => "FINAL_PASS"
  }

  /** Accepts exactly the five status names, and nothing else. */
  function ParseStatus(s: string): (r: Option<Status>)
    ensures r.Some? ==> Name(r.value) == s
    ensures r.None? ==> forall st: Status :: Name(st) != s
  {
    if s == "APPLY" then Some(Apply)
    else if s == "DROP" then Some(Drop)
    else if s == "INTERVIEW1" then Some(Interview1)
    else if s == "INTERVIEW2" then Some(Interview2)
    else if s == "FINAL_PASS" then Some(FinalPass)
    else None
  }

  /** The status check accepts every status's own name and gives back that status. */
  lemma ParseName(st: Status)
    ensures ParseStatus(Name(st)) == Some(st)
  {
  }

  /** The elements of `s` last to first. */
  function Reverse<T>(s: seq<T>): (r: seq<T>)
    ensures |r| == |s| && forall i :: 0 <= i < |s| ==> r[i] == s[|s| - 1 - i]
  {
    seq(|s|, i requires 0 <= i < |s| => s[|s| - 1 - i])
  }

  datatype Role = Applicant | Recruiter

  /** Direction of an `orderBy: { createdAt: ... }` clause. */
  datatype Order = Asc | Desc

  /** A row of the `Resume` (or `MyResumes`) table; timestamps are ticks of a monotonic clock. */
  datatype Resume = Resume(
    resumeId: int,
    userId: int,
    title: string,
    content: string,
    status: Status,
    createdAt: int,
    updatedAt: int)

  /** A row of the append-only `ResumeLog` table. */
  datatype StatusLog = StatusLog(
    resumeLogId: int,
    recruiterId: int,
    resumeId: int,
    previousStatus: Status,
    status: Status,
    reason: string,
    createdAt: int)

  /** Why a request was answered with 400. */
  datatype Invalid =
    | MissingTitle
    | MissingContent
    | ContentTooShort
    | NothingToEdit
    | EmptyTitle
    | MissingStatus
    | UnknownStatus
    | MissingReason

  /**
   * The outcome of a handler, one variant per HTTP status it answers with:
   * 200, 201, 400, 404, and 500 for an error passed on to `next(err)`.
   */
  datatype Result<+T> = Ok(value: T) | Created(value: T) | BadRequest(why: Invalid) | NotFound | Unexpected
  {
    function Code(): int {
      match this
      case Ok(_) => 200
      case Created(_) => 201
      case BadRequest(_) => 400
      case NotFound => 404
      case Unexpected => 500
    }

    predicate IsFailure() {
      !(Ok? || Created?)
    }

    function PropagateFailure<U>(): Result<U>
      requires IsFailure()
    {
      match this
      case BadRequest(why) => BadRequest(why)
      case NotFound => NotFound
      case Unexpected => Unexpected
    }

    function Extract(): T
      requires !IsFailure()
    {
      value
    }
  }

  /** Shortest resume content either router accepts. */
  const MinContentLength := 150

  /** A title and content that passed the creation checks. */
  datatype Draft = Draft(title: string, content: string)

  /**
   * The checks both routers run before creating a resume, in order: title
   * present, content present, content at least 150 characters long.
   */
  function ValidateCreate(title: Option<string>, content: Option<string>): (v: Result<Draft>)
    ensures v.Ok? <==> !Blank(title) && content.Some? && |content.value| >= MinContentLength
    ensures v.Ok? ==> v.value == Draft(title.value, content.value)
    ensures v == BadRequest(MissingTitle) <==> Blank(title)
    ensures v == BadRequest(MissingContent) <==> !Blank(title) && Blank(content)
    ensures v == BadRequest(ContentTooShort) <==> !Blank(title) && !Blank(content) && |content.value| < MinContentLength
    ensures v.Ok? || v.BadRequest?
  {
    if Blank(title) then BadRequest(MissingTitle)
    else if Blank(content) then BadRequest(MissingContent)
    else if |content.value| < MinContentLength then BadRequest(ContentTooShort)
    else Ok(Draft(title.value, content.value))
  }
}
