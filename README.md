# Resume recruitment backend, modelled in Dafny

This project models the HTTP handlers of a small recruitment backend. Applicants file resumes. Applicants and
recruiters list and read them. A recruiter moves a resume through its statuses, and each move is recorded in a
log. Three routers make up the core:

- `src/routes/resumes.router.js` holds the `Resume` table handlers: create, list, detail, patch, delete. The
  list and detail queries are scoped by role: an applicant sees only their own resumes; any other role sees
  every resume with a positive owner id.
- `src/routes/resume.router.js` is the older router over the `MyResumes` table. It scopes every handler to the
  caller's own rows and runs its own edit checks.
- `src/routes/recruiter.router.js` handles status changes and the status log. A change updates the resume's
  status and appends one `ResumeLog` row in the same transaction. The log of a resume is read newest first.

The database is reduced to its tables:

- a resume table is a map from `resumeId` to row;
- the log table is a sequence in insertion order;
- resume ids come from an auto-increment counter, and log ids are numbered by position in the log table;
- timestamps come from one monotonic clock per database.

The store is a class (`Store.ResumeDb`, `Store.MyResumeDb`). Its fields are the tables, and the handlers that
write change them in place. Every handler's outcome is a `Result` with one variant per HTTP status it can
answer with: 200, 201, 400, 404, and 500 for an error passed on to `next(err)`. JavaScript `undefined` is
`None`, and JavaScript falsiness of a string field is `Blank`.

The main invariant is the audit trail (`Audit.Audited`). For every stored resume, its logs, oldest first, form
a chain: the chain starts from the status new resumes get, each log's `previousStatus` is the status the log
before it set, and the last log set the resume's current status. Every handler that writes keeps this
invariant, so no status change goes unlogged. `Recruiter.TrailReplays` shows that the newest-first log a
recruiter reads replays the resume's history back to its initial status.

Some behaviour of the older router is modelled exactly as written:

- its list always sorts newest first: `'desc' ?? sort.toLowerCase()` is always `'desc'`, so `sort` has no
  effect;
- its edit handler reads `content.length` without checking that content was given, so a request with a title
  and no content ends in an unexpected error (500).

## Model

| member | source | states |
|---|---|---|
| Common.ValidateCreate | src/routes/resumes.router.js:15-24 | Creation checks, in order: title, then content present, then content at least 150 long. Each 400 reason holds exactly when its check is the first to fail; success returns the given title and content. |
| Common.ParseStatus | src/routes/recruiter.router.js:17-21 | Accepts exactly the five status names and maps each to the status of that name; any other string is rejected. |
| Common.ParseName | src/routes/recruiter.router.js:17-21 | Every status's own name passes the status check and gives back that same status. |
| Listing.OrderedKeys | src/routes/resumes.router.js:83-85 | The keys, each exactly once, ordered by creation time; equal times are ordered by id. |
| Listing.FindMany | src/routes/resumes.router.js:57-86 | A `findMany` with `orderBy: createdAt` returns stored rows the filter keeps, every such row, each once, in the requested order. |
| Listing.FindFirst | src/routes/resumes.router.js:151-156 | A `findFirst` returns a stored row the filter keeps, or nothing exactly when no stored row is kept. |
| Listing.Owns | src/routes/resumes.router.js:151-156 | The owner lookup `findFirst({ where: { userId, resumeId } })` finds a row exactly when a row with that id is stored and belongs to the caller. |
| Resumes.Visible | src/routes/resumes.router.js:59-64 | The role-scoped `userId` condition: an applicant sees only rows they own, any other role sees rows whose owner id is positive. |
| Resumes.HasStatus | src/routes/resumes.router.js:65 | With no status query every row is kept, as Prisma ignores an `undefined` filter; with one, only rows whose status has that name. |
| Resumes.SortOrder | src/routes/resumes.router.js:83-85 | `sort ?? 'desc'`: missing or `desc` sorts newest first, `asc` oldest first, anything else is not a valid order. |
| Resumes.List | src/routes/resumes.router.js:51-96 | Fails (500) exactly when `sort` or `status` is not a value the database accepts. Otherwise returns the visible rows in the asked status, all of them, each once, in the asked order. |
| Resumes.Detail | src/routes/resumes.router.js:98-143 | Returns the stored row exactly when a row has that id and the caller may see it; otherwise 404. |
| Resumes.DetailIffListed | src/routes/resumes.router.js:98-133 | The detail query finds a resume exactly when the caller's unfiltered list contains it. |
| Resumes.Create | src/routes/resumes.router.js:9-49 | 201 exactly when the creation checks pass, with one new row: the next id, owned by the caller, in the initial status. Otherwise the check's 400 and nothing changes. |
| Resumes.Patch | src/routes/resumes.router.js:145-193 | 200 exactly when the caller owns the resume. Sets only the fields given and leaves other columns and rows as they were; otherwise 404 and nothing changes. |
| Resumes.Delete | src/routes/resumes.router.js:195-228 | 200 with the caller's id exactly when the caller owns the resume. Removes exactly that row, after which no caller of any role finds it; otherwise 404 and nothing changes. |
| Recruiter.ValidateChange | src/routes/recruiter.router.js:17-25 | Change checks, in order: status given, status known, reason given. Each 400 reason holds exactly when its check is the first to fail. |
| Recruiter.ChangeStatus | src/routes/recruiter.router.js:11-88 | The 400 reasons of the checks; otherwise 404 exactly when no resume has the id. A rejected log insert rolls the whole transaction back. Success sets the status and appends one log of caller, previous status, new status and reason; the audit invariant is kept. |
| Recruiter.StatusLogs | src/routes/recruiter.router.js:90-129 | Always answers 200. Returns exactly the logs of that resume, strictly newest first. |
| Recruiter.TrailReplays | src/routes/recruiter.router.js:54-61 | Read newest first, a resume's log starts at its current status. Each log's previous status is the status the next older log set, and the oldest log starts from the initial status. |
| Audit.LogsFor | src/routes/recruiter.router.js:95-98 | Exactly the logs about one resume, in time order when the table is. |
| Audit.LogsForAppend | src/routes/recruiter.router.js:54-71 | Inserting a log extends the trail of its own resume and no other. |
| Audit.ChainExtend | src/routes/recruiter.router.js:54-61 | A log whose previous status is the current status extends the chain to the status it sets. |
| Audit.ChainEndsAtLast | src/routes/recruiter.router.js:43-61 | The newest log of a chain set the status the chain ends in. |
| Audit.AuditedAfterChange | src/routes/recruiter.router.js:43-78 | A status update together with its log keeps the audit invariant. |
| Audit.AuditedAfterInsert | src/routes/resumes.router.js:26-39 | A new resume in the initial status keeps the audit invariant. |
| Audit.AuditedAfterEdit | src/routes/resumes.router.js:165-183 | Editing title and content, which leaves the status alone, keeps the audit invariant. |
| Audit.AuditedAfterRemove | src/routes/resumes.router.js:214-219 | Deleting a resume keeps the audit invariant. |
| Audit.LogsValidAppend | src/routes/recruiter.router.js:54-71 | Appending the next numbered log, stamped with the current time, keeps the log table numbered, time-ordered and about existing resumes. |
| Store.TableValidPut | src/routes/resumes.router.js:165-183 | Writing a row under its own id with a current update time keeps the table keyed, with ids below the counter and timestamps in the past. |
| MyResumes.ValidateEdit | src/routes/resume.router.js:165-179 | Edit checks of the older router. 400 when nothing is given, 400 for an empty title, 500 for a title with no content, and 400 for short content. Passes exactly when the title is absent or non-empty and the content is given and long enough. |
| MyResumes.Create | src/routes/resume.router.js:10-54 | 201 exactly when the creation checks pass, with one new row owned by the caller. Otherwise the check's 400 and nothing changes. |
| MyResumes.List | src/routes/resume.router.js:56-97 | Always succeeds, whatever `sort` is. Returns the caller's rows, all of them, each once, newest first. |
| MyResumes.Detail | src/routes/resume.router.js:99-144 | Returns the row exactly when the caller owns a resume with that id; otherwise 404. |
| MyResumes.DetailIffListed | src/routes/resume.router.js:99-134 | The detail finds a resume exactly when the caller's list contains it. |
| MyResumes.Patch | src/routes/resume.router.js:146-224 | The edit checks' 400 or 500 come before any lookup; then 404 unless the caller owns the resume. 200 exactly when the checks pass and the caller owns the resume; success sets the content, and the title if given, leaving the rest as it was. |
| MyResumes.Delete | src/routes/resume.router.js:226-256 | 200 with the caller's id exactly when the caller owns the resume, removing exactly that row, after which the detail answers 404; otherwise 404 and nothing changes. |

## Left out

- Express routing, the authentication and role middlewares, and the Joi body validators are not part of this
  model. The caller's id and role are parameters, and the role-restricted handlers are assumed to be reached
  only by that role.
- The `Users` and `UserInfos` tables and the owner names the queries join in are not modelled. Handlers
  return whole rows, not the selected columns.
- Recruiter.ChangeStatus: the status is read outside the read-committed transaction. A concurrent change
  between that read and the update is not modelled; handlers run one at a time.
- Recruiter.ChangeStatus: failures of the status update itself are not modelled. Only a rejected log insert
  is, through the `logInsertFails` parameter.
- Lengths are counted in characters. JavaScript counts UTF-16 code units.
- A non-numeric `:id` (`+resumeId` is `NaN`) is not modelled: ids are integers.
- `updatedAt` is assumed to be refreshed on every update, as Prisma's `@updatedAt` does. The schema is not part
  of this model.
- The status a new resume starts in, the schema default, is a parameter of the store.
- MyResumes.Detail: assumes the caller's user row exists. The crash on a missing user row is not modelled.
- MyResumes.Delete: has no error handler in the source. A failing delete is not modelled.
- Request body and query fields are assumed to be strings or absent. Express's query parser can produce an
  object, such as `?status[not]=DROP`, which Prisma takes as an enum filter. A JSON body can carry a number as
  `content`, which passes the older router's length check and is then rejected by the database. Resumes.List
  and MyResumes.Patch do not model such inputs.
- Resumes.Create, Resumes.Patch, MyResumes.Create, MyResumes.Patch: database failures other than the ones named
  here are not modelled. In the source, any rejected database call goes to `next(err)` and answers 500. The
  "exactly when" outcomes of these handlers hold only while the database accepts the write.
- Resumes.Delete: assumes that a resume with status logs can be deleted and that its logs remain in the log
  table, as `Audit.Audited` and `Audit.LogsValid` keep them. Whether that happens depends on the `onDelete` rule
  of the log-to-resume relation, and the schema is not part of this model. Under a restricting rule, deleting a
  resume that has logs would answer 500.
- Recruiter.ChangeStatus: a log's id is its position in the log table, so a rolled-back log insert uses up no
  id. A database auto-increment may skip the id of a rolled-back insert.
