# Lecture Log back end — a Dafny model

This project models the core of the Lecture Log attendance API, a small PHP back end. Professors open lecture sessions that carry a QR token. Students scan the token to record their attendance. Enrolments, professor assignments and course listings are kept in MySQL tables. The model covers six parts:

- **Router** (`Routing`, `RoutePath`): a class holding the route table and the current middleware list. It has `add`/`get`/`post`/`put`/`delete`, `middleware` and `group`. `dispatch` takes the first route whose method and path match, runs the route's stored middlewares in order and then its handler, or answers a 404 envelope. `matchPath` is modelled as a matcher over `/`-separated segments; a `{name}` segment captures one non-empty segment.
- **Request normalisation** (`Http`, `Text`): the method and URI canonicalisation. It also covers the header-name folding and the CGI header extraction of section 4.1.18 of RFC 3875. It has the case-insensitive JSON content-type test and the Bearer-token extraction, which is looser than section 2.1 of RFC 6750. It has the query/body lookups with their defaults, and the request constructor as a class.
- **Schema splitter** (`Migrate`): the comment strip and the quote-aware statement splitter of `database/migrate.php`. The splitter is a loop proved against a fold that models it one character at a time.
- **Record mapper** (`Sql`): the SQL text and parameters that `find`, `findAll`, `create`, `update`, `delete` and `count` build, and the `(int)` cast behind `count`. The repositories' WHERE lists are modelled as a small condition language (`Condition`). Its `Satisfies` gives the rows a list selects with its parameters.
- **Repositories** (`Sessions`, `Attendances`, `Students`, `Professors`, `Courses`, over `Schema` and `Tables`): each statement is modelled as an operation on in-memory tables. A table is a sequence of rows. WHERE is a filter, COUNT(*) the filter's length, and ORDER BY a sort under a total preorder. `ON DUPLICATE KEY UPDATE` is an upsert on a unique key.
  - `expireOldSessions` is an in-place loop over an array of sessions.
  - `recordAttendance`, `enrollInCourse` and `assignToCourse` are methods of classes that own their tables.
- **Response envelopes** (`Envelopes`): the `success` and `error` JSON objects, with their default statuses.

The clock (`time()`, `NOW()`, `CURDATE()`, `new DateTime()`) and `random_bytes` become parameters. String ORDER BY keys are compared by a collation parameter that must be a total preorder. Moments are integers. `NOW()` is `now`, and `expires_at` is the instant it parses to.

What the source does, and does not do:

- `create` and `update` use every key of `$data`. No fillable allow-list and no hidden-field stripping is applied anywhere.
- There is no `paginate`.
- A middleware's return value is ignored: it cannot stop dispatch, and every stored middleware runs before the handler. A middleware that throws or exits is not modelled.
- A non-empty `qr_token` supplied to `SessionModel::create` is kept as is.
- Only `recordAttendance` translates a uniqueness violation into a domain error. Every other statement lets the database error through unchanged.

## Model

| member | source | states |
|---|---|---|
| Routing.Router.constructor | api/app/Core/Router.php:7-14 | A new router has no routes and no middlewares, and keeps its request. |
| Routing.Router.Add | api/app/Core/Router.php:19-27 | Appends one route with the upper-cased method, the path and handler, and a snapshot of the current middleware list. Nothing else changes. |
| Routing.Router.Get | api/app/Core/Router.php:32-35 | Appends a GET route with the current middlewares. |
| Routing.Router.Post | api/app/Core/Router.php:40-43 | Appends a POST route with the current middlewares. |
| Routing.Router.Put | api/app/Core/Router.php:48-51 | Appends a PUT route with the current middlewares. |
| Routing.Router.Delete | api/app/Core/Router.php:56-59 | Appends a DELETE route with the current middlewares. |
| Routing.Router.Middleware | api/app/Core/Router.php:64-68 | Appends the middleware to the list used by later routes. Routes already stored are unchanged. |
| Routing.Router.Run | api/app/Core/Router.php:19-78 | Running a registration callback appends exactly the routes `Registered` computes and leaves the middleware list it computes. |
| Routing.Router.Group | api/app/Core/Router.php:73-78 | After a group the middleware list is what it was before. The routes added inside keep the middlewares added inside. |
| Routing.RegisteredSpec | api/app/Core/Router.php:22-25 | Every route a callback registers has an upper-case method, and its middlewares start with the list current when the callback began. The list left behind is the start list plus the callback's own top-level middlewares. |
| Routing.Trace | api/app/Core/Router.php:95-100 | A matched route runs all its stored middlewares, in order, then its handler with the params, and nothing else. |
| Routing.RunRoute | api/app/Core/Router.php:95-100 | The two loops of a matched dispatch call every stored middleware in order and then the handler with the params, which is exactly `Trace`. |
| Routing.ResolveFrom | api/app/Core/Router.php:88-112 | Dispatch picks the first route in registration order with the same method and a matching path, and no earlier route accepts. It answers 404 exactly when no route accepts, with `success=false`, `message='Route not found'` and `path` set to the URI. |
| Routing.ResolveParams | api/app/Core/Router.php:93-100 | The handler's params have exactly the route's placeholder names as keys. Filling them into the route path gives back the URI. |
| Routing.Router.Dispatch | api/app/Core/Router.php:83-113 | Dispatch's outcome is the resolution of the request's method and URI against the stored routes. |
| Routing.MatchPath | api/app/Core/Router.php:118-136 | matchPath succeeds exactly when the route path matches the URI, and then fills exactly the named captures. On failure the params are empty. |
| RoutePath.MatchParamsSound | api/app/Core/Router.php:123-131 | A match binds every placeholder name and only those, each to a non-empty value without `/`. The values filled back into the route give the URI, or the URI without the one trailing newline PCRE's `$` allows. |
| RoutePath.MatchParamsComplete | api/app/Core/Router.php:123-131 | Every assignment of non-empty, slash-free values to a route's distinct placeholders is matched, and is returned as the params. |
| RoutePath.LiteralMatch | api/app/Core/Router.php:123-126 | A route without placeholders matches only its own text (or that text plus the trailing newline `$` admits), with empty params. |
| RoutePath.WholeMatchUnnamed | api/app/Core/Router.php:127-131 | The whole-match capture at position 0 never becomes a param. |
| RoutePath.GroupEntriesNamed | api/app/Core/Router.php:127-131 | The named captures become exactly the placeholder names, each bound to its own segment. |
| RoutePath.FitFills | api/app/Core/Router.php:123-131 | Filling a route with the captures of a URI it fits reproduces that URI's segments. |
| RoutePath.PlaceholderName | api/app/Core/Router.php:123 | A placeholder is a whole segment `{name}` with `name` an identifier `[a-zA-Z_][a-zA-Z0-9_]*`. |
| RoutePath.SplitJoin | api/app/Core/Router.php:123-124 | Splitting a path on `/` and joining it again gives the path back. |
| RoutePath.JoinSplit | api/app/Core/Router.php:123-124 | Joining slash-free segments and splitting again gives the segments back. |
| Http.MethodOf | api/app/Core/Request.php:23-26 | The method is the upper-cased `REQUEST_METHOD`, or `GET` when it is missing. |
| Http.UrlPath | api/app/Core/Request.php:33 | The path is the longest prefix of the request target before any `?` or `#`. |
| Http.CanonicalUriShape | api/app/Core/Request.php:31-35 | The URI always starts with `/`. It never ends with `/` unless it is `/`. Canonicalising it again changes nothing. It is `/` followed by the path with only its leading and trailing slashes removed, so interior `//` remain. |
| Http.RootedIsCanonical | api/app/Core/Request.php:34 | A path with no slash at either end keeps its form under canonicalisation. |
| Http.HeaderKeyEquivalence | api/app/Core/Request.php:72-76 | Two header names fold to the same key exactly when they agree character by character after upper-casing and `-`→`_`. Folding is idempotent and leaves no `-` and no lower-case letter. |
| Http.HeaderKeyExamples | api/app/Core/Request.php:74 | `content-type`, `Content-Type` and `CONTENT_TYPE` fold to `CONTENT_TYPE`. |
| Http.HeaderName | api/app/Core/Request.php:121-125 | A server key yields a header exactly when it starts with `HTTP_` (the prefix is dropped) or is one of `CONTENT_TYPE`, `CONTENT_LENGTH` and `CONTENT_MD5` (kept verbatim). |
| Http.ParseHeaders | api/app/Core/Request.php:116-129 | The foreach over the server parameters builds exactly the header map `HeadersOf` defines. |
| Http.HeadersOfSpec | api/app/Core/Request.php:116-129 | A header is present exactly when some server key maps to it. Its value is that of the last such key. |
| Http.IsJsonTypeSpec | api/app/Core/Request.php:81-85 | Any Content-Type containing `application/json` in any letter case is JSON. A value shorter than that text never is. |
| Http.IsJsonTypeExamples | api/app/Core/Request.php:84 | `application/json` is JSON; `text/plain` and the empty default are not. |
| Http.BearerAt | api/app/Core/Request.php:92-96 | At a position, a token is found exactly when `Bearer` starts there and is followed by at least one whitespace character and then a non-whitespace run. The token is that maximal run. |
| Http.BearerToken | api/app/Core/Request.php:90-97 | The token is the one at the first position where `Bearer` plus whitespace plus a token occurs (the match is unanchored). It is null exactly when no position has one. A token is non-empty and free of whitespace. |
| Http.BearerTokenOfRfc6750 | api/app/Core/Request.php:92-96 | A header `Bearer`, one or more spaces, then a token in the b64token syntax of section 2.1 of RFC 6750, yields exactly that token. |
| Http.Coalesce | api/app/Core/Request.php:40-59 | getQuery/getBody return the stored value when the key is present and not null, and the default otherwise. |
| Http.Request.constructor | api/app/Core/Request.php:12-18 | The request keeps `$_GET` and `$_SERVER`, parses the headers from the server parameters, and takes the body that parseBody gives once those headers are known (the corrected order, see Findings). |
| Http.Request.GetHeader | api/app/Core/Request.php:72-76 | A header lookup reads the folded name's entry, or gives the default when there is none. |
| Http.Request.GetHeaderFolds | api/app/Core/Request.php:74-75 | Names that fold alike read the same header. |
| Http.Request.IsJsonSpec | api/app/Core/Request.php:81-85 | isJson holds exactly when there is a Content-Type header and it is a JSON type. |
| Http.Request.RequestLineSpec | api/app/Core/Request.php:23-35 | The request's URI is canonical and rooted. Its method is upper-case, and `GET` when none is given. |
| Http.BodyParamsAsWritten | api/app/Core/Request.php:12-18 | As written, the constructor's body is always `$_POST`. |
| Http.BodyParamsAsWrittenLosesJson | api/app/Core/Request.php:12-18 | A JSON request with a JSON body still gets an empty body as written, while the corrected order decodes it. |
| Http.BodyParamsSpec | api/app/Core/Request.php:102-111 | With the headers known first, a JSON Content-Type and a non-empty raw body give the decoded body (or `[]` when it does not decode), and anything else gives `$_POST`. |
| Text.TrimCharsShape | api/app/Core/Request.php:34 | `trim` removes exactly the maximal runs of the given characters at both ends and keeps the middle. |
| Text.TrimCharsIdempotent | api/database/migrate.php:67 | Trimming twice is trimming once. |
| Text.ToUpperIsUpper | api/app/Core/Router.php:22 | `strtoupper` leaves no lower-case ASCII letter and is idempotent. |
| Migrate.StripLineCommentsNoHyphens | api/database/migrate.php:43 | After the line-comment strip no `--` remains. |
| Migrate.StripLineCommentsKeepsLines | api/database/migrate.php:43 | The line-comment strip keeps every line feed, since `.*$` stops before it. |
| Migrate.StripLineCommentsNoComment | api/database/migrate.php:43 | Text without `--` is unchanged. |
| Migrate.StripBlockCommentsNoOpening | api/database/migrate.php:44 | Text without `/*` is unchanged by the block-comment strip. |
| Migrate.StripBlockCommentsFirst | api/database/migrate.php:44 | A block comment is removed up to the nearest `*/` (non-greedy). |
| Migrate.SplitStatements | api/database/migrate.php:46-84 | The character loop, with its `inString`/`stringChar` state, yields exactly the statements the fold `Statements` defines. |
| Migrate.PrepareStatements | api/database/migrate.php:43-84 | Comment stripping and then splitting yields the statements of the stripped text. |
| Migrate.StatementsClean | api/database/migrate.php:67-84 | Every statement is non-empty in PHP's sense and has no leading or trailing whitespace. |
| Migrate.StatementsTerminated | api/database/migrate.php:64-71 | Every statement except possibly the last ends with `;`. |
| Migrate.StatementsShape | api/database/migrate.php:52-79 | The untrimmed pieces concatenated give the input exactly. The statements are those pieces trimmed, with the empty ones dropped. |
| Migrate.StatementsCount | api/database/migrate.php:66-79 | There are at most as many statements as semicolons outside strings, plus one. |
| Migrate.StatementsUncut | api/database/migrate.php:66-79 | An input without a semicolon outside strings yields no statement or just its trim. |
| Migrate.SemicolonInString | api/database/migrate.php:66 | A `;` inside an open string never ends a statement. |
| Migrate.EscapedQuote | api/database/migrate.php:55 | A quote after a backslash does not change the string state. |
| Migrate.OtherQuoteInString | api/database/migrate.php:55-61 | A quote of the other kind inside a string does not close it. |
| Migrate.QuoteToggles | api/database/migrate.php:55-61 | An unescaped quote opens a string when none is open, and the same quote closes it. |
| Migrate.KeepNonEmpty | api/database/migrate.php:82-84 | array_filter keeps only statements whose trim is non-empty. |
| Json.PutProperties | api/app/Core/Model.php:70 | After `$data[$k] = $v` the key reads `$v` and every other key reads as before. An existing key keeps its place, a new key goes last, and keys stay distinct. |
| Sql.WhereClauseSpec | api/app/Core/Model.php:33-36 | The WHERE fragment is empty exactly for no conditions, and otherwise is `WHERE ` and the conditions joined with ` AND `, in order. Appending a condition appends ` AND ` and it. Each condition occurs in it. |
| Sql.FindBindsId | api/app/Core/Model.php:21-26 | find has exactly one placeholder, on the primary key, and binds exactly the id. |
| Sql.DeleteBindsId | api/app/Core/Model.php:80-84 | delete has exactly one placeholder, on the primary key, and binds exactly the id. |
| Sql.FindAllHoles | api/app/Core/Model.php:31-42 | findAll over plain condition columns and as many parameters as the conditions bind holds exactly one `?` per parameter, and executes with exactly those parameters. |
| Sql.CountHoles | api/app/Core/Model.php:89-98 | count, over the same conditions and parameters, holds exactly one `?` per parameter and binds exactly those parameters. |
| Sql.FindAllCountShareWhere | api/app/Core/Model.php:31-101 | findAll and count share the same FROM and WHERE and differ only in what they select. |
| Sql.PlaceholderListSpec | api/app/Core/Model.php:49-50 | The placeholder list is each column prefixed with `:`, in the column list's order. With no keys the columns are empty and the placeholders are `:`. |
| Sql.CreateStatementSpec | api/app/Core/Model.php:47-57 | The INSERT names every key of `$data` in order, with one `:key` placeholder each, and binds `$data` by name. No allow-list is applied. |
| Sql.BuildUpdate | api/app/Core/Model.php:62-75 | The SET clause is `col = :col` for every data key, joined by `, `. The bound map is `$data` with `id` set to the target id: an existing `id` is overridden in place, or `id` is appended. No other key changes. |
| Sql.DecimalRoundTrip | api/app/Core/Model.php:101 | The decimal text of a count reads back as that count. |
| Sql.CountResultOfCount | api/app/Core/Model.php:101 | A `count` column holding an integer, or its decimal text, casts to that integer. |
| Sql.CountResultFallback | api/app/Core/Model.php:101 | No row, a row without `count`, or a null `count` gives 0. |
| Sql.DigitRun | api/app/Core/Model.php:101 | The `(int)` cast reads the maximal leading run of digits. |
| Sql.TextsHoles | api/app/Core/Model.php:35 | A condition list renders with exactly one `?` per parameter it binds. |
| Sql.SatisfiesAppend | api/app/Core/Model.php:35 | Condition lists joined by AND select the rows both halves select, each half reading its own share of the parameters. |
| Sessions.HexEncode | api/app/Models/SessionModel.php:34 | bin2hex gives two lower-case hex digits per byte. |
| Sessions.HexRoundTrip | api/app/Models/SessionModel.php:34 | Decoding the hex of any bytes gives the bytes back (base16 of section 8 of RFC 4648, lower-case alphabet). |
| Sessions.HexDecodeCanonical | api/app/Models/SessionModel.php:34 | Hex that decodes is exactly the encoding of what it decodes to. |
| Sessions.GenerateQrToken | api/app/Models/SessionModel.php:32-35 | A token from 32 random bytes is 64 lower-case hex characters and decodes back to those bytes. |
| Sessions.WithTokenSpec | api/app/Models/SessionModel.php:19-27 | A non-empty supplied `qr_token` is passed through unchanged. A missing or PHP-empty one is replaced by the generated token, and every other key is unchanged. |
| Sessions.CreateSessionSpec | api/app/Models/SessionModel.php:19-27 | create binds the data by name. `qr_token` is the supplied value when that is not empty, and otherwise the token generated from the random bytes, with every other key as supplied. The INSERT always names `qr_token` and binds a non-empty token. |
| Sessions.GetByCourseSpec | api/app/Models/SessionModel.php:63-74 | getByCourse binds only the course id, to its one placeholder. It selects a row exactly when the row is of that course and, with `activeOnly`, when isSessionActive holds for it at the same instant. |
| Sessions.FindByQrTokenSpec | api/app/Models/SessionModel.php:40-43 | The lookup binds the token to one equality. The row found carries the token, and none is found only when no row does. |
| Sessions.SweepSpec | api/app/Models/SessionModel.php:48-119 | The sweep clears `is_active` on exactly the active rows whose expiry has passed, and leaves every other row unchanged. Afterwards no row is both active and expired. isSessionActive at that instant is unchanged for every row. |
| Sessions.SweepIdempotent | api/app/Models/SessionModel.php:113-119 | A second sweep at the same instant changes nothing and finds no row to change. |
| Sessions.ExpireOldSessions | api/app/Models/SessionModel.php:111-120 | The in-place loop leaves the array equal to the sweep of its old contents. It returns the number of rows that were active and expired. |
| Sessions.SessionTimeDescIsPreorder | api/app/Models/CourseModel.php:85 | `session_date DESC, start_time DESC` is a total preorder, so sorting by it is well defined. |
| Sessions.AttendanceCount | api/app/Models/SessionModel.php:96-106 | The count is at most the table size, and 0 exactly when no row has that session. |
| Sessions.AttendanceList | api/app/Models/SessionModel.php:79-91 | getAttendance returns the session's attendance rows joined with their students, each exactly as often as the join has it, latest scan first. |
| Attendances.RecordDataSpec | api/app/Models/AttendanceModel.php:17-26 | The insert carries exactly `session_id`, `student_id`, `status` and `notes`, in that order, with the given values (null notes as NULL), bound by name. |
| Attendances.AttendanceModel.RecordAttendance | api/app/Models/AttendanceModel.php:17-36 | Recording with status defaulting to `present` and notes to null changes the table, the next id and the outcome exactly as `Record` defines. |
| Attendances.RecordNew | api/app/Models/AttendanceModel.php:26-28 | A new pair is recorded: true, one row appended, and attendanceExists now holds for the pair. |
| Attendances.RecordDuplicate | api/app/Models/AttendanceModel.php:27-33 | A second record for a pair fails with `Attendance already recorded for this session` and leaves the rows unchanged. The AUTO_INCREMENT id InnoDB reserved for the rejected insert is used up. |
| Attendances.RecordFault | api/app/Models/AttendanceModel.php:29-35 | A database error containing `Duplicate entry` becomes the domain error. Any other is rethrown with its own message. The rows and the next id are unchanged. |
| Attendances.RecordKeepsUnique | api/app/Models/AttendanceModel.php:17-36 | Recording keeps (session_id, student_id) unique. It succeeds exactly when the database reports no error and the pair was absent. |
| Attendances.AttendanceExists | api/app/Models/AttendanceModel.php:41-51 | attendanceExists holds exactly when some row has both the session id and the student id. |
| Attendances.StudentStats | api/app/Models/AttendanceModel.php:73-88 | Over zero rows the three SUMs are NULL and otherwise all present. Present, late and excused add up to at most the total, and the distinct courses are at most the total. The course count is 0 exactly when the total is 0. |
| Attendances.StudentCourseAttendance | api/app/Models/AttendanceModel.php:56-68 | The result is the student's attendance rows whose session is in the course, joined with the session, each as often as the join has it, ordered by session date then start time, both descending. |
| Attendances.StudentCourseAttendanceComplete | api/app/Models/AttendanceModel.php:56-68 | Every attendance row of the student on a session of the course is in the result. |
| Students.FindByStudentIdSpec | api/app/Models/StudentModel.php:18-21 | The lookup compares the external `student_id`, not the primary key, with its one parameter. The row found carries it, and none is found only when no row does. |
| Students.EnrollSpec | api/app/Models/StudentModel.php:93-101 | After enrolling there is exactly one (student, course) row, with status `enrolled` and the given date, whether or not it existed. The key stays unique and every other row is unchanged. |
| Students.EnrollLength | api/app/Models/StudentModel.php:95-97 | Re-enrolling overwrites the row. A first enrolment adds exactly one. |
| Students.EnrollIdempotent | api/app/Models/StudentModel.php:95-100 | Enrolling twice with the same arguments leaves the table as enrolling once. |
| Students.StudentModel.EnrollInCourse | api/app/Models/StudentModel.php:93-101 | Without a database fault the method replaces the enrolment table by the upsert and returns true. A fault (the PDOException of `ERRMODE_EXCEPTION`) propagates its message and leaves the table as it was. |
| Students.AttendanceQuerySpec | api/app/Models/StudentModel.php:65-88 | The conditions bind as many params as they have placeholders. A row is selected exactly when it is the student's and, only for a truthy course id (0 and null are not), its session is in that course. |
| Students.RepsQuerySpec | api/app/Models/StudentModel.php:106-128 | Reps are always required to be reps and approved. A truthy course id adds one condition with one param; otherwise there are no params. |
| Students.RepsIncludeDropped | api/app/Models/StudentModel.php:108-123 | With a course id, an approved rep whose enrolment in that course is `dropped` is still listed. |
| Students.FindByCourse | api/app/Models/StudentModel.php:26-44 | The result is the course's students with an `enrolled` row, each as often as the join has it, ordered by name. |
| Students.FindByCourseComplete | api/app/Models/StudentModel.php:28-31 | Every student with an `enrolled` row for the course is listed. |
| Students.StudentsOf | api/app/Models/StudentModel.php:28 | `SELECT s.*` keeps the student half of each joined row, in order. |
| Students.Courses | api/app/Models/StudentModel.php:49-60 | The result is the student's `enrolled` courses with their enrolment rows, each as often as the join has it, latest semester first and then by course code. |
| Schema.SemesterThenCodeIsPreorder | api/app/Models/StudentModel.php:55 | `semester DESC, course_code` is a total preorder for any collation that is one. |
| Professors.FindByProfessorIdSpec | api/app/Models/ProfessorModel.php:17-20 | The lookup compares the external `professor_id` with its one parameter. The row found carries it, and none is found only when no row does. |
| Professors.AssignSpec | api/app/Models/ProfessorModel.php:41-49 | After assigning there is exactly one (professor, course) row, with the role and today's date. The key stays unique and every other row is unchanged. |
| Professors.AssignLength | api/app/Models/ProfessorModel.php:43-45 | A re-assignment overwrites and adds no row. A first assignment adds exactly one. |
| Professors.AssignIdempotent | api/app/Models/ProfessorModel.php:45 | Repeating an assignment with the same role on the same day leaves the table the same. |
| Professors.ProfessorModel.AssignToCourse | api/app/Models/ProfessorModel.php:41-49 | With role defaulting to `instructor` and no database fault, the method replaces the assignment table by the upsert and returns true. A fault propagates its message and leaves the table as it was. |
| Professors.IsAssignedToCourse | api/app/Models/ProfessorModel.php:54-64 | isAssignedToCourse holds exactly when some (professor, course) row exists. |
| Professors.AssignedAfterAssign | api/app/Models/ProfessorModel.php:43-63 | After any assignToCourse for the pair, isAssignedToCourse holds for it. |
| Professors.Courses | api/app/Models/ProfessorModel.php:25-36 | The result is the professor's courses with their assignment rows, each as often as the join has it, latest semester first and then by course code. |
| Courses.FindByCodeSpec | api/app/Models/CourseModel.php:17-20 | The lookup binds one param to one equality on the code. The row found carries the code, and none is found only when no row does. |
| Courses.FindBySemesterSpec | api/app/Models/CourseModel.php:25-28 | The query binds exactly the semester to one equality. The result keeps every course of that semester, as often as the table has it, and no other. |
| Courses.GetActiveCoursesSpec | api/app/Models/CourseModel.php:33-36 | The single condition `is_active = TRUE` binds nothing. The result keeps exactly the active courses, with their multiplicities. |
| Courses.GetEnrollmentCount | api/app/Models/CourseModel.php:41-51 | The count is at most the table size, and 0 exactly when the course has no `enrolled` row. |
| Courses.EnrollmentCountAppend | api/app/Models/CourseModel.php:43-44 | A new `enrolled` row of the course adds one. A dropped row, or a row of another course, adds nothing. |
| Courses.CourseSessionsSpec | api/app/Models/CourseModel.php:72-90 | sessions binds only the course id. It selects a row exactly when the row is of the course and, with `activeOnly`, has its active flag set. Expiry is never tested. |
| Courses.CourseSessionsText | api/app/Models/CourseModel.php:74-85 | sessions sends its own SELECT on `sessions`: the WHERE fragment of its conditions joined by ` AND `, then `ORDER BY session_date DESC, start_time DESC`. |
| Courses.CourseSessionsHoles | api/app/Models/CourseModel.php:74-88 | That statement holds exactly one `?` and executes with exactly `[$courseId]`. |
| Courses.ActiveSessionsDisagree | api/app/Models/CourseModel.php:74-79 | A session whose flag is set but whose expiry has passed is listed by CourseModel's sessions and not by SessionModel's getByCourse. |
| Courses.CourseSessions | api/app/Models/CourseModel.php:83-89 | The result is the selected sessions, each as often as the table has it, ordered by session date then start time, both descending. |
| Courses.Professors | api/app/Models/CourseModel.php:56-67 | The result is the course's professors with their assignment rows, each as often as the join has it, ordered by role and then name. |
| Courses.RoleThenNameIsPreorder | api/app/Models/CourseModel.php:62 | `pc.role, p.name` is a total preorder for any collation that is one. |
| Tables.UpsertSpec | api/app/Models/ProfessorModel.php:43-45 | Under a unique key, an upsert leaves the key unique. Afterwards the key's row exists, and it is the updated old row or the inserted one. |
| Tables.UpsertOthers | api/app/Models/StudentModel.php:95-97 | An upsert leaves every row of another key unchanged, in order. |
| Tables.UpsertIdempotent | api/app/Models/StudentModel.php:95-97 | An upsert whose update is idempotent and fixes the inserted row is idempotent. |
| Tables.SortBy | api/app/Models/CourseModel.php:62 | ORDER BY returns the same rows (as a multiset), sorted by the preorder. |
| Tables.CountWherePositive | api/app/Models/ProfessorModel.php:63 | `COUNT(*) > 0` holds exactly when some row satisfies the condition. |
| Tables.First | api/app/Models/StudentModel.php:20 | The first matching row is a matching row of the table, and there is none only when no row matches. |
| Tables.InnerJoin | api/app/Models/StudentModel.php:28-29 | Every joined row pairs a left row with a right row and satisfies the ON condition. |
| Tables.InnerJoinComplete | api/app/Models/StudentModel.php:28-29 | Every pair of rows satisfying the ON condition is in the join. |
| Envelopes.Success | api/app/Controllers/Controller.php:28-36 | The success envelope has exactly the keys `success`, `message`, `data` and `timestamp`. `success` is true, `data` is passed through unchanged, and the given status is forwarded. |
| Envelopes.Error | api/app/Controllers/Controller.php:41-49 | The error envelope has exactly the keys `success`, `message`, `errors` and `timestamp`. `success` is false, and the given status is forwarded. |
| Envelopes.DefaultStatus | api/app/Controllers/Controller.php:28-41 | Left to their defaults, success answers 200 with null data and error answers 400 with null errors. |
| Envelopes.EnvelopesDisjoint | api/app/Controllers/Controller.php:30-48 | No envelope carries both `data` and `errors`. Each has its keys once, and the two kinds never coincide. |

## Left out

- The execution of SQL by PDO/MySQL is not modelled: connections, `prepare`/`execute`, `lastInsertId`, `rowCount`, transactions, and `Database.php` and `DatabaseConfig.php`. Statements are modelled as the text and parameters they carry, and as operations on in-memory tables.
- `getCourseReport` (AttendanceModel.php:93-115) is left out. It rests on floating-point `ROUND(... * 100.0 / ...)` and on MySQL's division by zero giving NULL.
- `AdminModel.php` is not part of this model. It delegates to `password_hash`/`password_verify`, and the rest is lookups and a `NOW()` update.
- `findOne` and `loadRelationships` are called but defined in no file of the repository. The lookups are modelled as the query they build plus "the first matching row". The `$with` relationships of `findByCourse` are not modelled.
- `random_bytes`, `time()`, `NOW()`, `CURDATE()` and `new DateTime()` are parameters.
- `json_encode`/`json_decode`, `parse_url`, `file_get_contents('php://input')`, `http_response_code`, `header`, `echo` and `exit` are I/O. `Controller::json` and `Controller::getRequestBody` are therefore represented only by the Response value and by the decoded body passed in.
- `Http.UrlPath`: parse_url's path is modelled as the part of the target before the first `?` or `#`. Authority parts and malformed URLs are not modelled.
- `Routing.MatchPath`: route paths are modelled as literal segments and whole-segment `{name}` placeholders. Regex metacharacters in a route path, and a placeholder inside a segment, are not modelled. Duplicate placeholder names, which make the PCRE pattern fail to compile, give no match.
- `Sql.StringToInt`: the `(int)` cast is modelled on a leading sign and digits. Exponent and float strings are not modelled; a count never has them.
- `Sessions.IsSessionActive`: `expires_at` is modelled as the integer instant it parses to. Date-time text and its parsing are not modelled.
- `Students.AttendanceQuerySpec` and `Students.RepsQuerySpec` model the conditions, the parameters and the rows they select. The selected columns, the joins' row multiplicities and the ORDER BY of `attendance` and `getCourseReps` are not modelled.
- `Attendances.DuplicateMessage`: MySQL's 1062 message is modelled in the form `Duplicate entry '<session>-<student>' for key '<key>'`. The key name is a parameter of the model.
- The unique keys on (session_id, student_id), (student_id, course_id) and (professor_id, course_id) are assumed, as a `UniqueBy` precondition or by the duplicate check, because `schema.sql` is not part of this model.
- Calendar dates that are only stored (`enrollment_date`, `assigned_date`) are text. Session dates and times are integers that order as they do.
- `Sessions.FindByQrTokenSpec`: text `=` in a WHERE condition is modelled as exact, binary comparison. Under the case-insensitive default collations of the utf8mb4 connection, MySQL also finds the session for an upper-case spelling of its token, and then the row found does not carry the supplied text.
- `Students.FindByStudentIdSpec`: text `=` is modelled as exact comparison. MySQL's case-insensitive default collation also matches other spellings of the student number, so the row found may differ from it in case.
- `Professors.FindByProfessorIdSpec`: text `=` is modelled as exact comparison. MySQL's case-insensitive default collation also matches other spellings of the professor id.
- `Courses.FindByCodeSpec`: text `=` is modelled as exact comparison. MySQL's case-insensitive default collation finds `CS101` for `cs101`, which the model does not.
- `Courses.FindBySemesterSpec`: text `=` is modelled as exact comparison. MySQL's case-insensitive default collation also selects courses whose semester differs only in case.
- `Sessions.AttendanceList`: the listing returns whole (attendance, student) pairs; the projection into one associative row is not modelled. In that row, with `FETCH_ASSOC`, the later `s.student_id` overwrites `a.student_id`, so every row's `student_id` is the student number and the attendance row's foreign key is not returned. The other join listings (`Attendances.StudentCourseAttendance`, `Students.Courses`, `Professors.Courses`, `Courses.Professors`) also return pairs, and their column projection is not modelled either.
- `Attendances.RecordFault`: a database fault keeps the next id. A fault raised after InnoDB reserved an AUTO_INCREMENT value, such as a foreign-key rejection, uses that id up in MySQL. A fault raised before the insert, such as a lost connection, does not. The model does not tell the two apart.
- String ORDER BY uses a collation parameter (a total preorder). MySQL's collations themselves are not modelled. Rows equal under the ORDER BY may come out in any order.
- Seed, populate and test scripts, `routes.php`, `public/index.php`, `HomeController.php`, and the config classes are not part of this model. They are fixed data, bootstrap and environment lookups.
- The `exec` loop of `migrate.php` (lines 88-98) and reading the schema file are I/O.
- Fillable allow-lists, hidden fields and pagination are not implemented by the source, so the model has none.

## Findings

| source | as written | input that shows it | evidently intended | confidence | as-written member | corrected member |
|---|---|---|---|---|---|---|
| api/app/Core/Request.php:14-17 | The constructor calls `parseBody()` before it assigns `$this->headers`. `isJson()` then reads the uninitialised property through `??` and finds no Content-Type, so a JSON body is never decoded and `bodyParams` is always `$_POST`. | `CONTENT_TYPE: application/json` with body `{"name":"Ada"}` and empty `$_POST`: the body params are empty. | Parse the server parameters and headers first, so a JSON body is decoded. | not executed | Http.BodyParamsAsWritten, Http.BodyParamsAsWrittenLosesJson | Http.BodyParams, Http.BodyParamsSpec |
