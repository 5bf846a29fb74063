/**
 * App\Models\AttendanceModel: recording a scan (with the unique
 * (session_id, student_id) key reporting a second record as `Duplicate
 * entry`), the exists test, a student's statistics and a student's
 * attendance in one course.
 */
module Attendances {
  import opened Wrappers
  import opened Text
  import opened Json
  import opened Sql
  import opened Tables
  import opened Schema
  import opened Sessions

  /** The exceptions recordAttendance lets out: a RuntimeException, or the PDOException itself. */
  datatype Error = DomainError(message: string) | DatabaseError(message: string)

  const AlreadyRecorded: string := "Attendance already recorded for this session"

  /** The `$data` recordAttendance hands to create. */
  function RecordData(sessionId: int, studentId: int, status: string, notes: Option<string>): Fields
  {
    [("session_id", Int(sessionId)), ("student_id", Int(studentId)), ("status", Str(status)),
     ("notes", match notes case Some(n) => Str(n) case None => Null)]
  }

  /** The INSERT recordAttendance runs. */
  function RecordStatement(sessionId: int, studentId: int, status: string, notes: Option<string>): Statement
  {
    CreateStatement("attendance", RecordData(sessionId, studentId, status, notes))
  }

  /**
   * The insert names exactly the four columns, in order, each bound by name
   * to the argument; a missing note is bound as NULL.
   */
  lemma RecordDataSpec(sessionId: int, studentId: int, status: string, notes: Option<string>)
    ensures var d := RecordData(sessionId, studentId, status, notes);
      && KeysOf(d) == ["session_id", "student_id", "status", "notes"]
      && DistinctKeys(d)
      && Get(d, "session_id") == Some(Int(sessionId))
      && Get(d, "student_id") == Some(Int(studentId))
      && Get(d, "status") == Some(Str(status))
      && Get(d, "notes") == Some(if notes.Some? then Str(notes.value) else Null)
    ensures RecordStatement(sessionId, studentId, status, notes).params
      == ByName(RecordData(sessionId, studentId, status, notes))
  {
    var d := RecordData(sessionId, studentId, status, notes);
    IndexOfUnique(d, "session_id", 0);
    IndexOfUnique(d, "student_id", 1);
    IndexOfUnique(d, "status", 2);
    IndexOfUnique(d, "notes", 3);
  }

  /** The catch block: a `Duplicate entry` message becomes the domain error, any other is rethrown. */
  function Translate(message: string): Error
  {
    if Contains(message, "Duplicate entry") then DomainError(AlreadyRecorded) else DatabaseError(message)
  }

  /** A decimal integer, as MySQL prints key values in its messages. */
  function IntText(i: int): string
  {
    if i < 0 then "-" + DecimalString(-i) else DecimalString(i)
  }

  /** The message of MySQL error 1062 for the pair under the unique key `key`. */
  function DuplicateMessage(sessionId: int, studentId: int, key: string): string
  {
    "SQLSTATE[23000]: Integrity constraint violation: 1062 " + "Duplicate entry"
      + (" '" + IntText(sessionId) + "-" + IntText(studentId) + "' for key '" + key + "'")
  }

  function OfPair(sessionId: int, studentId: int): Attendance -> bool
  {
    (a: Attendance) => a.sessionId == sessionId && a.studentId == studentId
  }

  function PairKey(a: Attendance): (int, int)
  {
    (a.sessionId, a.studentId)
  }

  /** attendanceExists: the COUNT(*) of the pair's rows is positive. */
  function AttendanceExists(rows: seq<Attendance>, sessionId: int, studentId: int): (r: bool)
    ensures r <==> exists i :: 0 <= i < |rows| && rows[i].sessionId == sessionId && rows[i].studentId == studentId
  {
    CountWherePositive(rows, OfPair(sessionId, studentId));
    CountWhere(rows, OfPair(sessionId, studentId)) > 0
  }

  /** What recording does to the table: its outcome, the rows after it and the next id. */
  datatype Recorded = Recorded(outcome: Result<bool, Error>, rows: seq<Attendance>, nextId: int)

  /**
   * recordAttendance against the table: `fault` is an error the database
   * reports instead of inserting (a missing session, a lost connection); a
   * pair already present violates the unique key after InnoDB has reserved
   * the next AUTO_INCREMENT id, which is not given back; otherwise the row is
   * appended with the next id and the scan time.
   */
  function Record(rows: seq<Attendance>, nextId: int, key: string, sessionId: int, studentId: int,
                  status: string, notes: Option<string>, scannedAt: int, fault: Option<string>): Recorded
  {
    if fault.Some? then Recorded(Failure(Translate(fault.value)), rows, nextId)
    else if AttendanceExists(rows, sessionId, studentId) then
      Recorded(Failure(Translate(DuplicateMessage(sessionId, studentId, key))), rows, nextId + 1)
    else Recorded(Success(true), rows + [Attendance(nextId, sessionId, studentId, status, notes, scannedAt)], nextId + 1)
  }

  /** A new pair is recorded: true, one row appended, and the pair now exists. */
  lemma RecordNew(rows: seq<Attendance>, nextId: int, key: string, sessionId: int, studentId: int,
                  status: string, notes: Option<string>, scannedAt: int)
    requires !AttendanceExists(rows, sessionId, studentId)
    ensures var r := Record(rows, nextId, key, sessionId, studentId, status, notes, scannedAt, None);
      && r.outcome == Success(true)
      && r.rows == rows + [Attendance(nextId, sessionId, studentId, status, notes, scannedAt)]
      && AttendanceExists(r.rows, sessionId, studentId)
  {
    var r := Record(rows, nextId, key, sessionId, studentId, status, notes, scannedAt, None);
    assert r.rows[|rows|].sessionId == sessionId && r.rows[|rows|].studentId == studentId;
  }

  /**
   * A second record for the pair fails with the domain error and leaves the
   * rows as they were; the id reserved for the rejected insert is used up.
   */
  lemma RecordDuplicate(rows: seq<Attendance>, nextId: int, key: string, sessionId: int, studentId: int,
                        status: string, notes: Option<string>, scannedAt: int)
    requires AttendanceExists(rows, sessionId, studentId)
    ensures Record(rows, nextId, key, sessionId, studentId, status, notes, scannedAt, None)
      == Recorded(Failure(DomainError(AlreadyRecorded)), rows, nextId + 1)
  {
    ContainsInMiddle("SQLSTATE[23000]: Integrity constraint violation: 1062 ", "Duplicate entry",
      " '" + IntText(sessionId) + "-" + IntText(studentId) + "' for key '" + key + "'");
  }

  /**
   * Any other database error leaves the table as it was and is rethrown
   * unchanged, unless its message mentions a duplicate entry.
   */
  lemma RecordFault(rows: seq<Attendance>, nextId: int, key: string, sessionId: int, studentId: int,
                    status: string, notes: Option<string>, scannedAt: int, message: string)
    ensures var r := Record(rows, nextId, key, sessionId, studentId, status, notes, scannedAt, Some(message));
      && r.rows == rows && r.nextId == nextId
      && (Contains(message, "Duplicate entry") ==> r.outcome == Failure(DomainError(AlreadyRecorded)))
      && (!Contains(message, "Duplicate entry") ==> r.outcome == Failure(DatabaseError(message)))
  {
  }

  /** Recording keeps the (session_id, student_id) key unique, and succeeds only for a new pair. */
  lemma RecordKeepsUnique(rows: seq<Attendance>, nextId: int, key: string, sessionId: int, studentId: int,
                          status: string, notes: Option<string>, scannedAt: int, fault: Option<string>)
    requires UniqueBy(rows, PairKey)
    ensures var r := Record(rows, nextId, key, sessionId, studentId, status, notes, scannedAt, fault);
      && UniqueBy(r.rows, PairKey)
      && (r.outcome.Success? <==> fault.None? && !AttendanceExists(rows, sessionId, studentId))
  {
    var r := Record(rows, nextId, key, sessionId, studentId, status, notes, scannedAt, fault);
    if r.rows != rows {
      forall i, j | 0 <= i < j < |r.rows| ensures PairKey(r.rows[i]) != PairKey(r.rows[j]) {
        if j == |rows| {
          assert r.rows[i] == rows[i];
        }
      }
    }
  }

  class AttendanceModel {
    var rows: seq<Attendance>
    var nextId: int
    const uniqueKey: string

    constructor (rows: seq<Attendance>, nextId: int, uniqueKey: string)
      ensures this.rows == rows && this.nextId == nextId && this.uniqueKey == uniqueKey
    {
      this.rows := rows;
      this.nextId := nextId;
      this.uniqueKey := uniqueKey;
    }

    /** recordAttendance: status defaults to `present` and notes to null. */
    method RecordAttendance(sessionId: int, studentId: int, scannedAt: int, fault: Option<string>,
                            status: string := "present", notes: Option<string> := None)
      returns (outcome: Result<bool, Error>)
      modifies this
      ensures Recorded(outcome, rows, nextId)
        == Record(old(rows), old(nextId), uniqueKey, sessionId, studentId, status, notes, scannedAt, fault)
    {
      if fault.Some? {
        return Failure(Translate(fault.value));
      }
      if AttendanceExists(rows, sessionId, studentId) {
        nextId := nextId + 1;
        return Failure(Translate(DuplicateMessage(sessionId, studentId, uniqueKey)));
      }
      rows := rows + [Attendance(nextId, sessionId, studentId, status, notes, scannedAt)];
      nextId := nextId + 1;
      return Success(true);
    }
  }

  function OfStudent(studentId: int): Attendance -> bool
  {
    (a: Attendance) => a.studentId == studentId
  }

  function OnSession(): (Attendance, Session) -> bool
  {
    (a: Attendance, s: Session) => a.sessionId == s.id
  }

  function HasStatus(status: string): ((Attendance, Session)) -> bool
  {
    (r: (Attendance, Session)) => r.0.status == status
  }

  /** getStudentStats' row: SUM over no rows is NULL, COUNT is 0. */
  datatype Stats = Stats(totalSessions: nat, presentCount: Option<nat>, lateCount: Option<nat>,
                         excusedCount: Option<nat>, coursesCount: nat)

  /** The student's attendance rows joined with their sessions. */
  function StudentRows(attendance: seq<Attendance>, sessions: seq<Session>, studentId: int): seq<(Attendance, Session)>
  {
    InnerJoin(Filter(attendance, OfStudent(studentId)), sessions, OnSession())
  }

  function SumWhen(rows: seq<(Attendance, Session)>, status: string): Option<nat>
  {
    if |rows| == 0 then None else Some(CountWhere(rows, HasStatus(status)))
  }

  /**
   * getStudentStats: the present, late and excused counts never exceed the
   * sessions counted, nor do the distinct courses; with no rows the sums are
   * NULL and both counts 0.
   */
  function StudentStats(attendance: seq<Attendance>, sessions: seq<Session>, studentId: int): (r: Stats)
    ensures r.totalSessions == 0 <==> r.presentCount.None?
    ensures r.presentCount.None? <==> r.lateCount.None? && r.excusedCount.None?
    ensures r.presentCount.Some? && r.lateCount.Some? && r.excusedCount.Some? ==>
      r.presentCount.value + r.lateCount.value + r.excusedCount.value <= r.totalSessions
    ensures r.coursesCount <= r.totalSessions
    ensures r.coursesCount == 0 <==> r.totalSessions == 0
  {
    var rows := StudentRows(attendance, sessions, studentId);
    CountDisjoint(rows, HasStatus("present"), HasStatus("late"), HasStatus("excused"));
    var courses := Image(rows, (j: (Attendance, Session)) => j.1.courseId);
    assert |rows| > 0 ==> rows[0] in rows;
    Stats(|rows|, SumWhen(rows, "present"), SumWhen(rows, "late"), SumWhen(rows, "excused"), |courses|)
  }

  function ForCourse(studentId: int, courseId: int): ((Attendance, Session)) -> bool
  {
    (r: (Attendance, Session)) => r.0.studentId == studentId && r.1.courseId == courseId
  }

  function LatestFirst(): ((Attendance, Session), (Attendance, Session)) -> bool
  {
    On(SessionTimeDesc(), (r: (Attendance, Session)) => r.1)
  }

  /**
   * getStudentCourseAttendance: the student's rows whose session belongs to
   * the course, latest session first; exactly the rows the join yields.
   */
  function StudentCourseAttendance(attendance: seq<Attendance>, sessions: seq<Session>, studentId: int, courseId: int)
    : (r: seq<(Attendance, Session)>)
    ensures SortedBy(r, LatestFirst())
    ensures multiset(r) == multiset(Filter(InnerJoin(attendance, sessions, OnSession()), ForCourse(studentId, courseId)))
    ensures forall k :: 0 <= k < |r| ==>
      r[k].0.studentId == studentId && r[k].1.courseId == courseId && r[k].0.sessionId == r[k].1.id
  {
    var joined := InnerJoin(attendance, sessions, OnSession());
    var rows := Filter(joined, ForCourse(studentId, courseId));
    SessionTimeDescIsPreorder();
    OnIsPreorder(SessionTimeDesc(), (r: (Attendance, Session)) => r.1);
    var r := SortBy(rows, LatestFirst());
    forall k | 0 <= k < |r|
      ensures r[k].0.studentId == studentId && r[k].1.courseId == courseId && r[k].0.sessionId == r[k].1.id
    {
      assert r[k] in multiset(rows);
      assert r[k] in rows;
      assert r[k] in joined;
      var m :| 0 <= m < |joined| && joined[m] == r[k];
    }
    r
  }

  /** Every attendance row of the student at a session of the course is listed. */
  lemma StudentCourseAttendanceComplete(attendance: seq<Attendance>, sessions: seq<Session>,
                                        studentId: int, courseId: int, i: nat, j: nat)
    requires i < |attendance| && j < |sessions|
    requires attendance[i].studentId == studentId && attendance[i].sessionId == sessions[j].id
    requires sessions[j].courseId == courseId
    ensures (attendance[i], sessions[j]) in StudentCourseAttendance(attendance, sessions, studentId, courseId)
  {
    InnerJoinComplete(attendance, sessions, OnSession(), i, j);
    var rows := Filter(InnerJoin(attendance, sessions, OnSession()), ForCourse(studentId, courseId));
    assert (attendance[i], sessions[j]) in rows;
    assert (attendance[i], sessions[j]) in multiset(rows);
  }
}
