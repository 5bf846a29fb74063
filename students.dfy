/**
 * App\Models\StudentModel: lookup by student number, listings through the
 * `student_courses` enrolment table, the enrolment upsert, and the
 * condition lists of the attendance and course-rep queries. ORDER BY on a
 * text column sorts by the column's collation, which is the parameter
 * `collate`.
 */
module Students {
  import opened Wrappers
  import opened Text
  import opened Json
  import opened Sql
  import opened Tables
  import opened Schema

  /** How the student lookups read a row's columns. */
  function StudentColumn(s: Student, name: string): Option<Value>
  {
    if name == "student_id" then Some(Str(s.studentId))
    else if name == "id" then Some(Int(s.id))
    else None
  }

  /** findByStudentId: the first student with that student number. */
  function FindByStudentId(students: seq<Student>, studentId: string): Option<Student>
  {
    First(students, (s: Student) => s.studentId == studentId)
  }

  /**
   * The lookup's one condition compares the student number, not the primary
   * key, with the one parameter; the row found carries that number, and none
   * is found only when no row does.
   */
  lemma FindByStudentIdSpec(students: seq<Student>, studentId: string, now: int, s: Student)
    ensures Aligned([Bound("student_id")], [Str(studentId)])
    ensures Satisfies([Bound("student_id")], [Str(studentId)], StudentColumn, now, s) <==> s.studentId == studentId
    ensures var r := FindByStudentId(students, studentId);
      && (r.Some? ==> r.value.studentId == studentId && r.value in students)
      && (r.None? <==> forall i :: 0 <= i < |students| ==> students[i].studentId != studentId)
  {
    SatisfiesOne(Bound("student_id"), [Str(studentId)], StudentColumn, now, s);
    assert StudentColumn(s, "student_id") == Some(Str(s.studentId));
  }

  function EnrollKey(e: Enrollment): (int, int)
  {
    (e.studentId, e.courseId)
  }

  /** `ON DUPLICATE KEY UPDATE status = 'enrolled', enrollment_date = ?`. */
  function Reenroll(date: string): Enrollment -> Enrollment
  {
    (e: Enrollment) => e.(enrollmentDate := date, status := "enrolled")
  }

  /** enrollInCourse against the enrolment table. */
  function Enroll(rows: seq<Enrollment>, studentId: int, courseId: int, date: string): seq<Enrollment>
  {
    Upsert(rows, EnrollKey, (studentId, courseId), Enrollment(studentId, courseId, date, "enrolled"), Reenroll(date))
  }

  /** A row for the pair exists, in any status. */
  predicate AlreadyEnrolled(rows: seq<Enrollment>, studentId: int, courseId: int)
  {
    exists i :: 0 <= i < |rows| && EnrollKey(rows[i]) == (studentId, courseId)
  }

  function OtherPair(studentId: int, courseId: int): Enrollment -> bool
  {
    (e: Enrollment) => EnrollKey(e) != (studentId, courseId)
  }

  /**
   * After enrolling there is exactly one row for the pair, enrolled on the
   * given date whether it existed (perhaps dropped) or not; the key stays
   * unique, and every other row is unchanged.
   */
  lemma EnrollSpec(rows: seq<Enrollment>, studentId: int, courseId: int, date: string)
    requires UniqueBy(rows, EnrollKey)
    ensures var r := Enroll(rows, studentId, courseId, date);
      && UniqueBy(r, EnrollKey)
      && (exists i :: 0 <= i < |r| && EnrollKey(r[i]) == (studentId, courseId))
      && (forall i :: 0 <= i < |r| && EnrollKey(r[i]) == (studentId, courseId) ==>
            r[i] == Enrollment(studentId, courseId, date, "enrolled"))
      && Filter(r, OtherPair(studentId, courseId)) == Filter(rows, OtherPair(studentId, courseId))
  {
    var k := (studentId, courseId);
    var added := Enrollment(studentId, courseId, date, "enrolled");
    UpsertSpec(rows, EnrollKey, k, added, Reenroll(date));
    UpsertOthers(rows, EnrollKey, k, added, Reenroll(date), OtherPair(studentId, courseId));
    var idx := IndexOfKey(rows, EnrollKey, k);
    if idx < |rows| {
      assert EnrollKey(rows[idx]) == k;
      assert Reenroll(date)(rows[idx]) == added;
    }
  }

  /** A re-enrolment adds no row; a first enrolment adds one. */
  lemma EnrollLength(rows: seq<Enrollment>, studentId: int, courseId: int, date: string)
    ensures AlreadyEnrolled(rows, studentId, courseId) ==> |Enroll(rows, studentId, courseId, date)| == |rows|
    ensures !AlreadyEnrolled(rows, studentId, courseId) ==> |Enroll(rows, studentId, courseId, date)| == |rows| + 1
  {
    var idx := IndexOfKey(rows, EnrollKey, (studentId, courseId));
    if idx < |rows| {
      assert EnrollKey(rows[idx]) == (studentId, courseId);
    }
  }

  /** Enrolling twice with the same arguments leaves the table as enrolling once. */
  lemma EnrollIdempotent(rows: seq<Enrollment>, studentId: int, courseId: int, date: string)
    ensures Enroll(Enroll(rows, studentId, courseId, date), studentId, courseId, date)
      == Enroll(rows, studentId, courseId, date)
  {
    UpsertIdempotent(rows, EnrollKey, (studentId, courseId), Enrollment(studentId, courseId, date, "enrolled"), Reenroll(date));
  }

  class StudentModel {
    var enrollments: seq<Enrollment>

    constructor (enrollments: seq<Enrollment>)
      ensures this.enrollments == enrollments
    {
      this.enrollments := enrollments;
    }

    /**
     * enrollInCourse: the upsert, reporting success. `fault` is the message
     * of the PDOException MySQL raises instead (a foreign key or a date it
     * refuses); it leaves the table as it was and propagates.
     */
    method EnrollInCourse(studentId: int, courseId: int, date: string, fault: Option<string>)
      returns (outcome: Result<bool, string>)
      modifies this
      ensures fault.Some? ==> outcome == Failure(fault.value) && enrollments == old(enrollments)
      ensures fault.None? ==>
        outcome == Success(true) && enrollments == Enroll(old(enrollments), studentId, courseId, date)
    {
      if fault.Some? {
        return Failure(fault.value);
      }
      enrollments := Enroll(enrollments, studentId, courseId, date);
      return Success(true);
    }
  }

  /** PHP's truthiness of a nullable integer: null and 0 are false. */
  predicate Truthy(courseId: Option<int>)
  {
    courseId.Some? && courseId.value != 0
  }

  function AttendanceConditions(courseId: Option<int> := None): seq<Condition>
  {
    [Bound("a.student_id")] + if Truthy(courseId) then [Bound("s.course_id")] else []
  }

  function AttendanceParams(studentId: int, courseId: Option<int> := None): seq<Value>
  {
    [Int(studentId)] + if Truthy(courseId) then [Int(courseId.value)] else []
  }

  /** How the attendance query reads a joined (attendance, session, course) row. */
  function AttendanceColumn(row: (Attendance, Session, Course), name: string): Option<Value>
  {
    if name == "a.student_id" then Some(Int(row.0.studentId))
    else if name == "s.course_id" then Some(Int(row.1.courseId))
    else None
  }

  /**
   * attendance: parameters line up with the placeholders, and a row is
   * selected when it is the student's and, for a truthy course id, in that
   * course; a course id of 0 or null filters nothing.
   */
  lemma AttendanceQuerySpec(studentId: int, courseId: Option<int>, now: int, row: (Attendance, Session, Course))
    ensures PlainColumns(AttendanceConditions(courseId))
    ensures Aligned(AttendanceConditions(courseId), AttendanceParams(studentId, courseId))
    ensures Satisfies(AttendanceConditions(courseId), AttendanceParams(studentId, courseId), AttendanceColumn, now, row)
      <==> row.0.studentId == studentId && (!Truthy(courseId) || row.1.courseId == courseId.value)
  {
    var conds := AttendanceConditions(courseId);
    var params := AttendanceParams(studentId, courseId);
    var rest := conds[1..];
    var more := params[1..];
    assert conds == [Bound("a.student_id")] + rest;
    assert params == [Int(studentId)] + more;
    SatisfiesOne(Bound("a.student_id"), [Int(studentId)], AttendanceColumn, now, row);
    SatisfiesAppend([Bound("a.student_id")], rest, [Int(studentId)], more, AttendanceColumn, now, row);
    assert AttendanceColumn(row, "a.student_id") == Some(Int(row.0.studentId));
    if Truthy(courseId) {
      SatisfiesOne(Bound("s.course_id"), more, AttendanceColumn, now, row);
      assert AttendanceColumn(row, "s.course_id") == Some(Int(row.1.courseId));
    }
  }

  function RepConditions(courseId: Option<int> := None): seq<Condition>
  {
    [IsTrue("s.is_rep"), IsTrue("s.is_approved")] + if Truthy(courseId) then [Bound("sc.course_id")] else []
  }

  function RepParams(courseId: Option<int> := None): seq<Value>
  {
    if Truthy(courseId) then [Int(courseId.value)] else []
  }

  /** getCourseReps: the enrolment table is joined only when filtering by course. */
  function RepsStatement(courseId: Option<int> := None): Statement
  {
    var from := if Truthy(courseId) then "SELECT s.* FROM students s JOIN student_courses sc ON s.id = sc.student_id "
                else "SELECT s.* FROM students s ";
    Statement(from + "WHERE " + Join(Texts(RepConditions(courseId)), " AND ") + " ORDER BY s.name", Positional(RepParams(courseId)))
  }

  /** How the course-rep query reads a student row and, when joined, its enrolment row. */
  function RepColumn(row: (Student, Option<Enrollment>), name: string): Option<Value>
  {
    if name == "s.is_rep" then Some(Bool(row.0.isRep))
    else if name == "s.is_approved" then Some(Bool(row.0.isApproved))
    else if name == "sc.course_id" && row.1.Some? then Some(Int(row.1.value.courseId))
    else None
  }

  /**
   * getCourseReps always requires an approved rep; a truthy course id adds
   * an enrolment in that course with its one parameter, whatever the
   * enrolment's status; otherwise nothing is bound.
   */
  lemma RepsQuerySpec(courseId: Option<int>, now: int, row: (Student, Option<Enrollment>))
    ensures PlainColumns(RepConditions(courseId))
    ensures Aligned(RepConditions(courseId), RepParams(courseId))
    ensures !Truthy(courseId) ==> RepParams(courseId) == []
    ensures Satisfies(RepConditions(courseId), RepParams(courseId), RepColumn, now, row)
      <==> && row.0.isRep && row.0.isApproved
           && (Truthy(courseId) ==> row.1.Some? && row.1.value.courseId == courseId.value)
  {
    var conds := RepConditions(courseId);
    var params := RepParams(courseId);
    var none: seq<Value> := [];
    var flags := [IsTrue("s.is_rep"), IsTrue("s.is_approved")];
    var rest: seq<Condition> := if Truthy(courseId) then [Bound("sc.course_id")] else [];
    RepColumnsPlain(courseId);
    assert conds == flags + rest;
    assert params == none + params;
    RepFlagsHold(now, row);
    SatisfiesAppend(flags, rest, none, params, RepColumn, now, row);
    if Truthy(courseId) {
      RepCourseHolds(courseId.value, now, row);
    }
  }

  // The course condition binds the course id and holds on an enrolment in that course.
  lemma RepCourseHolds(courseId: int, now: int, row: (Student, Option<Enrollment>))
    ensures BindCount([Bound("sc.course_id")]) == 1
    ensures Satisfies([Bound("sc.course_id")], [Int(courseId)], RepColumn, now, row)
      <==> row.1.Some? && row.1.value.courseId == courseId
  {
    SatisfiesOne(Bound("sc.course_id"), [Int(courseId)], RepColumn, now, row);
    assert row.1.Some? ==> RepColumn(row, "sc.course_id") == Some(Int(row.1.value.courseId));
    assert row.1.None? ==> RepColumn(row, "sc.course_id") == None;
  }

  lemma RepColumnsPlain(courseId: Option<int>)
    ensures PlainColumns(RepConditions(courseId))
  {
    var conds := RepConditions(courseId);
    assert '?' !in "s.is_rep" && '?' !in "s.is_approved" && '?' !in "sc.course_id";
    forall i | 0 <= i < |conds| ensures '?' !in conds[i].column {
      if i == 2 {
        assert conds[i] == Bound("sc.course_id");
      }
    }
  }

  // The two flag conditions bind nothing and hold on the approved reps.
  lemma RepFlagsHold(now: int, row: (Student, Option<Enrollment>))
    ensures BindCount([IsTrue("s.is_rep"), IsTrue("s.is_approved")]) == 0
    ensures Satisfies([IsTrue("s.is_rep"), IsTrue("s.is_approved")], [], RepColumn, now, row)
      <==> row.0.isRep && row.0.isApproved
  {
    var none: seq<Value> := [];
    assert [IsTrue("s.is_rep"), IsTrue("s.is_approved")] == [IsTrue("s.is_rep")] + [IsTrue("s.is_approved")];
    SatisfiesOne(IsTrue("s.is_rep"), none, RepColumn, now, row);
    SatisfiesOne(IsTrue("s.is_approved"), none, RepColumn, now, row);
    SatisfiesAppend([IsTrue("s.is_rep")], [IsTrue("s.is_approved")], none, none, RepColumn, now, row);
    assert none + none == none;
    assert RepColumn(row, "s.is_rep") == Some(Bool(row.0.isRep));
    assert RepColumn(row, "s.is_approved") == Some(Bool(row.0.isApproved));
  }

  /** A course rep whose enrolment in the course was dropped is still listed. */
  lemma RepsIncludeDropped(courseId: int, now: int, s: Student, date: string)
    requires courseId != 0 && s.isRep && s.isApproved
    ensures Satisfies(RepConditions(Some(courseId)), RepParams(Some(courseId)), RepColumn, now,
                      (s, Some(Enrollment(s.id, courseId, date, "dropped"))))
  {
    RepsQuerySpec(Some(courseId), now, (s, Some(Enrollment(s.id, courseId, date, "dropped"))));
  }

  function EnrolledIn(courseId: int): (Student, Enrollment) -> bool
  {
    (s: Student, e: Enrollment) => s.id == e.studentId && e.courseId == courseId && e.status == "enrolled"
  }

  function StudentsOf(pairs: seq<(Student, Enrollment)>): (r: seq<Student>)
    ensures |r| == |pairs| && forall i :: 0 <= i < |pairs| ==> r[i] == pairs[i].0
  {
    seq(|pairs|, i requires 0 <= i < |pairs| => pairs[i].0)
  }

  function ByName(collate: (string, string) -> bool): (Student, Student) -> bool
  {
    On(collate, (s: Student) => s.name)
  }

  /**
   * findByCourse: the students with an `enrolled` row for the course, ordered
   * by name; exactly those the join yields, each listed student enrolled.
   */
  function FindByCourse(students: seq<Student>, enrollments: seq<Enrollment>, courseId: int,
                        collate: (string, string) -> bool): (r: seq<Student>)
    requires TotalPreorder(collate)
    ensures SortedBy(r, ByName(collate))
    ensures multiset(r) == multiset(StudentsOf(InnerJoin(students, enrollments, EnrolledIn(courseId))))
    ensures forall x :: x in r ==>
      (x in students &&
       exists e :: e in enrollments && e.studentId == x.id && e.courseId == courseId && e.status == "enrolled")
  {
    var pairs := InnerJoin(students, enrollments, EnrolledIn(courseId));
    var listed := StudentsOf(pairs);
    OnIsPreorder(collate, (s: Student) => s.name);
    var r := SortBy(listed, ByName(collate));
    forall x | x in r
      ensures x in students &&
        exists e :: e in enrollments && e.studentId == x.id && e.courseId == courseId && e.status == "enrolled"
    {
      assert x in multiset(listed);
      var m :| 0 <= m < |listed| && listed[m] == x;
      assert EnrolledIn(courseId)(pairs[m].0, pairs[m].1);
    }
    r
  }

  /** Every student with an `enrolled` row for the course is listed. */
  lemma FindByCourseComplete(students: seq<Student>, enrollments: seq<Enrollment>, courseId: int,
                             collate: (string, string) -> bool, i: nat, j: nat)
    requires TotalPreorder(collate)
    requires i < |students| && j < |enrollments|
    requires enrollments[j] == Enrollment(students[i].id, courseId, enrollments[j].enrollmentDate, "enrolled")
    ensures students[i] in FindByCourse(students, enrollments, courseId, collate)
  {
    var pairs := InnerJoin(students, enrollments, EnrolledIn(courseId));
    InnerJoinComplete(students, enrollments, EnrolledIn(courseId), i, j);
    var m :| 0 <= m < |pairs| && pairs[m] == (students[i], enrollments[j]);
    assert StudentsOf(pairs)[m] == students[i];
    assert students[i] in multiset(StudentsOf(pairs));
  }

  function EnrolledCourse(studentId: int): (Course, Enrollment) -> bool
  {
    (c: Course, e: Enrollment) => c.id == e.courseId && e.studentId == studentId && e.status == "enrolled"
  }

  /**
   * courses: the student's `enrolled` courses with their enrolment rows,
   * latest semester first and then by course code.
   */
  function Courses(courses: seq<Course>, enrollments: seq<Enrollment>, studentId: int,
                   collate: (string, string) -> bool): (r: seq<(Course, Enrollment)>)
    requires TotalPreorder(collate)
    ensures SortedBy(r, SemesterThenCode(collate))
    ensures multiset(r) == multiset(InnerJoin(courses, enrollments, EnrolledCourse(studentId)))
    ensures forall k :: 0 <= k < |r| ==>
      r[k].0.id == r[k].1.courseId && r[k].1.studentId == studentId && r[k].1.status == "enrolled"
  {
    var joined := InnerJoin(courses, enrollments, EnrolledCourse(studentId));
    SemesterThenCodeIsPreorder<Enrollment>(collate);
    var r := SortBy(joined, SemesterThenCode(collate));
    forall k | 0 <= k < |r|
      ensures r[k].0.id == r[k].1.courseId && r[k].1.studentId == studentId && r[k].1.status == "enrolled"
    {
      assert r[k] in multiset(joined);
      var m :| 0 <= m < |joined| && joined[m] == r[k];
    }
    r
  }
}
