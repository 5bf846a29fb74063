/**
 * App\Models\CourseModel: lookups by code and semester, the active list, the
 * enrolment count, the course's professors and its sessions.
 */
module Courses {
  import opened Wrappers
  import opened Text
  import opened Json
  import opened Sql
  import opened Tables
  import opened Schema
  import opened Sessions

  function CourseColumn(c: Course, name: string): Option<Value>
  {
    if name == "course_code" then Some(Str(c.courseCode))
    else if name == "semester" then Some(Str(c.semester))
    else if name == "is_active" then Some(Bool(c.isActive))
    else if name == "id" then Some(Int(c.id))
    else None
  }

  /** findByCode: the first course with that code. */
  function FindByCode(courses: seq<Course>, courseCode: string): Option<Course>
  {
    First(courses, (c: Course) => c.courseCode == courseCode)
  }

  /**
   * findByCode binds its one parameter to one equality on the code; the row
   * found carries the code, and none is found only when no row does.
   */
  lemma FindByCodeSpec(courses: seq<Course>, courseCode: string, now: int, c: Course)
    ensures Aligned([Bound("course_code")], [Str(courseCode)])
    ensures Satisfies([Bound("course_code")], [Str(courseCode)], CourseColumn, now, c) <==> c.courseCode == courseCode
    ensures var r := FindByCode(courses, courseCode);
      && (r.Some? ==> r.value.courseCode == courseCode && r.value in courses)
      && (r.None? <==> forall i :: 0 <= i < |courses| ==> courses[i].courseCode != courseCode)
  {
    SatisfiesOne(Bound("course_code"), [Str(courseCode)], CourseColumn, now, c);
    assert CourseColumn(c, "course_code") == Some(Str(c.courseCode));
  }

  /** findBySemester: findAll with `semester = ?` and the semester as its one parameter. */
  function FindBySemesterQuery(semester: string): Statement
  {
    FindAllStatement("courses", Texts([Bound("semester")]), Positional([Str(semester)]))
  }

  function InSemester(semester: string): Course -> bool
  {
    (c: Course) => c.semester == semester
  }

  /**
   * What findBySemester returns: the semester's courses. findAll has no
   * ORDER BY, so only which rows come back, and how often, is promised; the
   * filter's order is one order MySQL may use.
   */
  function FindBySemester(courses: seq<Course>, semester: string): seq<Course>
  {
    Filter(courses, InSemester(semester))
  }

  /**
   * The statement binds exactly the semester, to the one placeholder of its
   * one condition, and that condition selects the rows findBySemester
   * returns; each of them keeps its multiplicity.
   */
  lemma FindBySemesterSpec(courses: seq<Course>, semester: string, now: int, c: Course)
    ensures FindBySemesterQuery(semester).params == Positional([Str(semester)])
    ensures Aligned([Bound("semester")], [Str(semester)])
    ensures Satisfies([Bound("semester")], [Str(semester)], CourseColumn, now, c) <==> c.semester == semester
    ensures multiset(FindBySemester(courses, semester))[c] == if c.semester == semester then multiset(courses)[c] else 0
  {
    SatisfiesOne(Bound("semester"), [Str(semester)], CourseColumn, now, c);
    assert CourseColumn(c, "semester") == Some(Str(c.semester));
    FilterMultiset(courses, InSemester(semester));
  }

  /** getActiveCourses: findAll with the one condition `is_active = TRUE`, binding nothing. */
  function ActiveCoursesQuery(): Statement
  {
    FindAllStatement("courses", Texts([IsTrue("is_active")]), Positional([]))
  }

  function IsActiveCourse(c: Course): bool
  {
    c.isActive
  }

  function GetActiveCourses(courses: seq<Course>): seq<Course>
  {
    Filter(courses, IsActiveCourse)
  }

  /** getActiveCourses binds no parameter and selects exactly the active courses. */
  lemma GetActiveCoursesSpec(courses: seq<Course>, now: int, c: Course)
    ensures ActiveCoursesQuery().params == Positional([])
    ensures Aligned([IsTrue("is_active")], [])
    ensures Satisfies([IsTrue("is_active")], [], CourseColumn, now, c) <==> c.isActive
    ensures multiset(GetActiveCourses(courses))[c] == if c.isActive then multiset(courses)[c] else 0
  {
    SatisfiesOne(IsTrue("is_active"), [], CourseColumn, now, c);
    assert CourseColumn(c, "is_active") == Some(Bool(c.isActive));
    FilterMultiset(courses, IsActiveCourse);
  }

  /** The enrolment rows getEnrollmentCount counts: that course, status `enrolled`. */
  function EnrolledInCourse(courseId: int): Enrollment -> bool
  {
    (e: Enrollment) => e.courseId == courseId && e.status == "enrolled"
  }

  /** getEnrollmentCount: the course's `enrolled` rows, 0 when it has none. */
  function GetEnrollmentCount(enrollments: seq<Enrollment>, courseId: int): (n: nat)
    ensures n <= |enrollments|
    ensures n == 0 <==> forall i :: 0 <= i < |enrollments| ==>
      !(enrollments[i].courseId == courseId && enrollments[i].status == "enrolled")
  {
    CountWherePositive(enrollments, EnrolledInCourse(courseId));
    CountWhere(enrollments, EnrolledInCourse(courseId))
  }

  /**
   * A new `enrolled` row of the course adds one to the count; any other new
   * row, a dropped one of the same course included, changes nothing.
   */
  lemma EnrollmentCountAppend(enrollments: seq<Enrollment>, e: Enrollment, courseId: int)
    ensures GetEnrollmentCount(enrollments + [e], courseId)
      == GetEnrollmentCount(enrollments, courseId) + (if e.courseId == courseId && e.status == "enrolled" then 1 else 0)
  {
    FilterAppend(enrollments, [e], EnrolledInCourse(courseId));
    assert [e][1..] == [];
  }

  /** sessions: `course_id = ?`, and `is_active = TRUE` only when `activeOnly`. */
  function CourseSessionConditions(activeOnly: bool): seq<Condition>
  {
    [Bound("course_id")] + if activeOnly then [IsTrue("is_active")] else []
  }

  /** sessions builds its own SELECT, ordered by date and start time, latest first. */
  function CourseSessionsQuery(courseId: int, activeOnly: bool := true): Statement
  {
    Statement("SELECT * FROM sessions WHERE " + Join(Texts(CourseSessionConditions(activeOnly)), " AND ")
      + " ORDER BY session_date DESC, start_time DESC", Positional([Int(courseId)]))
  }

  /** The text sessions sends: its WHERE fragment over the conditions, then the ORDER BY. */
  lemma CourseSessionsText(courseId: int, activeOnly: bool)
    ensures CourseSessionsQuery(courseId, activeOnly).sql
      == "SELECT * FROM sessions " + WhereClause(Texts(CourseSessionConditions(activeOnly)))
        + " ORDER BY session_date DESC, start_time DESC"
  {
    var texts := Texts(CourseSessionConditions(activeOnly));
    var joined := Join(texts, " AND ");
    assert |texts| > 0;
    assert WhereClause(texts) == "WHERE " + joined;
    assert "SELECT * FROM sessions WHERE " == "SELECT * FROM sessions " + "WHERE ";
  }

  /** sessions holds exactly one `?`, for the one parameter it binds. */
  lemma CourseSessionsHoles(courseId: int, activeOnly: bool)
    ensures multiset(CourseSessionsQuery(courseId, activeOnly).sql)['?'] == 1
    ensures CourseSessionsQuery(courseId, activeOnly).params == Positional([Int(courseId)])
  {
    var where := WhereClause(Texts(CourseSessionConditions(activeOnly)));
    var head, tail := "SELECT * FROM sessions ", " ORDER BY session_date DESC, start_time DESC";
    CourseSessionsText(courseId, activeOnly);
    CourseSessionsWhereHoles(activeOnly);
    SessionsTextPlain();
    HolesAround(head, where, tail);
    assert CourseSessionsQuery(courseId, activeOnly).sql == head + where + tail;
  }

  lemma CourseSessionsWhereHoles(activeOnly: bool)
    ensures Holes(WhereClause(Texts(CourseSessionConditions(activeOnly)))) == 1
  {
    CourseSessionsSpec(0, activeOnly, 0, Session(1, 0, 1, "", "", 0, 0, 0, 0, true));
    WhereHoles(CourseSessionConditions(activeOnly));
  }

  lemma SessionsTextPlain()
    ensures '?' !in "SELECT * FROM sessions "
    ensures '?' !in " ORDER BY session_date DESC, start_time DESC"
  {
    var head, tail := "SELECT * FROM sessions ", " ORDER BY session_date DESC, start_time DESC";
    forall i | 0 <= i < |head| ensures head[i] != '?' {
    }
    forall i | 0 <= i < |tail| ensures tail[i] != '?' {
    }
  }

  /**
   * sessions binds only the course id and selects a row exactly when it
   * belongs to the course and, with `activeOnly`, has its active flag set;
   * the expiry time is never tested.
   */
  lemma CourseSessionsSpec(courseId: int, activeOnly: bool, now: int, s: Session)
    ensures CourseSessionsQuery(courseId, activeOnly).params == Positional([Int(courseId)])
    ensures PlainColumns(CourseSessionConditions(activeOnly))
    ensures Aligned(CourseSessionConditions(activeOnly), [Int(courseId)])
    ensures Satisfies(CourseSessionConditions(activeOnly), [Int(courseId)], SessionColumn, now, s)
      <==> s.courseId == courseId && (!activeOnly || s.isActive)
  {
    var conds := CourseSessionConditions(activeOnly);
    var rest: seq<Condition> := if activeOnly then [IsTrue("is_active")] else [];
    var none: seq<Value> := [];
    CourseSessionsBinds(courseId, activeOnly);
    assert conds == [Bound("course_id")] + rest;
    assert [Int(courseId)] == [Int(courseId)] + none;
    CourseConditionHolds(courseId, now, s);
    SatisfiesAppend([Bound("course_id")], rest, [Int(courseId)], none, SessionColumn, now, s);
    if activeOnly {
      SatisfiesOne(IsTrue("is_active"), none, SessionColumn, now, s);
      assert SessionColumn(s, "is_active") == Some(Bool(s.isActive));
    }
  }

  lemma CourseSessionsBinds(courseId: int, activeOnly: bool)
    ensures CourseSessionsQuery(courseId, activeOnly).params == Positional([Int(courseId)])
    ensures PlainColumns(CourseSessionConditions(activeOnly))
  {
    var conds := CourseSessionConditions(activeOnly);
    assert '?' !in "course_id" && '?' !in "is_active";
    forall i | 0 <= i < |conds| ensures '?' !in conds[i].column {
      if i == 1 {
        assert conds[i] == IsTrue("is_active");
      }
    }
  }

  /**
   * The two "active sessions of a course" queries disagree: a session whose
   * flag is still set but whose expiry has passed (the sweep has not run
   * yet) is listed by CourseModel's sessions and not by SessionModel's
   * getByCourse.
   */
  lemma ActiveSessionsDisagree(courseId: int, now: int)
    ensures var s := Session(1, courseId, 1, "", "", 0, 0, 0, now, true);
      && Satisfies(CourseSessionConditions(true), [Int(courseId)], SessionColumn, now, s)
      && !Satisfies(GetByCourseConditions(true), [Int(courseId)], SessionColumn, now, s)
  {
    var s := Session(1, courseId, 1, "", "", 0, 0, 0, now, true);
    CourseSessionsSpec(courseId, true, now, s);
    GetByCourseSpec(courseId, true, now, s);
  }

  function OfCourse(courseId: int, activeOnly: bool): Session -> bool
  {
    (s: Session) => s.courseId == courseId && (!activeOnly || s.isActive)
  }

  /** What sessions returns: the rows it selects, latest date and start time first. */
  function CourseSessions(sessions: seq<Session>, courseId: int, activeOnly: bool := true): (r: seq<Session>)
    ensures SortedBy(r, SessionTimeDesc())
    ensures multiset(r) == multiset(Filter(sessions, OfCourse(courseId, activeOnly)))
    ensures forall k :: 0 <= k < |r| ==> r[k].courseId == courseId && (!activeOnly || r[k].isActive)
  {
    var selected := Filter(sessions, OfCourse(courseId, activeOnly));
    SessionTimeDescIsPreorder();
    var r := SortBy(selected, SessionTimeDesc());
    forall k | 0 <= k < |r|
      ensures r[k].courseId == courseId && (!activeOnly || r[k].isActive)
    {
      assert r[k] in multiset(selected);
      assert r[k] in selected;
      assert OfCourse(courseId, activeOnly)(r[k]);
    }
    r
  }

  function TeachesCourse(courseId: int): (Professor, Assignment) -> bool
  {
    (p: Professor, a: Assignment) => p.id == a.professorId && a.courseId == courseId
  }

  /** `ORDER BY pc.role, p.name`, under the given collation. */
  function RoleThenName(collate: (string, string) -> bool): ((Professor, Assignment), (Professor, Assignment)) -> bool
  {
    ThenBy(On(collate, (r: (Professor, Assignment)) => r.1.role), On(collate, (r: (Professor, Assignment)) => r.0.name))
  }

  lemma RoleThenNameIsPreorder(collate: (string, string) -> bool)
    requires TotalPreorder(collate)
    ensures TotalPreorder(RoleThenName(collate))
  {
    OnIsPreorder(collate, (r: (Professor, Assignment)) => r.1.role);
    OnIsPreorder(collate, (r: (Professor, Assignment)) => r.0.name);
    ThenByIsPreorder(On(collate, (r: (Professor, Assignment)) => r.1.role), On(collate, (r: (Professor, Assignment)) => r.0.name));
  }

  /** professors: the course's professors with their assignment rows, by role and then name. */
  function Professors(professors: seq<Professor>, assignments: seq<Assignment>, courseId: int,
                      collate: (string, string) -> bool): (r: seq<(Professor, Assignment)>)
    requires TotalPreorder(collate)
    ensures SortedBy(r, RoleThenName(collate))
    ensures multiset(r) == multiset(InnerJoin(professors, assignments, TeachesCourse(courseId)))
    ensures forall k :: 0 <= k < |r| ==> r[k].0.id == r[k].1.professorId && r[k].1.courseId == courseId
  {
    var joined := InnerJoin(professors, assignments, TeachesCourse(courseId));
    RoleThenNameIsPreorder(collate);
    var r := SortBy(joined, RoleThenName(collate));
    forall k | 0 <= k < |r|
      ensures r[k].0.id == r[k].1.professorId && r[k].1.courseId == courseId
    {
      assert r[k] in multiset(joined);
      var m :| 0 <= m < |joined| && joined[m] == r[k];
    }
    r
  }
}
