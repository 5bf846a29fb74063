/**
 * The rows of the tables the repositories read and write, with the columns
 * their queries use. The schema file itself is not part of this model:
 * dates are day numbers and times seconds where the queries order or compare
 * them, and calendar dates that are only stored are kept as text. The
 * course listings' shared ORDER BY is here too.
 */
module Schema {
  import opened Wrappers
  import opened Tables

  /** A row of `sessions`. */
  datatype Session = Session(id: int, courseId: int, professorId: int, title: string, qrToken: string,
                             sessionDate: int, startTime: int, endTime: int, expiresAt: int, isActive: bool)

  /** A row of `attendance`. */
  datatype Attendance = Attendance(id: int, sessionId: int, studentId: int, status: string,
                                   notes: Option<string>, scannedAt: int)

  /** A row of `students`: `id` is the primary key, `studentId` the external student number. */
  datatype Student = Student(id: int, studentId: string, name: string, email: string,
                             isRep: bool, isApproved: bool)

  /** A row of `student_courses`, unique on (studentId, courseId). */
  datatype Enrollment = Enrollment(studentId: int, courseId: int, enrollmentDate: string, status: string)

  /** A row of `professors`: `id` is the primary key, `professorId` the external staff number. */
  datatype Professor = Professor(id: int, professorId: string, name: string, email: string, department: string)

  /** A row of `professor_courses`, unique on (professorId, courseId). */
  datatype Assignment = Assignment(professorId: int, courseId: int, role: string, assignedDate: string)

  /** A row of `courses`. */
  datatype Course = Course(id: int, courseCode: string, courseName: string, semester: string,
                           credits: int, isActive: bool)

  /** `ORDER BY c.semester DESC, c.course_code`. */
  function SemesterThenCode<E>(collate: (string, string) -> bool): ((Course, E), (Course, E)) -> bool
  {
    ThenBy(Reverse(On(collate, (r: (Course, E)) => r.0.semester)), On(collate, (r: (Course, E)) => r.0.courseCode))
  }

  lemma SemesterThenCodeIsPreorder<E(!new)>(collate: (string, string) -> bool)
    requires TotalPreorder(collate)
    ensures TotalPreorder(SemesterThenCode<E>(collate))
  {
    OnIsPreorder(collate, (r: (Course, E)) => r.0.semester);
    ReverseIsPreorder(On(collate, (r: (Course, E)) => r.0.semester));
    OnIsPreorder(collate, (r: (Course, E)) => r.0.courseCode);
    ThenByIsPreorder(Reverse(On(collate, (r: (Course, E)) => r.0.semester)), On(collate, (r: (Course, E)) => r.0.courseCode));
  }
}
