/**
 * App\Models\ProfessorModel: lookup by staff number, the professor's
 * courses, the assignment upsert and the assignment test. `CURDATE()` is the
 * parameter `today`.
 */
module Professors {
  import opened Wrappers
  import opened Json
  import opened Sql
  import opened Tables
  import opened Schema

  function ProfessorColumn(p: Professor, name: string): Option<Value>
  {
    if name == "professor_id" then Some(Str(p.professorId))
    else if name == "id" then Some(Int(p.id))
    else None
  }

  /** findByProfessorId: the first professor with that staff number. */
  function FindByProfessorId(professors: seq<Professor>, professorId: string): Option<Professor>
  {
    First(professors, (p: Professor) => p.professorId == professorId)
  }

  /**
   * The lookup's one condition compares the staff number, not the primary
   * key, with the one parameter; the row found carries that number, and none
   * is found only when no row does.
   */
  lemma FindByProfessorIdSpec(professors: seq<Professor>, professorId: string, now: int, p: Professor)
    ensures Aligned([Bound("professor_id")], [Str(professorId)])
    ensures Satisfies([Bound("professor_id")], [Str(professorId)], ProfessorColumn, now, p) <==> p.professorId == professorId
    ensures var r := FindByProfessorId(professors, professorId);
      && (r.Some? ==> r.value.professorId == professorId && r.value in professors)
      && (r.None? <==> forall i :: 0 <= i < |professors| ==> professors[i].professorId != professorId)
  {
    SatisfiesOne(Bound("professor_id"), [Str(professorId)], ProfessorColumn, now, p);
    assert ProfessorColumn(p, "professor_id") == Some(Str(p.professorId));
  }

  function AssignKey(a: Assignment): (int, int)
  {
    (a.professorId, a.courseId)
  }

  /** `ON DUPLICATE KEY UPDATE role = ?, assigned_date = CURDATE()`. */
  function Reassign(role: string, today: string): Assignment -> Assignment
  {
    (a: Assignment) => a.(role := role, assignedDate := today)
  }

  /** assignToCourse against the assignment table. */
  function Assign(rows: seq<Assignment>, professorId: int, courseId: int, role: string, today: string): seq<Assignment>
  {
    Upsert(rows, AssignKey, (professorId, courseId), Assignment(professorId, courseId, role, today), Reassign(role, today))
  }

  predicate AlreadyAssigned(rows: seq<Assignment>, professorId: int, courseId: int)
  {
    exists i :: 0 <= i < |rows| && AssignKey(rows[i]) == (professorId, courseId)
  }

  function OtherAssignment(professorId: int, courseId: int): Assignment -> bool
  {
    (a: Assignment) => AssignKey(a) != (professorId, courseId)
  }

  /**
   * After assigning there is exactly one row for the pair, with the role and
   * today's date; the key stays unique, and every other row is unchanged.
   */
  lemma AssignSpec(rows: seq<Assignment>, professorId: int, courseId: int, role: string, today: string)
    requires UniqueBy(rows, AssignKey)
    ensures var r := Assign(rows, professorId, courseId, role, today);
      && UniqueBy(r, AssignKey)
      && (exists i :: 0 <= i < |r| && AssignKey(r[i]) == (professorId, courseId))
      && (forall i :: 0 <= i < |r| && AssignKey(r[i]) == (professorId, courseId) ==>
            r[i] == Assignment(professorId, courseId, role, today))
      && Filter(r, OtherAssignment(professorId, courseId)) == Filter(rows, OtherAssignment(professorId, courseId))
  {
    var k := (professorId, courseId);
    var added := Assignment(professorId, courseId, role, today);
    UpsertSpec(rows, AssignKey, k, added, Reassign(role, today));
    UpsertOthers(rows, AssignKey, k, added, Reassign(role, today), OtherAssignment(professorId, courseId));
    var idx := IndexOfKey(rows, AssignKey, k);
    if idx < |rows| {
      assert AssignKey(rows[idx]) == k;
      assert Reassign(role, today)(rows[idx]) == added;
    }
  }

  /** A re-assignment overwrites the row and adds none; a first assignment adds one. */
  lemma AssignLength(rows: seq<Assignment>, professorId: int, courseId: int, role: string, today: string)
    ensures AlreadyAssigned(rows, professorId, courseId) ==> |Assign(rows, professorId, courseId, role, today)| == |rows|
    ensures !AlreadyAssigned(rows, professorId, courseId) ==> |Assign(rows, professorId, courseId, role, today)| == |rows| + 1
  {
    var idx := IndexOfKey(rows, AssignKey, (professorId, courseId));
    if idx < |rows| {
      assert AssignKey(rows[idx]) == (professorId, courseId);
    }
  }

  /** Assigning twice on the same day with the same role leaves the table as assigning once. */
  lemma AssignIdempotent(rows: seq<Assignment>, professorId: int, courseId: int, role: string, today: string)
    ensures Assign(Assign(rows, professorId, courseId, role, today), professorId, courseId, role, today)
      == Assign(rows, professorId, courseId, role, today)
  {
    UpsertIdempotent(rows, AssignKey, (professorId, courseId), Assignment(professorId, courseId, role, today), Reassign(role, today));
  }

  function OfAssignment(professorId: int, courseId: int): Assignment -> bool
  {
    (a: Assignment) => a.professorId == professorId && a.courseId == courseId
  }

  /** isAssignedToCourse: the COUNT(*) of the pair's rows is positive. */
  function IsAssignedToCourse(rows: seq<Assignment>, professorId: int, courseId: int): (r: bool)
    ensures r <==> AlreadyAssigned(rows, professorId, courseId)
  {
    CountWherePositive(rows, OfAssignment(professorId, courseId));
    CountWhere(rows, OfAssignment(professorId, courseId)) > 0
  }

  /** Whatever the role, the pair is assigned after assignToCourse. */
  lemma AssignedAfterAssign(rows: seq<Assignment>, professorId: int, courseId: int, role: string, today: string)
    ensures IsAssignedToCourse(Assign(rows, professorId, courseId, role, today), professorId, courseId)
  {
    var r := Assign(rows, professorId, courseId, role, today);
    var idx := IndexOfKey(rows, AssignKey, (professorId, courseId));
    if idx < |rows| {
      assert AssignKey(r[idx]) == (professorId, courseId);
    } else {
      assert AssignKey(r[|rows|]) == (professorId, courseId);
    }
  }

  class ProfessorModel {
    var assignments: seq<Assignment>

    constructor (assignments: seq<Assignment>)
      ensures this.assignments == assignments
    {
      this.assignments := assignments;
    }

    /**
     * assignToCourse: the upsert, the role defaulting to `instructor`.
     * `fault` is the message of the PDOException MySQL raises instead; it
     * leaves the table as it was and propagates.
     */
    method AssignToCourse(professorId: int, courseId: int, today: string, fault: Option<string>,
                          role: string := "instructor")
      returns (outcome: Result<bool, string>)
      modifies this
      ensures fault.Some? ==> outcome == Failure(fault.value) && assignments == old(assignments)
      ensures fault.None? ==>
        outcome == Success(true) && assignments == Assign(old(assignments), professorId, courseId, role, today)
    {
      if fault.Some? {
        return Failure(fault.value);
      }
      assignments := Assign(assignments, professorId, courseId, role, today);
      return Success(true);
    }
  }

  function AssignedCourse(professorId: int): (Course, Assignment) -> bool
  {
    (c: Course, a: Assignment) => c.id == a.courseId && a.professorId == professorId
  }

  /**
   * courses: the professor's courses with their assignment rows, latest
   * semester first and then by course code.
   */
  function Courses(courses: seq<Course>, assignments: seq<Assignment>, professorId: int,
                   collate: (string, string) -> bool): (r: seq<(Course, Assignment)>)
    requires TotalPreorder(collate)
    ensures SortedBy(r, SemesterThenCode(collate))
    ensures multiset(r) == multiset(InnerJoin(courses, assignments, AssignedCourse(professorId)))
    ensures forall k :: 0 <= k < |r| ==> r[k].0.id == r[k].1.courseId && r[k].1.professorId == professorId
  {
    var joined := InnerJoin(courses, assignments, AssignedCourse(professorId));
    SemesterThenCodeIsPreorder<Assignment>(collate);
    var r := SortBy(joined, SemesterThenCode(collate));
    forall k | 0 <= k < |r|
      ensures r[k].0.id == r[k].1.courseId && r[k].1.professorId == professorId
    {
      assert r[k] in multiset(joined);
      var m :| 0 <= m < |joined| && joined[m] == r[k];
    }
    r
  }
}
