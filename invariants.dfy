/** The consistency the handlers keep between the student and course
    directories and the enrollment ledger, and one lemma per kind of write
    showing that the write keeps it. */
module Invariants {

  import opened Wrappers
  import opened Text
  import opened Collections
  import opened Records
  import opened DataStore

  /** Every enrollment id is `E<digits>` and no two entries share one. */
  ghost predicate LedgerWellFormed(ledger: seq<Enrollment>) {
    && (forall e :: e in ledger ==> IsIdWith(e.enrollmentId, 'E'))
    && (forall i, j :: 0 <= i < j < |ledger| ==> ledger[i].enrollmentId != ledger[j].enrollmentId)
  }

  /** No two students share a non-empty e-mail (an update may blank an
      e-mail without any check, so the empty one is exempt). */
  ghost predicate EmailsUnique(students: map<string, Student>) {
    forall f, g :: f in students && g in students && f != g && students[f].email != "" ==>
      students[f].email != students[g].email
  }

  /** `1 <= capacity` and `0 <= enrolledCount <= capacity`. */
  ghost predicate SeatsWithinCapacity(courses: map<string, Course>) {
    forall f :: f in courses ==>
      1 <= courses[f].capacity && 0 <= courses[f].enrolledCount <= courses[f].capacity
  }

  /** The counter of every course equals its number of CONFIRMED enrollments. */
  ghost predicate CountsMatchLedger(courses: map<string, Course>, ledger: seq<Enrollment>) {
    forall f :: f in courses ==> courses[f].enrolledCount == ConfirmedCount(ledger, courses[f].courseId)
  }

  predicate SamePair(a: Enrollment, b: Enrollment) {
    a.studentId == b.studentId && a.courseId == b.courseId
  }

  /** At most one CONFIRMED enrollment per (student, course). */
  ghost predicate OneConfirmedPerPair(ledger: seq<Enrollment>) {
    forall i, j :: 0 <= i < j < |ledger| && ledger[i].status == Confirmed && ledger[j].status == Confirmed ==>
      !SamePair(ledger[i], ledger[j])
  }

  /** Every CONFIRMED enrollment names a stored student and a stored course. */
  ghost predicate ConfirmedReferencesExist(students: map<string, Student>, courses: map<string, Course>,
                                           ledger: seq<Enrollment>) {
    forall e :: e in ledger && e.status == Confirmed ==>
      FindStudent(students, e.studentId).Some? && FindCourse(courses, e.courseId).Some?
  }

  ghost predicate Consistent(students: map<string, Student>, courses: map<string, Course>,
                             ledger: seq<Enrollment>) {
    && StudentsWellKeyed(students)
    && CoursesWellKeyed(courses)
    && LedgerWellFormed(ledger)
    && EmailsUnique(students)
    && SeatsWithinCapacity(courses)
    && CountsMatchLedger(courses, ledger)
    && OneConfirmedPerPair(ledger)
    && ConfirmedReferencesExist(students, courses, ledger)
  }

  /** The empty store (what `ensureDirectories` creates) is consistent. */
  lemma EmptyIsConsistent()
    ensures Consistent(map[], map[], [])
  {
  }

  /** Entries keep their ids and references, and a CANCELLED entry never
      changes again: the ledger only grows and statuses only move from
      CONFIRMED to CANCELLED. */
  ghost predicate LedgerEvolves(before: seq<Enrollment>, after: seq<Enrollment>) {
    && |before| <= |after|
    && forall i :: 0 <= i < |before| ==>
         && after[i].enrollmentId == before[i].enrollmentId
         && SamePair(after[i], before[i])
         && (before[i].status == Cancelled ==> after[i] == before[i])
  }

  /** Any run of handlers keeps the relation, so no sequence of requests
      turns a CANCELLED enrollment back into a CONFIRMED one. */
  lemma EvolvesTransitive(a: seq<Enrollment>, b: seq<Enrollment>, c: seq<Enrollment>)
    requires LedgerEvolves(a, b) && LedgerEvolves(b, c)
    ensures LedgerEvolves(a, c)
    ensures forall i :: 0 <= i < |a| && a[i].status == Cancelled ==> c[i].status == Cancelled
  {
  }

  /** Appending keeps every earlier entry as it was. */
  lemma AppendEvolves(ledger: seq<Enrollment>, e: Enrollment)
    ensures LedgerEvolves(ledger, ledger + [e])
  {
  }

  /** Cancelling a CONFIRMED entry keeps its id and pair and touches no
      other entry. */
  lemma CancelEvolves(ledger: seq<Enrollment>, i: nat, cancelledAt: string)
    requires i < |ledger| && ledger[i].status == Confirmed
    ensures LedgerEvolves(ledger, ledger[i := ledger[i].(status := Cancelled, cancelledAt := Some(cancelledAt))])
  {
  }

  /** Distinct folders of a well-keyed directory hold distinct ids. */
  lemma StudentIdsDistinct(students: map<string, Student>, f: string, g: string)
    requires StudentsWellKeyed(students) && f in students && g in students && f != g
    ensures students[f].studentId != students[g].studentId
  {
  }

  /** Adding a student under a fresh folder with a new, non-empty e-mail. */
  lemma {:induction false} AddStudentKeepsConsistent(students: map<string, Student>, courses: map<string, Course>,
                                                     ledger: seq<Enrollment>, s: Student)
    requires Consistent(students, courses, ledger)
    requires IsIdWith(s.studentId, 'S') && StudentFolder(s.studentId) !in students
    requires s.email != "" && !StudentEmailExists(students, s.email, None)
    ensures Consistent(students[StudentFolder(s.studentId) := s], courses, ledger)
  {
    var students' := students[StudentFolder(s.studentId) := s];
    AddStudentKeepsEmailsUnique(students, s);
    StudentAddedKeepsReferences(students, courses, ledger, s);
  }

  lemma AddStudentKeepsEmailsUnique(students: map<string, Student>, s: Student)
    requires StudentsWellKeyed(students) && EmailsUnique(students)
    requires IsIdWith(s.studentId, 'S') && StudentFolder(s.studentId) !in students
    requires s.email != "" && !StudentEmailExists(students, s.email, None)
    ensures StudentsWellKeyed(students[StudentFolder(s.studentId) := s])
    ensures EmailsUnique(students[StudentFolder(s.studentId) := s])
  {
    var n := StudentFolder(s.studentId);
    var students' := students[n := s];
    forall f | f in students' ensures IsIdWith(students'[f].studentId, 'S') && f == StudentFolder(students'[f].studentId) {
      if f != n {
        assert students'[f] == students[f];
      }
    }
    forall f, g | f in students' && g in students' && f != g && students'[f].email != ""
      ensures students'[f].email != students'[g].email
    {
      if f == n {
        assert g in students && students'[g] == students[g];
      } else if g == n {
        assert f in students && students'[f] == students[f];
      } else {
        assert students'[f] == students[f] && students'[g] == students[g];
      }
    }
  }

  lemma StudentAddedKeepsReferences(students: map<string, Student>, courses: map<string, Course>,
                                    ledger: seq<Enrollment>, s: Student)
    requires ConfirmedReferencesExist(students, courses, ledger)
    requires StudentFolder(s.studentId) !in students
    ensures ConfirmedReferencesExist(students[StudentFolder(s.studentId) := s], courses, ledger)
  {
    var students' := students[StudentFolder(s.studentId) := s];
    forall e | e in ledger && e.status == Confirmed
      ensures FindStudent(students', e.studentId).Some?
    {
      assert FindStudent(students, e.studentId).Some?;
    }
  }

  /** Rewriting a student's name, e-mail or status in its own folder. */
  lemma {:induction false} UpdateStudentKeepsConsistent(students: map<string, Student>, courses: map<string, Course>,
                                                        ledger: seq<Enrollment>, f: string, s: Student)
    requires Consistent(students, courses, ledger)
    requires f in students && s.studentId == students[f].studentId
    requires s.email == students[f].email || s.email == ""
             || !StudentEmailExists(students, s.email, Some(s.studentId))
    ensures Consistent(students[f := s], courses, ledger)
  {
    UpdateStudentKeepsEmailsUnique(students, f, s);
    UpdateStudentKeepsReferences(students, courses, ledger, f, s);
  }

  lemma UpdateStudentKeepsEmailsUnique(students: map<string, Student>, f: string, s: Student)
    requires StudentsWellKeyed(students) && EmailsUnique(students)
    requires f in students && s.studentId == students[f].studentId
    requires s.email == students[f].email || s.email == ""
             || !StudentEmailExists(students, s.email, Some(s.studentId))
    ensures StudentsWellKeyed(students[f := s]) && EmailsUnique(students[f := s])
  {
    var students' := students[f := s];
    forall g, h | g in students' && h in students' && g != h && students'[g].email != ""
      ensures students'[g].email != students'[h].email
    {
      if g == f || h == f {
        var other := if g == f then h else g;
        assert other in students && students'[other] == students[other];
        StudentIdsDistinct(students, f, other);
      } else {
        assert students'[g] == students[g] && students'[h] == students[h];
      }
    }
  }

  lemma UpdateStudentKeepsReferences(students: map<string, Student>, courses: map<string, Course>,
                                     ledger: seq<Enrollment>, f: string, s: Student)
    requires StudentsWellKeyed(students) && ConfirmedReferencesExist(students, courses, ledger)
    requires f in students && s.studentId == students[f].studentId
    ensures ConfirmedReferencesExist(students[f := s], courses, ledger)
  {
    var students' := students[f := s];
    forall e | e in ledger && e.status == Confirmed
      ensures FindStudent(students', e.studentId).Some?
    {
      assert FindStudent(students, e.studentId).Some?;
    }
  }

  /** Removing a student none of whose enrollments is CONFIRMED. */
  lemma {:induction false} RemoveStudentKeepsConsistent(students: map<string, Student>, courses: map<string, Course>,
                                                        ledger: seq<Enrollment>, f: string)
    requires Consistent(students, courses, ledger)
    requires f in students
    requires forall e :: e in StudentEnrollments(ledger, students[f].studentId) ==> e.status != Confirmed
    ensures Consistent(students - {f}, courses, ledger)
  {
    var students' := students - {f};
    forall e | e in ledger && e.status == Confirmed
      ensures FindStudent(students', e.studentId).Some?
    {
      assert FindStudent(students, e.studentId).Some?;
      assert e.studentId != students[f].studentId;
    }
  }

  /** With no CONFIRMED enrollment naming a course, its count is zero. */
  lemma NoConfirmedMeansZero(ledger: seq<Enrollment>, courseId: string)
    requires forall e :: e in ledger && e.status == Confirmed ==> e.courseId != courseId
    ensures ConfirmedCount(ledger, courseId) == 0
  {
    FilterNone(ledger, (e: Enrollment) => e.courseId == courseId && e.status == Confirmed);
  }

  /** Adding a course under a fresh folder with no seats taken. */
  lemma {:induction false} AddCourseKeepsConsistent(students: map<string, Student>, courses: map<string, Course>,
                                                    ledger: seq<Enrollment>, c: Course)
    requires Consistent(students, courses, ledger)
    requires IsIdWith(c.courseId, 'C') && CourseFolder(c.courseId) !in courses
    requires 1 <= c.capacity && c.enrolledCount == 0
    ensures Consistent(students, courses[CourseFolder(c.courseId) := c], ledger)
  {
    var n := CourseFolder(c.courseId);
    var courses' := courses[n := c];
    forall f | f in courses' ensures IsIdWith(courses'[f].courseId, 'C') && f == CourseFolder(courses'[f].courseId) {
      if f != n {
        assert courses'[f] == courses[f];
      }
    }
    forall e | e in ledger && e.status == Confirmed
      ensures e.courseId != c.courseId && FindCourse(courses', e.courseId).Some?
    {
      assert FindCourse(courses, e.courseId).Some?;
    }
    NoConfirmedMeansZero(ledger, c.courseId);
  }

  /** Rewriting a course's title, capacity or status, keeping its id and
      counter and a capacity of at least one and at least the counter. */
  lemma {:induction false} UpdateCourseKeepsConsistent(students: map<string, Student>, courses: map<string, Course>,
                                                       ledger: seq<Enrollment>, f: string, c: Course)
    requires Consistent(students, courses, ledger)
    requires f in courses && c.courseId == courses[f].courseId
    requires c.enrolledCount == courses[f].enrolledCount
    requires 1 <= c.capacity && c.enrolledCount <= c.capacity
    ensures Consistent(students, courses[f := c], ledger)
  {
    var courses' := courses[f := c];
    forall e | e in ledger && e.status == Confirmed
      ensures FindCourse(courses', e.courseId).Some?
    {
      assert FindCourse(courses, e.courseId).Some?;
    }
  }

  /** Removing a course no CONFIRMED enrollment names. */
  lemma {:induction false} RemoveCourseKeepsConsistent(students: map<string, Student>, courses: map<string, Course>,
                                                       ledger: seq<Enrollment>, f: string)
    requires Consistent(students, courses, ledger)
    requires f in courses && CourseEnrollments(ledger, courses[f].courseId) == []
    ensures Consistent(students, courses - {f}, ledger)
  {
    var courses' := courses - {f};
    forall e | e in ledger && e.status == Confirmed
      ensures FindCourse(courses', e.courseId).Some?
    {
      assert FindCourse(courses, e.courseId).Some?;
      assert e !in CourseEnrollments(ledger, courses[f].courseId);
    }
  }

  /** Appending a CONFIRMED enrollment with a fresh id for a stored student
      and a stored course with a free seat and no CONFIRMED enrollment of
      that student, and taking one seat. */
  lemma {:induction false} EnrollKeepsConsistent(students: map<string, Student>, courses: map<string, Course>,
                                                 ledger: seq<Enrollment>, e: Enrollment)
    requires Consistent(students, courses, ledger)
    requires IsIdWith(e.enrollmentId, 'E') && forall x :: x in ledger ==> x.enrollmentId != e.enrollmentId
    requires e.status == Confirmed
    requires FindStudent(students, e.studentId).Some? && FindCourse(courses, e.courseId).Some?
    requires FindCourse(courses, e.courseId).value.enrolledCount < FindCourse(courses, e.courseId).value.capacity
    requires forall x :: x in ledger && x.status == Confirmed ==> !SamePair(x, e)
    ensures var c := FindCourse(courses, e.courseId).value;
            Consistent(students, courses[CourseFolder(e.courseId) := c.(enrolledCount := c.enrolledCount + 1)],
                       ledger + [e])
  {
    var c := FindCourse(courses, e.courseId).value;
    var f := CourseFolder(e.courseId);
    assert f in courses && courses[f] == c;
    EnrollKeepsCounts(courses, ledger, f, e);
    EnrollKeepsPairs(ledger, e);
    EnrollKeepsIds(ledger, e);
    CounterUpdateKeepsFind(courses, f, c.(enrolledCount := c.enrolledCount + 1));
  }

  /** Taking a seat in the course of a pushed CONFIRMED entry keeps every
      counter equal to its CONFIRMED count and within capacity. */
  lemma EnrollKeepsCounts(courses: map<string, Course>, ledger: seq<Enrollment>, f: string, e: Enrollment)
    requires CoursesWellKeyed(courses) && SeatsWithinCapacity(courses) && CountsMatchLedger(courses, ledger)
    requires f in courses && courses[f].courseId == e.courseId && e.status == Confirmed
    requires courses[f].enrolledCount < courses[f].capacity
    ensures var courses' := courses[f := courses[f].(enrolledCount := courses[f].enrolledCount + 1)];
            && CoursesWellKeyed(courses') && SeatsWithinCapacity(courses')
            && CountsMatchLedger(courses', ledger + [e])
  {
    var courses' := courses[f := courses[f].(enrolledCount := courses[f].enrolledCount + 1)];
    forall g | g in courses'
      ensures courses'[g].enrolledCount == ConfirmedCount(ledger + [e], courses'[g].courseId)
    {
      ViewsAppend(ledger, e, "", courses'[g].courseId);
      if g != f {
        assert courses[g].courseId != courses[f].courseId;
      }
    }
  }

  /** Pushing a CONFIRMED entry for a pair without one keeps one seat per pair. */
  lemma EnrollKeepsPairs(ledger: seq<Enrollment>, e: Enrollment)
    requires OneConfirmedPerPair(ledger)
    requires forall x :: x in ledger && x.status == Confirmed ==> !SamePair(x, e)
    ensures OneConfirmedPerPair(ledger + [e])
  {
    var ledger' := ledger + [e];
    forall i, j | 0 <= i < j < |ledger'| && ledger'[i].status == Confirmed && ledger'[j].status == Confirmed
      ensures !SamePair(ledger'[i], ledger'[j])
    {
      if j == |ledger| {
        assert ledger'[i] in ledger;
      }
    }
  }

  /** Pushing an entry with a fresh, well-formed id keeps ids unique. */
  lemma EnrollKeepsIds(ledger: seq<Enrollment>, e: Enrollment)
    requires LedgerWellFormed(ledger)
    requires IsIdWith(e.enrollmentId, 'E') && forall x :: x in ledger ==> x.enrollmentId != e.enrollmentId
    ensures LedgerWellFormed(ledger + [e])
  {
    var ledger' := ledger + [e];
    forall i, j | 0 <= i < j < |ledger'| ensures ledger'[i].enrollmentId != ledger'[j].enrollmentId {
      if j == |ledger| {
        assert ledger'[i] in ledger;
      }
    }
  }

  /** Rewriting a course record under the same id changes no lookup's
      success. */
  lemma CounterUpdateKeepsFind(courses: map<string, Course>, f: string, c: Course)
    requires CoursesWellKeyed(courses) && f in courses && c.courseId == courses[f].courseId
    ensures forall id :: FindCourse(courses[f := c], id).Some? <==> FindCourse(courses, id).Some?
  {
  }

  /** `Math.max(0, n - 1)`. */
  function FlooredDecrement(n: int): (r: int)
    ensures r >= 0 && (n >= 1 ==> r == n - 1)
    ensures n < 1 ==> r == 0
  {
    if n - 1 > 0 then n - 1 else 0
  }

  /** Under the invariant the course of a CONFIRMED enrollment is stored and
      has at least one seat taken, so the floor at zero never takes effect. */
  lemma {:induction false} CancelFindsTakenSeat(students: map<string, Student>, courses: map<string, Course>,
                                                ledger: seq<Enrollment>, i: nat)
    requires Consistent(students, courses, ledger)
    requires i < |ledger| && ledger[i].status == Confirmed
    ensures FindCourse(courses, ledger[i].courseId).Some?
    ensures FindCourse(courses, ledger[i].courseId).value.enrolledCount >= 1
  {
    assert ledger[i] in ledger;
    var c := FindCourse(courses, ledger[i].courseId).value;
    assert ledger[i] in CourseEnrollments(ledger, c.courseId);
  }

  /** Marking a CONFIRMED enrollment CANCELLED and giving its seat back. */
  lemma {:induction false} CancelKeepsConsistent(students: map<string, Student>, courses: map<string, Course>,
                                                 ledger: seq<Enrollment>, i: nat, cancelledAt: string)
    requires Consistent(students, courses, ledger)
    requires i < |ledger| && ledger[i].status == Confirmed
    ensures FindCourse(courses, ledger[i].courseId).Some?
    ensures var c := FindCourse(courses, ledger[i].courseId).value;
            Consistent(students,
                       courses[CourseFolder(c.courseId) := c.(enrolledCount := FlooredDecrement(c.enrolledCount))],
                       ledger[i := ledger[i].(status := Cancelled, cancelledAt := Some(cancelledAt))])
  {
    CancelFindsTakenSeat(students, courses, ledger, i);
    var e := ledger[i];
    var c := FindCourse(courses, e.courseId).value;
    var courses' := courses[CourseFolder(c.courseId) := c.(enrolledCount := FlooredDecrement(c.enrolledCount))];
    var e' := e.(status := Cancelled, cancelledAt := Some(cancelledAt));
    var ledger' := ledger[i := e'];
    CancelKeepsCounts(courses, ledger, i, c, e');
    CancelKeepsReferences(students, courses, ledger, i, c, e');
  }

  lemma CancelKeepsCounts(courses: map<string, Course>, ledger: seq<Enrollment>, i: nat, c: Course, e': Enrollment)
    requires CoursesWellKeyed(courses) && SeatsWithinCapacity(courses) && CountsMatchLedger(courses, ledger)
    requires i < |ledger| && ledger[i].status == Confirmed && c.courseId == ledger[i].courseId
    requires CourseFolder(c.courseId) in courses && courses[CourseFolder(c.courseId)] == c && c.enrolledCount >= 1
    requires e' == ledger[i].(status := Cancelled, cancelledAt := e'.cancelledAt)
    ensures var courses' := courses[CourseFolder(c.courseId) := c.(enrolledCount := FlooredDecrement(c.enrolledCount))];
            CoursesWellKeyed(courses') && SeatsWithinCapacity(courses')
            && CountsMatchLedger(courses', ledger[i := e'])
  {
    var courses' := courses[CourseFolder(c.courseId) := c.(enrolledCount := FlooredDecrement(c.enrolledCount))];
    var ledger' := ledger[i := e'];
    forall f | f in courses'
      ensures courses'[f].enrolledCount == ConfirmedCount(ledger', courses'[f].courseId)
    {
      ConfirmedCountUpdate(ledger, i, e', courses'[f].courseId);
    }
  }

  lemma CancelKeepsReferences(students: map<string, Student>, courses: map<string, Course>,
                              ledger: seq<Enrollment>, i: nat, c: Course, e': Enrollment)
    requires LedgerWellFormed(ledger) && OneConfirmedPerPair(ledger)
    requires CoursesWellKeyed(courses) && ConfirmedReferencesExist(students, courses, ledger)
    requires i < |ledger| && c.courseId == ledger[i].courseId && CourseFolder(c.courseId) in courses
    requires courses[CourseFolder(c.courseId)] == c
    requires e' == ledger[i].(status := Cancelled, cancelledAt := e'.cancelledAt)
    ensures var courses' := courses[CourseFolder(c.courseId) := c.(enrolledCount := FlooredDecrement(c.enrolledCount))];
            && LedgerWellFormed(ledger[i := e']) && OneConfirmedPerPair(ledger[i := e'])
            && ConfirmedReferencesExist(students, courses', ledger[i := e'])
  {
    var courses' := courses[CourseFolder(c.courseId) := c.(enrolledCount := FlooredDecrement(c.enrolledCount))];
    var ledger' := ledger[i := e'];
    forall x | x in ledger' && x.status == Confirmed
      ensures FindStudent(students, x.studentId).Some? && FindCourse(courses', x.courseId).Some?
    {
      var k :| 0 <= k < |ledger'| && ledger'[k] == x;
      assert k != i && x == ledger[k];
      var found := FindCourse(courses, x.courseId).value;
      var f :| f in courses && courses[f] == found;
      assert courses'[f].courseId == x.courseId;
    }
    forall x | x in ledger' ensures IsIdWith(x.enrollmentId, 'E') {
      var k :| 0 <= k < |ledger'| && ledger'[k] == x;
      assert ledger[k] in ledger;
    }
  }
}
