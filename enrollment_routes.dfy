/** The `/enrollments` handlers: enroll, list, get and cancel. Enroll and
    cancel are the only writers of the ledger, and between them the ledger
    only grows and a status only moves from CONFIRMED to CANCELLED. */
module EnrollmentRoutes {

  import opened Wrappers
  import opened Text
  import opened Collections
  import opened Records
  import opened DataStore
  import opened Invariants
  import opened Registry

  /** The body of a successful enroll: `{enrollmentId, status}`. */
  datatype EnrollReply = EnrollReply(enrollmentId: string, status: string)

  /** The body of a list: `{total, data}`. */
  datatype EnrollmentList = EnrollmentList(total: nat, data: seq<Enrollment>)

  /** The student already holds a CONFIRMED seat in the course. */
  ghost predicate AlreadyEnrolled(ledger: seq<Enrollment>, studentId: string, courseId: string) {
    exists e :: e in ledger && e.studentId == studentId && e.courseId == courseId && e.status == Confirmed
  }

  /** The answer of POST /enrollments: six checks in this order, the first
      failure wins; past all of them the answer is 201 with a fresh id. */
  function EnrollAnswer(students: map<string, Student>, courses: map<string, Course>, ledger: seq<Enrollment>,
                        studentId: Option<string>, courseId: Option<string>): (r: Outcome<EnrollReply>)
    requires LedgerWellFormed(ledger)
    ensures !Truthy(studentId) || !Truthy(courseId) ==> r == Failure(400, "studentId and courseId are required")
    ensures Truthy(studentId) && Truthy(courseId) ==>
              var sid, cid := studentId.value, courseId.value;
              && (FindStudent(students, sid).None? ==> r == Failure(404, "Student not found"))
              && (FindStudent(students, sid).Some? && FindCourse(courses, cid).None? ==>
                    r == Failure(404, "Course not found"))
              && (FindStudent(students, sid).Some? && FindCourse(courses, cid).Some? ==>
                    var c := FindCourse(courses, cid).value;
                    && (c.status != Open ==> r == Failure(400, "Course is not open for enrollment"))
                    && (c.status == Open && c.enrolledCount >= c.capacity ==>
                          r == Failure(400, "Course is at full capacity"))
                    && (c.status == Open && c.enrolledCount < c.capacity && AlreadyEnrolled(ledger, sid, cid) ==>
                          r == Failure(400, "Student is already enrolled in this course"))
                    && (c.status == Open && c.enrolledCount < c.capacity && !AlreadyEnrolled(ledger, sid, cid) ==>
                          r == Success(201, EnrollReply(EnrollmentId(NextEnrollmentNumber(ledger)), "CONFIRMED"))))
    ensures r.Success? ==> IsIdWith(r.value.enrollmentId, 'E')
                           && forall e :: e in ledger ==> e.enrollmentId != r.value.enrollmentId
  {
    if !Truthy(studentId) || !Truthy(courseId) then Failure(400, "studentId and courseId are required")
    else
      var sid, cid := studentId.value, courseId.value;
      if FindStudent(students, sid).None? then Failure(404, "Student not found")
      else if FindCourse(courses, cid).None? then Failure(404, "Course not found")
      else
        var c := FindCourse(courses, cid).value;
        if c.status != Open then Failure(400, "Course is not open for enrollment")
        else if c.enrolledCount >= c.capacity then Failure(400, "Course is at full capacity")
        else if AnyOf(StudentEnrollments(ledger, sid), ConfirmedIn(cid)) then
          AlreadyEnrolledScan(ledger, sid, cid);
          Failure(400, "Student is already enrolled in this course")
        else
          AlreadyEnrolledScan(ledger, sid, cid);
          var n := NextEnrollmentNumber(ledger);
          NewEnrollmentIdIsFresh(ledger);
          Success(201, EnrollReply(EnrollmentId(n), StatusName(Confirmed)))
  }

  /** POST /enrollments: answers as `EnrollAnswer`; a refusal changes
      nothing, a success appends one CONFIRMED entry and gives the course
      exactly one more taken seat. */
  method Enroll(store: Store, studentId: Option<string>, courseId: Option<string>, enrolledAt: string)
    returns (r: Outcome<EnrollReply>)
    requires store.Valid()
    modifies store`courses, store`enrollments
    ensures store.Valid()
    ensures LedgerEvolves(old(store.enrollments), store.enrollments)
    ensures r == EnrollAnswer(old(store.students), old(store.courses), old(store.enrollments), studentId, courseId)
    ensures r.Failure? ==> store.courses == old(store.courses) && store.enrollments == old(store.enrollments)
    ensures r.Success? ==>
              && Truthy(studentId) && Truthy(courseId) && FindCourse(old(store.courses), courseId.value).Some?
              && store.enrollments == old(store.enrollments)
                   + [Enrollment(r.value.enrollmentId, studentId.value, courseId.value, Confirmed, enrolledAt, None)]
              && store.courses == SeatTaken(old(store.courses), courseId.value)
  {
    if !Truthy(studentId) || !Truthy(courseId) {
      return Failure(400, "studentId and courseId are required");
    }
    var sid, cid := studentId.value, courseId.value;
    if FindStudent(store.students, sid).None? {
      return Failure(404, "Student not found");
    }
    var found := FindCourse(store.courses, cid);
    if found.None? {
      return Failure(404, "Course not found");
    }
    var course := found.value;
    if course.status != Open {
      return Failure(400, "Course is not open for enrollment");
    }
    if course.enrolledCount >= course.capacity {
      return Failure(400, "Course is at full capacity");
    }
    var existing := StudentEnrollments(store.enrollments, sid);
    var alreadyEnrolled := AnyOf(existing, ConfirmedIn(cid));
    AlreadyEnrolledScan(store.enrollments, sid, cid);
    if alreadyEnrolled {
      return Failure(400, "Student is already enrolled in this course");
    }
    var id := EnrollmentId(NextEnrollmentNumber(store.enrollments));
    NewEnrollmentIdIsFresh(store.enrollments);
    var enrollment := Enrollment(id, sid, cid, Confirmed, enrolledAt, None);
    TakeSeat(store, enrollment);
    r := Success(201, EnrollReply(id, StatusName(Confirmed)));
  }

  /** The course map once the course takes one more seat: only its own
      folder changes, and only in the counter. */
  function SeatTaken(courses: map<string, Course>, courseId: string): (r: map<string, Course>)
    requires FindCourse(courses, courseId).Some?
    ensures CourseFolder(courseId) in courses && r.Keys == courses.Keys
    ensures r[CourseFolder(courseId)] == courses[CourseFolder(courseId)].(enrolledCount := courses[CourseFolder(courseId)].enrolledCount + 1)
    ensures forall f :: f in courses && f != CourseFolder(courseId) ==> r[f] == courses[f]
  {
    var c := FindCourse(courses, courseId).value;
    courses[CourseFolder(courseId) := c.(enrolledCount := c.enrolledCount + 1)]
  }

  /** The writes of a successful enroll: `course.enrolledCount += 1` saved,
      then the entry pushed onto the ledger and the ledger saved. */
  method TakeSeat(store: Store, e: Enrollment)
    requires store.Valid()
    requires IsIdWith(e.enrollmentId, 'E') && forall x :: x in store.enrollments ==> x.enrollmentId != e.enrollmentId
    requires e.status == Confirmed
    requires FindStudent(store.students, e.studentId).Some? && FindCourse(store.courses, e.courseId).Some?
    requires FindCourse(store.courses, e.courseId).value.enrolledCount < FindCourse(store.courses, e.courseId).value.capacity
    requires !AlreadyEnrolled(store.enrollments, e.studentId, e.courseId)
    modifies store`courses, store`enrollments
    ensures store.Valid()
    ensures LedgerEvolves(old(store.enrollments), store.enrollments)
    ensures store.enrollments == old(store.enrollments) + [e]
    ensures store.courses == SeatTaken(old(store.courses), e.courseId)
  {
    ghost var courses, ledger := store.courses, store.enrollments;
    var course := FindCourse(store.courses, e.courseId).value;
    course := course.(enrolledCount := course.enrolledCount + 1);
    store.SaveCourse(course);
    var enrollments := store.enrollments;
    enrollments := enrollments + [e];
    store.SaveEnrollments(enrollments);
    EnrolledStateConsistent(store.students, courses, ledger, e, store.courses, store.enrollments);
  }

  /** `EnrollKeepsConsistent` and `AppendEvolves` for the state the writes
      of an enroll leave behind. */
  lemma EnrolledStateConsistent(students: map<string, Student>, courses: map<string, Course>,
                                ledger: seq<Enrollment>, e: Enrollment,
                                courses': map<string, Course>, ledger': seq<Enrollment>)
    requires Consistent(students, courses, ledger)
    requires IsIdWith(e.enrollmentId, 'E') && forall x :: x in ledger ==> x.enrollmentId != e.enrollmentId
    requires e.status == Confirmed
    requires FindStudent(students, e.studentId).Some? && FindCourse(courses, e.courseId).Some?
    requires FindCourse(courses, e.courseId).value.enrolledCount < FindCourse(courses, e.courseId).value.capacity
    requires !AlreadyEnrolled(ledger, e.studentId, e.courseId)
    requires var c := FindCourse(courses, e.courseId).value;
             courses' == courses[CourseFolder(e.courseId) := c.(enrolledCount := c.enrolledCount + 1)]
    requires ledger' == ledger + [e]
    ensures Consistent(students, courses', ledger')
    ensures LedgerEvolves(ledger, ledger')
  {
    forall x | x in ledger && x.status == Confirmed ensures !SamePair(x, e) {
    }
    EnrollKeepsConsistent(students, courses, ledger, e);
    AppendEvolves(ledger, e);
  }

  /** The test of the duplicate check: a CONFIRMED entry for the course. */
  function ConfirmedIn(courseId: string): Enrollment -> bool {
    (e: Enrollment) => e.courseId == courseId && e.status == Confirmed
  }

  /** The duplicate check scans the student's entries for a CONFIRMED one of
      the course, which is asking whether the pair already holds a seat. */
  lemma AlreadyEnrolledScan(ledger: seq<Enrollment>, studentId: string, courseId: string)
    ensures AnyOf(StudentEnrollments(ledger, studentId), ConfirmedIn(courseId)) == AlreadyEnrolled(ledger, studentId, courseId)
  {
    if AlreadyEnrolled(ledger, studentId, courseId) {
      var e :| e in ledger && e.studentId == studentId && e.courseId == courseId && e.status == Confirmed;
      assert e in StudentEnrollments(ledger, studentId);
    }
  }

  /** The three optional query filters of the list handler. */
  function ByStudent(studentId: Option<string>): Enrollment -> bool {
    (e: Enrollment) => !Truthy(studentId) || e.studentId == studentId.value
  }

  function ByCourse(courseId: Option<string>): Enrollment -> bool {
    (e: Enrollment) => !Truthy(courseId) || e.courseId == courseId.value
  }

  function ByStatus(status: Option<string>): Enrollment -> bool {
    (e: Enrollment) => StatusMatches(status, StatusName(e.status))
  }

  /** All three filters at once. */
  function Selected(studentId: Option<string>, courseId: Option<string>, status: Option<string>): Enrollment -> bool {
    (e: Enrollment) => ByStudent(studentId)(e) && ByCourse(courseId)(e) && ByStatus(status)(e)
  }

  /** GET /enrollments: the filters the query supplies, applied one after
      the other, select exactly the entries that pass all of them, in
      ledger order; `total` is the number selected. */
  function ListEnrollments(ledger: seq<Enrollment>, studentId: Option<string>, courseId: Option<string>,
                           status: Option<string>): (r: EnrollmentList)
    ensures r.total == |r.data|
    ensures r.data == Filter(ledger, Selected(studentId, courseId, status))
    ensures forall e :: e in r.data <==>
              && e in ledger
              && (Truthy(studentId) ==> e.studentId == studentId.value)
              && (Truthy(courseId) ==> e.courseId == courseId.value)
              && (Truthy(status) ==> StatusName(e.status) == Upper(status.value))
  {
    var afterStudent := if Truthy(studentId) then Filter(ledger, ByStudent(studentId)) else ledger;
    var afterCourse := if Truthy(courseId) then Filter(afterStudent, ByCourse(courseId)) else afterStudent;
    var afterStatus := if Truthy(status) then Filter(afterCourse, ByStatus(status)) else afterCourse;
    FiltersConjoin(ledger, studentId, courseId, status);
    EnrollmentList(|afterStatus|, afterStatus)
  }

  /** The list handler's chain of optional filters is one filter by their
      conjunction. */
  lemma {:induction false} FiltersConjoin(ledger: seq<Enrollment>, studentId: Option<string>,
                                          courseId: Option<string>, status: Option<string>)
    ensures var afterStudent := if Truthy(studentId) then Filter(ledger, ByStudent(studentId)) else ledger;
            var afterCourse := if Truthy(courseId) then Filter(afterStudent, ByCourse(courseId)) else afterStudent;
            var afterStatus := if Truthy(status) then Filter(afterCourse, ByStatus(status)) else afterCourse;
            afterStatus == Filter(ledger, Selected(studentId, courseId, status))
  {
    var p, q, s := ByStudent(studentId), ByCourse(courseId), ByStatus(status);
    var pq := (e: Enrollment) => p(e) && q(e);
    var afterStudent := if Truthy(studentId) then Filter(ledger, p) else ledger;
    if !Truthy(studentId) {
      FilterAll(ledger, p);
    }
    assert afterStudent == Filter(ledger, p);
    var afterCourse := if Truthy(courseId) then Filter(afterStudent, q) else afterStudent;
    if !Truthy(courseId) {
      FilterAll(afterStudent, q);
    }
    FilterFilter(ledger, p, q, pq);
    assert afterCourse == Filter(ledger, pq);
    if !Truthy(status) {
      FilterAll(afterCourse, s);
    }
    FilterFilter(ledger, pq, s, Selected(studentId, courseId, status));
  }

  /** GET /enrollments/:enrollmentId: the first entry with that id. */
  function GetEnrollmentDetail(ledger: seq<Enrollment>, enrollmentId: string): (r: Outcome<Enrollment>)
    ensures r.Failure? <==> forall e :: e in ledger ==> e.enrollmentId != enrollmentId
    ensures r.Failure? ==> r == Failure(404, "Enrollment not found")
    ensures r.Success? ==> r.code == 200 && r.value in ledger && r.value.enrollmentId == enrollmentId
    ensures r.Success? && LedgerWellFormed(ledger) ==>
              forall e :: e in ledger && e.enrollmentId == enrollmentId ==> e == r.value
  {
    match GetEnrollment(ledger, enrollmentId)
    case None => Failure(404, "Enrollment not found")
    case Some(e) =>
      assert LedgerWellFormed(ledger) ==> forall x :: x in ledger && x.enrollmentId == enrollmentId ==> x == e by {
        if LedgerWellFormed(ledger) {
          forall x | x in ledger && x.enrollmentId == enrollmentId ensures x == e {
            var i :| 0 <= i < |ledger| && ledger[i] == x;
            var j :| 0 <= j < |ledger| && ledger[j] == e;
            assert i == j;
          }
        }
      }
      Success(200, e)
  }

  /** PUT /enrollments/:enrollmentId/cancel: an unknown id and an entry
      already CANCELLED are refused without change; otherwise that one entry
      becomes CANCELLED and its course gives the seat back. */
  method Cancel(store: Store, enrollmentId: string, cancelledAt: string) returns (r: Outcome<string>)
    requires store.Valid()
    modifies store`courses, store`enrollments
    ensures store.Valid()
    ensures LedgerEvolves(old(store.enrollments), store.enrollments)
    ensures r.Failure? ==> store.courses == old(store.courses) && store.enrollments == old(store.enrollments)
    ensures FindIndex(old(store.enrollments), enrollmentId).None? ==> r == Failure(404, "Enrollment not found")
    ensures FindIndex(old(store.enrollments), enrollmentId).Some? ==>
              var i := FindIndex(old(store.enrollments), enrollmentId).value;
              var e := old(store.enrollments)[i];
              && (e.status == Cancelled ==> r == Failure(400, "Enrollment is already cancelled"))
              && (e.status == Confirmed ==>
                    && r == Success(200, "CANCELLED")
                    && store.enrollments == old(store.enrollments)[i := e.(status := Cancelled, cancelledAt := Some(cancelledAt))]
                    && FindCourse(old(store.courses), e.courseId).Some?
                    && FindCourse(old(store.courses), e.courseId).value.enrolledCount >= 1
                    && store.courses == SeatReturned(old(store.courses), e.courseId))
  {
    var index := FindIndex(store.enrollments, enrollmentId);
    if index.None? {
      return Failure(404, "Enrollment not found");
    }
    var i := index.value;
    var enrollments := store.enrollments;
    var enrollment := enrollments[i];
    if enrollment.status == Cancelled {
      return Failure(400, "Enrollment is already cancelled");
    }
    CancelledStateConsistent(store.students, store.courses, enrollments, i, cancelledAt);
    ReleaseSeat(store, i, cancelledAt);
    r := Success(200, StatusName(Cancelled));
  }

  /** The course map once the course gives one seat back: only its own
      folder changes, and only in the counter. */
  function SeatReturned(courses: map<string, Course>, courseId: string): (r: map<string, Course>)
    requires FindCourse(courses, courseId).Some? && FindCourse(courses, courseId).value.enrolledCount >= 1
    ensures CourseFolder(courseId) in courses && r.Keys == courses.Keys
    ensures r[CourseFolder(courseId)] == courses[CourseFolder(courseId)].(enrolledCount := courses[CourseFolder(courseId)].enrolledCount - 1)
    ensures forall f :: f in courses && f != CourseFolder(courseId) ==> r[f] == courses[f]
  {
    var c := FindCourse(courses, courseId).value;
    courses[CourseFolder(courseId) := c.(enrolledCount := c.enrolledCount - 1)]
  }

  /** The writes of a cancel: the entry marked CANCELLED with its
      `cancelledAt` and the ledger saved; when the course is found its
      counter is lowered, never below zero, and the course saved. */
  method ReleaseSeat(store: Store, i: nat, cancelledAt: string)
    requires i < |store.enrollments|
    modifies store`courses, store`enrollments
    ensures var e := old(store.enrollments)[i];
            store.enrollments == old(store.enrollments)[i := e.(status := Cancelled, cancelledAt := Some(cancelledAt))]
    ensures var found := FindCourse(old(store.courses), old(store.enrollments)[i].courseId);
            && (found.Some? ==>
                  store.courses == old(store.courses)[CourseFolder(found.value.courseId) :=
                                     found.value.(enrolledCount := FlooredDecrement(found.value.enrolledCount))])
            && (found.None? ==> store.courses == old(store.courses))
  {
    var enrollments := store.enrollments;
    var enrollment := enrollments[i].(status := Cancelled, cancelledAt := Some(cancelledAt));
    var found := FindCourse(store.courses, enrollment.courseId);
    if found.Some? {
      var course := found.value;
      store.SaveCourse(course.(enrolledCount := FlooredDecrement(course.enrolledCount)));
    }
    store.SaveEnrollments(enrollments[i := enrollment]);
  }

  /** `CancelKeepsConsistent` and `CancelEvolves` for the writes of a
      cancel: the floored counter is the counter one lower, and the state
      those writes leave is consistent with the ledger evolved. */
  lemma CancelledStateConsistent(students: map<string, Student>, courses: map<string, Course>,
                                 ledger: seq<Enrollment>, i: nat, cancelledAt: string)
    requires Consistent(students, courses, ledger)
    requires i < |ledger| && ledger[i].status == Confirmed
    ensures FindCourse(courses, ledger[i].courseId).Some?
    ensures FindCourse(courses, ledger[i].courseId).value.enrolledCount >= 1
    ensures var c := FindCourse(courses, ledger[i].courseId).value;
            courses[CourseFolder(c.courseId) := c.(enrolledCount := FlooredDecrement(c.enrolledCount))]
              == SeatReturned(courses, ledger[i].courseId)
    ensures var ledger' := ledger[i := ledger[i].(status := Cancelled, cancelledAt := Some(cancelledAt))];
            Consistent(students, SeatReturned(courses, ledger[i].courseId), ledger') && LedgerEvolves(ledger, ledger')
  {
    CancelFindsTakenSeat(students, courses, ledger, i);
    FlooredCountReturnsSeat(courses, ledger[i].courseId);
    CancelKeepsConsistent(students, courses, ledger, i, cancelledAt);
    CancelEvolves(ledger, i, cancelledAt);
  }

  /** With a seat taken the floor at zero never takes effect: the
      floored write is `SeatReturned`. */
  lemma FlooredCountReturnsSeat(courses: map<string, Course>, courseId: string)
    requires FindCourse(courses, courseId).Some? && FindCourse(courses, courseId).value.enrolledCount >= 1
    ensures var c := FindCourse(courses, courseId).value;
            courses[CourseFolder(c.courseId) := c.(enrolledCount := FlooredDecrement(c.enrolledCount))]
              == SeatReturned(courses, courseId)
  {
  }

  /** The id aliasing of the as-written lookup. With course `C2001` stored
      and its counter in step with an empty ledger, `getCourse("2001")`
      finds it, since only the first 'C' is stripped and there is none.
      The as-written handler then raises the counter of `C2001` and
      appends an entry naming `"2001"`, which no course's count sees: the
      counter and the ledger disagree. The lookup by own id refuses
      `"2001"` with 404 instead. */
  lemma {:induction false} IdAliasBreaksCounts(enrolledAt: string)
    ensures var c := Course(CourseId(2001), "Algebra", 1, 0, Open, enrolledAt, None);
            var courses := map[CourseFolder(CourseId(2001)) := c];
            var alias := Decimal(2001);
            var e := Enrollment(EnrollmentId(3001), StudentId(1001), alias, Confirmed, enrolledAt, None);
            && CountsMatchLedger(courses, [])
            && GetCourse(courses, alias) == Some(c)
            && !CountsMatchLedger(courses[CourseFolder(alias) := c.(enrolledCount := 1)], [e])
            && FindCourse(courses, alias).None?
  {
    var c := Course(CourseId(2001), "Algebra", 1, 0, Open, enrolledAt, None);
    var f := CourseFolder(CourseId(2001));
    var courses := map[f := c];
    var alias := Decimal(2001);
    var e := Enrollment(EnrollmentId(3001), StudentId(1001), alias, Confirmed, enrolledAt, None);
    assert CourseId(2001)[1..] == alias;
    assert 'C' !in alias by {
      forall i | 0 <= i < |alias| ensures alias[i] != 'C' {
        assert IsDigit(alias[i]);
      }
    }
    assert CourseFolder(alias) == f;
    assert CourseId(2001) != alias;
    assert CourseEnrollments([e], CourseId(2001)) == [];
    var courses' := courses[CourseFolder(alias) := c.(enrolledCount := 1)];
    assert f in courses' && courses'[f].enrolledCount != ConfirmedCount([e], courses'[f].courseId);
  }
}
