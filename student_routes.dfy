/** The `/students` handlers: create, list, get, update and delete. Each
    writing handler reads the store, runs its checks in order (the first
    failure answers and changes nothing) and then writes. */
module StudentRoutes {

  import opened Wrappers
  import opened Text
  import opened Collections
  import opened Records
  import opened DataStore
  import opened Invariants
  import opened Registry

  /** The body of a successful create: `{studentId, status}`. */
  datatype Created = Created(studentId: string, status: string)

  /** The body of a list: `{page, limit, total, data}`. */
  datatype StudentPage = StudentPage(page: int, limit: int, total: nat, data: seq<Student>)

  /** One entry of the `enrollments` array of a student's details. */
  datatype EnrollmentSummary = EnrollmentSummary(enrollmentId: string, courseId: string, status: EnrollmentStatus)

  /** The body of a get: the stored record with its enrollments attached. */
  datatype StudentDetail = StudentDetail(student: Student, enrollments: seq<EnrollmentSummary>)

  /** The allow-listed keys of an update body; `None` is a key left out.
      Other keys of the body are never read. */
  datatype StudentUpdate = StudentUpdate(name: Option<string>, email: Option<string>, status: Option<string>)

  /** `allowedFields` of the update handler, in its order. */
  const StudentFields: seq<string> := ["name", "email", "status"]

  /** POST /students. */
  method CreateStudent(store: Store, name: Option<string>, email: Option<string>, createdAt: string)
    returns (r: Outcome<Created>)
    requires store.Valid()
    modifies store`students
    ensures store.Valid()
    ensures !Truthy(name) || !Truthy(email) ==>
              r == Failure(400, "name and email are required") && store.students == old(store.students)
    ensures Truthy(name) && Truthy(email) && StudentEmailExists(old(store.students), email.value, None) ==>
              r == Failure(400, "Email already exists") && store.students == old(store.students)
    ensures Truthy(name) && Truthy(email) && !StudentEmailExists(old(store.students), email.value, None) ==>
              var id := StudentId(NextStudentNumber(old(store.students)));
              && r == Success(201, Created(id, Active))
              && StudentFolder(id) !in old(store.students)
              && store.students == old(store.students)[StudentFolder(id) := Student(id, name.value, email.value,
                                                                                     Active, createdAt, None)]
  {
    if !Truthy(name) || !Truthy(email) {
      return Failure(400, "name and email are required");
    }
    if StudentEmailExists(store.students, email.value, None) {
      return Failure(400, "Email already exists");
    }
    var n := NextStudentNumber(store.students);
    NewStudentIdIsFresh(store.students);
    AllocatedIds(n);
    var student := Student(StudentId(n), name.value, email.value, Active, createdAt, None);
    ghost var students := store.students;
    store.SaveStudent(student);
    AddStudentKeepsConsistent(students, store.courses, store.enrollments, student);
    r := Success(201, Created(student.studentId, Active));
  }

  /** The students a list request selects, in folder-name order. */
  function MatchingStudents(students: map<string, Student>, status: Option<string>): (r: seq<Student>)
    ensures forall x :: x in r <==> x in students.Values && StatusMatches(status, x.status)
    ensures !Truthy(status) ==> r == AllStudents(students)
  {
    var all := AllStudents(students);
    var keep := (s: Student) => StatusMatches(status, s.status);
    if !Truthy(status) then
      FilterAll(all, keep);
      Filter(all, keep)
    else
      Filter(all, keep)
  }

  /** GET /students: a left-out `page` is 1 and a left-out `limit` 10; the
      answer is then `StudentsOnPage` of those numbers. */
  function ListStudents(students: map<string, Student>, status: Option<string>, page: Option<int>, limit: Option<int>)
    : (r: StudentPage)
    requires Or(page, DefaultPage) >= 1 && Or(limit, DefaultLimit) >= 0
    ensures page.None? ==> r.page == 1
    ensures limit.None? ==> r.limit == 10
    ensures page.Some? ==> r.page == page.value
    ensures limit.Some? ==> r.limit == limit.value
    ensures r == StudentsOnPage(students, status, r.page, r.limit)
  {
    StudentsOnPage(students, status, Or(page, DefaultPage), Or(limit, DefaultLimit))
  }

  /** The list answer for page `page` of `limit`: `total` counts every
      selected student, `data` is the requested page of them. */
  function StudentsOnPage(students: map<string, Student>, status: Option<string>, page: int, limit: int)
    : (r: StudentPage)
    requires page >= 1 && limit >= 0
    ensures r.page == page && r.limit == limit
    ensures r.total == |MatchingStudents(students, status)|
    ensures |r.data| <= limit && |r.data| <= r.total
    ensures |r.data| == (if PageStart(page, limit) >= r.total then 0 else Min(limit, r.total - PageStart(page, limit)))
    ensures forall x :: x in r.data ==> x in students.Values && StatusMatches(status, x.status)
    ensures forall i :: 0 <= i < |r.data| ==>
              PageStart(page, limit) + i < r.total
              && r.data[i] == MatchingStudents(students, status)[PageStart(page, limit) + i]
  {
    var matching := MatchingStudents(students, status);
    var data := Page(matching, page, limit);
    assert forall x :: x in data ==> x in matching;
    StudentPage(page, limit, |matching|, data)
  }

  /** Page `page` holds exactly the selected students from position
      `(page - 1) * limit` on, up to `limit` of them; together with
      `Collections.PageCovers` no selected student is left off every page. */
  lemma {:induction false} PageWindow(students: map<string, Student>, status: Option<string>,
                                      page: int, limit: int, j: nat)
    requires page >= 1 && limit >= 0
    requires PageStart(page, limit) <= j < PageStart(page, limit) + limit
    requires j < |MatchingStudents(students, status)|
    ensures j - PageStart(page, limit) < |StudentsOnPage(students, status, page, limit).data|
    ensures StudentsOnPage(students, status, page, limit).data[j - PageStart(page, limit)]
            == MatchingStudents(students, status)[j]
  {
    var matching := MatchingStudents(students, status);
    assert StudentsOnPage(students, status, page, limit).data == Page(matching, page, limit);
  }

  function Summary(e: Enrollment): EnrollmentSummary {
    EnrollmentSummary(e.enrollmentId, e.courseId, e.status)
  }

  /** GET /students/:studentId: the record and every enrollment of the
      student, of any status, in ledger order. */
  function GetStudentDetail(students: map<string, Student>, ledger: seq<Enrollment>, studentId: string)
    : (r: Outcome<StudentDetail>)
    ensures FindStudent(students, studentId).None? <==> r == Failure(404, "Student not found")
    ensures r.Success? ==> r.code == 200 && r.value.student == FindStudent(students, studentId).value
    ensures r.Success? ==>
              && |r.value.enrollments| == |StudentEnrollments(ledger, studentId)|
              && (forall i :: 0 <= i < |r.value.enrollments| ==>
                    r.value.enrollments[i] == Summary(StudentEnrollments(ledger, studentId)[i]))
              && (forall e :: e in ledger && e.studentId == studentId ==> Summary(e) in r.value.enrollments)
  {
    match FindStudent(students, studentId)
    case None => Failure(404, "Student not found")
    case Some(s) =>
      var mine := StudentEnrollments(ledger, studentId);
      var summaries := MapSeq(mine, Summary);
      assert forall e :: e in mine ==> Summary(e) in summaries by {
        forall e | e in mine ensures Summary(e) in summaries {
          var i :| 0 <= i < |mine| && mine[i] == e;
          assert summaries[i] == Summary(e);
        }
      }
      Success(200, StudentDetail(s, summaries))
  }

  /** The `allowedFields.forEach` loop: copies each allow-listed key the body
      supplies onto the record, and nothing else. */
  method AssignStudentFields(s: Student, u: StudentUpdate) returns (r: Student)
    ensures r.name == Or(u.name, s.name)
    ensures r.email == Or(u.email, s.email)
    ensures r.status == Or(u.status, s.status)
    ensures r.studentId == s.studentId && r.createdAt == s.createdAt && r.updatedAt == s.updatedAt
  {
    r := s;
    var fields := StudentFields;
    for i := 0 to |fields|
      invariant r.studentId == s.studentId && r.createdAt == s.createdAt && r.updatedAt == s.updatedAt
      invariant r.name == (if i > 0 then Or(u.name, s.name) else s.name)
      invariant r.email == (if i > 1 then Or(u.email, s.email) else s.email)
      invariant r.status == (if i > 2 then Or(u.status, s.status) else s.status)
    {
      var field := fields[i];
      if field == "name" && u.name.Some? {
        r := r.(name := u.name.value);
      } else if field == "email" && u.email.Some? {
        r := r.(email := u.email.value);
      } else if field == "status" && u.status.Some? {
        r := r.(status := u.status.value);
      }
    }
  }

  /** The update's e-mail check fires only for a truthy e-mail that differs
      from the current one and belongs to another student. */
  predicate EmailTaken(students: map<string, Student>, current: Student, studentId: string, u: StudentUpdate) {
    Truthy(u.email) && u.email.value != current.email && StudentEmailExists(students, u.email.value, Some(studentId))
  }

  /** PUT /students/:studentId. */
  method UpdateStudent(store: Store, studentId: string, u: StudentUpdate, updatedAt: string)
    returns (r: Outcome<Ack>)
    requires store.Valid()
    modifies store`students
    ensures store.Valid()
    ensures FindStudent(old(store.students), studentId).None? ==>
              r == Failure(404, "Student not found") && store.students == old(store.students)
    ensures FindStudent(old(store.students), studentId).Some? ==>
              var s := FindStudent(old(store.students), studentId).value;
              && (EmailTaken(old(store.students), s, studentId, u) ==>
                    r == Failure(400, "Email already exists") && store.students == old(store.students))
              && (!EmailTaken(old(store.students), s, studentId, u) ==>
                    && r == Success(200, Updated(studentId))
                    && store.students == old(store.students)[StudentFolder(studentId) :=
                         s.(name := Or(u.name, s.name), email := Or(u.email, s.email),
                            status := Or(u.status, s.status), updatedAt := Some(updatedAt))])
  {
    var found := FindStudent(store.students, studentId);
    if found.None? {
      return Failure(404, "Student not found");
    }
    var s := found.value;
    if EmailTaken(store.students, s, studentId, u) {
      return Failure(400, "Email already exists");
    }
    var updated := AssignStudentFields(s, u);
    updated := updated.(updatedAt := Some(updatedAt));
    var f := StudentFolder(studentId);
    assert f in store.students && store.students[f] == s;
    ghost var students := store.students;
    store.SaveStudent(updated);
    UpdateStudentKeepsConsistent(students, store.courses, store.enrollments, f, updated);
    r := Success(200, Updated(studentId));
  }

  /** The student has an enrollment that is still CONFIRMED. */
  ghost predicate HasActiveEnrollment(ledger: seq<Enrollment>, studentId: string) {
    exists e :: e in ledger && e.studentId == studentId && e.status == Confirmed
  }

  /** DELETE /students/:studentId: refused while any enrollment of the
      student is CONFIRMED; CANCELLED ones do not block. */
  method DeleteStudent(store: Store, studentId: string) returns (r: Outcome<Ack>)
    requires store.Valid()
    modifies store`students
    ensures store.Valid()
    ensures FindStudent(old(store.students), studentId).None? ==>
              r == Failure(404, "Student not found") && store.students == old(store.students)
    ensures FindStudent(old(store.students), studentId).Some? && HasActiveEnrollment(store.enrollments, studentId) ==>
              r == Failure(400, "Cannot delete student with active course enrollments")
              && store.students == old(store.students)
    ensures FindStudent(old(store.students), studentId).Some? && !HasActiveEnrollment(store.enrollments, studentId) ==>
              r == Success(200, Deleted(studentId))
              && store.students == old(store.students) - {StudentFolder(studentId)}
              && FindStudent(store.students, studentId).None?
  {
    if FindStudent(store.students, studentId).None? {
      return Failure(404, "Student not found");
    }
    var mine := StudentEnrollments(store.enrollments, studentId);
    var active := Filter(mine, (e: Enrollment) => e.status == Confirmed);
    if |active| > 0 {
      assert active[0] in active;
      return Failure(400, "Cannot delete student with active course enrollments");
    }
    assert !HasActiveEnrollment(store.enrollments, studentId) by {
      forall e | e in store.enrollments && e.studentId == studentId ensures e.status != Confirmed {
        assert e in mine;
      }
    }
    ghost var students := store.students;
    var existed := store.DeleteStudent(studentId);
    RemoveStudentKeepsConsistent(students, store.courses, store.enrollments, StudentFolder(studentId));
    DeleteThenAbsent(students, studentId);
    r := Success(200, Deleted(studentId));
  }
}
