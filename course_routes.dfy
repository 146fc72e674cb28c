/** The `/courses` handlers: create, list, get, update and delete. */
module CourseRoutes {

  import opened Wrappers
  import opened Text
  import opened Collections
  import opened Records
  import opened DataStore
  import opened Invariants
  import opened Registry

  /** The body of a successful create: `{courseId, status, enrolledCount}`. */
  datatype CourseCreated = CourseCreated(courseId: string, status: string, enrolledCount: int)

  /** One course as the list and get handlers show it. */
  datatype CourseView = CourseView(
    courseId: string,
    title: string,
    capacity: int,
    enrolledCount: int,
    availableSeats: int,
    status: string)

  /** The body of a list: `{page, limit, total, data}`. */
  datatype CoursePage = CoursePage(page: int, limit: int, total: nat, data: seq<CourseView>)

  /** The body of a get: the view plus `created_date`. */
  datatype CourseDetail = CourseDetail(view: CourseView, createdDate: string)

  /** The allow-listed keys of an update body. */
  datatype CourseUpdate = CourseUpdate(title: Option<string>, capacity: NumField, status: Option<string>)

  /** `allowedFields` of the update handler, in its order. */
  const CourseFields: seq<string> := ["title", "capacity", "status"]

  /** `typeof capacity !== 'number' || capacity < 1` fails. */
  predicate PositiveNumber(capacity: NumField) {
    capacity.Num? && capacity.n >= 1
  }

  /** POST /courses. */
  method CreateCourse(store: Store, title: Option<string>, capacity: NumField, createdAt: string)
    returns (r: Outcome<CourseCreated>)
    requires store.Valid()
    modifies store`courses
    ensures store.Valid()
    ensures !Truthy(title) || capacity.Absent? ==>
              r == Failure(400, "title and capacity are required") && store.courses == old(store.courses)
    ensures Truthy(title) && !capacity.Absent? && !PositiveNumber(capacity) ==>
              r == Failure(400, "capacity must be a positive number") && store.courses == old(store.courses)
    ensures Truthy(title) && PositiveNumber(capacity) ==>
              var id := CourseId(NextCourseNumber(old(store.courses)));
              && r == Success(201, CourseCreated(id, Open, 0))
              && CourseFolder(id) !in old(store.courses)
              && store.courses == old(store.courses)[CourseFolder(id) := Course(id, title.value, capacity.n, 0,
                                                                               Open, createdAt, None)]
  {
    if !Truthy(title) || capacity.Absent? {
      return Failure(400, "title and capacity are required");
    }
    if !PositiveNumber(capacity) {
      return Failure(400, "capacity must be a positive number");
    }
    var n := NextCourseNumber(store.courses);
    NewCourseIdIsFresh(store.courses);
    AllocatedIds(n);
    var course := Course(CourseId(n), title.value, capacity.n, 0, Open, createdAt, None);
    ghost var courses := store.courses;
    store.SaveCourse(course);
    AddCourseKeepsConsistent(store.students, courses, store.enrollments, course);
    r := Success(201, CourseCreated(course.courseId, Open, 0));
  }

  /** A course as the handlers show it, with `availableSeats`. A free seat
      is shown exactly when an enroll passes the capacity check, and a
      course within its capacity shows between zero and `capacity` seats. */
  function View(c: Course): (v: CourseView)
    ensures v.availableSeats + v.enrolledCount == v.capacity
    ensures v.courseId == c.courseId && v.capacity == c.capacity && v.enrolledCount == c.enrolledCount
    ensures v.availableSeats > 0 <==> c.enrolledCount < c.capacity
    ensures 0 <= c.enrolledCount <= c.capacity ==> 0 <= v.availableSeats <= v.capacity
  {
    CourseView(c.courseId, c.title, c.capacity, c.enrolledCount, c.capacity - c.enrolledCount, c.status)
  }

  /** Under the capacity invariant no shown course has negative or more
      than `capacity` free seats. */
  lemma {:induction false} SeatsShownInRange(courses: map<string, Course>, f: string)
    requires SeatsWithinCapacity(courses) && f in courses
    ensures 0 <= View(courses[f]).availableSeats <= View(courses[f]).capacity
    ensures View(courses[f]).availableSeats == 0 <==> courses[f].enrolledCount >= courses[f].capacity
  {
  }

  /** The courses a list request selects, in folder-name order. */
  function MatchingCourses(courses: map<string, Course>, status: Option<string>): (r: seq<Course>)
    ensures forall x :: x in r <==> x in courses.Values && StatusMatches(status, x.status)
    ensures !Truthy(status) ==> r == AllCourses(courses)
  {
    var all := AllCourses(courses);
    var keep := (c: Course) => StatusMatches(status, c.status);
    if !Truthy(status) then
      FilterAll(all, keep);
      Filter(all, keep)
    else
      Filter(all, keep)
  }

  /** GET /courses: a left-out `page` is 1 and a left-out `limit` 10; the
      answer is then `CoursesOnPage` of those numbers. */
  function ListCourses(courses: map<string, Course>, status: Option<string>, page: Option<int>, limit: Option<int>)
    : (r: CoursePage)
    requires Or(page, DefaultPage) >= 1 && Or(limit, DefaultLimit) >= 0
    ensures page.None? ==> r.page == 1
    ensures limit.None? ==> r.limit == 10
    ensures page.Some? ==> r.page == page.value
    ensures limit.Some? ==> r.limit == limit.value
    ensures r == CoursesOnPage(courses, status, r.page, r.limit)
  {
    CoursesOnPage(courses, status, Or(page, DefaultPage), Or(limit, DefaultLimit))
  }

  /** The list answer for page `page` of `limit`: `total` counts the
      selected courses before paging, `data` shows the requested page. */
  function CoursesOnPage(courses: map<string, Course>, status: Option<string>, page: int, limit: int)
    : (r: CoursePage)
    requires page >= 1 && limit >= 0
    ensures r.page == page && r.limit == limit
    ensures r.total == |MatchingCourses(courses, status)|
    ensures |r.data| <= limit && |r.data| <= r.total
    ensures |r.data| == (if PageStart(page, limit) >= r.total then 0 else Min(limit, r.total - PageStart(page, limit)))
    ensures forall i :: 0 <= i < |r.data| ==>
              PageStart(page, limit) + i < r.total
              && r.data[i] == View(MatchingCourses(courses, status)[PageStart(page, limit) + i])
  {
    var matching := MatchingCourses(courses, status);
    CoursePage(page, limit, |matching|, ViewPage(matching, page, limit))
  }

  /** `paginatedCourses.map(...)`: the views of one page of courses. */
  function ViewPage(courses: seq<Course>, page: int, limit: int): (r: seq<CourseView>)
    requires page >= 1 && limit >= 0
    ensures |r| == |Page(courses, page, limit)|
    ensures forall i :: 0 <= i < |r| ==>
              PageStart(page, limit) + i < |courses| && r[i] == View(courses[PageStart(page, limit) + i])
  {
    MapSeq(Page(courses, page, limit), View)
  }

  /** Every course a list request selects is within its capacity while the
      capacity invariant holds. */
  lemma MatchingSeatsInRange(courses: map<string, Course>, status: Option<string>)
    requires SeatsWithinCapacity(courses)
    ensures forall c :: c in MatchingCourses(courses, status) ==> 0 <= c.enrolledCount <= c.capacity
  {
    forall c | c in MatchingCourses(courses, status) ensures 0 <= c.enrolledCount <= c.capacity {
      var f :| f in courses && courses[f] == c;
    }
  }

  /** `availableSeats` is never negative on a listed page while the capacity
      invariant holds. */
  lemma {:induction false} ListedSeatsInRange(courses: map<string, Course>, status: Option<string>,
                                              page: int, limit: int)
    requires page >= 1 && limit >= 0
    requires SeatsWithinCapacity(courses)
    ensures forall v :: v in CoursesOnPage(courses, status, page, limit).data ==> 0 <= v.availableSeats <= v.capacity
  {
    MatchingSeatsInRange(courses, status);
    var matching := MatchingCourses(courses, status);
    var r := CoursesOnPage(courses, status, page, limit);
    forall v | v in r.data ensures 0 <= v.availableSeats <= v.capacity {
      var i :| 0 <= i < |r.data| && r.data[i] == v;
      assert matching[PageStart(page, limit) + i] in matching;
    }
  }

  /** GET /courses/:courseId. */
  function GetCourseDetail(courses: map<string, Course>, courseId: string): (r: Outcome<CourseDetail>)
    ensures FindCourse(courses, courseId).None? <==> r == Failure(404, "Course not found")
    ensures r.Success? ==>
              var c := FindCourse(courses, courseId).value;
              r.code == 200 && r.value.view == View(c) && r.value.createdDate == c.createdAt
    ensures r.Success? && SeatsWithinCapacity(courses) ==> 0 <= r.value.view.availableSeats
  {
    match FindCourse(courses, courseId)
    case None => Failure(404, "Course not found")
    case Some(c) => Success(200, CourseDetail(View(c), c.createdAt))
  }

  /** The `allowedFields.forEach` loop over title, capacity and status. The
      handler has refused a non-numeric capacity before the loop runs. */
  method AssignCourseFields(c: Course, u: CourseUpdate) returns (r: Course)
    requires !u.capacity.NonNumber?
    ensures r.title == Or(u.title, c.title)
    ensures r.capacity == (if u.capacity.Num? then u.capacity.n else c.capacity)
    ensures r.status == Or(u.status, c.status)
    ensures r.courseId == c.courseId && r.enrolledCount == c.enrolledCount
    ensures r.createdAt == c.createdAt && r.updatedAt == c.updatedAt
  {
    r := c;
    var fields := CourseFields;
    for i := 0 to |fields|
      invariant r.courseId == c.courseId && r.enrolledCount == c.enrolledCount
      invariant r.createdAt == c.createdAt && r.updatedAt == c.updatedAt
      invariant r.title == (if i > 0 then Or(u.title, c.title) else c.title)
      invariant r.capacity == (if i > 1 && u.capacity.Num? then u.capacity.n else c.capacity)
      invariant r.status == (if i > 2 then Or(u.status, c.status) else c.status)
    {
      var field := fields[i];
      if field == "title" && u.title.Some? {
        r := r.(title := u.title.value);
      } else if field == "capacity" && u.capacity.Num? {
        r := r.(capacity := u.capacity.n);
      } else if field == "status" && u.status.Some? {
        r := r.(status := u.status.value);
      }
    }
  }

  /** PUT /courses/:courseId: a supplied capacity must be a number, at least
      one and at least the seats already taken. */
  method UpdateCourse(store: Store, courseId: string, u: CourseUpdate, updatedAt: string)
    returns (r: Outcome<Ack>)
    requires store.Valid()
    modifies store`courses
    ensures store.Valid()
    ensures FindCourse(old(store.courses), courseId).None? ==>
              r == Failure(404, "Course not found") && store.courses == old(store.courses)
    ensures FindCourse(old(store.courses), courseId).Some? ==>
              var c := FindCourse(old(store.courses), courseId).value;
              && (!u.capacity.Absent? && !PositiveNumber(u.capacity) ==>
                    r == Failure(400, "capacity must be a positive number") && store.courses == old(store.courses))
              && (PositiveNumber(u.capacity) && u.capacity.n < c.enrolledCount ==>
                    r == Failure(400, "Capacity cannot be less than current enrolled count")
                    && store.courses == old(store.courses))
              && (u.capacity.Absent? || (PositiveNumber(u.capacity) && u.capacity.n >= c.enrolledCount) ==>
                    && r == Success(200, Updated(courseId))
                    && store.courses == old(store.courses)[CourseFolder(courseId) :=
                         c.(title := Or(u.title, c.title),
                            capacity := if u.capacity.Num? then u.capacity.n else c.capacity,
                            status := Or(u.status, c.status), updatedAt := Some(updatedAt))])
  {
    var found := FindCourse(store.courses, courseId);
    if found.None? {
      return Failure(404, "Course not found");
    }
    var c := found.value;
    if !u.capacity.Absent? {
      if !PositiveNumber(u.capacity) {
        return Failure(400, "capacity must be a positive number");
      }
      if u.capacity.n < c.enrolledCount {
        return Failure(400, "Capacity cannot be less than current enrolled count");
      }
    }
    var updated := AssignCourseFields(c, u);
    updated := updated.(updatedAt := Some(updatedAt));
    var f := CourseFolder(courseId);
    assert f in store.courses && store.courses[f] == c;
    ghost var courses := store.courses;
    store.SaveCourse(updated);
    UpdateCourseKeepsConsistent(store.students, courses, store.enrollments, f, updated);
    r := Success(200, Updated(courseId));
  }

  /** Some CONFIRMED enrollment names the course. */
  ghost predicate HasEnrolledStudents(ledger: seq<Enrollment>, courseId: string) {
    exists e :: e in ledger && e.courseId == courseId && e.status == Confirmed
  }

  /** DELETE /courses/:courseId: refused while a CONFIRMED enrollment names
      the course; CANCELLED ones do not block. */
  method DeleteCourse(store: Store, courseId: string) returns (r: Outcome<Ack>)
    requires store.Valid()
    modifies store`courses
    ensures store.Valid()
    ensures FindCourse(old(store.courses), courseId).None? ==>
              r == Failure(404, "Course not found") && store.courses == old(store.courses)
    ensures FindCourse(old(store.courses), courseId).Some? && HasEnrolledStudents(store.enrollments, courseId) ==>
              r == Failure(400, "Cannot delete course with enrolled students")
              && store.courses == old(store.courses)
    ensures FindCourse(old(store.courses), courseId).Some? && !HasEnrolledStudents(store.enrollments, courseId) ==>
              r == Success(200, Deleted(courseId))
              && store.courses == old(store.courses) - {CourseFolder(courseId)}
              && FindCourse(store.courses, courseId).None?
  {
    if FindCourse(store.courses, courseId).None? {
      return Failure(404, "Course not found");
    }
    var enrolled := CourseEnrollments(store.enrollments, courseId);
    if |enrolled| > 0 {
      assert enrolled[0] in enrolled;
      return Failure(400, "Cannot delete course with enrolled students");
    }
    ghost var courses := store.courses;
    var existed := store.DeleteCourse(courseId);
    RemoveCourseKeepsConsistent(store.students, courses, store.enrollments, CourseFolder(courseId));
    DeleteCourseThenAbsent(courses, courseId);
    r := Success(200, Deleted(courseId));
  }
}
