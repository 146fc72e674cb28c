/** The queries of the persistence layer: id allocation, the folder name of a
    record, lookups, directory listings, the e-mail scan and the views of the
    enrollment ledger. The writes (save, delete, tokens) are the methods of
    `Registry.Store`. Entity maps are keyed by folder name (`s_1001`,
    `c_2001`), as the records sit on disk. */
module DataStore {

  import opened Wrappers
  import opened Text
  import opened Collections
  import opened Records

  const StudentSeed: nat := 1001
  const CourseSeed: nat := 2001
  const EnrollmentSeed: nat := 3001
  /** One hour, in milliseconds. */
  const TokenLifetime: int := 3600000

  function StudentId(n: nat): string {
    "S" + Decimal(n)
  }

  function CourseId(n: nat): string {
    "C" + Decimal(n)
  }

  function EnrollmentId(n: nat): string {
    "E" + Decimal(n)
  }

  /** `getStudentFolderPath`: `s_` followed by the id with its first `S`
      removed. A well-formed id loses its letter; an id without any `S`
      (such as `"1001"`) is used as it is, and so shares the folder of `S1001`. */
  function StudentFolder(studentId: string): (f: string)
    ensures |f| >= 2 && f[..2] == "s_"
    ensures IsIdWith(studentId, 'S') ==> f == "s_" + studentId[1..]
    ensures 'S' !in studentId ==> f == "s_" + studentId
  {
    "s_" + ReplaceFirst(studentId, 'S')
  }

  /** `getCourseFolderPath`: `c_` followed by the id with its first `C`
      removed; `"2001"` shares the folder of `C2001`. */
  function CourseFolder(courseId: string): (f: string)
    ensures |f| >= 2 && f[..2] == "c_"
    ensures IsIdWith(courseId, 'C') ==> f == "c_" + courseId[1..]
    ensures 'C' !in courseId ==> f == "c_" + courseId
  {
    "c_" + ReplaceFirst(courseId, 'C')
  }

  /** A folder the allocator can read: `prefix` followed by digits. */
  predicate IsFolderName(folder: string, prefix: string) {
    StartsWith(folder, prefix) && |folder| > |prefix| && AllDigits(folder[|prefix|..])
  }

  /** `parseInt(folder.replace(prefix, ''))`; the prefix is the first
      occurrence of the pattern. */
  function FolderNumber(folder: string, prefix: string): nat
    requires IsFolderName(folder, prefix)
  {
    DigitsValue(folder[|prefix|..])
  }

  /** A well-formed id: its letter followed by digits. */
  predicate IsIdWith(id: string, letter: char) {
    |id| >= 2 && id[0] == letter && AllDigits(id[1..])
  }

  /** `parseInt(id.replace(letter, ''))` for a well-formed id. */
  function IdNumber(id: string, letter: char): nat
    requires IsIdWith(id, letter)
  {
    DigitsValue(id[1..])
  }

  /** Key round trip: the folder of `S<n>` is `s_<n>`, and the allocator
      reads `n` back from it (likewise for courses). */
  lemma FolderRoundTrip(n: nat)
    ensures StudentFolder(StudentId(n)) == "s_" + Decimal(n)
    ensures CourseFolder(CourseId(n)) == "c_" + Decimal(n)
    ensures IsFolderName("s_" + Decimal(n), "s_") && FolderNumber("s_" + Decimal(n), "s_") == n
    ensures IsFolderName("c_" + Decimal(n), "c_") && FolderNumber("c_" + Decimal(n), "c_") == n
  {
    assert ("s_" + Decimal(n))[2..] == Decimal(n);
    assert ("c_" + Decimal(n))[2..] == Decimal(n);
    DecimalRoundTrip(n);
  }

  /** The folder of a well-formed id is a folder the allocator can read, and
      it gives back the id's number. */
  lemma FolderOfId(id: string, letter: char, prefix: string)
    requires IsIdWith(id, letter) && |prefix| == 2 && prefix[1] == '_'
    ensures IsFolderName(prefix + ReplaceFirst(id, letter), prefix)
    ensures FolderNumber(prefix + ReplaceFirst(id, letter), prefix) == IdNumber(id, letter)
  {
    assert (prefix + ReplaceFirst(id, letter))[|prefix|..] == id[1..];
  }

  function FolderNumbers(folders: seq<string>, prefix: string): (r: seq<nat>)
    requires forall f :: f in folders ==> IsFolderName(f, prefix)
    ensures |r| == |folders|
    ensures forall i :: 0 <= i < |folders| ==> r[i] == FolderNumber(folders[i], prefix)
  {
    if folders == [] then [] else [FolderNumber(folders[0], prefix)] + FolderNumbers(folders[1..], prefix)
  }

  /** `getNextStudentId` / `getNextCourseId`: the seed when the directory is
      empty, otherwise one more than the largest number among the folders. */
  function NextFolderNumber(folders: set<string>, prefix: string, seed: nat): (n: nat)
    requires forall f :: f in folders ==> IsFolderName(f, prefix)
    ensures folders == {} ==> n == seed
    ensures folders != {} ==> exists f :: f in folders && n == FolderNumber(f, prefix) + 1
    ensures forall f :: f in folders ==> FolderNumber(f, prefix) < n
  {
    var listing := SortedNames(folders);
    if |listing| == 0 then seed
    else
      var numbers := FolderNumbers(listing, prefix);
      var m := MaxOf(numbers);
      ListedNumbers(folders, prefix);
      var i :| 0 <= i < |numbers| && numbers[i] == m;
      assert listing[i] in folders;
      m + 1
  }

  /** The number of every folder is among the numbers read off the listing. */
  lemma ListedNumbers(folders: set<string>, prefix: string)
    requires forall f :: f in folders ==> IsFolderName(f, prefix)
    ensures forall f :: f in folders ==> FolderNumber(f, prefix) in FolderNumbers(SortedNames(folders), prefix)
  {
    var listing := SortedNames(folders);
    var numbers := FolderNumbers(listing, prefix);
    forall f | f in folders ensures FolderNumber(f, prefix) in numbers {
      var i :| 0 <= i < |listing| && listing[i] == f;
      assert numbers[i] == FolderNumber(f, prefix);
    }
  }

  /** `getNextStudentId`: 1001 for an empty directory, otherwise one more
      than the largest folder number. */
  function NextStudentNumber(students: map<string, Student>): (n: nat)
    requires StudentsWellKeyed(students)
    ensures students == map[] ==> n == StudentSeed
    ensures forall f :: f in students ==> IsFolderName(f, "s_") && FolderNumber(f, "s_") < n
    ensures students != map[] ==> exists f :: f in students && IsFolderName(f, "s_") && n == FolderNumber(f, "s_") + 1
  {
    StudentFoldersReadable(students);
    NextFolderNumber(students.Keys, "s_", StudentSeed)
  }

  /** `getNextCourseId`: 2001 for an empty directory, otherwise one more
      than the largest folder number. */
  function NextCourseNumber(courses: map<string, Course>): (n: nat)
    requires CoursesWellKeyed(courses)
    ensures courses == map[] ==> n == CourseSeed
    ensures forall f :: f in courses ==> IsFolderName(f, "c_") && FolderNumber(f, "c_") < n
    ensures courses != map[] ==> exists f :: f in courses && IsFolderName(f, "c_") && n == FolderNumber(f, "c_") + 1
  {
    CourseFoldersReadable(courses);
    NextFolderNumber(courses.Keys, "c_", CourseSeed)
  }

  /** The folder of a freshly allocated id is not taken. */
  lemma {:induction false} NewFolderIsFresh(folders: set<string>, prefix: string, seed: nat)
    requires forall f :: f in folders ==> IsFolderName(f, prefix)
    ensures prefix + Decimal(NextFolderNumber(folders, prefix, seed)) !in folders
  {
    var n := NextFolderNumber(folders, prefix, seed);
    var f := prefix + Decimal(n);
    assert f[..|prefix|] == prefix && f[|prefix|..] == Decimal(n);
    DecimalRoundTrip(n);
    assert FolderNumber(f, prefix) == n;
  }

  function EnrollmentNumbers(ledger: seq<Enrollment>): (r: seq<nat>)
    requires forall e :: e in ledger ==> IsIdWith(e.enrollmentId, 'E')
    ensures |r| == |ledger|
    ensures forall i :: 0 <= i < |ledger| ==> r[i] == IdNumber(ledger[i].enrollmentId, 'E')
  {
    if ledger == [] then []
    else [IdNumber(ledger[0].enrollmentId, 'E')] + EnrollmentNumbers(ledger[1..])
  }

  /** `getNextEnrollmentId`: 3001 for an empty ledger, otherwise one more than
      the largest number among all enrollment ids, cancelled ones included. */
  function NextEnrollmentNumber(ledger: seq<Enrollment>): (n: nat)
    requires forall e :: e in ledger ==> IsIdWith(e.enrollmentId, 'E')
    ensures ledger == [] ==> n == EnrollmentSeed
    ensures ledger != [] ==> exists i :: 0 <= i < |ledger| && n == IdNumber(ledger[i].enrollmentId, 'E') + 1
    ensures forall i :: 0 <= i < |ledger| ==> IdNumber(ledger[i].enrollmentId, 'E') < n
  {
    if |ledger| == 0 then EnrollmentSeed
    else
      var numbers := EnrollmentNumbers(ledger);
      var m := MaxOf(numbers);
      assert forall i :: 0 <= i < |ledger| ==> numbers[i] in numbers;
      m + 1
  }

  /** A freshly allocated enrollment id is well-formed and differs from
      every id in the ledger. */
  lemma {:induction false} NewEnrollmentIdIsFresh(ledger: seq<Enrollment>)
    requires forall e :: e in ledger ==> IsIdWith(e.enrollmentId, 'E')
    ensures IsIdWith(EnrollmentId(NextEnrollmentNumber(ledger)), 'E')
    ensures forall e :: e in ledger ==> e.enrollmentId != EnrollmentId(NextEnrollmentNumber(ledger))
  {
    var n := NextEnrollmentNumber(ledger);
    AllocatedIds(n);
    forall e | e in ledger ensures e.enrollmentId != EnrollmentId(n) {
      var i :| 0 <= i < |ledger| && ledger[i] == e;
      assert IdNumber(e.enrollmentId, 'E') < n;
    }
  }

  /** Every record sits in the folder of its own id, and that id is
      well-formed: what the handlers' writes leave on disk. */
  ghost predicate StudentsWellKeyed(students: map<string, Student>) {
    forall f :: f in students ==>
      IsIdWith(students[f].studentId, 'S') && f == StudentFolder(students[f].studentId)
  }

  ghost predicate CoursesWellKeyed(courses: map<string, Course>) {
    forall f :: f in courses ==>
      IsIdWith(courses[f].courseId, 'C') && f == CourseFolder(courses[f].courseId)
  }

  lemma StudentFoldersReadable(students: map<string, Student>)
    requires StudentsWellKeyed(students)
    ensures forall f :: f in students ==> IsFolderName(f, "s_")
  {
    forall f | f in students ensures IsFolderName(f, "s_") {
      FolderOfId(students[f].studentId, 'S', "s_");
    }
  }

  lemma CourseFoldersReadable(courses: map<string, Course>)
    requires CoursesWellKeyed(courses)
    ensures forall f :: f in courses ==> IsFolderName(f, "c_")
  {
    forall f | f in courses ensures IsFolderName(f, "c_") {
      FolderOfId(courses[f].courseId, 'C', "c_");
    }
  }

  /** An allocated id is well-formed and its folder is the allocator's own
      `prefix + n`. */
  lemma AllocatedIds(n: nat)
    ensures IsIdWith(StudentId(n), 'S') && IdNumber(StudentId(n), 'S') == n
    ensures IsIdWith(CourseId(n), 'C') && IdNumber(CourseId(n), 'C') == n
    ensures IsIdWith(EnrollmentId(n), 'E') && IdNumber(EnrollmentId(n), 'E') == n
    ensures StudentFolder(StudentId(n)) == "s_" + Decimal(n)
    ensures CourseFolder(CourseId(n)) == "c_" + Decimal(n)
  {
    assert StudentId(n)[1..] == Decimal(n);
    assert CourseId(n)[1..] == Decimal(n);
    assert EnrollmentId(n)[1..] == Decimal(n);
    DecimalRoundTrip(n);
    FolderRoundTrip(n);
  }

  /** Distinct well-formed ids have distinct folders, so an upsert of one
      record leaves the records of all other ids where they were. */
  lemma {:induction false} FolderInjective(a: string, b: string, letter: char, prefix: string)
    requires IsIdWith(a, letter) && IsIdWith(b, letter)
    requires prefix + ReplaceFirst(a, letter) == prefix + ReplaceFirst(b, letter)
    ensures a == b
  {
    assert ReplaceFirst(a, letter) == (prefix + ReplaceFirst(a, letter))[|prefix|..];
    assert ReplaceFirst(b, letter) == (prefix + ReplaceFirst(b, letter))[|prefix|..];
    assert a == [letter] + a[1..] && b == [letter] + b[1..];
  }

  /** The id `getNextStudentId` hands out belongs to no stored student, and
      its folder is free. */
  lemma {:induction false} NewStudentIdIsFresh(students: map<string, Student>)
    requires StudentsWellKeyed(students)
    ensures forall f :: f in students ==> IsFolderName(f, "s_")
    ensures StudentFolder(StudentId(NextStudentNumber(students))) !in students
    ensures forall f :: f in students ==> students[f].studentId != StudentId(NextStudentNumber(students))
  {
    StudentFoldersReadable(students);
    var n := NextStudentNumber(students);
    NewFolderIsFresh(students.Keys, "s_", StudentSeed);
    AllocatedIds(n);
  }

  /** The id `getNextCourseId` hands out belongs to no stored course. */
  lemma {:induction false} NewCourseIdIsFresh(courses: map<string, Course>)
    requires CoursesWellKeyed(courses)
    ensures forall f :: f in courses ==> IsFolderName(f, "c_")
    ensures CourseFolder(CourseId(NextCourseNumber(courses))) !in courses
    ensures forall f :: f in courses ==> courses[f].courseId != CourseId(NextCourseNumber(courses))
  {
    CourseFoldersReadable(courses);
    var n := NextCourseNumber(courses);
    NewFolderIsFresh(courses.Keys, "c_", CourseSeed);
    AllocatedIds(n);
  }

  /** `getStudent`, as written: whatever record sits in the folder the id maps
      to, so `"1001"` finds the record of `S1001`. In a well-keyed directory
      the record found is one whose own id maps to the same folder, which
      need not be the requested id. */
  function GetStudent(students: map<string, Student>, studentId: string): (r: Option<Student>)
    ensures r.Some? <==> StudentFolder(studentId) in students
    ensures r.Some? ==> r.value in students.Values
    ensures r.Some? && StudentsWellKeyed(students) ==> StudentFolder(r.value.studentId) == StudentFolder(studentId)
  {
    var f := StudentFolder(studentId);
    if f in students then Some(students[f]) else None
  }

  /** `getCourse`, as written: whatever record sits in the folder the id maps
      to, so `"2001"` finds the record of `C2001`. */
  function GetCourse(courses: map<string, Course>, courseId: string): (r: Option<Course>)
    ensures r.Some? <==> CourseFolder(courseId) in courses
    ensures r.Some? ==> r.value in courses.Values
    ensures r.Some? && CoursesWellKeyed(courses) ==> CourseFolder(r.value.courseId) == CourseFolder(courseId)
  {
    var f := CourseFolder(courseId);
    if f in courses then Some(courses[f]) else None
  }

  /** The bare number of a stored student finds that student through the
      lookup as written, while the lookup by own id refuses it. */
  lemma {:induction false} BareNumberFindsStudent(students: map<string, Student>, n: nat)
    requires StudentsWellKeyed(students) && StudentFolder(StudentId(n)) in students
    ensures GetStudent(students, Decimal(n)) == Some(students[StudentFolder(StudentId(n))])
    ensures students[StudentFolder(StudentId(n))].studentId == StudentId(n)
    ensures FindStudent(students, Decimal(n)).None?
  {
    var alias := Decimal(n);
    var f := StudentFolder(StudentId(n));
    assert 'S' !in alias by {
      forall i | 0 <= i < |alias| ensures alias[i] != 'S' {
        assert IsDigit(alias[i]);
      }
    }
    AllocatedIds(n);
    assert StudentId(n)[1..] == alias;
    assert StudentFolder(alias) == f;
    FolderInjective(students[f].studentId, StudentId(n), 'S', "s_");
    assert StudentId(n) != alias by {
      assert StudentId(n)[0] == 'S';
    }
  }

  /** The lookup the handlers use: a record is found only by its own id. */
  function FindStudent(students: map<string, Student>, studentId: string): (r: Option<Student>)
    ensures r.Some? ==> r.value.studentId == studentId && r.value in students.Values
    ensures StudentsWellKeyed(students) ==>
              (r.Some? <==> exists f :: f in students && students[f].studentId == studentId)
  {
    match GetStudent(students, studentId)
    case Some(s) => if s.studentId == studentId then Some(s) else None
    case None => None
  }

  function FindCourse(courses: map<string, Course>, courseId: string): (r: Option<Course>)
    ensures r.Some? ==> r.value.courseId == courseId && r.value in courses.Values
    ensures CoursesWellKeyed(courses) ==>
              (r.Some? <==> exists f :: f in courses && courses[f].courseId == courseId)
  {
    match GetCourse(courses, courseId)
    case Some(c) => if c.courseId == courseId then Some(c) else None
    case None => None
  }

  /** The records of a directory in the order of their folder names
      (`getAllStudents`, `getAllCourses`). */
  function Listing<T(!new)>(records: map<string, T>): (r: seq<T>)
    ensures |r| == |records|
    ensures forall f :: f in records ==> records[f] in r
    ensures forall x :: x in r ==> exists f :: f in records && records[f] == x
  {
    var names := SortedNames(records.Keys);
    RecordsCover(records, names);
    RecordsAt(records, names)
  }

  lemma RecordsCover<T(!new)>(records: map<string, T>, names: seq<string>)
    requires forall f :: f in names <==> f in records
    ensures forall f :: f in records ==> records[f] in RecordsAt(records, names)
    ensures forall x :: x in RecordsAt(records, names) ==> exists f :: f in records && records[f] == x
  {
    var r := RecordsAt(records, names);
    forall f | f in records ensures records[f] in r {
      var i :| 0 <= i < |names| && names[i] == f;
      assert r[i] == records[f];
    }
    forall x | x in r ensures exists f :: f in records && records[f] == x {
      var i :| 0 <= i < |r| && r[i] == x;
      assert names[i] in records;
    }
  }

  function RecordsAt<T>(records: map<string, T>, names: seq<string>): (r: seq<T>)
    requires forall f :: f in names ==> f in records
    ensures |r| == |names|
    ensures forall i :: 0 <= i < |names| ==> r[i] == records[names[i]]
  {
    if names == [] then [] else [records[names[0]]] + RecordsAt(records, names[1..])
  }

  function AllStudents(students: map<string, Student>): seq<Student> {
    Listing(students)
  }

  function AllCourses(courses: map<string, Course>): seq<Course> {
    Listing(courses)
  }

  /** After an upsert the record is found under its own id, and the lookup
      of every other well-formed id is unchanged. */
  lemma {:induction false} UpsertStudentThenFind(students: map<string, Student>, s: Student, other: string)
    requires IsIdWith(s.studentId, 'S') && IsIdWith(other, 'S') && other != s.studentId
    ensures FindStudent(students[StudentFolder(s.studentId) := s], s.studentId) == Some(s)
    ensures FindStudent(students[StudentFolder(s.studentId) := s], other) == FindStudent(students, other)
  {
    if StudentFolder(other) == StudentFolder(s.studentId) {
      FolderInjective(other, s.studentId, 'S', "s_");
    }
  }

  /** `saveCourse` is an upsert too: the course is found under its own id
      afterwards, and the lookup of every other well-formed id is unchanged. */
  lemma {:induction false} UpsertCourseThenFind(courses: map<string, Course>, c: Course, other: string)
    requires IsIdWith(c.courseId, 'C') && IsIdWith(other, 'C') && other != c.courseId
    ensures FindCourse(courses[CourseFolder(c.courseId) := c], c.courseId) == Some(c)
    ensures FindCourse(courses[CourseFolder(c.courseId) := c], other) == FindCourse(courses, other)
  {
    if CourseFolder(other) == CourseFolder(c.courseId) {
      FolderInjective(other, c.courseId, 'C', "c_");
    }
  }

  /** After a delete the record is neither found nor listed. */
  lemma {:induction false} DeleteThenAbsent(students: map<string, Student>, studentId: string)
    requires StudentsWellKeyed(students)
    ensures FindStudent(students - {StudentFolder(studentId)}, studentId) == None
    ensures forall x :: x in AllStudents(students - {StudentFolder(studentId)}) ==> x.studentId != studentId
  {
    var rest := students - {StudentFolder(studentId)};
    forall x | x in AllStudents(rest) ensures x.studentId != studentId {
      var f :| f in rest && rest[f] == x;
    }
  }

  lemma {:induction false} DeleteCourseThenAbsent(courses: map<string, Course>, courseId: string)
    requires CoursesWellKeyed(courses)
    ensures FindCourse(courses - {CourseFolder(courseId)}, courseId) == None
    ensures forall x :: x in AllCourses(courses - {CourseFolder(courseId)}) ==> x.courseId != courseId
  {
    var rest := courses - {CourseFolder(courseId)};
    forall x | x in AllCourses(rest) ensures x.courseId != courseId {
      var f :| f in rest && rest[f] == x;
    }
  }

  /** `studentEmailExists`: some stored student has exactly this e-mail and an
      id other than `excluded` (`None` excludes nobody). */
  function StudentEmailExists(students: map<string, Student>, email: string, excluded: Option<string>): (b: bool)
    ensures b <==> exists f :: f in students && students[f].email == email
                                && Some(students[f].studentId) != excluded
  {
    var all := AllStudents(students);
    var matches := (s: Student) => s.email == email && Some(s.studentId) != excluded;
    var b := AnyOf(all, matches);
    if b then
      var s :| s in all && matches(s);
      var f :| f in students && students[f] == s;
      b
    else
      assert forall f :: f in students ==> students[f] in all;
      b
  }

  /** `getStudentEnrollments`: every enrollment of the student, of any status. */
  function StudentEnrollments(ledger: seq<Enrollment>, studentId: string): (r: seq<Enrollment>)
    ensures forall e :: e in r <==> e in ledger && e.studentId == studentId
  {
    Filter(ledger, (e: Enrollment) => e.studentId == studentId)
  }

  /** `getCourseEnrollments`: only the CONFIRMED enrollments of the course. */
  function CourseEnrollments(ledger: seq<Enrollment>, courseId: string): (r: seq<Enrollment>)
    ensures forall e :: e in r <==> e in ledger && e.courseId == courseId && e.status == Confirmed
  {
    Filter(ledger, (e: Enrollment) => e.courseId == courseId && e.status == Confirmed)
  }

  /** The number of seats the ledger says a course has taken. */
  function ConfirmedCount(ledger: seq<Enrollment>, courseId: string): nat {
    |CourseEnrollments(ledger, courseId)|
  }

  /** Both views keep ledger order: appending an enrollment appends it to the
      views it belongs to and leaves the others as they were. */
  lemma ViewsAppend(ledger: seq<Enrollment>, e: Enrollment, studentId: string, courseId: string)
    ensures StudentEnrollments(ledger + [e], studentId) ==
            StudentEnrollments(ledger, studentId) + (if e.studentId == studentId then [e] else [])
    ensures CourseEnrollments(ledger + [e], courseId) ==
            CourseEnrollments(ledger, courseId)
              + (if e.courseId == courseId && e.status == Confirmed then [e] else [])
  {
    FilterAppend(ledger, [e], (x: Enrollment) => x.studentId == studentId);
    FilterAppend(ledger, [e], (x: Enrollment) => x.courseId == courseId && x.status == Confirmed);
  }

  /** Replacing one entry moves the confirmed count of a course only by what
      the old and the new entry contribute. */
  lemma ConfirmedCountUpdate(ledger: seq<Enrollment>, i: nat, e: Enrollment, courseId: string)
    requires i < |ledger|
    ensures ConfirmedCount(ledger[i := e], courseId) ==
            ConfirmedCount(ledger, courseId)
              - (if ledger[i].courseId == courseId && ledger[i].status == Confirmed then 1 else 0)
              + (if e.courseId == courseId && e.status == Confirmed then 1 else 0)
  {
    FilterCountUpdate(ledger, i, e, (x: Enrollment) => x.courseId == courseId && x.status == Confirmed);
  }

  /** The position of the first entry with this id (`findIndex` / `find`). */
  function FindIndex(ledger: seq<Enrollment>, enrollmentId: string): (r: Option<nat>)
    ensures r.Some? ==> r.value < |ledger| && ledger[r.value].enrollmentId == enrollmentId
                        && forall j :: 0 <= j < r.value ==> ledger[j].enrollmentId != enrollmentId
    ensures r.None? ==> forall j :: 0 <= j < |ledger| ==> ledger[j].enrollmentId != enrollmentId
  {
    if ledger == [] then None
    else if ledger[0].enrollmentId == enrollmentId then Some(0)
    else match FindIndex(ledger[1..], enrollmentId)
      case Some(i) => Some(i + 1)
      case None => None
  }

  /** `getEnrollment`: the first entry with this id. */
  function GetEnrollment(ledger: seq<Enrollment>, enrollmentId: string): (r: Option<Enrollment>)
    ensures r.Some? ==> r.value in ledger && r.value.enrollmentId == enrollmentId
    ensures r.None? <==> forall e :: e in ledger ==> e.enrollmentId != enrollmentId
    ensures r.Some? ==> exists i :: 0 <= i < |ledger| && ledger[i] == r.value
                                    && forall j :: 0 <= j < i ==> ledger[j].enrollmentId != enrollmentId
  {
    match FindIndex(ledger, enrollmentId)
    case Some(i) =>
      assert 0 <= i < |ledger| && ledger[i] == ledger[i];
      Some(ledger[i])
    case None => None
  }

  /** `validateToken`'s expiry test: more than an hour has passed. */
  predicate Expired(data: TokenData, now: int) {
    now - data.createdAt > TokenLifetime
  }

  /** A token is still accepted exactly one hour after it was stamped and is
      refused one millisecond later. */
  lemma TokenLifetimeBoundary(data: TokenData)
    ensures !Expired(data, data.createdAt + 3600000)
    ensures Expired(data, data.createdAt + 3600001)
    ensures forall now :: Expired(data, now) <==> now > data.createdAt + TokenLifetime
  {
  }
}
