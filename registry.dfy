/** The persisted state of the registry as one object: the two record
    directories, the enrollment ledger and the token file. Its methods are
    the writes of the persistence layer (`saveStudent`, `deleteStudent`,
    `saveCourse`, `deleteCourse`, `saveEnrollments`, `saveToken`,
    `validateToken`); each one replaces or removes exactly the entry it names. */
module Registry {

  import opened Wrappers
  import opened Records
  import opened DataStore
  import opened Invariants

  /** The outcome of `validateToken` on a token map: the record handed back
      (none for an unknown or expired token) and the token map afterwards. */
  datatype TokenCheck = TokenCheck(data: Option<TokenData>, tokens: map<string, TokenData>)

  /** `validateToken` on the map read from `tokens.json`: an unknown token is
      refused; an expired one is refused and removed; any other is handed back. */
  function ValidateTokenIn(tokens: map<string, TokenData>, token: string, now: int): (r: TokenCheck)
    ensures token !in tokens ==> r == TokenCheck(None, tokens)
    ensures token in tokens && Expired(tokens[token], now) ==> r.data == None && r.tokens == tokens - {token}
    ensures token in tokens && !Expired(tokens[token], now) ==> r == TokenCheck(Some(tokens[token]), tokens)
    ensures r.data.Some? <==> token in tokens && now - tokens[token].createdAt <= 3600000
    ensures forall t :: t != token ==> (t in r.tokens <==> t in tokens) && (t in tokens ==> r.tokens[t] == tokens[t])
  {
    if token !in tokens then TokenCheck(None, tokens)
    else if Expired(tokens[token], now) then TokenCheck(None, tokens - {token})
    else TokenCheck(Some(tokens[token]), tokens)
  }

  /** A token stamped at `t` is accepted at every instant up to and including
      `t + 3600000` and refused, and evicted, from `t + 3600001` on. */
  lemma {:induction false} TokenLifetimeExact(tokens: map<string, TokenData>, token: string, m: LoginMethod, t: int)
    ensures ValidateTokenIn(tokens[token := TokenData(m, t)], token, t + 3600000).data == Some(TokenData(m, t))
    ensures ValidateTokenIn(tokens[token := TokenData(m, t)], token, t + 3600001).data == None
    ensures token !in ValidateTokenIn(tokens[token := TokenData(m, t)], token, t + 3600001).tokens
  {
    TokenLifetimeBoundary(TokenData(m, t));
  }

  class Store {
    var students: map<string, Student>
    var courses: map<string, Course>
    var enrollments: seq<Enrollment>
    var tokens: map<string, TokenData>

    /** The consistency every handler keeps. */
    ghost predicate Valid()
      reads this
    {
      Consistent(students, courses, enrollments)
    }

    /** `ensureDirectories`: empty directories, `[]` and `{}`. */
    constructor ()
      ensures students == map[] && courses == map[] && enrollments == [] && tokens == map[]
      ensures Valid()
    {
      students := map[];
      courses := map[];
      enrollments := [];
      tokens := map[];
      EmptyIsConsistent();
    }

    /** `saveStudent`: create the folder if needed and overwrite its record. */
    method SaveStudent(s: Student)
      modifies this`students
      ensures students == old(students)[StudentFolder(s.studentId) := s]
    {
      students := students[StudentFolder(s.studentId) := s];
    }

    /** `deleteStudent`: true iff the folder existed; it is gone afterwards. */
    method DeleteStudent(studentId: string) returns (existed: bool)
      modifies this`students
      ensures existed <==> StudentFolder(studentId) in old(students)
      ensures students == old(students) - {StudentFolder(studentId)}
    {
      var f := StudentFolder(studentId);
      existed := f in students;
      if existed {
        students := students - {f};
      }
    }

    /** `saveCourse`. */
    method SaveCourse(c: Course)
      modifies this`courses
      ensures courses == old(courses)[CourseFolder(c.courseId) := c]
    {
      courses := courses[CourseFolder(c.courseId) := c];
    }

    /** `deleteCourse`. */
    method DeleteCourse(courseId: string) returns (existed: bool)
      modifies this`courses
      ensures existed <==> CourseFolder(courseId) in old(courses)
      ensures courses == old(courses) - {CourseFolder(courseId)}
    {
      var f := CourseFolder(courseId);
      existed := f in courses;
      if existed {
        courses := courses - {f};
      }
    }

    /** `saveEnrollments`: the ledger file is rewritten as a whole. */
    method SaveEnrollments(ledger: seq<Enrollment>)
      modifies this`enrollments
      ensures enrollments == ledger
    {
      enrollments := ledger;
    }

    /** `saveToken`: sets the one key, stamping `createdAt` with `now`. */
    method SaveToken(token: string, loginMethod: LoginMethod, now: int)
      modifies this`tokens
      ensures tokens == old(tokens)[token := TokenData(loginMethod, now)]
    {
      tokens := tokens[token := TokenData(loginMethod, now)];
    }

    /** `validateToken`: deletes an expired token in place before refusing it. */
    method ValidateToken(token: string, now: int) returns (data: Option<TokenData>)
      modifies this`tokens
      ensures TokenCheck(data, tokens) == ValidateTokenIn(old(tokens), token, now)
    {
      if token !in tokens {
        return None;
      }
      var found := tokens[token];
      if now - found.createdAt > TokenLifetime {
        tokens := tokens - {token};
        return None;
      }
      return Some(found);
    }
  }
}
