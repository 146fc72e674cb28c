/** The persisted records of the campus registry and the shape of a handler's
    answer (an HTTP status code with a body or an error message). */
module Records {

  import opened Wrappers

  /** The contents of `s_<n>/data.json`. */
  datatype Student = Student(
    studentId: string,
    name: string,
    email: string,
    status: string,
    createdAt: string,
    updatedAt: Option<string>)

  /** The contents of `c_<n>/data.json`. `enrolledCount` is a counter kept in
      step with the ledger by the enrollment handlers. */
  datatype Course = Course(
    courseId: string,
    title: string,
    capacity: int,
    enrolledCount: int,
    status: string,
    createdAt: string,
    updatedAt: Option<string>)

  datatype EnrollmentStatus = Confirmed | Cancelled

  /** The string the ledger file stores for a status. */
  function StatusName(s: EnrollmentStatus): string {
    match s
    case Confirmed => "CONFIRMED"
    case Cancelled => "CANCELLED"
  }

  /** One entry of `enrollments.json`. */
  datatype Enrollment = Enrollment(
    enrollmentId: string,
    studentId: string,
    courseId: string,
    status: EnrollmentStatus,
    enrolledAt: string,
    cancelledAt: Option<string>)

  datatype LoginMethod = ApiKey | Credentials

  function MethodName(m: LoginMethod): string {
    match m
    case ApiKey => "API_KEY"
    case Credentials => "CREDENTIALS"
  }

  /** One value of `tokens.json`; `createdAt` is in milliseconds. */
  datatype TokenData = TokenData(loginMethod: LoginMethod, createdAt: int)

  /** A handler's answer: a status code with a body, or with `{error}`. */
  datatype Outcome<T> = Success(code: int, value: T) | Failure(code: int, error: string)

  /** The body of a successful update or delete: `{id, updated: true}` or
      `{id, deleted: true}`. */
  datatype Ack = Updated(id: string) | Deleted(id: string)

  /** A numeric request field as JSON delivers it: left out, a number, or a
      value of another type (string, null, boolean, object). */
  datatype NumField = Absent | Num(n: int) | NonNumber

  const Active := "ACTIVE"
  const Open := "OPEN"
}
