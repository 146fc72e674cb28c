# Campus registry: a verified model of its data store, handlers and token gate

CampusCore is a small HTTP service. It keeps students, courses, enrollments and
access tokens in files:
- every student in a folder `s_<n>` and every course in a folder `c_<n>`;
- all enrollments in one ledger file;
- all tokens in one token file.

This project models that persisted state as one object, `Registry.Store`, with
four fields. They are the two record directories (maps keyed by folder name),
the ledger (a sequence) and the token map. The model covers:
- the persistence layer: id allocation, folder naming, lookups, listings, ledger
  views, the e-mail scan, token save and validation;
- every handler of `/students`, `/courses` and `/enrollments`;
- the two login handlers and the bearer-header gate.

Each writing handler is a method on the store. Its checks run in the source's
order, and its contract gives the answer and the new state for every branch.
Each read-only handler is a function.

The central invariant is `Invariants.Consistent`:
- records sit in the folder of their own well-formed id;
- enrollment ids are unique;
- non-empty e-mails are unique;
- `1 <= capacity` and `0 <= enrolledCount <= capacity`;
- every course counter equals its number of CONFIRMED ledger entries;
- a student holds at most one CONFIRMED seat per course;
- every CONFIRMED entry names a stored student and a stored course.

The store starts consistent, and every writing handler requires and ensures it.
The enrollment handlers also ensure `LedgerEvolves`: the ledger only grows, and
an entry only ever moves from CONFIRMED to CANCELLED.

Modules, in dependency order:
- `Wrappers`: `Option`.
- `Text`: decimal digits, the one-character `replace`, truthiness, `toUpperCase` on ASCII letters, name order.
- `Collections`: filter, map, max and the `slice` pagination.
- `Records`: the records and the `Outcome` of a handler.
- `DataStore`: the persistence functions.
- `Invariants`: the invariant and its preservation lemmas.
- `Registry`: the store class.
- `StudentRoutes`, `CourseRoutes`, `EnrollmentRoutes`, `AuthRoutes`, `AuthMiddleware`.

The clock, the uuid generator and the configured secrets are parameters:
- `createdAt`, `enrolledAt`, `cancelledAt` and `updatedAt` are strings;
- `now` is an integer number of milliseconds;
- `uuid` is a string;
- each configured secret is an `Option<string>`, where `None` means the environment variable is unset.

## Model

| member | source | states |
|---|---|---|
| Text.DecimalRoundTrip | src/utils/dataStore.js:49 | `parseInt` of the decimal rendering of `n` gives back `n`, so a folder name written for number `n` reads back as `n` |
| Text.DecimalInjective | src/utils/dataStore.js:54-57 | distinct numbers get distinct renderings, so distinct allocated ids get distinct folders |
| Text.ReplaceFirst | src/utils/dataStore.js:55 | `replace` with a one-character pattern leaves a string without the character unchanged, drops a leading occurrence, and otherwise shortens the string by exactly one |
| Text.ReplaceFirstRemovesFirst | src/utils/dataStore.js:55 | when `i` is the first position of the character, the result is the string with exactly position `i` cut out and every other character kept in order |
| Text.Upper | src/routes/students.js:50 | `toUpperCase` restricted to ASCII: the result has the same length and no letter `a`-`z`, every character outside `a`-`z` is kept, and a string without `a`-`z` is its own result |
| Text.StatusQueryIgnoresCase | src/routes/courses.js:45-47 | the status filter gives the same answer for a query and its upper-cased form |
| Text.LexTotal | src/utils/dataStore.js:76-79 | the order in which a directory is listed compares any two names |
| Text.LexAntisymmetric | src/utils/dataStore.js:76-79 | two names each listed before the other are equal |
| Text.LexTransitive | src/utils/dataStore.js:76-79 | the listing order is transitive |
| Text.LexLeastExists | src/utils/dataStore.js:76-79 | every non-empty directory has a first name |
| Text.LeastNameUnique | src/utils/dataStore.js:76-79 | that first name is unique |
| Text.SortedNames | src/utils/dataStore.js:75-88 | the listing holds every folder name exactly once, in name order |
| Collections.Filter | src/routes/enrollments.js:78-88 | `filter` keeps exactly the elements that pass the predicate |
| Collections.FilterAppend | src/routes/enrollments.js:62-64 | filtering a ledger with one entry pushed is the old filtered ledger plus the entry if it passes |
| Collections.FilterCountUpdate | src/routes/enrollments.js:137 | replacing one element changes the number kept by exactly what the old element took away and the new one adds |
| Collections.FilterFilter | src/routes/enrollments.js:78-88 | two successive filters are one filter by the conjunction |
| Collections.FilterNone | src/routes/students.js:136-143 | a filter that nothing passes yields the empty list |
| Collections.FilterAll | src/routes/enrollments.js:78-88 | a filter everything passes (an absent query field) leaves the list as it was |
| Collections.MapSeq | src/routes/courses.js:61-68 | `map` keeps the length and transforms element by element |
| Collections.AnyOf | src/routes/enrollments.js:38-40 | `some` is true exactly when an element passes |
| Collections.MaxOf | src/utils/dataStore.js:50 | `Math.max` of a non-empty list is an element and bounds all of them |
| Collections.Slice | src/routes/students.js:57 | `slice(start, end)` has `min(end, length) - start` elements (none past the end), taken from `start` on |
| Collections.PageStart | src/routes/students.js:55 | the first index of page `page` is never negative; with a positive limit it is a multiple of the limit from which the page number reads back, and the next page starts `limit` further on |
| Collections.Page | src/routes/students.js:53-57 | a page holds at most `limit` elements, the ones from `(page - 1) * limit` on |
| Collections.PageCovers | src/routes/students.js:53-57 | element `j` appears on page `j / limit + 1` at position `j % limit` |
| DataStore.StudentFolder | src/utils/dataStore.js:54-57 | the folder of an id starts with `s_`; a well-formed `S<n>` maps to `s_<n>`, and an id with no `S` at all (such as `"1001"`) is used as it is |
| DataStore.CourseFolder | src/utils/dataStore.js:125-128 | the same for courses: `C<n>` maps to `c_<n>`, and an id with no `C` (such as `"2001"`) is used as it is |
| DataStore.FolderRoundTrip | src/utils/dataStore.js:54-57 | folder `s_<n>` / `c_<n>` is the folder of id `S<n>` / `C<n>`, and its number reads back as `n` |
| DataStore.FolderOfId | src/utils/dataStore.js:54-57 | the folder of a well-formed id is a readable folder name carrying the id's number |
| DataStore.FolderNumbers | src/utils/dataStore.js:49 | the numbers read from the folder names, one per folder |
| DataStore.NextFolderNumber | src/utils/dataStore.js:41-52 | an empty directory gives the seed; otherwise the result is one more than some folder's number and exceeds every folder's number |
| DataStore.NextStudentNumber | src/utils/dataStore.js:41-52 | 1001 for an empty student directory; otherwise one more than some folder's number and above every folder's number |
| DataStore.NextCourseNumber | src/utils/dataStore.js:112-123 | 2001 for an empty course directory; otherwise one more than some folder's number and above every folder's number |
| DataStore.ListedNumbers | src/utils/dataStore.js:49-50 | the number of every folder is among those read off the listing, so the maximum bounds them all |
| DataStore.NewFolderIsFresh | src/utils/dataStore.js:41-52 | the folder of the allocated number does not exist yet |
| DataStore.EnrollmentNumbers | src/utils/dataStore.js:184 | the numbers read from the enrollment ids, one per entry |
| DataStore.NextEnrollmentNumber | src/utils/dataStore.js:180-187 | an empty ledger gives 3001; otherwise the result is one more than some entry's number and exceeds every entry's number |
| DataStore.NewEnrollmentIdIsFresh | src/utils/dataStore.js:180-187 | the allocated enrollment id is well-formed and differs from every id in the ledger |
| DataStore.StudentFoldersReadable | src/utils/dataStore.js:42-45 | in a well-keyed directory every folder name is one the allocator can read |
| DataStore.CourseFoldersReadable | src/utils/dataStore.js:113-116 | the same for the course directory |
| DataStore.AllocatedIds | src/utils/dataStore.js:54-57 | `S<n>`, `C<n>` and `E<n>` are well-formed with number `n`, and land in folders `s_<n>` and `c_<n>` |
| DataStore.FolderInjective | src/utils/dataStore.js:125-128 | two well-formed ids with the same folder are the same id |
| DataStore.NewStudentIdIsFresh | src/utils/dataStore.js:41-52 | the next student id has no folder yet and belongs to no stored student |
| DataStore.NewCourseIdIsFresh | src/utils/dataStore.js:112-123 | the next course id has no folder yet and belongs to no stored course |
| DataStore.GetStudent | src/utils/dataStore.js:68-73 | `getStudent` as written: finds a record exactly when the id's folder exists, and in a well-keyed directory the record found is one whose own id maps to the same folder, which need not be the requested id |
| DataStore.GetCourse | src/utils/dataStore.js:139-144 | `getCourse` as written: the same for courses |
| DataStore.BareNumberFindsStudent | src/utils/dataStore.js:54-73 | as written, the bare number `"<n>"` finds the record of `S<n>`, while the lookup by own id refuses it |
| DataStore.FindStudent | src/utils/dataStore.js:68-73 | the corrected lookup of Findings row 1, which the handlers use: it finds only a record carrying the requested id, and in a well-keyed directory it finds one exactly when some record carries it |
| DataStore.FindCourse | src/utils/dataStore.js:139-144 | the corrected course lookup of Findings row 1: it finds only a course carrying the requested id, and in a well-keyed directory exactly when one does |
| DataStore.Listing | src/utils/dataStore.js:75-88 | the listing has one record per folder, and every record comes from a folder |
| DataStore.RecordsCover | src/utils/dataStore.js:81-87 | reading the records of all listed names yields exactly the stored records |
| DataStore.RecordsAt | src/utils/dataStore.js:81-87 | the records are read name by name, in listing order |
| DataStore.UpsertStudentThenFind | src/utils/dataStore.js:59-73 | after `saveStudent` the record is found by its id, and the lookup of every other well-formed id is unchanged |
| DataStore.UpsertCourseThenFind | src/utils/dataStore.js:130-144 | after `saveCourse` the course is found by its id, and the lookup of every other well-formed id is unchanged |
| DataStore.DeleteThenAbsent | src/utils/dataStore.js:90-97 | after a delete the student is found neither by lookup nor in the listing |
| DataStore.DeleteCourseThenAbsent | src/utils/dataStore.js:161-168 | after a delete the course is found neither by lookup nor in the listing |
| DataStore.StudentEmailExists | src/utils/dataStore.js:99-102 | true exactly when some stored student has this e-mail and an id other than the excluded one |
| DataStore.StudentEnrollments | src/utils/dataStore.js:194-197 | the entries of the student, of any status |
| DataStore.CourseEnrollments | src/utils/dataStore.js:199-202 | the CONFIRMED entries of the course |
| DataStore.ViewsAppend | src/routes/enrollments.js:62-64 | pushing an entry extends the student's and the course's view by that entry exactly when it belongs to them |
| DataStore.ConfirmedCountUpdate | src/routes/enrollments.js:137 | replacing one entry changes a course's CONFIRMED count by the difference of the old and new entry's membership |
| DataStore.FindIndex | src/routes/enrollments.js:113 | `findIndex` gives the first index with the id, or none when no entry has it |
| DataStore.GetEnrollment | src/utils/dataStore.js:189-192 | `find` gives the FIRST entry with the id (no earlier entry has it), or nothing exactly when no entry has it |
| DataStore.TokenLifetimeBoundary | src/utils/dataStore.js:221 | a token is expired exactly when more than 3600000 ms have passed since `createdAt` |
| Invariants.EmptyIsConsistent | src/utils/dataStore.js:22-38 | the freshly created empty store satisfies the invariant |
| Invariants.EvolvesTransitive | src/routes/enrollments.js:119-138 | any run of handlers keeps the ledger evolving, so a CANCELLED entry is never CONFIRMED again |
| Invariants.AppendEvolves | src/routes/enrollments.js:62-64 | pushing an entry keeps every earlier entry |
| Invariants.CancelEvolves | src/routes/enrollments.js:126-138 | cancelling keeps every id and pair and touches no other entry |
| Invariants.StudentIdsDistinct | src/utils/dataStore.js:54-57 | distinct student folders hold distinct ids |
| Invariants.AddStudentKeepsConsistent | src/routes/students.js:15-30 | saving a new student with a fresh id and an unused e-mail keeps the invariant |
| Invariants.AddStudentKeepsEmailsUnique | src/routes/students.js:15-30 | that save keeps e-mails unique and records well-keyed |
| Invariants.StudentAddedKeepsReferences | src/routes/students.js:30 | adding a student keeps every ledger reference resolvable |
| Invariants.UpdateStudentKeepsConsistent | src/routes/students.js:101-120 | overwriting a student with the same id and a kept, checked or blanked e-mail keeps the invariant |
| Invariants.UpdateStudentKeepsEmailsUnique | src/routes/students.js:101-120 | that overwrite keeps e-mails unique |
| Invariants.UpdateStudentKeepsReferences | src/routes/students.js:119-120 | that overwrite keeps references resolvable |
| Invariants.RemoveStudentKeepsConsistent | src/routes/students.js:135-145 | deleting a student without CONFIRMED entries keeps the invariant |
| Invariants.NoConfirmedMeansZero | src/routes/courses.js:141-146 | a course no CONFIRMED entry names has a CONFIRMED count of zero |
| Invariants.AddCourseKeepsConsistent | src/routes/courses.js:18-29 | saving a new course with a fresh id, capacity at least one and no seats taken keeps the invariant |
| Invariants.UpdateCourseKeepsConsistent | src/routes/courses.js:101-124 | overwriting a course with the same id and counter and a capacity between one and at least the seats taken keeps the invariant |
| Invariants.RemoveCourseKeepsConsistent | src/routes/courses.js:141-150 | deleting a course without CONFIRMED entries keeps the invariant |
| Invariants.EnrollKeepsConsistent | src/routes/enrollments.js:46-64 | pushing a CONFIRMED entry with a fresh id, for a stored student and a course with a free seat, with no CONFIRMED entry for the pair, and raising the counter keeps the invariant |
| Invariants.EnrollKeepsCounts | src/routes/enrollments.js:57-64 | raising the counter of the course of a pushed CONFIRMED entry keeps every counter equal to its CONFIRMED count and within capacity |
| Invariants.EnrollKeepsPairs | src/routes/enrollments.js:36-44 | pushing a CONFIRMED entry for a pair that holds no seat keeps one seat per pair |
| Invariants.EnrollKeepsIds | src/routes/enrollments.js:47 | pushing an entry with a fresh, well-formed id keeps ids unique |
| Invariants.FlooredDecrement | src/routes/enrollments.js:132 | `Math.max(0, n - 1)` is never negative, is `n - 1` for `n >= 1` and `0` below 1 |
| Invariants.CancelFindsTakenSeat | src/routes/enrollments.js:130-134 | under the invariant the course of a CONFIRMED entry is stored and has a seat taken |
| Invariants.CancelKeepsConsistent | src/routes/enrollments.js:126-138 | cancelling a CONFIRMED entry and giving its seat back keeps the invariant |
| Invariants.CancelKeepsCounts | src/routes/enrollments.js:130-138 | after cancelling, every counter still equals its CONFIRMED count |
| Invariants.CancelKeepsReferences | src/routes/enrollments.js:126-138 | after cancelling, every reference is still resolvable and ids stay unique |
| Registry.ValidateTokenIn | src/utils/dataStore.js:216-229 | an unknown token is refused; an expired one is refused and only it is removed; any other is handed back with the map unchanged; success exactly when stored and at most 3600000 ms old |
| Registry.TokenLifetimeExact | src/utils/dataStore.js:210-229 | a token saved at `t` is accepted at `t + 3600000` and refused and evicted at `t + 3600001` |
| Registry.Store.constructor | src/utils/dataStore.js:22-38 | the store starts empty and consistent |
| Registry.Store.SaveStudent | src/utils/dataStore.js:59-66 | only the student's own folder is set |
| Registry.Store.DeleteStudent | src/utils/dataStore.js:90-97 | true exactly when the folder existed, and it is gone afterwards |
| Registry.Store.SaveCourse | src/utils/dataStore.js:130-137 | only the course's own folder is set |
| Registry.Store.DeleteCourse | src/utils/dataStore.js:161-168 | true exactly when the folder existed, and it is gone afterwards |
| Registry.Store.SaveEnrollments | src/utils/dataStore.js:176-178 | the ledger is replaced as a whole |
| Registry.Store.SaveToken | src/utils/dataStore.js:210-214 | only the given token is set, stamped with `now` |
| Registry.Store.ValidateToken | src/utils/dataStore.js:216-229 | the answer and the new token map are those of `ValidateTokenIn` |
| StudentRoutes.CreateStudent | src/routes/students.js:8-40 | 400 when name or e-mail is falsy, then 400 when the e-mail is taken, both without change; otherwise 201 with the next id, whose folder is new and receives an ACTIVE record; the invariant holds |
| StudentRoutes.MatchingStudents | src/routes/students.js:46-51 | exactly the stored students whose status equals the upper-cased query, or all of them in listing order when the query is falsy |
| StudentRoutes.ListStudents | src/routes/students.js:43-54 | a left-out `page` is 1 and a left-out `limit` 10, supplied ones are kept, and the answer is the page of those numbers |
| StudentRoutes.StudentsOnPage | src/routes/students.js:46-67 | `total` is the number selected; `data` holds exactly `min(limit, total - (page - 1) * limit)` of them (none past the end), the ones from `(page - 1) * limit` on, each a stored student matching the query |
| StudentRoutes.PageWindow | src/routes/students.js:53-57 | every selected student in the page's window is shown at its offset |
| StudentRoutes.GetStudentDetail | src/routes/students.js:70-89 | 404 exactly when the student is not found; otherwise the record with one summary per entry of the student, in ledger order, none left out |
| StudentRoutes.AssignStudentFields | src/routes/students.js:109-114 | name, e-mail and status are copied when supplied and nothing else changes |
| StudentRoutes.UpdateStudent | src/routes/students.js:92-123 | 404 when not found; 400 when a new, truthy e-mail belongs to another student; otherwise only this folder is overwritten with the supplied fields and `updatedAt`; the invariant holds |
| StudentRoutes.DeleteStudent | src/routes/students.js:126-150 | 404 when not found; 400 while a CONFIRMED entry names the student; otherwise only the folder is removed and the student is no longer found; the invariant holds |
| CourseRoutes.CreateCourse | src/routes/courses.js:7-36 | 400 for a falsy title or a missing capacity, then 400 for a capacity that is not a number at least one; otherwise 201 with the next id and a new OPEN course with no seats taken; the invariant holds |
| CourseRoutes.View | src/routes/courses.js:61-68 | a free seat is shown exactly when an enroll would pass the capacity check, and a course within its capacity shows between zero and `capacity` free seats |
| CourseRoutes.SeatsShownInRange | src/routes/courses.js:66 | under the invariant the seats shown lie between zero and the capacity, and are zero exactly when the course is full |
| CourseRoutes.MatchingCourses | src/routes/courses.js:42-47 | exactly the stored courses whose status equals the upper-cased query, or all of them when it is falsy |
| CourseRoutes.ListCourses | src/routes/courses.js:39-52 | a left-out `page` is 1 and a left-out `limit` 10, supplied ones are kept, and the answer is the page of those numbers |
| CourseRoutes.CoursesOnPage | src/routes/courses.js:42-70 | `total` is the number selected; `data` shows exactly `min(limit, total - (page - 1) * limit)` of them (none past the end), the ones from `(page - 1) * limit` on |
| CourseRoutes.MatchingSeatsInRange | src/routes/courses.js:42-47 | every selected course is within its capacity while the invariant holds |
| CourseRoutes.ListedSeatsInRange | src/routes/courses.js:61-68 | no listed course shows negative or more than `capacity` free seats while the invariant holds |
| CourseRoutes.GetCourseDetail | src/routes/courses.js:73-90 | 404 exactly when not found; otherwise the view of the stored course and its creation date, with non-negative free seats under the invariant |
| CourseRoutes.AssignCourseFields | src/routes/courses.js:116-121 | title, capacity and status are copied when supplied and nothing else changes |
| CourseRoutes.UpdateCourse | src/routes/courses.js:93-130 | 404; then 400 for a capacity that is not a number at least one; then 400 for a capacity below the seats taken; otherwise only this folder is overwritten; the invariant holds |
| CourseRoutes.DeleteCourse | src/routes/courses.js:133-155 | 404; 400 while a CONFIRMED entry names the course; otherwise only the folder is removed and the course is no longer found; the invariant holds |
| EnrollmentRoutes.EnrollAnswer | src/routes/enrollments.js:7-70 | the six checks in order (required fields, student, course, OPEN, capacity, duplicate); past them 201 with an id fresh in the ledger |
| EnrollmentRoutes.AlreadyEnrolledScan | src/routes/enrollments.js:37-40 | scanning the student's entries for a CONFIRMED one in the course answers whether the pair holds a seat |
| EnrollmentRoutes.Enroll | src/routes/enrollments.js:7-70 | answers as `EnrollAnswer`; a refusal changes nothing; a success pushes one CONFIRMED entry and raises that course's counter by one; the invariant holds and the ledger evolves |
| EnrollmentRoutes.TakeSeat | src/routes/enrollments.js:57-64 | the counter raised by one and saved, the entry pushed and the ledger saved, keeping the invariant |
| EnrollmentRoutes.SeatTaken | src/routes/enrollments.js:58-59 | the course map after `enrolledCount += 1` differs only in that course's counter, one higher |
| EnrollmentRoutes.EnrolledStateConsistent | src/routes/enrollments.js:57-64 | the state an enroll's writes leave is consistent and the ledger evolved |
| EnrollmentRoutes.ReleaseSeat | src/routes/enrollments.js:125-138 | the entry marked CANCELLED with `cancelledAt` and the ledger saved; a course that is found gets its counter lowered with the floor at zero and is saved, and a course that is not found is left alone |
| EnrollmentRoutes.SeatReturned | src/routes/enrollments.js:130-134 | for a course with a seat taken, the course map after the seat is given back differs only in that course's counter, one lower |
| EnrollmentRoutes.CancelledStateConsistent | src/routes/enrollments.js:126-138 | under the invariant the course of a CONFIRMED entry is found with a seat taken, the floored write is `SeatReturned`, and the state a cancel's writes leave is consistent with the ledger evolved |
| EnrollmentRoutes.ListEnrollments | src/routes/enrollments.js:73-94 | the successive optional filters select exactly the entries passing all supplied ones, in ledger order, and `total` counts them |
| EnrollmentRoutes.FiltersConjoin | src/routes/enrollments.js:78-88 | the chain of optional filters equals one filter by their conjunction |
| EnrollmentRoutes.GetEnrollmentDetail | src/routes/enrollments.js:97-106 | 404 exactly when no entry has the id; otherwise an entry with that id, the only one in a well-formed ledger |
| EnrollmentRoutes.Cancel | src/routes/enrollments.js:109-143 | 404 for an unknown id, 400 for a CANCELLED entry, both without change; otherwise only that entry becomes CANCELLED with `cancelledAt` and its course's counter drops by one; the invariant holds and the ledger evolves |
| EnrollmentRoutes.IdAliasBreaksCounts | src/utils/dataStore.js:125-128 | the course lookup as written finds `C2001` under `"2001"`, and the enroll that follows leaves counter and ledger out of step |
| AuthRoutes.First8 | src/routes/auth.js:24 | `substring(0, 8)` is the first eight characters, or the whole of a shorter string |
| AuthRoutes.IssuedToken | src/routes/auth.js:24 | the issued token starts with its prefix and continues with upper-case characters only |
| AuthRoutes.Issue | src/routes/auth.js:24-32 | a login saves exactly the issued token, stamped with `now`; the `expiresIn` it announces in seconds is the lifetime `validateToken` grants, since the token is accepted at `now + expiresIn * 1000` and refused a millisecond later |
| AuthRoutes.ApiKeyLogin | src/routes/auth.js:13-33 | 400 for a falsy key, 401 for a key other than the configured one, both saving nothing; success exactly when the key is truthy and equal; a `BEARER-APIKEY-` token with method API_KEY is then the only token added |
| AuthRoutes.CredentialsLogin | src/routes/auth.js:36-56 | 400 when either field is falsy; 401 when either mismatches; success exactly when both are truthy and equal; a `BEARER-USER-` token with method CREDENTIALS is then the only token added |
| AuthRoutes.IssuedTokensDistinct | src/routes/auth.js:24-47 | an API-key token never equals a credentials token |
| AuthRoutes.LoginWithApiKey | src/routes/auth.js:13-33 | the store's answer and token map are those of `ApiKeyLogin` |
| AuthRoutes.LoginWithCredentials | src/routes/auth.js:36-56 | the store's answer and token map are those of `CredentialsLogin` |
| AuthMiddleware.BearerToken | src/middleware/auth.js:4-10 | a token is read exactly when the header is truthy and starts with the case-sensitive "Bearer "; the header is then "Bearer " followed by the token |
| AuthMiddleware.BearerRoundTrip | src/middleware/auth.js:6-10 | "Bearer " followed by a token reads back as that token |
| AuthMiddleware.Authenticate | src/middleware/auth.js:3-19 | 401 for a missing or malformed header; otherwise the token is validated; the request passes exactly when the token is stored and at most 3600000 ms old, carrying the stored record |
| AuthMiddleware.AuthenticateRequest | src/middleware/auth.js:3-19 | the store's answer and token map are those of `Authenticate` |
| AuthMiddleware.ApiKeyTokenOpensGate | src/routes/auth.js:24-32 | a token from an API-key login opens the gate for exactly the next 3600000 ms with method API_KEY |
| AuthMiddleware.CredentialsTokenOpensGate | src/routes/auth.js:47-55 | a token from a credentials login opens the gate for exactly the next 3600000 ms with method CREDENTIALS |
| AuthMiddleware.ValidateTokenAsWritten | src/utils/dataStore.js:216-229 | as written, agrees with `ValidateTokenIn` on every name that is not inherited, and accepts every inherited name that no login stored |
| AuthMiddleware.AuthenticateAsWritten | src/middleware/auth.js:3-19 | as written, refuses malformed headers and agrees with `Authenticate` on every name that is not inherited |
| AuthMiddleware.PrototypeNameOpensGate | src/utils/dataStore.js:216-229 | with no token stored, "Bearer toString" passes the gate as written and is refused by `Authenticate` |

## Left out

- The file system: directories, `existsSync` and JSON (de)serialisation are the maps and the sequence of `Registry.Store`. A folder without `data.json` and files that fail to parse are not modelled.
- The HTTP layer is not modelled: express routing, `server.js` and body parsing. The gate's call of `next()` is a successful `Outcome`.
- Concurrency is not modelled. Every handler runs to completion before the next one starts, so interleaved read-modify-write races on the files are outside the model.
- `saveStudentApiKey` writes a random key that nothing reads. It and the uuid generator are not modelled; the uuid is a parameter.
- Clocks are parameters. ISO timestamps are opaque strings and `Date.now()` is `now`.
- Request values are modelled only as strings or absent. Numbers, `null`, booleans and objects where a string is expected are not modelled, except capacity, which is `NumField`.
- Capacity is an integer; a fractional capacity is not modelled.
- StudentRoutes.ListStudents: query values are integers or absent; absent ones take the defaults 1 and 10. It requires the resulting `page >= 1` and `limit >= 0`. `parseInt` returning NaN, and the negative `slice` bounds a page below 1 or a negative limit produce, are not modelled.
- CourseRoutes.ListCourses: the same, for the same reason.
- Text.Upper: only the ASCII letters `a`-`z` are mapped. The Unicode case mapping of `toUpperCase`, such as `é` to `É`, `ı` to `I` or `ß` to `SS` (which changes the length), is not modelled, so status queries with non-ASCII letters may match differently.
- Ids not of the form letter-digits reach the ledger only through the id aliasing under Findings. The handlers use the corrected lookup, so the model keeps them out.
- EnrollmentRoutes.Cancel: the source skips the seat restore when the course is missing. Under the invariant the course of a CONFIRMED entry is always stored, so that branch, which `ReleaseSeat` models, is unreachable from `Cancel` and is proved so.
- The enroll handler builds the student's view with `getStudentEnrollments` and then scans it. `EnrollmentRoutes.Enroll` does the same scan, and `AlreadyEnrolledScan` relates it to the ledger.

## Findings

| source | as written | input that shows it | evidently intended | confidence | as-written member | corrected member |
|---|---|---|---|---|---|---|
| src/utils/dataStore.js:54-57 | `getStudentFolderPath`/`getCourseFolderPath` strip only the first `S`/`C`. So `getCourse("2001")` finds course `C2001`. The enroll handler then stores the raw `"2001"` in the ledger and raises `C2001`'s counter. | POST /enrollments with `courseId: "2001"` while `C2001` is OPEN with a free seat | a record is found only by its own id, so the counter equals the CONFIRMED entries naming the course | high, not executed | DataStore.GetCourse (with EnrollmentRoutes.IdAliasBreaksCounts) | DataStore.FindCourse (with EnrollmentRoutes.Enroll and Invariants.EnrollKeepsConsistent) |
| src/utils/dataStore.js:216-229 | `tokens[token]` on the object parsed from the token file also finds the members of `Object.prototype`. Such a member is truthy, and its `createdAt` is undefined, so the age is NaN and the expiry test is false. | `Authorization: Bearer toString` with no token issued | only tokens a login stored pass the gate | high, not executed | AuthMiddleware.AuthenticateAsWritten (with AuthMiddleware.PrototypeNameOpensGate) | AuthMiddleware.Authenticate (with AuthMiddleware.ApiKeyTokenOpensGate) |
