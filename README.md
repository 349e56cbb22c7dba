# CAMS administration core, modelled in Dafny

CAMS is a college administration console. Administrators keep departments,
courses, batches, subjects, users and subject assignments (subject mappings).
They also build each section's weekly timetable. This project models the
server actions that check and write those tables, the route guard that
decides who may open the administrator, teacher and student areas, and the
arithmetic of the weekly timetable grid. It proves what these promise.

One module per source file:

- `common.dfy` (`Common`) holds what every action shares:
  - the `{ success, error }` result (`Outcome`);
  - the validator result (`Parsed`);
  - string order (`Less`), lexicographic by character, as JavaScript's `<`
    and the database's text comparisons use it;
  - ASCII upper and lower casing;
  - tables as maps from id to row, with the natural-key uniqueness invariant
    (`Unique`) and the duplicate query (`Taken`);
  - ordered and unordered reads (`Listing`, `Rows`, `Ordered`, `Unordered`);
  - `_count` (`Count`).
- `timetable.dfy` (`Timetable`) models slot admission. It has the request
  schema, the three-case overlap filter and the section and teacher conflict
  queries. A class `TimetableStore` holds the slots and the mappings they
  refer to. It keeps the invariant that no two slots of one section, or of
  one teacher, overlap on a day. Overlap here is overlap of the time strings
  as intervals. When every time is zero-padded, this is overlap of the clock
  intervals. An unpadded time such as `9:00` lets the same clock time be
  booked twice (`Timetable.SpellingDoubleBooks`).
- `batches.dfy`, `courses.dfy`, `departments.dfy`, `subjects.dfy`,
  `users.dfy` and `subject_mapping.dfy` are the guarded tables. Each has a
  class with a `rows` map. Each has create and delete methods, and an update
  method where the source has one (every table but subject mappings):
  - each create and update method validates the input, runs the duplicate
    query on the natural key, then writes;
  - each keeps the table's uniqueness invariant;
  - each leaves the table untouched on failure.
  `subject_mapping.dfy` also holds the course → batch → semester → section
  hierarchy.
- `auth.dfy` (`Auth`) models the `authorized` decision and the `jwt` and
  `session` callbacks. The callbacks are module-level methods. `Jwt` takes a
  `Token` and `SessionCallback` takes a `Session`. Each assigns the role and
  id fields of the object it is given (the token, or the session's user) in
  place.
- `timetable_view.dfy` (`TimetableView`) models grid placement, card height,
  card colour and the day columns.

Things outside the program are parameters:

- the database's new ids (`newId`) and creation times (`now`);
- whether the database refuses a delete or an insert because of foreign keys
  (`blocked`, `refused`);
- the bcrypt hash (`hash`) and the email validator (`isEmail`).

Time strings are compared as strings, as the code compares them. `Minutes`
gives the clock meaning used in the lemmas.

## Model

| member | source | states |
|---|---|---|
| Common.LessTotal | src/app/actions/timetable-actions.ts:13 | string order (`>` on strings, `lt`/`gt` on text columns) is total: two different strings are ordered one way or the other |
| Common.LessTransitive | src/app/actions/timetable-actions.ts:73-86 | string order is transitive, which the overlap proofs need |
| Common.Upper | src/app/actions/course-actions.ts:9 | upper-casing keeps the length, leaves no lower-case letter, and changes only letter case |
| Common.UpperOfSameIgnoringCase | src/app/actions/department-actions.ts:9 | two codes that differ only in letter case upper-case to the same code |
| Common.PutKeepsUnique | src/app/actions/course-actions.ts:40-50 | writing a row whose key no other row holds keeps the natural key unique, for an insert or an overwrite |
| Common.RemoveKeepsUnique | src/app/actions/course-actions.ts:88-92 | deleting a row keeps the natural key unique |
| Common.Listing | src/app/actions/course-actions.ts:15-16 | an ordered `findMany` holds each row that passes the filter exactly once, with its id, sorted by the order |
| Common.Ordered | src/app/actions/subject-mapping-actions.ts:82-87 | the same read, stated entry by entry: every entry is a stored row that passes, no id twice, every passing row present, sorted |
| Common.Unordered | src/app/actions/subject-mapping-actions.ts:78-81 | a `findMany` without `orderBy`: every passing row exactly once, in no stated order |
| Common.Count | src/app/actions/department-actions.ts:16-21 | a `_count` of related rows never exceeds the number of rows in the related table |
| Common.CountAddsAccepted | src/app/actions/department-actions.ts:16-21 | adding a row that passes the filter raises the count by one |
| Common.CountIgnoresRejected | src/app/actions/department-actions.ts:20 | adding a row that fails the filter leaves the count unchanged |
| Common.SortBy | src/app/actions/batch-actions.ts:19 | the sorted rows are a permutation of the input and sorted by the order |
| Common.ByTextIsPreorder | src/app/actions/course-actions.ts:16 | ascending order on a text column is a total preorder |
| Common.ByNumberDescIsPreorder | src/app/actions/batch-actions.ts:19 | descending order on a number column is a total preorder |
| Common.Filter | src/components/Admin/TimeTable/TimeTableView.tsx:79 | a filter keeps exactly the elements that pass, each as often as before |
| Common.FilterAppend | src/components/Admin/TimeTable/TimeTableView.tsx:79 | filtering a concatenation is the concatenation of the filtered parts, in the same order |
| Common.FilterKeepsOrder | src/components/Admin/TimeTable/TimeTableView.tsx:79 | what comes before an element stays before it and what comes after stays after it; the element itself is kept exactly when it passes |
| Common.Less | src/app/actions/timetable-actions.ts:13 | JavaScript's `>` on two strings: lexicographic by character, a proper prefix first; its order facts are `LessTotal`, `LessTransitive` and `LessIrreflexive` |
| Common.LessIrreflexive | src/app/actions/timetable-actions.ts:13 | no string is before itself, so equal start and end times fail the refine |
| Common.Taken | src/app/actions/course-actions.ts:40-46 | the duplicate `findFirst`: some row other than the excluded id (on update, the row's own) holds the key; `PutKeepsUnique` shows a write is safe when it is false |
| Timetable.ValidateSlot | src/app/actions/timetable-actions.ts:7-16 | a request is accepted exactly when the mapping id is non-empty, the day is 0..6, both times match the pattern and the end is after the start as strings; the accepted data is the request |
| Timetable.EqualTimesRefused | src/app/actions/timetable-actions.ts:13-16 | a request whose end equals its start is refused |
| Timetable.ValidatePaddedSlot | src/app/actions/timetable-actions.ts:10-16 | on zero-padded times the schema accepts exactly the requests that end after they start on the clock |
| Timetable.PaddedOrderIsClockOrder | src/app/actions/timetable-actions.ts:10-13 | for zero-padded `HH:MM` strings, string order is minute-of-day order |
| Timetable.UnpaddedOrderDiverges | src/app/actions/timetable-actions.ts:10-13 | the pattern admits `9:00`; then string and clock order part, so 9:00-10:00 is refused and 10:00-9:00 accepted |
| Timetable.IsTime | src/app/actions/timetable-actions.ts:10 | the time pattern: a one-digit hour, or a two-digit hour up to 23, a colon, and two minute digits up to 59; `Hour` and `Minutes` give its clock value |
| Timetable.Hour | src/app/actions/timetable-actions.ts:10 | the hour of a time that matches the pattern lies in 0..23 |
| Timetable.Minutes | src/app/actions/timetable-actions.ts:10 | a time that matches the pattern denotes a minute of the day in 0..1439 |
| Timetable.ConflictFilterIsOverlap | src/app/actions/timetable-actions.ts:73-86 | for non-empty intervals the three-case filter (starts during, ends during, encloses) holds exactly when the half-open intervals overlap |
| Timetable.ConflictFilter | src/app/actions/timetable-actions.ts:73-86 | the three `OR` cases of the conflict queries: the request starts during a slot, ends during it, or encloses it; `ConflictFilterIsOverlap` gives its meaning |
| Timetable.SectionConflict | src/app/actions/timetable-actions.ts:69-88 | the section `findFirst`: a slot of a mapping in the section, on the day, that the filter matches; `SectionQueryFindsOverlap` gives its meaning |
| Timetable.TeacherConflict | src/app/actions/timetable-actions.ts:96-106 | the teacher `findFirst`: a slot of a mapping taught by the teacher, in any section, on the day, that the filter matches; `TeacherQueryFindsOverlap` gives its meaning |
| Timetable.SpellingDoubleBooks | src/app/actions/timetable-actions.ts:73-86 | with `9:00`-`9:30` stored, a `09:00`-`09:30` request for the same mapping passes the schema and clashes with no slot, although both cover the same minutes |
| Timetable.PaddedNoClashIsClockSeparation | src/app/actions/timetable-actions.ts:69-110 | when all times are zero-padded, two stored slots of one section or one teacher on one day share no minute of the clock |
| Timetable.PaddedOverlapIsClockOverlap | src/app/actions/timetable-actions.ts:100-104 | on zero-padded times string overlap is overlap of the clock intervals |
| Timetable.SectionQueryFindsOverlap | src/app/actions/timetable-actions.ts:69-88 | the section query finds a slot exactly when some slot of that section and day overlaps the request |
| Timetable.TeacherQueryFindsOverlap | src/app/actions/timetable-actions.ts:96-106 | the teacher query finds a slot exactly when some slot of that teacher on that day, in any section, overlaps the request |
| Timetable.TimetableStore.CreateTimeSlot | src/app/actions/timetable-actions.ts:45-130 | invalid requests and unknown mappings fail with no write; a section overlap gives the section message before any teacher check; a teacher overlap gives the teacher message; otherwise exactly one slot with the given fields is appended; the no-overlap invariant is kept |
| Timetable.TimetableStore.DeleteTimeSlot | src/app/actions/timetable-actions.ts:132-140 | succeeds exactly when a slot has that id, and then removes that one slot only; otherwise reports the fixed message and changes nothing |
| Timetable.TimetableStore.TimeTable | src/app/actions/timetable-actions.ts:18-43 | the slots of the section's mappings, each as often as stored, ordered by day and then start time |
| Timetable.DayThenStartIsPreorder | src/app/actions/timetable-actions.ts:34-37 | ordering by day and then by start time is a total preorder |
| Timetable.FilterKeepsIdsDistinct | src/app/actions/timetable-actions.ts:134 | removing slots keeps the remaining ids distinct |
| Timetable.RemoveOneById | src/app/actions/timetable-actions.ts:134 | deleting an id held by one slot removes exactly one row |
| Timetable.KeepAllOthers | src/app/actions/timetable-actions.ts:134 | filtering out an id no slot holds removes nothing |
| TimetableView.Position | src/components/Admin/TimeTable/TimeTableView.tsx:29-33 | the position is never negative; from 08:00 it is the minutes since 08:00, and earlier times sit at 0 |
| TimetableView.PositionIsMonotone | src/components/Admin/TimeTable/TimeTableView.tsx:14-33 | 08:00 is at the top, and a later time is never placed higher |
| TimetableView.Height | src/components/Admin/TimeTable/TimeTableView.tsx:35-37 | `getHeight`: the end's position less the start's; `HeightIsDuration` and `AcceptedSlotWithNegativeHeight` state what it comes to |
| TimetableView.HeightIsDuration | src/components/Admin/TimeTable/TimeTableView.tsx:35-37 | from 08:00 on the height is the slot's duration; a start before 08:00 is clamped, so the height is less than the duration |
| TimetableView.AcceptedSlotWithNegativeHeight | src/components/Admin/TimeTable/TimeTableView.tsx:35-37 | a 10:00-9:30 slot passes the schema and gets a card of height -30 |
| TimetableView.ColorOf | src/components/Admin/TimeTable/TimeTableView.tsx:40-50 | the colour is the palette entry at the code length modulo 5, always inside the palette |
| TimetableView.ColorDependsOnLengthOnly | src/components/Admin/TimeTable/TimeTableView.tsx:48 | codes of equal length, or of lengths five apart, share a colour; lengths one apart do not |
| TimetableView.HoursAreEightToNineteen | src/components/Admin/TimeTable/TimeTableView.tsx:14-15 | the hour labels are exactly 8..19, twelve of them |
| TimetableView.SlotsOfDay | src/components/Admin/TimeTable/TimeTableView.tsx:79 | a day column holds exactly the slots of that day |
| TimetableView.DrawnIffWeekday | src/components/Admin/TimeTable/TimeTableView.tsx:73-79 | a slot is drawn exactly when its day is 1..6, only in its own day's column; a day-0 slot is never drawn |
| Batches.ValidateBatch | src/app/actions/batch-actions.ts:7-14 | accepted exactly when a course is named, both years lie in 2000..2100 and the end year is after the start year; the batch is exactly those fields |
| Batches.OtherCourseIsNotDuplicate | src/app/actions/batch-actions.ts:44-50 | the same years under another course are not a duplicate |
| Batches.BatchTable.CreateBatch | src/app/actions/batch-actions.ts:36-64 | validation errors and duplicate `(course, start, end)` keys fail with no write; otherwise exactly the validated batch is stored under the new id, and keys stay unique |
| Batches.BatchTable.UpdateBatch | src/app/actions/batch-actions.ts:66-96 | the duplicate query leaves out the batch's own row, so re-saving a batch unchanged succeeds; an unknown id fails with the database error; keys stay unique |
| Batches.BatchTable.DeleteBatch | src/app/actions/batch-actions.ts:98-108 | removes that batch only, or reports the fixed message and changes nothing |
| Batches.BatchTable.AllBatches | src/app/actions/batch-actions.ts:16-34 | every batch exactly once, latest start year first |
| Courses.ValidateCourse | src/app/actions/course-actions.ts:7-11 | accepted exactly when name, code and department are non-empty; the stored code is the upper-cased code |
| Courses.CaseVariantsCollide | src/app/actions/course-actions.ts:7-46 | codes that differ only in letter case are the same stored code, so they collide |
| Courses.CourseTable.CreateCourse | src/app/actions/course-actions.ts:32-56 | validation errors and taken (upper-cased) codes fail with no write; otherwise the course is stored under the new id; codes stay unique |
| Courses.CourseTable.UpdateCourse | src/app/actions/course-actions.ts:58-86 | the duplicate query leaves out the course's own row, so keeping one's own code succeeds; an unknown id fails with the database error; codes stay unique |
| Courses.CourseTable.DeleteCourse | src/app/actions/course-actions.ts:88-98 | removes that course only, or reports the fixed message and changes nothing |
| Courses.CourseTable.AllCourses | src/app/actions/course-actions.ts:13-30 | every course exactly once, by name, each with the number of its batches |
| Courses.SummariesByName | src/app/actions/course-actions.ts:15-24 | adding the counts to a by-name listing keeps every course, once, in name order |
| Courses.Summarise | src/app/actions/course-actions.ts:19-23 | each listed course carries the count of batches that refer to it |
| Departments.ValidateDepartment | src/app/actions/department-actions.ts:7-10 | accepted exactly when name and code are non-empty; the stored code is the upper-cased code |
| Departments.LowerCaseCodeCollides | src/app/actions/department-actions.ts:9-45 | `cse` collides with a stored `CSE` |
| Departments.DepartmentTable.CreateDepartment | src/app/actions/department-actions.ts:31-55 | validation errors and taken codes fail with no write; otherwise the department is stored; codes stay unique |
| Departments.DepartmentTable.UpdateDepartment | src/app/actions/department-actions.ts:57-85 | the duplicate query leaves out the department's own row, so keeping one's own code succeeds; an unknown id fails with the database error; codes stay unique |
| Departments.DepartmentTable.DeleteDepartment | src/app/actions/department-actions.ts:87-97 | removes that department only, or reports the fixed message and changes nothing |
| Departments.DepartmentTable.AllDepartments | src/app/actions/department-actions.ts:12-29 | every department exactly once, by name, with its course count and its count of TEACHER users |
| Departments.OnlyTeachersCount | src/app/actions/department-actions.ts:20 | adding an administrator or a student does not change a department's teacher count |
| Departments.Summarise | src/app/actions/department-actions.ts:16-22 | each listed department carries its course count and its teacher count |
| Departments.SummariesByName | src/app/actions/department-actions.ts:14-22 | adding the counts to a by-name listing keeps every department, once, in name order |
| Subjects.ValidateSubject | src/app/actions/subject-actions.ts:7-12 | accepted exactly when name, code and department are non-empty and credits are not negative; the code is stored as sent |
| Subjects.CaseVariantsAreDistinct | src/app/actions/subject-actions.ts:38-44 | subject codes are compared exactly: a stored `CS101` does not make `cs101` a duplicate |
| Subjects.InDepartment | src/app/actions/subject-actions.ts:16 | the `where` of `getSubjects`: no filter without a non-empty department id; `DepartmentFilterOnlyWhenGiven` states it |
| Subjects.DepartmentFilterOnlyWhenGiven | src/app/actions/subject-actions.ts:16 | no department id, or an empty one, lists every subject; a given one lists only that department's subjects |
| Subjects.SubjectTable.CreateSubject | src/app/actions/subject-actions.ts:30-55 | validation errors and taken codes fail with no write; otherwise the subject is stored; codes stay unique |
| Subjects.SubjectTable.UpdateSubject | src/app/actions/subject-actions.ts:57-86 | the duplicate query leaves out the subject's own row; an unknown id fails with the fixed update message; codes stay unique |
| Subjects.SubjectTable.DeleteSubject | src/app/actions/subject-actions.ts:88-98 | removes that subject only, or reports the fixed message and changes nothing |
| Subjects.SubjectTable.SubjectsOf | src/app/actions/subject-actions.ts:14-28 | the department's subjects (all when none is given), each exactly once, by code |
| Users.ValidUser | src/app/actions/user-actions.ts:9-19 | `UserSchema`: a non-empty name, an address the email test accepts, and a password, when present, of at least six characters; the role is one of the three by its type |
| Users.NewUser | src/app/actions/user-actions.ts:37-47 | the row `createUser` writes: the submitted fields, the hashed password, optional fields through `OrNull`, and the creation time |
| Users.UpdatedUser | src/app/actions/user-actions.ts:71-83 | the row `updateUser` leaves; `UpdateKeepsHashWithoutPassword` states what it keeps and what it replaces |
| Users.UserFilter | src/app/actions/user-actions.ts:117-126 | the `where` of `getUsers`: the role when one is given, and a case-insensitive match of name or email when the query is non-empty; `UserFilterDefaults` states it |
| Users.OrNull | src/app/actions/user-actions.ts:43-46 | an absent or empty optional field is stored as null, any other value as given |
| Users.ValidPasswordIsPresentOrAbsent | src/app/actions/user-actions.ts:12-32 | after validation a password is never present but empty, so the "password required" check fires exactly when none was sent |
| Users.UpdateKeepsHashWithoutPassword | src/app/actions/user-actions.ts:71-83 | an update without a password keeps the stored hash; with one it stores the new hash; an empty department becomes null |
| Users.UserTable.CreateUser | src/app/actions/user-actions.ts:21-59 | invalid input fails; no password gives "Password is required for new users"; a taken email gives "Email already exists"; otherwise the hashed user is stored; emails stay unique |
| Users.UserTable.UpdateUser | src/app/actions/user-actions.ts:61-99 | invalid input fails; an unknown id gives "Failed to update user"; an email held by another user gives "Email already exists"; otherwise the fields are replaced as `UpdatedUser` says; emails stay unique |
| Users.UserTable.DeleteUser | src/app/actions/user-actions.ts:101-113 | removes that user only, or reports the fixed message and changes nothing |
| Users.UserTable.Users | src/app/actions/user-actions.ts:115-146 | the users that pass the role and query filter, each exactly once, newest first |
| Users.UserFilterDefaults | src/app/actions/user-actions.ts:117-126 | no role and no query filters nothing; the query ignores letter case |
| Users.LowerOfUpper | src/app/actions/user-actions.ts:123-124 | lower-casing an upper-cased query gives the lower-cased query |
| SubjectMapping.ValidateMapping | src/app/actions/subject-mapping-actions.ts:7-11 | accepted exactly when subject, section and teacher are all non-empty |
| SubjectMapping.TeacherTakesNoPart | src/app/actions/subject-mapping-actions.ts:37-42 | whether a subject is already assigned to a section does not depend on the teacher |
| SubjectMapping.TeacherMayTeachTwice | src/app/actions/subject-mapping-actions.ts:37-42 | one teacher may hold a second subject in the same section |
| SubjectMapping.MappingTable.CreateMapping | src/app/actions/subject-mapping-actions.ts:29-61 | validation errors and taken `(section, subject)` pairs fail with no write; a refused insert gives the fixed message; otherwise exactly that row is stored; pairs stay unique |
| SubjectMapping.MappingTable.DeleteMapping | src/app/actions/subject-mapping-actions.ts:63-73 | removes that mapping only, or reports "Failed to delete assignment" and changes nothing |
| SubjectMapping.MappingTable.MappingsOf | src/app/actions/subject-mapping-actions.ts:13-27 | exactly the mappings of the section, each once, ordered by subject name |
| SubjectMapping.SectionsOf | src/app/actions/subject-mapping-actions.ts:85-87 | a semester's sections, each once, by name |
| SubjectMapping.SemestersOf | src/app/actions/subject-mapping-actions.ts:82-89 | a batch's semesters, each once, by semester number, each holding its sections |
| SubjectMapping.SemesterNodesFit | src/app/actions/subject-mapping-actions.ts:82-89 | semester nodes built from a by-number listing keep the semesters, once, in number order, each with its sections |
| SubjectMapping.BatchesOf | src/app/actions/subject-mapping-actions.ts:80-91 | a course's batches, each once, each holding its semesters |
| SubjectMapping.BatchNodesFit | src/app/actions/subject-mapping-actions.ts:80-91 | batch nodes built from a listing keep the course's batches, once, each with its semesters |
| SubjectMapping.Hierarchy | src/app/actions/subject-mapping-actions.ts:76-98 | every course exactly once, each holding its batches, semesters by number and sections by name |
| SubjectMapping.CourseNodesFit | src/app/actions/subject-mapping-actions.ts:78-93 | course nodes built from a listing keep every course, once, each with its batches |
| Auth.Authorized | src/auth.config.ts:8-26 | a path outside `/admin`, `/teacher` and `/student` is allowed; a protected path with no user goes to sign-in; a signed-in user is allowed exactly when the role table permits, and is otherwise sent to `/unauthorized` |
| Auth.AdminEverywhere | src/auth.config.ts:18-21 | a signed-in ADMIN is allowed on every path |
| Auth.PrefixMatching | src/auth.config.ts:10 | `/administrator` is an administrator path: a teacher is turned away and a visitor is sent to sign in; `/login` is open |
| Auth.Jwt | src/auth.config.ts:27-33 | on sign-in the token gets the user's role and id; otherwise the token is returned unchanged |
| Auth.SessionCallback | src/auth.config.ts:34-40 | with a token and a session user, the user gets the token's role and id; otherwise nothing changes |
| Auth.SignInThenRead | src/auth.config.ts:27-40 | after sign-in and a session read, the session user has the role and id of the user who signed in |

## Left out

- Ids, creation times, bcrypt and email validation are outside the program. New ids and times are parameters. The hash and the email test are uninterpreted function parameters.
- Foreign keys and cascades are defined in a database schema that is not part of this model. A refused delete is the `blocked` parameter. A refused mapping insert is the `refused` parameter.
- The create and update handlers of batches, courses, subjects and users can also fail for foreign-key reasons when they write (a department row holds no foreign key). The model does not include these failures. Their writes succeed once validation and the duplicate check pass.
- Timetable.TimetableStore.CreateTimeSlot: the "Failed to create time slot" path cannot arise in the model, because the mapping was found just before. The mappings are a fixed field of the store, not the live mapping table.
- Timetable.TimetableStore.CreateTimeSlot: an unknown or inconsistent mapping row is not modelled. `mappings` holds the section, teacher and teacher name that `findUnique` with `include` returns.
- `revalidatePath` and `console.error` are cache and logging side effects with no state in the model.
- Concurrency is not modelled. Two administrators running check-then-write at once could both pass the duplicate query. The model runs one action at a time.
- `z.coerce.number` on fractional or non-numeric input is not modelled. Years, credits and days are integers.
- Letter case is ASCII only. JavaScript's Unicode `toUpperCase` and the database's case-insensitive `contains` on non-ASCII letters are not modelled.
- String order compares characters by code. A database collation that orders text differently is not modelled.
- JavaScript compares strings and counts `code.length` in UTF-16 code units, while a Dafny `char` is a whole Unicode scalar value. So `Common.Less`, the `|code|` in `TimetableView.ColorOf`, and the six-character password minimum in `Users.ValidUser` (zod's `min(6)` counts code units) can differ from the source for characters outside the Basic Multilingual Plane.
- `getCourses` includes the course's department, and `getSubjects` and `getUsers` include related rows. These joined rows are not modelled. Only the listed rows and counts are.
- `getBatches` counts semesters and users per batch. These counts are not modelled. The order and the rows are.
- `getMappings` includes the subject and teacher rows. The model uses only the subject name, for the order.
- `getTimeTable` includes the subject and teacher of each slot. These are not part of `Slot`.
- The read actions' `'Failed to fetch …'` error paths are database outages and are not modelled.
- The `result.error.format()` object is `ValidationError`, with no field messages.
- `Response.redirect` is the `ToUnauthorized` decision. `false` is `ToLogin`, which the framework turns into the sign-in page.
- The JSX of the timetable grid, the delete button and its confirmation dialog are not modelled.
- All form, table and management components, pages, layouts, the seed and admin-creation scripts and `metadata-actions.ts` are not part of this model.
- The timetable modal only offers days 1 to 6. The server schema accepts 0 to 6, and the model follows the server. `TimetableView.DrawnIffWeekday` shows that a day-0 slot is stored but never drawn.
- The user edit form sends `password: ''`. The server schema refuses a present empty password (at least six characters). The model follows the server, and `Users.ValidPasswordIsPresentOrAbsent` states the consequence.
- `createBatch` as written creates no semester rows for the new batch. The model follows the code: `Batches.BatchTable.CreateBatch` writes only the batch row.
