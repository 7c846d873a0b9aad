# Student portal workflow, modelled in Dafny

The student portal is a web front end over a relational store. It registers admins, students and faculty. Faculty bring their courses when they register. Students are enrolled in a course under a supervising faculty. Faculty upload assignments, and every student enrolled in the course is notified. Students submit files, faculty grade them, and students mark their notifications as read. This project models the store and the writes that change it. It also models two pieces of logic from the display code: the status shown for an assignment, and the grouping of enrollments by course on the admin's overview.

- `tables.dfy`: module `Tables`. It holds the rows of the eight tables, the key sets and key constraints, and a `Connection` value. That value says whether the connection opens and which SQL statement of a call, if any, the server refuses. The module also has the login lookup, `authenticate_user`.
- `workflow.dfy`: module `Workflow`. It defines what each write adds or changes, as functions of the old rows. It also holds the lemmas about those writes:
  - registration keeps every key unique;
  - the new user can log in;
  - the fan-out sends exactly one notification per enrolled student;
  - grading again overwrites the previous grade;
  - marking a notification read changes the unread counts exactly.
- `status.dfy`: module `Status`. It models the LEFT JOIN of an assignment with the student's submissions and the three-way status. It also proves how submitting and grading move a pair between the statuses.
- `grouping.dfy`: module `Grouping`. It holds the `view_enrollments` loop, as a method with a loop, proved against functions of the first n rows.
- `portal.dfy`: module `Portal`. It holds the class `Database`, whose fields are the tables and the two AUTO_INCREMENT counters. Each write of the application is a method that issues the same statements in the same order and changes only the fields its `modifies` clause names. `Valid()` is the class invariant, and every method preserves it:
  - unique keys;
  - `students` rows owned by student users;
  - course teachers and `course_faculty` links owned by faculty users;
  - increasing generated ids.
- `scenario.dfy`: module `Scenario`. Its methods drive an empty store through the workflow and assert each outcome from the methods' contracts alone:
  - registration, and a refused duplicate id;
  - a registration that is rolled back;
  - a refused second enrollment;
  - an announcement and its read flag;
  - a submission that is graded.

A statement fails in two ways. The first is a duplicate key the model can see: a user id, an srn, a course code or a (course, faculty) pair that is already present. The model decides this from the tables. The second is a refusal for any other reason, which the `Connection` argument carries. After a failure the method answers false, and the tables are as the transaction found them.

The model follows the code, also where it is looser than the portal's intended rules:
- `enroll_in_course` does not check that the faculty teaches the course.
- `submit_assignment` inserts a second submission for the same pair.
- `update_grade_and_feedback` stores any grade; only the grading form bounds it to 0..10.
- `mark_notification_as_read` selects rows by the current user and a `created_at` instant, not by a notification id. It therefore marks every one of the user's notifications that carries that instant.

## Model

| member | source | states |
|---|---|---|
| Tables.FindUser | student_portal_2/app.py:37-38 | the row found has the requested id; none is found exactly when no user has that id |
| Tables.Authenticate | student_portal_2/app.py:30-45 | no user when the connection fails to open; otherwise login returns a user row with the requested id whose stored digest is the digest of the given password, and with unique ids no login means no row of that id matches the digest |
| Tables.FindUserUnique | student_portal_2/app.py:37-38 | with unique user ids, the lookup returns exactly the registered row |
| Tables.LoginAfterRegistration | student_portal_2/app.py:30-42 | a user whose row holds the digest of a password logs in with it whenever the connection opens, and never with a password of a different digest |
| Workflow.CourseRows | student_portal_2/app.py:74-79 | one course row per listed course, in list order, with the course's code and name and the registering faculty as teacher |
| Workflow.LinkRows | student_portal_2/app.py:81-85 | one course_faculty row per listed course, in list order, linking its code to the registering faculty |
| Workflow.NewUser | student_portal_2/app.py:57-63 | the users row keeps the id and role and stores the digest of the password, not the password |
| Workflow.NewStudentRows | student_portal_2/app.py:65-70 | a registration adds a students row, keyed by the user id, if and only if the role is student |
| Workflow.NewCourseRows | student_portal_2/app.py:72-79 | a registration adds course rows only for a faculty, one per listed course |
| Workflow.NewLinkRows | student_portal_2/app.py:81-85 | a registration adds links only for a faculty, one per listed course, all naming that faculty |
| Workflow.RegistrationStatements | student_portal_2/app.py:59-85 | the number of INSERTs is one plus the number of rows the registration adds to the other three tables |
| Workflow.RowsOfNextEntry | student_portal_2/app.py:74-85 | each pass of the course loop appends exactly that course's row and link |
| Workflow.CourseIdsOfEntries | student_portal_2/app.py:74-79 | after n passes the course codes are the old ones plus the first n listed codes |
| Workflow.LinkedOfEntries | student_portal_2/app.py:81-85 | after n passes a (course, faculty) pair is linked exactly when it was before or is one of the first n |
| Workflow.AcceptedNext | student_portal_2/app.py:74-85 | the first n + 1 courses violate no key exactly when the first n do not and course n clashes with no earlier code, no stored code and no stored link |
| Workflow.CourseEntryStep | student_portal_2/app.py:74-85 | the insert of course n clashes exactly when its code is stored or inserted earlier, and its link then clashes exactly when the pair is stored |
| Workflow.RegistrationKeepsKeys | student_portal_2/app.py:57-85 | an accepted registration keeps user ids, srns, course codes and course_faculty pairs unique |
| Workflow.RegistrationKeepsOwners | student_portal_2/app.py:65-85 | after a registration every students row still belongs to a student user, and every course teacher and link to a faculty user |
| Workflow.RegisteredUserLogsIn | student_portal_2/app.py:59-63 | right after registering, the user logs in with the chosen password whenever the connection opens, and never with a password of a different digest |
| Workflow.EnrollmentKeepsUnique | student_portal_2/app.py:324-341 | inserting only pairs with no row keeps at most one row per (srn, course) and enrolls the pair |
| Workflow.AssignmentMessage | student_portal_2/app.py:917 | the notification text contains the assignment's title, the course name and the deadline |
| Workflow.AssignmentPath | student_portal_2/app.py:897 | an assignment file is stored under `assignments/` with the course code as prefix |
| Workflow.FanOut | student_portal_2/app.py:912-917 | at most one notification per ledger row, each unread and carrying the one message and the one instant |
| Workflow.FanOutRows | student_portal_2/app.py:912-917 | every fanned-out notification goes to a student enrolled in the course |
| Workflow.FanOutOnePerStudent | student_portal_2/app.py:912-917 | with one ledger row per (srn, course), each enrolled student gets exactly one notification and every other user none |
| Workflow.FanOutSize | student_portal_2/app.py:912-917 | the fan-out has as many rows as the course has enrolled students |
| Workflow.Decimal | student_portal_2/app.py:523 | the id is written as a non-empty string of decimal digits whose value is the id |
| Workflow.SubmissionPath | student_portal_2/app.py:523 | a submitted file is stored under `submissions/` with the user id as prefix |
| Workflow.SubmissionPathsDiffer | student_portal_2/app.py:523 | two different assignments give the same student and file name two different paths |
| Workflow.Regrade | student_portal_2/app.py:1069-1073 | the rows with the submission id get the new grade and feedback; no other field and no other row changes |
| Workflow.RegradeOverwrites | student_portal_2/app.py:1065-1080 | grading twice leaves only the second grade and feedback |
| Workflow.RegradeKeepsRange | student_portal_2/app.py:1043-1049 | a grade from the form's 0..10 range keeps every stored grade in 0..10 |
| Workflow.MarkRead | student_portal_2/app.py:972-976 | a row becomes read exactly when it was read or is the caller's and carries the instant; other users' rows and all other fields are unchanged |
| Workflow.MarkReadCounts | student_portal_2/app.py:965-982 | the caller's unread count drops by exactly their unread rows at that instant, none of those remains, and every other user's count is unchanged |
| Status.JoinedRows | student_portal_2/app.py:470-479 | the LEFT JOIN gives the pair at least one row, and a row with a non-zero `submitted` only when the student has a submission for the assignment |
| Status.Statuses | student_portal_2/app.py:470-514 | the pair shows at least one status, and a status other than "Not submitted" only when the student has a submission for the assignment |
| Status.Classify | student_portal_2/app.py:506-514 | not submitted exactly when `submitted` is 0; graded, with that grade and feedback, exactly when it is set and the grade is present; grading in progress otherwise |
| Status.NotSubmittedIffNoSubmission | student_portal_2/app.py:470-519 | the page shows "Not submitted" exactly when the student has no submission for the assignment, and then shows nothing else; the upload control is offered exactly then |
| Status.SubmittingShowsInProgress | student_portal_2/app.py:531-534 | a freshly inserted ungraded submission makes the pair show "Grading in progress" and no longer "Not submitted" |
| Status.GradingShowsGraded | student_portal_2/app.py:1069-1073 | grading a submission makes its pair show "Graded" with exactly that grade and feedback |
| Grouping.CourseOrder | student_portal_2/app.py:198-204 | the dictionary's keys, in insertion order: each course of the rows once |
| Grouping.CourseOrderFirstSeen | student_portal_2/app.py:200-204 | the keys are in first-seen order: a course listed earlier has its first row earlier |
| Grouping.FirstIndexKept | student_portal_2/app.py:200-204 | a course already seen keeps its first row when a row is added |
| Grouping.Members | student_portal_2/app.py:206-212 | a course's student list has at most one entry per row, and is empty for a course with no row |
| Grouping.FirstIndex | student_portal_2/app.py:200-204 | the first row of a course: it has the course, and no earlier row does |
| Grouping.GroupStep | student_portal_2/app.py:198-212 | one pass of the loop turns the grouping of the first n rows into that of the first n + 1 |
| Grouping.GroupByCourse | student_portal_2/app.py:197-212 | one entry per distinct course, in first-seen order (an earlier key has an earlier first row); each named after the course's first row; each listing its rows' students in row order |
| Grouping.GroupingKeepsEveryRow | student_portal_2/app.py:197-212 | the list lengths add up to the number of rows: every row lands in exactly one list |
| Portal.Database.CreateUser | student_portal_2/app.py:48-95 | succeeds exactly when the connection runs every INSERT and none violates a key; then adds the user row, a students row if and only if the role is student, and a faculty's course rows and links in list order; otherwise every table is as before |
| Portal.Database.InsertCourses | student_portal_2/app.py:74-85 | the course loop succeeds exactly when every course and link INSERT runs and violates no key, appending the rows in list order |
| Portal.Database.Enroll | student_portal_2/app.py:316-347 | a pair already enrolled answers false and changes nothing; otherwise exactly one row with the given faculty is appended when both statements run |
| Portal.Database.UploadAssignment | student_portal_2/app.py:902-926 | with both statements run: one assignment row under the next id, and one unread notification per enrolled student carrying one message and instant; on an error neither |
| Portal.Database.Submit | student_portal_2/app.py:528-541 | appends one ungraded submission under the next id, with no duplicate check, after which the pair shows "Grading in progress" |
| Portal.Database.UpdateGrade | student_portal_2/app.py:1065-1080 | overwrites grade and feedback of the submission with the id, as `Regrade` states, keeping the invariant |
| Portal.Database.MarkNotificationRead | student_portal_2/app.py:965-982 | marks read only the caller's rows at the instant; the caller's unread count drops by exactly those and every other user's count stays; the invariant is kept |

## Left out

- The pages, forms, tabs, expanders and buttons. Their outputs are method parameters. The check that a title and a description were entered before an upload is kept.
- The connection and cursor plumbing, `get_db_connection` (lines 12-23). `authenticate_user` answers no user when the connect fails (lines 31-33), and so does `Authenticate`. A failed connect is `Unavailable`. Any refusal other than a key clash is the `rejected` statement index. A failed commit is not modelled separately.
- `submit_assignment`, `upload_assignment` and `update_grade_and_feedback` do not check for a failed connect. The call then fails before its first statement. The model gives false with no change, where the program raises an error the page does not catch.
- The table schema itself. The keys the model checks are assumed: a primary key on `users.user_id`, `students.srn` and `courses.course_id`, and a unique (course, faculty) pair in `course_faculty` (lines 404-411 rely on it). Foreign keys are not modelled; a statement they would refuse is a `rejected` statement.
- AUTO_INCREMENT ids advance only when an insert commits. A store that uses up an id on a rolled-back insert would leave gaps, which this model does not.
- SHA-256 in `hash_password` (lines 26-27). The digest is a parameter, `hash`.
- The file writes under `submissions/` and `assignments/` and all file reads. Only the path strings are kept.
- `st.session_state` and the clock. The current user and the current instant are parameters. Instants are whole seconds.
- The average-grade and export code of `view_all_submissions` (lines 806-817), because it uses floating point and file output.
- The other writes: adding a course and assigning a faculty from the admin page (lines 384-411), uploading course material (lines 855-870), and the first `update_grade_and_feedback` (lines 688-705), which the later definition replaces.
- The read-only display queries. `Status` models the status of one (assignment, student) pair; the join that picks the assignments of the student's courses and orders them by deadline is left out. `Grouping` takes the enrollment rows in the order the query returns them.
- Tables.Authenticate: a SELECT the server refuses raises an error that `authenticate_user` does not catch (lines 35-45); the model answers no user instead.
- Concurrency. Every call is modelled as running alone, one after another. `enroll_in_course` checks for an existing pair (lines 325-330) and inserts in a separate statement (lines 335-338). Two overlapping calls for the same pair could both pass the check, so `UniqueEnrollments` holds only for calls that do not overlap, or for a store with a unique key on the (srn, course) pair.
- Collation. Key comparisons are exact string equality, as under a case-sensitive (binary) collation. Under a case-insensitive collation, two ids that differ only in case would clash in the store; in the model such an insert is a `rejected` statement.
- Portal.Database.UpdateGrade: does not bound the grade, because the code stores what it is given. The 0..10 bound is stated for grades from the form by `RegradeKeepsRange`.
- Portal.Database.Enroll: does not require the faculty to teach the course, because the code does not check it.
- Portal.Database.Submit: does not reject a second submission of the same pair, because the code does not check it.
