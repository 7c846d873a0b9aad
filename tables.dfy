/**
 * The rows of the student portal's relational store, the connection outcome every
 * write sees, the key sets of the tables, and the login lookup.
 *
 * Every table is a sequence of rows in insertion order. Timestamps are whole seconds,
 * which is the precision of the store's TIMESTAMP columns.
 */
module Tables {

  datatype Option<T> = None | Some(value: T)

  /** Seconds, as stored in the `created_at` and `submission_date` columns. */
  type Timestamp = nat

  /** The `role` column: the registration form offers exactly these three. */
  datatype Role = Admin | Student | Faculty

  datatype UserRow = UserRow(userId: string, password: string, role: Role, name: string, email: string)

  datatype StudentRow = StudentRow(srn: string, semester: Option<int>, branch: Option<string>, section: Option<string>)

  /** `faculty_id` is NULL for a course an admin adds without a teacher. */
  datatype CourseRow = CourseRow(courseId: string, courseName: string, facultyId: Option<string>)

  datatype CourseFacultyRow = CourseFacultyRow(courseId: string, facultyId: string)

  /** A `student_courses` row: the student, the course and the supervising faculty. */
  datatype EnrollmentRow = EnrollmentRow(srn: string, courseId: string, facultyId: string)

  datatype AssignmentRow = AssignmentRow(
    assignmentId: nat, courseId: string, title: string, description: string,
    deadline: string, filePath: Option<string>)

  datatype SubmissionRow = SubmissionRow(
    submissionId: nat, assignmentId: nat, studentId: string, filePath: string,
    submittedAt: Timestamp, grade: Option<int>, feedback: Option<string>)

  datatype NotificationRow = NotificationRow(userId: string, message: string, createdAt: Timestamp, isRead: bool)

  /**
   * What the database does with the SQL statements of one call. `Unavailable` is a
   * failed connect. `Open(Some(k))` means the server refuses the statement numbered k
   * (0-based, in the order the call issues them) for a reason this model does not
   * track (an unseen constraint, a storage fault); `Open(None)` refuses none of them.
   */
  datatype Connection = Unavailable | Open(rejected: Option<nat>)

  /** The statement numbered k is executed without error on this connection. */
  predicate Runs(conn: Connection, k: nat) {
    conn.Open? && conn.rejected != Some(k)
  }

  /** The statements numbered 0 .. n-1 all run without error on this connection. */
  predicate RunsAll(conn: Connection, n: nat) {
    conn.Open? && (conn.rejected.None? || n <= conn.rejected.value)
  }

  // Key sets of the tables.

  function UserIds(users: seq<UserRow>): set<string> {
    set u | u in users :: u.userId
  }

  function Srns(students: seq<StudentRow>): set<string> {
    set s | s in students :: s.srn
  }

  function CourseIds(courses: seq<CourseRow>): set<string> {
    set c | c in courses :: c.courseId
  }

  /** The ids of the users registered with the role. */
  function IdsWithRole(users: seq<UserRow>, role: Role): set<string> {
    set u | u in users && u.role == role :: u.userId
  }

  /** The faculty ids `course_faculty` links to some course. */
  function LinkedFaculty(links: seq<CourseFacultyRow>): set<string> {
    set l | l in links :: l.facultyId
  }

  /** The faculty ids `courses` names as a course's teacher. */
  function Teachers(courses: seq<CourseRow>): set<string> {
    set c | c in courses && c.facultyId.Some? :: c.facultyId.value
  }

  predicate Linked(links: seq<CourseFacultyRow>, courseId: string, facultyId: string) {
    CourseFacultyRow(courseId, facultyId) in links
  }

  predicate Enrolled(ledger: seq<EnrollmentRow>, srn: string, courseId: string) {
    exists r :: r in ledger && r.srn == srn && r.courseId == courseId
  }

  // Key constraints.

  predicate UniqueUserIds(users: seq<UserRow>) {
    forall i, j :: 0 <= i < j < |users| ==> users[i].userId != users[j].userId
  }

  predicate UniqueSrns(students: seq<StudentRow>) {
    forall i, j :: 0 <= i < j < |students| ==> students[i].srn != students[j].srn
  }

  predicate UniqueCourseIds(courses: seq<CourseRow>) {
    forall i, j :: 0 <= i < j < |courses| ==> courses[i].courseId != courses[j].courseId
  }

  predicate UniqueLinks(links: seq<CourseFacultyRow>) {
    forall i, j :: 0 <= i < j < |links| ==> links[i] != links[j]
  }

  /** At most one `student_courses` row per (srn, course_id). */
  predicate UniqueEnrollments(ledger: seq<EnrollmentRow>) {
    forall i, j :: 0 <= i < j < |ledger| ==>
      ledger[i].srn != ledger[j].srn || ledger[i].courseId != ledger[j].courseId
  }

  /** Generated assignment ids start at 1, stay below the next one, and increase in row order. */
  predicate AssignmentIdsBelow(assignments: seq<AssignmentRow>, next: nat) {
    && (forall k :: 0 <= k < |assignments| ==> 1 <= assignments[k].assignmentId < next)
    && (forall i, j :: 0 <= i < j < |assignments| ==> assignments[i].assignmentId < assignments[j].assignmentId)
  }

  /** Generated submission ids start at 1, stay below the next one, and increase in row order. */
  predicate SubmissionIdsBelow(submissions: seq<SubmissionRow>, next: nat) {
    && (forall k :: 0 <= k < |submissions| ==> 1 <= submissions[k].submissionId < next)
    && (forall i, j :: 0 <= i < j < |submissions| ==> submissions[i].submissionId < submissions[j].submissionId)
  }

  // Login.

  /** `SELECT * FROM users WHERE user_id = %s` followed by `fetchone()`: the first such row. */
  function FindUser(users: seq<UserRow>, userId: string): (r: Option<UserRow>)
    ensures r.Some? ==> r.value in users && r.value.userId == userId
    ensures r.None? <==> userId !in UserIds(users)
  {
    if users == [] then None
    else if users[0].userId == userId then Some(users[0])
    else FindUser(users[1..], userId)
  }

  /**
   * `authenticate_user`: nothing when the connection fails; otherwise the user row
   * when the stored digest equals the digest of the given password. The digest
   * function is a parameter.
   */
  function Authenticate(conn: Connection, users: seq<UserRow>, hash: string -> string, userId: string, password: string)
    : (r: Option<UserRow>)
    ensures !Runs(conn, 0) ==> r.None?
    ensures r.Some? ==> r.value in users && r.value.userId == userId && r.value.password == hash(password)
    ensures r.None? && Runs(conn, 0) && UniqueUserIds(users) ==>
      forall u :: u in users && u.userId == userId ==> u.password != hash(password)
  {
    if !Runs(conn, 0) then None
    else
      var found := FindUser(users, userId);
      if found.Some? && found.value.password == hash(password) then found else None
  }

  /** With unique user ids, the row registered for an id is the one login finds. */
  lemma {:induction false} FindUserUnique(users: seq<UserRow>, u: UserRow)
    requires UniqueUserIds(users) && u in users
    ensures FindUser(users, u.userId) == Some(u)
  {
    if users[0] != u {
      assert users[0].userId != u.userId by {
        var k :| 0 <= k < |users| && users[k] == u;
        assert k != 0;
      }
      assert u in users[1..];
      FindUserUnique(users[1..], u);
    }
  }

  /**
   * A user whose row holds the digest of a password logs in with that password, and
   * with no password whose digest differs.
   */
  lemma LoginAfterRegistration(conn: Connection, users: seq<UserRow>, hash: string -> string, u: UserRow,
                               password: string, other: string)
    requires UniqueUserIds(users) && u in users && u.password == hash(password)
    ensures Authenticate(conn, users, hash, u.userId, password) == if Runs(conn, 0) then Some(u) else None
    ensures hash(other) != hash(password) ==> Authenticate(conn, users, hash, u.userId, other) == None
  {
    FindUserUnique(users, u);
  }
}
