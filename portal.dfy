/**
 * The portal's relational store as one object whose tables the write operations of
 * the application change in place. Each method issues the SQL statements of its
 * Python counterpart in order; the `Connection` argument says whether the connection
 * opens and which statement, if any, the server refuses. A refusal the model can
 * see (a duplicate key) is decided from the tables themselves.
 */
module Portal {
  import opened Tables
  import opened Workflow
  import opened Status

  class Database {
    var users: seq<UserRow>
    var students: seq<StudentRow>
    var courses: seq<CourseRow>
    var courseFaculty: seq<CourseFacultyRow>
    var studentCourses: seq<EnrollmentRow>
    var assignments: seq<AssignmentRow>
    var submissions: seq<SubmissionRow>
    var notifications: seq<NotificationRow>
    /** The next values of the AUTO_INCREMENT columns `assignment_id` and `submission_id`. */
    var nextAssignmentId: nat
    var nextSubmissionId: nat

    /**
     * The keys are unique; every `students` row belongs to a student user and every
     * course teacher and `course_faculty` link to a faculty user; the generated ids
     * start at 1 and increase in insertion order.
     */
    ghost predicate Valid()
      reads this
    {
      && UniqueUserIds(users)
      && UniqueSrns(students)
      && UniqueCourseIds(courses)
      && UniqueLinks(courseFaculty)
      && UniqueEnrollments(studentCourses)
      && Srns(students) <= IdsWithRole(users, Student)
      && Teachers(courses) <= IdsWithRole(users, Faculty)
      && LinkedFaculty(courseFaculty) <= IdsWithRole(users, Faculty)
      && 1 <= nextAssignmentId && 1 <= nextSubmissionId
      && AssignmentIdsBelow(assignments, nextAssignmentId)
      && SubmissionIdsBelow(submissions, nextSubmissionId)
    }

    /** An empty store. */
    constructor ()
      ensures Valid()
      ensures users == [] && students == [] && courses == [] && courseFaculty == []
      ensures studentCourses == [] && assignments == [] && submissions == [] && notifications == []
      ensures nextAssignmentId == 1 && nextSubmissionId == 1
    {
      users, students, courses, courseFaculty := [], [], [], [];
      studentCourses, assignments, submissions, notifications := [], [], [], [];
      nextAssignmentId, nextSubmissionId := 1, 1;
    }

    /**
     * `create_user`. Statement 0 inserts the user; a student's statement 1 inserts the
     * students row; a faculty's statements 1 + 2i and 2 + 2i insert course i and its
     * link. The first error rolls back every insert and the call answers false.
     */
    method CreateUser(conn: Connection, hash: string -> string, req: Registration) returns (ok: bool)
      requires Valid()
      modifies this`users, this`students, this`courses, this`courseFaculty
      ensures Valid()
      ensures ok <==> RunsAll(conn, RegistrationStatements(req))
                      && RegistrationAccepted(old(users), old(students), old(courses), old(courseFaculty), req)
      ensures ok ==> users == old(users) + [NewUser(req, hash)]
      ensures ok ==> students == old(students) + NewStudentRows(req)
      ensures ok ==> courses == old(courses) + NewCourseRows(req)
      ensures ok ==> courseFaculty == old(courseFaculty) + NewLinkRows(req)
      ensures !ok ==> users == old(users) && students == old(students)
                      && courses == old(courses) && courseFaculty == old(courseFaculty)
    {
      if conn.Unavailable? {
        return false;
      }
      var users0, students0, courses0, links0 := users, students, courses, courseFaculty;
      if conn.rejected == Some(0) || req.userId in UserIds(users) {
        return false;
      }
      users := users + [NewUser(req, hash)];
      ok := true;
      if req.role == Student {
        if conn.rejected == Some(1) || req.userId in Srns(students) {
          ok := false;
        } else {
          students := students + [StudentRow(req.userId, req.semester, req.branch, req.section)];
        }
      } else if req.role == Faculty && req.courses != [] {
        ok := InsertCourses(conn, req);
      }
      if ok {
        RegistrationKeepsKeys(users0, students0, courses0, links0, req, hash);
        RegistrationKeepsOwners(users0, students0, courses0, links0, req, hash);
      } else {
        // The rollback restores the tables the failed transaction wrote to.
        users, students, courses, courseFaculty := users0, students0, courses0, links0;
      }
    }

    /**
     * `enroll_in_course`. Statement 0 looks for a row of the (srn, course) pair; when
     * there is one the call answers false and writes nothing. Otherwise statement 1
     * inserts the row with the given faculty, which is not checked against the course.
     */
    method Enroll(conn: Connection, srn: string, courseId: string, facultyId: string) returns (ok: bool)
      requires Valid()
      modifies this`studentCourses
      ensures Valid()
      ensures ok <==> Runs(conn, 0) && !Enrolled(old(studentCourses), srn, courseId) && Runs(conn, 1)
      ensures ok ==> studentCourses == old(studentCourses) + [EnrollmentRow(srn, courseId, facultyId)]
      ensures !ok ==> studentCourses == old(studentCourses)
      ensures Enrolled(old(studentCourses), srn, courseId) ==> !ok
    {
      if !Runs(conn, 0) {
        return false;
      }
      if exists r :: r in studentCourses && r.srn == srn && r.courseId == courseId {
        return false;
      }
      if conn.rejected == Some(1) {
        return false;
      }
      EnrollmentKeepsUnique(studentCourses, EnrollmentRow(srn, courseId, facultyId));
      studentCourses := studentCourses + [EnrollmentRow(srn, courseId, facultyId)];
      ok := true;
    }

    /**
     * The store part of `upload_assignment`, reached only with a title and a
     * description. Statement 0 inserts the assignment under the next id; statement 1
     * sends the message to every student the enrollment ledger lists for the course,
     * stamped with the current instant. An error rolls back both.
     */
    method UploadAssignment(conn: Connection, courseId: string, courseName: string, title: string,
                            description: string, deadline: string, fileName: Option<string>, now: Timestamp)
      returns (ok: bool)
      requires Valid()
      modifies this`assignments, this`nextAssignmentId, this`notifications
      ensures Valid()
      ensures ok <==> title != "" && description != "" && RunsAll(conn, 2)
      ensures ok ==> (assignments == old(assignments) +
                        [AssignmentRow(old(nextAssignmentId), courseId, title, description, deadline,
                                       if fileName.Some? then Some(AssignmentPath(courseId, fileName.value)) else None)])
      ensures ok ==> nextAssignmentId == old(nextAssignmentId) + 1
      ensures ok ==> (notifications == old(notifications) +
                        FanOut(studentCourses, courseId, AssignmentMessage(title, courseName, deadline), now))
      ensures ok ==> (forall u :: Received(notifications[|old(notifications)|..], u) ==
                                  if Enrolled(studentCourses, u, courseId) then 1 else 0)
      ensures !ok ==> assignments == old(assignments) && nextAssignmentId == old(nextAssignmentId)
                      && notifications == old(notifications)
    {
      if title == "" || description == "" || !Runs(conn, 0) {
        return false;
      }
      var filePath := if fileName.Some? then Some(AssignmentPath(courseId, fileName.value)) else None;
      var assignments0, next0, notifications0 := assignments, nextAssignmentId, notifications;
      assignments := assignments + [AssignmentRow(nextAssignmentId, courseId, title, description, deadline, filePath)];
      nextAssignmentId := nextAssignmentId + 1;
      if conn.rejected == Some(1) {
        // The rollback removes the assignment again.
        assignments, nextAssignmentId := assignments0, next0;
        return false;
      }
      var message := AssignmentMessage(title, courseName, deadline);
      notifications := notifications + FanOut(studentCourses, courseId, message, now);
      assert notifications[|notifications0|..] == FanOut(studentCourses, courseId, message, now);
      forall u ensures Received(FanOut(studentCourses, courseId, message, now), u) ==
        if Enrolled(studentCourses, u, courseId) then 1 else 0
      {
        FanOutOnePerStudent(studentCourses, courseId, message, now, u);
      }
      ok := true;
    }

    /**
     * The store part of `submit_assignment`: statement 0 records the current user's
     * file for the assignment under the next id, ungraded, at the current instant. An
     * earlier submission of the same pair does not stop it.
     */
    method Submit(conn: Connection, userId: string, assignmentId: nat, fileName: string, now: Timestamp)
      returns (ok: bool)
      requires Valid()
      modifies this`submissions, this`nextSubmissionId
      ensures Valid()
      ensures ok <==> Runs(conn, 0)
      ensures ok ==> (submissions == old(submissions) +
                        [SubmissionRow(old(nextSubmissionId), assignmentId, userId,
                                       SubmissionPath(userId, assignmentId, fileName), now, None, None)])
      ensures ok ==> nextSubmissionId == old(nextSubmissionId) + 1
      ensures ok ==> GradingInProgress in Statuses(submissions, assignmentId, userId)
                     && NotSubmitted !in Statuses(submissions, assignmentId, userId)
      ensures !ok ==> submissions == old(submissions) && nextSubmissionId == old(nextSubmissionId)
    {
      if !Runs(conn, 0) {
        return false;
      }
      var row := SubmissionRow(nextSubmissionId, assignmentId, userId, SubmissionPath(userId, assignmentId, fileName), now, None, None);
      SubmittingShowsInProgress(submissions, row);
      submissions := submissions + [row];
      nextSubmissionId := nextSubmissionId + 1;
      ok := true;
    }

    /**
     * `update_grade_and_feedback`: statement 0 overwrites grade and feedback of the
     * submission with the id. The grade is stored as given.
     */
    method UpdateGrade(conn: Connection, submissionId: nat, grade: int, feedback: string) returns (ok: bool)
      requires Valid()
      modifies this`submissions
      ensures Valid()
      ensures ok <==> Runs(conn, 0)
      ensures ok ==> submissions == Regrade(old(submissions), submissionId, grade, feedback)
      ensures !ok ==> submissions == old(submissions)
    {
      if !Runs(conn, 0) {
        return false;
      }
      submissions := Regrade(submissions, submissionId, grade, feedback);
      ok := true;
    }

    /**
     * `mark_notification_as_read`: statement 0 marks read the current user's
     * notifications stamped with the instant. The caller's unread count drops by
     * exactly those rows and every other user's count stays.
     */
    method MarkNotificationRead(conn: Connection, userId: string, createdAt: Timestamp) returns (ok: bool)
      requires Valid()
      modifies this`notifications
      ensures Valid()
      ensures ok <==> Runs(conn, 0)
      ensures ok ==> notifications == MarkRead(old(notifications), userId, createdAt)
      ensures ok ==> Unread(notifications, userId) == Unread(old(notifications), userId) - UnreadAt(old(notifications), userId, createdAt)
      ensures ok ==> forall other :: other != userId ==> Unread(notifications, other) == Unread(old(notifications), other)
      ensures !ok ==> notifications == old(notifications)
    {
      if !Runs(conn, 0) {
        return false;
      }
      MarkReadCounts(notifications, userId, createdAt);
      notifications := MarkRead(notifications, userId, createdAt);
      ok := true;
    }

    /**
     * The loop of `create_user` over a faculty's courses: statement 1 + 2i inserts
     * course i, statement 2 + 2i links it to the faculty. The first error ends the
     * loop; undoing the rows already inserted is left to the caller's rollback.
     */
    method InsertCourses(conn: Connection, req: Registration) returns (ok: bool)
      requires RunsAll(conn, 1)
      modifies this`courses, this`courseFaculty
      ensures ok <==> RunsAll(conn, 1 + 2 * |req.courses|)
                      && CoursesAccepted(old(courses), old(courseFaculty), req.courses, req.userId, |req.courses|)
      ensures ok ==> courses == old(courses) + CourseRows(req.courses, req.userId)
      ensures ok ==> courseFaculty == old(courseFaculty) + LinkRows(req.courses, req.userId)
    {
      ok := true;
      var i := 0;
      while ok && i < |req.courses|
        invariant 0 <= i <= |req.courses|
        invariant ok ==> RunsAll(conn, 1 + 2 * i) && CoursesAccepted(old(courses), old(courseFaculty), req.courses, req.userId, i)
        invariant ok ==> courses == old(courses) + CourseRows(req.courses[..i], req.userId)
        invariant ok ==> courseFaculty == old(courseFaculty) + LinkRows(req.courses[..i], req.userId)
        invariant !ok ==> !(RunsAll(conn, 1 + 2 * |req.courses|)
                            && CoursesAccepted(old(courses), old(courseFaculty), req.courses, req.userId, |req.courses|))
      {
        var c := req.courses[i];
        CourseEntryStep(old(courses), old(courseFaculty), req.courses, req.userId, i);
        if conn.rejected == Some(1 + 2 * i) || c.courseId in CourseIds(courses) {
          ok := false;
        } else {
          courses := courses + [CourseRow(c.courseId, c.courseName, Some(req.userId))];
          if conn.rejected == Some(2 + 2 * i) || Linked(courseFaculty, c.courseId, req.userId) {
            ok := false;
          } else {
            courseFaculty := courseFaculty + [CourseFacultyRow(c.courseId, req.userId)];
            i := i + 1;
          }
        }
      }
      assert ok ==> req.courses[..i] == req.courses;
    }
  }
}
