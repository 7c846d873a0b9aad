/**
 * Runs of the portal's workflow through the store, checked from the contracts of the
 * write methods alone. Each starts from an empty store.
 */
module Scenario {
  import opened Tables
  import opened Workflow
  import opened Status
  import opened Portal

  /** A faculty with one course and a student register; registering the student's id again is refused. */
  method Registrations(hash: string -> string) {
    var db := new Database();
    var conn := Open(None);
    var faculty := Registration("F1", "secret", Faculty, "Asha", "asha@uni", None, None, None,
                                [CourseInput("CS101", "Algorithms")]);
    var ok := db.CreateUser(conn, hash, faculty);
    assert ok;
    assert db.courses == [CourseRow("CS101", "Algorithms", Some("F1"))];

    var student := Registration("S1", "hunter2", Student, "Ravi", "ravi@uni", Some(3), Some("CSE"), Some("A"), []);
    assert "S1" !in UserIds(db.users);
    ok := db.CreateUser(conn, hash, student);
    assert ok && |db.students| == 1;

    ok := db.CreateUser(conn, hash, student);
    assert !ok;
  }

  /** A faculty registration whose link insert (statement 2) is refused leaves no row behind. */
  method RolledBackRegistration(hash: string -> string) {
    var db := new Database();
    var faculty := Registration("F2", "pw", Faculty, "Bela", "bela@uni", None, None, None,
                                [CourseInput("CS102", "Databases")]);
    var ok := db.CreateUser(Open(Some(2)), hash, faculty);
    assert !ok;
    assert db.users == [] && db.courses == [] && db.courseFaculty == [];
  }

  /** A second enrollment in the same course is refused and the first faculty stays. */
  method Enrollments() {
    var db := new Database();
    var conn := Open(None);
    var ok := db.Enroll(conn, "S1", "CS101", "F1");
    assert ok;
    ok := db.Enroll(conn, "S1", "CS101", "F2");
    assert !ok;
    assert db.studentCourses == [EnrollmentRow("S1", "CS101", "F1")];
  }

  /** An announcement reaches the enrolled student once, and marking it read leaves none unread. */
  method Announcement() {
    var db := new Database();
    var conn := Open(None);
    var ok := db.Enroll(conn, "S1", "CS101", "F1");
    assert ok;
    ok := db.UploadAssignment(conn, "CS101", "Algorithms", "Sorting", "Implement merge sort", "2026-11-01", None, 1000);
    assert ok;
    assert db.notifications[0..] == db.notifications;
    assert Enrolled(db.studentCourses, "S1", "CS101");
    assert Received(db.notifications, "S1") == 1;
    assert Received(db.notifications, "S2") == 0;

    ok := db.MarkNotificationRead(conn, "S1", 1000);
    assert ok;
    assert UnreadAt(db.notifications, "S1", 1000) == 0;
  }

  /** A submission shows as in progress, then, once graded, as graded with that grade. */
  method Grading() {
    var db := new Database();
    var conn := Open(None);
    var ok := db.Submit(conn, "S1", 1, "sort.py", 2000);
    assert ok;
    assert GradingInProgress in Statuses(db.submissions, 1, "S1");

    var before := db.submissions;
    ok := db.UpdateGrade(conn, 1, 9, "Well done");
    assert ok;
    GradingShowsGraded(before, 0, 9, "Well done");
    assert Graded(9, Some("Well done")) in Statuses(db.submissions, 1, "S1");
  }
}
