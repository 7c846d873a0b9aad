/**
 * What each write of the portal does to its tables, as functions of the old rows, and
 * the properties of those writes. The class in module Portal applies these functions.
 */
module Workflow {
  import opened Tables

  // ---------------------------------------------------------------------------
  // Registration (create_user)
  // ---------------------------------------------------------------------------

  /** One entry of the faculty registration form: a course code and its name. */
  datatype CourseInput = CourseInput(courseId: string, courseName: string)

  /** The arguments of `create_user`; an absent course list is the empty one. */
  datatype Registration = Registration(
    userId: string, password: string, role: Role, name: string, email: string,
    semester: Option<int>, branch: Option<string>, section: Option<string>,
    courses: seq<CourseInput>)

  /** The `courses` rows a faculty registration inserts, in list order. */
  function CourseRows(list: seq<CourseInput>, facultyId: string): (r: seq<CourseRow>)
    ensures |r| == |list|
    ensures forall k :: 0 <= k < |r| ==>
      r[k].courseId == list[k].courseId && r[k].courseName == list[k].courseName && r[k].facultyId == Some(facultyId)
  {
    seq(|list|, k requires 0 <= k < |list| => CourseRow(list[k].courseId, list[k].courseName, Some(facultyId)))
  }

  /** The `course_faculty` rows a faculty registration inserts, in list order. */
  function LinkRows(list: seq<CourseInput>, facultyId: string): (r: seq<CourseFacultyRow>)
    ensures |r| == |list|
    ensures forall k :: 0 <= k < |r| ==> r[k].courseId == list[k].courseId && r[k].facultyId == facultyId
  {
    seq(|list|, k requires 0 <= k < |list| => CourseFacultyRow(list[k].courseId, facultyId))
  }

  /** The `users` row of a registration: the password is stored as its digest. */
  function NewUser(req: Registration, hash: string -> string): (u: UserRow)
    ensures u.userId == req.userId && u.password == hash(req.password) && u.role == req.role
  {
    UserRow(req.userId, hash(req.password), req.role, req.name, req.email)
  }

  /** The `students` rows a registration inserts: one, keyed by the user id, for a student only. */
  function NewStudentRows(req: Registration): (r: seq<StudentRow>)
    ensures |r| == (if req.role == Student then 1 else 0)
    ensures forall s :: s in r ==> s.srn == req.userId
  {
    if req.role == Student then [StudentRow(req.userId, req.semester, req.branch, req.section)] else []
  }

  /** The `courses` rows a registration inserts: the listed courses, for a faculty only. */
  function NewCourseRows(req: Registration): (r: seq<CourseRow>)
    ensures |r| == (if req.role == Faculty then |req.courses| else 0)
  {
    if req.role == Faculty then CourseRows(req.courses, req.userId) else []
  }

  /** The `course_faculty` rows a registration inserts: one per listed course, for a faculty only. */
  function NewLinkRows(req: Registration): (r: seq<CourseFacultyRow>)
    ensures |r| == (if req.role == Faculty then |req.courses| else 0)
    ensures forall l :: l in r ==> l.facultyId == req.userId
  {
    if req.role == Faculty then LinkRows(req.courses, req.userId) else []
  }

  /** How many INSERT statements `create_user` issues for a request. */
  function RegistrationStatements(req: Registration): (n: nat)
    ensures n == 1 + |NewStudentRows(req)| + |NewCourseRows(req)| + |NewLinkRows(req)|
  {
    1 + match req.role
        case Student => 1
        case Faculty => 2 * |req.courses|
        case Admin => 0
  }

  /**
   * The first n course entries of a faculty registration violate no key: their codes
   * are pairwise distinct, not yet in `courses`, and not yet linked to the faculty.
   */
  predicate CoursesAccepted(courses: seq<CourseRow>, links: seq<CourseFacultyRow>, list: seq<CourseInput>,
                            facultyId: string, n: nat)
    requires n <= |list|
  {
    && (forall i, j :: 0 <= i < j < n ==> list[i].courseId != list[j].courseId)
    && (forall i :: 0 <= i < n ==> list[i].courseId !in CourseIds(courses) && !Linked(links, list[i].courseId, facultyId))
  }

  /**
   * No INSERT of the request violates a key: the user id is new, a student's srn is
   * new, and a faculty's course entries are accepted.
   */
  predicate RegistrationAccepted(users: seq<UserRow>, students: seq<StudentRow>, courses: seq<CourseRow>,
                                 links: seq<CourseFacultyRow>, req: Registration)
  {
    && req.userId !in UserIds(users)
    && (req.role == Student ==> req.userId !in Srns(students))
    && (req.role == Faculty ==> CoursesAccepted(courses, links, req.courses, req.userId, |req.courses|))
  }

  /** The course codes of the first n entries. */
  function EntryIds(list: seq<CourseInput>, n: nat): set<string>
    requires n <= |list|
  {
    set k | 0 <= k < n :: list[k].courseId
  }

  /** The rows of the first n + 1 entries are those of the first n, then entry n's. */
  lemma RowsOfNextEntry(list: seq<CourseInput>, facultyId: string, n: nat)
    requires n < |list|
    ensures CourseRows(list[..n + 1], facultyId) == CourseRows(list[..n], facultyId) + [CourseRow(list[n].courseId, list[n].courseName, Some(facultyId))]
    ensures LinkRows(list[..n + 1], facultyId) == LinkRows(list[..n], facultyId) + [CourseFacultyRow(list[n].courseId, facultyId)]
  {
    assert CourseRows(list[..n + 1], facultyId) == CourseRows(list[..n], facultyId) + [CourseRow(list[n].courseId, list[n].courseName, Some(facultyId))];
  }

  /** After inserting the first n entries, `courses` holds the old codes and theirs. */
  lemma CourseIdsOfEntries(courses: seq<CourseRow>, list: seq<CourseInput>, facultyId: string, n: nat)
    requires n <= |list|
    ensures CourseIds(courses + CourseRows(list[..n], facultyId)) == CourseIds(courses) + EntryIds(list, n)
  {
    var added := CourseRows(list[..n], facultyId);
    forall c | c in added ensures c.courseId in EntryIds(list, n) {
      var k :| 0 <= k < |added| && added[k] == c;
    }
    forall k | 0 <= k < n ensures list[k].courseId in CourseIds(added) {
      assert added[k] in added;
    }
  }

  /** After inserting the first n links, a pair is linked when it was before or is one of them. */
  lemma LinkedOfEntries(links: seq<CourseFacultyRow>, list: seq<CourseInput>, facultyId: string, n: nat, courseId: string)
    requires n <= |list|
    ensures Linked(links + LinkRows(list[..n], facultyId), courseId, facultyId) <==>
      Linked(links, courseId, facultyId) || courseId in EntryIds(list, n)
  {
    var linked := LinkRows(list[..n], facultyId);
    if CourseFacultyRow(courseId, facultyId) in linked {
      var k :| 0 <= k < |linked| && linked[k] == CourseFacultyRow(courseId, facultyId);
    }
    if courseId in EntryIds(list, n) {
      var k :| 0 <= k < n && list[k].courseId == courseId;
      assert linked[k] == CourseFacultyRow(courseId, facultyId);
    }
  }

  /** The first n + 1 entries are accepted when the first n are and entry n clashes with none of them. */
  lemma AcceptedNext(courses: seq<CourseRow>, links: seq<CourseFacultyRow>, list: seq<CourseInput>,
                     facultyId: string, n: nat)
    requires n < |list| && CoursesAccepted(courses, links, list, facultyId, n)
    ensures CoursesAccepted(courses, links, list, facultyId, n + 1) <==>
      && list[n].courseId !in EntryIds(list, n)
      && list[n].courseId !in CourseIds(courses)
      && !Linked(links, list[n].courseId, facultyId)
  {
    var cid := list[n].courseId;
    if cid in EntryIds(list, n) {
      var k :| 0 <= k < n && list[k].courseId == cid;
      assert !CoursesAccepted(courses, links, list, facultyId, n + 1);
    }
  }

  /**
   * Inserting course entry n after the first n: its course row clashes exactly when
   * its code is already in `courses` or among the earlier entries, and then its link
   * row clashes exactly when the pair is already in `course_faculty`.
   */
  lemma CourseEntryStep(courses: seq<CourseRow>, links: seq<CourseFacultyRow>,
                        list: seq<CourseInput>, facultyId: string, n: nat)
    requires n < |list| && CoursesAccepted(courses, links, list, facultyId, n)
    ensures CourseRows(list[..n + 1], facultyId) == CourseRows(list[..n], facultyId) + [CourseRow(list[n].courseId, list[n].courseName, Some(facultyId))]
    ensures LinkRows(list[..n + 1], facultyId) == LinkRows(list[..n], facultyId) + [CourseFacultyRow(list[n].courseId, facultyId)]
    ensures CoursesAccepted(courses, links, list, facultyId, n + 1) <==>
      && list[n].courseId !in CourseIds(courses + CourseRows(list[..n], facultyId))
      && !Linked(links + LinkRows(list[..n], facultyId), list[n].courseId, facultyId)
  {
    RowsOfNextEntry(list, facultyId, n);
    CourseIdsOfEntries(courses, list, facultyId, n);
    LinkedOfEntries(links, list, facultyId, n, list[n].courseId);
    AcceptedNext(courses, links, list, facultyId, n);
  }

  /** An accepted registration keeps every key of the four tables it writes unique. */
  lemma RegistrationKeepsKeys(users: seq<UserRow>, students: seq<StudentRow>, courses: seq<CourseRow>,
                              links: seq<CourseFacultyRow>, req: Registration, hash: string -> string)
    requires UniqueUserIds(users) && UniqueSrns(students) && UniqueCourseIds(courses) && UniqueLinks(links)
    requires RegistrationAccepted(users, students, courses, links, req)
    ensures UniqueUserIds(users + [NewUser(req, hash)])
    ensures UniqueSrns(students + NewStudentRows(req))
    ensures UniqueCourseIds(courses + NewCourseRows(req))
    ensures UniqueLinks(links + NewLinkRows(req))
  {
    var u := users + [NewUser(req, hash)];
    forall i | 0 <= i < |users| ensures u[i].userId != req.userId {
      assert users[i] in users;
    }
    var s := students + NewStudentRows(req);
    forall i | 0 <= i < |students| && req.role == Student ensures s[i].srn != req.userId {
      assert students[i] in students;
    }
    if req.role == Faculty {
      var added := CourseRows(req.courses, req.userId);
      var c := courses + added;
      forall i, j | 0 <= i < j < |c| ensures c[i].courseId != c[j].courseId {
        if j >= |courses| && i < |courses| {
          assert courses[i] in courses;
          assert c[j].courseId == req.courses[j - |courses|].courseId;
        }
      }
      var linked := LinkRows(req.courses, req.userId);
      var l := links + linked;
      forall i, j | 0 <= i < j < |l| ensures l[i] != l[j] {
        if j >= |links| && i < |links| {
          assert links[i] in links;
          assert l[j] == CourseFacultyRow(req.courses[j - |links|].courseId, req.userId);
        }
      }
    }
  }

  /**
   * A registration keeps every `students` row owned by a student user and every course
   * teacher and link owned by a faculty user: the rows it adds name the new user,
   * whose role is the one they are added for.
   */
  lemma RegistrationKeepsOwners(users: seq<UserRow>, students: seq<StudentRow>, courses: seq<CourseRow>,
                                links: seq<CourseFacultyRow>, req: Registration, hash: string -> string)
    requires Srns(students) <= IdsWithRole(users, Student)
    requires Teachers(courses) <= IdsWithRole(users, Faculty)
    requires LinkedFaculty(links) <= IdsWithRole(users, Faculty)
    ensures Srns(students + NewStudentRows(req)) <= IdsWithRole(users + [NewUser(req, hash)], Student)
    ensures Teachers(courses + NewCourseRows(req)) <= IdsWithRole(users + [NewUser(req, hash)], Faculty)
    ensures LinkedFaculty(links + NewLinkRows(req)) <= IdsWithRole(users + [NewUser(req, hash)], Faculty)
  {
    var after := users + [NewUser(req, hash)];
    assert NewUser(req, hash) in after;
    forall r: Role ensures IdsWithRole(users, r) <= IdsWithRole(after, r) {
      forall id | id in IdsWithRole(users, r) ensures id in IdsWithRole(after, r) {
        var u :| u in users && u.role == r && u.userId == id;
        assert u in after;
      }
    }
    forall c | c in courses + NewCourseRows(req) && c.facultyId.Some?
      ensures c.facultyId.value in IdsWithRole(after, Faculty)
    {
      if c !in courses {
        var k :| 0 <= k < |NewCourseRows(req)| && NewCourseRows(req)[k] == c;
      }
    }
  }

  /** Right after a registration the new user logs in with the chosen password whenever the connection opens. */
  lemma RegisteredUserLogsIn(conn: Connection, users: seq<UserRow>, req: Registration, hash: string -> string, other: string)
    requires UniqueUserIds(users) && req.userId !in UserIds(users)
    ensures Authenticate(conn, users + [NewUser(req, hash)], hash, req.userId, req.password) ==
      if Runs(conn, 0) then Some(NewUser(req, hash)) else None
    ensures hash(other) != hash(req.password) ==> Authenticate(conn, users + [NewUser(req, hash)], hash, req.userId, other) == None
  {
    var after := users + [NewUser(req, hash)];
    forall i, j | 0 <= i < j < |after| ensures after[i].userId != after[j].userId {
      if j == |users| { assert users[i] in users; }
    }
    LoginAfterRegistration(conn, after, hash, NewUser(req, hash), req.password, other);
  }

  // ---------------------------------------------------------------------------
  // Enrollment (enroll_in_course)
  // ---------------------------------------------------------------------------

  /**
   * Enrolling only pairs that have no row yet keeps at most one row per (srn, course),
   * and the row already there, with its faculty, stays in place.
   */
  lemma EnrollmentKeepsUnique(ledger: seq<EnrollmentRow>, row: EnrollmentRow)
    requires UniqueEnrollments(ledger) && !Enrolled(ledger, row.srn, row.courseId)
    ensures UniqueEnrollments(ledger + [row])
    ensures Enrolled(ledger + [row], row.srn, row.courseId)
  {
    var after := ledger + [row];
    forall i | 0 <= i < |ledger| ensures ledger[i].srn != row.srn || ledger[i].courseId != row.courseId {
      assert ledger[i] in ledger;
    }
    assert after[|ledger|] == row;
  }

  // ---------------------------------------------------------------------------
  // Assignment upload and notification fan-out (upload_assignment)
  // ---------------------------------------------------------------------------

  /** `t` occurs in `s` as a contiguous piece. */
  predicate Mentions(s: string, t: string) {
    exists p, q :: 0 <= p <= q <= |s| && s[p..q] == t
  }

  /** The notification text of a new assignment: it names the title, the course and the deadline. */
  function AssignmentMessage(title: string, courseName: string, deadline: string): (m: string)
    ensures Mentions(m, title) && Mentions(m, courseName) && Mentions(m, deadline)
  {
    var a := "New assignment '";
    var b := "' has been uploaded for ";
    var c := ". Deadline: ";
    var m := a + title + b + courseName + c + deadline;
    var t0 := |a|;
    var c0 := t0 + |title| + |b|;
    var d0 := c0 + |courseName| + |c|;
    assert m[t0..t0 + |title|] == title;
    assert m[c0..c0 + |courseName|] == courseName;
    assert m[d0..|m|] == deadline;
    m
  }

  /** Where an uploaded assignment file is kept. */
  function AssignmentPath(courseId: string, fileName: string): (p: string)
    ensures "assignments/" + courseId + "_" <= p
  {
    "assignments/" + courseId + "_" + fileName
  }

  /**
   * The rows `INSERT INTO notifications (user_id, message) SELECT sc.srn, ... FROM
   * student_courses sc WHERE sc.course_id = ...` adds: one per ledger row of the
   * course, in ledger order, all unread and stamped with the same instant.
   */
  function FanOut(ledger: seq<EnrollmentRow>, courseId: string, message: string, at: Timestamp): (r: seq<NotificationRow>)
    ensures |r| <= |ledger|
    ensures forall k :: 0 <= k < |r| ==> r[k].message == message && r[k].createdAt == at && !r[k].isRead
  {
    if ledger == [] then []
    else
      (if ledger[0].courseId == courseId then [NotificationRow(ledger[0].srn, message, at, false)] else [])
      + FanOut(ledger[1..], courseId, message, at)
  }

  /** How many of the rows are addressed to the user. */
  function Received(ns: seq<NotificationRow>, userId: string): (n: nat)
    ensures n <= |ns|
  {
    if ns == [] then 0
    else (if ns[0].userId == userId then 1 else 0) + Received(ns[1..], userId)
  }

  /** The students the ledger enrolls in the course. */
  function Roster(ledger: seq<EnrollmentRow>, courseId: string): set<string> {
    set r | r in ledger && r.courseId == courseId :: r.srn
  }

  /** Every fanned-out notification goes to a student the ledger enrolls in the course. */
  lemma {:induction false} FanOutRows(ledger: seq<EnrollmentRow>, courseId: string, message: string, at: Timestamp)
    ensures forall n :: n in FanOut(ledger, courseId, message, at) ==> Enrolled(ledger, n.userId, courseId)
  {
    if ledger != [] {
      FanOutRows(ledger[1..], courseId, message, at);
      forall n | n in FanOut(ledger[1..], courseId, message, at)
        ensures Enrolled(ledger, n.userId, courseId)
      {
        var r :| r in ledger[1..] && r.srn == n.userId && r.courseId == courseId;
        assert r in ledger;
      }
    }
  }

  /**
   * With at most one ledger row per (student, course), each student enrolled in the
   * course receives exactly one notification and every other user none; a student who
   * enrols later is not in the ledger the fan-out read, so receives none.
   */
  lemma {:induction false} FanOutOnePerStudent(ledger: seq<EnrollmentRow>, courseId: string, message: string,
                                              at: Timestamp, userId: string)
    requires UniqueEnrollments(ledger)
    ensures Received(FanOut(ledger, courseId, message, at), userId) == if Enrolled(ledger, userId, courseId) then 1 else 0
  {
    if ledger != [] {
      var rest := ledger[1..];
      assert UniqueEnrollments(rest) by {
        forall i, j | 0 <= i < j < |rest| ensures rest[i].srn != rest[j].srn || rest[i].courseId != rest[j].courseId {
          assert rest[i] == ledger[i + 1] && rest[j] == ledger[j + 1];
        }
      }
      FanOutOnePerStudent(rest, courseId, message, at, userId);
      var head := if ledger[0].courseId == courseId then [NotificationRow(ledger[0].srn, message, at, false)] else [];
      var tail := FanOut(rest, courseId, message, at);
      ReceivedAppend(head, tail, userId);
      assert Enrolled(ledger, userId, courseId) <==>
        (ledger[0].srn == userId && ledger[0].courseId == courseId) || Enrolled(rest, userId, courseId) by {
        if Enrolled(ledger, userId, courseId) {
          var r :| r in ledger && r.srn == userId && r.courseId == courseId;
          var k :| 0 <= k < |ledger| && ledger[k] == r;
          if k > 0 { assert rest[k - 1] == r; }
        }
        if Enrolled(rest, userId, courseId) {
          var r :| r in rest && r.srn == userId && r.courseId == courseId;
          assert r in ledger;
        }
      }
      if ledger[0].srn == userId && ledger[0].courseId == courseId {
        assert !Enrolled(rest, userId, courseId) by {
          forall k | 0 <= k < |rest| ensures rest[k].srn != userId || rest[k].courseId != courseId {
            assert rest[k] == ledger[k + 1];
          }
        }
      }
    }
  }

  /** The fan-out has as many rows as the course has enrolled students. */
  lemma {:induction false} FanOutSize(ledger: seq<EnrollmentRow>, courseId: string, message: string, at: Timestamp)
    requires UniqueEnrollments(ledger)
    ensures |FanOut(ledger, courseId, message, at)| == |Roster(ledger, courseId)|
  {
    if ledger == [] {
      assert Roster(ledger, courseId) == {};
    } else {
      var rest := ledger[1..];
      assert UniqueEnrollments(rest) by {
        forall i, j | 0 <= i < j < |rest| ensures rest[i].srn != rest[j].srn || rest[i].courseId != rest[j].courseId {
          assert rest[i] == ledger[i + 1] && rest[j] == ledger[j + 1];
        }
      }
      FanOutSize(rest, courseId, message, at);
      assert ledger == [ledger[0]] + rest;
      if ledger[0].courseId == courseId {
        assert Roster(ledger, courseId) == {ledger[0].srn} + Roster(rest, courseId);
        assert ledger[0].srn !in Roster(rest, courseId) by {
          forall k | 0 <= k < |rest| ensures rest[k].srn != ledger[0].srn || rest[k].courseId != courseId {
            assert rest[k] == ledger[k + 1];
          }
        }
      } else {
        assert Roster(ledger, courseId) == Roster(rest, courseId);
      }
    }
  }

  lemma {:induction false} ReceivedAppend(a: seq<NotificationRow>, b: seq<NotificationRow>, userId: string)
    ensures Received(a + b, userId) == Received(a, userId) + Received(b, userId)
  {
    if a != [] {
      assert (a + b)[1..] == a[1..] + b;
      ReceivedAppend(a[1..], b, userId);
    } else {
      assert a + b == b;
    }
  }

  // ---------------------------------------------------------------------------
  // Submission and grading (submit_assignment, update_grade_and_feedback)
  // ---------------------------------------------------------------------------

  /** The number a string of decimal digits denotes, most significant digit first. */
  function DigitsValue(s: string): nat {
    if s == [] then 0
    else
      var d := (s[|s| - 1] as int) - ('0' as int);
      DigitsValue(s[..|s| - 1]) * 10 + (if 0 <= d then d else 0)
  }

  /** The decimal digits of a number, as Python's `str` writes it. */
  function Decimal(n: nat): (s: string)
    ensures |s| >= 1
    ensures forall k :: 0 <= k < |s| ==> '0' <= s[k] <= '9'
    ensures DigitsValue(s) == n
  {
    var d := [(('0' as int) + n % 10) as char];
    if n < 10 then d
    else
      var s := Decimal(n / 10) + d;
      assert s[..|s| - 1] == Decimal(n / 10);
      s
  }

  /** Where a submitted file is kept: `submissions/{user}_{assignment}_{file name}`. */
  function SubmissionPath(userId: string, assignmentId: nat, fileName: string): (p: string)
    ensures "submissions/" + userId + "_" <= p
  {
    "submissions/" + userId + "_" + Decimal(assignmentId) + "_" + fileName
  }

  /** A user's submissions of one file name to two assignments are kept at two paths. */
  lemma SubmissionPathsDiffer(userId: string, a1: nat, a2: nat, fileName: string)
    requires a1 != a2
    ensures SubmissionPath(userId, a1, fileName) != SubmissionPath(userId, a2, fileName)
  {
    var pre := "submissions/" + userId + "_";
    var post := "_" + fileName;
    var p1 := pre + Decimal(a1) + post;
    var p2 := pre + Decimal(a2) + post;
    assert SubmissionPath(userId, a1, fileName) == p1;
    assert SubmissionPath(userId, a2, fileName) == p2;
    if |Decimal(a1)| != |Decimal(a2)| {
      assert |p1| != |p2|;
    } else {
      // Equal lengths: the digits sit at the same place and denote different numbers.
      assert Decimal(a1) != Decimal(a2);
      assert p1[|pre|..|pre| + |Decimal(a1)|] == Decimal(a1);
      assert p2[|pre|..|pre| + |Decimal(a2)|] == Decimal(a2);
    }
  }

  /**
   * `UPDATE assignment_submissions SET grade = %s, feedback = %s WHERE submission_id = %s`.
   */
  function Regrade(subs: seq<SubmissionRow>, submissionId: nat, grade: int, feedback: string): (r: seq<SubmissionRow>)
    ensures |r| == |subs|
    ensures forall k :: 0 <= k < |r| && subs[k].submissionId == submissionId ==>
      r[k].grade == Some(grade) && r[k].feedback == Some(feedback)
    ensures forall k :: 0 <= k < |r| ==>
      r[k].(grade := subs[k].grade, feedback := subs[k].feedback) == subs[k]
    ensures forall k :: 0 <= k < |r| && subs[k].submissionId != submissionId ==> r[k] == subs[k]
  {
    seq(|subs|, k requires 0 <= k < |subs| =>
      if subs[k].submissionId == submissionId then subs[k].(grade := Some(grade), feedback := Some(feedback))
      else subs[k])
  }

  /** Every stored grade lies in the range the grading form offers, 0 to 10. */
  predicate GradesInRange(subs: seq<SubmissionRow>) {
    forall k :: 0 <= k < |subs| && subs[k].grade.Some? ==> 0 <= subs[k].grade.value <= 10
  }

  /** Grading again overwrites: only the last grade and feedback remain. */
  lemma RegradeOverwrites(subs: seq<SubmissionRow>, submissionId: nat, g1: int, f1: string, g2: int, f2: string)
    ensures Regrade(Regrade(subs, submissionId, g1, f1), submissionId, g2, f2) == Regrade(subs, submissionId, g2, f2)
  {
    var once := Regrade(subs, submissionId, g1, f1);
    var twice := Regrade(once, submissionId, g2, f2);
    var direct := Regrade(subs, submissionId, g2, f2);
    forall k | 0 <= k < |subs| ensures twice[k] == direct[k] {
      assert once[k].submissionId == subs[k].submissionId;
    }
  }

  /** A grade from the form (0 to 10) keeps every stored grade in that range. */
  lemma RegradeKeepsRange(subs: seq<SubmissionRow>, submissionId: nat, grade: int, feedback: string)
    requires GradesInRange(subs) && 0 <= grade <= 10
    ensures GradesInRange(Regrade(subs, submissionId, grade, feedback))
  {
  }

  // ---------------------------------------------------------------------------
  // Notification read flag (mark_notification_as_read)
  // ---------------------------------------------------------------------------

  /**
   * `UPDATE notifications SET is_read = TRUE WHERE user_id = %s AND created_at = %s`:
   * the caller's rows stamped with that instant become read; nothing else changes.
   */
  function MarkRead(ns: seq<NotificationRow>, userId: string, at: Timestamp): (r: seq<NotificationRow>)
    ensures |r| == |ns|
    ensures forall k :: 0 <= k < |r| ==> r[k].(isRead := ns[k].isRead) == ns[k]
    ensures forall k :: 0 <= k < |r| ==> (r[k].isRead <==> ns[k].isRead || (ns[k].userId == userId && ns[k].createdAt == at))
    ensures forall k :: 0 <= k < |r| && ns[k].userId != userId ==> r[k] == ns[k]
  {
    seq(|ns|, k requires 0 <= k < |ns| =>
      if ns[k].userId == userId && ns[k].createdAt == at then ns[k].(isRead := true) else ns[k])
  }

  /** How many of the user's notifications are unread. */
  function Unread(ns: seq<NotificationRow>, userId: string): (n: nat)
    ensures n <= Received(ns, userId)
  {
    if ns == [] then 0
    else (if ns[0].userId == userId && !ns[0].isRead then 1 else 0) + Unread(ns[1..], userId)
  }

  /** How many of the user's unread notifications carry the instant. */
  function UnreadAt(ns: seq<NotificationRow>, userId: string, at: Timestamp): (n: nat)
    ensures n <= Unread(ns, userId)
  {
    if ns == [] then 0
    else (if ns[0].userId == userId && !ns[0].isRead && ns[0].createdAt == at then 1 else 0) + UnreadAt(ns[1..], userId, at)
  }

  /**
   * Marking drops the caller's unread count by exactly the unread rows stamped with
   * that instant (all of them, not one), and leaves every other user's count alone.
   */
  lemma {:induction false} MarkReadCounts(ns: seq<NotificationRow>, userId: string, at: Timestamp)
    ensures Unread(MarkRead(ns, userId, at), userId) == Unread(ns, userId) - UnreadAt(ns, userId, at)
    ensures UnreadAt(MarkRead(ns, userId, at), userId, at) == 0
    ensures forall other :: other != userId ==> Unread(MarkRead(ns, userId, at), other) == Unread(ns, other)
  {
    if ns != [] {
      var r := MarkRead(ns, userId, at);
      assert r[1..] == MarkRead(ns[1..], userId, at);
      MarkReadCounts(ns[1..], userId, at);
    }
  }
}
