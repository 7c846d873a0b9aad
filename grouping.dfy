/**
 * The admin's enrollment overview: the joined enrollment rows are grouped into a
 * dictionary keyed by course id, whose entries keep the course and faculty names of
 * the first row of the course and list the course's students in row order.
 *
 * A Python dictionary iterates its keys in insertion order; the model returns that
 * order beside the map. The specification functions describe the first n rows, which
 * is what the loop has seen after n steps.
 */
module Grouping {
  import opened Tables

  /** One row of the enrollment query (student, course and supervising faculty joined). */
  datatype EnrollmentView = EnrollmentView(
    srn: string, studentName: string, courseId: string, courseName: string, facultyName: string,
    semester: Option<int>, branch: Option<string>, section: Option<string>)

  /** The per-student dictionary appended to a course's `students` list. */
  datatype StudentEntry = StudentEntry(
    srn: string, name: string, semester: Option<int>, branch: Option<string>, section: Option<string>)

  datatype CourseGroup = CourseGroup(courseName: string, facultyName: string, students: seq<StudentEntry>)

  function Entry(r: EnrollmentView): StudentEntry {
    StudentEntry(r.srn, r.studentName, r.semester, r.branch, r.section)
  }

  /** The course ids among the first n rows. */
  function CoursesIn(rows: seq<EnrollmentView>, n: nat): set<string>
    requires n <= |rows|
  {
    set k | 0 <= k < n :: rows[k].courseId
  }

  /** The distinct course ids of the first n rows, in the order they first appear. */
  function CourseOrder(rows: seq<EnrollmentView>, n: nat): (order: seq<string>)
    requires n <= |rows|
    ensures forall i, j :: 0 <= i < j < |order| ==> order[i] != order[j]
    ensures forall c :: c in order <==> c in CoursesIn(rows, n)
  {
    if n == 0 then []
    else
      var before := CourseOrder(rows, n - 1);
      assert CoursesIn(rows, n) == CoursesIn(rows, n - 1) + {rows[n - 1].courseId};
      if rows[n - 1].courseId in before then before else before + [rows[n - 1].courseId]
  }

  /** The students of the course among the first n rows, one per row, in row order. */
  function Members(rows: seq<EnrollmentView>, n: nat, courseId: string): (m: seq<StudentEntry>)
    requires n <= |rows|
    ensures |m| <= n
    ensures courseId !in CoursesIn(rows, n) ==> m == []
  {
    if n == 0 then []
    else
      assert CoursesIn(rows, n) == CoursesIn(rows, n - 1) + {rows[n - 1].courseId};
      Members(rows, n - 1, courseId) + if rows[n - 1].courseId == courseId then [Entry(rows[n - 1])] else []
  }

  /** The position of the course's first row among the first n rows. */
  function FirstIndex(rows: seq<EnrollmentView>, n: nat, courseId: string): (k: nat)
    requires n <= |rows| && courseId in CoursesIn(rows, n)
    ensures k < n && rows[k].courseId == courseId
    ensures forall j :: 0 <= j < k ==> rows[j].courseId != courseId
  {
    assert CoursesIn(rows, n) == CoursesIn(rows, n - 1) + {rows[n - 1].courseId};
    if courseId in CoursesIn(rows, n - 1) then FirstIndex(rows, n - 1, courseId) else n - 1
  }

  /** The keys come in first-seen order: a course listed earlier has its first row earlier. */
  lemma {:induction false} CourseOrderFirstSeen(rows: seq<EnrollmentView>, n: nat)
    requires n <= |rows|
    ensures forall i, j :: 0 <= i < j < |CourseOrder(rows, n)| ==>
      FirstIndex(rows, n, CourseOrder(rows, n)[i]) < FirstIndex(rows, n, CourseOrder(rows, n)[j])
  {
    if n > 0 {
      CourseOrderFirstSeen(rows, n - 1);
      var before := CourseOrder(rows, n - 1);
      var after := CourseOrder(rows, n);
      assert after == before || after == before + [rows[n - 1].courseId];
      forall i, j | 0 <= i < j < |after| ensures FirstIndex(rows, n, after[i]) < FirstIndex(rows, n, after[j]) {
        assert after[i] == before[i];
        FirstIndexKept(rows, n, before[i]);
        if j < |before| {
          assert after[j] == before[j];
          FirstIndexKept(rows, n, before[j]);
          assert FirstIndex(rows, n - 1, before[i]) < FirstIndex(rows, n - 1, before[j]);
        } else {
          assert after[j] == rows[n - 1].courseId && after[j] !in CoursesIn(rows, n - 1);
          assert FirstIndex(rows, n, after[j]) == n - 1;
        }
      }
    }
  }

  /** A course already seen among the first n - 1 rows keeps its first row when row n is added. */
  lemma FirstIndexKept(rows: seq<EnrollmentView>, n: nat, courseId: string)
    requires 0 < n <= |rows| && courseId in CoursesIn(rows, n - 1)
    ensures courseId in CoursesIn(rows, n)
    ensures FirstIndex(rows, n, courseId) == FirstIndex(rows, n - 1, courseId) < n - 1
  {
    assert CoursesIn(rows, n) == CoursesIn(rows, n - 1) + {rows[n - 1].courseId};
  }

  /** The group carries the course and faculty names of the course's first row among the first n. */
  ghost predicate NamedAfterFirstRow(rows: seq<EnrollmentView>, n: nat, courseId: string, g: CourseGroup)
    requires n <= |rows|
  {
    && courseId in CoursesIn(rows, n)
    && g.courseName == rows[FirstIndex(rows, n, courseId)].courseName
    && g.facultyName == rows[FirstIndex(rows, n, courseId)].facultyName
  }

  /** The dictionary and its key order are the grouping of the first n rows. */
  ghost predicate Grouped(rows: seq<EnrollmentView>, n: nat, order: seq<string>, groups: map<string, CourseGroup>)
    requires n <= |rows|
  {
    && order == CourseOrder(rows, n)
    && groups.Keys == CoursesIn(rows, n)
    && (forall c :: c in groups ==> groups[c].students == Members(rows, n, c))
    && (forall c :: c in groups ==> NamedAfterFirstRow(rows, n, c, groups[c]))
  }

  /** One iteration of the loop: row n goes to its course's group, opening it if new. */
  lemma GroupStep(rows: seq<EnrollmentView>, n: nat, order: seq<string>, groups: map<string, CourseGroup>)
    requires n < |rows| && Grouped(rows, n, order, groups)
    ensures var r := rows[n];
      var g := if r.courseId in groups then groups[r.courseId] else CourseGroup(r.courseName, r.facultyName, []);
      Grouped(rows, n + 1, if r.courseId in groups then order else order + [r.courseId],
        groups[r.courseId := g.(students := g.students + [Entry(r)])])
  {
    var r := rows[n];
    var g := if r.courseId in groups then groups[r.courseId] else CourseGroup(r.courseName, r.facultyName, []);
    var after := groups[r.courseId := g.(students := g.students + [Entry(r)])];
    assert CoursesIn(rows, n + 1) == CoursesIn(rows, n) + {r.courseId};
    forall c | c in after
      ensures after[c].students == Members(rows, n + 1, c)
      ensures NamedAfterFirstRow(rows, n + 1, c, after[c])
    {
      if c != r.courseId {
        assert after[c] == groups[c];
      }
    }
  }

  /** The `view_enrollments` loop, building the dictionary one row at a time. */
  method GroupByCourse(rows: seq<EnrollmentView>) returns (order: seq<string>, groups: map<string, CourseGroup>)
    ensures order == CourseOrder(rows, |rows|)
    ensures groups.Keys == CoursesIn(rows, |rows|)
    ensures forall c :: c in groups ==> groups[c].students == Members(rows, |rows|, c)
    ensures forall c :: c in groups ==>
      && groups[c].courseName == rows[FirstIndex(rows, |rows|, c)].courseName
      && groups[c].facultyName == rows[FirstIndex(rows, |rows|, c)].facultyName
    ensures forall i, j :: 0 <= i < j < |order| ==> FirstIndex(rows, |rows|, order[i]) < FirstIndex(rows, |rows|, order[j])
  {
    order, groups := [], map[];
    var i := 0;
    while i < |rows|
      invariant 0 <= i <= |rows|
      invariant Grouped(rows, i, order, groups)
    {
      GroupStep(rows, i, order, groups);
      var r := rows[i];
      var g;
      if r.courseId in groups {
        g := groups[r.courseId];
      } else {
        // A course seen for the first time opens a group named after this row.
        g := CourseGroup(r.courseName, r.facultyName, []);
        order := order + [r.courseId];
      }
      groups := groups[r.courseId := g.(students := g.students + [Entry(r)])];
      i := i + 1;
    }
    CourseOrderFirstSeen(rows, |rows|);
  }

  /** The sum of the list lengths of the given courses, over the first n rows. */
  function TotalMembers(rows: seq<EnrollmentView>, n: nat, keys: seq<string>): nat
    requires n <= |rows|
  {
    if keys == [] then 0
    else TotalMembers(rows, n, keys[..|keys| - 1]) + |Members(rows, n, keys[|keys| - 1])|
  }

  /** One more row adds one student to the total when its course is among the keys. */
  lemma {:induction false} TotalMembersStep(rows: seq<EnrollmentView>, n: nat, keys: seq<string>)
    requires n < |rows|
    requires forall i, j :: 0 <= i < j < |keys| ==> keys[i] != keys[j]
    ensures TotalMembers(rows, n + 1, keys) == TotalMembers(rows, n, keys) + if rows[n].courseId in keys then 1 else 0
  {
    if keys != [] {
      var front := keys[..|keys| - 1];
      var last := keys[|keys| - 1];
      assert keys == front + [last];
      TotalMembersStep(rows, n, front);
      assert rows[n].courseId in keys <==> rows[n].courseId in front || rows[n].courseId == last;
      assert last !in front;
    }
  }

  /** Every row lands in exactly one course's list: the list lengths add up to the row count. */
  lemma {:induction false} GroupingKeepsEveryRow(rows: seq<EnrollmentView>, n: nat)
    requires n <= |rows|
    ensures TotalMembers(rows, n, CourseOrder(rows, n)) == n
  {
    if n > 0 {
      GroupingKeepsEveryRow(rows, n - 1);
      var before := CourseOrder(rows, n - 1);
      TotalMembersStep(rows, n - 1, before);
      var c := rows[n - 1].courseId;
      if c in before {
        assert CourseOrder(rows, n) == before;
        assert TotalMembers(rows, n, before) == (n - 1) + 1;
      } else {
        var after := before + [c];
        assert CourseOrder(rows, n) == after;
        assert after[..|after| - 1] == before;
        assert TotalMembers(rows, n, after) == TotalMembers(rows, n, before) + |Members(rows, n, c)|;
        assert TotalMembers(rows, n, before) == n - 1;
        assert c !in CoursesIn(rows, n - 1);
        assert Members(rows, n, c) == [Entry(rows[n - 1])];
      }
    }
  }
}
