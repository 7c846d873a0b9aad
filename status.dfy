/**
 * The status a student sees for an assignment on the assignments page: the LEFT JOIN
 * of the assignment with the student's submissions, and the three-way classification
 * of each joined row.
 */
module Status {
  import opened Tables
  import opened Workflow

  /** The columns the join yields: `COALESCE(s.submission_id, 0) AS submitted, s.grade, s.feedback`. */
  datatype SubmissionColumns = SubmissionColumns(submitted: nat, grade: Option<int>, feedback: Option<string>)

  datatype SubmissionStatus = NotSubmitted | GradingInProgress | Graded(grade: int, feedback: Option<string>)

  /**
   * A joined row is "Not submitted" when `submitted` is falsy (zero), "Graded" when it
   * is set and the grade is not NULL, and "Grading in progress" otherwise.
   */
  function Classify(cols: SubmissionColumns): (s: SubmissionStatus)
    ensures s.NotSubmitted? <==> cols.submitted == 0
    ensures s.GradingInProgress? <==> cols.submitted != 0 && cols.grade.None?
    ensures s.Graded? <==> cols.submitted != 0 && cols.grade.Some?
    ensures s.Graded? ==> s.grade == cols.grade.value && s.feedback == cols.feedback
  {
    if cols.submitted != 0 then
      if cols.grade.Some? then Graded(cols.grade.value, cols.feedback) else GradingInProgress
    else NotSubmitted
  }

  /** The page offers the upload control and the submit button only for this status. */
  predicate OffersUpload(s: SubmissionStatus) {
    s.NotSubmitted?
  }

  /** The student has a submission row for the assignment. */
  predicate HasSubmission(subs: seq<SubmissionRow>, assignmentId: nat, studentId: string) {
    exists k :: 0 <= k < |subs| && subs[k].assignmentId == assignmentId && subs[k].studentId == studentId
  }

  /**
   * The joined rows for one (assignment, student) pair: one per matching submission,
   * or, when there is none, a single row of NULLs with `submitted` coalesced to 0.
   */
  ghost function JoinedRows(subs: seq<SubmissionRow>, assignmentId: nat, studentId: string): (r: set<SubmissionColumns>)
    ensures r != {}
    ensures forall c :: c in r && c.submitted != 0 ==> HasSubmission(subs, assignmentId, studentId)
  {
    if HasSubmission(subs, assignmentId, studentId) then
      var k :| 0 <= k < |subs| && subs[k].assignmentId == assignmentId && subs[k].studentId == studentId;
      var rows := set k | 0 <= k < |subs| && subs[k].assignmentId == assignmentId && subs[k].studentId == studentId ::
        SubmissionColumns(subs[k].submissionId, subs[k].grade, subs[k].feedback);
      assert SubmissionColumns(subs[k].submissionId, subs[k].grade, subs[k].feedback) in rows;
      rows
    else {SubmissionColumns(0, None, None)}
  }

  /** The statuses the page shows for the pair: one is always shown, and only "Not submitted" without a submission. */
  ghost function Statuses(subs: seq<SubmissionRow>, assignmentId: nat, studentId: string): (r: set<SubmissionStatus>)
    ensures r != {}
    ensures forall s :: s in r && !s.NotSubmitted? ==> HasSubmission(subs, assignmentId, studentId)
  {
    var rows := JoinedRows(subs, assignmentId, studentId);
    assert rows != {};
    var c :| c in rows;
    var statuses := set c | c in JoinedRows(subs, assignmentId, studentId) :: Classify(c);
    assert Classify(c) in statuses;
    statuses
  }

  /** Submission ids come from an auto-increment column, which starts at 1. */
  predicate IdsPositive(subs: seq<SubmissionRow>) {
    forall k :: 0 <= k < |subs| ==> subs[k].submissionId >= 1
  }

  /**
   * "Not submitted" (and so the upload control) is shown exactly when the student has
   * no submission for the assignment, and then it is the only status shown.
   */
  lemma NotSubmittedIffNoSubmission(subs: seq<SubmissionRow>, assignmentId: nat, studentId: string)
    requires IdsPositive(subs)
    ensures NotSubmitted in Statuses(subs, assignmentId, studentId) <==> !HasSubmission(subs, assignmentId, studentId)
    ensures !HasSubmission(subs, assignmentId, studentId) ==> Statuses(subs, assignmentId, studentId) == {NotSubmitted}
    ensures (exists s :: s in Statuses(subs, assignmentId, studentId) && OffersUpload(s)) <==>
      !HasSubmission(subs, assignmentId, studentId)
  {
    var rows := JoinedRows(subs, assignmentId, studentId);
    if HasSubmission(subs, assignmentId, studentId) {
      var k :| 0 <= k < |subs| && subs[k].assignmentId == assignmentId && subs[k].studentId == studentId;
      assert SubmissionColumns(subs[k].submissionId, subs[k].grade, subs[k].feedback) in rows;
      forall c | c in rows ensures c.submitted != 0 {
        var j :| 0 <= j < |subs| && subs[j].assignmentId == assignmentId && subs[j].studentId == studentId
          && c == SubmissionColumns(subs[j].submissionId, subs[j].grade, subs[j].feedback);
      }
    } else {
      assert rows == {SubmissionColumns(0, None, None)};
      assert Classify(SubmissionColumns(0, None, None)) == NotSubmitted;
    }
  }

  /**
   * A fresh submission row (grade and feedback NULL, as `submit_assignment` inserts it)
   * makes the pair show "Grading in progress" and no longer "Not submitted".
   */
  lemma SubmittingShowsInProgress(subs: seq<SubmissionRow>, row: SubmissionRow)
    requires IdsPositive(subs) && row.submissionId >= 1 && row.grade.None?
    ensures GradingInProgress in Statuses(subs + [row], row.assignmentId, row.studentId)
    ensures NotSubmitted !in Statuses(subs + [row], row.assignmentId, row.studentId)
  {
    var after := subs + [row];
    var k := |subs|;
    assert after[k] == row;
    assert HasSubmission(after, row.assignmentId, row.studentId);
    assert SubmissionColumns(row.submissionId, row.grade, row.feedback) in JoinedRows(after, row.assignmentId, row.studentId);
    NotSubmittedIffNoSubmission(after, row.assignmentId, row.studentId);
  }

  /**
   * Grading a submission of the pair makes the pair show "Graded" with exactly that
   * grade and feedback.
   */
  lemma GradingShowsGraded(subs: seq<SubmissionRow>, k: nat, grade: int, feedback: string)
    requires k < |subs| && subs[k].submissionId >= 1
    ensures Graded(grade, Some(feedback)) in
      Statuses(Regrade(subs, subs[k].submissionId, grade, feedback), subs[k].assignmentId, subs[k].studentId)
  {
    var after := Regrade(subs, subs[k].submissionId, grade, feedback);
    assert after[k].assignmentId == subs[k].assignmentId && after[k].studentId == subs[k].studentId;
    assert HasSubmission(after, subs[k].assignmentId, subs[k].studentId);
    var c := SubmissionColumns(after[k].submissionId, after[k].grade, after[k].feedback);
    assert c in JoinedRows(after, subs[k].assignmentId, subs[k].studentId);
    assert Classify(c) == Graded(grade, Some(feedback));
  }
}
