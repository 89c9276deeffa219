/**
  The Submission document (backend/models/submission.js): one student's
  application to, and later work on, one task, with the mentor's evaluation.
 */
module SubmissionModel {
  import opened Base

  /** The `status` enum: its three values. The handlers enforce no order between them. */
  datatype Status = Pending | Submitted | Reviewed

  /** The string stored in the document for each status. */
  function StatusName(s: Status): string {
    match s
    case Pending => "pending"
    case Submitted => "submitted"
    case Reviewed => "reviewed"
  }

  /** The enum validator: only the three listed strings are accepted. */
  function ParseStatus(name: string): (r: Option<Status>)
    ensures r.Some? <==> name in {"pending", "submitted", "reviewed"}
    ensures r.Some? ==> StatusName(r.value) == name
  {
    if name == "pending" then Some(Pending)
    else if name == "submitted" then Some(Submitted)
    else if name == "reviewed" then Some(Reviewed)
    else None
  }

  /** Every status survives being written out and validated again. */
  lemma StatusRoundTrip(s: Status)
    ensures ParseStatus(StatusName(s)) == Some(s)
  {
  }

  /** Per-criterion scores (a Map of Number keyed by rubric criterion). */
  type Scores = map<nat, int>

  datatype Submission = Submission(
    taskId: Id,
    studentId: Id,
    teamId: Option<Id>,
    githubUrl: string,
    demoUrl: string,
    driveLink: string,
    notes: string,
    status: Status,
    scores: Scores,
    feedback: string,
    totalScore: int,
    appliedAt: Timestamp,
    submittedAt: Option<Timestamp>,
    reviewedAt: Option<Timestamp>)

  /** The status counted as finished work on the student dashboard. */
  predicate IsCompleted(s: Submission) {
    s.status == Reviewed
  }

  /** The statuses counted as work still in progress on the student dashboard. */
  predicate IsActive(s: Submission) {
    s.status == Pending || s.status == Submitted
  }

  /** Because the enum has exactly three values, each submission is either completed or active, never both. */
  lemma CompletedOrActive(s: Submission)
    ensures IsCompleted(s) != IsActive(s)
  {
  }

  /**
    A new document with only the required references, the team, and the time
    it is created at given; every other field takes its schema default.
   */
  function New(taskId: Id, studentId: Id, teamId: Option<Id>, now: Timestamp): (s: Submission)
    ensures s.taskId == taskId && s.studentId == studentId && s.teamId == teamId
    ensures s.status == Pending
    ensures s.githubUrl == "" && s.demoUrl == "" && s.driveLink == "" && s.notes == ""
    ensures s.scores == map[] && s.feedback == "" && s.totalScore == 0
    ensures s.appliedAt == now && s.submittedAt.None? && s.reviewedAt.None?
  {
    Submission(taskId, studentId, teamId, "", "", "", "", Pending, map[], "", 0, now, None, None)
  }
}
