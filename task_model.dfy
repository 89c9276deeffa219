/**
  The Task document (backend/models/task.js): a project a mentor posts.
 */
module TaskModel {
  import opened Base

  /** The `status` enum. */
  datatype Status = Active | Closed | Draft

  /** The string stored in the document for each status. */
  function StatusName(s: Status): string {
    match s
    case Active => "active"
    case Closed => "closed"
    case Draft => "draft"
  }

  /** The enum validator: only the three listed strings are accepted. */
  function ParseStatus(name: string): (r: Option<Status>)
    ensures r.Some? <==> name in {"active", "closed", "draft"}
    ensures r.Some? ==> StatusName(r.value) == name
  {
    if name == "active" then Some(Active)
    else if name == "closed" then Some(Closed)
    else if name == "draft" then Some(Draft)
    else None
  }

  /** The default `totalPoints` of a task. */
  const DefaultTotalPoints: int := 100

  datatype Task = Task(
    title: string,
    description: string,
    deadline: Timestamp,
    totalPoints: int,
    tags: seq<string>,
    mentorId: Id,
    status: Status,
    applicants: int,
    activeTeams: int,
    createdAt: Timestamp)

  /**
    Creating a Task document: the `required` validators reject an empty or
    missing title or description and a missing deadline. A missing status
    (None) takes the default active, missing tags the empty list, and
    `totalPoints` its default. Fields the schema does not declare are not
    stored, and the counters start at zero.
   */
  function Create(title: string, description: string, deadline: Option<Timestamp>,
                  tags: Option<seq<string>>, mentorId: Id, status: Option<Status>,
                  now: Timestamp): (r: Option<Task>)
    ensures r.Some? <==> title != "" && description != "" && deadline.Some?
    ensures r.Some? ==> r.value.title == title && r.value.description == description
                        && r.value.deadline == deadline.value && r.value.mentorId == mentorId
    ensures r.Some? ==> r.value.status == status.GetOr(Active)
    ensures r.Some? ==> r.value.tags == tags.GetOr([])
    ensures r.Some? ==> r.value.totalPoints == 100
    ensures r.Some? ==> r.value.applicants == 0 && r.value.activeTeams == 0
    ensures r.Some? ==> r.value.createdAt == now
  {
    if title == "" || description == "" || deadline.None? then None
    else Some(Task(title, description, deadline.value, DefaultTotalPoints, tags.GetOr([]),
                   mentorId, status.GetOr(Active), 0, 0, now))
  }
}
