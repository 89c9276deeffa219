/**
  The statistics on the mentor's dashboard
  (client/src/components/MentorDashboard.jsx): counts and sums over the task
  list and the review queue the page fetches from the backend.
 */
module MentorDashboard {
  import opened Base
  import TaskModel
  import SubmissionModel

  /** The fields of a fetched task the page reads; `activeTeams` may be absent. */
  datatype TaskRow = TaskRow(status: string, activeTeams: Option<int>)

  /** The field of a fetched submission the page reads. */
  datatype SubmissionRow = SubmissionRow(status: string)

  datatype Stats = Stats(activeTasks: nat, totalTeams: int, pendingReviews: nat, completedReviews: nat)

  /** `s.filter(keep)`: the elements `keep` accepts, in their order. */
  function Filter<T>(s: seq<T>, keep: T -> bool): (r: seq<T>)
    ensures |r| <= |s|
    ensures forall i :: 0 <= i < |r| ==> keep(r[i]) && r[i] in s
    ensures forall i :: 0 <= i < |s| && keep(s[i]) ==> s[i] in r
    ensures |r| == |s| <==> forall i :: 0 <= i < |s| ==> keep(s[i])
  {
    if s == [] then []
    else
      var rest := Filter(s[1..], keep);
      if keep(s[0]) then
        assert forall i :: 1 <= i < |s| ==> s[i] == s[1..][i - 1];
        [s[0]] + rest
      else
        rest
  }

  /** Filtering distributes over concatenation, so the kept elements stay in their order. */
  lemma {:induction false} FilterConcat<T>(a: seq<T>, b: seq<T>, keep: T -> bool)
    ensures Filter(a + b, keep) == Filter(a, keep) + Filter(b, keep)
  {
    if a == [] {
      assert a + b == b;
    } else {
      assert (a + b)[1..] == a[1..] + b;
      FilterConcat(a[1..], b, keep);
    }
  }

  /** The filter keeps every copy of each accepted value and no copy of any other. */
  lemma {:induction false} FilterMultiset<T(!new)>(s: seq<T>, keep: T -> bool)
    ensures forall x :: multiset(Filter(s, keep))[x] == if keep(x) then multiset(s)[x] else 0
  {
    if s != [] {
      FilterMultiset(s[1..], keep);
      assert s == [s[0]] + s[1..];
    }
  }

  /** The positions of `s` whose element `keep` accepts. */
  function Positions<T>(s: seq<T>, keep: T -> bool): set<int> {
    set i | 0 <= i < |s| && keep(s[i])
  }

  /** The accepted positions of a list are those of its front, and the last one if it is accepted. */
  lemma PositionsSnoc<T>(s: seq<T>, keep: T -> bool)
    requires s != []
    ensures Positions(s, keep) == Positions(s[..|s| - 1], keep) + (if keep(s[|s| - 1]) then {|s| - 1} else {})
    ensures |s| - 1 !in Positions(s[..|s| - 1], keep)
  {
  }

  /** The filter keeps one element for each position whose element it accepts. */
  lemma {:induction false} FilterCount<T>(s: seq<T>, keep: T -> bool)
    ensures |Filter(s, keep)| == |Positions(s, keep)|
    decreases |s|
  {
    if s == [] {
      assert Positions(s, keep) == {};
    } else {
      var n := |s| - 1;
      var p := s[..n];
      assert s == p + [s[n]];
      FilterConcat(p, [s[n]], keep);
      FilterCount(p, keep);
      PositionsSnoc(s, keep);
      assert [s[n]][1..] == [];
    }
  }

  /** The filter keeps nothing when it accepts no element. */
  lemma {:induction false} FilterNone<T>(s: seq<T>, keep: T -> bool)
    requires forall i :: 0 <= i < |s| ==> !keep(s[i])
    ensures Filter(s, keep) == []
  {
    if s != [] {
      FilterNone(s[1..], keep);
    }
  }

  /** The filter keeps nothing exactly when it accepts no element. */
  lemma FilterEmpty<T>(s: seq<T>, keep: T -> bool)
    ensures Filter(s, keep) == [] <==> forall i :: 0 <= i < |s| ==> !keep(s[i])
  {
    if forall i :: 0 <= i < |s| ==> !keep(s[i]) {
      FilterNone(s, keep);
    }
  }

  /** Two filters that never accept the same element keep at most all the elements between them. */
  lemma {:induction false} DisjointFilters<T>(s: seq<T>, p: T -> bool, q: T -> bool)
    requires forall i :: 0 <= i < |s| ==> !(p(s[i]) && q(s[i]))
    ensures |Filter(s, p)| + |Filter(s, q)| <= |s|
  {
    if s != [] {
      DisjointFilters(s[1..], p, q);
    }
  }

  /** `t => t.status === status` */
  function TaskHasStatus(status: string): TaskRow -> bool {
    (t: TaskRow) => t.status == status
  }

  /** `s => s.status === status` */
  function SubmissionHasStatus(status: string): SubmissionRow -> bool {
    (s: SubmissionRow) => s.status == status
  }

  /** The tasks whose status is `status`: `tasks.filter(t => t.status === status)`. */
  function TasksWithStatus(tasks: seq<TaskRow>, status: string): seq<TaskRow> {
    Filter(tasks, TaskHasStatus(status))
  }

  /** The submissions whose status is `status`: `submissions.filter(s => s.status === status)`. */
  function SubmissionsWithStatus(subs: seq<SubmissionRow>, status: string): seq<SubmissionRow> {
    Filter(subs, SubmissionHasStatus(status))
  }

  /**
    `activeTasks`: the number of tasks with status "active"; it is 0 exactly
    when no task is active, and all the tasks exactly when all are.
   */
  function ActiveTasks(tasks: seq<TaskRow>): (n: nat)
    ensures n <= |tasks|
    ensures n == 0 <==> forall i :: 0 <= i < |tasks| ==> tasks[i].status != "active"
    ensures n == |tasks| <==> forall i :: 0 <= i < |tasks| ==> tasks[i].status == "active"
  {
    FilterEmpty(tasks, TaskHasStatus("active"));
    |TasksWithStatus(tasks, "active")|
  }

  /**
    `task.activeTeams || 0`: a missing count contributes nothing; any count
    present contributes itself.
   */
  function TeamsOf(task: TaskRow): (n: int)
    ensures task.activeTeams == None ==> n == 0
    ensures n != 0 ==> task.activeTeams == Some(n)
    ensures forall c :: task.activeTeams == Some(c) ==> n == c
  {
    task.activeTeams.GetOr(0)
  }

  /** `totalTeams`: the sum of every task's active teams, a missing count taken as 0. */
  function TotalTeams(tasks: seq<TaskRow>): (r: int)
    ensures (forall i :: 0 <= i < |tasks| ==> TeamsOf(tasks[i]) >= 0) ==> r >= 0
    ensures (forall i :: 0 <= i < |tasks| ==> TeamsOf(tasks[i]) == 0) ==> r == 0
  {
    if tasks == [] then 0 else TeamsOf(tasks[0]) + TotalTeams(tasks[1..])
  }

  /**
    `pendingReviews`: the number of submissions with status "submitted"; it
    is 0 exactly when none is submitted, and all of them exactly when all are.
   */
  function PendingReviews(subs: seq<SubmissionRow>): (n: nat)
    ensures n <= |subs|
    ensures n == 0 <==> forall i :: 0 <= i < |subs| ==> subs[i].status != "submitted"
    ensures n == |subs| <==> forall i :: 0 <= i < |subs| ==> subs[i].status == "submitted"
  {
    FilterEmpty(subs, SubmissionHasStatus("submitted"));
    |SubmissionsWithStatus(subs, "submitted")|
  }

  /**
    `completedReviews`: the number of submissions with status "reviewed"; it
    is 0 exactly when none is reviewed, and all of them exactly when all are.
   */
  function CompletedReviews(subs: seq<SubmissionRow>): (n: nat)
    ensures n <= |subs|
    ensures n == 0 <==> forall i :: 0 <= i < |subs| ==> subs[i].status != "reviewed"
    ensures n == |subs| <==> forall i :: 0 <= i < |subs| ==> subs[i].status == "reviewed"
  {
    FilterEmpty(subs, SubmissionHasStatus("reviewed"));
    |SubmissionsWithStatus(subs, "reviewed")|
  }

  /** `activeTasks` is the number of positions holding an active task. */
  lemma ActiveTasksCount(tasks: seq<TaskRow>)
    ensures ActiveTasks(tasks) == |set i | 0 <= i < |tasks| && tasks[i].status == "active"|
  {
    var active := TaskHasStatus("active");
    FilterCount(tasks, active);
    assert Positions(tasks, active) == set i | 0 <= i < |tasks| && tasks[i].status == "active";
  }

  /** A review count is the number of positions holding a submission in that status. */
  lemma ReviewCount(subs: seq<SubmissionRow>, status: string)
    ensures |SubmissionsWithStatus(subs, status)| == |set i | 0 <= i < |subs| && subs[i].status == status|
  {
    var keep := SubmissionHasStatus(status);
    FilterCount(subs, keep);
    assert Positions(subs, keep) == set i | 0 <= i < |subs| && subs[i].status == status;
  }

  /**
    The four figures the dashboard shows, from the two fetched lists: the
    number of active tasks, the team total, and the numbers of submitted and
    of reviewed submissions.
   */
  function DashboardStats(tasks: seq<TaskRow>, subs: seq<SubmissionRow>): (r: Stats)
    ensures r.activeTasks == |set i | 0 <= i < |tasks| && tasks[i].status == "active"|
    ensures r.totalTeams == TotalTeams(tasks)
    ensures r.pendingReviews == |set i | 0 <= i < |subs| && subs[i].status == "submitted"|
    ensures r.completedReviews == |set i | 0 <= i < |subs| && subs[i].status == "reviewed"|
    ensures r.pendingReviews + r.completedReviews <= |subs|
  {
    ActiveTasksCount(tasks);
    ReviewCount(subs, "submitted");
    ReviewCount(subs, "reviewed");
    ReviewsBounded(subs);
    Stats(ActiveTasks(tasks), TotalTeams(tasks), PendingReviews(subs), CompletedReviews(subs))
  }

  /** A submission is never counted as both pending and completed. */
  lemma ReviewsBounded(subs: seq<SubmissionRow>)
    ensures PendingReviews(subs) + CompletedReviews(subs) <= |subs|
  {
    DisjointFilters(subs, SubmissionHasStatus("submitted"), SubmissionHasStatus("reviewed"));
  }

  /** What the page receives for a stored task. */
  function TaskRowOf(t: TaskModel.Task): TaskRow {
    TaskRow(TaskModel.StatusName(t.status), Some(t.activeTeams))
  }

  /** What the page receives for a stored submission. */
  function SubmissionRowOf(s: SubmissionModel.Submission): SubmissionRow {
    SubmissionRow(SubmissionModel.StatusName(s.status))
  }

  function TaskRows(tasks: seq<TaskModel.Task>): (r: seq<TaskRow>)
    ensures |r| == |tasks|
    ensures forall i :: 0 <= i < |tasks| ==> r[i] == TaskRowOf(tasks[i])
  {
    if tasks == [] then [] else [TaskRowOf(tasks[0])] + TaskRows(tasks[1..])
  }

  /**
    No backend route ever raises a task's `activeTeams` from its default 0, so
    on the tasks the mentor fetches the team total is always zero.
   */
  lemma {:induction false} FetchedTasksHaveNoTeams(stored: map<Id, TaskModel.Task>, fetched: seq<TaskModel.Task>)
    requires forall k :: k in stored ==> stored[k].activeTeams == 0
    requires forall i :: 0 <= i < |fetched| ==> fetched[i] in stored.Values
    ensures TotalTeams(TaskRows(fetched)) == 0
  {
    var rows := TaskRows(fetched);
    forall i | 0 <= i < |rows| ensures TeamsOf(rows[i]) == 0 {
      var k :| k in stored && stored[k] == fetched[i];
    }
  }

  function SubmissionRows(subs: seq<SubmissionModel.Submission>): (r: seq<SubmissionRow>)
    ensures |r| == |subs|
    ensures forall i :: 0 <= i < |subs| ==> r[i] == SubmissionRowOf(subs[i])
  {
    if subs == [] then [] else [SubmissionRowOf(subs[0])] + SubmissionRows(subs[1..])
  }

  /**
    The review queue holds only submitted submissions, so every fetched row
    counts as pending and none as completed: on the backend's data the
    completed-reviews figure is always zero.
   */
  lemma QueueHasNoCompletedReviews(queue: map<Id, SubmissionModel.Submission>,
                                   fetched: seq<SubmissionModel.Submission>)
    requires forall k :: k in queue ==> queue[k].status == SubmissionModel.Submitted
    requires forall i :: 0 <= i < |fetched| ==> fetched[i] in queue.Values
    ensures CompletedReviews(SubmissionRows(fetched)) == 0
    ensures PendingReviews(SubmissionRows(fetched)) == |fetched|
  {
    var rows := SubmissionRows(fetched);
    forall i | 0 <= i < |rows| ensures rows[i].status == "submitted" {
      var k :| k in queue && queue[k] == fetched[i];
    }
  }
}
