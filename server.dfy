/**
  The route handlers of backend/server.js over the four collections the
  backend keeps (users, tasks, teams, submissions). Each handler is a method
  of `Store` that checks what the handler checks, changes the collections the
  way the handler does and answers with a payload or an HTTP error. The caller
  of each route is the (id, role) pair that the login cookie identifies.
 */
module Server {
  import opened Base
  import UserModel
  import TaskModel
  import TeamModel
  import SubmissionModel

  type User = UserModel.User
  type Task = TaskModel.Task
  type Team = TeamModel.Team
  type Submission = SubmissionModel.Submission

  /** The identity a request carries: the user's id and role. */
  datatype Principal = Principal(id: Id, role: UserModel.Role)

  /** The two success answers of /team/:id/leave. */
  datatype LeaveOutcome = LeftTeam | TeamDeleted

  /** The `stats` object of /student/dashboard. */
  datatype StudentStats = StudentStats(tasksCompleted: nat, tasksActive: nat, badgesEarned: nat)

  // ---------------------------------------------------------------------------
  // Queries over the collections (the `find` filters the handlers use)

  /** `userModel.findOne({ email })`: the users with that email. */
  function UsersWithEmail(users: map<Id, User>, email: string): set<Id> {
    set u | u in users && users[u].email == email
  }

  /** `teamModel.findOne({ code })`: the teams with that code. */
  function TeamsWithCode(teams: map<Id, Team>, code: string): set<Id> {
    set t | t in teams && teams[t].code == code
  }

  /** `submissionModel.findOne({ taskId, studentId })`: the submissions of that pair. */
  function SubmissionsOf(subs: map<Id, Submission>, taskId: Id, studentId: Id): set<Id> {
    set s | s in subs && subs[s].taskId == taskId && subs[s].studentId == studentId
  }

  /** The submissions made to one task, that is, its successful applications. */
  function ApplicationsFor(subs: map<Id, Submission>, taskId: Id): set<Id> {
    set s | s in subs && subs[s].taskId == taskId
  }

  // ---------------------------------------------------------------------------
  // Team codes: Math.random().toString(36).substring(2, 8).toUpperCase()

  predicate IsBase36Digit(c: char) {
    '0' <= c <= '9' || 'a' <= c <= 'z'
  }

  /**
    What `Math.random().toString(36)` can produce for a number in [0, 1):
    "0", or "0." followed by at least one lower-case base-36 digit.
   */
  predicate IsRandomRendering(s: string) {
    s == "0" || (|s| >= 3 && s[0] == '0' && s[1] == '.' && forall i :: 2 <= i < |s| ==> IsBase36Digit(s[i]))
  }

  /** `s.substring(start, end)`: both bounds clamped to [0, |s|], then swapped if out of order. */
  function Substring(s: string, start: int, end: int): (r: string)
    ensures var lo := if start < 0 then 0 else if start > |s| then |s| else start;
            var hi := if end < 0 then 0 else if end > |s| then |s| else end;
            |r| == if lo <= hi then hi - lo else lo - hi
    ensures var lo := if start < 0 then 0 else if start > |s| then |s| else start;
            var hi := if end < 0 then 0 else if end > |s| then |s| else end;
            var first := if lo <= hi then lo else hi;
            forall k :: 0 <= k < |r| ==> r[k] == s[first + k]
  {
    var lo := if start < 0 then 0 else if start > |s| then |s| else start;
    var hi := if end < 0 then 0 else if end > |s| then |s| else end;
    if lo <= hi then s[lo..hi] else s[hi..lo]
  }

  predicate IsCodeChar(c: char) {
    '0' <= c <= '9' || 'A' <= c <= 'Z'
  }

  /** A stored team code: one to six characters from [0-9A-Z]. */
  predicate IsTeamCode(code: string) {
    1 <= |code| <= 6 && forall i :: 0 <= i < |code| ==> IsCodeChar(code[i])
  }

  /**
    The code /team/create draws: at most six characters, all from [0-9A-Z];
    the first six base-36 digits of the random number, or all of them when
    there are fewer, and the empty string only when the number is 0.
   */
  function GenerateCode(rendering: string): (code: string)
    requires IsRandomRendering(rendering)
    ensures |code| <= 6
    ensures forall i :: 0 <= i < |code| ==> IsCodeChar(code[i])
    ensures code == "" <==> rendering == "0"
    ensures rendering != "0" ==> |code| == if |rendering| - 2 < 6 then |rendering| - 2 else 6
    ensures forall i :: 0 <= i < |code| ==> code[i] == UpperChar(rendering[i + 2])
  {
    ToUpper(Substring(rendering, 2, 8))
  }

  // ---------------------------------------------------------------------------
  // Leaving a team

  /**
    The team after `user` leaves it: every occurrence of `user` is filtered out
    of the members; when the leader leaves, the first remaining member becomes
    leader, or, when no member remains, the team is deleted (None).
   */
  function AfterLeave(t: Team, user: Id): (r: Option<Team>)
    ensures r.None? <==> t.leaderId == user && Without(t.members, user) == []
    ensures r.Some? ==> r.value.members == Without(t.members, user) && user !in r.value.members
    ensures r.Some? ==> r.value.name == t.name && r.value.code == t.code && r.value.createdAt == t.createdAt
    ensures r.Some? && t.leaderId == user ==> r.value.leaderId == r.value.members[0]
    ensures t.leaderId != user ==> r.Some? && r.value.leaderId == t.leaderId
    ensures TeamModel.WellFormed(t) && r.Some? ==> TeamModel.WellFormed(r.value)
  {
    var remaining := Without(t.members, user);
    if t.leaderId == user then
      if |remaining| > 0 then Some(t.(members := remaining, leaderId := remaining[0])) else None
    else Some(t.(members := remaining))
  }

  /** Leader succession on a team of three: the second member to join takes over. */
  lemma SuccessionExample(t: Team, a: Id, b: Id, c: Id)
    requires t.members == [a, b, c] && t.leaderId == a && a != b && a != c
    ensures AfterLeave(t, a) == Some(t.(members := [b, c], leaderId := b))
  {
    assert Without([a, b, c], a) == [b, c] by {
      assert [a, b, c][1..] == [b, c];
      assert [b, c][1..] == [c];
    }
  }

  /** A team whose leader is its only member is deleted when the leader leaves. */
  lemma LastMemberDeletes(t: Team, a: Id)
    requires t.members == [a] && t.leaderId == a
    ensures AfterLeave(t, a).None?
  {
    assert Without([a], a) == Without([a][1..], a);
  }

  // ---------------------------------------------------------------------------
  // The invariants the handlers keep

  ghost predicate IdsBelow(users: map<Id, User>, tasks: map<Id, Task>, teams: map<Id, Team>,
                           subs: map<Id, Submission>, next: Id) {
    && (forall u :: u in users ==> u < next)
    && (forall t :: t in tasks ==> t < next)
    && (forall t :: t in teams ==> t < next)
    && (forall s :: s in subs ==> s < next)
  }

  /** Every email is present and belongs to one user only. */
  ghost predicate UsersValid(users: map<Id, User>) {
    && (forall u :: u in users ==> users[u].email != "")
    && (forall u, v :: u in users && v in users && users[u].email == users[v].email ==> u == v)
  }

  /** Every team has its leader among its members and a code of its own. */
  ghost predicate TeamsValid(teams: map<Id, Team>) {
    && (forall t :: t in teams ==> TeamModel.WellFormed(teams[t]) && IsTeamCode(teams[t].code))
    && (forall t, t' :: t in teams && t' in teams && teams[t].code == teams[t'].code ==> t == t')
  }

  /** Every submission names an existing task and no two share a (task, student) pair. */
  ghost predicate SubmissionsValid(tasks: map<Id, Task>, subs: map<Id, Submission>) {
    && (forall s :: s in subs ==> subs[s].taskId in tasks)
    && (forall s, s' :: (s in subs && s' in subs && subs[s].taskId == subs[s'].taskId
                         && subs[s].studentId == subs[s'].studentId) ==> s == s')
  }

  /** No route raises a task's `activeTeams` from its default. */
  ghost predicate NoActiveTeams(tasks: map<Id, Task>) {
    forall t :: t in tasks ==> tasks[t].activeTeams == 0
  }

  /** Every task's applicant counter equals the number of submissions made to it. */
  ghost predicate ApplicantsCounted(tasks: map<Id, Task>, subs: map<Id, Submission>) {
    forall t :: t in tasks ==> tasks[t].applicants == |ApplicationsFor(subs, t)|
  }

  /** Inserting a fresh submission adds it to the applications of its own task only. */
  lemma ApplicationsAfterInsert(subs: map<Id, Submission>, id: Id, sub: Submission, t: Id)
    requires id !in subs
    ensures t == sub.taskId ==> ApplicationsFor(subs[id := sub], t) == ApplicationsFor(subs, t) + {id}
    ensures t != sub.taskId ==> ApplicationsFor(subs[id := sub], t) == ApplicationsFor(subs, t)
    ensures id !in ApplicationsFor(subs, t)
  {
  }

  /** A successful application adds one submission and one applicant to its task, and nothing else. */
  lemma ApplyKeepsCount(tasks: map<Id, Task>, subs: map<Id, Submission>, id: Id, sub: Submission)
    requires ApplicantsCounted(tasks, subs) && id !in subs && sub.taskId in tasks
    ensures ApplicantsCounted(
              tasks[sub.taskId := tasks[sub.taskId].(applicants := tasks[sub.taskId].applicants + 1)],
              subs[id := sub])
  {
    var tasks' := tasks[sub.taskId := tasks[sub.taskId].(applicants := tasks[sub.taskId].applicants + 1)];
    var subs' := subs[id := sub];
    forall t | t in tasks' ensures tasks'[t].applicants == |ApplicationsFor(subs', t)| {
      ApplicationsAfterInsert(subs, id, sub, t);
    }
  }

  /** Rewriting a submission without moving it to another task keeps every counter right. */
  lemma UpdateKeepsCount(tasks: map<Id, Task>, subs: map<Id, Submission>, id: Id, sub: Submission)
    requires ApplicantsCounted(tasks, subs) && id in subs && subs[id].taskId == sub.taskId
    ensures ApplicantsCounted(tasks, subs[id := sub])
  {
    var subs' := subs[id := sub];
    forall t | t in tasks ensures tasks[t].applicants == |ApplicationsFor(subs', t)| {
      assert ApplicationsFor(subs', t) == ApplicationsFor(subs, t);
    }
  }

  /** A new task with no applicants, that no submission refers to yet, is counted right. */
  lemma NewTaskKeepsCount(tasks: map<Id, Task>, subs: map<Id, Submission>, id: Id, task: Task)
    requires ApplicantsCounted(tasks, subs) && task.applicants == 0
    requires forall s :: s in subs ==> subs[s].taskId != id
    ensures ApplicantsCounted(tasks[id := task], subs)
  {
    assert ApplicationsFor(subs, id) == {};
  }

  /** The student's dashboard counts split the student's submissions in two. */
  lemma {:induction false} PartitionCount(all: set<Id>, a: set<Id>, b: set<Id>)
    requires a + b == all && a !! b
    ensures |a| + |b| == |all|
  {
    if a != {} {
      var x :| x in a;
      PartitionCount(all - {x}, a - {x}, b);
    }
  }

  // ---------------------------------------------------------------------------
  // The store

  class Store {
    var users: map<Id, User>
    var tasks: map<Id, Task>
    var teams: map<Id, Team>
    var submissions: map<Id, Submission>
    /** The next fresh document id. */
    var nextId: Id

    ghost predicate Valid()
      reads this
    {
      && IdsBelow(users, tasks, teams, submissions, nextId)
      && UsersValid(users)
      && TeamsValid(teams)
      && SubmissionsValid(tasks, submissions)
      && ApplicantsCounted(tasks, submissions)
      && NoActiveTeams(tasks)
    }

    /** An empty database. */
    constructor ()
      ensures Valid()
      ensures users == map[] && tasks == map[] && teams == map[] && submissions == map[]
    {
      users, tasks, teams, submissions := map[], map[], map[], map[];
      nextId := 0;
    }

    // ----- /signup and /login

    /**
      POST /signup. An email already in use is refused with 400 and nothing
      is created; otherwise the user is created with role `roleInput`, or
      "student" when none is given (an empty string), unless the schema
      rejects the document (500).
     */
    method Signup(name: string, email: string, password: string, roleInput: string,
                  githubUsername: string, now: Timestamp) returns (r: Result<Principal>)
      requires Valid()
      modifies this
      ensures Valid()
      ensures tasks == old(tasks) && teams == old(teams) && submissions == old(submissions)
      ensures UsersWithEmail(old(users), email) != {} ==>
                r == Failure(Error(400, "User already exists")) && users == old(users) && nextId == old(nextId)
      ensures UsersWithEmail(old(users), email) == {} ==>
                var created := UserModel.Create(name, email, password,
                                 Some(if roleInput == "" then "student" else roleInput), githubUsername, now);
                if created.None? then
                  r == Failure(Error(500, "Signup failed")) && users == old(users) && nextId == old(nextId)
                else
                  && r == Success(Principal(old(nextId), created.value.role))
                  && users == old(users)[old(nextId) := created.value]
                  && nextId == old(nextId) + 1
    {
      if UsersWithEmail(users, email) != {} {
        return Failure(Error(400, "User already exists"));
      }
      var created := UserModel.Create(name, email, password,
                       Some(if roleInput == "" then "student" else roleInput), githubUsername, now);
      if created.None? {
        return Failure(Error(500, "Signup failed"));
      }
      forall u | u in users ensures users[u].email != email {
        assert u !in UsersWithEmail(users, email);
      }
      var id := nextId;
      users := users[id := created.value];
      nextId := nextId + 1;
      r := Success(Principal(id, created.value.role));
    }

    /**
      POST /login: the user with that email must exist, have that password,
      and have the role the form selected; each failure is a 400 of its own.
     */
    method Login(email: string, password: string, role: string) returns (r: Result<Principal>)
      requires Valid()
      ensures UsersWithEmail(users, email) == {} ==> r == Failure(Error(400, "User not found"))
      ensures forall u :: u in users && users[u].email == email ==>
                r == if users[u].password != password then Failure(Error(400, "Incorrect password"))
                     else if UserModel.RoleName(users[u].role) != role then Failure(Error(400, "Invalid role selected"))
                     else Success(Principal(u, users[u].role))
    {
      var found := UsersWithEmail(users, email);
      if found == {} {
        assert forall u :: u in users && users[u].email == email ==> u in found;
        return Failure(Error(400, "User not found"));
      }
      var u :| u in found;
      var user := users[u];
      if user.password != password {
        return Failure(Error(400, "Incorrect password"));
      }
      if UserModel.RoleName(user.role) != role {
        return Failure(Error(400, "Invalid role selected"));
      }
      r := Success(Principal(u, user.role));
    }

    // ----- /student/dashboard

    /**
      GET /student/dashboard: how many of the caller's submissions are
      reviewed and how many are pending or submitted; together they are all
      of the caller's submissions.
     */
    function StudentDashboard(caller: Principal): (r: StudentStats)
      reads this
      ensures r.tasksCompleted == |set s | s in submissions && submissions[s].studentId == caller.id
                                             && submissions[s].status == SubmissionModel.Reviewed|
      ensures r.tasksCompleted + r.tasksActive
              == |set s | s in submissions && submissions[s].studentId == caller.id|
      ensures r.badgesEarned == 3
    {
      var mine := set s | s in submissions && submissions[s].studentId == caller.id;
      var completed := set s | s in mine && SubmissionModel.IsCompleted(submissions[s]);
      var active := set s | s in mine && SubmissionModel.IsActive(submissions[s]);
      PartitionCount(mine, completed, active);
      assert mine == set s | s in submissions && submissions[s].studentId == caller.id;
      assert completed == set s | s in submissions && submissions[s].studentId == caller.id
                                  && submissions[s].status == SubmissionModel.Reviewed;
      StudentStats(|completed|, |active|, 3)
    }

    // ----- /tasks

    /** GET /tasks: the tasks whose status is active. */
    function BrowseTasks(): (r: map<Id, Task>)
      reads this
      ensures forall t :: t in r <==> t in tasks && tasks[t].status == TaskModel.Active
      ensures forall t :: t in r ==> r[t] == tasks[t]
    {
      map t | t in tasks && tasks[t].status == TaskModel.Active :: tasks[t]
    }

    /**
      POST /tasks/:id/apply. An absent task is 404 and an existing submission
      for (task, caller) is 400; otherwise one pending submission is added
      and that task's applicant counter, and only it, goes up by one.
     */
    method Apply(caller: Principal, taskId: Id, teamId: Option<Id>, now: Timestamp) returns (r: Result<Id>)
      requires Valid()
      modifies this
      ensures Valid()
      ensures users == old(users) && teams == old(teams)
      ensures taskId !in old(tasks) ==> r == Failure(Error(404, "Task not found"))
      ensures taskId in old(tasks) && SubmissionsOf(old(submissions), taskId, caller.id) != {} ==>
                r == Failure(Error(400, "Already applied to this task"))
      ensures r.Failure? ==> tasks == old(tasks) && submissions == old(submissions) && nextId == old(nextId)
      ensures taskId in old(tasks) && SubmissionsOf(old(submissions), taskId, caller.id) == {} ==>
                && r == Success(old(nextId))
                && submissions == old(submissions)[old(nextId) := SubmissionModel.New(taskId, caller.id, teamId, now)]
                && tasks == old(tasks)[taskId := old(tasks)[taskId].(applicants := old(tasks)[taskId].applicants + 1)]
                && nextId == old(nextId) + 1
    {
      if taskId !in tasks {
        return Failure(Error(404, "Task not found"));
      }
      if SubmissionsOf(submissions, taskId, caller.id) != {} {
        return Failure(Error(400, "Already applied to this task"));
      }
      forall s | s in submissions && submissions[s].taskId == taskId ensures submissions[s].studentId != caller.id {
        assert s !in SubmissionsOf(submissions, taskId, caller.id);
      }
      var id := nextId;
      var sub := SubmissionModel.New(taskId, caller.id, teamId, now);
      ApplyKeepsCount(tasks, submissions, id, sub);
      submissions := submissions[id := sub];
      nextId := nextId + 1;
      tasks := tasks[taskId := tasks[taskId].(applicants := tasks[taskId].applicants + 1)];
      r := Success(id);
    }

    /**
      POST /tasks/:id/submit. The submission of (task, caller) gets the links
      and notes, status submitted and the submission time, whatever its status
      was, even reviewed; without one the answer is 404 and nothing changes.
     */
    method Submit(caller: Principal, taskId: Id, githubUrl: string, demoUrl: string, notes: string,
                  now: Timestamp) returns (r: Result<Id>)
      requires Valid()
      modifies this
      ensures Valid()
      ensures users == old(users) && tasks == old(tasks) && teams == old(teams) && nextId == old(nextId)
      ensures SubmissionsOf(old(submissions), taskId, caller.id) == {} ==>
                r == Failure(Error(404, "Submission not found")) && submissions == old(submissions)
      ensures SubmissionsOf(old(submissions), taskId, caller.id) != {} ==>
                && r.Success?
                && SubmissionsOf(old(submissions), taskId, caller.id) == {r.value}
                && submissions == old(submissions)[r.value := old(submissions)[r.value].(
                     githubUrl := githubUrl, demoUrl := demoUrl, notes := notes,
                     status := SubmissionModel.Submitted, submittedAt := Some(now))]
    {
      var found := SubmissionsOf(submissions, taskId, caller.id);
      if found == {} {
        return Failure(Error(404, "Submission not found"));
      }
      var id :| id in found;
      assert found == {id};
      var sub := submissions[id].(githubUrl := githubUrl, demoUrl := demoUrl, notes := notes,
                                  status := SubmissionModel.Submitted, submittedAt := Some(now));
      UpdateKeepsCount(tasks, submissions, id, sub);
      submissions := submissions[id := sub];
      r := Success(id);
    }

    // ----- /team

    /**
      POST /team/create, with `rendering` the value of Math.random().toString(36).
      The new team has the caller as its only member and as its leader. A
      code another team already has is refused by the unique index, and an
      empty name or code by the schema, both as 500; there is no retry.
     */
    method CreateTeam(caller: Principal, name: string, rendering: string, now: Timestamp)
      returns (r: Result<Id>)
      requires Valid() && IsRandomRendering(rendering)
      modifies this
      ensures Valid()
      ensures users == old(users) && tasks == old(tasks) && submissions == old(submissions)
      ensures name == "" || GenerateCode(rendering) == "" || TeamsWithCode(old(teams), GenerateCode(rendering)) != {} ==>
                r == Failure(Error(500, "Failed to create team")) && teams == old(teams) && nextId == old(nextId)
      ensures r.Success? ==>
                && r.value == old(nextId) && nextId == old(nextId) + 1
                && teams == old(teams)[r.value := TeamModel.Team(name, GenerateCode(rendering), caller.id, [caller.id], now)]
      ensures r.Success? <==> name != "" && rendering != "0" && TeamsWithCode(old(teams), GenerateCode(rendering)) == {}
    {
      var code := GenerateCode(rendering);
      var created := TeamModel.Create(name, code, caller.id, [caller.id], now);
      if created.None? {
        return Failure(Error(500, "Failed to create team"));
      }
      var team := created.value;
      assert team.code == code;
      if TeamsWithCode(teams, team.code) != {} {
        return Failure(Error(500, "Failed to create team"));
      }
      forall t | t in teams ensures teams[t].code != team.code {
        assert t !in TeamsWithCode(teams, team.code);
      }
      var id := nextId;
      teams := teams[id := team];
      nextId := nextId + 1;
      r := Success(id);
    }

    /**
      POST /team/join. The code in the query goes through the schema's
      `uppercase` setter, so it is looked up upper-cased. No team with that
      code is 404 and a caller already
      among the members is 400; otherwise the caller is appended to the
      members, and the leader and the earlier members stay as they were.
     */
    method JoinTeam(caller: Principal, code: string) returns (r: Result<Id>)
      requires Valid()
      modifies this
      ensures Valid()
      ensures users == old(users) && tasks == old(tasks) && submissions == old(submissions) && nextId == old(nextId)
      ensures TeamsWithCode(old(teams), ToUpper(code)) == {} ==> r == Failure(Error(404, "Invalid team code"))
      ensures forall t :: t in TeamsWithCode(old(teams), ToUpper(code)) ==>
                r == if caller.id in old(teams)[t].members then Failure(Error(400, "Already a member")) else Success(t)
      ensures r.Failure? ==> teams == old(teams)
      ensures r.Success? ==>
                && r.value in old(teams)
                && teams == old(teams)[r.value := old(teams)[r.value].(members := old(teams)[r.value].members + [caller.id])]
    {
      var found := TeamsWithCode(teams, ToUpper(code));
      if found == {} {
        return Failure(Error(404, "Invalid team code"));
      }
      var id :| id in found;
      assert found == {id};
      var team := teams[id];
      if caller.id in team.members {
        return Failure(Error(400, "Already a member"));
      }
      team := team.(members := team.members + [caller.id]);
      teams := teams[id := team];
      r := Success(id);
    }

    /**
      POST /team/:id/leave. An absent team is 404. Otherwise the caller is
      filtered out of the members; a departing leader is succeeded by the
      first remaining member, or the team is deleted when none remains.
     */
    method LeaveTeam(caller: Principal, teamId: Id) returns (r: Result<LeaveOutcome>)
      requires Valid()
      modifies this
      ensures Valid()
      ensures users == old(users) && tasks == old(tasks) && submissions == old(submissions) && nextId == old(nextId)
      ensures teamId !in old(teams) ==> r == Failure(Error(404, "Team not found")) && teams == old(teams)
      ensures teamId in old(teams) ==>
                var after := AfterLeave(old(teams)[teamId], caller.id);
                if after.None? then r == Success(TeamDeleted) && teams == old(teams) - {teamId}
                else r == Success(LeftTeam) && teams == old(teams)[teamId := after.value]
    {
      if teamId !in teams {
        return Failure(Error(404, "Team not found"));
      }
      var team := teams[teamId];
      team := team.(members := Without(team.members, caller.id));
      if team.leaderId == caller.id {
        if |team.members| > 0 {
          team := team.(leaderId := team.members[0]);
        } else {
          teams := teams - {teamId};
          return Success(TeamDeleted);
        }
      }
      teams := teams[teamId := team];
      r := Success(LeftTeam);
    }

    // ----- /mentor

    /**
      POST /mentor/task/create. A caller who is not a mentor is refused with
      403; the created task belongs to the caller and is active, with no
      applicants; the schema's required fields missing is a 500.
     */
    method CreateTask(caller: Principal, title: string, description: string, deadline: Option<Timestamp>,
                      tags: Option<seq<string>>, now: Timestamp) returns (r: Result<Id>)
      requires Valid()
      modifies this
      ensures Valid()
      ensures users == old(users) && teams == old(teams) && submissions == old(submissions)
      ensures caller.role != UserModel.Mentor ==> r == Failure(Error(403, "Only mentors can create tasks"))
      ensures caller.role == UserModel.Mentor && (title == "" || description == "" || deadline.None?) ==>
                r == Failure(Error(500, "Failed to create task"))
      ensures r.Success? <==> caller.role == UserModel.Mentor && title != "" && description != "" && deadline.Some?
      ensures r.Failure? ==> tasks == old(tasks) && nextId == old(nextId)
      ensures r.Success? ==>
                && r.value == old(nextId) && nextId == old(nextId) + 1 && r.value !in old(tasks)
                && tasks == old(tasks)[r.value := TaskModel.Create(title, description, deadline, tags, caller.id,
                                                                    Some(TaskModel.Active), now).value]
                && tasks[r.value].mentorId == caller.id && tasks[r.value].status == TaskModel.Active
                && tasks[r.value].applicants == 0 && tasks[r.value].activeTeams == 0
                && tasks[r.value].title == title && tasks[r.value].description == description
                && tasks[r.value].deadline == deadline.value && tasks[r.value].totalPoints == 100
                && tasks[r.value].tags == tags.GetOr([]) && tasks[r.value].createdAt == now
    {
      if caller.role != UserModel.Mentor {
        return Failure(Error(403, "Only mentors can create tasks"));
      }
      var created := TaskModel.Create(title, description, deadline, tags, caller.id, Some(TaskModel.Active), now);
      if created.None? {
        return Failure(Error(500, "Failed to create task"));
      }
      var id := nextId;
      NewTaskKeepsCount(tasks, submissions, id, created.value);
      tasks := tasks[id := created.value];
      nextId := nextId + 1;
      r := Success(id);
    }

    /** GET /mentor/tasks: the caller's own tasks, of every status; 403 for a non-mentor. */
    function MentorTasks(caller: Principal): (r: Result<map<Id, Task>>)
      reads this
      ensures caller.role != UserModel.Mentor ==> r == Failure(Error(403, "Access denied"))
      ensures caller.role == UserModel.Mentor ==>
                && r.Success?
                && (forall t :: t in r.value <==> t in tasks && tasks[t].mentorId == caller.id)
                && (forall t :: t in r.value ==> r.value[t] == tasks[t])
    {
      if caller.role != UserModel.Mentor then Failure(Error(403, "Access denied"))
      else Success(map t | t in tasks && tasks[t].mentorId == caller.id :: tasks[t])
    }

    /**
      GET /mentor/submissions: exactly the submissions in status submitted
      whose task belongs to the caller; 403 for a non-mentor.
     */
    function ReviewQueue(caller: Principal): (r: Result<map<Id, Submission>>)
      reads this
      ensures caller.role != UserModel.Mentor ==> r == Failure(Error(403, "Access denied"))
      ensures caller.role == UserModel.Mentor ==>
                && r.Success?
                && (forall s :: s in r.value <==>
                      && s in submissions
                      && submissions[s].status == SubmissionModel.Submitted
                      && submissions[s].taskId in tasks
                      && tasks[submissions[s].taskId].mentorId == caller.id)
                && (forall s :: s in r.value ==> r.value[s] == submissions[s])
    {
      if caller.role != UserModel.Mentor then Failure(Error(403, "Access denied"))
      else
        var taskIds := set t | t in tasks && tasks[t].mentorId == caller.id;
        Success(map s | s in submissions && submissions[s].taskId in taskIds
                        && submissions[s].status == SubmissionModel.Submitted :: submissions[s])
    }

    /**
      POST /mentor/evaluate/:submissionId. Only the role is checked: any
      mentor may review any submission in any status. The scores, feedback
      and total are stored as given and the status becomes reviewed. An
      unknown id still succeeds, with no submission (null) in the answer.
     */
    method Evaluate(caller: Principal, submissionId: Id, scores: SubmissionModel.Scores,
                    feedback: string, totalScore: int, now: Timestamp) returns (r: Result<Option<Submission>>)
      requires Valid()
      modifies this
      ensures Valid()
      ensures users == old(users) && tasks == old(tasks) && teams == old(teams) && nextId == old(nextId)
      ensures caller.role != UserModel.Mentor ==> r == Failure(Error(403, "Access denied"))
      ensures caller.role == UserModel.Mentor && submissionId !in old(submissions) ==> r == Success(None)
      ensures caller.role != UserModel.Mentor || submissionId !in old(submissions) ==> submissions == old(submissions)
      ensures caller.role == UserModel.Mentor && submissionId in old(submissions) ==>
                && submissions == old(submissions)[submissionId := old(submissions)[submissionId].(
                     scores := scores, feedback := feedback, totalScore := totalScore,
                     status := SubmissionModel.Reviewed, reviewedAt := Some(now))]
                && r == Success(Some(submissions[submissionId]))
    {
      if caller.role != UserModel.Mentor {
        return Failure(Error(403, "Access denied"));
      }
      if submissionId !in submissions {
        return Success(None);
      }
      var sub := submissions[submissionId].(scores := scores, feedback := feedback, totalScore := totalScore,
                                            status := SubmissionModel.Reviewed, reviewedAt := Some(now));
      UpdateKeepsCount(tasks, submissions, submissionId, sub);
      submissions := submissions[submissionId := sub];
      r := Success(Some(sub));
    }
  }
}
