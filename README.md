# MentorConnect core in Dafny

MentorConnect is a task marketplace. Mentors post project tasks. Students
apply to tasks, form teams that others join by code, and submit their work.
Mentors then score each submission against a rubric.

This project models two parts of it:

- **The backend.** This covers the route handlers of `backend/server.js`
  over the four collections (users, tasks, teams, submissions), and the
  schemas in `backend/models/*.js`.
  - Each schema is a datatype with a `Create` function. It applies the
    field defaults and the `required`, `enum` and `uppercase` rules.
  - The database is the class `Server.Store`, which holds one map per
    collection and a counter for fresh ids.
  - Each handler is a method of the store. It checks what the handler
    checks, answers with the handler's status code and message, and
    changes the maps as the handler does. The one message that differs is
    signup's 500: the source appends the library's error text to
    "Signup failed: ", and the model answers "Signup failed".
  - `Store.Valid()` is the invariant every handler keeps:
    - ids are fresh;
    - emails are unique;
    - team codes are unique and well formed;
    - every leader is a member of their team;
    - there is at most one submission per (task, student) pair;
    - every submission refers to an existing task;
    - every task's `applicants` counter equals the number of submissions
      made to that task;
    - every task's `activeTeams` is 0, since no route raises it.
- **The client logic of three mentor pages.**
  - The task form (`MentorTaskCreate.jsx`): tags, rubric rows, total
    points and the checks made before submitting.
  - The score entry (`MentorEvaluation.jsx`): per-criterion caps, total
    and maximum score, and the checks before a review is submitted.
  - The dashboard figures (`MentorDashboard.jsx`).

  These are pure functions over values. There is one exception:
  `handleRubricChange` copies the rows into an array and writes into that
  array, and the model does the same in a method.

Modules are `Base` (shared types and string helpers), `UserModel`,
`TaskModel`, `TeamModel`, `SubmissionModel`, `Server`, `MentorTaskCreate`,
`MentorEvaluation` and `MentorDashboard`.

The model follows the code as written, including these behaviours:

- Applying, submitting, and creating, joining or leaving a team check no role.
- The team code is `Math.random().toString(36).substring(2, 8).toUpperCase()`,
  with no retry:
  - a code another team already holds fails on the unique index with 500;
  - a code can be shorter than six characters;
  - the random number 0 gives the empty code, which the schema rejects (500).
- Evaluation checks only that the caller is a mentor. It does not check
  that the mentor owns the task, nor the submission's status. An unknown
  submission id still succeeds, with no submission in the answer.
- Submitting overwrites the submission whatever its status, so a reviewed
  submission goes back to `submitted`. Status is not monotonic.
- `handleScoreChange` records any number up to the criterion's points,
  including a negative number: it checks only the upper cap. The page itself
  does not submit such a score, because the score boxes carry `min="0"`,
  `max` and `required`; those browser checks are not modelled (see
  "## Left out").

## Model

| member | source | states |
|---|---|---|
| Base.Trim | client/src/components/MentorTaskCreate.jsx:29 | `String.prototype.trim`: removes exactly the leading and trailing ECMAScript white space and line terminators |
| Base.IsBlank | client/src/components/MentorTaskCreate.jsx:81-96 | `!s.trim()` holds exactly when every character of `s` is white space |
| Base.TrimIdempotent | client/src/components/MentorTaskCreate.jsx:32 | trimming an already trimmed string changes nothing, so a stored tag is its own trimmed form |
| Base.ToUpper | backend/models/team.js:10-15 | upper-casing keeps the length, maps each character by itself and leaves no lower-case ASCII letter |
| Base.ToUpperIdempotent | backend/models/team.js:14 | the `uppercase` setter applied to an upper-cased code changes nothing |
| Base.Without | backend/server.js:379 | `filter(m => m !== x)`: no `x` is left, every other element is kept and nothing new appears; the length drops exactly when `x` occurs |
| Base.WithoutConcat | backend/server.js:379 | filtering distributes over concatenation, so the remaining elements keep their order |
| Base.WithoutAbsent | client/src/components/MentorTaskCreate.jsx:42 | filtering out a value that does not occur returns the list unchanged |
| Base.WithoutCounts | client/src/components/MentorTaskCreate.jsx:42 | for every value, filtering leaves no copy of the removed value and the same number of copies of every other value |
| UserModel.ParseRole | backend/models/user.js:23-27 | the role enum accepts exactly "student" and "mentor", and the accepted name is the stored role's name |
| UserModel.Create | backend/models/user.js:7-80 | a user is created exactly when name, email and password are non-empty and the role is valid or absent; an absent role is student; the profile fields take their empty defaults |
| TaskModel.ParseStatus | backend/models/task.js:37-41 | the status enum accepts exactly "active", "closed" and "draft" |
| TaskModel.Create | backend/models/task.js:4-58 | a task is created exactly when title, description and deadline are given; status defaults to active, tags to [], totalPoints to 100, and both counters start at 0 |
| TeamModel.Create | backend/models/team.js:4-35 | a team is created exactly when name and code are non-empty; the stored code is the upper-cased input, and equals it when it has no lower-case letter |
| SubmissionModel.ParseStatus | backend/models/submission.js:41-45 | the status enum accepts exactly "pending", "submitted" and "reviewed" |
| SubmissionModel.StatusRoundTrip | backend/models/submission.js:41-45 | every status parses back from its stored name |
| SubmissionModel.CompletedOrActive | backend/models/submission.js:41-45 | every submission is either completed (reviewed) or active (pending or submitted), never both |
| SubmissionModel.New | backend/models/submission.js:6-74 | a new submission is pending, has empty links, notes, scores and feedback, a total of 0, no submit or review time, and the given team or none |
| Server.Substring | backend/server.js:316 | `substring(start, end)` clamps both bounds to the string and swaps them when out of order; the result is the characters between the two bounds |
| Server.GenerateCode | backend/server.js:316 | the drawn code has at most six characters, all from [0-9A-Z], each the upper-cased random digit at that place; it is empty exactly when the random number is 0 |
| Server.AfterLeave | backend/server.js:378-389 | the leaver is filtered out; a departing leader is succeeded by the first remaining member; the team is deleted exactly when the leader leaves and nobody remains; a well-formed team stays well formed |
| Server.SuccessionExample | backend/server.js:382-384 | on a team [a, b, c] led by a, a leaving makes b the leader of [b, c] |
| Server.LastMemberDeletes | backend/server.js:385-387 | a leader who is the only member deletes the team by leaving |
| Server.ApplicationsAfterInsert | backend/server.js:263-268 | a fresh submission joins the applications of its own task and of no other |
| Server.ApplyKeepsCount | backend/server.js:263-273 | one new submission plus one more applicant on its task keeps every applicant counter equal to the number of submissions to its task |
| Server.UpdateKeepsCount | backend/server.js:286-296 | rewriting a submission in place keeps every applicant counter right |
| Server.NewTaskKeepsCount | backend/server.js:409-418 | a new task with zero applicants keeps every applicant counter right |
| Server.PartitionCount | backend/server.js:201-202 | two disjoint sets that make up a whole have sizes that add up to the whole |
| Server.Store.Signup | backend/server.js:53-101 | an email in use is 400 "User already exists" and nothing changes; otherwise the user document is created with the given role or "student", or the schema failure is 500 |
| Server.Store.Login | backend/server.js:104-148 | an unknown email, a wrong password and a wrong role are each their own 400; otherwise the answer is that user's id and role |
| Server.Store.StudentDashboard | backend/server.js:193-216 | completed counts the caller's reviewed submissions, and completed plus active is all of the caller's submissions; badges are 3 |
| Server.Store.BrowseTasks | backend/server.js:221-229 | exactly the tasks whose status is active |
| Server.Store.Apply | backend/server.js:243-279 | an absent task is 404 and an existing application is 400, both changing nothing; otherwise one pending submission is added and only that task's applicants goes up by 1 |
| Server.Store.Submit | backend/server.js:282-306 | only the caller's submission for the task is rewritten, with links, notes, status submitted and the time, whatever its status was; without one it is 404 and nothing changes |
| Server.Store.CreateTeam | backend/server.js:311-329 | the team is created, with the caller as leader and only member, exactly when the name is non-empty, the code non-empty and not in use; otherwise 500 and nothing changes |
| Server.Store.JoinTeam | backend/server.js:332-354 | the code is looked up upper-cased, as the schema's setter casts it; an unknown code is 404 and an existing member is 400; otherwise the caller is appended to the members of the team with that code and nothing else changes |
| Server.Store.LeaveTeam | backend/server.js:370-396 | an absent team is 404; otherwise the team becomes `AfterLeave` of it, or is deleted when that is none |
| Server.Store.CreateTask | backend/server.js:401-424 | a non-mentor is 403; missing required fields are 500; it succeeds exactly for a mentor with title, description and deadline; the one new task is the schema's document for the caller with status active, and the other tasks stay |
| Server.Store.MentorTasks | backend/server.js:427-438 | a non-mentor is 403; otherwise exactly the caller's tasks, of every status |
| Server.Store.ReviewQueue | backend/server.js:441-462 | a non-mentor is 403; otherwise exactly the submitted submissions whose task the caller owns |
| Server.Store.Evaluate | backend/server.js:465-489 | a non-mentor is 403; an unknown id succeeds with no submission; otherwise scores, feedback and total are stored as given, with status reviewed and the review time |
| MentorTaskCreate.Change | client/src/components/MentorTaskCreate.jsx:20-25 | `[e.target.name]: e.target.value`: the named field (title, description, deadline, difficulty or new tag) takes the typed value and every other field, the tags and the rubric rows included, is kept |
| MentorTaskCreate.AddTag | client/src/components/MentorTaskCreate.jsx:28-36 | the trimmed tag is appended and the input cleared exactly when it is not blank and fewer than 5 tags exist; otherwise nothing changes; never more than 5 tags |
| MentorTaskCreate.RemoveTag | client/src/components/MentorTaskCreate.jsx:39-44 | every copy of the tag is removed, each other tag keeps its count, no tag appears that was not there, and an absent tag changes nothing |
| MentorTaskCreate.PointValue | client/src/components/MentorTaskCreate.jsx:74 | a box's points, with `parseInt`'s failure and 0 both falsy: the value is 0 exactly when the box holds no number or 0, and otherwise is the number in the box |
| MentorTaskCreate.TotalPoints | client/src/components/MentorTaskCreate.jsx:74 | the `reduce` total of the rows' point values; with no negative points, no row is worth more than the total |
| MentorTaskCreate.TotalPointsConcat | client/src/components/MentorTaskCreate.jsx:74 | the total points of two lists of rows is the sum of their totals |
| MentorTaskCreate.TotalPointsNonNegative | client/src/components/MentorTaskCreate.jsx:74 | rows with no negative points have a non-negative total |
| MentorTaskCreate.AddRubricItem | client/src/components/MentorTaskCreate.jsx:47-52 | one blank row is appended, the others are untouched and the total is unchanged |
| MentorTaskCreate.DropIndex | client/src/components/MentorTaskCreate.jsx:56 | filtering by position drops exactly the element at the index, or nothing for an index out of range |
| MentorTaskCreate.RemoveRubricItem | client/src/components/MentorTaskCreate.jsx:55-61 | the row at the index is dropped, the others keep their order, and the total loses that row's points; an index out of range changes nothing |
| MentorTaskCreate.ApplyEdit | client/src/components/MentorTaskCreate.jsx:66 | writing one field of a row sets that field and keeps the other |
| MentorTaskCreate.EditedItems | client/src/components/MentorTaskCreate.jsx:64-71 | only the edited row changes, and the total moves by exactly the change in its points |
| MentorTaskCreate.RubricChange | client/src/components/MentorTaskCreate.jsx:64-71 | copying the rows into an array and writing the field in place gives exactly `EditedItems` |
| MentorTaskCreate.Validate | client/src/components/MentorTaskCreate.jsx:77-102 | the form is accepted exactly when title and description are not blank, a deadline is set and no criterion is blank; otherwise the first failing check's alert |
| MentorTaskCreate.InitialFormRefused | client/src/components/MentorTaskCreate.jsx:7-17 | the form as first opened is refused for its empty title |
| MentorTaskCreate.AddTagKeepsInvariant | client/src/components/MentorTaskCreate.jsx:28-36 | adding a tag keeps at most 5 tags, each non-empty and trimmed |
| MentorTaskCreate.RemoveTagKeepsInvariant | client/src/components/MentorTaskCreate.jsx:39-44 | removing a tag keeps every remaining tag non-empty and trimmed |
| MentorTaskCreate.Step | client/src/components/MentorTaskCreate.jsx:126-267 | one event of the page: the handler each input and button is wired to; removing a criterion does nothing while only one row is shown; every event keeps at most 5 clean tags and at least one rubric row |
| MentorTaskCreate.Run | client/src/components/MentorTaskCreate.jsx:126-267 | a sequence of events, one after another, keeps that invariant from any form that has it |
| MentorTaskCreate.ReachableFormsKeepCaps | client/src/components/MentorTaskCreate.jsx:7-17 | every form reachable from the opened page has at most 5 tags, each non-empty and trimmed, and at least one rubric row |
| MentorEvaluation.MaxPoints | client/src/components/MentorEvaluation.jsx:37 | `find` gives the points of the first criterion with that id |
| MentorEvaluation.ParsedScore | client/src/components/MentorEvaluation.jsx:38 | a typed score, with `parseInt`'s failure and 0 both falsy: the score is 0 exactly when the box holds no number or 0, and otherwise is the number typed |
| MentorEvaluation.ScoreChange | client/src/components/MentorEvaluation.jsx:36-47 | a score at most the criterion's points is recorded, a larger one leaves the scores unchanged, and other criteria never change; scores within their caps stay within them |
| MentorEvaluation.PickKey | client/src/components/MentorEvaluation.jsx:50 | proof helper for the total score: a non-empty score map has a key |
| MentorEvaluation.TotalScore | client/src/components/MentorEvaluation.jsx:50 | the `Object.values` total of the recorded scores; no scores total 0 (its order independence is `TotalScoreRemove`) |
| MentorEvaluation.TotalScoreFirst | client/src/components/MentorEvaluation.jsx:50 | proof helper: a non-empty score map has an entry that the total adds to the total of the others |
| MentorEvaluation.TotalScoreRemove | client/src/components/MentorEvaluation.jsx:50 | the total of the scores can start from any entry, so it does not depend on the order of `Object.values` |
| MentorEvaluation.TotalScoreNonNegative | client/src/components/MentorEvaluation.jsx:50 | scores none of which is negative have a non-negative total |
| MentorEvaluation.MaxScore | client/src/components/MentorEvaluation.jsx:51 | the `reduce` total of the criteria's points; with no negative points, no criterion is worth more than the maximum |
| MentorEvaluation.TailWithinCaps | client/src/components/MentorEvaluation.jsx:37-41 | without the first criterion and its score, the other scores are still within their caps |
| MentorEvaluation.EmptyRubricNoScores | client/src/components/MentorEvaluation.jsx:37-41 | no score can be within the caps of an empty rubric |
| MentorEvaluation.TotalWithinMax | client/src/components/MentorEvaluation.jsx:50-51 | scores within their caps have a total at most the maximum score |
| MentorEvaluation.ApplyChanges | client/src/components/MentorEvaluation.jsx:36-47 | any sequence of score entries keeps every score within its cap |
| MentorEvaluation.EnteredScoresWithinMax | client/src/components/MentorEvaluation.jsx:36-51 | whatever is typed from an empty page, the total never exceeds the maximum |
| MentorEvaluation.PageRubricMax | client/src/components/MentorEvaluation.jsx:27-33 | the page's rubric is out of 100 points |
| MentorEvaluation.Validate | client/src/components/MentorEvaluation.jsx:54-73 | the review is accepted exactly when every criterion is scored and the feedback is not blank; otherwise the first failing check's alert |
| MentorDashboard.Filter | client/src/components/MentorDashboard.jsx:32 | `filter` keeps only accepted elements, drops none of them, and keeps the whole list exactly when it accepts every element |
| MentorDashboard.FilterNone | client/src/components/MentorDashboard.jsx:51 | a filter that accepts no element keeps nothing |
| MentorDashboard.FilterEmpty | client/src/components/MentorDashboard.jsx:32 | the filter keeps nothing exactly when it accepts no element |
| MentorDashboard.DisjointFilters | client/src/components/MentorDashboard.jsx:45-51 | two filters that never accept the same element keep at most all the elements between them |
| MentorDashboard.FilterConcat | client/src/components/MentorDashboard.jsx:32 | filtering distributes over concatenation, so the kept elements keep their order |
| MentorDashboard.FilterMultiset | client/src/components/MentorDashboard.jsx:32 | the filter keeps every copy of each accepted value and no copy of any other |
| MentorDashboard.FilterCount | client/src/components/MentorDashboard.jsx:32 | `filter(...).length` is the number of positions whose element is accepted |
| MentorDashboard.ActiveTasks | client/src/components/MentorDashboard.jsx:32 | `activeTasks` is at most the number of tasks, 0 exactly when no task is active, and all of them exactly when every task is active |
| MentorDashboard.ActiveTasksCount | client/src/components/MentorDashboard.jsx:32 | `activeTasks` is the number of positions holding a task with status "active" |
| MentorDashboard.ReviewCount | client/src/components/MentorDashboard.jsx:45-51 | a review count is the number of positions holding a submission with that status |
| MentorDashboard.PendingReviews | client/src/components/MentorDashboard.jsx:47-50 | `pending.length` is at most the number of submissions, 0 exactly when none is submitted, and all of them exactly when every one is |
| MentorDashboard.CompletedReviews | client/src/components/MentorDashboard.jsx:51 | `completedReviews` is at most the number of submissions, 0 exactly when none is reviewed, and all of them exactly when every one is |
| MentorDashboard.TeamsOf | client/src/components/MentorDashboard.jsx:33 | a task's team count with the `0` fallback: a missing count contributes 0 and a present count contributes itself |
| MentorDashboard.TotalTeams | client/src/components/MentorDashboard.jsx:33 | with a missing count taken as 0, the sum is non-negative when every count is, and 0 when every count is 0 |
| MentorDashboard.DashboardStats | client/src/components/MentorDashboard.jsx:31-52 | active tasks is the number of active tasks, pending and completed reviews the numbers of submitted and of reviewed submissions, the team total is `TotalTeams`; pending plus completed is at most all submissions |
| MentorDashboard.ReviewsBounded | client/src/components/MentorDashboard.jsx:45-51 | pending plus completed reviews never exceed the number of submissions |
| MentorDashboard.SubmissionRows | client/src/components/MentorDashboard.jsx:43-45 | each stored submission reaches the page as a row with its status name |
| MentorDashboard.TaskRows | client/src/components/MentorDashboard.jsx:27-33 | each stored task reaches the page as a row with its status name and its `activeTeams` |
| MentorDashboard.FetchedTasksHaveNoTeams | client/src/components/MentorDashboard.jsx:33 | no route raises `activeTeams`, so on the stored tasks the team total is always 0 |
| MentorDashboard.QueueHasNoCompletedReviews | client/src/components/MentorDashboard.jsx:51 | the review queue holds only submitted submissions, so on its data every row is pending and completed reviews is 0 |

## Left out

- Authentication: JWT signing and checking, and cookies. Each method takes the caller's (id, role) as an input instead.
- The database connection and its lifecycle: `backend/db.js`, `mongoose.connect` and process signals. These are I/O.
- `.populate` joins and `.select('-password')` change only what is displayed, so they are left out.
- Fields the task schema does not declare, `difficulty` and `rubric`, are dropped by strict mode. `CreateTask` therefore does not take them, and the rubric is never stored.
- `Math.random()` is a parameter: the store receives its base-36 rendering.
- `Date.now` and `new Date()` are parameters: each method receives `now`.
- Concurrency: the model treats requests as one at a time, so the races between a handler's reads and its later writes are not modelled. The model therefore misses these outcomes:
  - Two concurrent applications by one student to one task can both pass the `findOne` check in `/tasks/:id/apply`. The submission schema has no unique index, so two submissions are stored and `applicants` rises by 2. `Store.Valid()` says that cannot happen.
  - Two concurrent joins by one user can both pass the `includes` check in `/team/join`, and each `save` pushes the user. The user is then a member twice, which `JoinTeam`'s 400 "Already a member" rules out.
  - Concurrent leaves each write back their own filtered `members` array, so one leave can be lost.
  - Two concurrent signups with one email both pass the `findOne` check. The unique index on `email` then rejects the second with a 500, not the 400 "User already exists".
- A request-body field the client leaves out is modelled as a present value: the empty string, the empty map for `scores`, or a number for `totalScore`. In the source it is `undefined`, and that differs in two places:
  - In a lookup, `findOne({ code })` in `/team/join` and `findOne({ email })` in signup and login, an `undefined` value is dropped from the filter. The query then matches any document, so a join without a code can join an arbitrary team; the model answers 404 "Invalid team code".
  - In the updates of `/tasks/:id/submit` and `/mentor/evaluate/:submissionId`, an `undefined` `githubUrl`, `demoUrl`, `notes`, `scores`, `feedback` or `totalScore` is not written as an empty value. The model always writes the value it is given.
  - For the schema-checked creates this has no effect, because `required` rejects `undefined` and `""` alike.
- Chat, `client/src/utils/api.js`, page routing and the mock-only pages are not part of this model.
- The profile routes (`/student/profile` and its update), the single-document lookups `GET /tasks/:id` and `GET /team/:id`, and logout are not part of this model.
- A status 500 is modelled in three places. The schema rejects the document on signup, team creation and task creation. The unique index on `code` rejects a team code already in use on team creation. Other store failures, such as a lost connection, are I/O.
- Ids are naturals. A malformed ObjectId in `:id`, `:submissionId` or `teamId` makes Mongoose throw a cast error, which the source answers with 500 (for example at `backend/server.js:246`, `:372` and `:473`); that input is not modelled.
- The browser's own checks on the evaluation page's score boxes are not modelled: `min="0"`, `max` and `required` stop the form before `handleSubmit` runs when a score is negative. A score of 0 is shown as an empty box (`scores[item.id] || ''`), so `required` also refuses it and a mentor cannot award 0 on a criterion. `MentorEvaluation.Validate` accepts both.
- Server.Store.Signup: the 500 message is "Signup failed". The source appends the library's validation text (`err.message`) to "Signup failed: ", and that text is not modelled.
- `parseInt` is not modelled. Points and scores are integers already parsed, and a box without a number is `None`, which counts as 0.
- A fractional `Number` is not modelled: all counts and scores are integers.
- Base.ToUpper: maps only the ASCII letters. The `uppercase` setter is Unicode `toUpperCase`, which also maps other scripts and can change the length.
- MentorTaskCreate.RubricChange: rows are values. `handleRubricChange` copies only the array, so the written row object is also shared with the previous state. That aliasing is not modelled.
- The dashboard's `fetch`, `setState`, loading and error display are I/O and are left out. Only the four figures are modelled.
