/**
  The scoring state of the mentor's evaluation page
  (client/src/components/MentorEvaluation.jsx): a score per rubric criterion,
  each capped by that criterion's points, the total and maximum score, and
  the checks made before a review is accepted.
 */
module MentorEvaluation {
  import opened Base

  /** One rubric criterion, with the most points a score for it may have. */
  datatype Criterion = Criterion(id: int, criteria: string, points: int)

  /** The rubric the page shows. */
  const PageRubric: seq<Criterion> := [
    Criterion(1, "API endpoints working correctly", 30),
    Criterion(2, "Database integration", 25),
    Criterion(3, "Error handling", 20),
    Criterion(4, "Code quality and documentation", 15),
    Criterion(5, "Testing", 10)
  ]

  /** The recorded scores, keyed by criterion id. */
  type ScoreMap = map<int, int>

  predicate HasCriterion(rubric: seq<Criterion>, id: int) {
    exists i :: 0 <= i < |rubric| && rubric[i].id == id
  }

  /** `rubric.find(r => r.id === id).points`: the points of the first criterion with that id. */
  function MaxPoints(rubric: seq<Criterion>, id: int): (p: int)
    requires HasCriterion(rubric, id)
    ensures exists i :: 0 <= i < |rubric| && rubric[i].id == id && p == rubric[i].points
                        && forall j :: 0 <= j < i ==> rubric[j].id != id
  {
    if rubric[0].id == id then rubric[0].points
    else
      assert HasCriterion(rubric[1..], id) by {
        var i :| 0 <= i < |rubric| && rubric[i].id == id;
        assert rubric[1..][i - 1].id == id;
      }
      MaxPoints(rubric[1..], id)
  }

  /**
    `parseInt(value) || 0`: a box without a number scores zero, and so, being
    falsy, does a 0; any other number is its own score.
   */
  function ParsedScore(value: Option<int>): (v: int)
    ensures v == 0 <==> value == None || value == Some(0)
    ensures v != 0 ==> value == Some(v)
  {
    value.GetOr(0)
  }

  /** Every recorded score is for a criterion of the rubric and at most its points. */
  ghost predicate WithinCaps(rubric: seq<Criterion>, scores: ScoreMap) {
    forall k :: k in scores ==> HasCriterion(rubric, k) && scores[k] <= MaxPoints(rubric, k)
  }

  /**
    handleScoreChange: the score for criterion `id` is recorded only when it is
    at most that criterion's points, otherwise the scores stay as they are;
    the other criteria's entries never change.
   */
  function ScoreChange(rubric: seq<Criterion>, scores: ScoreMap, id: int, value: Option<int>): (r: ScoreMap)
    requires HasCriterion(rubric, id)
    ensures ParsedScore(value) <= MaxPoints(rubric, id) ==> id in r && r[id] == ParsedScore(value)
    ensures ParsedScore(value) > MaxPoints(rubric, id) ==> r == scores
    ensures forall k :: k != id ==> (k in r <==> k in scores)
    ensures forall k :: k != id && k in r ==> r[k] == scores[k]
    ensures WithinCaps(rubric, scores) ==> WithinCaps(rubric, r)
  {
    var numValue := ParsedScore(value);
    if numValue <= MaxPoints(rubric, id) then scores[id := numValue] else scores
  }

  /** A map with entries has a key. */
  lemma PickKey(scores: ScoreMap) returns (k: int)
    requires |scores| != 0
    ensures k in scores
  {
    if forall j :: j !in scores { assert false; }
    k :| k in scores;
  }

  /** `Object.values(scores).reduce((sum, score) => sum + score, 0)`: no scores total 0. */
  ghost function TotalScore(scores: ScoreMap): (t: int)
    ensures |scores| == 0 ==> t == 0
    decreases |scores|
  {
    if |scores| == 0 then 0
    else
      assert exists k :: k in scores by { var j := PickKey(scores); }
      var k :| k in scores;
      scores[k] + TotalScore(scores - {k})
  }

  /** The entry the definition of the total takes first. */
  lemma TotalScoreFirst(scores: ScoreMap) returns (j: int)
    requires |scores| != 0
    ensures j in scores && TotalScore(scores) == scores[j] + TotalScore(scores - {j})
  {
    var some := PickKey(scores);
    j :| j in scores && TotalScore(scores) == scores[j] + TotalScore(scores - {j});
  }

  /** The total does not depend on the order the values are added in: any entry can be taken first. */
  lemma {:induction false} TotalScoreRemove(scores: ScoreMap, k: int)
    requires k in scores
    ensures TotalScore(scores) == scores[k] + TotalScore(scores - {k})
    decreases |scores|
  {
    var j := TotalScoreFirst(scores);
    if j != k {
      var rest := scores - {j} - {k};
      assert rest == scores - {k} - {j};
      TotalScoreRemove(scores - {j}, k);
      assert TotalScore(scores - {j}) == scores[k] + TotalScore(rest);
      TotalScoreRemove(scores - {k}, j);
      assert TotalScore(scores - {k}) == scores[j] + TotalScore(rest);
    }
  }

  /** Scores none of which is negative have a non-negative total. */
  lemma {:induction false} TotalScoreNonNegative(scores: ScoreMap)
    requires forall k :: k in scores ==> scores[k] >= 0
    ensures TotalScore(scores) >= 0
    decreases |scores|
  {
    if |scores| != 0 {
      var k := PickKey(scores);
      TotalScoreRemove(scores, k);
      TotalScoreNonNegative(scores - {k});
    }
  }

  /**
    `rubric.reduce((sum, item) => sum + item.points, 0)`. When no criterion
    has negative points, none is worth more than the whole rubric.
   */
  function MaxScore(rubric: seq<Criterion>): (m: int)
    ensures (forall i :: 0 <= i < |rubric| ==> rubric[i].points >= 0) ==>
              forall i :: 0 <= i < |rubric| ==> rubric[i].points <= m
  {
    if rubric == [] then 0
    else
      var rest := MaxScore(rubric[1..]);
      assert forall i :: 1 <= i < |rubric| ==> rubric[i] == rubric[1..][i - 1];
      rubric[0].points + rest
  }

  /** Dropping the first criterion and its score leaves scores within the remaining caps. */
  lemma TailWithinCaps(rubric: seq<Criterion>, scores: ScoreMap)
    requires rubric != [] && WithinCaps(rubric, scores)
    ensures WithinCaps(rubric[1..], scores - {rubric[0].id})
  {
    var rest := scores - {rubric[0].id};
    forall k | k in rest ensures HasCriterion(rubric[1..], k) && rest[k] <= MaxPoints(rubric[1..], k) {
      var i :| 0 <= i < |rubric| && rubric[i].id == k;
      assert rubric[1..][i - 1].id == k;
    }
  }

  /** No criterion can be scored on an empty rubric. */
  lemma EmptyRubricNoScores(scores: ScoreMap)
    requires WithinCaps([], scores)
    ensures |scores| == 0
  {
    if |scores| != 0 {
      var k := PickKey(scores);
      assert false;
    }
  }

  /**
    Because every recorded score is capped by its criterion, the total score
    never exceeds the maximum score (criteria carry no negative points).
   */
  lemma {:induction false} TotalWithinMax(rubric: seq<Criterion>, scores: ScoreMap)
    requires WithinCaps(rubric, scores)
    requires forall i :: 0 <= i < |rubric| ==> rubric[i].points >= 0
    ensures TotalScore(scores) <= MaxScore(rubric)
  {
    if rubric == [] {
      EmptyRubricNoScores(scores);
    } else {
      var c := rubric[0];
      var rest := scores - {c.id};
      TailWithinCaps(rubric, scores);
      TotalWithinMax(rubric[1..], rest);
      if c.id in scores {
        TotalScoreRemove(scores, c.id);
      } else {
        assert rest == scores;
      }
    }
  }

  /** A sequence of score entries, each for a criterion of the rubric. */
  function ApplyChanges(rubric: seq<Criterion>, scores: ScoreMap, changes: seq<(int, Option<int>)>): (r: ScoreMap)
    requires forall i :: 0 <= i < |changes| ==> HasCriterion(rubric, changes[i].0)
    ensures WithinCaps(rubric, scores) ==> WithinCaps(rubric, r)
    decreases |changes|
  {
    if changes == [] then scores
    else ApplyChanges(rubric, ScoreChange(rubric, scores, changes[0].0, changes[0].1), changes[1..])
  }

  /** Whatever the mentor types, starting from no scores, the total stays within the maximum. */
  lemma EnteredScoresWithinMax(rubric: seq<Criterion>, changes: seq<(int, Option<int>)>)
    requires forall i :: 0 <= i < |changes| ==> HasCriterion(rubric, changes[i].0)
    requires forall i :: 0 <= i < |rubric| ==> rubric[i].points >= 0
    ensures TotalScore(ApplyChanges(rubric, map[], changes)) <= MaxScore(rubric)
  {
    TotalWithinMax(rubric, ApplyChanges(rubric, map[], changes));
  }

  /** The page's rubric is out of 100 points. */
  lemma PageRubricMax()
    ensures MaxScore(PageRubric) == 100
  {
  }

  // ---------------------------------------------------------------------------
  // Submission checks (handleSubmit)

  datatype ReviewOutcome = Alert(message: string) | Accepted

  /** Every criterion of the rubric has a recorded score. */
  predicate AllScored(rubric: seq<Criterion>, scores: ScoreMap) {
    forall i :: 0 <= i < |rubric| ==> rubric[i].id in scores
  }

  /**
    handleSubmit: the review is accepted exactly when every criterion is
    scored and the feedback is not blank; the scoring check comes first.
   */
  function Validate(rubric: seq<Criterion>, scores: ScoreMap, feedback: string): (r: ReviewOutcome)
    ensures r == Accepted <==> AllScored(rubric, scores) && !IsBlank(feedback)
    ensures !AllScored(rubric, scores) ==> r == Alert("Please score all rubric criteria")
    ensures AllScored(rubric, scores) && IsBlank(feedback) ==> r == Alert("Please provide feedback")
  {
    if !AllScored(rubric, scores) then Alert("Please score all rubric criteria")
    else if IsBlank(feedback) then Alert("Please provide feedback")
    else Accepted
  }
}
