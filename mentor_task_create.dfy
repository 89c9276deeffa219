/**
  The form state of the mentor's "Create New Task" page
  (client/src/components/MentorTaskCreate.jsx): its tag list, capped at five,
  its rubric of criteria with points, the running point total, and the checks
  made before the form is accepted.
 */
module MentorTaskCreate {
  import opened Base

  /** At most this many tags can be added. */
  const MaxTags: nat := 5

  /**
    One rubric row. `points` is what parseInt makes of the points box: None
    when the box holds no number.
   */
  datatype RubricItem = RubricItem(criteria: string, points: Option<int>)

  datatype TaskForm = TaskForm(
    title: string,
    description: string,
    deadline: string,
    difficulty: string,
    tags: seq<string>,
    newTag: string,
    rubricItems: seq<RubricItem>)

  /** The row "Add Criteria" appends: no criterion yet, zero points. */
  const BlankItem: RubricItem := RubricItem("", Some(0))

  /** The state the page opens with. */
  const InitialForm: TaskForm := TaskForm("", "", "", "Medium", [], "", [BlankItem])

  // ---------------------------------------------------------------------------
  // Plain inputs (handleChange)

  /** The inputs that write a form field by name. */
  datatype Field = Title | Description | Deadline | Difficulty | NewTag

  /** Typing into one of the plain inputs sets that field and nothing else. */
  function Change(f: TaskForm, field: Field, value: string): (r: TaskForm)
    ensures r.tags == f.tags && r.rubricItems == f.rubricItems
    ensures field != NewTag ==> r.newTag == f.newTag
    ensures field == Title ==> r == f.(title := value)
    ensures field == Description ==> r == f.(description := value)
    ensures field == Deadline ==> r == f.(deadline := value)
    ensures field == Difficulty ==> r == f.(difficulty := value)
    ensures field == NewTag ==> r == f.(newTag := value)
  {
    match field
    case Title => f.(title := value)
    case Description => f.(description := value)
    case Deadline => f.(deadline := value)
    case Difficulty => f.(difficulty := value)
    case NewTag => f.(newTag := value)
  }

  // ---------------------------------------------------------------------------
  // Tags

  /**
    handleAddTag: the trimmed new tag is appended, and the input cleared, only
    when it is not blank and fewer than five tags exist; otherwise nothing
    changes. The list is never pushed past five.
   */
  function AddTag(f: TaskForm): (r: TaskForm)
    ensures r == f.(tags := r.tags, newTag := r.newTag)
    ensures |f.tags| <= |r.tags| <= |f.tags| + 1 && r.tags[..|f.tags|] == f.tags
    ensures |r.tags| == |f.tags| + 1 <==> !IsBlank(f.newTag) && |f.tags| < MaxTags
    ensures |r.tags| == |f.tags| + 1 ==>
              && r.tags[|f.tags|] == Trim(f.newTag)
              && r.tags[|f.tags|] != "" && Trim(r.tags[|f.tags|]) == r.tags[|f.tags|]
              && r.newTag == ""
    ensures |r.tags| == |f.tags| ==> r == f
    ensures |f.tags| <= MaxTags ==> |r.tags| <= MaxTags
  {
    var tag := Trim(f.newTag);
    if tag != "" && |f.tags| < MaxTags then
      TrimIdempotent(f.newTag);
      f.(tags := f.tags + [tag], newTag := "")
    else f
  }

  /**
    handleRemoveTag: every tag equal to `tag` is removed; each other tag keeps
    its number of copies (and, by Base.WithoutConcat, its order).
   */
  function RemoveTag(f: TaskForm, tag: string): (r: TaskForm)
    ensures r == f.(tags := r.tags)
    ensures tag !in r.tags
    ensures forall t :: t != tag ==> multiset(r.tags)[t] == multiset(f.tags)[t]
    ensures forall i :: 0 <= i < |r.tags| ==> r.tags[i] in f.tags
    ensures tag !in f.tags ==> r == f
    ensures |r.tags| <= |f.tags|
  {
    WithoutCounts(f.tags, tag);
    if tag !in f.tags then WithoutAbsent(f.tags, tag); f.(tags := Without(f.tags, tag))
    else f.(tags := Without(f.tags, tag))
  }

  // ---------------------------------------------------------------------------
  // Rubric and total points

  /**
    `parseInt(item.points) || 0`: a box without a number counts as zero, and
    so, being falsy, does a 0; any other number counts as itself.
   */
  function PointValue(item: RubricItem): (v: int)
    ensures v == 0 <==> item.points == None || item.points == Some(0)
    ensures v != 0 ==> item.points == Some(v)
  {
    item.points.GetOr(0)
  }

  /**
    totalPoints: the sum over the rows of their point values. When no row
    has negative points, no row is worth more than the whole.
   */
  function TotalPoints(items: seq<RubricItem>): (t: int)
    ensures (forall i :: 0 <= i < |items| ==> PointValue(items[i]) >= 0) ==>
              forall i :: 0 <= i < |items| ==> PointValue(items[i]) <= t
  {
    if items == [] then 0
    else
      var rest := TotalPoints(items[1..]);
      assert forall i :: 1 <= i < |items| ==> items[i] == items[1..][i - 1];
      PointValue(items[0]) + rest
  }

  /** The total of two lists of rows laid end to end is the sum of their totals. */
  lemma {:induction false} TotalPointsConcat(a: seq<RubricItem>, b: seq<RubricItem>)
    ensures TotalPoints(a + b) == TotalPoints(a) + TotalPoints(b)
  {
    if a != [] {
      assert (a + b)[1..] == a[1..] + b;
      TotalPointsConcat(a[1..], b);
    } else {
      assert a + b == b;
    }
  }

  /** With no negative points entered, the total is not negative. */
  lemma {:induction false} TotalPointsNonNegative(items: seq<RubricItem>)
    requires forall i :: 0 <= i < |items| ==> PointValue(items[i]) >= 0
    ensures TotalPoints(items) >= 0
  {
    if items != [] {
      TotalPointsNonNegative(items[1..]);
    }
  }

  /**
    handleAddRubricItem: one blank row is appended and the existing rows are
    untouched, so the total stays the same.
   */
  function AddRubricItem(f: TaskForm): (r: TaskForm)
    ensures r == f.(rubricItems := r.rubricItems)
    ensures |r.rubricItems| == |f.rubricItems| + 1
    ensures r.rubricItems[..|f.rubricItems|] == f.rubricItems
    ensures r.rubricItems[|f.rubricItems|] == BlankItem
    ensures TotalPoints(r.rubricItems) == TotalPoints(f.rubricItems)
  {
    TotalPointsConcat(f.rubricItems, [BlankItem]);
    f.(rubricItems := f.rubricItems + [BlankItem])
  }

  /**
    `s.filter((_, i) => i !== index)` over the part of the array that starts
    at position `offset`: exactly the element at `index` is dropped, if it is
    in that part.
   */
  function DropIndex<T>(s: seq<T>, index: int, offset: int): (r: seq<T>)
    ensures 0 <= index - offset < |s| ==> r == s[..index - offset] + s[index - offset + 1..]
    ensures !(0 <= index - offset < |s|) ==> r == s
    decreases |s|
  {
    if s == [] then []
    else if offset == index then DropIndex(s[1..], index, offset + 1)
    else [s[0]] + DropIndex(s[1..], index, offset + 1)
  }

  /**
    handleRemoveRubricItem: the row at `index` is dropped, the others keep
    their order, and the total loses that row's points; an index outside the
    list changes nothing.
   */
  function RemoveRubricItem(f: TaskForm, index: int): (r: TaskForm)
    ensures r == f.(rubricItems := r.rubricItems)
    ensures 0 <= index < |f.rubricItems| ==>
              && |r.rubricItems| == |f.rubricItems| - 1
              && r.rubricItems == f.rubricItems[..index] + f.rubricItems[index + 1..]
              && TotalPoints(r.rubricItems) == TotalPoints(f.rubricItems) - PointValue(f.rubricItems[index])
    ensures !(0 <= index < |f.rubricItems|) ==> r == f
  {
    var items := f.rubricItems;
    if 0 <= index < |items| then
      assert items == items[..index] + ([items[index]] + items[index + 1..]);
      TotalPointsConcat(items[..index], [items[index]] + items[index + 1..]);
      TotalPointsConcat(items[..index], items[index + 1..]);
      f.(rubricItems := DropIndex(items, index, 0))
    else f.(rubricItems := DropIndex(items, index, 0))
  }

  /** The two inputs of a rubric row. */
  datatype RubricEdit = SetCriteria(criteria: string) | SetPoints(points: Option<int>)

  /** `item[field] = value` for the field the edit names. */
  function ApplyEdit(item: RubricItem, edit: RubricEdit): (r: RubricItem)
    ensures edit.SetCriteria? ==> r.criteria == edit.criteria && r.points == item.points
    ensures edit.SetPoints? ==> r.points == edit.points && r.criteria == item.criteria
  {
    match edit
    case SetCriteria(c) => item.(criteria := c)
    case SetPoints(p) => item.(points := p)
  }

  /** The rows after row `index` is edited: only that row changes. */
  function EditedItems(items: seq<RubricItem>, index: nat, edit: RubricEdit): (r: seq<RubricItem>)
    requires index < |items|
    ensures |r| == |items| && r[index] == ApplyEdit(items[index], edit)
    ensures forall j :: 0 <= j < |items| && j != index ==> r[j] == items[j]
    ensures TotalPoints(r) == TotalPoints(items) - PointValue(items[index]) + PointValue(r[index])
  {
    var r := items[index := ApplyEdit(items[index], edit)];
    assert items == items[..index] + ([items[index]] + items[index + 1..]);
    assert r == items[..index] + ([r[index]] + items[index + 1..]);
    TotalPointsConcat(items[..index], [items[index]] + items[index + 1..]);
    TotalPointsConcat(items[..index], [r[index]] + items[index + 1..]);
    TotalPointsConcat([items[index]], items[index + 1..]);
    TotalPointsConcat([r[index]], items[index + 1..]);
    r
  }

  /**
    handleRubricChange: the rows are copied into a new array and the one
    field of row `index` is written in that array.
   */
  method RubricChange(items: seq<RubricItem>, index: nat, edit: RubricEdit) returns (newItems: seq<RubricItem>)
    requires index < |items|
    ensures newItems == EditedItems(items, index, edit)
  {
    var copy := new RubricItem[|items|](j requires 0 <= j < |items| => items[j]);
    copy[index] := ApplyEdit(copy[index], edit);
    newItems := copy[..];
  }

  // ---------------------------------------------------------------------------
  // Submission checks (handleSubmit)

  datatype SubmitOutcome = Alert(message: string) | Accepted

  /** Some rubric row has a blank criterion. */
  predicate HasBlankCriterion(items: seq<RubricItem>) {
    exists i :: 0 <= i < |items| && IsBlank(items[i].criteria)
  }

  /**
    handleSubmit: the form is accepted exactly when the title and the
    description are not blank, a deadline is chosen and every criterion is
    filled in; otherwise the first failing check's alert is shown.
   */
  function Validate(f: TaskForm): (r: SubmitOutcome)
    ensures r == Accepted <==>
              !IsBlank(f.title) && !IsBlank(f.description) && f.deadline != ""
              && forall i :: 0 <= i < |f.rubricItems| ==> !IsBlank(f.rubricItems[i].criteria)
    ensures IsBlank(f.title) ==> r == Alert("Please enter a task title")
    ensures !IsBlank(f.title) && IsBlank(f.description) ==> r == Alert("Please enter a description")
    ensures !IsBlank(f.title) && !IsBlank(f.description) && f.deadline == "" ==>
              r == Alert("Please select a deadline")
    ensures !IsBlank(f.title) && !IsBlank(f.description) && f.deadline != "" && HasBlankCriterion(f.rubricItems) ==>
              r == Alert("Please fill in all rubric criteria")
  {
    if IsBlank(f.title) then Alert("Please enter a task title")
    else if IsBlank(f.description) then Alert("Please enter a description")
    else if f.deadline == "" then Alert("Please select a deadline")
    else if HasBlankCriterion(f.rubricItems) then Alert("Please fill in all rubric criteria")
    else Accepted
  }

  /**
    A freshly opened form cannot be accepted: its title is empty. In the page
    the title, description, deadline and criterion inputs also carry the HTML
    `required` attribute, so the browser stops an empty form before
    `handleSubmit` runs; this alert is what a title of only spaces gets.
   */
  lemma InitialFormRefused()
    ensures Validate(InitialForm) == Alert("Please enter a task title")
  {
  }

  // ---------------------------------------------------------------------------
  // What a user can do to the form

  /**
    The user's actions. The remove button of a rubric row is shown only while
    there is more than one row, and a row's inputs exist only for rows that
    are shown.
   */
  datatype Action =
    | Type(field: Field, value: string)
    | ClickAddTag
    | ClickRemoveTag(tag: string)
    | ClickAddCriteria
    | ClickRemoveCriteria(index: int)
    | EditCriteria(row: int, edit: RubricEdit)

  /** A tag as `handleAddTag` stores it: not empty, and its own trimmed form. */
  predicate CleanTag(t: string) {
    t != "" && Trim(t) == t
  }

  /**
    At most five tags, each non-empty and already trimmed, and at least one
    rubric row.
   */
  predicate FormInvariant(f: TaskForm) {
    && |f.tags| <= MaxTags
    && (forall i :: 0 <= i < |f.tags| ==> CleanTag(f.tags[i]))
    && |f.rubricItems| >= 1
  }

  /** Appending a clean tag to clean tags leaves only clean tags. */
  lemma AppendCleanTag(tags: seq<string>, tag: string)
    requires forall i :: 0 <= i < |tags| ==> CleanTag(tags[i])
    requires CleanTag(tag)
    ensures forall i :: 0 <= i < |tags + [tag]| ==> CleanTag((tags + [tag])[i])
  {
    forall i | 0 <= i < |tags + [tag]| ensures CleanTag((tags + [tag])[i]) {
      if i < |tags| {
        assert (tags + [tag])[i] == tags[i];
      }
    }
  }

  /** Adding a tag keeps the form invariant. */
  lemma AddTagKeepsInvariant(f: TaskForm)
    requires FormInvariant(f)
    ensures FormInvariant(AddTag(f))
  {
    var tag := Trim(f.newTag);
    if tag != "" && |f.tags| < MaxTags {
      TrimIdempotent(f.newTag);
      AppendCleanTag(f.tags, tag);
      assert AddTag(f) == f.(tags := f.tags + [tag], newTag := "");
    } else {
      assert AddTag(f) == f;
    }
  }

  /** Removing a tag keeps the form invariant. */
  lemma RemoveTagKeepsInvariant(f: TaskForm, tag: string)
    requires FormInvariant(f)
    ensures FormInvariant(RemoveTag(f, tag))
  {
    var tags := Without(f.tags, tag);
    assert RemoveTag(f, tag) == f.(tags := tags);
    forall i | 0 <= i < |tags| ensures CleanTag(tags[i]) {
      var j :| 0 <= j < |f.tags| && f.tags[j] == tags[i];
    }
  }

  /**
    One user action on the page. Removing a criterion does nothing while only
    one row is shown, and so does editing a row that is not shown; every
    action keeps the form invariant.
   */
  function Step(f: TaskForm, a: Action): (r: TaskForm)
    ensures a.ClickRemoveCriteria? && |f.rubricItems| <= 1 ==> r == f
    ensures a.EditCriteria? && !(0 <= a.row < |f.rubricItems|) ==> r == f
    ensures FormInvariant(f) ==> FormInvariant(r)
  {
    match a
    case Type(field, value) => Change(f, field, value)
    case ClickAddTag =>
      if FormInvariant(f) then AddTagKeepsInvariant(f); AddTag(f) else AddTag(f)
    case ClickRemoveTag(tag) =>
      if FormInvariant(f) then RemoveTagKeepsInvariant(f, tag); RemoveTag(f, tag) else RemoveTag(f, tag)
    case ClickAddCriteria => AddRubricItem(f)
    case ClickRemoveCriteria(i) => if |f.rubricItems| > 1 then RemoveRubricItem(f, i) else f
    case EditCriteria(i, e) =>
      if 0 <= i < |f.rubricItems| then f.(rubricItems := EditedItems(f.rubricItems, i, e)) else f
  }

  /** The actions carried out one after another: every form it passes through keeps the invariant. */
  function Run(f: TaskForm, actions: seq<Action>): (r: TaskForm)
    ensures FormInvariant(f) ==> FormInvariant(r)
    decreases |actions|
  {
    if actions == [] then f else Run(Step(f, actions[0]), actions[1..])
  }

  /**
    Whatever the user does after opening the page, there are never more than
    five tags, every tag is non-empty and trimmed, and there is always a
    rubric row.
   */
  lemma ReachableFormsKeepCaps(actions: seq<Action>)
    ensures |Run(InitialForm, actions).tags| <= MaxTags
    ensures forall i :: 0 <= i < |Run(InitialForm, actions).tags| ==> CleanTag(Run(InitialForm, actions).tags[i])
    ensures |Run(InitialForm, actions).rubricItems| >= 1
  {
    assert FormInvariant(InitialForm);
  }
}
