/**
 * The `Milestones` class: one goal, an ordered list of steps and an
 * `isActive` flag, changed only through guarded transitions. The tracker is
 * an immutable record here; every operation takes the current record and
 * returns the record it leaves behind together with either the value the
 * method returns or the error it throws.
 */
module Milestones {
  import opened Options
  import opened JsText
  import opened ResponseCleanup

  /** An abstract instant standing for a JavaScript `Date`. */
  type Timestamp = nat

  /** Upper bound, in UTF-16 code units, on the trimmed goal or step text. */
  const MaxLength: nat := 200

  /** `MilestoneStep`: `completionDate` is absent until the step is completed. */
  datatype MilestoneStep = MilestoneStep(
    description: string,
    startDate: Timestamp,
    completionDate: Option<Timestamp>,
    isComplete: bool)

  /** The three private fields; `goal`, `steps` and `isActive` double as `getGoal`, `getSteps` and `getIsActive`. */
  datatype Milestone = Milestone(goal: string, steps: seq<MilestoneStep>, isActive: bool)

  /** A new tracker: no goal (the empty string), no steps, active. */
  const Initial := Milestone("", [], true)

  /** The errors the class throws, one per distinct message. */
  datatype Error =
    | CannotBeEmpty        // "Cannot be empty"
    | TooLong              // "Description is too long (max 200 characters)"
    | AlreadyExists        // "Already exists"
    | GoalMustExist        // "Goal must exist"
    | CouldNotParse        // "Could not parse steps from response"
    | NoValidSteps         // "Response did not contain valid steps"
    | StepNotFound         // "Step not found"
    | StepAlreadyComplete  // "Step is already complete"
    | AlreadyNotActive     // "Milestone is already not active"

  /**
   * What a call leaves behind. A throwing call still has a state: it is the
   * unchanged tracker everywhere except where `completeStep` has already
   * marked its step when the closing call throws.
   */
  datatype Outcome<T> =
    | Returned(state: Milestone, value: T)
    | Threw(state: Milestone, error: Error)

  /** What the JSON decoder can yield: an array (of strings) or some other value. */
  datatype JsonValue = JsonArray(elements: seq<string>) | JsonOther

  /** Every character of the text is whitespace (the empty text included). */
  predicate Blank(text: string) {
    forall i :: 0 <= i < |text| ==> IsWhitespace(text[i])
  }

  /** Some step carries exactly this description. */
  predicate HasStep(steps: seq<MilestoneStep>, description: string) {
    exists i :: 0 <= i < |steps| && steps[i].description == description
  }

  /** The text, compared exactly and untrimmed, is the goal or a step description. */
  predicate InUse(m: Milestone, text: string) {
    m.goal == text || HasStep(m.steps, text)
  }

  /** Text the tracker accepts as a goal or a new step. */
  predicate Acceptable(m: Milestone, text: string) {
    && !Blank(text)
    && CodeUnits(Trim(text)) <= MaxLength
    && !InUse(m, text)
  }

  /** Step `i` is the first one carrying this description. */
  predicate FirstWith(steps: seq<MilestoneStep>, description: string, i: nat) {
    && i < |steps|
    && steps[i].description == description
    && forall j :: 0 <= j < i ==> steps[j].description != description
  }

  /** Every step is complete (vacuously so for no steps). */
  predicate AllComplete(steps: seq<MilestoneStep>) {
    forall i :: 0 <= i < |steps| ==> steps[i].isComplete
  }

  /** `after` is `before` with step `i` completed at `now` and nothing else touched. */
  predicate MarkedAt(before: seq<MilestoneStep>, after: seq<MilestoneStep>, i: nat, now: Timestamp) {
    && |after| == |before|
    && i < |before|
    && after[i] == MilestoneStep(before[i].description, before[i].startDate, Some(now), true)
    && forall j :: 0 <= j < |before| && j != i ==> after[j] == before[j]
  }

  /** `steps.find(s => s.description === description)`, as the index of the step found. */
  function FindStep(steps: seq<MilestoneStep>, description: string): (r: Option<nat>)
    ensures r.None? <==> !HasStep(steps, description)
    ensures r.Some? ==> FirstWith(steps, description, r.value)
  {
    if steps == [] then None
    else if steps[0].description == description then Some(0)
    else match FindStep(steps[1..], description)
      case None => None
      case Some(i) => Some(i + 1)
  }

  /**
   * `validateItem`: the error it throws, checked in this order: empty, too
   * long, already used; or `None` when the item passes.
   */
  function ValidateItem(m: Milestone, item: string): (e: Option<Error>)
    ensures e.None? <==> Acceptable(m, item)
    ensures e == Some(CannotBeEmpty) <==> Blank(item)
    ensures e == Some(TooLong) <==> !Blank(item) && CodeUnits(Trim(item)) > MaxLength
    ensures e == Some(AlreadyExists) <==> !Blank(item) && CodeUnits(Trim(item)) <= MaxLength && InUse(m, item)
  {
    if item == [] || CodeUnits(Trim(item)) == 0 then Some(CannotBeEmpty)
    else if CodeUnits(Trim(item)) > MaxLength then Some(TooLong)
    else if FindStep(m.steps, item).Some? || m.goal == item then Some(AlreadyExists)
    else None
  }

  /** `setGoal`: validate, then store and return the text exactly as given. */
  function SetGoal(m: Milestone, goal: string): (o: Outcome<string>)
    ensures o.Returned? <==> Acceptable(m, goal)
    ensures o.Returned? ==> o.value == goal && o.state == Milestone(goal, m.steps, m.isActive)
    ensures o.Threw? ==> o.state == m && Some(o.error) == ValidateItem(m, goal)
  {
    match ValidateItem(m, goal)
    case Some(e) => Threw(m, e)
    case None => Returned(m.(goal := goal), goal)
  }

  /** `setSteps`: needs a goal, validates, then appends one fresh incomplete step. */
  function SetSteps(m: Milestone, description: string, now: Timestamp): (o: Outcome<seq<MilestoneStep>>)
    ensures m.goal == [] ==> o == Threw(m, GoalMustExist)
    ensures m.goal != [] ==> (o.Returned? <==> Acceptable(m, description))
    ensures o.Threw? ==> o.state == m
    ensures o.Threw? && m.goal != [] ==> Some(o.error) == ValidateItem(m, description)
    ensures o.Returned? ==>
      && o.state.goal == m.goal
      && o.state.isActive == m.isActive
      && |o.state.steps| == |m.steps| + 1
      && o.state.steps[..|m.steps|] == m.steps
      && o.state.steps[|m.steps|] == MilestoneStep(description, now, None, false)
      && o.value == o.state.steps
  {
    if m.goal == [] then Threw(m, GoalMustExist)
    else match ValidateItem(m, description)
      case Some(e) => Threw(m, e)
      case None =>
        var steps := m.steps + [MilestoneStep(description, now, None, false)];
        Returned(m.(steps := steps), steps)
  }

  /** One fresh, incomplete step per description, in the same order. */
  function NewSteps(descriptions: seq<string>, now: Timestamp): (steps: seq<MilestoneStep>)
    ensures |steps| == |descriptions|
    ensures forall i :: 0 <= i < |steps| ==> steps[i] == MilestoneStep(descriptions[i], now, None, false)
  {
    if descriptions == [] then []
    else [MilestoneStep(descriptions[0], now, None, false)] + NewSteps(descriptions[1..], now)
  }

  /**
   * The part of `generateSteps` after the generator has answered: clean the
   * reply, decode it, and on a non-empty array replace every step. `decode`
   * stands for `JSON.parse` (`None` when it throws).
   */
  function GenerateSteps(m: Milestone, response: string, decode: string -> Option<JsonValue>, now: Timestamp)
    : (o: Outcome<seq<MilestoneStep>>)
    ensures m.goal == [] ==> o == Threw(m, GoalMustExist)
    ensures o.Threw? ==> o.state == m
    ensures m.goal != [] && decode(CleanResponse(response)).None? ==> o == Threw(m, CouldNotParse)
    ensures m.goal != [] && decode(CleanResponse(response)).Some?
            && !(decode(CleanResponse(response)).value.JsonArray? && decode(CleanResponse(response)).value.elements != [])
            ==> o == Threw(m, NoValidSteps)
    ensures m.goal != [] ==>
      (o.Returned? <==>
        decode(CleanResponse(response)).Some?
        && decode(CleanResponse(response)).value.JsonArray?
        && decode(CleanResponse(response)).value.elements != [])
    ensures o.Returned? ==>
      var items := decode(CleanResponse(response)).value.elements;
      && o.state.goal == m.goal
      && o.state.isActive == m.isActive
      && |o.state.steps| == |items|
      && (forall i :: 0 <= i < |items| ==> o.state.steps[i] == MilestoneStep(items[i], now, None, false))
      && o.value == o.state.steps
  {
    if m.goal == [] then Threw(m, GoalMustExist)
    else match decode(CleanResponse(response))
      case None => Threw(m, CouldNotParse)
      case Some(JsonOther) => Threw(m, NoValidSteps)
      case Some(JsonArray(items)) =>
        if items == [] then Threw(m, NoValidSteps)
        else
          var steps := NewSteps(items, now);
          Returned(m.(steps := steps), steps)
  }

  /** `closeMilestones`: the one-way switch from active to inactive. */
  function CloseMilestones(m: Milestone): (o: Outcome<()>)
    ensures !o.state.isActive
    ensures o.state.goal == m.goal && o.state.steps == m.steps
    ensures o.Threw? <==> !m.isActive
    ensures o.Threw? ==> o.error == AlreadyNotActive
  {
    if !m.isActive then Threw(m, AlreadyNotActive)
    else Returned(m.(isActive := false), ())
  }

  /**
   * `completeStep`: complete the first step with this description; when that
   * leaves every step complete, close the milestone, whose error (if any) is
   * thrown after the step has been marked.
   */
  function CompleteStep(m: Milestone, description: string, now: Timestamp): (o: Outcome<seq<MilestoneStep>>)
    ensures !HasStep(m.steps, description) ==> o == Threw(m, StepNotFound)
    ensures forall i: nat :: FirstWith(m.steps, description, i) && m.steps[i].isComplete ==>
      o == Threw(m, StepAlreadyComplete)
    ensures forall i: nat :: FirstWith(m.steps, description, i) && !m.steps[i].isComplete ==>
      && o.state.goal == m.goal
      && MarkedAt(m.steps, o.state.steps, i, now)
      && o.state.isActive == (m.isActive && !AllComplete(o.state.steps))
      && (o.Threw? <==> !m.isActive && AllComplete(o.state.steps))
      && (o.Threw? ==> o.error == AlreadyNotActive)
      && (o.Returned? ==> o.value == o.state.steps)
  {
    match FindStep(m.steps, description)
    case None => Threw(m, StepNotFound)
    case Some(i) =>
      if m.steps[i].isComplete then Threw(m, StepAlreadyComplete)
      else
        var step := m.steps[i];
        var marked := m.(steps := m.steps[i := step.(isComplete := true, completionDate := Some(now))]);
        if AllComplete(marked.steps) then
          match CloseMilestones(marked)
          case Threw(s, e) => Threw(s, e)
          case Returned(s, _) => Returned(s, s.steps)
        else Returned(marked, marked.steps)
  }
}
