/**
 * Properties that relate several calls of the tracker: the invariants every
 * operation keeps, the one-way life of `isActive`, and fixed runs (a step
 * completed twice, closing twice, closing automatically when the last step
 * completes, regeneration replacing the steps, the 200-code-unit boundary,
 * and a goal with one manual step that is then completed).
 */
module MilestoneProperties {
  import opened Options
  import opened JsText
  import opened ResponseCleanup
  import opened Milestones

  /** One call on the tracker, with the instant and decoder it is made with. */
  datatype Op =
    | SetGoalOp(goal: string)
    | SetStepsOp(description: string, now: Timestamp)
    | GenerateStepsOp(response: string, decode: string -> Option<JsonValue>, now: Timestamp)
    | CompleteStepOp(description: string, now: Timestamp)
    | CloseOp

  /** The tracker a call leaves behind, whether it returned or threw. */
  function Apply(m: Milestone, op: Op): Milestone {
    match op
    case SetGoalOp(g) => SetGoal(m, g).state
    case SetStepsOp(d, now) => SetSteps(m, d, now).state
    case GenerateStepsOp(r, decode, now) => GenerateSteps(m, r, decode, now).state
    case CompleteStepOp(d, now) => CompleteStep(m, d, now).state
    case CloseOp => CloseMilestones(m).state
  }

  /** The tracker after a sequence of calls, each made whether or not the previous one threw. */
  function Run(m: Milestone, ops: seq<Op>): Milestone
    decreases |ops|
  {
    if ops == [] then m else Run(Apply(m, ops[0]), ops[1..])
  }

  /** A step has a completion date exactly when it is complete. */
  predicate CompletionDated(m: Milestone) {
    forall i :: 0 <= i < |m.steps| ==> (m.steps[i].completionDate.Some? <==> m.steps[i].isComplete)
  }

  /** Steps only exist once a goal does. */
  predicate GoalBeforeSteps(m: Milestone) {
    m.steps != [] ==> m.goal != []
  }

  predicate Consistent(m: Milestone) {
    CompletionDated(m) && GoalBeforeSteps(m)
  }

  /** No two steps share a description and none repeats the goal. */
  predicate DistinctTexts(m: Milestone) {
    && (forall i, j :: 0 <= i < j < |m.steps| ==> m.steps[i].description != m.steps[j].description)
    && (forall i :: 0 <= i < |m.steps| ==> m.steps[i].description != m.goal)
  }

  lemma CompleteStepKeepsConsistent(m: Milestone, d: string, now: Timestamp)
    requires Consistent(m)
    ensures Consistent(CompleteStep(m, d, now).state)
  {
    var i := FindStep(m.steps, d);
    if i.Some? {
      assert FirstWith(m.steps, d, i.value);
    }
  }

  lemma SetGoalKeepsConsistent(m: Milestone, g: string)
    requires Consistent(m)
    ensures Consistent(SetGoal(m, g).state)
  {
    if SetGoal(m, g).Returned? {
      assert !Blank(g);
    }
  }

  lemma SetStepsKeepsConsistent(m: Milestone, d: string, now: Timestamp)
    requires Consistent(m)
    ensures Consistent(SetSteps(m, d, now).state)
  {
    var o := SetSteps(m, d, now);
    if o.Returned? {
      assert forall i :: 0 <= i < |m.steps| ==> o.state.steps[i] == m.steps[i];
    }
  }

  /** Every call keeps completion dates in step with completion and steps behind a goal. */
  lemma ApplyKeepsConsistent(m: Milestone, op: Op)
    requires Consistent(m)
    ensures Consistent(Apply(m, op))
  {
    match op
    case CompleteStepOp(d, now) => CompleteStepKeepsConsistent(m, d, now);
    case SetGoalOp(g) => SetGoalKeepsConsistent(m, g);
    case SetStepsOp(d, now) => SetStepsKeepsConsistent(m, d, now);
    case _ =>
  }

  /** No call ever makes an inactive tracker active again. */
  lemma ApplyNeverReopens(m: Milestone, op: Op)
    ensures Apply(m, op).isActive ==> m.isActive
  {
    match op
    case CompleteStepOp(d, now) =>
      var i := FindStep(m.steps, d);
      if i.Some? {
        assert FirstWith(m.steps, d, i.value);
      }
    case _ =>
  }

  /** Over any sequence of calls the invariants hold and `isActive` only goes from true to false. */
  lemma {:induction false} RunKeepsConsistent(m: Milestone, ops: seq<Op>)
    requires Consistent(m)
    ensures Consistent(Run(m, ops))
    ensures Run(m, ops).isActive ==> m.isActive
    decreases |ops|
  {
    if ops != [] {
      ApplyKeepsConsistent(m, ops[0]);
      ApplyNeverReopens(m, ops[0]);
      RunKeepsConsistent(Apply(m, ops[0]), ops[1..]);
    }
  }

  /**
   * A new tracker: consistent, with no step to add, generate or complete
   * until a goal is set, accepting exactly the acceptable text as its goal,
   * and closable once.
   */
  lemma NewTracker(text: string, response: string, decode: string -> Option<JsonValue>, now: Timestamp)
    ensures Consistent(Initial) && DistinctTexts(Initial)
    ensures SetSteps(Initial, text, now) == Threw(Initial, GoalMustExist)
    ensures GenerateSteps(Initial, response, decode, now) == Threw(Initial, GoalMustExist)
    ensures CompleteStep(Initial, text, now) == Threw(Initial, StepNotFound)
    ensures SetGoal(Initial, text).Returned? <==> !Blank(text) && CodeUnits(Trim(text)) <= MaxLength
    ensures CloseMilestones(Initial) == Returned(Milestone("", [], false), ())
  {
  }

  /** Every tracker reachable from a new one is consistent. */
  lemma ReachableConsistent(ops: seq<Op>)
    ensures Consistent(Run(Initial, ops))
  {
    RunKeepsConsistent(Initial, ops);
  }

  /** The validated calls keep goal and step texts pairwise distinct. */
  lemma ValidatedCallsKeepDistinct(m: Milestone, op: Op)
    requires DistinctTexts(m)
    requires !op.GenerateStepsOp?
    ensures DistinctTexts(Apply(m, op))
  {
    match op
    case CompleteStepOp(d, now) =>
      var i := FindStep(m.steps, d);
      if i.Some? {
        assert FirstWith(m.steps, d, i.value);
      }
    case SetStepsOp(d, now) =>
      var o := SetSteps(m, d, now);
      if o.Returned? {
        assert !HasStep(m.steps, d);
        assert forall i :: 0 <= i < |m.steps| ==> o.state.steps[i] == m.steps[i];
      }
    case SetGoalOp(g) =>
      if SetGoal(m, g).Returned? {
        assert !HasStep(m.steps, g);
      }
    case _ =>
  }

  /** Generated descriptions are not validated: a reply repeating the goal is stored as two steps. */
  lemma GenerationSkipsValidation(m: Milestone, response: string, decode: string -> Option<JsonValue>, now: Timestamp)
    requires m.goal != []
    requires decode(CleanResponse(response)) == Some(JsonArray([m.goal, m.goal]))
    ensures GenerateSteps(m, response, decode, now).Returned?
    ensures !DistinctTexts(GenerateSteps(m, response, decode, now).state)
  {
    var s := GenerateSteps(m, response, decode, now).state;
    assert s.steps[0].description == s.steps[1].description;
  }

  /** Regeneration replaces: trackers differing only in their steps end with the same steps. */
  lemma GenerationReplacesSteps(m: Milestone, steps: seq<MilestoneStep>, response: string,
                                decode: string -> Option<JsonValue>, now: Timestamp)
    ensures GenerateSteps(m, response, decode, now).Returned? ==>
            GenerateSteps(m.(steps := steps), response, decode, now) == GenerateSteps(m, response, decode, now)
  {
  }

  /**
   * A failed generation leaves the previous steps in place: an undecodable
   * reply is "could not parse", a decoded value that is no array or an empty
   * one is "did not contain valid steps".
   */
  lemma FailedGenerationKeepsSteps(m: Milestone, response: string, decode: string -> Option<JsonValue>, now: Timestamp)
    requires m.goal != []
    requires decode(CleanResponse(response)).None? || decode(CleanResponse(response)) == Some(JsonOther)
             || decode(CleanResponse(response)) == Some(JsonArray([]))
    ensures decode(CleanResponse(response)).None? ==> GenerateSteps(m, response, decode, now) == Threw(m, CouldNotParse)
    ensures decode(CleanResponse(response)).Some? ==> GenerateSteps(m, response, decode, now) == Threw(m, NoValidSteps)
    ensures GenerateSteps(m, response, decode, now).state.steps == m.steps
  {
  }

  /** Completing the same description twice: the second call finds the step already complete. */
  lemma CompleteTwice(m: Milestone, d: string, first: Timestamp, second: Timestamp)
    requires HasStep(m.steps, d)
    requires !m.steps[FindStep(m.steps, d).value].isComplete
    ensures CompleteStep(CompleteStep(m, d, first).state, d, second)
            == Threw(CompleteStep(m, d, first).state, StepAlreadyComplete)
  {
    var i := FindStep(m.steps, d).value;
    var s := CompleteStep(m, d, first).state;
    assert FirstWith(s.steps, d, i);
  }

  /** Completing the last incomplete step of an active tracker closes it without a separate call. */
  lemma CompletingLastStepCloses(m: Milestone, d: string, now: Timestamp, i: nat)
    requires m.isActive
    requires FirstWith(m.steps, d, i) && !m.steps[i].isComplete
    ensures (forall j :: 0 <= j < |m.steps| && j != i ==> m.steps[j].isComplete) <==>
            (CompleteStep(m, d, now).Returned? && !CompleteStep(m, d, now).state.isActive)
  {
    var o := CompleteStep(m, d, now);
    if forall j :: 0 <= j < |m.steps| && j != i ==> m.steps[j].isComplete {
      assert AllComplete(o.state.steps);
    } else {
      var j :| 0 <= j < |m.steps| && j != i && !m.steps[j].isComplete;
      assert !o.state.steps[j].isComplete;
    }
  }

  /**
   * On an inactive tracker, completing the last incomplete step marks it and
   * then throws from the closing call: the error comes with a changed state.
   */
  lemma CompletingOnInactiveMarksThenThrows(m: Milestone, d: string, now: Timestamp, i: nat)
    requires !m.isActive
    requires FirstWith(m.steps, d, i) && !m.steps[i].isComplete
    requires forall j :: 0 <= j < |m.steps| && j != i ==> m.steps[j].isComplete
    ensures CompleteStep(m, d, now).Threw?
    ensures CompleteStep(m, d, now).error == AlreadyNotActive
    ensures CompleteStep(m, d, now).state.steps[i].isComplete
    ensures CompleteStep(m, d, now).state != m
  {
    var o := CompleteStep(m, d, now);
    assert AllComplete(o.state.steps);
    assert o.state.steps[i] != m.steps[i];
  }

  /** Closing succeeds exactly once. */
  lemma CloseTwice(m: Milestone)
    ensures CloseMilestones(m).Returned? <==> m.isActive
    ensures CloseMilestones(CloseMilestones(m).state) == Threw(CloseMilestones(m).state, AlreadyNotActive)
  {
  }

  /** Closing does not lock the tracker: an inactive one with a goal still accepts new steps. */
  lemma InactiveStillAcceptsSteps(m: Milestone, d: string, now: Timestamp)
    requires !m.isActive && m.goal != []
    requires Acceptable(m, d)
    ensures SetSteps(m, d, now).Returned?
    ensures !SetSteps(m, d, now).state.isActive
  {
  }

  /** Text made of Basic Multilingual Plane characters with no whitespace at either end is measured by its own length. */
  lemma PlainTextMeasure(text: string)
    requires text != [] && !IsWhitespace(text[0]) && !IsWhitespace(text[|text| - 1])
    requires forall i :: 0 <= i < |text| ==> (text[i] as int) < 0x1_0000
    ensures Trim(text) == text
    ensures !Blank(text)
    ensures CodeUnits(Trim(text)) == |text|
  {
    assert LeadingWhitespace(text) == 0;
    assert |Trim(text)| == |text| by {
      assert !IsWhitespace(text[|text| - 1]);
    }
  }

  /** 200 code units are accepted, 201 are too long, whatever the text is checked against. */
  lemma LengthBoundary(m: Milestone, text: string)
    requires text != [] && !IsWhitespace(text[0]) && !IsWhitespace(text[|text| - 1])
    requires forall i :: 0 <= i < |text| ==> (text[i] as int) < 0x1_0000
    requires !InUse(m, text)
    ensures |text| == 200 ==> SetGoal(m, text) == Returned(m.(goal := text), text)
    ensures |text| == 201 ==> SetGoal(m, text) == Threw(m, TooLong)
    ensures m.goal != [] && |text| == 201 ==> SetSteps(m, text, 0) == Threw(m, TooLong)
  {
    PlainTextMeasure(text);
  }

  /** Characters outside the Basic Multilingual Plane are two code units each, and no such character is whitespace. */
  lemma AstralTextMeasure(text: string)
    requires text != [] && forall i :: 0 <= i < |text| ==> !InBasicPlane(text[i])
    ensures Trim(text) == text
    ensures !Blank(text)
    ensures CodeUnits(Trim(text)) == 2 * |text|
  {
    assert !IsWhitespace(text[0]) && !IsWhitespace(text[|text| - 1]);
    TrimOfTrimmed(text);
    EraseNoneDropped(text, InBasicPlane);
  }

  /** The limit counts code units: 100 characters outside the Basic Multilingual Plane fit, 101 are too long. */
  lemma AstralLengthBoundary(m: Milestone, text: string)
    requires text != [] && forall i :: 0 <= i < |text| ==> !InBasicPlane(text[i])
    requires !InUse(m, text)
    ensures ValidateItem(m, text) == None <==> |text| <= 100
    ensures ValidateItem(m, text) == Some(TooLong) <==> |text| > 100
  {
    AstralTextMeasure(text);
  }

  /** Surrounding whitespace is not counted but is stored: the goal keeps the text as given. */
  lemma GoalStoredUntrimmed(m: Milestone, core: string)
    requires core != [] && !IsWhitespace(core[0]) && !IsWhitespace(core[|core| - 1])
    requires forall i :: 0 <= i < |core| ==> (core[i] as int) < 0x1_0000
    requires |core| == 200
    requires !InUse(m, " " + core + " ")
    ensures SetGoal(m, " " + core + " ").Returned?
    ensures SetGoal(m, " " + core + " ").state.goal == " " + core + " "
  {
    var text := " " + core + " ";
    PlainTextMeasure(core);
    assert LeadingWhitespace(text) == 1;
    assert Trim(text) == core by {
      var r := Trim(text);
      assert r == text[1..1 + |r|];
      assert text[|core|] == core[|core| - 1];
      assert |r| == |core|;
    }
  }

  lemma KnittingGoalIsPlain()
    ensures forall i :: 0 <= i < |"Learn to knit"| ==> ("Learn to knit"[i] as int) < 0x1_0000
    ensures !IsWhitespace('L') && !IsWhitespace('t')
  {
  }

  lemma KnittingGoalMeasured()
    ensures Trim("Learn to knit") == "Learn to knit"
    ensures CodeUnits(Trim("Learn to knit")) == 13
  {
    KnittingGoalIsPlain();
    PlainTextMeasure("Learn to knit");
  }

  /** Unused text with no whitespace at its start, measured within the limit, passes validation. */
  lemma MeasuredTextValid(m: Milestone, text: string)
    requires text != [] && !IsWhitespace(text[0])
    requires CodeUnits(Trim(text)) <= MaxLength
    requires !InUse(m, text)
    ensures ValidateItem(m, text) == None
  {
  }

  lemma KnittingGoalStartsWithLetter()
    ensures "Learn to knit" != [] && !IsWhitespace("Learn to knit"[0])
    ensures !InUse(Initial, "Learn to knit")
  {
    assert "Learn to knit"[0] == 'L';
  }

  lemma KnittingGoalValid()
    ensures ValidateItem(Initial, "Learn to knit") == None
  {
    KnittingGoalMeasured();
    KnittingGoalStartsWithLetter();
    MeasuredTextValid(Initial, "Learn to knit");
  }

  lemma KnittingGoalAccepted()
    ensures SetGoal(Initial, "Learn to knit") == Returned(Milestone("Learn to knit", [], true), "Learn to knit")
  {
    KnittingGoalValid();
  }

  lemma KnittingStepAdded()
    ensures SetSteps(Milestone("Learn to knit", [], true), "Buy yarn", 1)
            == Returned(Milestone("Learn to knit", [MilestoneStep("Buy yarn", 1, None, false)], true),
                        [MilestoneStep("Buy yarn", 1, None, false)])
  {
    PlainTextMeasure("Buy yarn");
  }

  lemma KnittingStepCompleted()
    ensures CompleteStep(Milestone("Learn to knit", [MilestoneStep("Buy yarn", 1, None, false)], true), "Buy yarn", 2)
            == Returned(Milestone("Learn to knit", [MilestoneStep("Buy yarn", 1, Some(2), true)], false),
                        [MilestoneStep("Buy yarn", 1, Some(2), true)])
  {
    var steps := [MilestoneStep("Buy yarn", 1, None, false)];
    var done := [MilestoneStep("Buy yarn", 1, Some(2), true)];
    assert FirstWith(steps, "Buy yarn", 0);
    var o := CompleteStep(Milestone("Learn to knit", steps, true), "Buy yarn", 2);
    assert MarkedAt(steps, o.state.steps, 0, 2);
    assert o.state.steps == done;
    assert AllComplete(done);
  }

  /** Goal, one manual step, completing it: the single-step milestone closes at once. */
  lemma KnittingRoundTrip()
    ensures var g := SetGoal(Initial, "Learn to knit");
            var a := SetSteps(g.state, "Buy yarn", 1);
            var c := CompleteStep(a.state, "Buy yarn", 2);
            && g.Returned? && a.Returned? && c.Returned?
            && a.value == [MilestoneStep("Buy yarn", 1, None, false)]
            && c.value == [MilestoneStep("Buy yarn", 1, Some(2), true)]
            && !c.state.isActive
  {
    KnittingGoalAccepted();
    KnittingStepAdded();
    KnittingStepCompleted();
  }
}
