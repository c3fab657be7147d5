/** The decision pipeline of src/main.ts: derive the user inputs, narrow the
    head commit's check runs to the ones in scope, classify them, and turn the
    classification into the effects the action performs (wait, assign,
    request reviewers). Every API call is replaced by its answer or by an
    effect value; `process.exit` becomes an outcome value. */
module Action {
  import opened Wrappers
  import opened Sequences
  import opened Inputs
  import opened GitHub

  /** Every conclusion a completed check run can have; the default set of
      acceptable conclusions. */
  const AllValidCheckConclusions: seq<string> :=
    ["success", "failure", "neutral", "cancelled", "skipped", "timed_out", "action_required"]

  /** The workflow inputs as the runner hands them over. The delay is the
      integer `parseInt` reads from a non-empty input, or None when the input
      is empty. */
  datatype RawInputs = RawInputs(
    acceptableConclusions: string,
    unacceptableConclusions: string,
    assignees: string,
    reviewers: string,
    requiredChecksOnly: string,
    delayBeforeRequestingReviews: Option<int>)

  datatype UserInputs = UserInputs(
    acceptableConclusions: seq<string>,
    unacceptableConclusions: seq<string>,
    assignees: seq<string>,
    reviewers: seq<string>,
    requiredChecksOnly: bool,
    delayBeforeRequestingReviews: int)

  /** A boolean input that defaults to "true": set unless given as anything
      other than the exact text "true". */
  function IsTrueOrUnset(input: string): (b: bool)
    ensures b <==> input == "" || input == "true"
  {
    GetInputWithDefault(input, "true") == "true"
  }

  /** `gatherInputs`: every list input falls back to its default when blank
      (all conclusions are acceptable, none unacceptable, nobody to assign or
      ask for review); "required checks only" holds unless the input is
      given and differs from "true"; the delay defaults to zero. */
  function GatherInputs(raw: RawInputs): (u: UserInputs)
    ensures u.requiredChecksOnly <==> raw.requiredChecksOnly == "" || raw.requiredChecksOnly == "true"
    ensures IsBlank(raw.acceptableConclusions) ==> u.acceptableConclusions == AllValidCheckConclusions
    ensures IsBlank(raw.unacceptableConclusions) ==> u.unacceptableConclusions == []
    ensures IsBlank(raw.assignees) ==> u.assignees == []
    ensures IsBlank(raw.reviewers) ==> u.reviewers == []
    ensures !IsBlank(raw.acceptableConclusions) ==> forall x :: x in u.acceptableConclusions ==> IsCsvItem(x)
    ensures !IsBlank(raw.unacceptableConclusions) ==> forall x :: x in u.unacceptableConclusions ==> IsCsvItem(x)
    ensures forall x :: x in u.assignees ==> IsCsvItem(x)
    ensures forall x :: x in u.reviewers ==> IsCsvItem(x)
    ensures !IsBlank(raw.acceptableConclusions) ==> ParsedFrom(u.acceptableConclusions, raw.acceptableConclusions)
    ensures !IsBlank(raw.unacceptableConclusions) ==> ParsedFrom(u.unacceptableConclusions, raw.unacceptableConclusions)
    ensures !IsBlank(raw.assignees) ==> ParsedFrom(u.assignees, raw.assignees)
    ensures !IsBlank(raw.reviewers) ==> ParsedFrom(u.reviewers, raw.reviewers)
    ensures raw.delayBeforeRequestingReviews.None? ==> u.delayBeforeRequestingReviews == 0
    ensures raw.delayBeforeRequestingReviews.Some? ==>
              u.delayBeforeRequestingReviews == raw.delayBeforeRequestingReviews.value
  {
    GetInputArrayParses(raw.acceptableConclusions, AllValidCheckConclusions);
    GetInputArrayParses(raw.unacceptableConclusions, []);
    GetInputArrayParses(raw.assignees, []);
    GetInputArrayParses(raw.reviewers, []);
    UserInputs(
      GetInputArray(raw.acceptableConclusions, AllValidCheckConclusions),
      GetInputArray(raw.unacceptableConclusions, []),
      GetInputArray(raw.assignees, []),
      GetInputArray(raw.reviewers, []),
      IsTrueOrUnset(raw.requiredChecksOnly),
      raw.delayBeforeRequestingReviews.GetOr(0))
  }

  /** Round trip of the inputs: lists of CSV items, each written as CSV,
      are read back exactly, every list from its own input; only an empty
      acceptable list falls back to its default, all conclusions. */
  lemma GatherInputsOfLists(acceptable: seq<string>, unacceptable: seq<string>, assignees: seq<string>,
                            reviewers: seq<string>, requiredChecksOnly: string, delay: Option<int>)
    requires forall x :: x in acceptable ==> IsCsvItem(x)
    requires forall x :: x in unacceptable ==> IsCsvItem(x)
    requires forall x :: x in assignees ==> IsCsvItem(x)
    requires forall x :: x in reviewers ==> IsCsvItem(x)
    ensures GatherInputs(RawInputs(Join(acceptable), Join(unacceptable), Join(assignees), Join(reviewers),
                                   requiredChecksOnly, delay))
         == UserInputs(if acceptable == [] then AllValidCheckConclusions else acceptable,
                       unacceptable, assignees, reviewers,
                       requiredChecksOnly == "" || requiredChecksOnly == "true", delay.GetOr(0))
  {
    GetInputArrayOfList(acceptable, AllValidCheckConclusions);
    GetInputArrayOfList(unacceptable, []);
    GetInputArrayOfList(assignees, []);
    GetInputArrayOfList(reviewers, []);
  }

  /** Whether a check run is in scope: every run when the required names are
      unknown, otherwise the runs whose name is required. */
  function IsRequiredBy(requiredCheckNames: Option<seq<string>>): CheckRun -> bool {
    (c: CheckRun) => requiredCheckNames.None? || c.name in requiredCheckNames.value
  }

  /** The filter of `getChecksToCheck`: all check runs unless only required
      checks count and the required names are known; then exactly the runs
      whose name is required, in their original order. */
  function SelectChecks(allCheckRuns: seq<CheckRun>, requiredChecksOnly: bool,
                        requiredCheckNames: Option<seq<string>>): (selected: seq<CheckRun>)
    ensures !requiredChecksOnly || requiredCheckNames.None? ==> selected == allCheckRuns
    ensures requiredChecksOnly && requiredCheckNames.Some? ==>
              && IsSubsequence(selected, allCheckRuns)
              && (forall c :: c in selected ==> c in allCheckRuns && c.name in requiredCheckNames.value)
              && (forall i :: 0 <= i < |allCheckRuns| && allCheckRuns[i].name in requiredCheckNames.value ==>
                    multiset(selected)[allCheckRuns[i]] == multiset(allCheckRuns)[allCheckRuns[i]])
  {
    if requiredChecksOnly then
      var p := IsRequiredBy(requiredCheckNames);
      FilterKeepsAll(p, allCheckRuns);
      FilterIsSubsequence(p, allCheckRuns);
      assert forall i :: 0 <= i < |allCheckRuns| ==>
               multiset(Filter(p, allCheckRuns))[allCheckRuns[i]] ==
                 if p(allCheckRuns[i]) then multiset(allCheckRuns)[allCheckRuns[i]] else 0 by {
        forall i | 0 <= i < |allCheckRuns| {
          FilterCounts(p, allCheckRuns, allCheckRuns[i]);
        }
      }
      Filter(p, allCheckRuns)
    else
      allCheckRuns
  }

  predicate IsCompleted(c: CheckRun) {
    c.status == "completed"
  }

  /** The conclusion a check run is judged by: a missing one counts as "". */
  function ConclusionOf(c: CheckRun): string {
    c.conclusion.GetOr("")
  }

  function ConcludedIn(conclusions: seq<string>): CheckRun -> bool {
    (c: CheckRun) => ConclusionOf(c) in conclusions
  }

  /** What `computeCheckRunStatus` decides: it stops the run early when some
      check has not completed, and otherwise reports both verdicts. */
  datatype CheckRunStatus = Incomplete | Classified(acceptable: bool, unacceptable: bool)

  /** `computeCheckRunStatus`: incomplete exactly when some selected check is
      not completed; otherwise acceptable exactly when every check's conclusion
      is acceptable, and unacceptable exactly when some check's conclusion is
      unacceptable. */
  function ComputeCheckRunStatus(checksToCheck: seq<CheckRun>, acceptableConclusions: seq<string>,
                                 unacceptableConclusions: seq<string>): (status: CheckRunStatus)
    ensures status.Incomplete? <==> exists i :: 0 <= i < |checksToCheck| && !IsCompleted(checksToCheck[i])
    ensures status.Classified? ==>
              (status.acceptable <==>
                 forall i :: 0 <= i < |checksToCheck| ==> ConclusionOf(checksToCheck[i]) in acceptableConclusions)
    ensures status.Classified? ==>
              (status.unacceptable <==>
                 exists i :: 0 <= i < |checksToCheck| && ConclusionOf(checksToCheck[i]) in unacceptableConclusions)
  {
    var completed := Filter(IsCompleted, checksToCheck);
    FilterKeepsAll(IsCompleted, checksToCheck);
    if |checksToCheck| != |completed| then
      Incomplete
    else
      var acceptableChecks := Filter(ConcludedIn(acceptableConclusions), completed);
      var unacceptableChecks := Filter(ConcludedIn(unacceptableConclusions), completed);
      FilterKeepsAll(ConcludedIn(acceptableConclusions), completed);
      FilterNonEmpty(ConcludedIn(unacceptableConclusions), completed);
      Classified(|completed| == |acceptableChecks|, |unacceptableChecks| > 0)
  }

  /** A side effect of the action on the pull request. */
  datatype Effect = Wait(seconds: int) | Assign(assignees: seq<string>) | RequestReviewers(reviewers: seq<string>)

  /** `assignAndRequestReviewers`: assign when there are assignees, request
      reviews when there are reviewers, each decided on its own, assignment
      first. */
  function AssignAndRequestReviewers(assignees: seq<string>, reviewers: seq<string>): (effects: seq<Effect>)
    ensures Assign(assignees) in effects <==> |assignees| > 0
    ensures RequestReviewers(reviewers) in effects <==> |reviewers| > 0
    ensures forall e :: e in effects ==> e == Assign(assignees) || e == RequestReviewers(reviewers)
    ensures |effects| == (if |assignees| > 0 then 1 else 0) + (if |reviewers| > 0 then 1 else 0)
    ensures |effects| == 2 ==> effects == [Assign(assignees), RequestReviewers(reviewers)]
  {
    (if |assignees| > 0 then [Assign(assignees)] else [])
    + (if |reviewers| > 0 then [RequestReviewers(reviewers)] else [])
  }

  /** `takeAction`, in priority order: all acceptable with a non-zero delay
      waits and then assigns and requests reviews; otherwise any unacceptable
      check assigns and requests reviews at once; otherwise nothing happens,
      which includes the all-acceptable case when the delay is zero. */
  function TakeAction(isAcceptable: bool, delayBeforeRequestingReviews: int, assignees: seq<string>,
                      reviewers: seq<string>, isUnacceptable: bool): (effects: seq<Effect>)
    ensures (exists i :: 0 <= i < |effects| && effects[i].Wait?) <==> isAcceptable && delayBeforeRequestingReviews != 0
    ensures forall i :: 0 <= i < |effects| && effects[i].Wait? ==>
              i == 0 && effects[i] == Wait(delayBeforeRequestingReviews)
    ensures var acts := (isAcceptable && delayBeforeRequestingReviews != 0) || isUnacceptable;
      && (Assign(assignees) in effects <==> acts && |assignees| > 0)
      && (RequestReviewers(reviewers) in effects <==> acts && |reviewers| > 0)
      && (!acts ==> effects == [])
    ensures forall e :: e in effects ==>
              e.Wait? || e == Assign(assignees) || e == RequestReviewers(reviewers)
    ensures var acts := (isAcceptable && delayBeforeRequestingReviews != 0) || isUnacceptable;
      |effects| == (if isAcceptable && delayBeforeRequestingReviews != 0 then 1 else 0)
                   + (if acts && |assignees| > 0 then 1 else 0)
                   + (if acts && |reviewers| > 0 then 1 else 0)
    ensures RequestReviewers(reviewers) in effects ==> effects[|effects| - 1] == RequestReviewers(reviewers)
  {
    if isAcceptable && delayBeforeRequestingReviews != 0 then
      var rest := AssignAndRequestReviewers(assignees, reviewers);
      var effects := [Wait(delayBeforeRequestingReviews)] + rest;
      assert effects[0].Wait?;
      assert forall i :: 1 <= i < |effects| ==> effects[i] == rest[i - 1] && rest[i - 1] in rest;
      assert |rest| > 0 ==> effects[|effects| - 1] == rest[|rest| - 1];
      effects
    else if isUnacceptable then
      var rest := AssignAndRequestReviewers(assignees, reviewers);
      assert forall i :: 0 <= i < |rest| ==> rest[i] in rest;
      rest
    else
      []
  }

  /** How one effect went: done, or failed and only logged as a warning. */
  datatype EffectReport = Done(effect: Effect) | Warned(effect: Effect)

  /** Performing the effects in order. A failing assignment or review request
      is caught and reported as a warning; it never stops the effects after it.
      The reports only feed the log: the run's `Outcome`, and so its
      `ExitCode`, is decided before any effect is performed. */
  function Perform(effects: seq<Effect>, fails: Effect -> bool): (reports: seq<EffectReport>)
    ensures |reports| == |effects|
    ensures forall i :: 0 <= i < |effects| ==> reports[i].effect == effects[i]
    ensures forall i :: 0 <= i < |effects| ==>
              (reports[i].Warned? <==> !effects[i].Wait? && fails(effects[i]))
  {
    if |effects| == 0 then []
    else
      var e := effects[0];
      [if !e.Wait? && fails(e) then Warned(e) else Done(e)] + Perform(effects[1..], fails)
  }

  /** Everything the run reads from the outside world. */
  datatype Environment = Environment(
    run: WorkflowRun,
    pulls: seq<PullRequest>,
    inputs: RawInputs,
    checkRuns: seq<CheckRun>,
    protection: string -> ProtectionResponse)

  /** How a run ends: the pull request cannot be found (the run fails), some
      check has not completed (the process exits early), or the effects to
      perform on the resolved pull request. */
  datatype Outcome = Failed(error: PrNotFound) | ExitedIncomplete | Completed(pr: PullRequest, effects: seq<Effect>)

  /** The process exit code of an outcome. */
  function ExitCode(o: Outcome): (code: int)
    ensures code == 1 <==> o.Failed?
    ensures code == 0 <==> !o.Failed?
  {
    match o
    case Failed(_) => 1
    case _ => 0
  }

  /** The check runs `getChecksToCheck` keeps: every check run unless only
      required checks count and the required names are known; then, in their
      original order, exactly the runs with a required name. */
  function ChecksToCheck(env: Environment, pr: PullRequest, inputs: UserInputs): (checks: seq<CheckRun>)
    ensures !inputs.requiredChecksOnly ==> checks == env.checkRuns
    ensures GetRequiredCheckNames(pr, env.protection).None? ==> checks == env.checkRuns
    ensures forall c :: c in checks ==> c in env.checkRuns
    ensures inputs.requiredChecksOnly && GetRequiredCheckNames(pr, env.protection).Some? ==>
              var names := GetRequiredCheckNames(pr, env.protection).value;
              && IsSubsequence(checks, env.checkRuns)
              && (forall c :: c in checks ==> c.name in names)
              && (forall i :: 0 <= i < |env.checkRuns| && env.checkRuns[i].name in names ==>
                    multiset(checks)[env.checkRuns[i]] == multiset(env.checkRuns)[env.checkRuns[i]])
  {
    var names := if inputs.requiredChecksOnly then GetRequiredCheckNames(pr, env.protection) else None;
    SelectChecks(env.checkRuns, inputs.requiredChecksOnly, names)
  }

  /** `run`: resolve the pull request, gather the inputs, select and classify
      the checks, and take action. */
  function Run(env: Environment): (o: Outcome)
    ensures o.Failed? <==> FetchPr(env.run, env.pulls).result.Failure?
    ensures o.Failed? ==> o.error == PrNotFound(env.run.displayTitle)
    ensures o.Completed? ==> Success(o.pr) == FetchPr(env.run, env.pulls).result
  {
    var lookup := GetPr(Unset, env.run, env.pulls);
    match lookup.result
    case Failure(e) => Failed(e)
    case Success(pr) =>
      var inputs := GatherInputs(env.inputs);
      var checks := ChecksToCheck(env, pr, inputs);
      match ComputeCheckRunStatus(checks, inputs.acceptableConclusions, inputs.unacceptableConclusions)
      case Incomplete => ExitedIncomplete
      case Classified(acceptable, unacceptable) =>
        Completed(pr, TakeAction(acceptable, inputs.delayBeforeRequestingReviews,
                                 inputs.assignees, inputs.reviewers, unacceptable))
  }

  /** When the required names cannot be determined the run behaves exactly
      as if only-required-checks were switched off: every check is in scope. */
  lemma UnknownRequiredNamesKeepAllChecks(env: Environment)
    requires FetchPr(env.run, env.pulls).result.Success?
    requires GetRequiredCheckNames(FetchPr(env.run, env.pulls).result.value, env.protection).None?
    ensures Run(env) == Run(env.(inputs := env.inputs.(requiredChecksOnly := "false")))
  {
  }

  /** A check in scope that has not completed ends the run early, with exit
      code 0 and no effect at all. */
  lemma PendingCheckStopsRun(env: Environment, i: nat)
    ensures FetchPr(env.run, env.pulls).result.Success? ==>
              var checks := ChecksToCheck(env, FetchPr(env.run, env.pulls).result.value, GatherInputs(env.inputs));
              i < |checks| && !IsCompleted(checks[i]) ==> Run(env) == ExitedIncomplete && ExitCode(Run(env)) == 0
  {
  }

  /** The run changes the pull request only when every check in scope has
      completed and either all are acceptable with a non-zero delay, or some
      are unacceptable. */
  lemma RunActsOnlyWhenWarranted(env: Environment)
    ensures Run(env).Completed? && |Run(env).effects| > 0 ==>
      var inputs := GatherInputs(env.inputs);
      var checks := ChecksToCheck(env, Run(env).pr, inputs);
      && (forall i :: 0 <= i < |checks| ==> IsCompleted(checks[i]))
      && ((&& inputs.delayBeforeRequestingReviews != 0
           && forall i :: 0 <= i < |checks| ==> ConclusionOf(checks[i]) in inputs.acceptableConclusions)
          || exists i :: 0 <= i < |checks| && ConclusionOf(checks[i]) in inputs.unacceptableConclusions)
  {
    if Run(env).Completed? && |Run(env).effects| > 0 {
      var pr := Run(env).pr;
      var inputs := GatherInputs(env.inputs);
      var checks := ChecksToCheck(env, pr, inputs);
      var status := ComputeCheckRunStatus(checks, inputs.acceptableConclusions, inputs.unacceptableConclusions);
      assert GetPr(Unset, env.run, env.pulls).result == Success(pr);
      assert status.Classified?;
      var effects := TakeAction(status.acceptable, inputs.delayBeforeRequestingReviews,
                                inputs.assignees, inputs.reviewers, status.unacceptable);
      assert Run(env).effects == effects;
      assert (status.acceptable && inputs.delayBeforeRequestingReviews != 0) || status.unacceptable;
    }
  }

  /** Conversely, once the pull request resolves and every check in scope has
      completed, a warranted run (all acceptable with a non-zero delay, or
      some unacceptable) assigns exactly when there are assignees and
      requests reviews exactly when there are reviewers. */
  lemma RunActsWhenWarranted(env: Environment)
    ensures FetchPr(env.run, env.pulls).result.Success? ==>
      var pr := FetchPr(env.run, env.pulls).result.value;
      var inputs := GatherInputs(env.inputs);
      var checks := ChecksToCheck(env, pr, inputs);
      (&& (forall i :: 0 <= i < |checks| ==> IsCompleted(checks[i]))
       && ((&& inputs.delayBeforeRequestingReviews != 0
            && forall i :: 0 <= i < |checks| ==> ConclusionOf(checks[i]) in inputs.acceptableConclusions)
           || exists i :: 0 <= i < |checks| && ConclusionOf(checks[i]) in inputs.unacceptableConclusions))
      ==> && Run(env).Completed?
          && Run(env).effects
             == TakeAction(ComputeCheckRunStatus(checks, inputs.acceptableConclusions, inputs.unacceptableConclusions).acceptable,
                           inputs.delayBeforeRequestingReviews, inputs.assignees, inputs.reviewers,
                           ComputeCheckRunStatus(checks, inputs.acceptableConclusions, inputs.unacceptableConclusions).unacceptable)
          && (Assign(inputs.assignees) in Run(env).effects <==> |inputs.assignees| > 0)
          && (RequestReviewers(inputs.reviewers) in Run(env).effects <==> |inputs.reviewers| > 0)
  {
    var fetched := FetchPr(env.run, env.pulls).result;
    if fetched.Success? {
      var pr := fetched.value;
      var inputs := GatherInputs(env.inputs);
      var checks := ChecksToCheck(env, pr, inputs);
      var status := ComputeCheckRunStatus(checks, inputs.acceptableConclusions, inputs.unacceptableConclusions);
      assert GetPr(Unset, env.run, env.pulls).result == Success(pr);
      if status.Classified? {
        var effects := TakeAction(status.acceptable, inputs.delayBeforeRequestingReviews,
                                  inputs.assignees, inputs.reviewers, status.unacceptable);
        assert Run(env) == Completed(pr, effects);
      }
    }
  }

  /** No check in scope: trivially all acceptable and none unacceptable. */
  lemma EmptySelectionIsAcceptable(acceptableConclusions: seq<string>, unacceptableConclusions: seq<string>)
    ensures ComputeCheckRunStatus([], acceptableConclusions, unacceptableConclusions) == Classified(true, false)
  {
  }

  /** Required names ["build", "lint"] against runs named build, lint and docs
      keep exactly the build and lint runs. */
  lemma SelectRequiredExample(build: CheckRun, lint: CheckRun, docs: CheckRun)
    requires build.name == "build" && lint.name == "lint" && docs.name == "docs"
    ensures SelectChecks([build, lint, docs], true, Some(["build", "lint"])) == [build, lint]
  {
    var p := IsRequiredBy(Some(["build", "lint"]));
    assert p(build) && p(lint) && !p(docs);
    assert [build, lint, docs][1..] == [lint, docs];
    assert [lint, docs][1..] == [docs];
    assert [docs][1..] == [];
    assert Filter(p, [docs]) == [];
    assert Filter(p, [lint, docs]) == [lint];
    assert Filter(p, [build, lint, docs]) == [build, lint];
  }

  /** A run whose payload names `pr`, with one check run, one assignee, one
      reviewer, and only-required-checks switched off. */
  function ScenarioEnv(checkRun: CheckRun, acceptable: string, unacceptable: string, assignee: string,
                       reviewer: string, delay: Option<int>, pr: PullRequest): Environment {
    Environment(
      WorkflowRun([pr], "", ""),
      [],
      RawInputs(acceptable, unacceptable, assignee, reviewer, "false", delay),
      [checkRun],
      _ => LookupFailed)
  }

  /** One completed check whose conclusion is the one acceptable conclusion,
      with a non-zero delay: wait for the delay, then assign and request
      reviews. */
  lemma AcceptableScenario(pr: PullRequest, name: string, conclusion: string,
                           assignee: string, reviewer: string, delay: int)
    requires IsCsvItem(conclusion) && IsCsvItem(assignee) && IsCsvItem(reviewer) && delay != 0
    ensures Run(ScenarioEnv(CheckRun(name, "completed", Some(conclusion)), conclusion, "",
                            assignee, reviewer, Some(delay), pr))
         == Completed(pr, [Wait(delay), Assign([assignee]), RequestReviewers([reviewer])])
  {
    var ci := CheckRun(name, "completed", Some(conclusion));
    var env := ScenarioEnv(ci, conclusion, "", assignee, reviewer, Some(delay), pr);
    var inputs := UserInputs([conclusion], [], [assignee], [reviewer], false, delay);
    ScenarioInputs(conclusion, "", assignee, reviewer, Some(delay), [conclusion], inputs);
    assert ComputeCheckRunStatus([ci], [conclusion], []) == Classified(true, false);
    DispatchBoth(true, delay, assignee, reviewer, false);
  }

  /** Dispatch with one assignee and one reviewer. */
  lemma DispatchBoth(isAcceptable: bool, delay: int, assignee: string, reviewer: string, isUnacceptable: bool)
    requires assignee != [] && reviewer != []
    ensures isAcceptable && delay != 0 ==>
              TakeAction(isAcceptable, delay, [assignee], [reviewer], isUnacceptable)
              == [Wait(delay), Assign([assignee]), RequestReviewers([reviewer])]
    ensures !(isAcceptable && delay != 0) && isUnacceptable ==>
              TakeAction(isAcceptable, delay, [assignee], [reviewer], isUnacceptable)
              == [Assign([assignee]), RequestReviewers([reviewer])]
  {
    var effects := AssignAndRequestReviewers([assignee], [reviewer]);
    assert effects == [Assign([assignee]), RequestReviewers([reviewer])];
    assert [Wait(delay)] + effects == [Wait(delay), Assign([assignee]), RequestReviewers([reviewer])];
  }

  /** One completed check whose conclusion is unacceptable (and, by default,
      also acceptable): assign and request reviews at once, without waiting. */
  lemma UnacceptableScenario(pr: PullRequest, name: string, conclusion: string,
                             assignee: string, reviewer: string)
    requires IsCsvItem(conclusion) && IsCsvItem(assignee) && IsCsvItem(reviewer)
    ensures Run(ScenarioEnv(CheckRun(name, "completed", Some(conclusion)), "", conclusion,
                            assignee, reviewer, None, pr))
         == Completed(pr, [Assign([assignee]), RequestReviewers([reviewer])])
  {
    var ci := CheckRun(name, "completed", Some(conclusion));
    var env := ScenarioEnv(ci, "", conclusion, assignee, reviewer, None, pr);
    var inputs := UserInputs(AllValidCheckConclusions, [conclusion], [assignee], [reviewer], false, 0);
    ScenarioInputs("", conclusion, assignee, reviewer, None, AllValidCheckConclusions, inputs);
    assert ChecksToCheck(env, pr, inputs) == [ci];
    var status := ComputeCheckRunStatus([ci], AllValidCheckConclusions, [conclusion]);
    assert status.Classified? && status.unacceptable;
    DispatchBoth(status.acceptable, 0, assignee, reviewer, true);
  }

  /** The inputs of the scenarios: one assignee, one reviewer, only required
      checks off, and the given conclusion lists and delay. */
  lemma ScenarioInputs(acceptable: string, unacceptable: string, assignee: string, reviewer: string,
                       delay: Option<int>, acceptableItems: seq<string>, inputs: UserInputs)
    requires acceptable == "" ==> acceptableItems == AllValidCheckConclusions
    requires acceptable != "" ==> acceptableItems == [acceptable] && IsCsvItem(acceptable)
    requires unacceptable != "" ==> IsCsvItem(unacceptable)
    requires IsCsvItem(assignee) && IsCsvItem(reviewer)
    requires inputs == UserInputs(acceptableItems, if unacceptable == "" then [] else [unacceptable],
                                  [assignee], [reviewer], false, delay.GetOr(0))
    ensures GatherInputs(RawInputs(acceptable, unacceptable, assignee, reviewer, "false", delay)) == inputs
  {
    var u := GatherInputs(RawInputs(acceptable, unacceptable, assignee, reviewer, "false", delay));
    if acceptable != "" {
      SingleItemInput(acceptable, AllValidCheckConclusions);
    }
    assert u.acceptableConclusions == acceptableItems;
    if unacceptable != "" {
      SingleItemInput(unacceptable, []);
    }
    assert u.unacceptableConclusions == inputs.unacceptableConclusions;
    SingleItemInput(assignee, []);
    SingleItemInput(reviewer, []);
  }

  /** One check still in progress: no action, exit code 0. */
  lemma InProgressScenario(pr: PullRequest, name: string)
    ensures Run(ScenarioEnv(CheckRun(name, "in_progress", None), "", "", "", "", None, pr)) == ExitedIncomplete
  {
  }
}
