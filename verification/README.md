# set-assignee-reviewer-when-ready, modelled in Dafny

This project models the decision logic of a GitHub Action. The action looks at
the check runs on a pull request's head commit. Based on configured acceptable
and unacceptable conclusions, it either waits and then assigns people and
requests reviewers, or does so at once, or does nothing.

The model is purely functional. Every REST call becomes a parameter or an
effect value, and `process.exit` becomes an outcome value.

- `wrappers.dfy` (`Wrappers`): `Option` and `Result`.
- `sequences.dfy` (`Sequences`): `Filter` and `Map` over sequences (JavaScript's
  `Array.prototype.filter`/`map`), a subsequence predicate, and the facts about
  filtering that the rest relies on.
- `inputs.dfy` (`Inputs`): the CSV input parsing of `src/github.ts`. This covers
  JavaScript's `trim`, using the ECMAScript WhiteSpace and LineTerminator code
  points, `split(',')` with its inverse `Join`, `getInputArray` and
  `getInputWithDefault`.
- `github.dfy` (`GitHub`): pull-request resolution (`fetchPr`), the write-once
  pull-request cache (`getPr`), and the required-check-name lookup, which falls
  back to "unknown" (`None`) when it cannot get an answer.
- `action.dfy` (`Action`): the pipeline of `src/main.ts`. It gathers the inputs,
  selects the checks in scope, classifies them, dispatches the effects, performs
  the effects best-effort, and runs the whole thing.

The model follows the TypeScript code, including four behaviours a reader might not expect:
- The delay guard is JavaScript truthiness of a number, so any non-zero delay
  (negative ones included) takes the wait-then-act branch. It is not `delay > 0`.
- When every check is acceptable, none is unacceptable, and the delay is zero,
  the action does nothing. The model keeps this behaviour and states it in
  `TakeAction`'s contract. (The two conclusion lists can overlap: with the
  default acceptable list, every configured unacceptable conclusion is also
  acceptable. A check with such a conclusion is then both acceptable and
  unacceptable, and with a zero delay the unacceptable branch acts.)
- The fallback PR search covers only the pull requests that one call of the
  pulls-list endpoint returns. The code does not page through the rest, so the
  model takes that one response as the list to search.
- The check runs of the head commit are likewise read with a single request
  that sets no page size and does not page through the results
  (src/github.ts:164-169). The `checkRuns` input is that one response. Checks
  beyond it are never seen, pending or failing, and every statement about the
  checks in scope is about that response only.

## Model

| member | source | states |
|---|---|---|
| `Inputs.Trim` | src/github.ts:224 | The result is the infix of the input with whitespace only before and after it. It starts and ends with non-whitespace, and it is empty exactly when the input is blank. |
| `Inputs.TrimIdempotent` | src/github.ts:224 | Trimming twice gives the same text as trimming once. |
| `Inputs.Split` | src/github.ts:223 | Splitting on ',' gives one more piece than there are commas. No piece contains a comma, and joining the pieces with ',' gives back the input. |
| `Inputs.SplitJoin` | src/github.ts:223 | For any non-empty list of comma-free pieces, splitting their comma-join gives back exactly that list. |
| `Inputs.GetInputArray` | src/github.ts:217-226 | A blank input (empty or whitespace only) gives exactly the default list. Otherwise every item is non-empty, trimmed and comma-free. |
| `Inputs.GetInputArrayKeepsOrder` | src/github.ts:222-225 | For non-blank input the items are an order-preserving subsequence of the trimmed comma-separated pieces. |
| `Inputs.GetInputArrayKeepsNonEmpty` | src/github.ts:222-225 | For non-blank input every non-empty trimmed piece occurs among the items exactly as many times as among the trimmed pieces, and the empty text never occurs, so only the empty pieces are dropped. With `GetInputArrayKeepsOrder` this fixes the items. There are at most commas + 1 items. |
| `Inputs.GetInputArrayParses` | src/github.ts:222-225 | For every non-blank input the items are exactly the trimmed comma-separated pieces, in order, with only the empty ones dropped (`ParsedFrom`). |
| `Inputs.GetInputArrayOfJoin` | src/github.ts:222-225 | Round trip: a non-empty list of non-empty, trimmed, comma-free items, written as CSV, parses back to exactly that list. |
| `Inputs.GetInputArrayOfList` | src/github.ts:217-226 | Any list of CSV items, written as CSV, parses back to itself, except that the empty list reads as the default. |
| `Inputs.GetInputWithDefault` | src/github.ts:233-235 | A non-empty input is returned as given, and the empty input gives the default. |
| `GitHub.FetchPr` | src/github.ts:52-83 | If the payload lists PRs, the result is its first PR and no list lookup happens. Otherwise the result is the first listed PR whose title equals the display title. Failing that, it is a not-found error naming that title, and the error happens exactly when no title matches. |
| `GitHub.GetPr` | src/github.ts:30-45 | A cached PR is returned with no API call and the cache unchanged. From an empty cache the result is the fetch's result. Success fills the cache and failure leaves it empty. At most one list call is made. |
| `GitHub.CachedPrIsStable` | src/github.ts:37-45 | Once a PR is cached, any number of later calls return that PR, keep the cache, and make no list call. |
| `GitHub.ResolveOnce` | src/github.ts:37-45 | Starting from an empty cache, if the first resolution succeeds, every later call returns the identical result. Only the first call may list PRs, so there is at most one list call in total. |
| `GitHub.GetRequiredCheckNames` | src/github.ts:181-209 | The result is unknown (`None`) when the base ref is unknown or the protection lookup fails. Otherwise it is the configured names. A failed lookup is never propagated. |
| `Action.IsTrueOrUnset` | src/main.ts:50 | "Required checks only" holds exactly when the input is empty (default `'true'`) or is exactly `"true"`. |
| `Action.GatherInputs` | src/main.ts:39-73 | Each blank list input takes its default: all seven known conclusions are acceptable, none are unacceptable, and there are no assignees or reviewers. Every non-blank list input is parsed on its own: its items are its trimmed comma-separated pieces in order, every non-empty piece as often as it occurs and no empty piece (`ParsedFrom`), so `alice, bob` gives both names. Each such item is trimmed, non-empty and comma-free. The flag is as `IsTrueOrUnset` says, and the delay defaults to 0. |
| `Action.GatherInputsOfLists` | src/main.ts:46-51 | Round trip: four lists of CSV items, each written as CSV into its own input, are read back exactly, each from its own input. Only an empty acceptable list falls back to all conclusions. |
| `Action.SelectChecks` | src/main.ts:81-87 | With required-only off, or with unknown required names, the result is the full check list. Otherwise it is an order-preserving subsequence of the checks, holding only checks with a required name. Every check with a required name is kept as many times as it occurs. |
| `Action.ChecksToCheck` | src/main.ts:75-99 | With required-only off, or with unknown required names, every check run stays in scope. With required-only on and known names, the checks are an order-preserving subsequence of the check runs, hold only runs with a required name, and keep every such run as many times as it occurs. |
| `Action.ComputeCheckRunStatus` | src/main.ts:101-138 | The result is incomplete exactly when some selected check's status is not `completed`. Otherwise `acceptable` holds iff every conclusion (a missing one counts as "") is acceptable. `unacceptable` holds iff some conclusion is unacceptable. |
| `Action.AssignAndRequestReviewers` | src/main.ts:164-175 | Assign is emitted iff there are assignees, and RequestReviewers iff there are reviewers. The two are decided independently, Assign comes first, and nothing else is emitted. |
| `Action.TakeAction` | src/main.ts:140-162 | A wait happens iff the checks are acceptable and the delay is non-zero, and it comes first. Assign and RequestReviewers happen iff the rule acts (acceptable with non-zero delay, or unacceptable) and their list is non-empty. Each happens at most once: the number of effects is the wait plus one per emitted effect. RequestReviewers comes last, so Assign precedes it. When the rule does not act, there are no effects, even for acceptable checks with delay 0. |
| `Action.Perform` | src/github.ts:89-134 | Every effect is attempted in order. A failing assignment or review request is only reported as a warning, and no effect after it is dropped. |
| `Action.Run` | src/main.ts:177-204 | The run fails iff PR resolution fails, and the error names the display title. Actions always target the resolved PR. |
| `Action.ExitCode` | src/main.ts:114-202 | A failed run exits with code 1. A run that ends early on an incomplete check, or completes, exits with code 0. |
| `Action.UnknownRequiredNamesKeepAllChecks` | src/main.ts:80-87 | When the required names come back unknown, the run is identical to one with required-only switched off. |
| `Action.PendingCheckStopsRun` | src/main.ts:109-117 | If any check in scope has not completed, the run ends early with exit code 0 and no effect. |
| `Action.RunActsOnlyWhenWarranted` | src/main.ts:149-160 | A run that produces effects had every check in scope completed. Either all conclusions were acceptable with a non-zero delay, or some conclusion was unacceptable. |
| `Action.RunActsWhenWarranted` | src/main.ts:149-157 | Conversely, when the PR resolves, every check in scope has completed, and either all conclusions are acceptable with a non-zero delay or some conclusion is unacceptable, the run completes, assigning iff there are assignees and requesting reviews iff there are reviewers. Its effects are exactly what `TakeAction` decides for the classification, so the wait and the order of effects carry over to the run. |
| `Action.EmptySelectionIsAcceptable` | src/main.ts:121-132 | With no checks in scope, the checks are classified as acceptable and not unacceptable. |
| `Action.SelectRequiredExample` | src/main.ts:81-87 | With required names build and lint, checks named build, lint and docs are narrowed to exactly build and lint. |
| `Action.AcceptableScenario` | src/main.ts:149-154 | One completed check with an acceptable conclusion and a non-zero delay gives a wait, then the assignment, then the review request. |
| `Action.UnacceptableScenario` | src/main.ts:155-157 | With the acceptable list and the delay left at their defaults (all conclusions, delay 0), one completed check with an unacceptable conclusion gives the assignment and the review request at once, with no wait. |
| `Action.InProgressScenario` | src/main.ts:113-117 | One check still in progress ends the run early with no action. |

## Left out

- REST calls are not performed. The pulls list, the check runs of the head commit and the branch-protection answer are inputs. The assignment and review requests are `Effect` values. `getCheckRuns` (src/github.ts:154-175) only fetches, so its answer is the `checkRuns` input.
- A failing API request is not represented. In the code, a throw from the pulls-list request (src/github.ts:67) or the check-runs request (src/github.ts:164) reaches the catch at src/main.ts:199-203 and the process exits with code 1. In the model those answers are inputs and cannot fail, so `Run` fails only when PR resolution finds no pull request.
- `isPrOpen` (src/github.ts:140-148) is not modelled. It is a single network lookup that the pipeline never calls.
- Logging is not modelled: `core.info`/`debug`/`warning`/`error`, groups, `coreDebugJson`, message padding, and the `check` label string built in `gatherInputs`. None of them affects behaviour.
- `wait` is an opaque `Wait(seconds)` effect. Real time is not modelled.
- `parseInt` is not modelled. The delay input arrives already parsed as `Option<int>`, with `None` for an empty input, which defaults to `'0'`. NaN and partial parses are not represented.
- `core.getInput` is a runner collaborator. Each input is taken as the string it returns, so its own trimming and the `token` input are outside the model.
- The required-checks endpoint's answer is modelled as either a list of names or a failure. The case of a response without a `contexts` field (`result?.contexts` undefined) is not separate, and it would also give unknown names.
- The pipeline calls `getPr` several times. `Run` resolves the PR once and passes it along. `GitHub.ResolveOnce` proves this equals repeated cached calls.
- Top-level promise handling, `core.setFailed` and `process.exit` become `Outcome` values with an `ExitCode`.
- Numbers are unbounded integers. PR numbers and delays never wrap.
