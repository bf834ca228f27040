# Verified models of the SynthOrg gates

SynthOrg's `scripts/` directory holds the gates that decide whether a commit or a
workflow may pass. Several of them are real algorithms. This project models those
algorithms and proves what they promise, for all inputs, runs and histories.

- **Control flow** (`ControlFlow`, `Executions`, `Outcomes`, `Reachability`,
  `MissedStatements`, `Verdicts`, `Aliases`): the static analysis deciding which statements are reachable and which
  names may be trusted, checked against executions of the language after sections
  8.1 to 8.6 of the Python Language Reference. An execution is a derivation tree with
  an outcome; a paused outcome covers executions that do not end. Any statement may
  raise. Which statements executions start is computed exactly, and says on which
  programs the analysis yields too much, and on which too little.
- **Cohesion** (`Cohesion`): LCOM4 by a parent map with path halving.
- **CI resilience** (`CallGraph`, `PullLadders`, `JobTotals`, `RetryLadders`):
  closures and worst-case costs over a possibly cyclic call graph of composite
  actions, what a whole job can spend, and the language of fail-closed retry ladders.
- **Dead endpoints** (`CallScanner`, `FrontendCalls`, `RoutePaths`, `RouteMatching`,
  `PrintedCalls`): from TypeScript text and controller paths to a comparison by
  shape.
- **Settings** (`SettingEvidence`, `ScopedDescent`, `JointBindings`): one walk with
  deferred resolution against the two-pass scan, the scope-carrying walk, and the
  pairing of loop variables.
- **Argument-count ledger** (`CandidateWalk`, `BaselineGrowth`, `ArgumentLedger`): the
  walk that finds over-cap functions, the gate that stops baselines growing, the scan
  that demands an exact list, and the safety they give over histories of commits.
- **Schema cache** (`SchemaCache`): the source fingerprint and the check that lets an
  exported schema be reused.
- **Release digest** (`HtmlComments`, `ReviewBlocks`): the text passes over commit
  bodies.

`Prelude` and `Decimals` hold what several modules share. Code that updates state is
imperative here too (classes `Forest`, `HelperCollector`, `Scan`, `CandidateWalker`,
`Digest`, `Checkout`, and methods with loops), each proved against a specification
function whose properties are then proved as lemmas.

## Where code and documentation disagree

The model follows the code. Each difference has a lemma, named here.

- `_extract_url_expression` returns an empty expression for an empty call, not `None`
  (`ExtractedIsEmptyIff`); `_iter_top_level_positions` yields the commas of an unclosed
  call, not nothing (`UnclosedCallYieldsCommas`).
- `_path_after_api_prefix` is called idempotent; it is not on a doubled prefix
  (`PrefixStrippedTwiceIff`).
- `normalise_path` is not idempotent on a path such as `/a//`, although the record
  constructors compare a path with its normal form. Backend paths never have that
  form; a frontend path can, and is then rejected by its own record
  (`NormalisedTwiceIff`, `RouteFromParts`, `CallSitePathRejectedIff`).
- The pull action's description gives the waits as `10 x (2^n - 1)` seconds for `n`
  attempts; its loop and the gate use `10 x (2^(n-1) - 1)` (`DescriptionExceedsEveryRun`).
- The budget check takes the worst ladder, not the sum, so its guarantee is per ladder
  (`JobFitsIff`, `SilentJobWithOneLadderFits`, `TwoLaddersCanOverrun`,
  `DefaultLaddersCanOverrun`).
- `resolve_jointly` is documented never to pair across rows two names bound side by
  side; it does when no row has a string for both (`RowsWithoutBothPairAcross`). It lets
  other names pair freely only when no row of the module has both
  (`PerformedIsLostIff`, `NestedPairIsLost`).
- `reachable_statements` is documented to yield what control flow can still reach. It
  yields more exactly when something it yields is dead (`ExactIffNothingDead`). It
  misses something exactly when an execution goes on behind a statement judged
  terminating (`AllStartedYieldedIff`), as behind a `with` whose manager swallows an
  exception (`SwallowedExceptionReachesDeadCode`).
- `_status_of` is documented to call a function a blanket when only the neutralised
  pass reports it and no marker covers it, and exempt when neither pass does; it
  calls it exempt in both cases, and a blanket exactly when the file declares one
  (`StatusIsDocumentedIff`).
- The schema cache is documented to cost time, never correctness; an edit between
  build and state write costs correctness (`EditDuringExportIsTrusted`).
- LCOM4 depends on the order of methods when two definitions of one name reference
  different names (`TableIgnoresOrderIff`, `RedefinitionOrderMatters`).

## Model

| member | source | states |
|---|---|---|
| Executions.BlockSound | scripts/_gate_source.py:137-196 | main induction over execution trees: a block the analysis calls terminating never completes normally, and every statement an execution starts is among those yielded, unless a `with` the analysis relies on has a swallowing manager |
| Executions.StatementSound | scripts/_gate_source.py:137-191 | the same for one statement, for each of `if`, `while`, `for`, `try`, `with` and `match` |
| Executions.RescueSound | scripts/_gate_source.py:162-172 | `except` clauses and the `else` of a `try`: if every way past the body terminates, the `try` does not complete normally |
| Executions.GroupSound | scripts/_gate_source.py:162-172 | the same for `except*`, where several clauses may run |
| Executions.StatementNeverBreaks | scripts/_gate_source.py:179-190 | a statement with no `break` anywhere below it never ends an execution by breaking, which is what makes `while True` without `break` terminating |
| Reachability.ExecutedIsYielded | scripts/_gate_source.py:259-291 | every statement any execution of a block starts is yielded, and a block judged terminating has no execution that completes normally |
| Reachability.VerdictsSoundIffTrusted | scripts/_gate_source.py:173-174 | all termination verdicts on yielded statements are right if and only if no yielded, terminating `with` has a manager that swallows exceptions |
| Reachability.WithCompletesIffSwallowing | scripts/_gate_source.py:173-174 | a terminating `with` completes normally exactly when its manager swallows |
| Verdicts.VerdictIsExact | scripts/_gate_source.py:137-191 | no verdict is held back: a statement with no constant `if`, no loop with an `else`, no `while False` and no `while True` holding a `break` is called terminating if and only if no execution completes it, both taken without swallowing managers |
| Verdicts.VerdictMeansLoosened | scripts/_gate_source.py:137-191 | for every program: the verdict says exactly that no execution completes the same program with its tests forgotten and its breakable loops free to end |
| Verdicts.BreakIsFoundIff | scripts/_gate_source.py:179-190 | the break a constant loop is asked about is found exactly when one is written anywhere below it |
| Reachability.YieldedIsClosed | scripts/_gate_source.py:259-291 | yielding a statement yields everything live inside it |
| Reachability.DeadSuffixIsIgnored | scripts/_gate_source.py:259-291 | what follows a terminating statement in its block never changes what is yielded |
| Outcomes.OutsAreExact | scripts/_gate_source.py:137-191 | the reference the verdicts are measured against: for every statement and every choice of swallowing managers, the computed outcomes are exactly those of its executions |
| Outcomes.BlockOutsAreExact | scripts/_gate_source.py:194-196 | the same for a block |
| Reachability.StartedIffCanStart | scripts/_gate_source.py:259-291 | for every program, the computed list of started statements holds exactly those some execution starts |
| Reachability.ExactIffNothingDead | scripts/_gate_source.py:137-291 | for every program with trusted managers: what the analysis yields is exactly what executions start if and only if nothing it yields is dead, a condition read off the text; otherwise it yields strictly more |
| Reachability.ConstantTrueReturnIsCredited | scripts/_gate_source.py:137-161 | where it is not exact: behind `if True:` with a body that always leaves, a statement is yielded though no execution starts it |
| Reachability.SwallowedExceptionReachesDeadCode | scripts/_gate_source.py:173-174 | where it is not sound: behind any `with` judged terminating whose manager swallows, a live statement is not yielded |
| MissedStatements.AllStartedYieldedIff | scripts/_gate_source.py:259-291 | for every program of distinct statements and every choice of swallowing managers: the analysis yields all that executions start if and only if, in every block they enter, none goes on from a statement judged terminating to a statement behind it |
| MissedStatements.StartedAreYielded | scripts/_gate_source.py:259-291 | that condition is enough for any program, also with repeated statements |
| Reachability.ElseAfterReturnIsCredited | scripts/_gate_source.py:249-256 | where it is not exact: whatever the `else` of a `try` yields is credited though the body never completes and no execution starts it |
| Reachability.ReachableStatements | scripts/_gate_source.py:259-291 | the recursive generator with its early exit yields exactly the specified list |
| Reachability.LiveStatements | scripts/_gate_source.py:259-291 | one statement followed by what its live blocks yield |
| Aliases.DirectBodyNodes | scripts/_gate_source.py:99-126 | the explicit-stack walk visits every node of the scope exactly once and enters no nested scope |
| Aliases.CountStores | scripts/_gate_source.py:336-339 | the count of a name is the number of its store nodes |
| Aliases.TopLevelMatches | scripts/_gate_source.py:340-350 | the candidates are exactly the names a top-level assignment binds to a matching value |
| Aliases.ReachingAliasNames | scripts/_gate_source.py:315-351 | the result is exactly the singly stored names with such an assignment |
| Aliases.AliasIffSoleStore | scripts/_gate_source.py:315-351 | a name is trusted if and only if a top-level assignment binds it to a matching value and that is the only store of it in the scope, counted by the fields of every kind of statement |
| Aliases.SecondStoreIsNoAlias | scripts/_gate_source.py:336-339 | any store of the name beside that assignment, in a `for` or `with` target, a test, a value, an iterable, a handler or a case anywhere in the scope, makes it no alias |
| Aliases.BindsElsewhereIff | scripts/_gate_source.py:315-351 | what the faithfulness results call a binding, by the fields of every statement: loop and `with` targets, walruses wherever they stand, and names bound without a name node |
| Aliases.StoredIsSeenOrHidden | scripts/_gate_source.py:336-339 | every store in an expression is one the count sees or one in the default of a lambda, which it does not |
| Aliases.CountedBindingMatches | scripts/_gate_source.py:315-351 | any counted binding of a trusted name, anywhere in the body, is that one matching assignment |
| Aliases.AliasFaithfulIff | scripts/_gate_source.py:315-351 | a trusted name only ever gets matching values, in all executions, if and only if none of the started statements, as computed from the text, binds it in a way the count misses |
| Aliases.AliasFaithfulWhenNothingHides | scripts/_gate_source.py:315-351 | for any program with trusted managers it suffices that no yielded statement binds the name unseen |
| Aliases.BoundAliasHoldsMatch | scripts/_gate_source.py:315-351 | if no started statement hides a binding of a trusted name, then whatever bindings an execution prefix makes, in its order, the last one of the name holds a matching value |
| Aliases.ImportRebindsTrustedAlias | scripts/_gate_source.py:336-339 | counterexample: an import rebinding the name goes uncounted, so the alias is trusted and wrong |
| Cohesion.Forest.Find | scripts/_architecture_lib.py:173-177 | path halving terminates, returns the root of the set, and keeps the partition |
| Cohesion.Forest.Union | scripts/_architecture_lib.py:179-180 | joins exactly the two sets |
| Cohesion.HalvingKeepsForest | scripts/_architecture_lib.py:173-177 | one halving step keeps an acyclic parent forest of the same partition |
| Cohesion.LinkingMerges | scripts/_architecture_lib.py:179-180 | linking one root below another keeps the forest acyclic and merges the two sets only |
| Cohesion.JoinRelated | scripts/_architecture_lib.py:182-188 | after the nested loops, two methods are in one set if and only if a chain of related methods links them |
| Cohesion.RootsCountComponents | scripts/_architecture_lib.py:189 | the number of distinct roots is the number of connected components of the method graph |
| Cohesion.Lcom4 | scripts/_architecture_lib.py:153-189 | the result is the number of connected components, one for a class with at most one method |
| Cohesion.CohesiveIffAllLinked | scripts/_architecture_lib.py:153-189 | a score of one means every two methods are linked, and conversely |
| Cohesion.CohesiveIffUnsplit | scripts/_architecture_lib.py:153-189 | a score of one means the kept methods do not fall into two groups with no call and no shared attribute between them, and conversely |
| Cohesion.ComponentsByReferences | scripts/_architecture_lib.py:182-188 | two methods of which one names the other, or which both name something that is no method, count as one component; methods of two groups with nothing between them never do |
| Cohesion.KeptIff | scripts/_architecture_lib.py:161-166 | only methods whose names both start and end with two underscores are left out |
| Cohesion.TableIgnoresOrderIff | scripts/_architecture_lib.py:169-170 | every reordering of the methods gives the same table of references if and only if no two definitions of one name differ |
| Cohesion.OrderDoesNotMatter | scripts/_architecture_lib.py:153-189 | then the score does not depend on the order either; a getter and setter that reference the same names are allowed |
| Cohesion.RedefinitionOrderMatters | scripts/_architecture_lib.py:169-170 | where two definitions of one name differ, the order can change the score |
| CallGraph.CloseUnderCalls | scripts/check_ci_workflow_resilience.py:1196-1228 | repeated in-place passes end on every graph, cyclic or not, with exactly the directories that reach a seed |
| CallGraph.OnePass | scripts/check_ci_workflow_resilience.py:1221-1228 | a pass that adds nothing has closed the set; one that adds something shrinks what is left |
| CallGraph.TrackingIssueDirs | scripts/check_ci_workflow_resilience.py:514-543 | exactly the directories from which a chain of calls ends at the tracking-issue action |
| CallGraph.ArtifactConsumerDirs | scripts/check_ci_workflow_resilience.py:1196-1228 | exactly the directories from which a chain of calls ends at a composite that downloads artifacts, or at the wrapper |
| CallGraph.CallsIffUsed | scripts/check_ci_workflow_resilience.py:1205-1220 | the graph those closures run on: one directory calls another exactly when a step of its last action file uses it |
| CallGraph.ConstructionModules | scripts/_setting_reachability_evidence.py:710-746 | the duplicate-tolerant worklist ends with exactly the modules reachable from the root, and fails exactly on a reachable module that cannot be read |
| PullLadders.WorstCaseIsAttainedMaximum | scripts/check_ci_workflow_resilience.py:1321-1331 | the closed formula is the exact, attained maximum duration over all runs of the retry ladder |
| PullLadders.OneMoreAttempt | scripts/check_ci_workflow_resilience.py:1321-1331 | the formula by its increments: one attempt pays its pull at both registries, each further one does so again after a wait that starts at ten seconds and doubles |
| PullLadders.PullRunsAsSpelled | scripts/check_ci_workflow_resilience.py:1334-1385 | a pull step runs the attempts and the timeout it spells, where they are positive integers, and the default of the action, for each on its own, where they are not |
| PullLadders.ActionCallsIffUsed | scripts/check_ci_workflow_resilience.py:1415-1424 | one directory calls another exactly when a step of its last action file uses it, the pull action included |
| PullLadders.DescriptionExceedsEveryRun | scripts/check_ci_workflow_resilience.py:1321-1331 | the backoff the pull action describes is longer than any its ladder performs: every run stays the last, never performed wait below it |
| PullLadders.DurationBound | scripts/check_ci_workflow_resilience.py:1321-1331 | the duration of any run from attempt k on is bounded by two timeouts per attempt plus the doubling waits between attempts |
| PullLadders.WorstStep | scripts/check_ci_workflow_resilience.py:1388-1436 | the direct cost of an action is the worst of its own pull steps, and is attained by one |
| PullLadders.SettleCosts | scripts/check_ci_workflow_resilience.py:1425-1436 | the in-place iteration terminates on every graph and in every order, with each action at the greatest direct cost of anything it reaches |
| PullLadders.CostPass | scripts/check_ci_workflow_resilience.py:1425-1436 | one pass keeps every cost backed by a reachable action, and either settles the table or strictly raises it |
| PullLadders.RaiseOne | scripts/check_ci_workflow_resilience.py:1428-1435 | one directory is raised to the worst known cost of its callees, or is already at least that |
| PullLadders.CostsAreUnique | scripts/check_ci_workflow_resilience.py:1388-1436 | two tables with that property are equal, so the iteration order cannot matter |
| PullLadders.PullLadderCosts | scripts/check_ci_workflow_resilience.py:1388-1436 | parsed actions in, the table of greatest reachable costs out |
| PullLadders.PullActionDefaults | scripts/check_ci_workflow_resilience.py:1349-1369 | the defaults are always positive |
| PullLadders.DefaultsAsDeclared | scripts/check_ci_workflow_resilience.py:1349-1369 | the defaults are the declared inputs, and one for an input that is no positive integer |
| PullLadders.BudgetAsDeclared | scripts/check_ci_workflow_resilience.py:1439-1486 | the budget is sixty seconds per declared minute, and zero for a timeout that is no positive integer |
| PullLadders.CheckLadderBudget | scripts/check_ci_workflow_resilience.py:1439-1486 | a job is reported exactly when the worst ladder one of its steps faces is at least its whole timeout; the message names that worst ladder |
| PullLadders.StepSecondsIsLongestRun | scripts/check_ci_workflow_resilience.py:1439-1486 | the seconds charged to a step are the longest run of any ladder it faces, and zero exactly when it faces none |
| PullLadders.LadderBudgetGate | scripts/check_ci_workflow_resilience.py:1388-1486 | end to end: a job is reported if and only if some run of some ladder reachable from it lasts at least as long as its timeout; a silent job finishes every such run strictly inside it |
| JobTotals.JobFitsIff | scripts/check_ci_workflow_resilience.py:1439-1486 | what the per-ladder check does not decide: every execution of a job keeps its pulling inside the budget if and only if the worst cases of all ladders it runs, directly or through calls, add up to less; and that sum is spent by a run in which nothing fails |
| JobTotals.LongestAttainsTotal | scripts/check_ci_workflow_resilience.py:1388-1486 | for any steps over acyclic calls, an execution without failures lasts exactly the sum |
| JobTotals.RunIsWithinTotal | scripts/check_ci_workflow_resilience.py:1388-1486 | no execution of any steps, stopped at a failed ladder or going on, lasts longer |
| JobTotals.SilentJobWithOneLadderFits | scripts/check_ci_workflow_resilience.py:1439-1486 | a job the check is silent about and that runs at most one ladder stays inside its budget in every execution |
| JobTotals.TwoLaddersCanOverrun | scripts/check_ci_workflow_resilience.py:1439-1486 | any two ladders, each below a budget that their sum reaches, make a silent job that can outlast it |
| JobTotals.DefaultLaddersCanOverrun | scripts/check_ci_workflow_resilience.py:1439-1486 | two ladders with the defaults of the pull action do so in a ten-minute job |
| RetryLadders.CleanIffInLanguage | scripts/check_ci_workflow_resilience.py:948-975 | a word of attempts has no bare step and nothing left open if and only if it is in (guarded+ unguarded)* |
| RetryLadders.CheckJobLadders | scripts/check_ci_workflow_resilience.py:948-975 | the per-action state machine reports, in order, the bare steps and then the ladders left open |
| RetryLadders.MessageCounts | scripts/check_ci_workflow_resilience.py:948-975 | per action: one message per bare step of its own steps, plus one if its last ladder is open, however the actions are interleaved |
| RetryLadders.SilentIffLadders | scripts/check_ci_workflow_resilience.py:927-975 | nothing is reported if and only if every enforced action, taken alone, is in the language |
| CallScanner.TopLevelPositions | scripts/_dead_api_endpoints_frontend.py:177-240 | the index loop yields exactly the events of the specified scanner, on every text |
| CallScanner.ScanIsWellPlaced | scripts/_dead_api_endpoints_frontend.py:177-240 | on every text the events are in order, each at a comma or closing bracket, and nothing follows a close |
| CallScanner.SkipPieces | scripts/_dead_api_endpoints_frontend.py:177-240 | printed text of nested brackets, escaped strings and templates leaves the scanner in the state it found it, reporting nothing |
| CallScanner.ScanFindsPrintedArgs | scripts/_dead_api_endpoints_frontend.py:177-240 | print/scan agreement: scanning a printed argument list finds exactly the printed top-level commas and the matching close |
| CallScanner.ExtractUrlExpression | scripts/_dead_api_endpoints_frontend.py:243-260 | returns the text up to the first event, stripped, with its end |
| CallScanner.FirstPrintedArgument | scripts/_dead_api_endpoints_frontend.py:243-260 | of any printed call, wherever it stands, exactly the first argument is read |
| CallScanner.ExtractedIsEmptyIff | scripts/_dead_api_endpoints_frontend.py:243-260 | on every text: something is read if and only if there is an event, and what is read is empty if and only if only whitespace stands before the first one |
| CallScanner.EmptyCallYieldsEmptyExpression | scripts/_dead_api_endpoints_frontend.py:243-260 | so a call with nothing but whitespace in it yields an empty expression, wherever it stands (the docstring says nothing is found) |
| CallScanner.UnclosedCallYieldsCommas | scripts/_dead_api_endpoints_frontend.py:177-240 | text that ends before the call closes yields exactly the printed commas, so nothing if and only if there is one argument (the docstring says nothing is yielded) |
| CallScanner.UnclosedFirstArgument | scripts/_dead_api_endpoints_frontend.py:243-260 | so the first argument of an unclosed call is read all the same, unless it is the only one |
| FrontendCalls.FindTemplateEnd | scripts/_dead_api_endpoints_frontend.py:318-361 | the loop returns what the specified scan does |
| PrintedCalls.HoleEnds | scripts/_dead_api_endpoints_frontend.py:318-361 | that scan ends a printed hole exactly at its own brace, whatever nested braces, quoted strings and escapes its expression holds |
| FrontendCalls.ResolveTemplateLiteral | scripts/_dead_api_endpoints_frontend.py:263-315 | quoted strings and templates resolve as specified; anything else has no static path |
| FrontendCalls.EmitRecord | scripts/_dead_api_endpoints_frontend.py:456-490 | composes extraction, resolution, prefix stripping and normalisation |
| PrintedCalls.UrlResolves | scripts/_dead_api_endpoints_frontend.py:285-315 | a printed template resolves to its text with each hole, wherever it stands, replaced by what its expression stands for |
| PrintedCalls.PrefixIsStripped | scripts/_dead_api_endpoints_frontend.py:395-405 | stripping the API prefix from a written path removes its first two segments when they are the prefix, leaving the root for the bare prefix, and nothing otherwise |
| PrintedCalls.PrintedCallIsRecorded | scripts/_dead_api_endpoints_frontend.py:456-490 | a call whose first argument is a quoted text or a template, anywhere in a file and with any further arguments, is recorded under that text, stripped and normalised, exactly when it begins with a slash |
| PrintedCalls.PrintedCallIsRecordedByShape | scripts/_dead_api_endpoints_frontend.py:456-490 | that record is the key of the shape of its path, with or without the API prefix and with or without a trailing slash |
| PrintedCalls.ScannableLiteralPrints | scripts/_dead_api_endpoints_frontend.py:177-260 | every quoted path, and every template whose holes hold no stray backtick, dollar sign or backslash, is an argument the call scanner reads whole |
| PrintedCalls.PrintedCallIsReportedIff | scripts/_dead_api_endpoints_compare.py:58-108 | the gate end to end: a call written in frontend text is reported if and only if no controller, however its path is split or slashed, serves its method under a path of the same shape |
| PrintedCalls.SlashDecoratorServesTheClass | scripts/_dead_api_endpoints_models.py:235-241 | a decorator path of one slash serves the class path, for calls with and without a trailing slash |
| RoutePaths.TypeSuffixIsDropped | scripts/_dead_api_endpoints_models.py:178-189 | a known type goes with the first colon; a name without a colon, or with an unknown suffix, stays as it is |
| RoutePaths.NormalisePath | scripts/_dead_api_endpoints_models.py:192-242 | the two passes equal one collapse of every brace token and one trim of a trailing slash |
| RoutePaths.RenamingIsAbsorbed | scripts/_dead_api_endpoints_models.py:205-224 | renaming parameters before collapsing them changes nothing |
| RoutePaths.RenamePass | scripts/_dead_api_endpoints_models.py:205-224 | the first index loop renames token by token |
| RoutePaths.CollapsePass | scripts/_dead_api_endpoints_models.py:225-239 | the second index loop collapses token by token |
| RoutePaths.NormalisedTwiceIff | scripts/_dead_api_endpoints_models.py:192-242 | normalising is idempotent on exactly the paths that do not end in two slashes after something else |
| RoutePaths.JoinPaths | scripts/_dead_api_endpoints_backend.py:357-386 | the replace loop terminates and collapses every maximal run of slashes; the prefix is stripped; no double slash is left |
| RoutePaths.ReplacingKeepsSqueezed | scripts/_dead_api_endpoints_backend.py:381-382 | one round of replacing pairs of slashes has the same maximal-run collapse |
| RoutePaths.RouteFromParts | scripts/_dead_api_endpoints_backend.py:284-354 | a record built from a composed backend path never fails its own path validation |
| RoutePaths.PrefixStrippedTwiceIff | scripts/_dead_api_endpoints_frontend.py:395-405 | stripping the API prefix is idempotent on exactly the paths that do not write it twice (the docstring says always) |
| RoutePaths.CallSitePathRejectedIff | scripts/_dead_api_endpoints_models.py:45-59 | a frontend record rejects the path it was given exactly when that path ends in two slashes after something else |
| RouteMatching.PathIsWritten | scripts/_dead_api_endpoints_models.py:192-242 | every path that begins with a slash and closes its braces before the next slash is the spelling of some segments, empty ones included, so the results below cover it |
| RouteMatching.SpellingNormalises | scripts/_dead_api_endpoints_models.py:192-242 | whatever its parameters are called or typed, and wherever they stand in a segment, a path normalises to the key of its shape less one trailing slash |
| RouteMatching.KeyIsInjective | scripts/_dead_api_endpoints_models.py:192-242 | two shapes with one key are one shape |
| RouteMatching.SamePathIffSameShape | scripts/_dead_api_endpoints_models.py:192-242 | two spellings normalise to the same path if and only if, less one trailing slash, their shapes agree |
| RouteMatching.SqueezedSpelling | scripts/_dead_api_endpoints_backend.py:379-382 | squeezing a written path drops its empty segments, a trailing slash aside |
| RouteMatching.RecordedIsRouted | scripts/_dead_api_endpoints_backend.py:357-386 | a controller path, below the API prefix or at the root, is recorded under the shape of its non-empty segments, and under the root when it has none |
| RouteMatching.BackendRoute | scripts/_dead_api_endpoints_backend.py:284-386 | so however it is split between class and decorator, either of which may be a single slash or empty |
| RouteMatching.GluedPathIsUnreachable | scripts/_dead_api_endpoints_backend.py:376-386 | a controller path without its leading slash is glued to the API prefix and recorded under a path that no frontend call has |
| RouteMatching.Compare | scripts/_dead_api_endpoints_compare.py:44-108 | the two buckets are exactly the dead calls and the orphan routes |
| RouteMatching.DeadCallsAreDead | scripts/_dead_api_endpoints_compare.py:58-90 | membership in the high bucket: unsuppressed, and no route has its method and path |
| RouteMatching.ReportedIffNoRouteOfShape | scripts/_dead_api_endpoints_compare.py:58-108 | an unsuppressed call is reported exactly when no route has its method and, less one trailing slash, its shape |
| SettingEvidence.LocallyAmbiguousIsNotShared | scripts/_setting_reachability_helpers.py:167-216 | a helper ambiguous inside one module is never in the shared map |
| SettingEvidence.HelperCollector.Observe | scripts/_setting_reachability_helpers.py:147-165 | adds exactly the declarations of one node |
| SettingEvidence.HelperCollector.Index | scripts/_setting_reachability_helpers.py:167-200 | the index gives every name, in every module, the meaning the declarations give it; a name is dropped when it is ambiguous |
| SettingEvidence.MergeModules | scripts/_setting_reachability_helpers.py:167-190 | per name, the union of what every module declares |
| SettingEvidence.RestrictingKeepsCredit | scripts/_setting_reachability_evidence.py:375-412 | keeping only strings that name a registered setting loses no credit |
| SettingEvidence.RecordKeepsCredit | scripts/_setting_reachability_evidence.py:375-412 | recording a call, or skipping it, credits what the call itself would, whatever is declared later |
| SettingEvidence.Scan.Visit | scripts/_setting_reachability_evidence.py:308-350 | routes direct evidence, declarations and the deferred call of one node |
| SettingEvidence.Scan.ResolveDeferred | scripts/_setting_reachability_evidence.py:230-249 | adds to each sink exactly what the recorded calls read through the finished index |
| SettingEvidence.CollectEvidence | scripts/_setting_reachability_evidence.py:160-249 | one walk with deferral credits, in both sinks, exactly what building the index first and resolving every unfiltered call would |
| SettingEvidence.ArgumentIsReceived | scripts/_setting_reachability_helpers.py:80-105 | the argument looked up for a helper is what its parameter receives in the call, the keyword first, where an attribute call passes a receiver exactly to a function whose first parameter is `self` or `cls` |
| SettingEvidence.OtherReceiverIsShifted | scripts/_setting_reachability_helpers.py:86-104 | otherwise it is the argument of a neighbouring parameter: a method called through its class is read one too early, one whose receiver has another name one too late |
| SettingEvidence.CreditIsReceived | scripts/_setting_reachability_evidence.py:230-249 | a helper that leaves the namespace to its caller reads all of every namespace its parameter receives; one with a namespace of its own reads in it the keys received, and nothing else |
| SettingEvidence.OrderDoesNotMatter | scripts/_setting_reachability_evidence.py:160-249 | the evidence does not depend on the order modules are walked in |
| ScopedDescent.WalkWithScopes | scripts/_setting_reachability_literals.py:365-391 | the explicit stack gives each node of the walk, in the walk's order, with its chain of enclosing functions |
| ScopedDescent.EachDescendantOnce | scripts/_setting_reachability_literals.py:365-391 | every proper descendant occurs in that order exactly once, and nothing else does |
| ScopedDescent.ChainIsEnclosingFunctions | scripts/_setting_reachability_literals.py:365-391 | a chain is the functions on the way from the root to the node, outermost first, the node included |
| JointBindings.BindTarget | scripts/_setting_reachability_literals.py:324-343 | each name of a target takes exactly the literals its position supplies |
| JointBindings.BindingsFrom | scripts/_setting_reachability_literals.py:215-237 | one pass over the loops collects exactly the values each name can take, and the rows |
| JointBindings.RowsAreIterations | scripts/_setting_reachability_literals.py:240-258 | the rows hold exactly the pairs of values some iteration gives two names |
| JointBindings.PerformedIffSupplied | scripts/_setting_reachability_literals.py:93-110 | the pairs a read inside nested loops can perform, over one iteration of each loop around it, are those its two binding loops supply |
| JointBindings.CreditedIff | scripts/_setting_reachability_literals.py:93-124 | what is credited: the rows of the module when some row has both names, else each value of the one with each value of the other |
| JointBindings.SpelledPairsFreely | scripts/_setting_reachability_literals.py:76-110 | unless both are names, every string the one can stand for is credited with every string the other can, as a spelled namespace with each key of a loop |
| JointBindings.PerformedIsLostIff | scripts/_setting_reachability_literals.py:93-124 | a performed pair is lost if and only if some row of the module has both names but none has this pair, or an alias hides one of the values |
| JointBindings.SideBySideIsCredited | scripts/_setting_reachability_literals.py:93-124 | a pair one unpacking binds side by side is never lost |
| JointBindings.NestedReadLosesNothingIff | scripts/_setting_reachability_literals.py:93-124 | a read in nested loops loses nothing if and only if no row has both names or the rows have every pair the loops supply |
| JointBindings.NestedPairIsLost | scripts/_setting_reachability_literals.py:93-124 | so a row anywhere else in the module takes away a pair that two nested loops read |
| JointBindings.SideBySideOnlyPerformedIff | scripts/_setting_reachability_literals.py:93-124 | for names bound side by side, only performed pairs are credited if and only if all rows with both names come from that loop, or, without such a row, one of the names takes no literal |
| JointBindings.NestedOnlyPerformedIff | scripts/_setting_reachability_literals.py:93-124 | for names two nested loops bind, if and only if the rows with both hold only values the two loops supply, or, without such a row, the names take values nowhere else |
| JointBindings.RowsWithoutBothPairAcross | scripts/_setting_reachability_literals.py:93-110 | counterexample to the docstring: two names bound side by side are paired across rows when no row has a string for both |
| CandidateWalk.EachOverCapOnce | scripts/_argument_count_sites.py:231-309 | the walk of a module records every over-cap definition exactly once, counted as a method exactly when the innermost scope around it is a class, and records nothing else |
| CandidateWalk.ListingIsOrdered | scripts/_argument_count_sites.py:291-309 | the records are in the order of the walk, so none is repeated |
| CandidateWalk.ListingDescribes | scripts/_argument_count_sites.py:269-289 | each record carries the counts, the dotted chain of enclosing classes and functions, and the exemption of its definition |
| CandidateWalk.CandidateWalker.Walk | scripts/_argument_count_sites.py:291-309 | appends exactly those records below a suite and restores both stacks |
| CandidateWalk.CandidateWalker.VisitFunction | scripts/_argument_count_sites.py:269-289 | measures a definition by the scope around it, under its own name |
| CandidateWalk.CandidateIsLegal | scripts/_argument_count_sites.py:83-110 | a recorded candidate passes the checks its constructor makes exactly when its file has a path, its line is at least one, and it has a name |
| CandidateWalk.ListingCountsTheTree | scripts/_argument_count_sites.py:151-309 | the walk lists as many definitions as the tree holds too wide ones, counted field by field of every kind of statement, where a method that is not static has its receiver on top |
| CandidateWalk.KeyIsInjective | scripts/_argument_count_sites.py:113-128 | two candidates share a baseline key only if file, chain of names and arity all agree, whatever characters the path holds |
| ArgumentLedger.PlacesAreOverCap | scripts/_argument_count_sites.py:291-309 | the places the walk lists are exactly the over-cap definitions of the tree |
| ArgumentLedger.OverCapNeedsParse | scripts/check_argument_count_suppression.py:587-613 | a file holding an over-cap definition anywhere in its tree is always parsed |
| ArgumentLedger.ScanTree | scripts/check_argument_count_suppression.py:616-712 | walking only the files that need it still finds every over-cap definition of the tree |
| ArgumentLedger.LoadBaseline | scripts/check_argument_count_suppression.py:961-1005 | loads exactly the entries; fails exactly on a malformed or repeated one |
| ArgumentLedger.FindCollision | scripts/check_argument_count_suppression.py:721-749 | reports exactly when two baselineable sites claim one key |
| ArgumentLedger.CollisionIffRedefinition | scripts/check_argument_count_suppression.py:721-749 | two sites claim one key if and only if one file defines two baselineable over-cap functions under one chain of names with one arity; different files never collide |
| ArgumentLedger.CmdScan | scripts/check_argument_count_suppression.py:1091-1153 | exit code zero exactly when the pins hold and the ledger lists the over-cap functions one to one; exit code two exactly when the ledger does not load, two functions claim one key, or a line is stale |
| ArgumentLedger.CleanIffExact | scripts/check_argument_count_suppression.py:1091-1153 | no collision, no stale entry and no violation together mean sites and ledger lines agree as multisets, and conversely |
| ArgumentLedger.BothCountTheSameLines | scripts/check_baseline_growth.py:101-107 | the scan's loader and the growth gate count the same lines |
| ArgumentLedger.StatusIsDocumentedIff | scripts/check_argument_count_suppression.py:654-681 | the classifier does what its docstring says if and only if ruff reports the function on its own, or the file has a blanket just where the docstring infers one |
| ArgumentLedger.BaselineableIff | scripts/check_argument_count_suppression.py:654-681 | without a file-level blanket everything ruff does not report on its own may stand on the ledger, with one nothing may |
| ArgumentLedger.LedgerIsGuarded | scripts/check_baseline_growth.py:37-58 | the growth gate guards the ledger file and counts its lines |
| BaselineGrowth.InspectPath | scripts/check_baseline_growth.py:186-221 | one staged baseline has grown exactly when it parses and exceeds HEAD in keys or in findings; it is invalid exactly when it does not parse |
| BaselineGrowth.GuardedIffNamesBaseline | scripts/check_baseline_growth.py:37-58 | a file directly under `scripts/` is guarded exactly when it is a text or JSON baseline with or without a leading underscore, or a Python one with it |
| BaselineGrowth.CountedIffBearsText | scripts/check_baseline_growth.py:101-107 | a line counts exactly when its first character that is no whitespace exists and is no hash |
| BaselineGrowth.RaisedCountIsSeen | scripts/check_baseline_growth.py:84-98 | in a payload of counts, raising one raises the findings by as much and leaves the keys, so the gate sees it |
| BaselineGrowth.OneMoreCountIsSeen | scripts/check_baseline_growth.py:84-98 | an empty mapping has no findings, and one more count adds itself to them and one to the keys |
| BaselineGrowth.OneMoreEntryIsSeen | scripts/check_baseline_growth.py:84-98 | one more entry raises the keys of a list or of a mapping without locations; locations count for the mapping that has them |
| BaselineGrowth.OtherPayloads | scripts/check_baseline_growth.py:84-98 | a mapping without locations that holds anything but counts has one finding a key; what is neither list nor mapping has none |
| BaselineGrowth.MeasuredByEnding | scripts/check_baseline_growth.py:110-118 | a text or Python baseline counts its lines, a JSON one its payload, and a JSON one that does not parse is corrupt |
| BaselineGrowth.GrowthGate | scripts/check_baseline_growth.py:186-264 | without the bypass: exit code zero exactly when every guarded file parses and none rose in either count; the invalid exit exactly when one does not parse |
| BaselineGrowth.BaselineNeverGrows | scripts/check_baseline_growth.py:61-98 | along any commits whose changes passed the gate, neither count of a guarded baseline ever rises, whatever shapes its payload goes through |
| ArgumentLedger.LedgerCountsTheTree | scripts/check_argument_count_suppression.py:1091-1153 | an accepted commit has as many ledger lines as over-cap definitions in its trees, also counted field by field |
| ArgumentLedger.OverCapNeverGrows | scripts/check_argument_count_suppression.py:1091-1153 | safety over whole histories: along any commits that pass the scan and whose ledger changes pass the growth gate, the number of over-cap definitions in the trees never increases |
| SchemaCache.StreamIsInjective | scripts/_openapi_export_shared.py:230-234 | the bytes fed to the digest tell two source trees apart, as long as no path holds a newline |
| SchemaCache.NewlineInPathIsAmbiguous | scripts/_openapi_export_shared.py:230-234 | counterexample with a newline in a path: two trees feed the same bytes |
| SchemaCache.SourceFingerprint | scripts/_openapi_export_shared.py:214-235 | the update loop hashes exactly that stream |
| SchemaCache.Checkout.WriteExportState | scripts/_openapi_export_shared.py:253-266 | writes a state that vouches for the given text and the present sources |
| SchemaCache.Checkout.ExportSchema | scripts/export_openapi.py:164-176 | the two writes of an export leave a checkout whose state vouches for its schema |
| SchemaCache.Checkout.LoadVerifiedSchema | scripts/_openapi_export_shared.py:269-294 | hands out the parsed schema exactly when version, sources and schema hash agree and it parses to an object; otherwise nothing |
| SchemaCache.RunKeepsCoherent | scripts/_openapi_export_shared.py:253-294 | invariant of every run of edits, exports, schema damage and state damage of any kind that does not spell a genuine state |
| SchemaCache.LoadedIsLastExport | scripts/_openapi_export_shared.py:269-294 | after any run, a schema handed out is the one the last finished export wrote, and the sources are those it recorded |
| SchemaCache.LoadedIsRebuildIff | scripts/_openapi_export_shared.py:269-294 | it is the text a rebuild would give exactly when the sources built from and the sources recorded build alike; where different sources build differently, exactly when the last export was not overtaken |
| SchemaCache.LoadAgreesWithRebuild | scripts/_openapi_export_shared.py:269-294 | if no export is overtaken by an edit, a reused schema always equals what a rebuild would parse to |
| SchemaCache.EditDuringExportIsTrusted | scripts/_openapi_export_shared.py:253-266 | counterexample: an edit between build and state write makes the old schema pass for the new sources, and it is what a rebuild would write only if the edit leaves the schema alone |
| SchemaCache.UnfinishedExportIsNotTrusted | scripts/export_openapi.py:167-176 | between schema write and state write, a schema is trusted exactly when the last finished export recorded these very sources and this very text |
| SchemaCache.FinishedExportIsReused | scripts/_openapi_export_shared.py:253-294 | an undisturbed export is reused |
| HtmlComments.StripHtmlComments | scripts/build_release_digest.py:227-253 | the scan terminates on every text with the specified result |
| HtmlComments.StripIsFilled | scripts/build_release_digest.py:227-253 | the result is the text outside the comment spans, in order, with one space per span |
| HtmlComments.SpansExist | scripts/build_release_digest.py:227-253 | every text has such spans |
| HtmlComments.StrippedHasNoSpan | scripts/build_release_digest.py:227-253 | the result has no opener followed four or more characters later by a closer |
| HtmlComments.FixedIffNoSpan | scripts/build_release_digest.py:227-253 | the pass changes a text exactly when it has a span |
| HtmlComments.CommentIsReplaced | scripts/build_release_digest.py:227-253 | where the text holds a comment next, the scan keeps what is before it, puts one space for it whatever it says, and goes on behind it |
| HtmlComments.UnclosedCommentStays | scripts/build_release_digest.py:227-253 | an opener that nothing closes stays, with all after it |
| HtmlComments.StripTwice | scripts/build_release_digest.py:227-253 | the pass is idempotent |
| HtmlComments.LinesKeptIff | scripts/build_release_digest.py:227-253 | the newlines of a text are those of the result plus those inside the removed spans, so lines stay apart if and only if no span holds a newline |
| HtmlComments.CommentCanJoinLines | scripts/build_release_digest.py:227-253 | a comment over a line end joins two lines: what stands before it on its first line and what follows it on its last are on one line of the result |
| ReviewBlocks.SkipReviewBlock | scripts/build_release_digest.py:152-177 | always advances, and returns exactly the first line the block does not take |
| ReviewBlocks.StripReviewBlocks | scripts/build_release_digest.py:180-194 | keeps the lines outside blocks and leaves one blank line per block |
| ReviewBlocks.ProseSurvives | scripts/build_release_digest.py:152-177 | a line that is not blank, opens no block and continues none is never dropped, even right after a list of findings |
| ReviewBlocks.DroppedIffTaken | scripts/build_release_digest.py:145-194 | a line is dropped if and only if some review takes it: an opener or severity header, and then only findings, indented lines and blanks up to the line, with no heading between |
| ReviewBlocks.StripStructuralLines | scripts/build_release_digest.py:197-224 | drops fenced and structural lines, leaving a blank for each structural line and each closed fence |
| ReviewBlocks.SplitJoin | scripts/build_release_digest.py:180-194 | joined lines split back into themselves |
| ReviewBlocks.NoWelding | scripts/build_release_digest.py:180-224 | after both passes every line comes from one line of the body or is empty, in order, and two non-empty lines side by side were side by side in the body |
| ReviewBlocks.AdjacentLinesWereAdjacent | scripts/build_release_digest.py:180-224 | the same for one pair of lines |

## Left out

- Executions.BlockSound: evaluation inside expressions is not run; an expression may raise, and names it binds are treated in `Aliases`.
- Aliases.DirectBodyNodes: exception handlers and match cases are folded into the statement that owns them, so the walk has fewer nodes of its own than a Python tree.
- Aliases.AliasFaithfulIff: comprehension scopes, `del`, `global` and `nonlocal` are not in the statement language.
- PullLadders.LadderBudgetGate: of two action files in one directory the later one's calls count, and the last one with a ladder gives the cost, as in the code; a job's own step of the pull action is charged its own ladder, not what that action may call.
- JobTotals.JobFitsIff: calls must form no cycle (a rank falls along every call), and a directory runs the steps of its last action file; time outside the ladders counts zero.
- PullLadders.WorstCaseIsAttainedMaximum: counts pull and wait time only, not the time of the shell around them.
- CallScanner.ScanFindsPrintedArgs: the printed grammar has no comments and no regular-expression literals, and inside a template hole no bare brace closes early.
- RouteMatching.BackendRoute: a brace that does not close before the next slash is not in the segments; neither is a controller path without its leading slash below the API prefix, which `GluedPathIsUnreachable` covers.
- PrintedCalls.UrlResolves: the text between holes has no backtick, dollar sign or backslash; what a hole's expression stands for is a parameter; the list of recognised base tokens is not modelled. The method of a `fetch` call and the skipping of generics are left out.
- PrintedCalls.ScannableLiteralPrints: a hole with a bare backtick, dollar sign or backslash (outside an escape) is resolved, but whether the call scanner reads it whole is not stated; a quoted path has no escapes.
- RouteMatching.Compare: the order of the report is not modelled, nor the baseline that `filter_against_baseline` subtracts (set differences only).
- SettingEvidence.CollectEvidence: what a node names by itself and what it declares are inputs; which expressions denote which strings is treated, for loops, in `JointBindings`. The index cache of the collector is not modelled.
- JointBindings.PerformedIsLostIff: for two different names, targets in which no name occurs twice, and a read in the body of a loop; collection names are already resolved to their elements.
- CandidateWalk.KeyIsInjective: an identifier is any non-empty string without a dot or a colon.
- ArgumentLedger.CmdScan: the configuration pins are one boolean; key syntax is a parameter.
- BaselineGrowth.GrowthGate: the JSON parser is an input: a text comes with the value it parses to, if it parses.
- ArgumentLedger.OverCapNeverGrows: ruff is the contract `RuffAnswers`; commits made with the bypass, or whose changed ledger was not handed to the gate, are outside the histories.
- SchemaCache.LoadedIsLastExport: a state file is never replaced by another genuine state, such as an old copy; hashes are injective functions, paths hold no newline, files do not change while one of them is being read; building the schema is a parameter.
- ReviewBlocks.NoWelding: line patterns are arbitrary predicates, and whitespace is the four ASCII characters space, tab, newline and carriage return. The later link, URL and blank-run substitutions of `clean_body` are regular expressions and are not modelled.
- HtmlComments.StripHtmlComments: pieces are appended to one string instead of a list joined at the end.
- `_CheckoutState` and `_check_job_steps`: a prefix test over the sparse checkouts seen so far; only easy members.
- File, git, ruff, subprocess, YAML, TOML and JSON reading, console reports and exit-code printing: inputs are already parsed values.
- `Evidence.status`, the fallback split of reads, activation targets and web references: one-branch classifications of evidence modelled here.
- Schema parsing with sqlglot, import fan-in, application boot, the evaluation runner, presence-only syntax gates and design-pattern linting.
