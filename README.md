# terrahub run scheduling, modelled in Dafny

terrahub runs terraform actions over a project of components. Each component
lives in a directory, is known by the MD5 fingerprint of its path, and lists
in `dependsOn` the directories of the components it depends on. This project
models the part of terrahub that decides what runs and in which order:

- **Selecting and validating the components of a run**
  (`src/terraform-command.js`):
  - the include/exclude filters of `getConfig`;
  - the git-diff selection of `getGitDiff` and its closure under `dependsOn`;
  - the conversion of `dependsOn` paths into fingerprint sets
    (`getConfigObject`);
  - the missing- and excluded-dependency issue lists;
  - the three-colour depth-first search for dependency cycles;
  - `checkDependencies`, which combines the two.
- **The `run` command** (`src/commands/run.js`):
  - the actions and orientation of a local run, and the refusals of a cloud
    run;
  - the orientation of the dependency check, and whether the user must
    approve;
  - the dry-run short-circuit.
- **The two schedulers** that execute a run. Both build the same adjacency
  table, in which every component maps to the set of components it still
  waits on:
  - `src/helpers/distributors/distributor.js` (module `Distributor`) admits a
    component once its entry is empty, while its local-worker counter is
    below the thread limit. It counts workers per backend and reacts to
    `message` and `exit` events.
  - `src/helpers/distributor.js` (module `ClusterDistributor`) forks one
    cluster worker per component, bounded by the thread count. It stops
    everything on the first error.

Module layout:

- `Types`: fingerprints, orientations, backends and the component record.
- `DependencyTable`: building the table (both schedulers share this code) and
  relaxing it.
- `Scheduling`: the value-level invariants both schedulers keep.
  - `AdmittedFrom` and `Admitting` describe an admission pass.
  - `Tracks` relates the current table to the table as built, to the
    components that reported success and to the components dispatched.
- `Distributor` and `ClusterDistributor`: one class each, with the fields the
  source mutates. Each event handler is a method that may be called in any
  order.
- `CycleTheory` and `DependencyCycle`: cycles and the search for them.
  - The search is a class (`CycleSearch`) whose `color` and `path` fields are
    updated in place, like the source's `color` object and `path` array.
- `TerraformCommand`: the selection and checks.
- `RunCommand`: the `run` command.

The model works on these inputs, which stand for I/O or for code it does not
include:
- `Util.toMd5` is a function parameter `md5: Path -> Hash`.
- A regular expression is the predicate `string -> bool` it tests names with.
- The list of files git reports for the given commits is a parameter
  (`diffList`).
- The user's answer to the approval question is a parameter (`answer`).
- The thread count is a constructor parameter.

## Model

| member | source | states |
|---|---|---|
| TerraformCommand.ActiveChecks | src/terraform-command.js:124-130 | at most five filters; with no selection option given, none is active |
| TerraformCommand.SomeRejects | src/terraform-command.js:133 | true exactly when some filter of the list rejects the component |
| TerraformCommand.FiltersAreConjunction | src/terraform-command.js:124-134 | a component is deleted iff it fails the conjunction of the active selections; the git-diff selection is active only when it selected at least one component, and each include/exclude option only when its list is not empty |
| TerraformCommand.NoOptionsKeepEverything | src/terraform-command.js:124-134 | with an empty git-diff selection (no commits, or a diff that touched no component) and no include/exclude option, no component is deleted |
| TerraformCommand.GetConfig | src/terraform-command.js:116-141 | the result is the sub-map of exactly the surviving components, unchanged; the call throws `NoComponents` iff no component survives |
| TerraformCommand.Seeds | src/terraform-command.js:189-194 | the components a diff touches directly: only components, never one without a `mapping`, and none for an empty diff |
| TerraformCommand.SeedsOfAppend | src/terraform-command.js:193 | each changed file selects components on its own: the touched components of two diff lists together are those of each list |
| TerraformCommand.Unlisted | src/terraform-command.js:204-206 | the fingerprints of the paths that are not yet listed, one entry per such path, duplicates kept; a fingerprint occurs iff some path maps to it and it is unlisted |
| TerraformCommand.ExpandStaysLeast | src/terraform-command.js:198-211 | whatever one worklist round adds lies in every `dependsOn`-closed set containing the touched components |
| TerraformCommand.ExpandKeepsExpanded | src/terraform-command.js:198-211 | after a pop-and-push round, every listed fingerprint that is no longer pending is a component whose dependencies are all listed |
| TerraformCommand.GetGitDiff | src/terraform-command.js:175-214 | no commits selects nothing; more than two throw; otherwise the result is the least `dependsOn`-closed set of components containing the touched components; a popped fingerprint that is not a component throws, and that fingerprint belongs to every such closed set |
| TerraformCommand.GetConfigObject | src/terraform-command.js:274-305 | succeeds iff every dependency path maps to a component of the whole configuration; keeps keys, names and backends, with `dependsOn` the set of the paths' fingerprints; otherwise it throws exactly the missing (component, dependency) pairs |
| TerraformCommand.MissingDependencies | src/terraform-command.js:284-295 | every issue names a selected component and a dependency fingerprint that is not a component of the whole configuration; there is none iff every dependency path maps to such a component |
| TerraformCommand.DependencyIssues | src/terraform-command.js:414-431 | exactly one issue per pair of a run component and a dependency of it outside the run, and no other issue |
| TerraformCommand.InsideRun | src/terraform-command.js:447-450 | the fingerprints of the paths that are components of the run, at most one per path, and exactly those |
| TerraformCommand.ReverseDependencyIssues | src/terraform-command.js:439-459 | every component outside the run with at least one dependency inside it gets an issue listing exactly those dependencies; every issue is of that kind, and no component gets two |
| TerraformCommand.NoForwardIssuesIffClosed | src/terraform-command.js:414-431 | there is no forward issue iff the run is closed under `dependsOn`, iff the REVERSE table can be built |
| TerraformCommand.NoReverseIssuesIffClosedUnderDependents | src/terraform-command.js:439-459 | there is no reverse issue iff no component outside the run depends on one inside it |
| TerraformCommand.BidirectionalIsBoth | src/terraform-command.js:384-405 | the BIDIRECTIONAL check passes iff both one-way checks pass; a passing FORWARD check guarantees a buildable REVERSE table |
| TerraformCommand.IssuesFor | src/terraform-command.js:387-399 | FORWARD collects the forward issues only, REVERSE the reverse issues only, BIDIRECTIONAL both, and an unknown orientation none |
| TerraformCommand.CheckDependencies | src/terraform-command.js:384-405 | the orientation's issues throw before the cycle check; with no issue, the call succeeds iff the run has no cycle, and a failure names the components of a real cycle |
| TerraformCommand.NonExistingComponents | src/terraform-command.js:473-478 | exactly the `include` names that no component carries, at most one entry per include |
| CycleTheory.NamesOf | src/terraform-command.js:339 | one display name per component, position by position |
| CycleTheory.IndexOf | src/terraform-command.js:337 | the first position holding the element |
| CycleTheory.NoCycleUnderFinishOrder | src/terraform-command.js:328-344 | if every component finished after each of its dependencies in the run, the run has no cycle |
| CycleTheory.SuffixOfClosedPathIsCycle | src/terraform-command.js:336-339 | a chain that ends on a component it already passed through yields a cycle: the part after the first visit |
| CycleTheory.EnterKeepsUnfinished | src/terraform-command.js:353-356 | colouring a WHITE dependency of the path's top GRAY and pushing it keeps the search invariant and removes exactly that WHITE component |
| CycleTheory.LeaveKeepsUnfinished | src/terraform-command.js:372-373 | colouring the top BLACK and popping it, once its dependencies are BLACK, keeps the search invariant |
| CycleTheory.BlackNeverOnPath | src/terraform-command.js:353-376 | every component on the path is GRAY |
| CycleTheory.AllBlackHasNoCycle | src/terraform-command.js:334-342 | a search that leaves every component BLACK proves the run acyclic |
| DependencyCycle.CycleSearch.constructor | src/terraform-command.js:329-333 | every component starts WHITE, with an empty path |
| DependencyCycle.CycleSearch.DepthFirstSearch | src/terraform-command.js:353-376 | it either finds a closed chain, or leaves the component BLACK, the path as it was, BLACK components BLACK, and strictly fewer WHITE ones |
| DependencyCycle.CycleSearch.Enter | src/terraform-command.js:355-356 | the component turns GRAY and is pushed; the search invariant holds |
| DependencyCycle.CycleSearch.Leave | src/terraform-command.js:372-373 | the component turns BLACK and is popped; the search invariant holds |
| DependencyCycle.CycleSearch.ExploreDependencies | src/terraform-command.js:358-370 | it either finds a cycle, or leaves every dependency of the component in the run BLACK |
| DependencyCycle.CycleSearch.VisitDependency | src/terraform-command.js:359-369 | a WHITE dependency is searched, a GRAY one closes the path; a dependency in the run ends BLACK unless a cycle is found |
| DependencyCycle.CycleSearch.SearchEveryComponent | src/terraform-command.js:334 | it either finds a cycle or leaves every component BLACK |
| DependencyCycle.CycleOnPath | src/terraform-command.js:336-340 | the reported names are those of a real cycle, and there is at least one |
| DependencyCycle.GetDependencyCycle | src/terraform-command.js:328-344 | the report is non-empty iff the run has a cycle, and it then lists the names of a real cycle |
| RunCommand.RunLocal | src/commands/run.js:68-95 | destroy wins over apply over the default run; a destroy run plans a destroy in REVERSE orientation, every other run is FORWARD; every run starts with prepare, init and workspaceSelect |
| RunCommand.RunLocalShapes | src/commands/run.js:68-95 | the five possible action lists, written out by flag |
| RunCommand.RunLocalPlans | src/commands/run.js:68-95 | every local run plans |
| RunCommand.RunLocalAppliesIff | src/commands/run.js:68-95 | a local run applies iff apply is set and destroy is not |
| RunCommand.RunLocalDestroysIff | src/commands/run.js:68-95 | a local run destroys iff destroy is set |
| RunCommand.RunLocalBuildsIff | src/commands/run.js:68-95 | a local run builds iff build is set and destroy is not |
| RunCommand.DestroyIgnoresBuildAndApply | src/commands/run.js:87-94 | two destroy runs are the same whatever their build and apply flags |
| RunCommand.RunCloud | src/commands/run.js:102-116 | it refuses iff build or destroy is set, naming build first; otherwise it is a FORWARD plan, with apply when apply is set |
| RunCommand.CloudAgreesWithLocal | src/commands/run.js:102-116 | where the cloud run accepts the flags, it schedules what the local run does |
| RunCommand.CheckDirection | src/commands/run.js:123-143 | no check without apply or destroy; FORWARD for apply only, REVERSE for destroy only, BIDIRECTIONAL for both |
| RunCommand.IsApprovementRequired | src/commands/run.js:149-151 | approval is required iff the scheduled local run applies or destroys |
| RunCommand.CheckCoversSchedule | src/commands/run.js:123-151 | approval is required iff a check runs, and the check covers the issues of the orientation the run is scheduled in |
| RunCommand.Run | src/commands/run.js:25-47 | it rejects with the check's error iff the check fails: the orientation's issues when there are any, else a dependency cycle naming the components of a real cycle; a dry run then stops; otherwise it schedules the local run iff no approval is needed, auto-approve is on or the user confirms, and aborts otherwise |
| DependencyTable.BuildDependencyTable | src/helpers/distributors/distributor.js:74-100 | the table is one entry per component: FORWARD copies `dependsOn`, REVERSE lists the dependents, any other orientation leaves entries empty; REVERSE fails iff a dependency is outside the run |
| DependencyTable.TableSpec | src/helpers/distributors/distributor.js:74-100 | a built table has exactly the run's keys; building fails only in REVERSE orientation, and then iff some dependency lies outside the run |
| DependencyTable.CopyDependencies | src/helpers/distributors/distributor.js:84-88 | every entry becomes the component's `dependsOn` |
| DependencyTable.InvertDependencies | src/helpers/distributors/distributor.js:90-96 | the inverted table, or failure when some dependency has no entry |
| DependencyTable.InvertEdgesOf | src/helpers/distributors/distributor.js:92-94 | one component's edges are recorded under each dependency; fails iff a dependency has no entry |
| DependencyTable.Relaxed | src/helpers/distributors/distributor.js:108-112 | relaxation keeps the keys and every other edge, and removes the component from every waiting-set |
| DependencyTable.RemoveDependencies | src/helpers/distributors/distributor.js:108-112 | the relaxed table: the component is deleted from every waiting-set |
| DependencyTable.RelaxedIdempotent | src/helpers/distributors/distributor.js:108-112 | a repeated success report changes nothing more |
| DependencyTable.RelaxedCommutes | src/helpers/distributors/distributor.js:108-112 | the order of two success reports does not matter |
| DependencyTable.RelaxAndDispatchShrink | src/helpers/distributors/distributor.js:108-112 | relaxing and deleting keys only shrink the table |
| DependencyTable.ShrinkingNeverAddsEdges | src/helpers/distributors/distributor.js:108-112 | a shrinking table never gains keys or edges, so the counts never grow |
| DependencyTable.ShrinksTransitive | src/helpers/distributors/distributor.js:108-112 | shrinking composes over a sequence of events |
| DependencyTable.TableSpecShape | src/helpers/distributors/distributor.js:74-100 | the built table has exactly the run's keys; FORWARD entries are the `dependsOn` sets; REVERSE lists k under h iff k depends on h; other orientations leave entries empty |
| DependencyTable.ReverseInvertsForward | src/helpers/distributor.js:45-51 | REVERSE fails iff a dependency is outside the run; otherwise it is the FORWARD table with every edge reversed |
| Scheduling.AdmissionShrinks | src/helpers/distributors/distributor.js:205-225 | an admission pass only deletes keys, each with an empty entry, one per admitted component |
| Scheduling.EmptyTableAdmitsNothing | src/helpers/distributor.js:169 | after the table is emptied, no admission pass dispatches anything |
| Scheduling.AdmitKeepsAdmitting | src/helpers/distributors/distributor.js:209-225 | dispatching a ready key keeps the admission-pass invariant |
| Scheduling.SkipKeepsAdmitting | src/helpers/distributors/distributor.js:207-209 | skipping a waiting key keeps the admission-pass invariant |
| Scheduling.AdmittedEverything | src/helpers/distributors/distributor.js:205 | a pass that visited every key leaves no component ready |
| Scheduling.DispatchKeepsTracks | src/helpers/distributors/distributor.js:209-224 | dispatching a ready component keeps the table tracking the built one, and every component it waited on in the built table has reported success |
| Scheduling.RelaxKeepsTracks | src/helpers/distributors/distributor.js:169 | a success report keeps the table tracking the built one |
| Distributor.CountsPartitionBatch | src/helpers/distributors/distributor.js:239-257 | every dispatched component is counted under exactly one backend |
| Distributor.AppendNewIdKeepsUnique | src/helpers/distributors/distributor.js:165-167 | keeping a result only when its id is new keeps result ids unique |
| Distributor.ExecutorFor | src/helpers/distributors/distributor.js:243-255 | lambda and fargate components go to AWS; every other value, the default case included, runs locally |
| Distributor.Distributor.constructor | src/helpers/distributors/distributor.js:16-29 | all counters start at zero, with no errors and an empty table |
| Distributor.Distributor.RunActions | src/helpers/distributors/distributor.js:129-157 | a table that cannot be built rejects the run; otherwise the run listens with fresh results and a pending promise, having admitted ready components from the built table, each counted once in total and once under its backend; if the local counter stays below the limit, nothing ready is left; each admission happens while the local counter, as raised by the admissions before it, is still below the limit, so once it reaches the limit nothing more is admitted, whatever the backend |
| Distributor.Distributor.LoadTable | src/helpers/distributors/distributor.js:140-142 | the built table replaces the old one and becomes the reference the invariant tracks |
| Distributor.Distributor.GetDistributor | src/helpers/distributors/distributor.js:239-257 | only a local component raises the local counter, only a lambda one the lambda counter; the executor follows the backend |
| Distributor.Distributor.Dispatch | src/helpers/distributors/distributor.js:209-224 | one admitted component: counted, counted by backend, deleted from the table |
| Distributor.Distributor.Admit | src/helpers/distributors/distributor.js:205-225 | one admission step moves the pass invariant and every counter forward by exactly the admitted component |
| Distributor.Distributor.DistributeConfig | src/helpers/distributors/distributor.js:200-233 | it admits distinct components that waited on nothing and deletes exactly those; the counters grow by their number and by backend; if the local counter stays below the limit, nothing ready is left; each admission happens while the local counter, as raised by the admissions before it, is still below the limit, so once it reaches the limit nothing more is admitted, whatever the backend |
| Distributor.Distributor.ForwardDispatchWaitsForDependencies | src/helpers/distributors/distributor.js:200-233 | in FORWARD orientation a component is dispatched only after all of its dependencies reported success |
| Distributor.Distributor.RemoveDependencies | src/helpers/distributors/distributor.js:169 | the table is relaxed by the reporting component |
| Distributor.Distributor.OnMessage | src/helpers/distributors/distributor.js:158-170 | an error is only recorded; a success is kept unless its id is already kept, and it relaxes the table; the table only shrinks |
| Distributor.Distributor.Settle | src/helpers/distributors/distributor.js:190-191 | a settled promise stays settled |
| Distributor.Distributor.ReleaseAndReadmit | src/helpers/distributors/distributor.js:172-180 | one worker less in total and for its backend; admission happens only after a clean exit with no error, and such an exit runs a pass that leaves nothing ready while the local counter is below the limit; each admission happens while the local counter, as raised by the admissions before it, is still below the limit, so once it reaches the limit nothing more is admitted, whatever the backend |
| Distributor.Distributor.SettleIfDone | src/helpers/distributors/distributor.js:182-191 | it resolves iff nothing waits, nothing runs and nothing failed; it rejects iff something failed and nothing runs; it stays pending otherwise |
| Distributor.Distributor.OnExit | src/helpers/distributors/distributor.js:172-192 | one worker less in total and for its backend; a clean exit with no error re-admits, leaving nothing ready below the limit, and nothing else admits; then it resolves iff nothing waits, nothing runs and nothing failed, rejects iff something failed and nothing runs, and otherwise stays pending; each admission happens while the local counter, as raised by the admissions before it, is still below the limit, so once it reaches the limit nothing more is admitted, whatever the backend |
| ClusterDistributor.AsError | src/helpers/distributor.js:171 | an `Error` is kept; any other value becomes an `Error` naming its JSON text |
| ClusterDistributor.AsErrorIdempotent | src/helpers/distributor.js:171 | wrapping twice is wrapping once, and distinct non-errors wrap to distinct errors |
| ClusterDistributor.Distributor.constructor | src/helpers/distributor.js:14-21 | no worker, an empty table, no error, a pending promise |
| ClusterDistributor.Distributor.RunActions | src/helpers/distributor.js:107-122 | a table that cannot be built throws to the caller and changes nothing; otherwise fresh results and a pending promise, with ready components admitted from the built table, each admitted component holding a new worker and every new worker holding an admitted component, leaving nothing ready while below the bound; running workers keep their components |
| ClusterDistributor.Distributor.LoadTable | src/helpers/distributor.js:117 | the built table replaces the old one; nothing changes when the builder throws |
| ClusterDistributor.Distributor.CreateWorker | src/helpers/distributor.js:61-73 | one new worker under a fresh id, holding the component; the component leaves the table; the counter grows by one |
| ClusterDistributor.Distributor.DistributeConfigs | src/helpers/distributor.js:89-100 | it admits distinct ready components and deletes exactly those; each admitted component gets a new worker under a fresh id and every new worker holds an admitted component; running workers keep their components; if the bound is not reached, nothing ready is left |
| ClusterDistributor.Distributor.ForwardDispatchWaitsForDependencies | src/helpers/distributor.js:89-100 | until an error, in FORWARD orientation a component gets a worker only after all of its dependencies reported success |
| ClusterDistributor.Distributor.RemoveDependencies | src/helpers/distributor.js:80-84 | the table is relaxed by the reporting component |
| ClusterDistributor.Distributor.HandleError | src/helpers/distributor.js:163-172 | the table is emptied and the reported error is the wrapped payload |
| ClusterDistributor.Distributor.OnMessage | src/helpers/distributor.js:123-134 | an error replaces the recorded one and empties the table; a success keeps its data when present and relaxes the table; the table only shrinks |
| ClusterDistributor.Distributor.Release | src/helpers/distributor.js:137 | the exiting worker leaves the registry and the counter |
| ClusterDistributor.Distributor.ReleaseAndReadmit | src/helpers/distributor.js:136-141 | the worker leaves the registry and the counter; every other live worker stays; admission happens only after a clean exit, each admitted component gets a new worker, and such an exit leaves nothing ready while below the bound |
| ClusterDistributor.Distributor.SettleIfDone | src/helpers/distributor.js:143-152 | once no worker is live and nothing waits, a pending run rejects with the recorded error if there is one, else resolves with the results |
| ClusterDistributor.Distributor.OnExit | src/helpers/distributor.js:136-153 | the exit bookkeeping (the worker gone, the other live workers kept, a clean exit re-admitting up to the bound) followed by the settling rule |

## Left out

- Object key order: every loop over object keys picks its next key with `:|`, so each property holds for every order. The order of lists built from keys (the git-diff list, the issue lists) is not modelled, and the issue lists are sets of structured issues without their message text.
- The `await` interleaving of the new scheduler: each event handler runs to completion as one method call.
- Worker processes, `cluster.fork`, `worker.send`, `worker.kill`, websocket subscription, credentials, `fetch`, the lambda requirements loader and logging: the model keeps only their effect on counters, tables and registries.
- The cluster exit event is modelled as arriving after the worker has left `cluster.workers`; `Release` performs that removal.
- One `runActions` call per scheduler object: the source registers new handlers on every call, and earlier handlers would keep firing.
- The truthiness test on `data.data` in the cluster message handler is modelled as an `Option`; a present but falsy value, such as an empty string, counts as absent.
- `JSON.stringify` is abstracted to the `json` text carried by a non-error payload.
- A worker whose backend is not lambda or local raises no counter when dispatched. A fargate worker reports through the AWS channel, whose exit events are tagged 'lambda', so its exit lowers the lambda counter. A worker of an unrecognised backend runs locally and its exit lowers the local counter. The exit tag is a parameter of `OnExit`, so both cases are modelled as written.
- `getFilteredConfig` in `src/distributed-command.js` is not part of this model: `Run` receives the filtered configuration, and a scheduled `Step` leaves out its configuration.
- `getExtendedConfig` merging and the component loader are not modelled. The duplicate pushes of `getGitDiff` are modelled: two dependency paths with one fingerprint both go on the worklist (`Unlisted`), and the second pop finds nothing new to add.
- A run that never settles in the source is not modelled as such; the model has no notion of waiting forever. This covers a run in which no component is ever dispatched, and a plan-only FORWARD run (where no dependency check runs) in which a component waits on an excluded dependency or sits on a cycle.
- Distributor.Distributor.DistributeConfig: its precondition `Valid()` is the class invariant that every caller keeps. `ClusterDistributor.Distributor.CreateWorker` requires a ready key below the bound, as its single caller guarantees.
- Distributor.Distributor.ForwardDispatchWaitsForDependencies: states the property for a table built in FORWARD orientation, taken as a precondition.
- ClusterDistributor.Distributor.ForwardDispatchWaitsForDependencies: holds only until an error is recorded; `_handleError` empties the table, after which the tracking invariant is no longer kept.
- TerraformCommand.DependencyIssues: a dependency that is not a component of the whole configuration is reported as an issue, where the source throws a TypeError reading its name. This cannot happen in a run, since `getConfigObject` has already thrown for such a dependency.
- The exact wording of error messages, printing (`printListAsTree`, `warnExecutionStarted`) and the prompt itself: the user's answer is a parameter.
