# Governance and context-engine model

A Dafny model of two cooperating state machines in the repository's own tooling, with proofs of what they are for.

**GovernanceLite task lifecycle** (`tools/governance`). One workspace is shared by many tasks and many processes.
A writer lock is a file that is created, filled and unlinked in separate steps, with process death and process-id
reuse in the background (`ProcessIdentity`, `WriterLock`, `WriterLockLimits`, `TaskCleanup`). A task is started, edited, reconciled and
expanded, sent through its gates and finished; `SUCCESS` rests on change detection, a content digest and a gate
runner that reuses executions of equal identity (`WorkspaceDigest`, `TaskContext`, `GateRunner`, `TaskLifecycle`).
Routing decides which files and gates are involved (`ImpactScan`, `AcceptanceRoute`, `PathPolicy`).

**Authority context engine** (`tools/context`). Records of authority documents are addressed by JSON pointers
(`Locator`, sections 3 and 4 of RFC 6901), found by a bounded relationship search (`RelationshipClosure`, told by rounds in `RelationshipRounds`), selected
under quotas (`AuthoritySelection`), expanded under a budget (`AuthorityExpansion`) and remembered in a
deduplicating read history (`ContextHistory`). `CONTEXT_SUFFICIENT` has to mean that every required fact was really
loaded and is still current (`ContextProjection`; the whole refresh is composed in `ContextRefresh`). `AuthorityRefs`, `TextOrder` and `Basics` hold what they share.

**Migration replay** (`tools/current_facts.py`, `docs/authority/validation/validate_all.py`). Set and dictionary
shortcuts against replaying the migration log statement by statement (`MigrationReplay`).

Modelling conventions:

- A hash is an injective function: what is hashed is compared instead of the hash. `WorkspaceDigest` therefore proves
  that the text fed to SHA-256 determines the paths and their states.
- Regular expressions, fnmatch, YAML and the SQLite index are given predicates, trees, sequences and scores.
- The answers of the operating system, the files a directory holds, the results of gate commands and everything other
  processes do are parameters or events; runs are sequences of such events in any order.
- Code that edits in place is a class whose methods are tied to functions of the old state; loops of the source are
  loops here. The protocol of the lock is a state machine over atomic steps, and the three lock functions are methods
  whose effect is shown to be a run of that machine (`Leads`, `LeadsByRuns`).
- Texts are `seq<char>`; the order of texts is the order of their code points.

Where the code does not keep a property for all inputs, the exact condition is proved beside a concrete failing input:
`WalkAgreesWithClassifier`, `ResolversAgree`, `RecordsResolveToThemselves`, `FullCardinalityExactly`, `LoadingMakesProgress`,
`ForeignKeysAgree`, `LiveIsReplayed`, `StaticExactly`, `ReuseExactly`, `QuietReconciliation`.

## Model

| member | source | states |
|---|---|---|
| ProcessIdentity.StaleVerdictSound | tools/governance/process_identity.py:154-195 | Over every run of a process table with reused ids: a stale verdict about a recorded owner means that very incarnation has ended, and it never lives again |
| ProcessIdentity.StaleMeansEnded | tools/governance/process_identity.py:188-195 | The same for one verdict whose existence probe and creation-time read happen at different moments |
| ProcessIdentity.StaleExactly | tools/governance/process_identity.py:154-195 | Exactly which answers give a stale verdict; denied access, missing identity and invalid ids never do |
| ProcessIdentity.InspectExactly | tools/governance/process_identity.py:154-177 | Which answers of the operating system give which inspection status, for every status |
| ProcessIdentity.CurrentCreationExactly | tools/governance/process_identity.py:180-185 | An identity is stored exactly for a running process, as reported |
| ProcessIdentity.CaptureIsRecord | tools/governance/process_identity.py:180-185 | The identity stored at acquisition belongs to the process that holds the id at that moment |
| ProcessIdentity.RecordPersists | tools/governance/process_identity.py:18-30 | An owner record stays a record of the same incarnation through every later start, end and id reuse |
| WriterLock.StepKeepsInv | tools/governance/workspace_writer_lock.py:52-162 | Every atomic step of acquire, cleanup, release, process start and process end keeps the protocol invariant |
| WriterLock.MutualExclusion | tools/governance/workspace_writer_lock.py:88-162 | In every governed interleaving at most one returned, unreleased instance has a living recorded owner, and the lock file is its complete document |
| WriterLock.HeldUntilReleasedOrOwnerEnds | tools/governance/workspace_writer_lock.py:118-162 | A held instance stops being held only by its own release or by the end of its recorded owner |
| WriterLock.CleanupUnlinksOnlyTheCondemned | tools/governance/workspace_writer_lock.py:88-115 | At the unlink of cleanup_stale the linked file is still the instance that was judged stale, its owner has ended, and no held instance is lost |
| WriterLock.JudgedStaleIsDead | tools/governance/workspace_writer_lock.py:88-110 | Only a complete document with an ended owner can be judged stale; a half-written file never is |
| WriterLock.UnlinkSparesOthers | tools/governance/workspace_writer_lock.py:153-162 | One unlink of a release, whether or not its owner still lives, takes no other held instance out of force exactly if no other held instance is linked at that moment; a living owner is enough for that |
| WriterLock.WriteReachesExactly | tools/governance/workspace_writer_lock.py:128-150 | A write through the descriptor reaches the linked file only if it is still the same instance, and makes its document complete only at its end |
| WriterLock.LeadsByRuns | tools/governance/workspace_writer_lock.py:52-162 | The reachability used for the three lock functions and the failing runs is the existence of a run of atomic steps that keeps the named rule |
| WriterLockLimits.ConcurrentReleasesBreakExclusion | tools/governance/workspace_writer_lock.py:153-162 | release is outside the mutex: although every instance is given up while its owner lives, two releases of one instance at the same time lead to two held instances |
| WriterLockLimits.LateReleaseBreaksExclusion | tools/governance/workspace_writer_lock.py:153-162 | Although only one release ever runs, a release whose recorded owner ends before it unlinks leads to two held instances |
| WriterLock.Workspace.CleanupStale | tools/governance/workspace_writer_lock.py:88-115 | Without interference: removes the file exactly if it exists and its owner is mechanically stale; the effect is a run of the protocol |
| WriterLock.RemovableExactly | tools/governance/workspace_writer_lock.py:88-110 | Cleanup removes exactly the file of a complete document whose owner does not run or whose process id now has another creation identity |
| WriterLock.Workspace.Acquire | tools/governance/workspace_writer_lock.py:118-150 | Granted exactly if no file was there or the stale one was removed, with the recorded owner; otherwise the file is untouched and the answer tells own task from foreign task |
| WriterLock.Workspace.Release | tools/governance/workspace_writer_lock.py:153-162 | Unlinks exactly if the document names this task, and retires that instance |
| TaskCleanup.GovernanceTmp.CleanupOtherTasks | tools/governance/task_context.py:304-343 | Removes exactly the mechanically stale tasks other than the current one and keeps the rest in order |
| TaskCleanup.RemovedExactly | tools/governance/task_context.py:304-343 | Which entries cleanup removes, from the entry and the answers alone: never the own task, the holder of the authority lock or one without a recorded owner |
| TaskCleanup.LivingOwnerSurvives | tools/governance/task_context.py:304-343 | In every run of the process table, a task whose recorded owner still lives is never removed |
| PathPolicy.IterPolicyFiles | tools/governance/workspace_path_policy.py:105-126 | The stack walk with pruning yields, in order, the recursive walk of the tree |
| PathPolicy.ClassExactly | tools/governance/workspace_path_policy.py:33-73 | The class of every path: SOURCE if its rules claim the path, otherwise the first category in precedence order that claims it, SOURCE if none does; a claim is a directory name before the last part, an exact name, a name rule or a path prefix |
| PathPolicy.ClaimBoundsClass | tools/governance/workspace_path_policy.py:33-73 | A claim of an ordinary category makes the class that category or an earlier one, unless the SOURCE override claims the path |
| PathPolicy.DirectoryNameCounts | tools/governance/workspace_path_policy.py:33-46 | A directory name counts at every depth, for everything below that directory |
| PathPolicy.ProjectClassExactly | tools/governance/workspace_path_policy.py:16-73 | The class of every path under the project's policy, with every category's directories, names, suffixes and prefixes written out |
| PathPolicy.NothingGeneratedIsWalked | tools/governance/workspace_path_policy.py:105-126 | No file below a generated, cache, dependency or tool directory of the policy, at any depth, is ever yielded |
| PathPolicy.NoSecretIsWalked | tools/governance/workspace_path_policy.py:105-126 | No file the policy calls a secret is ever yielded, except by the override |
| PathPolicy.PushKept | tools/governance/workspace_path_policy.py:113-119 | The pruning step owes exactly the walks of the kept sub-directories, first one first |
| PathPolicy.TakeFiles | tools/governance/workspace_path_policy.py:120-126 | The files of one directory that are no links and whose class is included |
| PathPolicy.WalkFromExact | tools/governance/workspace_path_policy.py:105-126 | For every policy: the walk yields exactly the included non-link files reached without a link and under no pruned directory |
| PathPolicy.PrunedMeansExcluded | tools/governance/workspace_path_policy.py:33-73 | With a tail of included classes and no rule about the probe name, a pruned directory holds no file the classifier admits without the SOURCE override |
| PathPolicy.WalkAgreesWithClassifier | tools/governance/workspace_path_policy.py:33-126 | Under those two conditions walk and classifier agree on every file, except exactly the files that only the SOURCE override admits from inside a pruned directory |
| PathPolicy.WalkIsTheSimpleFilter | tools/governance/workspace_path_policy.py:62-126 | Without a SOURCE override the pruned walk is the pointwise filter |
| PathPolicy.ProjectWalk | tools/governance/workspace_path_policy.py:16-25 | The project's own policy file, which takes precedence over the default, meets the conditions; its walk misses `.env.example` in pruned directories and nothing else |
| PathPolicy.OverrideInsidePrunedDirectoryIsMissed | tools/governance/workspace_path_policy.py:62-119 | `node_modules/.env.example` is admitted by the classifier and never walked |
| PathPolicy.NonTailLosesFiles | tools/governance/workspace_path_policy.py:105-126 | An included set that is no tail of the precedence order loses admitted files |
| AcceptanceRoute.ComputeRank | tools/governance/required_gate_runner.py:546-588 | The accumulated rank of a route is its lexicographic rank vector, with the summed weight of the heaviest matching patterns |
| AcceptanceRoute.SelectRoute | tools/governance/required_gate_runner.py:508-594 | Invalid configuration, no applicable route, or the applicable route of lexicographically largest rank with the smallest id |
| AcceptanceRoute.ValidRoutesExactly | tools/governance/required_gate_runner.py:491-532 | Routes are invalid exactly if an id or a list entry is empty or has white space around it, a list repeats an entry, or two routes share an id |
| AcceptanceRoute.AppliesExactly | tools/governance/required_gate_runner.py:546-572 | A route applies exactly if each kind of fact it names at all is met by some fact of the task |
| AcceptanceRoute.SpecificityExactly | tools/governance/required_gate_runner.py:546-588 | The weight of a path is that of a heaviest pattern that matches it |
| AcceptanceRoute.BestDominates | tools/governance/required_gate_runner.py:573-594 | Of the best route and any other applicable one, in this order: canonical matches, their specificity, conditions, domains, affected paths, priority; then the smaller id |
| AcceptanceRoute.SelectionIgnoresOrder | tools/governance/required_gate_runner.py:546-594 | The chosen route depends neither on the order of the routes nor on order, repetition or slash style of the affected files |
| AcceptanceRoute.FilterTaskGates | tools/governance/required_gate_runner.py:461-488 | Which gates survive: all of them without an applicable route, otherwise those no route owns and those the best route owns |
| AcceptanceRoute.BestExists | tools/governance/required_gate_runner.py:546-594 | As soon as some route applies there is a best one |
| AcceptanceRoute.FilteredExactly | tools/governance/required_gate_runner.py:461-488 | A gate survives the filter exactly if it was selected and, where some route owns it and some route applies, the best route owns it |
| AcceptanceRoute.FilterIsIdempotent | tools/governance/required_gate_runner.py:461-488 | Any two results of the filter for the same routes and task facts: it only removes gates, filtering its result again changes nothing, and it works gate by gate |
| GateRunner.EligibleExactly | tools/governance/required_gate_runner.py:166-244 | An identity may be reused exactly if the environment gives every declared key a value with a character that is no white space |
| GateRunner.EqualIdentities | tools/governance/required_gate_runner.py:206-244 | Equal identities have the same command, timeout and declared keys; two gates share one only through a declared capability |
| GateRunner.RunGates | tools/governance/required_gate_runner.py:717-848 | The reuse loop: entry by entry what is written, and which gates are executed, each once and in order |
| GateRunner.StatusExactly | tools/governance/required_gate_runner.py:717-848 | A gate passes exactly if the execution that stands for it exited with 0; it is blocked or not configured exactly if it is not configured, invalid, or answered by a blocked environment |
| GateRunner.ReasonExactly | tools/governance/required_gate_runner.py:721-848 | Which reason a gate is reported with, exactly when, for every reason |
| GateRunner.TimeoutExactly | tools/governance/required_gate_runner.py:755-848 | A gate counts as timed out exactly if the execution that answers for it was, and carries an exit code exactly if that one exited, namely its code |
| GateRunner.VerdictExactly | tools/governance/required_gate_runner.py:850-878 | The verdict is PASS exactly if there is a gate and every execution behind a gate exited with 0, BLOCKED exactly if some gate was hindered, FAIL otherwise |
| GateRunner.ReuseRefinesRunningAll | tools/governance/required_gate_runner.py:717-870 | If outcomes depend on the identity alone, every gate has the status and exit code, and the report the verdict, of running every gate |
| GateRunner.ReuseExactly | tools/governance/required_gate_runner.py:755-848 | Gate by gate the reported status and exit code are those of running the gate, exactly if the first execution of the same identity answers as its own would |
| GateRunner.ReuseStructure | tools/governance/required_gate_runner.py:755-848 | An eligible identity is executed exactly once; a reused entry points to an earlier executed entry of the same identity with the same status |
| GateRunner.PassMeansExecuted | tools/governance/required_gate_runner.py:717-848 | Every PASS goes back to a command that exited with 0: the gate's own or the one of the same identity |
| GateRunner.FlakyCommandIsHidden | tools/governance/required_gate_runner.py:755-790 | Without that premise reuse can turn a failing run into PASS |
| WorkspaceDigest.WorkspaceStateDigest | tools/governance/task_context.py:197-225 | The hashing loop feeds exactly the sorted, slash-normalised paths with their states |
| WorkspaceDigest.StateTextExactly | tools/governance/task_context.py:203-220 | Which state is hashed for which path: invalid, ignored, absent, file content, link target, unreadable or no file |
| WorkspaceDigest.ChangesExactly | tools/governance/task_context.py:153-190 | A path is reported exactly if it was added, modified or deleted, each told from the baseline, the workspace and the tracking rules alone |
| WorkspaceDigest.DigestDetermined | tools/governance/task_context.py:197-225 | One workspace state and one affected set have one digest, in whatever order the files are given |
| WorkspaceDigest.EncodeInjective | tools/governance/task_context.py:203-225 | The NUL-separated encoding determines the list of paths and the state text of each, for NUL-free paths |
| WorkspaceDigest.DigestInjective | tools/governance/task_context.py:197-225 | Equal digests: same normalised affected set, and every tracked affected path has the same kind, content and link target |
| WorkspaceDigest.NulInPathCollides | tools/governance/task_context.py:203-225 | With a NUL inside a path two different affected sets have the same digest |
| ImpactScan.OwnerIndex | tools/governance/impact_scan.py:511-516 | The lookup table gives the last record with that owner, else the first with that domain |
| ImpactScan.RecordForExactly | tools/governance/impact_scan.py:511-516 | A node resolves to the last record with that owner, to the first record of the domain it names only if nothing has that owner, and to none exactly if neither exists |
| ImpactScan.NodeOfExactly | tools/governance/impact_scan.py:517-524 | A domain dependency stands for itself, any other for its normalised path |
| ImpactScan.AttachedExactly | tools/governance/impact_scan.py:511-528 | The authority files of a set of nodes: each record's own files and what its list expands to, and an authority path's expansion where there is no record |
| ImpactScan.DependencyClosure | tools/governance/impact_scan.py:511-528 | The worklist ends on every dependency graph, also cyclic ones, with exactly the reachable nodes and exactly the authority files attached to them |
| ImpactScan.ExploredIsComplete | tools/governance/impact_scan.py:511-528 | When the queue is empty no node reachable by any chain is missing |
| ImpactScan.ExpandModuleScope | tools/governance/impact_scan.py:750-764 | Module expansion gives the start files and every workspace file claimed by a non-authority record of a touched domain |
| ImpactScan.ModuleScopeExactly | tools/governance/impact_scan.py:750-764 | The module scope file by file, from the records alone: which record of which touched domain claims a file, by patterns or as a directory |
| ImpactScan.ModuleScopeBounds | tools/governance/impact_scan.py:750-764 | It keeps what it starts from and adds workspace files only |
| TaskContext.TaskFile.Expand | tools/governance/incremental_closure.py:39-73 | The stored context after an expansion: admitted files, widened scope, recomputed gates, reconciliation reset, decision status untouched |
| TaskContext.ExpansionExactly | tools/governance/incremental_closure.py:39-73 | What an expansion stores: the scope widens one step only for something unknown, each scope adds its files, gates and decision mode are those of the final files, reconciliation starts over and the decision stays |
| TaskContext.DecisionStatusExactly | tools/governance/task_governance.py:107-121 | A stored decision status counts as it is; without one an open decision mode requires a decision |
| TaskContext.TaskFile.Reconcile | tools/governance/final_reconciliation.py:20-43 | The bounded fixpoint loop as a function of the change sets measured in its rounds |
| TaskContext.TaskFile.ResolveProductDecision | tools/governance/task_governance.py:107-121 | A decision is recorded exactly if it is not blank and one is required |
| Basics.StripExactly | tools/governance/task_governance.py:110-112 | Stripping removes white space from both ends, nothing else, and leaves none there |
| TaskContext.PassCoversMeasured | tools/governance/final_reconciliation.py:20-43 | Whatever changes between rounds: PASS means the set measured in that round is inside the affected files; FAIL lists what is not; the decision is untouched |
| TaskContext.QuietReconciliation | tools/governance/final_reconciliation.py:20-43 | In a quiet workspace, at any scope, it passes exactly if the changes are covered (one round) or all admitted for impact scan (two rounds) |
| TaskContext.NeverAdmitted | tools/governance/incremental_closure.py:43-62 | A changed path the impact-scan policy does not admit keeps failing, in every round and at every scope |
| TaskContext.ExpandedBounds | tools/governance/incremental_closure.py:43-62 | An expansion holds admitted files only and loses no admitted one |
| TaskLifecycle.StepKeepsInv | tools/governance/task_governance.py:86-159 | Every step of edits, context stores, gate runs and finish keeps the lifecycle invariant |
| TaskLifecycle.SuccessIsSafe | tools/governance/task_governance.py:124-159 | In every run, at a successful close: each file added since the baseline, each modified and each deleted, as found at the check, is an affected file; every required gate really passed; every tracked affected file now has the state it had at the start and the end of that gate run; a required decision was resolved |
| TaskLifecycle.SuccessIsPossible | tools/governance/task_governance.py:86-159 | From any state of a task: if its decision is not open, its affected files cover every changed file and the commands of its required gates exit with 0, some steps finish it with success without touching the workspace |
| TaskLifecycle.ReconciliationCurrentExactly | tools/governance/task_context.py:232-249 | A reconciliation is current exactly if it passed and recorded the very files added, modified or deleted now, and all of them are affected files |
| TaskLifecycle.ReportAcceptedExactly | tools/governance/task_governance.py:131-159 | Finish accepts a report exactly if it is this task's, it passed, the last result of each required gate passed, and its digest is that of the affected files now |
| TaskLifecycle.EarlyReportExactly | tools/governance/required_gate_runner.py:663-712 | What is reported before any gate runs: when a run without gates passes, when it is blocked, and when the gates are run |
| TaskLifecycle.GateStartExactly | tools/governance/required_gate_runner.py:663-716 | A gate run begins, with the context and digest of that moment, exactly if no early report is written |
| TaskLifecycle.RequiredGatesReallyPassed | tools/governance/task_governance.py:139-153 | The report check implies a successful command behind each required gate |
| TaskLifecycle.ResolvedByExplicitStep | tools/governance/task_governance.py:107-121 | A required decision is resolved only by an earlier explicit non-blank decision, whose text is what is recorded |
| TaskLifecycle.EndGatesKeepsInv | tools/governance/required_gate_runner.py:850-878 | A report is written as stale exactly if the digest changed during the run; otherwise its digest is that of both end points |
| TaskLifecycle.GateEndExactly | tools/governance/required_gate_runner.py:850-878 | The written report: stale and blocked exactly if the digest changed, otherwise the verdict of the results, with the digest taken at the start |
| Locator.DecodeEncode | tools/context/authority_index.py:96-103 | Decoding a pointer segment undoes encoding it, on every text |
| Locator.PointerRoundTrip | tools/context/authority_index.py:96-106 | A resolver reads from a printed pointer the segments it was printed from |
| Locator.PointerInjective | tools/context/authority_index.py:105-106 | Non-empty segment lists print to different pointers |
| Locator.EmptyListCollides | tools/context/authority_index.py:105-106 | The empty list prints like the list of one empty segment |
| Locator.SelectorFollows | tools/context/authority_index.py:1347-1367 | Resolving a printed selector is following its segments through the document |
| Locator.RecordsResolveToThemselves | tools/context/authority_index.py:384-441 | Every record emitted from a document resolves by its selector to itself, exactly if each HTTP-method key is reachable under its lower-case spelling |
| Locator.DocumentRecordsExactly | tools/context/authority_index.py:384-441 | A record is emitted exactly if some unskipped section emits it: an entry of a list, a mapping entry, a path item or an operation |
| Locator.LowerCaseMethodsReachable | tools/context/authority_index.py:400-420 | Documents with lower-case methods meet that condition |
| Locator.UpperCaseMethodIsLost | tools/context/authority_index.py:400-420 | An upper-case method gets a selector that resolves to something else |
| Locator.SelectorsAreUnique | tools/context/authority_index.py:384-441 | No two records of a document share a selector when no path item spells a method twice |
| Locator.AnchorsAcceptExactly | tools/governance/source_anchors.py:149-163 | The anchor resolver accepts the empty pointer, and otherwise exactly what the selector resolver finds while arrays are indexed by plain digits only |
| Locator.ResolversAgree | tools/governance/source_anchors.py:149-163 | On every document and pointer the two resolvers agree on existence, exactly if the pointer is not empty and does not resolve through an array index other than plain digits |
| Locator.EmptyPointerDisagrees | tools/governance/source_anchors.py:149-151 | On every document the empty pointer is accepted by one resolver and an invalid selector for the other |
| Locator.SignedIndexDisagrees | tools/governance/source_anchors.py:149-163 | A signed array index is found by one resolver and refused by the other |
| Locator.DigitsAreIntegers | tools/governance/source_anchors.py:159-160 | Where both resolvers' notions of an index apply they agree: a digit text is a non-negative integer text |
| Locator.ParseIntDecimal | tools/context/authority_index.py:1347-1367 | A canonical decimal index parses to its number |
| Locator.ParseIntExactly | tools/context/authority_index.py:1347-1367 | A text is an index exactly if, between white space, it is a numeral with at most one sign |
| ContextHistory.TaskHistory.RecordContextRead | tools/context/context_loading.py:161-189 | One read: the new bucket, the one counter that rises, and whether content is withheld |
| ContextHistory.BucketsAreBounded | tools/context/context_loading.py:143-189 | After any log of calls: unique keys, at most 500, and exactly the 500 most recently inserted |
| ContextHistory.HistoryInvariant | tools/context/context_loading.py:161-189 | Every stored entry was delivered by an earlier call, and delivered expanded if it is marked so |
| ContextHistory.WithheldOnlyAfterDelivery | tools/context/context_loading.py:161-235 | Content is withheld only if not forced, the same read was delivered before, and delivered expanded if expansion is asked for |
| ContextHistory.CountersSum | tools/context/context_loading.py:161-189 | Each call raises exactly one of three counters, and the reuse counter counts exactly the withheld calls |
| ContextHistory.LoadIsStored | tools/context/context_loading.py:161-189 | A full load is stored with its evidence; while nothing is evicted, every other entry stays |
| RelationshipClosure.FindAnchors | tools/context/authority_index.py:915-945 | The anchors are exactly the canonical ids the request names, each once |
| RelationshipClosure.IsAnchorExactly | tools/context/authority_index.py:915-945 | A record is an anchor exactly if it has a canonical id and the request names that id or the structural one, explicitly or literally, or hits it exactly |
| RelationshipClosure.MarkedExactly | tools/context/authority_index.py:963-983 | A selected copy gains the reason and the least score of its kind and differs in nothing else |
| RelationshipClosure.AddRef | tools/context/authority_index.py:963-983 | A record is selected once, together with the edge that found it, and is a marked copy of a routed record |
| RelationshipClosure.VisitId | tools/context/authority_index.py:989-1025 | After an id is visited, every routed file that matches it has a selected record that matches it in the same way, and the references of what was found are queued or visited |
| RelationshipClosure.RelationshipSearch | tools/context/authority_index.py:985-1025 | The whole search: unique keys, one edge per record, every record within the hop bound of an anchor, every visited id covered, all anchors visited, all references of their records visited in a second round; selected keys and visited ids are exactly those of the search told by rounds |
| RelationshipRounds.EnqueueAllOk | tools/context/authority_index.py:1005-1025 | The mutable queue and origin table, up to visited ids, always hold the new ids in order of first mention and the path of each id's first referrer in this and in the previous round |
| RelationshipRounds.VisitsAreKnown | tools/context/authority_index.py:985-1025 | Only anchors and ids that a routed record references are ever visited |
| RelationshipRounds.VisitsUnique | tools/context/authority_index.py:985-995 | No id is visited twice |
| AuthorityRefs.SortOrdered | tools/context/authority_index.py:1000-1008 | Sorting by path and selector orders the records |
| RelationshipRounds.FoundAsExactly | tools/context/authority_index.py:996-1025 | What a visit finds, said without sorting: on each path that is not skipped the match with the smallest selector, or every referrer off the origin path in full cardinality |
| RelationshipClosure.SelectedExactly | tools/context/authority_index.py:985-1025 | A routed record is selected exactly if some visit of the rounds finds it |
| RelationshipClosure.SelectedRepresentatives | tools/context/authority_index.py:985-1025 | A routed record is selected exactly if, for some visited id, it is the match with the smallest selector on its path, or in full cardinality a referrer off the origin path |
| RelationshipClosure.WithinTwoHops | tools/context/authority_index.py:897-1036 | Each selected record is related to an anchor or to an id that a record related to an anchor references |
| RelationshipClosure.AnchorFilesKept | tools/context/authority_index.py:989-1010 | No routed file that mentions an anchor is lost, for every anchor; in full cardinality every routed record that references the first anchor is selected |
| RelationshipClosure.AnchorReferenceExactly | tools/context/authority_index.py:996-1012 | In full cardinality a routed record that references any anchor is selected exactly if it is not on that anchor's origin path, the path of the first referrer found for an earlier anchor, or comes back: through another visited id or as first of its path for some id |
| RelationshipClosure.FullCardinalityExactly | tools/context/authority_index.py:996-1012 | All referrers of an anchor are selected exactly if those on its origin path come back |
| RelationshipClosure.UnreferredAnchorKeepsAll | tools/context/authority_index.py:996-1012 | Every anchor that no routed record related to an earlier anchor references, the first one always among them, keeps all its referrers |
| RelationshipClosure.LaterAnchorLosesRecord | tools/context/authority_index.py:996-1012 | Two records of one file, anchors a and b: at every depth the record that references only b is never selected |
| RelationshipClosure.SecondHopKept | tools/context/authority_index.py:1005-1025 | Whatever a record found for an anchor references: every routed file that mentions it keeps a record that mentions it in the same way |
| AuthoritySelection.TakeExplicit | tools/context/authority_index.py:807-818 | Exact hits enter first and only the limit can keep one out |
| AuthoritySelection.TakeForPath | tools/context/authority_index.py:820-825 | A routed file gets its first not yet chosen candidate |
| AuthoritySelection.FillQuota | tools/context/authority_index.py:827-833 | A quota is met unless candidates or limit run out, and is not exceeded |
| AuthoritySelection.FillByRelevance | tools/context/authority_index.py:853-863 | Below the limit nothing is left out except by four records of the same section; no fifth record of a section enters unless it is an exact hit |
| AuthoritySelection.ChooseDiverse | tools/context/authority_index.py:794-875 | All phases together: unique keys within the limit, exact hits never displaced, every routed path with a candidate covered whenever the limit is at least exact hits plus routed paths, group and domain quotas met |
| AuthoritySelection.CoreMinimumRefs | tools/context/authority_index.py:1144-1153 | The best record of every routed file that has one, at most one per file |
| AuthoritySelection.SelectRefs | tools/context/authority_index.py:1154-1182 | No routed path and no relationship record is dropped, keys are unique, records number at most max(limit, relationship + core) and the baseline enters up to there; file references stand only for files with no record |
| AuthorityExpansion.ExpandAuthorityRefs | tools/context/authority_index.py:1394-1434 | Slices follow reference order, their sizes sum to the reported use, stay within both limits and are as long as these allow; all references before the stop are answered, and the loop stops only when nothing is left to give |
| AuthorityExpansion.StatusExactly | tools/context/authority_index.py:1420-1434 | Which references, slices and failures give which status, for every status |
| AuthorityExpansion.FailuresExactly | tools/context/authority_index.py:1404-1410 | Which error is reported exactly for which unreadable references |
| AuthorityExpansion.AllowedExactly | tools/context/authority_index.py:1404-1414 | A slice is as long as the record, its own limit and the rest of the budget allow |
| AuthorityExpansion.PassMeansComplete | tools/context/authority_index.py:1420-1434 | PASS, even after an early stop: each reference that is not a file reference has exactly one slice, with its complete record |
| AuthorityExpansion.CutOnlyAtALimit | tools/context/authority_index.py:1410-1414 | A cut record fills its own limit or the rest of the budget |
| AuthorityExpansion.UnlimitedPasses | tools/context/authority_index.py:1394-1434 | Without limits, loadable references always give PASS |
| ContextProjection.PriorityRefs | tools/context/context_projection.py:9-20 | Reordering drops no key, repeats none and changes no path's first record |
| ContextProjection.ValidatedEvidence | tools/context/context_projection.py:45-103 | The accepted records are exactly those a load by this task and consumer proves, each once; every other routed entry is listed with its first defect |
| ContextProjection.RequiredAuthorityRefs | tools/context/context_projection.py:106-168 | The required set is relationship, anchor and exact records plus one record for each routed path; which paths have none and which are loaded |
| ContextProjection.RequiredExactly | tools/context/context_projection.py:106-168 | Which keys are required, record by record: candidates, anchors, exact and relationship hits among the available records, and one record for each routed path |
| ContextProjection.EnrichTaskContext | tools/context/context_projection.py:180-208 | The refresh: loaded, required, missing and uncovered sets and the resulting decision |
| ContextProjection.DecisionExactly | tools/context/context_projection.py:180-208 | UNAVAILABLE exactly without sources; SUFFICIENT exactly if the index is ready, the query whole or only truncated, nothing is unrepresented, the closure of named anchors complete, every routed path has a record, all required keys are loaded, and an incomplete preview stands beside some required key |
| ContextProjection.SufficientIsSound | tools/context/context_projection.py:45-208 | SUFFICIENT implies that every routed path and every relationship record has a full load by this task and consumer that equals the current record, and no path is uncovered |
| ContextProjection.SufficientLoadsAnchors | tools/context/context_projection.py:106-208 | SUFFICIENT implies a full current load of every projected record that is an anchor or an exact hit |
| ContextProjection.LoadingMakesProgress | tools/context/context_projection.py:79-177 | After all missing records were loaded, the next refresh, with a required set computed anew from the changed history, misses nothing, exactly if all that was missing lies in routed files |
| ContextProjection.MoreLoadsLeaveNothingMissing | tools/context/context_projection.py:106-168 | A larger set of loaded records that holds all that was required also holds all that is required next |
| ContextProjection.UnroutedNeverLoaded | tools/context/context_projection.py:45-60 | A record outside the routed paths never counts as loaded, whatever is read |
| ContextProjection.CapacityBoundsSufficiency | tools/context/context_projection.py:171-208 | With more than 500 required records no history is ever sufficient |
| ContextRefresh.RunQuery | tools/context/authority_index.py:1132-1182 | Anchors, closure, baseline, selection and priority order together: the query carries every record of the relationship closure and represents every routed path |
| ContextRefresh.RefreshContext | tools/context/context_projection.py:180-208 | The whole refresh from the indexed records: SUFFICIENT means a full current load for every routed path and every record of the closure, with no further premise on the query |
| ContextRefresh.LoadedWasDelivered | tools/context/context_loading.py:161-189 | With the history any log of calls leaves, what counts as fully loaded was delivered, expanded, by an earlier call of this consumer |
| ContextRefresh.SufficientWasDelivered | tools/context/context_projection.py:45-208 | Over any log of reads: SUFFICIENT means each routed path and each relationship record was delivered expanded to this consumer |
| MigrationReplay.DdlCurrentCounts | tools/current_facts.py:76-105 | The counts are the sizes of created-minus-dropped and of the live foreign keys with the first parent of each name in its ALTER |
| MigrationReplay.DroppedTablesHaveNoKeys | tools/current_facts.py:83-105 | A key is counted exactly if its last edit added it and both its table and the referenced table were created and never dropped |
| MigrationReplay.CountedKeyIsFromItsTable | tools/current_facts.py:83-105 | The table of a counted key is that of the ALTER that added it last |
| MigrationReplay.ParseForeignKeys | docs/authority/validation/validate_all.py:137-164 | The dictionary is the result of the edits in log order |
| MigrationReplay.LastEditWins | docs/authority/validation/validate_all.py:147-164 | A name is in the dictionary exactly if its last operation is ADD, with that operation's value |
| MigrationReplay.ForeignKeysAgree | tools/current_facts.py:83-104 | Both implementations always hold the same names, and agree on one exactly if its last addition has the parent of the first addition in the same ALTER |
| MigrationReplay.CountsAgree | tools/current_facts.py:83-105 | If no ALTER adds a name twice, both implementations give the same live foreign keys |
| MigrationReplay.ReaddedKeyIsMiscounted | tools/current_facts.py:91-98 | After any log: re-adding a key to another parent in one ALTER makes the count lose a live key |
| MigrationReplay.LiveIsReplayed | tools/current_facts.py:76-80 | Created-minus-dropped is what sequential replay leaves, exactly for tables that are not re-created after their last drop |
| MigrationReplay.StaticExactly | docs/authority/validation/validate_all.py:281-284 | All creations, then all alterations, then all drops give the same table as replay in order, exactly if it is dropped and not re-created afterwards, or never dropped and its operations before the last creation would vanish |
| MigrationReplay.StaticIsReplayed | docs/authority/validation/validate_all.py:281-284 | The same columns, uniques and constraint names, if the table is not re-created after its last drop and is dropped or not altered before its last creation |
| MigrationReplay.EarlyAlterationBreaksStatic | docs/authority/validation/validate_all.py:281-284 | Altering a table and creating it afterwards: the static model applies the alteration, replay does not |
| MigrationReplay.StaticModel | docs/authority/validation/validate_all.py:281-284 | The mutated table objects hold exactly the live tables, each with its last definition and all its alterations |
| MigrationReplay.ApplyAlterTableColumns | docs/authority/validation/validate_all.py:79-135 | Every table ends as replaying its own operations leaves it, whatever happens to the others |
| MigrationReplay.TableModel.EditUniques | docs/authority/validation/validate_all.py:103-117 | One operation on the parallel lists is the same operation on the list of pairs |
| MigrationReplay.TableModel.ApplyAlter | docs/authority/validation/validate_all.py:99-135 | Index operations first and column operations second give what the operations give in text order |
| MigrationReplay.ColumnsAreLastEdits | docs/authority/validation/validate_all.py:118-135 | The columns are the dictionary of the last column operations |
| MigrationReplay.UniquesStayRegistered | docs/authority/validation/validate_all.py:103-117 | Every unique constraint stays in the list of constraint names, as often as it occurs |
| MigrationReplay.UniquesAreLastEdits | docs/authority/validation/validate_all.py:103-117 | If no name is reused while in use, names and column lists stay paired: they are the dictionary of the last operations |

## Left out

- WriterLock.MutualExclusion: assumes the callers' discipline (`Governed`): one release of an instance at a time, and complete instances given up only while their recorded owner lives; without either rule the property is false (`ConcurrentReleasesBreakExclusion`, `LateReleaseBreaksExclusion`).
- WriterLock.Workspace.Acquire: models a write that succeeds; a failing write, which unlinks the new file again, is the `Abort` step of the protocol machine.
- WriterLock.StepKeepsInv: one process snapshot is one atomic step here, although the operating system is asked twice; `StaleVerdictSound` covers the two moments.
- ProcessIdentity.StaleVerdictSound: assumes faithful answers of the operating system; the POSIX and Windows queries themselves are not modelled.
- TaskLifecycle.SuccessIsSafe: a change that is made and undone between the two digests of a gate run is invisible to the code; the theorem speaks of the two end points. Loading the context, checking reconciliation and taking the first digest are one step, and so are reading the gate report and taking the closing digest in finish.
- TaskLifecycle.ResolvedByExplicitStep: an expansion that recomputes the decision mode does not rewrite a stored decision status, so only the status stored by the scan is tracked.
- TaskContext.TaskFile.Expand: the required gates and the decision mode are given functions of the final file set (`recompute_metadata` is called without logical domains there), so no monotonicity of gates is claimed.
- Locator.ParseIntDecimal: `int`, `isdigit`, `strip` and `lower` are modelled on ASCII text, here and elsewhere.
- ContextProjection.RequiredAuthorityRefs: works on sets of keys; the order of the reported lists and the copied display fields are not modelled.
- ContextProjection.LoadingMakesProgress: assumes that no indexed or routed path holds a `#`, because a locator joins path and selector with it, and that the history has room for the loads; beyond 500 required records `CapacityBoundsSufficiency` applies.
- MigrationReplay.ParseForeignKeys: the result is the dictionary; the order of the returned list is not modelled.
- MigrationReplay.StaticModel: statements and operations come parsed, in text order; the regular expressions that find them are not modelled.
- PathPolicy.ProjectWalk: name patterns are matched case-sensitively, as on POSIX; the constants are those of the policy file under `.governance`.
- Start and abnormal end of a task (directory handling, read-only mode with a reused task id): task ids are taken to be fresh.
- Validation of the execution-identity metadata, command resolution, subprocess launch, time-outs and secret redaction of the gate runner: they end in a given `Plan` and `Outcome`.
- Relevance scores, request keywords, weak candidates and the status fields of the query result: the order of the scored records is given.
- The second domain pass of `_choose_diverse`: the candidates it looks at are those of the first pass.
- The authority preview and the repository-intelligence part of the context refresh: they enter as two given facts of the decision.
- Link targets that cannot be encoded, and hash collisions.
- Locks whose creator crashed before its document was complete: the code keeps them, and so does the model, without a liveness claim.
- `authority_lock.py`, the runtime copies under `agent-governance-lite`, gates, databases, templates and validators: field checks, rendering or near copies of what is modelled.
