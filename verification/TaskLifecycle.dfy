/**
 The life of one task over whole runs: workspace edits, context updates, gate runs and finish,
 interleaved in any order, and what a successful finish then guarantees.
 */
module TaskLifecycle {
  import opened Basics
  import opened WorkspaceDigest
  import opened TaskContext
  import GateRunner

  /** What stays fixed for the task; `decisionRequired` says that its scan stored REQUIRED as the decision status. */
  datatype Setup = Setup(task: string, rules: Rules, project: Project, baseline: map<string, Metadata>,
                         decisionRequired: bool)

  datatype GateReport = GateReport(task: string, status: GateRunner.Status, stale: bool, digest: Option<string>,
                           results: seq<GateRunner.Entry>)

  /** A gate run in progress: the context it loaded and the digest it took at its start. */
  datatype GateRun = GateRun(context: Context, digest: string, startAt: nat)

  /** History of the run that wrote the report; positions refer to `seen`. */
  datatype Evidence = Evidence(affected: set<string>, startAt: nat, endAt: nat, gates: seq<string>,
                               plans: seq<GateRunner.Plan>, outcomes: seq<GateRunner.Outcome>)

  /**
   `seen` holds every workspace state so far, the current one last; `copies` are contexts that some
   process has loaded and may still store back; `check` is what finish loaded before it closes.
   */
  datatype System = System(
    seen: seq<Workspace>, context: Context, copies: map<nat, Context>, runs: map<nat, GateRun>,
    report: Option<GateReport>, evidence: Option<Evidence>,
    check: Option<Context>, checkedAt: nat, resolvedBy: Option<string>, finished: bool)
  {
    function Now(): Workspace
      requires seen != []
    {
      seen[|seen| - 1]
    }
  }

  datatype Event =
    | Edit(workspace: Workspace)
    | Load(slot: nat)
    | StoreExpanded(slot: nat, newFiles: set<string>, unknown: bool)
    | StoreReconciled(slot: nat, measured: set<string>)
    | StoreResolved(slot: nat, decision: string)
    | GateStart(run: nat, timeoutValid: bool, configured: bool, allowNoGates: bool, digest: string)
    | GateEnd(run: nat, plans: seq<GateRunner.Plan>, outcomes: seq<GateRunner.Outcome>,
              results: seq<GateRunner.Entry>, digest: string)
    | FinishCheck
    | FinishClose(digest: string)

  /** final_reconciliation_is_current. */
  predicate ReconciliationCurrent(setup: Setup, c: Context, ws: Workspace) {
    var actual := Changes(setup.rules, setup.baseline, ws);
    && c.reconciliation == Passed
    && actual == (if c.actualChanged.Some? then c.actualChanged.value else {})
    && actual <= c.affected
  }

  /** The reports run_required writes before it runs any gate. */
  function EarlyReport(task: string, c: Context, current: bool, timeoutValid: bool, configured: bool,
                       allowNoGates: bool, digest: string): Option<GateReport> {
    if DecisionStatus(c) == Required || !current || !timeoutValid
    then Some(GateReport(task, GateRunner.Blocked, false, None, []))
    else if !configured then
      Some(GateReport(task, if allowNoGates then GateRunner.Pass else GateRunner.Blocked, false, Some(digest), []))
    else if c.requiredGates == [] then Some(GateReport(task, GateRunner.Pass, false, Some(digest), []))
    else None
  }

  function WorldOf(outcomes: seq<GateRunner.Outcome>): nat -> GateRunner.Outcome {
    (i: nat) => if i < |outcomes| then outcomes[i] else GateRunner.Raised(GateRunner.OsFailure)
  }

  function LastFor(results: seq<GateRunner.Entry>, gate: string): Option<GateRunner.Entry> {
    if results == [] then None
    else if results[|results| - 1].gate == gate then Some(results[|results| - 1])
    else LastFor(results[..|results| - 1], gate)
  }

  datatype Refusal =
    | DecisionRequired | ReconciliationRequired | GatesNotExecuted | TaskMismatch
    | ResultStale | GatesNotPass | ResultMissing

  /** The part of _assert_success_closure that reads the gate report; `digest` is taken last, and a hash is never empty. */
  function ReportRefusal(setup: Setup, c: Context, report: Option<GateReport>, digest: string): Option<Refusal> {
    if report.None? then Some(GatesNotExecuted)
    else
      var r := report.value;
      if r.task != setup.task then Some(TaskMismatch)
      else if r.status != GateRunner.Pass then Some(if r.stale then ResultStale else GatesNotPass)
      else if exists g <- c.requiredGates :: LastFor(r.results, g).None? then Some(ResultMissing)
      else if exists g <- c.requiredGates :: LastFor(r.results, g).value.status != GateRunner.Pass then Some(GatesNotPass)
      else if r.digest != Some(digest) then Some(ResultStale)
      else None
  }

  ghost predicate Step(setup: Setup, s: System, e: Event, t: System)
    requires s.seen != []
  {
    match e
    case Edit(ws) => StatesNulFree(setup.rules, ws) && t == s.(seen := s.seen + [ws])
    case Load(k) => t == s.(copies := s.copies[k := s.context])
    case StoreExpanded(k, files, unknown) =>
      && k in s.copies && (forall f <- files :: NulFree(f))
      && t == s.(context := Expanded(setup.project, s.copies[k], files, unknown))
    case StoreReconciled(k, measured) =>
      && k in s.copies
      && t == s.(context := if measured <= s.copies[k].affected then PassedWith(s.copies[k], measured, 1)
                            else FailedWith(s.copies[k], measured))
    case StoreResolved(k, decision) =>
      && k in s.copies && Strip(decision) != "" && DecisionStatus(s.copies[k]) == Required
      && t == s.(context := ResolvedWith(s.copies[k], decision), resolvedBy := Some(Strip(decision)))
    case GateStart(r, timeoutValid, configured, allowNoGates, d) =>
      && IsDigest(setup.rules, s.Now(), s.context.affected, d)
      && t == StartGates(setup, s, r, timeoutValid, configured, allowNoGates, d)
    case GateEnd(r, plans, outcomes, results, d) =>
      && r in s.runs
      && GateRunner.IsLoopResult(s.runs[r].context.requiredGates, plans, WorldOf(outcomes), results)
      && IsDigest(setup.rules, s.Now(), s.runs[r].context.affected, d)
      && t == EndGates(setup, s, r, plans, outcomes, results, d)
    case FinishCheck =>
      && DecisionStatus(s.context) != Required
      && ReconciliationCurrent(setup, s.context, s.Now())
      && t == s.(check := Some(s.context), checkedAt := |s.seen| - 1)
    case FinishClose(d) =>
      && s.check.Some?
      && IsDigest(setup.rules, s.Now(), s.check.value.affected, d)
      && ReportRefusal(setup, s.check.value, s.report, d).None?
      && t == s.(finished := true)
  }

  function StartGates(setup: Setup, s: System, r: nat, timeoutValid: bool, configured: bool, allowNoGates: bool, d: string): System
    requires s.seen != []
  {
    var now := |s.seen| - 1;
    var early := EarlyReport(setup.task, s.context, ReconciliationCurrent(setup, s.context, s.Now()),
                             timeoutValid, configured, allowNoGates, d);
    if early.Some? then s.(report := early, evidence := Some(Evidence(s.context.affected, now, now, [], [], [])))
    else s.(runs := s.runs[r := GateRun(s.context, d, now)])
  }

  function Reported(s: System, r: GateReport, ev: Option<Evidence>, runs: map<nat, GateRun>): System {
    s.(report := Some(r), evidence := ev, runs := runs)
  }

  function EndGates(setup: Setup, s: System, r: nat, plans: seq<GateRunner.Plan>, outcomes: seq<GateRunner.Outcome>,
                    results: seq<GateRunner.Entry>, d: string): System
    requires s.seen != [] && r in s.runs
  {
    var run := s.runs[r];
    if d != run.digest then
      Reported(s, GateReport(setup.task, GateRunner.Blocked, true, Some(run.digest), results), None, s.runs - {r})
    else
      Reported(s, GateReport(setup.task, GateRunner.Overall(results), false, Some(run.digest), results),
               Some(Evidence(run.context.affected, run.startAt, |s.seen| - 1, run.context.requiredGates, plans, outcomes)),
               s.runs - {r})
  }

  /** Before any gate runs: blocked by an open decision, a stale reconciliation or an invalid time-out, or when nothing is configured and that is not allowed. */
  lemma EarlyReportExactly(task: string, c: Context, current: bool, timeoutValid: bool, configured: bool, allowNoGates: bool, digest: string)
    ensures var r := EarlyReport(task, c, current, timeoutValid, configured, allowNoGates, digest);
            var ready := DecisionStatus(c) != Required && current && timeoutValid;
            && (r.Some? && r.value.status == GateRunner.Pass <==>
                  ready && if configured then c.requiredGates == [] else allowNoGates)
            && (r.Some? && r.value.status == GateRunner.Blocked <==> !ready || (!configured && !allowNoGates))
            && (r.None? <==> ready && configured && c.requiredGates != [])
            && (r.Some? ==> r.value.task == task && r.value.results == [] && (r.value.digest == Some(digest) <==> ready))
  {}

  // ---- Invariant ----

  ghost predicate SetupOk(setup: Setup) {
    && HashOk(setup.rules)
    && forall f <- setup.project.allFiles :: NulFree(f)
  }

  /** A stored REQUIRED decision is still there unless it was resolved; affected files are real path names. */
  predicate ContextOk(setup: Setup, resolved: bool, c: Context) {
    && (setup.decisionRequired ==> c.decision == Some(Required) || resolved)
    && forall f <- c.affected :: NulFree(f)
  }

  ghost predicate EvidenceOk(setup: Setup, seen: seq<Workspace>, r: GateReport, ev: Evidence) {
    && ev.startAt <= ev.endAt < |seen|
    && (forall f <- ev.affected :: NulFree(f))
    && r.digest.Some?
    && IsDigest(setup.rules, seen[ev.startAt], ev.affected, r.digest.value)
    && IsDigest(setup.rules, seen[ev.endAt], ev.affected, r.digest.value)
    && (r.results != [] ==> GateRunner.IsLoopResult(ev.gates, ev.plans, WorldOf(ev.outcomes), r.results))
  }

  ghost predicate RunOk(setup: Setup, seen: seq<Workspace>, resolved: bool, run: GateRun) {
    && run.startAt < |seen|
    && ContextOk(setup, resolved, run.context)
    && IsDigest(setup.rules, seen[run.startAt], run.context.affected, run.digest)
  }

  ghost predicate Inv(setup: Setup, s: System) {
    && s.seen != []
    && (forall ws <- s.seen :: StatesNulFree(setup.rules, ws))
    && ContextOk(setup, s.resolvedBy.Some?, s.context)
    && (forall k <- s.copies :: ContextOk(setup, s.resolvedBy.Some?, s.copies[k]))
    && (forall r <- s.runs :: RunOk(setup, s.seen, s.resolvedBy.Some?, s.runs[r]))
    && (s.report.Some? && s.report.value.status == GateRunner.Pass ==>
          s.evidence.Some? && EvidenceOk(setup, s.seen, s.report.value, s.evidence.value))
    && (s.check.Some? ==>
          && ContextOk(setup, s.resolvedBy.Some?, s.check.value) && DecisionStatus(s.check.value) != Required
          && s.checkedAt < |s.seen| && ReconciliationCurrent(setup, s.check.value, s.seen[s.checkedAt]))
  }

  /** A task just started: no report, no copies, nothing reconciled or resolved yet. */
  ghost predicate Started(setup: Setup, s: System) {
    && |s.seen| == 1 && StatesNulFree(setup.rules, s.seen[0])
    && (setup.decisionRequired ==> s.context.decision == Some(Required))
    && (forall f <- s.context.affected :: NulFree(f))
    && s.copies == map[] && s.runs == map[] && s.report.None? && s.check.None? && s.resolvedBy.None? && !s.finished
  }

  /** Nothing in the past changes when the workspace history grows or a decision gets resolved. */
  lemma GrowKeepsInv(setup: Setup, s: System, t: System)
    requires Inv(setup, s) && s.seen <= t.seen
    requires forall ws <- t.seen :: StatesNulFree(setup.rules, ws)
    requires s.resolvedBy.Some? ==> t.resolvedBy.Some?
    requires t == s.(seen := t.seen, resolvedBy := t.resolvedBy)
    ensures Inv(setup, t)
  {
    assert forall i :: 0 <= i < |s.seen| ==> t.seen[i] == s.seen[i];
  }

  lemma ExpandedOk(setup: Setup, resolved: bool, c: Context, files: set<string>, unknown: bool)
    requires SetupOk(setup) && ContextOk(setup, resolved, c) && forall f <- files :: NulFree(f)
    ensures ContextOk(setup, resolved, Expanded(setup.project, c, files, unknown))
  {
    ImpactScan.ModuleScopeBounds(setup.project.facts, setup.project.records, setup.project.requestDomains, setup.project.allFiles,
                                 set f <- c.affected + files | setup.project.impactAllowed(f));
  }

  lemma StoreKeepsInv(setup: Setup, s: System, c: Context)
    requires Inv(setup, s) && ContextOk(setup, s.resolvedBy.Some?, c)
    ensures Inv(setup, s.(context := c))
  {}

  lemma ContextEventKeepsInv(setup: Setup, s: System, e: Event, t: System)
    requires SetupOk(setup) && Inv(setup, s) && Step(setup, s, e, t)
    requires e.StoreExpanded? || e.StoreReconciled?
    ensures Inv(setup, t)
  {
    if e.StoreExpanded? {
      ExpandedOk(setup, s.resolvedBy.Some?, s.copies[e.slot], e.newFiles, e.unknown);
    }
    StoreKeepsInv(setup, s, t.context);
  }

  lemma LoadKeepsInv(setup: Setup, s: System, e: Event, t: System)
    requires Inv(setup, s) && Step(setup, s, e, t) && (e.Load? || e.FinishCheck? || e.FinishClose?)
    ensures Inv(setup, t)
  {}

  lemma ResolveKeepsInv(setup: Setup, s: System, e: Event, t: System)
    requires Inv(setup, s) && Step(setup, s, e, t) && e.StoreResolved?
    ensures Inv(setup, t)
  {
    GrowKeepsInv(setup, s, s.(resolvedBy := t.resolvedBy));
  }

  lemma ReportKeepsInv(setup: Setup, s: System, r: GateReport, ev: Option<Evidence>, runs: map<nat, GateRun>)
    requires Inv(setup, s)
    requires r.status == GateRunner.Pass ==> ev.Some? && EvidenceOk(setup, s.seen, r, ev.value)
    requires forall k <- runs :: k in s.runs && runs[k] == s.runs[k]
    ensures Inv(setup, Reported(s, r, ev, runs))
  {}

  lemma BeginKeepsInv(setup: Setup, s: System, k: nat, run: GateRun)
    requires Inv(setup, s) && RunOk(setup, s.seen, s.resolvedBy.Some?, run)
    ensures Inv(setup, s.(runs := s.runs[k := run]))
  {}

  lemma StartGatesKeepsInv(setup: Setup, s: System, r: nat, timeoutValid: bool, configured: bool, allowNoGates: bool, d: string)
    requires Inv(setup, s) && IsDigest(setup.rules, s.Now(), s.context.affected, d)
    ensures Inv(setup, StartGates(setup, s, r, timeoutValid, configured, allowNoGates, d))
  {
    var now := |s.seen| - 1;
    var early := EarlyReport(setup.task, s.context, ReconciliationCurrent(setup, s.context, s.Now()),
                             timeoutValid, configured, allowNoGates, d);
    if early.Some? {
      var ev := Evidence(s.context.affected, now, now, [], [], []);
      assert early.value.status == GateRunner.Pass ==> EvidenceOk(setup, s.seen, early.value, ev);
      ReportKeepsInv(setup, s, early.value, Some(ev), s.runs);
    } else {
      BeginKeepsInv(setup, s, r, GateRun(s.context, d, now));
    }
  }

  lemma EndGatesKeepsInv(setup: Setup, s: System, r: nat, plans: seq<GateRunner.Plan>, outcomes: seq<GateRunner.Outcome>,
                         results: seq<GateRunner.Entry>, d: string)
    requires Inv(setup, s) && r in s.runs
    requires GateRunner.IsLoopResult(s.runs[r].context.requiredGates, plans, WorldOf(outcomes), results)
    requires IsDigest(setup.rules, s.Now(), s.runs[r].context.affected, d)
    ensures Inv(setup, EndGates(setup, s, r, plans, outcomes, results, d))
  {
    if d == s.runs[r].digest {
      FreshEndKeepsInv(setup, s, r, plans, outcomes, results);
    } else {
      StaleEndKeepsInv(setup, s, r, results);
    }
  }

  lemma StaleEndKeepsInv(setup: Setup, s: System, r: nat, results: seq<GateRunner.Entry>)
    requires Inv(setup, s) && r in s.runs
    ensures Inv(setup, Reported(s, GateReport(setup.task, GateRunner.Blocked, true, Some(s.runs[r].digest), results), None, s.runs - {r}))
  {
    ReportKeepsInv(setup, s, GateReport(setup.task, GateRunner.Blocked, true, Some(s.runs[r].digest), results), None, s.runs - {r});
  }

  lemma FreshEndKeepsInv(setup: Setup, s: System, r: nat, plans: seq<GateRunner.Plan>, outcomes: seq<GateRunner.Outcome>,
                         results: seq<GateRunner.Entry>)
    requires Inv(setup, s) && r in s.runs
    requires GateRunner.IsLoopResult(s.runs[r].context.requiredGates, plans, WorldOf(outcomes), results)
    requires IsDigest(setup.rules, s.Now(), s.runs[r].context.affected, s.runs[r].digest)
    ensures Inv(setup, EndGates(setup, s, r, plans, outcomes, results, s.runs[r].digest))
  {
    var run := s.runs[r];
    EndedRunOk(setup, s.seen, s.resolvedBy.Some?, run, plans, outcomes, results);
    ReportKeepsInv(setup, s, GateReport(setup.task, GateRunner.Overall(results), false, Some(run.digest), results),
                   Some(Evidence(run.context.affected, run.startAt, |s.seen| - 1, run.context.requiredGates, plans, outcomes)),
                   s.runs - {r});
  }

  lemma EndedRunOk(setup: Setup, seen: seq<Workspace>, resolved: bool, run: GateRun, plans: seq<GateRunner.Plan>,
                   outcomes: seq<GateRunner.Outcome>, results: seq<GateRunner.Entry>)
    requires RunOk(setup, seen, resolved, run) && seen != []
    requires IsDigest(setup.rules, seen[|seen| - 1], run.context.affected, run.digest)
    requires GateRunner.IsLoopResult(run.context.requiredGates, plans, WorldOf(outcomes), results)
    ensures EvidenceOk(setup, seen, GateReport(setup.task, GateRunner.Overall(results), false, Some(run.digest), results),
                       Evidence(run.context.affected, run.startAt, |seen| - 1, run.context.requiredGates, plans, outcomes))
  {}

  lemma StepKeepsInv(setup: Setup, s: System, e: Event, t: System)
    requires SetupOk(setup) && Inv(setup, s) && Step(setup, s, e, t)
    ensures Inv(setup, t)
  {
    match e
    case Edit(_) => GrowKeepsInv(setup, s, t);
    case StoreResolved(_, _) => ResolveKeepsInv(setup, s, e, t);
    case GateStart(r, timeoutValid, configured, allowNoGates, d) =>
      StartGatesKeepsInv(setup, s, r, timeoutValid, configured, allowNoGates, d);
    case GateEnd(r, plans, outcomes, results, d) =>
      EndGatesKeepsInv(setup, s, r, plans, outcomes, results, d);
    case StoreExpanded(_, _, _) => ContextEventKeepsInv(setup, s, e, t);
    case StoreReconciled(_, _) => ContextEventKeepsInv(setup, s, e, t);
    case _ => LoadKeepsInv(setup, s, e, t);
  }

  // ---- Whole runs ----

  ghost predicate Follows(setup: Setup, systems: seq<System>, events: seq<Event>) {
    && |systems| == |events| + 1
    && (forall s <- systems :: s.seen != [])
    && forall i :: 0 <= i < |events| ==> Step(setup, systems[i], events[i], systems[i + 1])
  }

  ghost predicate IsRun(setup: Setup, systems: seq<System>, events: seq<Event>) {
    Follows(setup, systems, events) && Started(setup, systems[0])
  }

  lemma {:induction false} RunKeepsInv(setup: Setup, systems: seq<System>, events: seq<Event>, i: nat)
    requires SetupOk(setup) && IsRun(setup, systems, events) && i < |systems|
    ensures Inv(setup, systems[i])
  {
    if i > 0 {
      RunKeepsInv(setup, systems, events, i - 1);
      StepKeepsInv(setup, systems[i - 1], events[i - 1], systems[i]);
    }
  }

  /** The command behind a gate's PASS exited with 0: its own, or the one with the same execution identity. */
  ghost predicate ReallyPassed(ev: Evidence, gate: string) {
    exists i, c :: 0 <= c <= i < |ev.gates| && |ev.plans| == |ev.gates| && ev.gates[i] == gate
                   && GateRunner.RunsItself(ev.plans, c)
                   && (c == i || GateRunner.SameExecution(ev.plans, i, c))
                   && c < |ev.outcomes| && ev.outcomes[c].Exited? && ev.outcomes[c].code == 0
  }

  lemma {:induction false} LastForIsEntry(results: seq<GateRunner.Entry>, gate: string)
    ensures LastFor(results, gate).Some? ==>
              exists i :: 0 <= i < |results| && results[i] == LastFor(results, gate).value && results[i].gate == gate
  {
    if results != [] && results[|results| - 1].gate != gate {
      LastForIsEntry(results[..|results| - 1], gate);
    }
  }

  lemma PassingEntry(ev: Evidence, results: seq<GateRunner.Entry>, gate: string)
    requires GateRunner.IsLoopResult(ev.gates, ev.plans, WorldOf(ev.outcomes), results)
    requires LastFor(results, gate).Some? && LastFor(results, gate).value.status == GateRunner.Pass
    ensures ReallyPassed(ev, gate)
  {
    LastForIsEntry(results, gate);
    var i :| 0 <= i < |results| && results[i] == LastFor(results, gate).value && results[i].gate == gate;
    var world := WorldOf(ev.outcomes);
    GateRunner.EntryGate(ev.gates, ev.plans, world, results, i);
    GateRunner.PassMeansExecuted(ev.gates, ev.plans, world, results, i);
    var c :| 0 <= c <= i && GateRunner.RunsItself(ev.plans, c) && (c == i || GateRunner.SameExecution(ev.plans, i, c))
             && world(c).Exited? && world(c).code == 0;
    assert c < |ev.outcomes| && ev.outcomes[c] == world(c);
  }

  lemma RequiredGatesReallyPassed(setup: Setup, s: System, d: string, gate: string)
    requires Inv(setup, s) && s.check.Some? && ReportRefusal(setup, s.check.value, s.report, d).None?
    requires gate in s.check.value.requiredGates
    ensures s.evidence.Some? && ReallyPassed(s.evidence.value, gate)
  {
    var r := s.report.value;
    assert LastFor(r.results, gate).Some? && LastFor(r.results, gate).value.status == GateRunner.Pass;
    PassingEntry(s.evidence.value, r.results, gate);
  }

  /** Added, modified or deleted since the start of the task. */
  predicate ChangedFile(setup: Setup, ws: Workspace, p: string) {
    || Added(setup.rules, setup.baseline, ws, p)
    || Modified(setup.rules, setup.baseline, ws, p)
    || Deleted(setup.rules, setup.baseline, ws, p)
  }

  /** A reconciliation is current exactly if it passed, recorded the very files that are changed now, and all of them are affected files. */
  lemma ReconciliationCurrentExactly(setup: Setup, c: Context, ws: Workspace)
    ensures ReconciliationCurrent(setup, c, ws) <==>
              && c.reconciliation == Passed
              && (forall p :: ChangedFile(setup, ws, p) <==> c.actualChanged.Some? && p in c.actualChanged.value)
              && (forall p | ChangedFile(setup, ws, p) :: p in c.affected)
  {
    forall p ensures p in Changes(setup.rules, setup.baseline, ws) <==> ChangedFile(setup, ws, p) {
      ChangesExactly(setup.rules, setup.baseline, ws, p);
    }
  }

  /** What a successful finish guarantees about the moment of its check and about the current workspace. */
  ghost predicate SafeSuccess(setup: Setup, s: System) {
    && s.seen != [] && s.check.Some? && s.evidence.Some?
    && var c, ev := s.check.value, s.evidence.value;
       && s.checkedAt < |s.seen| && ev.startAt <= ev.endAt < |s.seen|
       && (forall p | ChangedFile(setup, s.seen[s.checkedAt], p) :: p in c.affected)
       && (forall gate <- c.requiredGates :: ReallyPassed(ev, gate))
       && (forall p <- Normalize(c.affected) | setup.rules.proper(p) && setup.rules.digested(p) ::
             SameState(s.seen[ev.startAt], s.Now(), p) && SameState(s.seen[ev.endAt], s.Now(), p))
       && (setup.decisionRequired ==> s.resolvedBy.Some?)
  }

  lemma CloseIsSafe(setup: Setup, s: System, d: string, t: System)
    requires SetupOk(setup) && Inv(setup, s) && Step(setup, s, FinishClose(d), t)
    ensures SafeSuccess(setup, s)
  {
    var c, r, ev := s.check.value, s.report.value, s.evidence.value;
    forall gate <- c.requiredGates ensures ReallyPassed(ev, gate) {
      RequiredGatesReallyPassed(setup, s, d, gate);
    }
    ReconciliationCurrentExactly(setup, c, s.seen[s.checkedAt]);
    assert r.digest == Some(d);
    assert s.Now() in s.seen && s.seen[ev.startAt] in s.seen && s.seen[ev.endAt] in s.seen;
    DigestInjective(setup.rules, s.seen[ev.startAt], ev.affected, s.Now(), c.affected, d);
    DigestInjective(setup.rules, s.seen[ev.endAt], ev.affected, s.Now(), c.affected, d);
  }

  /**
   In every run, whenever finish closes with success: every change found at its check is inside the affected
   files; every gate it requires really passed; every affected file the digest policy does not ignore has now the
   state it had both when that gate run started and when it ended; a required decision was resolved.
   */
  lemma SuccessIsSafe(setup: Setup, systems: seq<System>, events: seq<Event>, i: nat)
    requires SetupOk(setup) && IsRun(setup, systems, events)
    requires i < |events| && events[i].FinishClose?
    ensures SafeSuccess(setup, systems[i])
  {
    RunKeepsInv(setup, systems, events, i);
    CloseIsSafe(setup, systems[i], events[i].digest, systems[i + 1]);
  }

  /** A required decision is resolved only by an explicit, non-blank user decision earlier in the run. */
  lemma {:induction false} ResolvedByExplicitStep(setup: Setup, systems: seq<System>, events: seq<Event>, i: nat)
    requires IsRun(setup, systems, events) && i < |systems| && systems[i].resolvedBy.Some?
    ensures exists j :: 0 <= j < i && events[j].StoreResolved? && Strip(events[j].decision) != ""
                        && systems[i].resolvedBy == Some(Strip(events[j].decision))
  {
    var e := events[i - 1];
    assert Step(setup, systems[i - 1], e, systems[i]);
    if !e.StoreResolved? {
      ResolvedByExplicitStep(setup, systems, events, i - 1);
    }
  }

  // ---- Success can be reached ----

  /** Some events lead from s to a successful finish without any change to the workspace. */
  ghost predicate CanFinish(setup: Setup, s: System) {
    exists systems: seq<System>, events: seq<Event> ::
      && Follows(setup, systems, events) && systems[0] == s
      && systems[|events|].finished && systems[|events|].seen == s.seen
  }

  lemma Before(setup: Setup, s: System, e: Event, t: System)
    requires s.seen != [] && Step(setup, s, e, t) && t.seen == s.seen && CanFinish(setup, t)
    ensures CanFinish(setup, s)
  {
    var systems: seq<System>, events: seq<Event> :|
      Follows(setup, systems, events) && systems[0] == t && systems[|events|].finished && systems[|events|].seen == t.seen;
    var all, steps := [s] + systems, [e] + events;
    assert forall i :: 0 < i <= |systems| ==> all[i] == systems[i - 1];
    assert forall i :: 0 < i <= |events| ==> steps[i] == events[i - 1];
    forall i | 0 <= i < |steps| ensures Step(setup, all[i], steps[i], all[i + 1]) {
      if i > 0 { assert Step(setup, systems[i - 1], events[i - 1], systems[i]); }
    }
    assert Follows(setup, all, steps);
    assert all[|steps|] == systems[|events|];
  }

  /** Finish succeeds on a current reconciliation and a passing report for the same files. */
  lemma FinishIsPossible(setup: Setup, s: System, d: string)
    requires s.seen != [] && DecisionStatus(s.context) != Required && ReconciliationCurrent(setup, s.context, s.Now())
    requires IsDigest(setup.rules, s.Now(), s.context.affected, d) && ReportRefusal(setup, s.context, s.report, d).None?
    ensures CanFinish(setup, s)
  {
    var checked := s.(check := Some(s.context), checkedAt := |s.seen| - 1);
    var closed := checked.(finished := true);
    var nothing: seq<Event> := [];
    assert Follows(setup, [closed], nothing) && [closed][|nothing|] == closed;
    assert CanFinish(setup, closed);
    Before(setup, checked, FinishClose(d), closed);
    Before(setup, s, FinishCheck, checked);
  }

  /** The run of the gates that is under way with the current context ends in a report that finish accepts. */
  lemma RunningGatesCanPass(setup: Setup, s: System, d: string, plans: seq<GateRunner.Plan>, outcomes: seq<GateRunner.Outcome>,
                            results: seq<GateRunner.Entry>)
    requires s.seen != [] && DecisionStatus(s.context) != Required && ReconciliationCurrent(setup, s.context, s.Now())
    requires IsDigest(setup.rules, s.Now(), s.context.affected, d)
    requires AllPass(s.context.requiredGates, plans, outcomes, results) && s.context.requiredGates != []
    requires 0 in s.runs && s.runs[0].context == s.context && s.runs[0].digest == d
    ensures CanFinish(setup, s)
  {
    var t := EndGates(setup, s, 0, plans, outcomes, results, d);
    AllPassAccepted(setup, s.context, plans, outcomes, results, d);
    FinishIsPossible(setup, t, d);
    Before(setup, s, GateEnd(0, plans, outcomes, results, d), t);
  }

  lemma GatesCanPass(setup: Setup, s: System, d: string, plans: seq<GateRunner.Plan>, outcomes: seq<GateRunner.Outcome>,
                     results: seq<GateRunner.Entry>)
    requires s.seen != [] && DecisionStatus(s.context) != Required && ReconciliationCurrent(setup, s.context, s.Now())
    requires IsDigest(setup.rules, s.Now(), s.context.affected, d)
    requires AllPass(s.context.requiredGates, plans, outcomes, results)
    ensures CanFinish(setup, s)
  {
    if s.context.requiredGates == [] {
      var now := |s.seen| - 1;
      var t := s.(report := Some(GateReport(setup.task, GateRunner.Pass, false, Some(d), [])),
                  evidence := Some(Evidence(s.context.affected, now, now, [], [], [])));
      FinishIsPossible(setup, t, d);
      Before(setup, s, GateStart(0, true, true, false, d), t);
    } else {
      var t := s.(runs := s.runs[0 := GateRun(s.context, d, |s.seen| - 1)]);
      RunningGatesCanPass(setup, t, d, plans, outcomes, results);
      Before(setup, s, GateStart(0, true, true, false, d), t);
    }
  }

  /** Every gate has a command, and every command exits with 0. */
  ghost predicate AllPass(gates: seq<string>, plans: seq<GateRunner.Plan>, outcomes: seq<GateRunner.Outcome>,
                          results: seq<GateRunner.Entry>) {
    && GateRunner.IsLoopResult(gates, plans, WorldOf(outcomes), results)
    && |outcomes| == |gates|
    && forall i :: 0 <= i < |gates| ==> plans[i].Ready? && outcomes[i].Exited? && outcomes[i].code == 0
  }

  lemma AllPassAccepted(setup: Setup, c: Context, plans: seq<GateRunner.Plan>, outcomes: seq<GateRunner.Outcome>,
                        results: seq<GateRunner.Entry>, d: string)
    requires AllPass(c.requiredGates, plans, outcomes, results) && c.requiredGates != []
    ensures GateRunner.Overall(results) == GateRunner.Pass
    ensures ReportRefusal(setup, c, Some(GateReport(setup.task, GateRunner.Pass, false, Some(d), results)), d).None?
  {
    var gates, world := c.requiredGates, WorldOf(outcomes);
    forall i | 0 <= i < |gates| ensures results[i].status == GateRunner.Pass && results[i].gate == gates[i] {
      var a := GateRunner.AnswerExists(gates, plans, world, results, i);
      GateRunner.EntryGate(gates, plans, world, results, i);
    }
    forall g <- gates
      ensures LastFor(results, g).Some? && LastFor(results, g).value.status == GateRunner.Pass
    {
      LastForExactly(results, g);
      var i :| 0 <= i < |gates| && gates[i] == g;
      assert results[i] in results;
    }
  }

  /**
   A task whose decision is not open and whose affected files cover every changed file can be finished with success as the
   workspace is, if the commands of its required gates exit with 0, whatever happened before.
   */
  lemma SuccessIsPossible(setup: Setup, s: System, d: string, plans: seq<GateRunner.Plan>, outcomes: seq<GateRunner.Outcome>,
                          results: seq<GateRunner.Entry>)
    requires s.seen != [] && DecisionStatus(s.context) != Required
    requires forall p | ChangedFile(setup, s.Now(), p) :: p in s.context.affected
    requires IsDigest(setup.rules, s.Now(), s.context.affected, d)
    requires AllPass(s.context.requiredGates, plans, outcomes, results)
    ensures CanFinish(setup, s)
  {
    var changed := Changes(setup.rules, setup.baseline, s.Now());
    forall p <- changed ensures p in s.context.affected {
      ChangesExactly(setup.rules, setup.baseline, s.Now(), p);
    }
    var loaded := s.(copies := s.copies[0 := s.context]);
    var stored := loaded.(context := PassedWith(s.context, changed, 1));
    GatesCanPass(setup, stored, d, plans, outcomes, results);
    Before(setup, loaded, StoreReconciled(0, changed), stored);
    Before(setup, s, Load(0), loaded);
  }

  // ---- What a gate run stores ----

  /**
   The start of a gate run: an early report replaces the report; otherwise the run is remembered with the context it loaded
   and its digest, and the report stays.
   */
  lemma GateStartExactly(setup: Setup, s: System, r: nat, timeoutValid: bool, configured: bool, allowNoGates: bool, d: string)
    requires s.seen != []
    ensures var t := StartGates(setup, s, r, timeoutValid, configured, allowNoGates, d);
            var runs := DecisionStatus(s.context) != Required && ReconciliationCurrent(setup, s.context, s.Now()) && timeoutValid
                        && configured && s.context.requiredGates != [];
            && (runs ==> t == s.(runs := s.runs[r := GateRun(s.context, d, |s.seen| - 1)]))
            && (!runs ==> t.report.Some? && t.report.value.results == [] && t.runs == s.runs && t.context == s.context)
  {}

  /** The end of a gate run: its report is stale and blocked if the affected files changed, else it carries the verdict; it is always this task's. */
  lemma GateEndExactly(setup: Setup, s: System, r: nat, plans: seq<GateRunner.Plan>, outcomes: seq<GateRunner.Outcome>,
                       results: seq<GateRunner.Entry>, d: string)
    requires s.seen != [] && r in s.runs
    ensures var t := EndGates(setup, s, r, plans, outcomes, results, d);
            && t.report.Some? && t.report.value.task == setup.task && t.report.value.results == results
            && t.report.value.digest == Some(s.runs[r].digest) && t.runs == s.runs - {r} && t.context == s.context
            && (t.report.value.stale <==> d != s.runs[r].digest)
            && t.report.value.status == if d == s.runs[r].digest then GateRunner.Overall(results) else GateRunner.Blocked
  {}

  /** Result i is the last one of that gate. */
  predicate IsLastResult(results: seq<GateRunner.Entry>, gate: string, i: int) {
    0 <= i < |results| && results[i].gate == gate && forall j :: i < j < |results| ==> results[j].gate != gate
  }

  /**
   When finish accepts a report: it is this task's, it passed, the last result of every gate that is required passed, and its
   digest is that of the affected files now.
   */
  lemma ReportAcceptedExactly(setup: Setup, c: Context, report: Option<GateReport>, digest: string)
    ensures ReportRefusal(setup, c, report, digest).None? <==>
              && report.Some? && report.value.task == setup.task && report.value.status == GateRunner.Pass
              && report.value.digest == Some(digest)
              && (forall g <- c.requiredGates ::
                    exists i :: IsLastResult(report.value.results, g, i) && report.value.results[i].status == GateRunner.Pass)
  {
    if report.Some? {
      forall g <- c.requiredGates
        ensures LastFor(report.value.results, g).Some? && LastFor(report.value.results, g).value.status == GateRunner.Pass <==>
                  exists i :: IsLastResult(report.value.results, g, i) && report.value.results[i].status == GateRunner.Pass
      {
        LastForExactly(report.value.results, g);
      }
    }
  }

  lemma {:induction false} LastForExactly(results: seq<GateRunner.Entry>, gate: string)
    ensures LastFor(results, gate).None? ==> forall r <- results :: r.gate != gate
    ensures LastFor(results, gate).Some? ==> exists i :: IsLastResult(results, gate, i)
    ensures forall i :: IsLastResult(results, gate, i) ==> LastFor(results, gate) == Some(results[i])
  {
    if results != [] {
      var n := |results| - 1;
      var before := results[..n];
      LastForExactly(before, gate);
      assert results == before + [results[n]];
      if results[n].gate == gate {
        assert IsLastResult(results, gate, n);
      } else {
        forall i | 0 <= i < n ensures IsLastResult(before, gate, i) <==> IsLastResult(results, gate, i) {
          assert results[i] == before[i];
        }
      }
    }
  }
}
