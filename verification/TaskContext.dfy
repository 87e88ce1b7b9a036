/** The task context document: incremental expansion, final reconciliation and the product decision. */
module TaskContext {
  import opened Basics
  import ImpactScan

  datatype Scope = FileOrDomain | Domain | Module | Repository

  /** A stored decision status outside these three values counts as absent. */
  datatype Decision = NotRequired | Required | Resolved

  datatype Reconciliation = NotRun | Passed | Failed

  datatype Context = Context(
    affected: set<string>, scope: Scope, requiredGates: seq<string>,
    modeRequiresDecision: bool, decision: Option<Decision>, decisionText: Option<string>,
    reconciliation: Reconciliation, actualChanged: Option<set<string>>, rounds: Option<nat>, untracked: set<string>,
    revision: nat)

  /** The project facts that stay fixed while a task runs. */
  datatype Project = Project(
    facts: ImpactScan.Facts, records: seq<ImpactScan.Record>, requestDomains: set<string>,
    allFiles: set<string>, impactAllowed: string -> bool,
    gatesFor: set<string> -> seq<string>, modeFor: set<string> -> bool)

  /** The walk that lists all files yields only files the impact-scan policy admits. */
  predicate Sane(project: Project) {
    forall f <- project.allFiles :: project.impactAllowed(f)
  }

  function DecisionStatus(c: Context): Decision {
    if c.decision.Some? then c.decision.value
    else if c.modeRequiresDecision then Required else NotRequired
  }

  // ---- Expansion ----

  function Widened(scope: Scope, unknown: bool): Scope {
    if !unknown then scope
    else match scope
      case FileOrDomain | Domain => Module
      case _ => Repository
  }

  function ExpandedFiles(project: Project, c: Context, newFiles: set<string>, scope: Scope): set<string> {
    var files := set f <- c.affected + newFiles | project.impactAllowed(f);
    match scope
    case Module => ImpactScan.ModuleScope(project.facts, project.records, project.requestDomains, project.allFiles, files)
    case Repository => project.allFiles + files
    case _ => files
  }

  /** The context after an expansion; the stored decision status is never rewritten. */
  function Expanded(project: Project, c: Context, newFiles: set<string>, unknown: bool): Context {
    var scope := Widened(c.scope, unknown);
    var files := ExpandedFiles(project, c, newFiles, scope);
    c.(affected := files, scope := scope, requiredGates := project.gatesFor(files),
       modeRequiresDecision := project.modeFor(files),
       reconciliation := NotRun, actualChanged := None, rounds := None, revision := c.revision + 1)
  }

  lemma ExpandedBounds(project: Project, c: Context, newFiles: set<string>, unknown: bool)
    requires Sane(project)
    ensures var files := Expanded(project, c, newFiles, unknown).affected;
            && (forall f <- files :: project.impactAllowed(f))
            && (forall f <- c.affected + newFiles | project.impactAllowed(f) :: f in files)
  {
    ImpactScan.ModuleScopeBounds(project.facts, project.records, project.requestDomains, project.allFiles,
                                 set f <- c.affected + newFiles | project.impactAllowed(f));
  }

  /**
   What an expansion stores: the scope widens by one step only when something unknown was met; the files are the admitted
   old and new ones, plus the module scope of these or the whole workspace; gates and decision mode are those of the final
   files; reconciliation starts over; the decision stays.
   */
  lemma ExpansionExactly(project: Project, c: Context, newFiles: set<string>, unknown: bool)
    ensures var e := Expanded(project, c, newFiles, unknown);
            var admitted := set f | f in c.affected + newFiles && project.impactAllowed(f);
            && (!unknown ==> e.scope == c.scope)
            && (unknown ==> e.scope == if c.scope == FileOrDomain || c.scope == Domain then Module else Repository)
            && (e.scope == FileOrDomain || e.scope == Domain ==> e.affected == admitted)
            && (e.scope == Module ==> forall f :: f in e.affected <==> f in ImpactScan.ModuleScope(
                  project.facts, project.records, project.requestDomains, project.allFiles, admitted))
            && (e.scope == Repository ==> forall f :: f in e.affected <==> f in project.allFiles || f in admitted)
            && e.requiredGates == project.gatesFor(e.affected) && e.modeRequiresDecision == project.modeFor(e.affected)
            && e.reconciliation == NotRun && e.actualChanged == None && e.rounds == None && e.revision == c.revision + 1
            && e.decision == c.decision && e.decisionText == c.decisionText
  {}

  /** A stored decision status counts as it is; without one an open decision mode requires a decision. */
  lemma DecisionStatusExactly(c: Context)
    ensures DecisionStatus(c) == Required <==> c.decision == Some(Required) || (c.decision == None && c.modeRequiresDecision)
    ensures DecisionStatus(c) == Resolved <==> c.decision == Some(Resolved)
  {}

  // ---- Reconciliation ----

  function PassedWith(c: Context, actual: set<string>, round: nat): Context {
    c.(reconciliation := Passed, actualChanged := Some(actual), rounds := Some(round))
  }

  function FailedWith(c: Context, actual: set<string>): Context {
    c.(reconciliation := Failed, actualChanged := Some(actual), untracked := actual - c.affected)
  }

  datatype Report = Report(passed: bool, rounds: nat)

  /** `measured[i]` is the changed set found in round i + 1; the last one is measured after all rounds. */
  function ReconcileFrom(project: Project, c: Context, measured: seq<set<string>>, i: nat): (Context, Report)
    requires i < |measured|
    decreases |measured| - i
  {
    if i == |measured| - 1 then (FailedWith(c, measured[i]), Report(false, i))
    else if measured[i] <= c.affected then (PassedWith(c, measured[i], i + 1), Report(true, i + 1))
    else ReconcileFrom(project, Expanded(project, c, measured[i] - c.affected, false), measured, i + 1)
  }

  class TaskFile {
    var context: Context

    method Expand(project: Project, newFiles: set<string>, unknown: bool)
      modifies this
      ensures context == Expanded(project, old(context), newFiles, unknown)
    {
      var files := set f <- context.affected | project.impactAllowed(f);
      files := files + set f <- newFiles | project.impactAllowed(f);
      assert files == set f <- context.affected + newFiles | project.impactAllowed(f);
      var level := context.scope;
      if unknown {
        if level == FileOrDomain || level == Domain {
          level := Module;
        } else if level == Module {
          level := Repository;
        }
      }
      if level == Module {
        files := ImpactScan.ExpandModuleScope(project.facts, project.records, project.requestDomains, project.allFiles, files);
      } else if level == Repository {
        files := project.allFiles + files;
      }
      context := context.(affected := files, requiredGates := project.gatesFor(files),
                          modeRequiresDecision := project.modeFor(files));
      context := context.(scope := level, revision := context.revision + 1, reconciliation := NotRun);
      context := context.(actualChanged := None, rounds := None);
    }

    method Reconcile(project: Project, measured: seq<set<string>>) returns (report: Report)
      requires measured != []
      modifies this
      ensures (context, report) == ReconcileFrom(project, old(context), measured, 0)
    {
      var rounds := |measured| - 1;
      for i := 0 to rounds
        invariant ReconcileFrom(project, context, measured, i) == ReconcileFrom(project, old(context), measured, 0)
      {
        var actual := measured[i];
        var missing := actual - context.affected;
        if missing == {} {
          context := context.(reconciliation := Passed, actualChanged := Some(actual), rounds := Some(i + 1));
          return Report(true, i + 1);
        }
        Expand(project, missing, false);
      }
      var actual := measured[rounds];
      context := context.(reconciliation := Failed, actualChanged := Some(actual), untracked := actual - context.affected);
      return Report(false, rounds);
    }

    /** Only an explicit, non-blank user decision moves REQUIRED to RESOLVED. */
    method ResolveProductDecision(decision: string) returns (resolved: bool)
      modifies this
      ensures resolved <==> Strip(decision) != "" && DecisionStatus(old(context)) == Required
      ensures context == if resolved then ResolvedWith(old(context), decision) else old(context)
    {
      var text := Strip(decision);
      if text == "" || DecisionStatus(context) != Required {
        return false;
      }
      context := context.(decision := Some(Resolved), decisionText := Some(text));
      return true;
    }
  }

  function ResolvedWith(c: Context, decision: string): Context {
    c.(decision := Some(Resolved), decisionText := Some(Strip(decision)))
  }

  /** Whatever happens to the workspace between rounds: PASS means the set measured in that round is inside the affected files. */
  lemma {:induction false} PassCoversMeasured(project: Project, c: Context, measured: seq<set<string>>, i: nat)
    requires i < |measured|
    ensures var (after, report) := ReconcileFrom(project, c, measured, i);
            && (report.passed <==> after.reconciliation == Passed)
            && (report.passed ==> i < report.rounds < |measured|
                                  && measured[report.rounds - 1] <= after.affected
                                  && after.actualChanged == Some(measured[report.rounds - 1]))
            && (!report.passed ==> after.reconciliation == Failed
                                   && after.untracked == measured[|measured| - 1] - after.affected)
            && after.decision == c.decision
    decreases |measured| - i
  {
    if i < |measured| - 1 && !(measured[i] <= c.affected) {
      PassCoversMeasured(project, Expanded(project, c, measured[i] - c.affected, false), measured, i + 1);
    }
  }

  /** Once every affected file is admitted, a changed path that is not admitted keeps failing. */
  lemma {:induction false} NeverAdmitted(project: Project, c: Context, measured: seq<set<string>>, i: nat, path: string)
    requires Sane(project) && i < |measured|
    requires forall f <- c.affected :: project.impactAllowed(f)
    requires !project.impactAllowed(path) && forall k :: i <= k < |measured| ==> path in measured[k]
    ensures !ReconcileFrom(project, c, measured, i).1.passed
    decreases |measured| - i
  {
    if i < |measured| - 1 {
      ExpandedBounds(project, c, measured[i] - c.affected, false);
      NeverAdmitted(project, Expanded(project, c, measured[i] - c.affected, false), measured, i + 1, path);
    }
  }

  /**
   In a quiet workspace with at least two rounds, at any scope level, reconciliation passes exactly when the
   changes are already covered (first round) or all admitted by the impact-scan policy (second round).
   */
  lemma QuietReconciliation(project: Project, c: Context, measured: seq<set<string>>, actual: set<string>)
    requires Sane(project) && |measured| >= 3 && forall k :: 0 <= k < |measured| ==> measured[k] == actual
    ensures var report := ReconcileFrom(project, c, measured, 0).1;
            && (report.passed <==> actual <= c.affected || forall f <- actual :: project.impactAllowed(f))
            && (report.passed ==> report.rounds == if actual <= c.affected then 1 else 2)
  {
    if !(actual <= c.affected) {
      var next := Expanded(project, c, actual - c.affected, false);
      ExpandedBounds(project, c, actual - c.affected, false);
      assert ReconcileFrom(project, c, measured, 0) == ReconcileFrom(project, next, measured, 1);
      if path :| path in actual && !project.impactAllowed(path) {
        NeverAdmitted(project, next, measured, 1, path);
      } else {
        assert actual <= next.affected;
      }
    }
  }
}
