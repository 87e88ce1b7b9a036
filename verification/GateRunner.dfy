/** Running the required gates of a task with at most one execution per execution identity. */
module GateRunner {
  import opened Basics

  // ---- Execution identity ----

  /** What one declared environment key contributes to an identity; blank values count as unset. */
  datatype EnvValue = Unset(name: string) | Set(name: string, value: string)

  /** The material that is hashed into an execution identity; the hash is taken to be injective. */
  datatype Identity = Identity(
    command: string, capability: string, runtime: seq<EnvValue>, database: seq<EnvValue>,
    timeout: int, workspace: string)

  /** The identity declaration of a gate; a missing capability means the gate's own id. */
  datatype Declaration = Declaration(capability: Option<string>, runtimeKeys: seq<string>, databaseKeys: seq<string>)

  predicate IsBlank(value: string) {
    forall c <- value :: IsSpace(c)
  }

  predicate KeySet(env: map<string, string>, key: string) {
    key in env && !IsBlank(env[key])
  }

  /** `redact` removes credentials from URL values before they become identity material. */
  function EnvironmentIdentity(env: map<string, string>, keys: seq<string>, redact: string -> string): seq<EnvValue> {
    seq(|keys|, i requires 0 <= i < |keys| =>
      if KeySet(env, keys[i]) then Set(keys[i], redact(env[keys[i]])) else Unset(keys[i]))
  }

  function ExecutionIdentity(gate: string, declared: Declaration, command: string, env: map<string, string>,
                             redact: string -> string, workspace: string, timeout: int): Identity {
    Identity(command, if declared.capability.Some? then declared.capability.value else gate,
             EnvironmentIdentity(env, declared.runtimeKeys, redact),
             EnvironmentIdentity(env, declared.databaseKeys, redact), timeout, workspace)
  }

  predicate ReuseEligible(id: Identity) {
    (forall v <- id.runtime :: v.Set?) && (forall v <- id.database :: v.Set?)
  }

  /** Eligible exactly when every declared key carries a value. */
  lemma EligibleExactly(gate: string, d: Declaration, command: string, env: map<string, string>,
                        redact: string -> string, workspace: string, timeout: int)
    ensures ReuseEligible(ExecutionIdentity(gate, d, command, env, redact, workspace, timeout))
       <==> forall k | k in d.runtimeKeys || k in d.databaseKeys :: k in env && exists c <- env[k] ::
              !(c == ' ' || 9 <= c as int <= 13 || 28 <= c as int <= 31)
  {
    var id := ExecutionIdentity(gate, d, command, env, redact, workspace, timeout);
    assert forall i :: 0 <= i < |d.runtimeKeys| ==> (id.runtime[i].Set? <==> KeySet(env, d.runtimeKeys[i]));
    assert forall i :: 0 <= i < |d.databaseKeys| ==> (id.database[i].Set? <==> KeySet(env, d.databaseKeys[i]));
    forall k <- d.runtimeKeys | ReuseEligible(id) ensures KeySet(env, k) {
      var i :| 0 <= i < |d.runtimeKeys| && d.runtimeKeys[i] == k;
      assert id.runtime[i] in id.runtime;
    }
    forall k <- d.databaseKeys | ReuseEligible(id) ensures KeySet(env, k) {
      var i :| 0 <= i < |d.databaseKeys| && d.databaseKeys[i] == k;
      assert id.database[i] in id.database;
    }
  }

  /** Equal identities agree on the command, the declared keys and their (redacted) values; different gates must share a declared capability. */
  lemma EqualIdentities(g1: string, d1: Declaration, c1: string, t1: int, g2: string, d2: Declaration, c2: string, t2: int,
                        env: map<string, string>, redact: string -> string, workspace: string)
    requires ExecutionIdentity(g1, d1, c1, env, redact, workspace, t1) == ExecutionIdentity(g2, d2, c2, env, redact, workspace, t2)
    ensures c1 == c2 && t1 == t2
    ensures d1.runtimeKeys == d2.runtimeKeys && d1.databaseKeys == d2.databaseKeys
    ensures g1 != g2 ==> d1.capability.Some? || d2.capability.Some?
  {
    var a := ExecutionIdentity(g1, d1, c1, env, redact, workspace, t1);
    var b := ExecutionIdentity(g2, d2, c2, env, redact, workspace, t2);
    assert |a.runtime| == |d1.runtimeKeys| && |b.runtime| == |d2.runtimeKeys|;
    assert |a.database| == |d1.databaseKeys| && |b.database| == |d2.databaseKeys|;
    forall i | 0 <= i < |d1.runtimeKeys| ensures d1.runtimeKeys[i] == d2.runtimeKeys[i] {
      assert a.runtime[i].name == d1.runtimeKeys[i] && b.runtime[i].name == d2.runtimeKeys[i];
    }
    forall i | 0 <= i < |d1.databaseKeys| ensures d1.databaseKeys[i] == d2.databaseKeys[i] {
      assert a.database[i].name == d1.databaseKeys[i] && b.database[i].name == d2.databaseKeys[i];
    }
  }

  // ---- Gates and their results ----

  datatype Failure = TimeoutExpired | FileNotFound | PermissionDenied | OsFailure | SubprocessFailure | InvalidValue

  /** `marker` says that the output announces a blocked environment. */
  datatype Outcome = Exited(code: int, marker: bool) | Raised(failure: Failure)

  /** How far a gate gets before anything is executed. */
  datatype Plan =
    | BadTimeout
    | BadConfiguration(timeout: int)
    | NoCommand(timeout: int)
    | Unidentified(timeout: int, failure: Failure)
    | Ready(timeout: int, identity: Identity)

  datatype Status = Pass | Fail | Blocked | NotConfigured | Timeout

  datatype Reason =
    | InvalidGateTimeout | InvalidGateConfiguration | NoConfiguredGate | DuplicateCanonicalExecution
    | CommandFailed | TimedOut | CommandNotFound | PermissionError | OsExecutionError | SubprocessError
    | InvalidExecutionIdentity

  datatype Mode =
    | NotRun
    | Executed(identity: Identity)
    | Reused(identity: Identity, index: nat, canonicalGate: string)

  datatype Entry = Entry(gate: string, status: Status, reason: Option<Reason>, exitCode: Option<int>,
                         timeout: Option<int>, mode: Mode)

  function FailureStatus(f: Failure): Status {
    match f
    case TimeoutExpired => Timeout
    case SubprocessFailure => Fail
    case _ => Blocked
  }

  function FailureReason(f: Failure): Reason {
    match f
    case TimeoutExpired => TimedOut
    case FileNotFound => CommandNotFound
    case PermissionDenied => PermissionError
    case OsFailure => OsExecutionError
    case SubprocessFailure => SubprocessError
    case InvalidValue => InvalidExecutionIdentity
  }

  function OutcomeEntry(gate: string, timeout: int, o: Outcome, mode: Mode): Entry {
    match o
    case Raised(f) => Entry(gate, FailureStatus(f), Some(FailureReason(f)), None, Some(timeout), mode)
    case Exited(code, marker) =>
      if code == 0 then Entry(gate, Pass, None, Some(code), Some(timeout), mode)
      else if marker then Entry(gate, Blocked, None, Some(code), Some(timeout), mode)
      else Entry(gate, Fail, Some(CommandFailed), Some(code), Some(timeout), mode)
  }

  /** The entry of a gate that never reaches execution. */
  function EarlyEntry(gate: string, plan: Plan): Entry
    requires !plan.Ready?
  {
    match plan
    case BadTimeout => Entry(gate, Blocked, Some(InvalidGateTimeout), None, None, NotRun)
    case BadConfiguration(t) => Entry(gate, Blocked, Some(InvalidGateConfiguration), None, Some(t), NotRun)
    case NoCommand(t) => Entry(gate, NotConfigured, Some(NoConfiguredGate), None, Some(t), NotRun)
    case Unidentified(t, f) => OutcomeEntry(gate, t, Raised(f), NotRun)
  }

  /** The simple form: every gate that can be executed is executed; `world(i)` is what executing gate i gives. */
  function PlainEntry(gates: seq<string>, plans: seq<Plan>, world: nat -> Outcome, i: nat): Entry
    requires |gates| == |plans| && i < |gates|
  {
    if plans[i].Ready? then OutcomeEntry(gates[i], plans[i].timeout, world(i), Executed(plans[i].identity))
    else EarlyEntry(gates[i], plans[i])
  }

  predicate SameExecution(plans: seq<Plan>, i: nat, j: nat)
    requires i < |plans| && j < |plans|
  {
    && plans[i].Ready? && plans[j].Ready?
    && ReuseEligible(plans[i].identity)
    && plans[i].identity == plans[j].identity
  }

  /** Gate i is the first with its (reuse-eligible) identity, or cannot be reused at all. */
  predicate RunsItself(plans: seq<Plan>, i: nat)
    requires i < |plans|
  {
    plans[i].Ready? && forall j :: 0 <= j < i ==> !SameExecution(plans, i, j)
  }

  /** Every recorded identity points to the entry that executed it, and every executed eligible identity is recorded. */
  ghost predicate Recorded(plans: seq<Plan>, results: seq<Entry>, executed: map<Identity, nat>) {
    && |results| <= |plans|
    && (forall id <- executed ::
          var c := executed[id];
          c < |results| && plans[c].Ready? && plans[c].identity == id && ReuseEligible(id) && RunsItself(plans, c))
    && (forall j :: 0 <= j < |results| && plans[j].Ready? && ReuseEligible(plans[j].identity) ==> plans[j].identity in executed)
  }

  /** What the reuse loop must have written for gate i. */
  ghost predicate LoopEntry(gates: seq<string>, plans: seq<Plan>, world: nat -> Outcome, results: seq<Entry>, i: nat)
    requires |gates| == |plans| && i < |results| <= |plans|
  {
    var e := results[i];
    if !plans[i].Ready? || RunsItself(plans, i) then e == PlainEntry(gates, plans, world, i)
    else
      && e.mode.Reused? && e.mode.index < i
      && var c := e.mode.index;
         && RunsItself(plans, c) && SameExecution(plans, i, c)
         && e == Entry(gates[i], results[c].status, Some(DuplicateCanonicalExecution), results[c].exitCode,
                       Some(plans[i].timeout), Reused(plans[i].identity, c, gates[c]))
  }

  method RunGates(gates: seq<string>, plans: seq<Plan>, world: nat -> Outcome)
    returns (results: seq<Entry>, executions: seq<nat>)
    requires |gates| == |plans|
    ensures |results| == |gates|
    ensures forall i :: 0 <= i < |gates| ==> LoopEntry(gates, plans, world, results, i)
    ensures forall i :: i in executions <==> 0 <= i < |gates| && RunsItself(plans, i)
    ensures forall a, b :: 0 <= a < b < |executions| ==> executions[a] < executions[b]
  {
    results, executions := [], [];
    var executed: map<Identity, nat> := map[];
    for i := 0 to |gates|
      invariant |results| == i
      invariant Recorded(plans, results, executed)
      invariant forall j :: 0 <= j < i ==> LoopEntry(gates, plans, world, results, j)
      invariant forall j :: j in executions <==> 0 <= j < i && RunsItself(plans, j)
      invariant forall a :: 0 <= a < |executions| ==> executions[a] < i
      invariant forall a, b :: 0 <= a < b < |executions| ==> executions[a] < executions[b]
    {
      var entry: Entry;
      match plans[i] {
        case Ready(timeout, id) =>
          var eligible := ReuseEligible(id);
          if eligible && id in executed {
            var c := executed[id];
            assert SameExecution(plans, i, c);
            entry := Entry(gates[i], results[c].status, Some(DuplicateCanonicalExecution), results[c].exitCode,
                           Some(timeout), Reused(id, c, gates[c]));
          } else {
            assert RunsItself(plans, i);
            entry := OutcomeEntry(gates[i], timeout, world(i), Executed(id));
            executions := executions + [i];
            if eligible {
              executed := executed[id := i];
            }
          }
        case _ => entry := EarlyEntry(gates[i], plans[i]);
      }
      ghost var before := results;
      results := results + [entry];
      assert results[i] == entry;
      forall j | 0 <= j < i ensures LoopEntry(gates, plans, world, results, j) {
        assert LoopEntry(gates, plans, world, before, j);
      }
    }
  }

  // ---- Reuse refines running everything ----

  /** During one run the outcome of a command depends on its execution identity alone. */
  ghost predicate DependsOnIdentity(plans: seq<Plan>, world: nat -> Outcome) {
    forall i, j :: 0 <= i < |plans| && 0 <= j < |plans| && SameExecution(plans, i, j) ==> world(i) == world(j)
  }

  function Overall(results: seq<Entry>): Status {
    if results != [] && forall i :: 0 <= i < |results| ==> results[i].status == Pass then Pass
    else if exists i :: 0 <= i < |results| && (results[i].status == Blocked || results[i].status == NotConfigured) then Blocked
    else Fail
  }

  ghost predicate IsLoopResult(gates: seq<string>, plans: seq<Plan>, world: nat -> Outcome, results: seq<Entry>) {
    && |gates| == |plans| == |results|
    && forall i :: 0 <= i < |gates| ==> LoopEntry(gates, plans, world, results, i)
  }

  /** Same status and exit code for every gate, and the same verdict, as running every gate. */
  lemma ReuseRefinesRunningAll(gates: seq<string>, plans: seq<Plan>, world: nat -> Outcome, results: seq<Entry>)
    requires IsLoopResult(gates, plans, world, results) && DependsOnIdentity(plans, world)
    ensures forall i :: 0 <= i < |gates| ==>
              && results[i].gate == gates[i]
              && results[i].status == PlainEntry(gates, plans, world, i).status
              && results[i].exitCode == PlainEntry(gates, plans, world, i).exitCode
    ensures Overall(results) == Overall(seq(|gates|, i requires 0 <= i < |gates| => PlainEntry(gates, plans, world, i)))
  {
    var plain := seq(|gates|, i requires 0 <= i < |gates| => PlainEntry(gates, plans, world, i));
    forall i | 0 <= i < |gates|
      ensures results[i].gate == gates[i] && results[i].status == plain[i].status && results[i].exitCode == plain[i].exitCode
    {
      assert LoopEntry(gates, plans, world, results, i);
      if plans[i].Ready? && !RunsItself(plans, i) {
        var c := results[i].mode.index;
        assert LoopEntry(gates, plans, world, results, c);
        assert world(i) == world(c);
      }
    }
  }

  /** Two outcomes give a gate the same status and exit code. */
  predicate SameAnswer(a: Outcome, b: Outcome) {
    && OutcomeEntry("", 0, a, NotRun).status == OutcomeEntry("", 0, b, NotRun).status
    && OutcomeEntry("", 0, a, NotRun).exitCode == OutcomeEntry("", 0, b, NotRun).exitCode
  }

  predicate AnswersAsPlain(gates: seq<string>, plans: seq<Plan>, world: nat -> Outcome, results: seq<Entry>, i: nat)
    requires |gates| == |plans| == |results| && i < |gates|
  {
    && results[i].status == PlainEntry(gates, plans, world, i).status
    && results[i].exitCode == PlainEntry(gates, plans, world, i).exitCode
  }

  /**
   Gate by gate: what the loop reports is what running the gate gives, exactly if the execution it stands for, the first
   of the same identity, answers as its own would.
   */
  lemma ReuseExactly(gates: seq<string>, plans: seq<Plan>, world: nat -> Outcome, results: seq<Entry>, i: nat)
    requires IsLoopResult(gates, plans, world, results) && i < |gates|
    ensures AnswersAsPlain(gates, plans, world, results, i) <==>
              forall c :: 0 <= c < i && RunsItself(plans, c) && SameExecution(plans, i, c) ==> SameAnswer(world(i), world(c))
  {
    assert LoopEntry(gates, plans, world, results, i);
    if plans[i].Ready? && !RunsItself(plans, i) {
      var c := results[i].mode.index;
      assert LoopEntry(gates, plans, world, results, c);
      forall b | 0 <= b < i && RunsItself(plans, b) && SameExecution(plans, i, b) ensures b == c {
        assert SameExecution(plans, b, c) && SameExecution(plans, c, b);
      }
    }
  }

  /**
   An eligible identity is executed exactly once, an ineligible gate always executes itself, and a
   reused entry points back to the executed entry of the same identity and repeats its status.
   */
  lemma ReuseStructure(gates: seq<string>, plans: seq<Plan>, world: nat -> Outcome, results: seq<Entry>, i: nat, j: nat)
    requires IsLoopResult(gates, plans, world, results) && i < |gates| && j < |gates|
    ensures results[i].mode.Executed? <==> RunsItself(plans, i)
    ensures results[i].mode.Executed? && results[j].mode.Executed? && SameExecution(plans, i, j) ==> i == j
    ensures plans[i].Ready? && !ReuseEligible(plans[i].identity) ==> results[i].mode.Executed?
    ensures results[i].mode.Reused? ==>
              && plans[i].Ready? && results[i].mode.index < i
              && results[results[i].mode.index].mode == Executed(results[i].mode.identity)
              && results[results[i].mode.index].gate == results[i].mode.canonicalGate
              && results[i].mode.identity == plans[i].identity
              && results[i].status == results[results[i].mode.index].status
  {
    assert LoopEntry(gates, plans, world, results, i) && LoopEntry(gates, plans, world, results, j);
    if results[i].mode.Reused? {
      assert LoopEntry(gates, plans, world, results, results[i].mode.index);
    }
    assert SameExecution(plans, i, j) <==> SameExecution(plans, j, i);
  }

  lemma EntryGate(gates: seq<string>, plans: seq<Plan>, world: nat -> Outcome, results: seq<Entry>, i: nat)
    requires IsLoopResult(gates, plans, world, results) && i < |gates|
    ensures results[i].gate == gates[i]
  {
    assert LoopEntry(gates, plans, world, results, i);
  }

  /** A PASS in the results comes from a command that really exited with 0: the gate's own, or the one of the same identity. */
  lemma PassMeansExecuted(gates: seq<string>, plans: seq<Plan>, world: nat -> Outcome, results: seq<Entry>, i: nat)
    requires IsLoopResult(gates, plans, world, results) && i < |gates| && results[i].status == Pass
    ensures exists c :: 0 <= c <= i && RunsItself(plans, c) && (c == i || SameExecution(plans, i, c))
                        && world(c).Exited? && world(c).code == 0
  {
    assert LoopEntry(gates, plans, world, results, i);
    if plans[i].Ready? && !RunsItself(plans, i) {
      assert LoopEntry(gates, plans, world, results, results[i].mode.index);
    }
  }

  /** Without that premise reuse can hide a failure: two gates, one identity, the second run would fail. */
  lemma FlakyCommandIsHidden()
    ensures exists gates, plans, world, results ::
              IsLoopResult(gates, plans, world, results) && Overall(results) == Pass
              && Overall(seq(|gates|, i requires 0 <= i < |gates| => PlainEntry(gates, plans, world, i))) != Pass
  {
    var id := Identity("pytest", "suite", [], [], 600, "d0");
    var gates, plans := ["a", "b"], [Ready(600, id), Ready(600, id)];
    var world: nat -> Outcome := (i: nat) => Exited(if i == 0 then 0 else 1, false);
    var first := Entry("a", Pass, None, Some(0), Some(600), Executed(id));
    var results := [first, Entry("b", Pass, Some(DuplicateCanonicalExecution), Some(0), Some(600), Reused(id, 0, "a"))];
    assert RunsItself(plans, 0) && SameExecution(plans, 1, 0);
    assert LoopEntry(gates, plans, world, results, 0) && LoopEntry(gates, plans, world, results, 1);
    var plain := seq(|gates|, i requires 0 <= i < |gates| => PlainEntry(gates, plans, world, i));
    assert plain[1].status == Fail;
    assert IsLoopResult(gates, plans, world, results);
  }

  // ---- The verdict ----

  /** The execution that answers for gate i: its own, or the first one of the same identity. */
  predicate AnswersFor(plans: seq<Plan>, c: nat, i: nat)
    requires i < |plans|
  {
    c <= i && RunsItself(plans, c) && (c == i || SameExecution(plans, i, c))
  }

  /** The environment refused to run the command, or the command announced that it is blocked. */
  predicate RefusedBy(o: Outcome) {
    match o
    case Exited(code, marker) => code != 0 && marker
    case Raised(failure) => failure in {FileNotFound, PermissionDenied, OsFailure, InvalidValue}
  }

  /** Gate i never reaches execution, or not because of its own failure. */
  predicate Hindered(plans: seq<Plan>, world: nat -> Outcome, i: nat)
    requires i < |plans|
  {
    match plans[i]
    case BadTimeout => true
    case BadConfiguration(_) => true
    case NoCommand(_) => true
    case Unidentified(_, failure) => RefusedBy(Raised(failure))
    case Ready(_, _) => exists c :: 0 <= c <= i && AnswersFor(plans, c, i) && RefusedBy(world(c))
  }

  predicate Succeeded(plans: seq<Plan>, world: nat -> Outcome, i: nat)
    requires i < |plans|
  {
    exists c :: 0 <= c <= i && AnswersFor(plans, c, i) && world(c).Exited? && world(c).code == 0
  }

  lemma OneAnswer(plans: seq<Plan>, b: nat, c: nat, i: nat)
    requires i < |plans| && AnswersFor(plans, b, i) && AnswersFor(plans, c, i)
    ensures b == c
  {
    assert b != i && c != i ==> SameExecution(plans, b, c) && SameExecution(plans, c, b);
  }

  lemma AnswerExists(gates: seq<string>, plans: seq<Plan>, world: nat -> Outcome, results: seq<Entry>, i: nat) returns (c: nat)
    requires IsLoopResult(gates, plans, world, results) && i < |gates| && plans[i].Ready?
    ensures AnswersFor(plans, c, i)
    ensures results[i].status == OutcomeEntry("", 0, world(c), NotRun).status
    ensures results[i].exitCode == OutcomeEntry("", 0, world(c), NotRun).exitCode
  {
    assert LoopEntry(gates, plans, world, results, i);
    if RunsItself(plans, i) {
      c := i;
    } else {
      c := results[i].mode.index;
      assert LoopEntry(gates, plans, world, results, c);
    }
  }

  /** A gate passes exactly if its execution exited with 0, and is reported blocked or not configured exactly if it was hindered. */
  lemma StatusExactly(gates: seq<string>, plans: seq<Plan>, world: nat -> Outcome, results: seq<Entry>, i: nat)
    requires IsLoopResult(gates, plans, world, results) && i < |gates|
    ensures results[i].status == Pass <==> Succeeded(plans, world, i)
    ensures results[i].status == Blocked || results[i].status == NotConfigured <==> Hindered(plans, world, i)
  {
    if plans[i].Ready? {
      var c := AnswerExists(gates, plans, world, results, i);
      forall b: nat | AnswersFor(plans, b, i) ensures b == c { OneAnswer(plans, b, c, i); }
    } else {
      assert LoopEntry(gates, plans, world, results, i);
    }
  }

  /** Gate i itself met this failure, while its identity was taken or while its command ran. */
  predicate FailedBy(plans: seq<Plan>, world: nat -> Outcome, i: nat, failure: Failure)
    requires i < |plans|
  {
    if plans[i].Unidentified? then plans[i].failure == failure else RunsItself(plans, i) && world(i) == Raised(failure)
  }

  /** Why a gate did not simply pass: which reason is reported when. */
  lemma ReasonExactly(gates: seq<string>, plans: seq<Plan>, world: nat -> Outcome, results: seq<Entry>, i: nat)
    requires IsLoopResult(gates, plans, world, results) && i < |gates|
    ensures var reason := results[i].reason;
            && (reason == Some(InvalidGateTimeout) <==> plans[i].BadTimeout?)
            && (reason == Some(InvalidGateConfiguration) <==> plans[i].BadConfiguration?)
            && (reason == Some(NoConfiguredGate) <==> plans[i].NoCommand?)
            && (reason == Some(DuplicateCanonicalExecution) <==> plans[i].Ready? && !RunsItself(plans, i))
            && (reason == Some(CommandFailed) <==>
                  RunsItself(plans, i) && world(i).Exited? && world(i).code != 0 && !world(i).marker)
            && (reason == Some(TimedOut) <==> FailedBy(plans, world, i, TimeoutExpired))
            && (reason == Some(CommandNotFound) <==> FailedBy(plans, world, i, FileNotFound))
            && (reason == Some(PermissionError) <==> FailedBy(plans, world, i, PermissionDenied))
            && (reason == Some(OsExecutionError) <==> FailedBy(plans, world, i, OsFailure))
            && (reason == Some(SubprocessError) <==> FailedBy(plans, world, i, SubprocessFailure))
            && (reason == Some(InvalidExecutionIdentity) <==> FailedBy(plans, world, i, InvalidValue))
    ensures results[i].status == NotConfigured <==> plans[i].NoCommand?
    ensures results[i].timeout.None? <==> plans[i].BadTimeout?
  {
    assert LoopEntry(gates, plans, world, results, i);
    if plans[i].Ready? && !RunsItself(plans, i) {
      assert LoopEntry(gates, plans, world, results, results[i].mode.index);
    }
  }

  /** A gate is reported as timed out exactly if the execution that answers for it was, and has an exit code exactly if that one exited. */
  lemma TimeoutExactly(gates: seq<string>, plans: seq<Plan>, world: nat -> Outcome, results: seq<Entry>, i: nat)
    requires IsLoopResult(gates, plans, world, results) && i < |gates|
    ensures results[i].status == Timeout <==>
              || FailedBy(plans, world, i, TimeoutExpired)
              || exists c :: 0 <= c < i && AnswersFor(plans, c, i) && world(c) == Raised(TimeoutExpired)
    ensures results[i].exitCode.Some? <==> exists c :: 0 <= c <= i && AnswersFor(plans, c, i) && world(c).Exited?
    ensures forall c :: 0 <= c <= i && AnswersFor(plans, c, i) && world(c).Exited? ==> results[i].exitCode == Some(world(c).code)
  {
    if plans[i].Ready? {
      var c := AnswerExists(gates, plans, world, results, i);
      forall b: nat | AnswersFor(plans, b, i) ensures b == c { OneAnswer(plans, b, c, i); }
      assert c < i ==> !RunsItself(plans, i);
    } else {
      assert LoopEntry(gates, plans, world, results, i);
    }
  }

  /**
   The verdict is PASS exactly if there is a gate and the execution behind every gate exited with 0; otherwise it is BLOCKED
   exactly if some gate was hindered, and FAIL if none was.
   */
  lemma VerdictExactly(gates: seq<string>, plans: seq<Plan>, world: nat -> Outcome, results: seq<Entry>)
    requires IsLoopResult(gates, plans, world, results)
    ensures Overall(results) == Pass <==> gates != [] && forall i :: 0 <= i < |gates| ==> Succeeded(plans, world, i)
    ensures Overall(results) == Blocked <==> exists i :: 0 <= i < |gates| && Hindered(plans, world, i)
    ensures Overall(results) in {Pass, Blocked, Fail}
  {
    forall i | 0 <= i < |gates|
      ensures results[i].status == Pass <==> Succeeded(plans, world, i)
      ensures results[i].status == Blocked || results[i].status == NotConfigured <==> Hindered(plans, world, i)
    {
      StatusExactly(gates, plans, world, results, i);
    }
  }
}
