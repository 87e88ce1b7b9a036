/** Mechanical staleness verdicts over a process table in which process ids are reused. */
module ProcessIdentity {
  import opened Basics

  datatype Status =
    | RunningMatch | RunningUnverified | NotRunning | PidReused
    | AccessDenied | IdentityUnavailable | InvalidPid

  /** One process incarnation: its process id and the creation identity the OS reports for it. */
  datatype Process = Process(pid: int, creation: string)

  /** Incarnation numbers are never reused, process ids are. */
  datatype Table = Table(live: map<nat, Process>, next: nat) {
    predicate Valid() {
      && (forall i <- live :: i < next && live[i].pid > 0 && live[i].creation != "")
      && (forall i <- live, j <- live :: live[i].pid == live[j].pid ==> i == j)
    }

    predicate Absent(pid: int) {
      forall i <- live :: live[i].pid != pid
    }

    predicate CanStart(p: Process) {
      p.pid > 0 && p.creation != "" && Absent(p.pid)
    }

    function Start(p: Process): Table {
      Table(live[next := p], next + 1)
    }

    function End(incarnation: nat): Table {
      Table(live - {incarnation}, next)
    }
  }

  ghost predicate TableStep(t: Table, u: Table) {
    || t == u
    || (exists p: Process :: t.CanStart(p) && u == t.Start(p))
    || (exists i <- t.live :: u == t.End(i))
  }

  /** What one query of the operating system reported about a process id. */
  datatype Snapshot = Snapshot(running: Option<bool>, creation: Option<string>, status: Option<Status>) {
    /** The combinations the POSIX and Windows queries can return. */
    predicate Shape() {
      && (status.Some? ==> status.value in {NotRunning, AccessDenied, IdentityUnavailable})
      && (status == Some(NotRunning) <==> running == Some(false))
    }
  }

  /** The snapshot tells the truth: existence was probed in `probed`, creation time read in `read`. */
  ghost predicate Faithful(probed: Table, read: Table, pid: int, snap: Snapshot) {
    && snap.Shape()
    && (snap.running == Some(false) ==> probed.Absent(pid))
    && (snap.running == Some(true) && Truthy(snap.creation) ==>
          exists i <- read.live :: read.live[i] == Process(pid, snap.creation.value))
  }

  function StatusOr(status: Option<Status>): Status {
    if status.Some? then status.value else IdentityUnavailable
  }

  function InspectProcess(pid: int, expected: Option<string>, snap: Snapshot): Status {
    if pid <= 0 then InvalidPid
    else if snap.status.Some? && snap.status.value in {NotRunning, AccessDenied, IdentityUnavailable}
            && snap.running != Some(true) then snap.status.value
    else if snap.running == Some(false) then NotRunning
    else if snap.running != Some(true) then StatusOr(snap.status)
    else if Truthy(expected) then
      if !Truthy(snap.creation) then IdentityUnavailable
      else if snap.creation.value != expected.value then PidReused
      else RunningMatch
    else RunningUnverified
  }

  predicate MechanicallyStale(pid: int, expected: Option<string>, snap: Snapshot) {
    InspectProcess(pid, expected, snap) in {NotRunning, PidReused}
  }

  /** The creation identity stored next to a process id when an owner is recorded. */
  function CurrentCreation(pid: int, snap: Snapshot): Option<string> {
    if InspectProcess(pid, None, snap) in {RunningMatch, RunningUnverified} then snap.creation else None
  }

  /** `incarnation` is the process that the stored pair (pid, creation) was taken from. */
  predicate RecordOf(t: Table, incarnation: nat, pid: int, creation: Option<string>) {
    && incarnation < t.next
    && (incarnation in t.live ==>
          && t.live[incarnation].pid == pid
          && (Truthy(creation) ==> t.live[incarnation].creation == creation.value))
  }

  ghost predicate IsRun(run: seq<Table>) {
    && |run| > 0 && run[0].Valid()
    && forall k :: 0 <= k < |run| - 1 ==> TableStep(run[k], run[k + 1])
  }

  lemma StepValid(t: Table, u: Table)
    requires t.Valid() && TableStep(t, u)
    ensures u.Valid() && t.next <= u.next
    ensures forall i <- u.live :: i in t.live || i >= t.next
  {}

  lemma RunValid(run: seq<Table>, k: nat)
    requires IsRun(run) && k < |run|
    ensures run[k].Valid()
  {
    if k > 0 {
      RunValid(run, k - 1);
      assert TableStep(run[k - 1], run[k - 1 + 1]);
    }
  }

  /** An owner record stays a record of the same incarnation for the rest of the run. */
  lemma {:induction false} RecordPersists(run: seq<Table>, i: nat, j: nat, incarnation: nat, pid: int, creation: Option<string>)
    requires IsRun(run) && i <= j < |run|
    requires RecordOf(run[i], incarnation, pid, creation)
    ensures RecordOf(run[j], incarnation, pid, creation)
    ensures incarnation !in run[i].live ==> incarnation !in run[j].live
    decreases j
  {
    if i < j {
      RecordPersists(run, i, j - 1, incarnation, pid, creation);
      RunValid(run, j - 1);
      assert TableStep(run[j - 1], run[j - 1 + 1]);
    }
  }

  /** A captured owner identity is a record of whichever process held the id when it was read. */
  lemma CaptureIsRecord(probed: Table, read: Table, pid: int, snap: Snapshot, incarnation: nat)
    requires read.Valid() && Faithful(probed, read, pid, snap)
    requires incarnation in read.live && read.live[incarnation].pid == pid
    ensures RecordOf(read, incarnation, pid, CurrentCreation(pid, snap))
  {
    if Truthy(CurrentCreation(pid, snap)) {
      var i :| i in read.live && read.live[i] == Process(pid, snap.creation.value);
      assert i == incarnation;
    }
  }

  /** A stale verdict taken between two table states means the recorded incarnation has ended by the second. */
  lemma StaleMeansEnded(probed: Table, read: Table, incarnation: nat, pid: int, creation: Option<string>, snap: Snapshot)
    requires read.Valid() && Faithful(probed, read, pid, snap)
    requires RecordOf(probed, incarnation, pid, creation) && RecordOf(read, incarnation, pid, creation)
    requires incarnation !in probed.live ==> incarnation !in read.live
    requires MechanicallyStale(pid, creation, snap)
    ensures incarnation !in read.live
  {
    if InspectProcess(pid, creation, snap) == PidReused {
      var i :| i in read.live && read.live[i] == Process(pid, snap.creation.value);
      assert forall j <- read.live :: read.live[j].pid == pid ==> j == i;
    }
  }

  /** Over a whole run: recorded at `r`, probed at `p`, read at `q`; after `q` the incarnation never lives again. */
  lemma StaleVerdictSound(run: seq<Table>, r: nat, p: nat, q: nat, k: nat,
                          incarnation: nat, pid: int, creation: Option<string>, snap: Snapshot)
    requires IsRun(run) && r <= p <= q <= k < |run|
    requires incarnation in run[r].live && RecordOf(run[r], incarnation, pid, creation)
    requires Faithful(run[p], run[q], pid, snap)
    requires MechanicallyStale(pid, creation, snap)
    ensures incarnation !in run[k].live
  {
    RecordPersists(run, r, p, incarnation, pid, creation);
    RecordPersists(run, p, q, incarnation, pid, creation);
    RunValid(run, q);
    StaleMeansEnded(run[p], run[q], incarnation, pid, creation, snap);
    RecordPersists(run, q, k, incarnation, pid, creation);
  }

  /** Exactly which answers of the operating system give a stale verdict. */
  lemma StaleExactly(pid: int, creation: Option<string>, snap: Snapshot)
    requires snap.Shape()
    ensures MechanicallyStale(pid, creation, snap) <==>
              && pid > 0
              && (|| snap.running == Some(false)
                  || (snap.running == Some(true) && creation.Some? && creation.value != "" && snap.creation.Some?
                      && snap.creation.value != "" && snap.creation.value != creation.value))
  {}

  /**
   The status of every inspection. A process that does not run is reported so; of one that may run the status of the query
   counts; of one that runs the recorded creation identity is compared if there is one.
   */
  lemma InspectExactly(pid: int, expected: Option<string>, snap: Snapshot)
    requires snap.Shape()
    ensures var status := InspectProcess(pid, expected, snap);
            var named, known := expected.Some? && expected.value != "", snap.creation.Some? && snap.creation.value != "";
            && (status == InvalidPid <==> pid <= 0)
            && (status == NotRunning <==> pid > 0 && snap.running == Some(false))
            && (status == AccessDenied <==> pid > 0 && snap.running == None && snap.status == Some(AccessDenied))
            && (status == IdentityUnavailable <==>
                  pid > 0 && if snap.running == Some(true) then named && !known
                             else snap.running == None && snap.status != Some(AccessDenied))
            && (status == PidReused <==> pid > 0 && snap.running == Some(true) && named && known && snap.creation != expected)
            && (status == RunningMatch <==> pid > 0 && snap.running == Some(true) && named && known && snap.creation == expected)
            && (status == RunningUnverified <==> pid > 0 && snap.running == Some(true) && !named)
  {
    assert snap.status.Some? ==> snap.status.value == NotRunning || snap.status.value == AccessDenied || snap.status.value == IdentityUnavailable;
    match snap.running
    case None => assert snap.status != Some(NotRunning);
    case Some(b) => assert snap.status == Some(NotRunning) <==> !b;
  }

  /** An identity is stored exactly for a running process, as the query reported it. */
  lemma CurrentCreationExactly(pid: int, snap: Snapshot)
    requires snap.Shape()
    ensures CurrentCreation(pid, snap) == if pid > 0 && snap.running == Some(true) then snap.creation else None
  {}
}
