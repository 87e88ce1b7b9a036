/**
 The workspace writer lock as a protocol of atomic file-system steps taken by interleaved
 processes, with process death and process-id reuse in the background.
 */
module WriterLock {
  import opened Basics
  import opened ProcessIdentity

  /** The JSON document stored in the lock file; `uuid` is its lock instance id. */
  datatype Payload = Payload(task: string, pid: int, creation: Option<string>, uuid: nat)

  /** A file whose document is not complete yet reads as an empty owner. */
  datatype Content = Partial | Full(payload: Payload)

  /** What stat reports (device, inode, size, mtime) is one opaque value that may repeat. */
  type Identity = int

  datatype LockFile = LockFile(uuid: nat, content: Content, identity: Identity)

  datatype Goal = JustClean | ThenAcquire(task: string, ownerPid: int)

  /** Where a process is inside cleanup_stale, acquire or release. */
  datatype Pc =
    | Idle
    | CleanWait(goal: Goal)
    | CleanCheck(goal: Goal)
    | CleanReadOwner(goal: Goal)
    | CleanReadIdentity(goal: Goal, owner: Option<Payload>)
    | CleanJudge(goal: Goal, owner: Option<Payload>, identity: Option<Identity>)
    | CleanReread(goal: Goal, owner: Option<Payload>, identity: Option<Identity>)
    | CleanReidentify(goal: Goal, owner: Option<Payload>, identity: Option<Identity>, current: Option<Payload>)
    | CleanUnlink(goal: Goal, owner: Option<Payload>)
    | CleanLeave(goal: Goal)
    | AcquireCapture(task: string, ownerPid: int)
    | AcquireCreate(payload: Payload)
    | AcquireWrite(payload: Payload)
    | ReleaseCheck(task: string)
    | ReleaseRead(task: string)
    | ReleaseUnlink(payload: Payload)

  /** The stored payload of a lock instance and the process incarnation it was taken from. */
  datatype Registration = Registration(payload: Payload, owner: Option<nat>)

  /**
   `registry`, `created`, `complete`, `returned` and `retired` are history: instances drawn up,
   created as a file, written completely, handed to their caller, and given up again by
   their own release or failed acquire.
   */
  datatype State = State(
    table: Table,
    pcs: map<nat, Pc>,
    mutex: Option<nat>,
    file: Option<LockFile>,
    registry: seq<Registration>,
    created: set<nat>,
    complete: set<nat>,
    returned: set<nat>,
    retired: set<nat>)
  {
    function At(actor: nat, pc: Pc): State {
      this.(pcs := pcs[actor := pc])
    }

    /** _read_owner: a missing or half-written file gives no owner. */
    function ReadOwner(): Option<Payload> {
      if file.Some? && file.value.content.Full? then Some(file.value.content.payload) else None
    }

    function ReadIdentity(): Option<Identity> {
      if file.Some? then Some(file.value.identity) else None
    }

    predicate OwnerLives(uuid: nat) {
      && uuid < |registry|
      && registry[uuid].owner.Some?
      && registry[uuid].owner.value in table.live
    }
  }

  function Init(): State {
    State(Table(map[], 0), map[], None, None, [], {}, {}, {}, {})
  }

  datatype WriteHow = More | Finish | Return | Abort

  datatype Event =
    | Start(process: Process)
    | Die(incarnation: nat)
    | Call(actor: nat, pc: Pc)
    | Go(actor: nat, snap: Snapshot)
    | Write(actor: nat, how: WriteHow, identity: Identity)

  predicate HoldsMutex(pc: Pc) {
    || pc.CleanCheck? || pc.CleanReadOwner? || pc.CleanReadIdentity? || pc.CleanJudge?
    || pc.CleanReread? || pc.CleanReidentify? || pc.CleanUnlink? || pc.CleanLeave?
  }

  function PidOf(owner: Option<Payload>): int {
    if owner.Some? then owner.value.pid else -1
  }

  function CreationOf(owner: Option<Payload>): Option<string> {
    if owner.Some? then owner.value.creation else None
  }

  /** The process incarnation that holds a process id, if any. */
  ghost function HolderOf(table: Table, pid: int): Option<nat> {
    if exists i <- table.live :: table.live[i].pid == pid
    then var i :| i in table.live && table.live[i].pid == pid; Some(i)
    else None
  }

  ghost predicate Enabled(s: State, e: Event) {
    match e
    case Start(p) => s.table.CanStart(p)
    case Die(i) => i in s.table.live
    case Call(a, pc) =>
      && a in s.pcs && s.pcs[a] == Idle
      && (pc.CleanWait? || pc.ReleaseCheck?)
    case Go(a, snap) =>
      && a in s.pcs && !s.pcs[a].Idle? && !s.pcs[a].AcquireWrite?
      && (s.pcs[a].CleanWait? ==> s.mutex.None?)
      && (s.pcs[a].CleanJudge? ==> Faithful(s.table, s.table, PidOf(s.pcs[a].owner), snap))
      && (s.pcs[a].AcquireCapture? ==> Faithful(s.table, s.table, s.pcs[a].ownerPid, snap))
    case Write(a, how, _) =>
      && a in s.pcs && s.pcs[a].AcquireWrite?
      && (how.More? || how.Finish? ==> s.pcs[a].payload.uuid !in s.complete)
      && (how.Return? ==> s.pcs[a].payload.uuid in s.complete)
  }

  /** The re-check of cleanup_stale after the owner was judged stale. */
  predicate Unchanged(observed: Option<Payload>, observedIdentity: Option<Identity>,
                      current: Option<Payload>, currentIdentity: Option<Identity>) {
    && currentIdentity.Some?
    && currentIdentity == observedIdentity
    && (observed.Some? ==> current.Some? && current.value.uuid == observed.value.uuid)
  }

  ghost function Advance(s: State, a: nat, snap: Snapshot): State
    requires a in s.pcs
  {
    match s.pcs[a]
    case CleanWait(goal) => s.(mutex := Some(a)).At(a, CleanCheck(goal))
    case CleanCheck(goal) =>
      s.At(a, if s.file.Some? then CleanReadOwner(goal) else CleanLeave(goal))
    case CleanReadOwner(goal) => s.At(a, CleanReadIdentity(goal, s.ReadOwner()))
    case CleanReadIdentity(goal, owner) => s.At(a, CleanJudge(goal, owner, s.ReadIdentity()))
    case CleanJudge(goal, owner, identity) =>
      s.At(a, if MechanicallyStale(PidOf(owner), CreationOf(owner), snap)
              then CleanReread(goal, owner, identity) else CleanLeave(goal))
    case CleanReread(goal, owner, identity) =>
      s.At(a, CleanReidentify(goal, owner, identity, s.ReadOwner()))
    case CleanReidentify(goal, owner, identity, current) =>
      s.At(a, if Unchanged(owner, identity, current, s.ReadIdentity())
              then CleanUnlink(goal, owner) else CleanLeave(goal))
    case CleanUnlink(goal, _) => s.(file := None).At(a, CleanLeave(goal))
    case CleanLeave(goal) =>
      s.(mutex := None).At(a, if goal.ThenAcquire? then AcquireCapture(goal.task, goal.ownerPid) else Idle)
    case AcquireCapture(task, pid) =>
      var payload := Payload(task, pid, CurrentCreation(pid, snap), |s.registry|);
      s.(registry := s.registry + [Registration(payload, HolderOf(s.table, pid))]).At(a, AcquireCreate(payload))
    case AcquireCreate(payload) =>
      if s.file.Some? then s.At(a, Idle)
      else s.(file := Some(LockFile(payload.uuid, Partial, 0)), created := s.created + {payload.uuid})
            .At(a, AcquireWrite(payload))
    case ReleaseCheck(task) => s.At(a, if s.file.Some? then ReleaseRead(task) else Idle)
    case ReleaseRead(task) =>
      var owner := s.ReadOwner();
      s.At(a, if owner.Some? && owner.value.task == task then ReleaseUnlink(owner.value) else Idle)
    case ReleaseUnlink(payload) =>
      s.(file := None, retired := s.retired + {payload.uuid}).At(a, Idle)
    case _ => s
  }

  /** Writing goes through the open descriptor, so it reaches the file only while that file is still linked. */
  function WriteStep(s: State, a: nat, payload: Payload, how: WriteHow, identity: Identity): State {
    var linked := s.file.Some? && s.file.value.uuid == payload.uuid;
    match how
    case More =>
      if linked then s.(file := Some(s.file.value.(identity := identity))) else s
    case Finish =>
      s.(complete := s.complete + {payload.uuid},
         file := if linked then Some(LockFile(payload.uuid, Full(payload), identity)) else s.file)
    case Return => s.(returned := s.returned + {payload.uuid}).At(a, Idle)
    case Abort => s.(file := None, retired := s.retired + {payload.uuid}).At(a, Idle)
  }

  /**
   What a write does to the file that is linked: nothing to that of another instance, a new identity to its own, a complete
   document only by the last write; giving up unlinks whatever is there.
   */
  lemma WriteReachesExactly(s: State, a: nat, payload: Payload, how: WriteHow, identity: Identity)
    ensures var t := WriteStep(s, a, payload, how, identity);
            && (how.Abort? ==> t.file.None?)
            && (how.Return? || (!how.Abort? && (s.file.None? || s.file.value.uuid != payload.uuid)) ==> t.file == s.file)
            && ((how.More? || how.Finish?) && s.file.Some? && s.file.value.uuid == payload.uuid ==>
                  && t.file.Some? && t.file.value.uuid == payload.uuid && t.file.value.identity == identity
                  && t.file.value.content == if how.Finish? then Full(payload) else s.file.value.content)
            && (t.complete == s.complete + if how.Finish? then {payload.uuid} else {})
  {}

  ghost function Next(s: State, e: Event): State
    requires Enabled(s, e)
  {
    match e
    case Start(p) => s.(table := s.table.Start(p)).At(s.table.next, Idle)
    case Die(i) =>
      s.(table := s.table.End(i), pcs := s.pcs - {i},
         mutex := if s.mutex == Some(i) then None else s.mutex)
    case Call(a, pc) => s.At(a, pc)
    case Go(a, snap) => Advance(s, a, snap)
    case Write(a, how, identity) => WriteStep(s, a, s.pcs[a].payload, how, identity)
  }

  /** The lock instance a process is about to give up or is still writing. */
  predicate InWindow(pc: Pc, uuid: nat) {
    (pc.AcquireWrite? || pc.ReleaseUnlink?) && pc.payload.uuid == uuid
  }

  /** At most one release (or still running acquire) of an instance at a time. */
  ghost predicate OneRelease(s: State, e: Event)
    requires Enabled(s, e)
  {
    match e
    case Go(a, _) =>
      s.pcs[a].ReleaseRead? && s.ReadOwner().Some? && s.ReadOwner().value.task == s.pcs[a].task ==>
        forall b <- s.pcs :: !InWindow(s.pcs[b], s.ReadOwner().value.uuid)
    case _ => true
  }

  /** An instance whose document is complete is only given up while its recorded owner lives. */
  ghost predicate OwnerOutlives(s: State, e: Event)
    requires Enabled(s, e)
  {
    match e
    case Go(a, _) => s.pcs[a].ReleaseUnlink? ==> s.OwnerLives(s.pcs[a].payload.uuid)
    case Write(a, Abort, _) => s.pcs[a].payload.uuid in s.complete ==> s.OwnerLives(s.pcs[a].payload.uuid)
    case _ => true
  }

  /** What callers must respect. */
  ghost predicate Governed(s: State, e: Event)
    requires Enabled(s, e)
  {
    OneRelease(s, e) && OwnerOutlives(s, e)
  }

  // ---- Invariant ----

  predicate Registered(s: State, p: Payload) {
    p.uuid < |s.registry| && s.registry[p.uuid].payload == p
  }

  predicate Observed(s: State, owner: Option<Payload>) {
    owner.Some? ==> Registered(s, owner.value) && owner.value.uuid in s.complete
  }

  /** The instance read by a cleaner whose owner was judged stale. */
  predicate Condemned(s: State, owner: Option<Payload>) {
    owner.Some? && Observed(s, owner) && !s.OwnerLives(owner.value.uuid)
  }

  predicate Linked(s: State, uuid: nat) {
    s.file.Some? && s.file.value.uuid == uuid
  }

  predicate PcOk(s: State, pc: Pc) {
    match pc
    case CleanReadIdentity(_, owner) => Observed(s, owner)
    case CleanJudge(_, owner, _) => Observed(s, owner)
    case CleanReread(_, owner, _) => Condemned(s, owner)
    case CleanReidentify(_, owner, _, current) =>
      && Condemned(s, owner)
      && (current.Some? && current.value.uuid == owner.value.uuid ==> Linked(s, owner.value.uuid))
    case CleanUnlink(_, owner) => Condemned(s, owner) && Linked(s, owner.value.uuid)
    case AcquireCreate(p) => Registered(s, p) && p.uuid !in s.created
    case AcquireWrite(p) =>
      && Registered(s, p) && p.uuid in s.created && p.uuid !in s.returned && p.uuid !in s.retired
      && (p.uuid !in s.complete ==> Linked(s, p.uuid))
    case ReleaseUnlink(p) => Registered(s, p) && p.uuid in s.complete && p.uuid !in s.retired
    case _ => true
  }

  /** The instance a process is creating, writing or releasing. */
  function Claim(pc: Pc): Option<nat> {
    if pc.AcquireCreate? || pc.AcquireWrite? || pc.ReleaseUnlink? then Some(pc.payload.uuid) else None
  }

  predicate Exclusive(pcs: map<nat, Pc>) {
    forall a <- pcs, b <- pcs :: a != b && Claim(pcs[a]).Some? ==> Claim(pcs[a]) != Claim(pcs[b])
  }

  predicate Actors(s: State) {
    && s.pcs.Keys == s.table.live.Keys
    && (forall a <- s.pcs :: PcOk(s, s.pcs[a]))
    && (forall a <- s.pcs :: HoldsMutex(s.pcs[a]) ==> s.mutex == Some(a))
    && Exclusive(s.pcs)
  }

  predicate History(s: State) {
    && (forall u <- s.created :: u < |s.registry|)
    && s.complete <= s.created
    && s.returned <= s.complete
    && s.retired <= s.created
    && (forall u: nat | u < |s.registry| ::
          && s.registry[u].payload.uuid == u
          && (s.registry[u].owner.Some? ==>
                RecordOf(s.table, s.registry[u].owner.value, s.registry[u].payload.pid, s.registry[u].payload.creation)))
  }

  predicate FileOk(s: State) {
    && (s.file.Some? ==>
          var f := s.file.value;
          && f.uuid in s.created && f.uuid !in s.retired
          && (f.content.Full? <==> f.uuid in s.complete)
          && (f.content.Full? ==> Registered(s, f.content.payload) && f.content.payload.uuid == f.uuid))
    && (forall u <- s.complete :: u !in s.retired && s.OwnerLives(u) ==> Linked(s, u))
  }

  predicate Inv(s: State) {
    s.table.Valid() && Actors(s) && History(s) && FileOk(s)
  }

  // ---- Every governed step keeps the invariant ----

  /** The program point needs the instance to stay linked. */
  predicate Relies(s: State, pc: Pc, uuid: nat) {
    || ((pc.CleanReidentify? || pc.CleanUnlink?) && pc.owner.Some? && pc.owner.value.uuid == uuid)
    || (pc.AcquireWrite? && pc.payload.uuid == uuid && uuid !in s.complete)
  }

  /** What another process may change without disturbing a program point. */
  ghost predicate Undisturbed(s: State, t: State, pc: Pc) {
    && (Claim(pc).Some? ==>
          var u := Claim(pc).value;
          && (u in t.created ==> u in s.created) && (u in t.complete ==> u in s.complete)
          && (u in t.returned ==> u in s.returned) && (u in t.retired ==> u in s.retired))
    && (s.file.Some? ==> Linked(t, s.file.value.uuid) || !Relies(s, pc, s.file.value.uuid))
  }

  /** Shared history only grows and no ended owner comes back. */
  ghost predicate Grows(s: State, t: State) {
    && s.registry <= t.registry && s.complete <= t.complete && s.created <= t.created
    && forall u: nat | u < |s.registry| :: t.OwnerLives(u) ==> s.OwnerLives(u)
  }

  lemma PcOkFrame(s: State, t: State, pc: Pc)
    requires PcOk(s, pc) && Grows(s, t) && Undisturbed(s, t, pc)
    ensures PcOk(t, pc)
  {}

  /** One process moves to `pc`; all others are undisturbed. */
  lemma ActorsStep(s: State, t: State, a: nat, pc: Pc)
    requires Actors(s) && Grows(s, t) && a in s.pcs
    requires t.pcs == s.pcs[a := pc] && t.table == s.table && PcOk(t, pc)
    requires forall b <- s.pcs | b != a :: Undisturbed(s, t, s.pcs[b])
    requires t.mutex == s.mutex || s.mutex.None? || s.mutex == Some(a)
    requires HoldsMutex(pc) ==> t.mutex == Some(a)
    requires Claim(pc).Some? && Claim(pc) != Claim(s.pcs[a]) ==> forall b <- s.pcs :: Claim(s.pcs[b]) != Claim(pc)
    ensures Actors(t)
  {
    forall b <- t.pcs ensures PcOk(t, t.pcs[b]) {
      if b != a { PcOkFrame(s, t, s.pcs[b]); }
    }
  }

  /** A process only moved to another program point; nothing shared changed except possibly the mutex. */
  lemma MoveKeepsInv(s: State, a: nat, pc: Pc, mutex: Option<nat>)
    requires Inv(s) && a in s.pcs && PcOk(s, pc)
    requires HoldsMutex(pc) ==> mutex == Some(a)
    requires mutex == s.mutex || s.mutex.None? || s.mutex == Some(a)
    requires Claim(pc).Some? && Claim(pc) != Claim(s.pcs[a]) ==> forall b <- s.pcs :: Claim(s.pcs[b]) != Claim(pc)
    ensures Inv(s.(mutex := mutex).At(a, pc))
  {
    ActorsStep(s, s.(mutex := mutex).At(a, pc), a, pc);
  }

  /** Starting or ending a process leaves every owner record in force and revives no owner. */
  lemma TableStepKeepsHistory(s: State, t: State)
    requires s.table.Valid() && History(s) && TableStep(s.table, t.table)
    requires t.registry == s.registry && t.created == s.created && t.complete == s.complete
    requires t.returned == s.returned && t.retired == s.retired
    ensures t.table.Valid() && History(t)
    ensures forall u: nat | u < |s.registry| :: t.OwnerLives(u) ==> s.OwnerLives(u)
  {
    StepValid(s.table, t.table);
    forall u: nat | u < |s.registry| && s.registry[u].owner.Some?
      ensures RecordOf(t.table, s.registry[u].owner.value, s.registry[u].payload.pid, s.registry[u].payload.creation)
    {
      assert RecordOf(s.table, s.registry[u].owner.value, s.registry[u].payload.pid, s.registry[u].payload.creation);
    }
  }

  lemma StartKeepsInv(s: State, p: Process)
    requires Inv(s) && s.table.CanStart(p)
    ensures Inv(s.(table := s.table.Start(p)).At(s.table.next, Idle))
  {
    var t := s.(table := s.table.Start(p)).At(s.table.next, Idle);
    TableStepKeepsHistory(s, t);
    forall b <- s.pcs ensures PcOk(t, s.pcs[b]) {
      TableStepKeepsPc(s, t, s.pcs[b]);
    }
    StartKeepsActors(s, t, p);
    TableStepKeepsFile(s, t);
  }

  lemma StartKeepsActors(s: State, t: State, p: Process)
    requires Actors(s) && s.table.Valid() && t == s.(table := s.table.Start(p)).At(s.table.next, Idle)
    requires forall b <- s.pcs :: PcOk(t, s.pcs[b])
    ensures Actors(t)
  {}

  /** The process table alone changed, and revived nobody. */
  lemma TableStepKeepsPc(s: State, t: State, pc: Pc)
    requires t == s.(table := t.table, pcs := t.pcs, mutex := t.mutex) && Grows(s, t) && PcOk(s, pc)
    ensures PcOk(t, pc)
  {
    PcOkFrame(s, t, pc);
  }

  lemma TableStepKeepsFile(s: State, t: State)
    requires t == s.(table := t.table, pcs := t.pcs, mutex := t.mutex) && Grows(s, t) && FileOk(s)
    requires forall u <- s.complete :: u < |s.registry|
    ensures FileOk(t)
  {}

  lemma DieKeepsInv(s: State, i: nat)
    requires Inv(s) && i in s.table.live
    ensures Inv(s.(table := s.table.End(i), pcs := s.pcs - {i}, mutex := if s.mutex == Some(i) then None else s.mutex))
  {
    var t := s.(table := s.table.End(i), pcs := s.pcs - {i}, mutex := if s.mutex == Some(i) then None else s.mutex);
    assert TableStep(s.table, t.table);
    TableStepKeepsHistory(s, t);
    forall b <- t.pcs ensures PcOk(t, t.pcs[b]) {
      TableStepKeepsPc(s, t, s.pcs[b]);
    }
    assert Actors(t);
    TableStepKeepsFile(s, t);
  }

  /** Drawing up a payload registers a new instance id together with the process it names. */
  lemma RegisterKeepsHistory(s: State, t: State, r: Registration)
    requires History(s) && FileOk(s) && t == s.(registry := s.registry + [r], pcs := t.pcs)
    requires r.payload.uuid == |s.registry|
    requires r.owner.Some? ==> RecordOf(s.table, r.owner.value, r.payload.pid, r.payload.creation)
    ensures Grows(s, t) && History(t) && FileOk(t)
  {
    assert forall u: nat | u < |s.registry| :: t.registry[u] == s.registry[u];
    assert forall u: nat | u < |s.registry| :: t.OwnerLives(u) == s.OwnerLives(u);
  }

  lemma HolderIsRecorded(table: Table, pid: int, snap: Snapshot)
    requires table.Valid() && Faithful(table, table, pid, snap)
    ensures HolderOf(table, pid).Some? ==>
              RecordOf(table, HolderOf(table, pid).value, pid, CurrentCreation(pid, snap))
  {
    var holder := HolderOf(table, pid);
    if holder.Some? {
      CaptureIsRecord(table, table, pid, snap, holder.value);
    }
  }

  lemma CaptureKeepsInv(s: State, a: nat, snap: Snapshot)
    requires Inv(s) && a in s.pcs && s.pcs[a].AcquireCapture?
    requires Faithful(s.table, s.table, s.pcs[a].ownerPid, snap)
    ensures Inv(Advance(s, a, snap))
  {
    var pid := s.pcs[a].ownerPid;
    var r := Registration(Payload(s.pcs[a].task, pid, CurrentCreation(pid, snap), |s.registry|), HolderOf(s.table, pid));
    HolderIsRecorded(s.table, pid, snap);
    RegisterStepKeepsInv(s, a, r);
    assert Advance(s, a, snap) == s.(registry := s.registry + [r]).At(a, AcquireCreate(r.payload));
  }

  lemma RegisterStepKeepsInv(s: State, a: nat, r: Registration)
    requires Inv(s) && a in s.pcs
    requires r.payload.uuid == |s.registry|
    requires r.owner.Some? ==> RecordOf(s.table, r.owner.value, r.payload.pid, r.payload.creation)
    ensures Inv(s.(registry := s.registry + [r]).At(a, AcquireCreate(r.payload)))
  {
    var t := s.(registry := s.registry + [r]).At(a, AcquireCreate(r.payload));
    RegisterKeepsHistory(s, t, r);
    forall b <- s.pcs ensures Claim(s.pcs[b]) != Some(|s.registry|) {
      assert PcOk(s, s.pcs[b]);
    }
    ActorsStep(s, t, a, AcquireCreate(r.payload));
  }

  /** Exclusive creation makes a file that nobody has read yet. */
  lemma CreateKeepsInv(s: State, a: nat, snap: Snapshot)
    requires Inv(s) && a in s.pcs && s.pcs[a].AcquireCreate?
    ensures Inv(Advance(s, a, snap))
  {
    var t := Advance(s, a, snap);
    assert PcOk(s, s.pcs[a]);
    if s.file.Some? {
      MoveKeepsInv(s, a, Idle, s.mutex);
      assert t == s.(mutex := s.mutex).At(a, Idle);
    } else {
      ActorsStep(s, t, a, AcquireWrite(s.pcs[a].payload));
    }
  }

  /** Judging, re-reading and comparing inside the mutex. */
  lemma CleanStepKeepsInv(s: State, a: nat, snap: Snapshot)
    requires Inv(s) && Enabled(s, Go(a, snap))
    requires s.pcs[a].CleanWait? || HoldsMutex(s.pcs[a])
    requires !s.pcs[a].CleanUnlink?
    ensures Inv(Advance(s, a, snap))
  {
    var pc := s.pcs[a];
    assert PcOk(s, pc);
    var t := Advance(s, a, snap);
    if pc.CleanJudge? && MechanicallyStale(PidOf(pc.owner), CreationOf(pc.owner), snap) {
      JudgedStaleIsDead(s, pc.owner, snap);
    }
    assert t == s.(mutex := t.mutex).At(a, t.pcs[a]);
    MoveKeepsInv(s, a, t.pcs[a], t.mutex);
  }

  lemma JudgedStaleIsDead(s: State, owner: Option<Payload>, snap: Snapshot)
    requires s.table.Valid() && History(s) && Observed(s, owner)
    requires Faithful(s.table, s.table, PidOf(owner), snap)
    requires MechanicallyStale(PidOf(owner), CreationOf(owner), snap)
    ensures Condemned(s, owner)
  {
    var r := s.registry[owner.value.uuid];
    if r.owner.Some? {
      StaleMeansEnded(s.table, s.table, r.owner.value, r.payload.pid, r.payload.creation, snap);
    }
  }

  /** Removing the file is harmless when no other process relies on the instance and no living owner has it. */
  lemma RemoveKeepsInv(s: State, a: nat, pc: Pc, uuid: nat, retire: set<nat>)
    requires Inv(s) && a in s.pcs && Linked(s, uuid) && retire <= {uuid}
    requires pc.Idle? || pc.CleanLeave?
    requires HoldsMutex(pc) ==> s.mutex == Some(a)
    requires retire == {} ==> !s.OwnerLives(uuid)
    requires retire == {uuid} ==> Claim(s.pcs[a]) == Some(uuid)
    requires forall b <- s.pcs | b != a :: !Relies(s, s.pcs[b], uuid)
    ensures Inv(s.(file := None, retired := s.retired + retire).At(a, pc))
  {
    ActorsStep(s, s.(file := None, retired := s.retired + retire).At(a, pc), a, pc);
  }

  /** The condemned instance is the one that gets unlinked. */
  lemma CleanUnlinkKeepsInv(s: State, a: nat, snap: Snapshot)
    requires Inv(s) && a in s.pcs && s.pcs[a].CleanUnlink?
    ensures Inv(Advance(s, a, snap))
  {
    var pc := s.pcs[a];
    assert PcOk(s, pc);
    forall b <- s.pcs | b != a ensures !Relies(s, s.pcs[b], pc.owner.value.uuid) {
      assert PcOk(s, s.pcs[b]);
    }
    RemoveKeepsInv(s, a, CleanLeave(pc.goal), pc.owner.value.uuid, {});
    assert s.retired + {} == s.retired;
  }

  /** A living owner's instance is still the linked one when its release (or failed acquire) unlinks. */
  lemma GiveUpKeepsInv(s: State, a: nat)
    requires Inv(s) && a in s.pcs && (s.pcs[a].ReleaseUnlink? || s.pcs[a].AcquireWrite?)
    requires s.pcs[a].payload.uuid in s.complete ==> s.OwnerLives(s.pcs[a].payload.uuid)
    ensures Inv(s.(file := None, retired := s.retired + {s.pcs[a].payload.uuid}).At(a, Idle))
  {
    var u := s.pcs[a].payload.uuid;
    assert PcOk(s, s.pcs[a]);
    assert Linked(s, u);
    forall b <- s.pcs | b != a ensures !Relies(s, s.pcs[b], u) {
      assert PcOk(s, s.pcs[b]);
    }
    RemoveKeepsInv(s, a, Idle, u, {u});
  }

  lemma ReleaseReadKeepsInv(s: State, a: nat, snap: Snapshot)
    requires Inv(s) && Enabled(s, Go(a, snap)) && Governed(s, Go(a, snap))
    requires s.pcs[a].ReleaseCheck? || s.pcs[a].ReleaseRead?
    ensures Inv(Advance(s, a, snap))
  {
    var t := Advance(s, a, snap);
    if t.pcs[a].ReleaseUnlink? {
      ReadOwnerUnclaimed(s, a, snap);
    }
    assert t == s.(mutex := s.mutex).At(a, t.pcs[a]);
    MoveKeepsInv(s, a, t.pcs[a], s.mutex);
  }

  /** The instance a governed release has read is complete, in force and claimed by nobody. */
  lemma ReadOwnerUnclaimed(s: State, a: nat, snap: Snapshot)
    requires Inv(s) && Enabled(s, Go(a, snap)) && Governed(s, Go(a, snap)) && s.pcs[a].ReleaseRead?
    requires s.ReadOwner().Some? && s.ReadOwner().value.task == s.pcs[a].task
    ensures PcOk(s, ReleaseUnlink(s.ReadOwner().value))
    ensures forall b <- s.pcs :: Claim(s.pcs[b]) != Some(s.ReadOwner().value.uuid)
  {
    forall b <- s.pcs ensures Claim(s.pcs[b]) != Some(s.ReadOwner().value.uuid) {
      assert PcOk(s, s.pcs[b]) && !InWindow(s.pcs[b], s.ReadOwner().value.uuid);
    }
  }

  lemma FinishKeepsInv(s: State, a: nat, identity: Identity)
    requires Inv(s) && a in s.pcs && s.pcs[a].AcquireWrite? && s.pcs[a].payload.uuid !in s.complete
    ensures Inv(WriteStep(s, a, s.pcs[a].payload, Finish, identity))
  {
    var p := s.pcs[a].payload;
    var t := WriteStep(s, a, p, Finish, identity);
    assert PcOk(s, s.pcs[a]) && Linked(s, p.uuid);
    ActorsStep(s, t, a, s.pcs[a]);
  }

  lemma WriteStepKeepsInv(s: State, a: nat, how: WriteHow, identity: Identity)
    requires Inv(s) && Enabled(s, Write(a, how, identity)) && Governed(s, Write(a, how, identity))
    ensures Inv(WriteStep(s, a, s.pcs[a].payload, how, identity))
  {
    var p := s.pcs[a].payload;
    assert PcOk(s, s.pcs[a]);
    match how
    case Finish => FinishKeepsInv(s, a, identity);
    case Abort => GiveUpKeepsInv(s, a);
    case More => MoreKeepsInv(s, a, identity);
    case Return => ReturnKeepsInv(s, a, identity);
  }

  lemma MoreKeepsInv(s: State, a: nat, identity: Identity)
    requires Inv(s) && a in s.pcs && s.pcs[a].AcquireWrite?
    ensures Inv(WriteStep(s, a, s.pcs[a].payload, More, identity))
  {
    ActorsStep(s, WriteStep(s, a, s.pcs[a].payload, More, identity), a, s.pcs[a]);
  }

  lemma ReturnKeepsInv(s: State, a: nat, identity: Identity)
    requires Inv(s) && a in s.pcs && s.pcs[a].AcquireWrite? && s.pcs[a].payload.uuid in s.complete
    ensures Inv(WriteStep(s, a, s.pcs[a].payload, Return, identity))
  {
    ActorsStep(s, WriteStep(s, a, s.pcs[a].payload, Return, identity), a, Idle);
  }

  lemma StepKeepsInv(s: State, e: Event)
    requires Inv(s) && Enabled(s, e) && Governed(s, e)
    ensures Inv(Next(s, e))
  {
    match e
    case Start(p) => StartKeepsInv(s, p);
    case Die(i) => DieKeepsInv(s, i);
    case Call(a, pc) => MoveKeepsInv(s, a, pc, s.mutex);
    case Write(a, how, identity) => WriteStepKeepsInv(s, a, how, identity);
    case Go(a, snap) =>
      if s.pcs[a].AcquireCapture? { CaptureKeepsInv(s, a, snap); }
      else if s.pcs[a].AcquireCreate? { CreateKeepsInv(s, a, snap); }
      else if s.pcs[a].CleanUnlink? { CleanUnlinkKeepsInv(s, a, snap); }
      else if s.pcs[a].ReleaseUnlink? {
        assert PcOk(s, s.pcs[a]);
        GiveUpKeepsInv(s, a);
      }
      else if s.pcs[a].ReleaseCheck? || s.pcs[a].ReleaseRead? { ReleaseReadKeepsInv(s, a, snap); }
      else { CleanStepKeepsInv(s, a, snap); }
  }

  // ---- Whole runs ----

  ghost predicate Possible(s: State, events: seq<Event>)
    decreases |events|, 0
  {
    events != [] ==>
      var before := events[..|events| - 1];
      Possible(s, before) && Enabled(After(s, before), events[|events| - 1])
  }

  ghost function After(s: State, events: seq<Event>): State
    requires Possible(s, events)
    decreases |events|, 1
  {
    if events == [] then s
    else Next(After(s, events[..|events| - 1]), events[|events| - 1])
  }

  ghost predicate AllGoverned(s: State, events: seq<Event>)
    requires Possible(s, events)
    decreases |events|
  {
    events != [] ==>
      var before := events[..|events| - 1];
      AllGoverned(s, before) && Governed(After(s, before), events[|events| - 1])
  }

  lemma {:induction false} RunKeepsInv(s: State, events: seq<Event>)
    requires Inv(s) && Possible(s, events) && AllGoverned(s, events)
    ensures Inv(After(s, events))
    decreases |events|
  {
    if events != [] {
      var before := events[..|events| - 1];
      RunKeepsInv(s, before);
      StepKeepsInv(After(s, before), events[|events| - 1]);
    }
  }

  /** Acquired, not given up again, and its recorded owner process is still the living one. */
  predicate Held(s: State, uuid: nat) {
    uuid in s.returned && uuid !in s.retired && s.OwnerLives(uuid)
  }

  /** At most one held instance, and the lock file is that instance's complete document. */
  lemma MutualExclusion(events: seq<Event>, u: nat, v: nat)
    requires Possible(Init(), events) && AllGoverned(Init(), events)
    requires Held(After(Init(), events), u) && Held(After(Init(), events), v)
    ensures u == v
    ensures After(Init(), events).ReadOwner().Some? && After(Init(), events).ReadOwner().value.uuid == u
  {
    RunKeepsInv(Init(), events);
  }

  lemma HeldAcrossStep(s: State, e: Event, u: nat)
    requires Inv(s) && Enabled(s, e)
    requires Held(s, u) && !Held(Next(s, e), u)
    ensures || (e.Die? && s.registry[u].owner == Some(e.incarnation))
            || (e.Go? && s.pcs[e.actor].ReleaseUnlink? && s.pcs[e.actor].payload.uuid == u)
  {
    assert e.Write? ==> PcOk(s, s.pcs[e.actor]);
  }

  /** A held instance stops being held only through its own release or through the end of its owner. */
  lemma HeldUntilReleasedOrOwnerEnds(events: seq<Event>, e: Event, u: nat)
    requires Possible(Init(), events) && AllGoverned(Init(), events)
    requires Enabled(After(Init(), events), e)
    requires Held(After(Init(), events), u) && !Held(Next(After(Init(), events), e), u)
    ensures || (e.Die? && After(Init(), events).registry[u].owner == Some(e.incarnation))
            || (e.Go? && After(Init(), events).pcs[e.actor].ReleaseUnlink?
                && After(Init(), events).pcs[e.actor].payload.uuid == u)
  {
    RunKeepsInv(Init(), events);
    HeldAcrossStep(After(Init(), events), e, u);
  }

  /** What cleanup_stale unlinks is exactly the instance it judged stale: still linked, its owner ended, never held again. */
  lemma CleanupUnlinksOnlyTheCondemned(events: seq<Event>, a: nat, snap: Snapshot)
    requires Possible(Init(), events) && AllGoverned(Init(), events)
    requires a in After(Init(), events).pcs && After(Init(), events).pcs[a].CleanUnlink?
    ensures var s := After(Init(), events);
            && s.pcs[a].owner.Some?
            && s.ReadOwner() == s.pcs[a].owner
            && !s.OwnerLives(s.pcs[a].owner.value.uuid)
            && forall u :: Held(s, u) ==> Held(Advance(s, a, snap), u)
  {
    var s := After(Init(), events);
    RunKeepsInv(Init(), events);
    assert PcOk(s, s.pcs[a]);
  }

  /** The linked file is the complete document of a held instance. */
  predicate InForce(s: State, uuid: nat) {
    Held(s, uuid) && Linked(s, uuid)
  }

  /**
   One release step, whether or not its owner still lives: it takes no other held instance out of force exactly if no
   other held instance is linked when it unlinks.
   */
  lemma UnlinkSparesOthers(s: State, a: nat, snap: Snapshot)
    requires Inv(s) && a in s.pcs && s.pcs[a].ReleaseUnlink?
    ensures var read := s.pcs[a].payload.uuid;
            (forall u: nat | u != read && Held(s, u) :: InForce(Advance(s, a, snap), u))
            <==> !exists u: nat :: u != read && InForce(s, u)
    ensures s.OwnerLives(s.pcs[a].payload.uuid) ==>
              forall u: nat | u != s.pcs[a].payload.uuid && Held(s, u) :: InForce(Advance(s, a, snap), u)
  {
    assert PcOk(s, s.pcs[a]);
    forall u: nat | Held(s, u) ensures InForce(s, u) && !InForce(Advance(s, a, snap), u) {}
  }

  // ---- The three entry points, run without interference ----

  /** Which of the two rules a run keeps at every step. */
  datatype Discipline = NoRule | KeepsOneRelease | KeepsOwnerOutlives

  ghost predicate Obeys(rule: Discipline, s: State, e: Event)
    requires Enabled(s, e)
  {
    && (rule.KeepsOneRelease? ==> OneRelease(s, e))
    && (rule.KeepsOwnerOutlives? ==> OwnerOutlives(s, e))
  }

  ghost predicate AllObey(rule: Discipline, s: State, events: seq<Event>)
    requires Possible(s, events)
    decreases |events|
  {
    events != [] ==>
      var before := events[..|events| - 1];
      AllObey(rule, s, before) && Obeys(rule, After(s, before), events[|events| - 1])
  }

  ghost predicate Closed(rule: Discipline, states: State -> bool) {
    forall m, e :: states(m) && Enabled(m, e) && Obeys(rule, m, e) ==> states(Next(m, e))
  }

  /** t is reached from s: it lies in every set of states that holds s and is closed under the steps that keep the rule. */
  ghost predicate Leads(rule: Discipline, s: State, t: State) {
    forall states: State -> bool :: states(s) && Closed(rule, states) ==> states(t)
  }

  lemma Stay(rule: Discipline, s: State)
    ensures Leads(rule, s, s)
  {}

  lemma Then(rule: Discipline, start: State, s: State, e: Event)
    requires Leads(rule, start, s) && Enabled(s, e) && Obeys(rule, s, e)
    ensures Leads(rule, start, Next(s, e))
  {}

  /** There is a run from s to t that keeps the rule at every step. */
  ghost predicate HasRun(rule: Discipline, s: State, t: State) {
    exists events :: Possible(s, events) && AllObey(rule, s, events) && After(s, events) == t
  }

  lemma RunGoesOn(rule: Discipline, s: State, t: State, e: Event)
    requires HasRun(rule, s, t) && Enabled(t, e) && Obeys(rule, t, e)
    ensures HasRun(rule, s, Next(t, e))
  {
    var events :| Possible(s, events) && AllObey(rule, s, events) && After(s, events) == t;
    var longer := events + [e];
    assert longer[..|longer| - 1] == events;
    assert Possible(s, longer) && AllObey(rule, s, longer) && After(s, longer) == Next(t, e);
  }

  lemma {:induction false} RunStaysInside(rule: Discipline, s: State, events: seq<Event>, states: State -> bool)
    requires Possible(s, events) && AllObey(rule, s, events) && states(s) && Closed(rule, states)
    ensures states(After(s, events))
    decreases |events|
  {
    if events != [] {
      RunStaysInside(rule, s, events[..|events| - 1], states);
    }
  }

  /** Being reached is being the end of such a run. */
  lemma LeadsByRuns(rule: Discipline, s: State, t: State)
    ensures Leads(rule, s, t) <==> HasRun(rule, s, t)
  {
    if Leads(rule, s, t) {
      var runs: State -> bool := (m: State) => HasRun(rule, s, m);
      assert HasRun(rule, s, s) by {
        assert Possible(s, []) && AllObey(rule, s, []) && After(s, []) == s;
      }
      forall m, e | runs(m) && Enabled(m, e) && Obeys(rule, m, e) ensures runs(Next(m, e)) {
        RunGoesOn(rule, s, m, e);
      }
      assert runs(t);
    } else if HasRun(rule, s, t) {
      var events :| Possible(s, events) && AllObey(rule, s, events) && After(s, events) == t;
      forall states: State -> bool | states(s) && Closed(rule, states) ensures states(t) {
        RunStaysInside(rule, s, events, states);
      }
    }
  }

  /** Steps that neither rule is about: everything but reading and unlinking in release, and giving up an acquire. */
  predicate Plain(s: State, e: Event) {
    match e
    case Go(a, _) => a in s.pcs && !s.pcs[a].ReleaseRead? && !s.pcs[a].ReleaseUnlink?
    case Write(_, how, _) => !how.Abort?
    case _ => true
  }

  lemma PlainStep(rule: Discipline, start: State, s: State, e: Event)
    requires Leads(rule, start, s) && Enabled(s, e) && Plain(s, e)
    ensures Leads(rule, start, Next(s, e))
  {
    Then(rule, start, s, e);
  }

  /** From the wait for the mutex to the moment of judgement. */
  lemma ObserveAlone(rule: Discipline, start: State, s: State, a: nat, goal: Goal, snap: Snapshot)
    requires Leads(rule, start, s) && a in s.pcs && s.pcs[a] == CleanWait(goal) && s.mutex.None? && s.file.Some?
    ensures Leads(rule, start, s.(mutex := Some(a)).At(a, CleanJudge(goal, s.ReadOwner(), s.ReadIdentity())))
  {
    var t := s.(mutex := Some(a));
    PlainStep(rule, start, s, Go(a, snap));
    PlainStep(rule, start, t.At(a, CleanCheck(goal)), Go(a, snap));
    assert t.At(a, CleanCheck(goal)).At(a, CleanReadOwner(goal)) == t.At(a, CleanReadOwner(goal));
    PlainStep(rule, start, t.At(a, CleanReadOwner(goal)), Go(a, snap));
    assert t.At(a, CleanReadOwner(goal)).At(a, CleanReadIdentity(goal, s.ReadOwner())) == t.At(a, CleanReadIdentity(goal, s.ReadOwner()));
    PlainStep(rule, start, t.At(a, CleanReadIdentity(goal, s.ReadOwner())), Go(a, snap));
    assert t.At(a, CleanReadIdentity(goal, s.ReadOwner())).At(a, CleanJudge(goal, s.ReadOwner(), s.ReadIdentity()))
        == t.At(a, CleanJudge(goal, s.ReadOwner(), s.ReadIdentity()));
  }

  /** From a stale verdict to the unlinked file. */
  lemma RemoveAlone(rule: Discipline, start: State, s: State, a: nat, goal: Goal, snap: Snapshot)
    requires a in s.pcs && s.file.Some?
    requires Leads(rule, start, s.At(a, CleanReread(goal, s.ReadOwner(), s.ReadIdentity())))
    ensures Leads(rule, start, s.(file := None).At(a, CleanLeave(goal)))
  {
    var owner, identity := s.ReadOwner(), s.ReadIdentity();
    var reread := s.At(a, CleanReread(goal, owner, identity));
    var reidentify := s.At(a, CleanReidentify(goal, owner, identity, owner));
    var unlink := s.At(a, CleanUnlink(goal, owner));
    PlainStep(rule, start, reread, Go(a, snap));
    assert Next(reread, Go(a, snap)) == reidentify;
    PlainStep(rule, start, reidentify, Go(a, snap));
    assert Next(reidentify, Go(a, snap)) == unlink;
    PlainStep(rule, start, unlink, Go(a, snap));
    assert Next(unlink, Go(a, snap)) == s.(file := None).At(a, CleanLeave(goal));
  }

  /** What cleanup_stale decides when nothing interferes. */
  predicate Removable(file: Option<LockFile>, owner: Option<Payload>, snap: Snapshot) {
    file.Some? && MechanicallyStale(PidOf(owner), CreationOf(owner), snap)
  }

  /** It removes exactly the file of a complete document whose owner does not run, or whose process id belongs to another process now. */
  lemma RemovableExactly(file: Option<LockFile>, owner: Option<Payload>, snap: Snapshot)
    requires snap.Shape()
    ensures Removable(file, owner, snap) <==>
              && file.Some? && owner.Some? && owner.value.pid > 0
              && (|| snap.running == Some(false)
                  || (snap.running == Some(true) && Truthy(owner.value.creation) && Truthy(snap.creation)
                      && snap.creation != owner.value.creation))
  {
    StaleExactly(PidOf(owner), CreationOf(owner), snap);
  }

  function AfterCleaning(goal: Goal): Pc {
    if goal.ThenAcquire? then AcquireCapture(goal.task, goal.ownerPid) else Idle
  }

  lemma CleanAlone(rule: Discipline, start: State, s: State, a: nat, goal: Goal, snap: Snapshot)
    requires Leads(rule, start, s) && a in s.pcs && s.pcs[a] == CleanWait(goal) && s.mutex.None?
    requires Faithful(s.table, s.table, PidOf(s.ReadOwner()), snap)
    ensures Leads(rule, start, s.(file := if Removable(s.file, s.ReadOwner(), snap) then None else s.file).At(a, AfterCleaning(goal)))
  {
    var t := s.(mutex := Some(a));
    var u := if Removable(s.file, s.ReadOwner(), snap) then t.(file := None) else t;
    assert Leads(rule, start, u.At(a, CleanLeave(goal))) by {
      if s.file.None? {
        PlainStep(rule, start, s, Go(a, snap));
        PlainStep(rule, start, t.At(a, CleanCheck(goal)), Go(a, snap));
        assert t.At(a, CleanCheck(goal)).At(a, CleanLeave(goal)) == t.At(a, CleanLeave(goal));
      } else {
        ObserveAlone(rule, start, s, a, goal, snap);
        JudgeAlone(rule, start, t, a, goal, snap);
      }
    }
    PlainStep(rule, start, u.At(a, CleanLeave(goal)), Go(a, snap));
    assert Next(u.At(a, CleanLeave(goal)), Go(a, snap))
        == s.(file := if Removable(s.file, s.ReadOwner(), snap) then None else s.file).At(a, AfterCleaning(goal));
  }

  lemma JudgeAlone(rule: Discipline, start: State, t: State, a: nat, goal: Goal, snap: Snapshot)
    requires a in t.pcs && t.file.Some?
    requires Faithful(t.table, t.table, PidOf(t.ReadOwner()), snap)
    requires Leads(rule, start, t.At(a, CleanJudge(goal, t.ReadOwner(), t.ReadIdentity())))
    ensures Leads(rule, start, (if Removable(t.file, t.ReadOwner(), snap) then t.(file := None) else t).At(a, CleanLeave(goal)))
  {
    var judge := t.At(a, CleanJudge(goal, t.ReadOwner(), t.ReadIdentity()));
    PlainStep(rule, start, judge, Go(a, snap));
    if Removable(t.file, t.ReadOwner(), snap) {
      assert Next(judge, Go(a, snap)) == t.At(a, CleanReread(goal, t.ReadOwner(), t.ReadIdentity()));
      RemoveAlone(rule, start, t, a, goal, snap);
    } else {
      assert Next(judge, Go(a, snap)) == t.At(a, CleanLeave(goal));
    }
  }

  ghost function Drawn(s: State, task: string, pid: int, snap: Snapshot): Registration {
    Registration(Payload(task, pid, CurrentCreation(pid, snap), |s.registry|), HolderOf(s.table, pid))
  }

  /** The state in which `r` has just been acquired by an otherwise idle caller. */
  function Acquired(s: State, a: nat, r: Registration, identity: Identity): State {
    s.(registry := s.registry + [r],
       file := Some(LockFile(r.payload.uuid, Full(r.payload), identity)),
       created := s.created + {r.payload.uuid},
       complete := s.complete + {r.payload.uuid},
       returned := s.returned + {r.payload.uuid}).At(a, Idle)
  }

  /** An acquire that finds no file and can write its document succeeds. */
  lemma AcquireAlone(rule: Discipline, start: State, s: State, a: nat, task: string, pid: int, snap: Snapshot, identity: Identity)
    requires Leads(rule, start, s) && a in s.pcs && s.pcs[a] == AcquireCapture(task, pid) && s.file.None?
    requires Faithful(s.table, s.table, pid, snap) && (forall u <- s.complete :: u < |s.registry|)
    ensures Leads(rule, start, Acquired(s, a, Drawn(s, task, pid, snap), identity))
  {
    var r := Drawn(s, task, pid, snap);
    var p := r.payload;
    var drawn := s.(registry := s.registry + [r]).At(a, AcquireCreate(p));
    var made := s.(registry := s.registry + [r], file := Some(LockFile(p.uuid, Partial, 0)),
                   created := s.created + {p.uuid}).At(a, AcquireWrite(p));
    var written := made.(file := Some(LockFile(p.uuid, Full(p), identity)), complete := s.complete + {p.uuid});
    PlainStep(rule, start, s, Go(a, snap));
    assert Next(s, Go(a, snap)) == drawn;
    PlainStep(rule, start, drawn, Go(a, snap));
    assert Next(drawn, Go(a, snap)) == made;
    PlainStep(rule, start, made, Write(a, Finish, identity));
    assert Next(made, Write(a, Finish, identity)) == written;
    PlainStep(rule, start, written, Write(a, Return, identity));
    assert Next(written, Write(a, Return, identity)) == Acquired(s, a, r, identity);
  }

  datatype Outcome = Granted(payload: Payload) | AlreadyHeld | Busy
  datatype ReleaseOutcome = NothingToRelease | Released | NotOwner

  /** `file` is the lock file on disk; `protocol` is the protocol state the calls move through. */
  class Workspace {
    var file: Option<LockFile>
    var instances: nat
    ghost var protocol: State

    ghost predicate Valid()
      reads this
    {
      && file == protocol.file && instances == |protocol.registry| && protocol.mutex.None?
      && forall u <- protocol.complete :: u < instances
    }

    function Owner(): Option<Payload>
      reads this
    {
      if file.Some? && file.value.content.Full? then Some(file.value.content.payload) else None
    }

    method CleanupStale(ghost a: nat, ghost goal: Goal, snap: Snapshot) returns (removed: bool)
      requires Valid() && a in protocol.pcs && protocol.pcs[a] == CleanWait(goal)
      requires Faithful(protocol.table, protocol.table, PidOf(Owner()), snap)
      modifies this
      ensures Valid() && instances == old(instances) && Leads(NoRule, old(protocol), protocol)
      ensures removed <==> Removable(old(file), old(Owner()), snap)
      ensures file == if removed then None else old(file)
      ensures protocol == old(protocol).(file := file).At(a, AfterCleaning(goal))
    {
      Stay(NoRule, protocol);
      CleanAlone(NoRule, protocol, protocol, a, goal, snap);
      removed := false;
      if file.Some? {
        var owner, observed := Owner(), file.value.identity;
        if MechanicallyStale(PidOf(owner), CreationOf(owner), snap) {
          if Unchanged(owner, Some(observed), Owner(), Some(file.value.identity)) {
            file := None;
            removed := true;
          }
        }
      }
      protocol := protocol.(file := file).At(a, AfterCleaning(goal));
    }

    method Acquire(ghost a: nat, task: string, ownerPid: int, judged: Snapshot, captured: Snapshot, identity: Identity)
      returns (outcome: Outcome)
      requires Valid() && a in protocol.pcs && protocol.pcs[a] == Idle
      requires Faithful(protocol.table, protocol.table, PidOf(Owner()), judged)
      requires Faithful(protocol.table, protocol.table, ownerPid, captured)
      modifies this
      ensures Valid() && Leads(NoRule, old(protocol), protocol) && protocol.table == old(protocol).table
      ensures outcome.Granted? <==> old(file).None? || Removable(old(file), old(Owner()), judged)
      ensures outcome.Granted? ==>
                && outcome.payload == Payload(task, ownerPid, CurrentCreation(ownerPid, captured), old(instances))
                && Owner() == Some(outcome.payload) && old(instances) in protocol.returned
      ensures !outcome.Granted? ==>
                file == old(file) && outcome == if Owner().Some? && Owner().value.task == task then AlreadyHeld else Busy
      ensures instances == old(instances) + 1
    {
      ghost var start := protocol;
      ghost var goal := ThenAcquire(task, ownerPid);
      Stay(NoRule, start);
      PlainStep(NoRule, start, protocol, Call(a, CleanWait(goal)));
      protocol := protocol.At(a, CleanWait(goal));
      label Cleaning:
      var _ := CleanupStale(a, goal, judged);
      LeadsThrough(NoRule, start, old@Cleaning(protocol), protocol);
      var payload := Payload(task, ownerPid, CurrentCreation(ownerPid, captured), instances);
      instances := instances + 1;
      if file.Some? {
        RefusedAlone(NoRule, start, protocol, a, task, ownerPid, captured);
        protocol := protocol.(registry := protocol.registry + [Drawn(protocol, task, ownerPid, captured)]).At(a, Idle);
        var owner := Owner();
        outcome := if owner.Some? && owner.value.task == task then AlreadyHeld else Busy;
      } else {
        AcquireAlone(NoRule, start, protocol, a, task, ownerPid, captured, identity);
        protocol := Acquired(protocol, a, Drawn(protocol, task, ownerPid, captured), identity);
        file := Some(LockFile(payload.uuid, Full(payload), identity));
        outcome := Granted(payload);
      }
    }

    method Release(ghost a: nat, task: string) returns (outcome: ReleaseOutcome)
      requires Valid() && a in protocol.pcs && protocol.pcs[a] == Idle
      modifies this
      ensures Valid() && instances == old(instances) && Leads(NoRule, old(protocol), protocol)
      ensures outcome == if old(file).None? then NothingToRelease
                         else if old(Owner()).Some? && old(Owner()).value.task == task then Released
                         else NotOwner
      ensures file == if outcome == Released then None else old(file)
      ensures protocol.retired == old(protocol).retired + if outcome == Released then {old(Owner()).value.uuid} else {}
    {
      ReleaseAlone(protocol, a, task);
      ghost var owner := protocol.ReadOwner();
      if file.None? {
        return NothingToRelease;
      }
      if Owner().None? || Owner().value.task != task {
        return NotOwner;
      }
      file := None;
      protocol := protocol.(file := None, retired := protocol.retired + {owner.value.uuid}).At(a, Idle);
      return Released;
    }
  }

  lemma LeadsThrough(rule: Discipline, s: State, t: State, u: State)
    requires Leads(rule, s, t) && Leads(rule, t, u)
    ensures Leads(rule, s, u)
  {}

  lemma RefusedAlone(rule: Discipline, start: State, s: State, a: nat, task: string, pid: int, snap: Snapshot)
    requires Leads(rule, start, s) && a in s.pcs && s.pcs[a] == AcquireCapture(task, pid) && s.file.Some?
    requires Faithful(s.table, s.table, pid, snap)
    ensures Leads(rule, start, s.(registry := s.registry + [Drawn(s, task, pid, snap)]).At(a, Idle))
  {
    var r := Drawn(s, task, pid, snap);
    var drawn := s.(registry := s.registry + [r]).At(a, AcquireCreate(r.payload));
    PlainStep(rule, start, s, Go(a, snap));
    assert Next(s, Go(a, snap)) == drawn;
    PlainStep(rule, start, drawn, Go(a, snap));
    assert Next(drawn, Go(a, snap)) == s.(registry := s.registry + [r]).At(a, Idle);
  }

  /** Where a release has read the owner: at the unlink when the task matches, otherwise done. */
  lemma ReleaseReadAlone(rule: Discipline, start: State, s: State, a: nat, task: string)
    requires Leads(rule, start, s) && a in s.pcs && s.pcs[a] == Idle && s.file.Some?
    requires rule.KeepsOneRelease? && s.ReadOwner().Some? ==> forall b <- s.pcs :: !InWindow(s.pcs[b], s.ReadOwner().value.uuid)
    ensures var owner := s.ReadOwner();
            Leads(rule, start, s.At(a, if owner.Some? && owner.value.task == task then ReleaseUnlink(owner.value) else Idle))
  {
    var snap := Snapshot(None, None, None);
    var owner := s.ReadOwner();
    PlainStep(rule, start, s, Call(a, ReleaseCheck(task)));
    PlainStep(rule, start, s.At(a, ReleaseCheck(task)), Go(a, snap));
    assert s.At(a, ReleaseCheck(task)).At(a, ReleaseRead(task)) == s.At(a, ReleaseRead(task));
    Then(rule, start, s.At(a, ReleaseRead(task)), Go(a, snap));
    assert Next(s.At(a, ReleaseRead(task)), Go(a, snap))
        == s.At(a, if owner.Some? && owner.value.task == task then ReleaseUnlink(owner.value) else Idle);
  }

  lemma UnlinkAlone(rule: Discipline, start: State, s: State, a: nat)
    requires Leads(rule, start, s) && a in s.pcs && s.pcs[a].ReleaseUnlink?
    requires rule.KeepsOwnerOutlives? ==> s.OwnerLives(s.pcs[a].payload.uuid)
    ensures Leads(rule, start, s.(file := None, retired := s.retired + {s.pcs[a].payload.uuid}).At(a, Idle))
  {
    Then(rule, start, s, Go(a, Snapshot(None, None, None)));
  }

  lemma ReleaseAlone(s: State, a: nat, task: string)
    requires a in s.pcs && s.pcs[a] == Idle
    ensures var owner := s.ReadOwner();
            Leads(NoRule, s, if owner.Some? && owner.value.task == task
                     then s.(file := None, retired := s.retired + {owner.value.uuid}).At(a, Idle) else s)
  {
    Stay(NoRule, s);
    var owner := s.ReadOwner();
    assert s.At(a, Idle) == s;
    if owner.Some? && owner.value.task == task {
      ReleaseReadAlone(NoRule, s, s, a, task);
      UnlinkAlone(NoRule, s, s.At(a, ReleaseUnlink(owner.value)), a);
      assert s.At(a, ReleaseUnlink(owner.value)).(file := None, retired := s.retired + {owner.value.uuid}).At(a, Idle)
          == s.(file := None, retired := s.retired + {owner.value.uuid}).At(a, Idle);
    }
  }
}
