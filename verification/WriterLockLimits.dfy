/** Neither of the two rules for callers of the writer lock can be dropped. */
module WriterLockLimits {
  import opened Basics
  import opened ProcessIdentity
  import opened WriterLock

  lemma AcquireFromIdle(rule: Discipline, start: State, s: State, a: nat, task: string, pid: int, snap: Snapshot)
    requires Leads(rule, start, s) && a in s.pcs && s.pcs[a] == Idle && s.mutex.None? && s.file.None?
    requires Faithful(s.table, s.table, pid, snap) && (forall u <- s.complete :: u < |s.registry|)
    ensures Leads(rule, start, Acquired(s, a, Drawn(s, task, pid, snap), 0))
  {
    var goal := ThenAcquire(task, pid);
    var silent := Snapshot(None, None, None);
    PlainStep(rule, start, s, Call(a, CleanWait(goal)));
    CleanAlone(rule, start, s.At(a, CleanWait(goal)), a, goal, silent);
    var t := s.At(a, AcquireCapture(task, pid));
    assert s.At(a, CleanWait(goal)).(file := None).At(a, AcquireCapture(task, pid)) == t;
    AcquireAlone(rule, start, t, a, task, pid, snap, 0);
    assert Acquired(t, a, Drawn(t, task, pid, snap), 0) == Acquired(s, a, Drawn(s, task, pid, snap), 0);
  }

  /** Between calls, after n instances were drawn up. */
  ghost predicate Quiet(s: State, n: nat) {
    && s.table.Valid() && s.mutex.None? && |s.registry| == n
    && (forall u <- s.complete :: u < n) && (forall u <- s.retired :: u < n)
  }

  const ALIVE := Snapshot(Some(true), Some("boot"), None)

  lemma AliveIsHolder(table: Table, a: nat, pid: int)
    requires table.Valid() && a in table.live && table.live[a] == Process(pid, "boot")
    ensures Faithful(table, table, pid, ALIVE) && HolderOf(table, pid) == Some(a)
  {
    assert table.live[a] == Process(pid, ALIVE.creation.value);
  }

  /** The state after process a has acquired for itself. */
  ghost function Granted(s: State, a: nat, task: string, pid: int): State {
    Acquired(s, a, Registration(Payload(task, pid, Some("boot"), |s.registry|), Some(a)), 0)
  }

  lemma AcquireQuietly(rule: Discipline, s: State, n: nat, a: nat, task: string, pid: int)
    requires Leads(rule, Init(), s) && Quiet(s, n) && s.file.None?
    requires a in s.pcs && s.pcs[a] == Idle && a in s.table.live && s.table.live[a] == Process(pid, "boot")
    ensures Leads(rule, Init(), Granted(s, a, task, pid)) && Quiet(Granted(s, a, task, pid), n + 1)
    ensures Held(Granted(s, a, task, pid), n)
  {
    AliveIsHolder(s.table, a, pid);
    AcquireFromIdle(rule, Init(), s, a, task, pid, ALIVE);
    assert pid > 0;
    assert Drawn(s, task, pid, ALIVE) == Registration(Payload(task, pid, Some("boot"), n), Some(a));
  }

  /** What was held stays held when another instance is acquired. */
  lemma HeldThroughAcquire(s: State, n: nat, a: nat, task: string, pid: int, u: nat)
    requires Quiet(s, n) && Held(s, u) && u < n
    ensures Held(Granted(s, a, task, pid), u)
  {}

  /** n idle processes; process i has the id i + 1. */
  ghost predicate Booted(s: State, n: nat) {
    && s.table.next == n && s.table.Valid() && (forall i: nat :: i in s.table.live <==> i < n)
    && (forall i <- s.table.live :: s.table.live[i] == Process(i + 1, "boot"))
    && s.pcs.Keys == s.table.live.Keys && (forall i <- s.pcs :: s.pcs[i] == Idle)
    && s == State(s.table, s.pcs, None, None, [], {}, {}, {}, {})
  }

  lemma BootStep(before: State, n: nat, t: State)
    requires Booted(before, n)
    requires t == before.(table := before.table.Start(Process(n + 1, "boot"))).At(before.table.next, Idle)
    ensures before.table.CanStart(Process(n + 1, "boot")) && Booted(t, n + 1)
  {
    var p := Process(n + 1, "boot");
    assert before.table.CanStart(p);
    assert t.table.live == before.table.live[n := p] && t.pcs == before.pcs[n := Idle];
    assert TableStep(before.table, t.table);
    StepValid(before.table, t.table);
  }

  lemma {:induction false} Boot(rule: Discipline, n: nat) returns (s: State)
    ensures Leads(rule, Init(), s) && Booted(s, n)
  {
    if n == 0 {
      s := Init();
      Stay(rule, s);
    } else {
      var before := Boot(rule, n - 1);
      var p := Process(n, "boot");
      s := before.(table := before.table.Start(p)).At(before.table.next, Idle);
      BootStep(before, n - 1, s);
      PlainStep(rule, Init(), before, WriterLock.Start(p));
    }
  }

  /** The state after process a has unlinked the file and given up instance u. */
  function GivenUp(s: State, a: nat, u: nat): State {
    s.(file := None, retired := s.retired + {u}).At(a, Idle)
  }

  // ---- Two releases of one instance at the same time ----

  /** Every instance is given up while its owner lives, and still two held instances coexist. */
  lemma ConcurrentReleasesBreakExclusion()
    ensures exists s: State, u: nat, v: nat :: Leads(KeepsOwnerOutlives, Init(), s) && u != v && Held(s, u) && Held(s, v)
  {
    var rule := KeepsOwnerOutlives;
    var start := Boot(rule, 2);
    AcquireQuietly(rule, start, 0, 0, "t", 1);
    var first := Granted(start, 0, "t", 1);
    var p := first.ReadOwner().value;
    ReleaseReadAlone(rule, Init(), first, 1, "t");
    var late := first.At(1, ReleaseUnlink(p));
    ReleaseReadAlone(rule, Init(), late, 0, "t");
    UnlinkAlone(rule, Init(), late.At(0, ReleaseUnlink(p)), 0);
    var free := GivenUp(late.At(0, ReleaseUnlink(p)), 0, 0);
    AcquireQuietly(rule, free, 1, 0, "u", 1);
    var second := Granted(free, 0, "u", 1);
    UnlinkAlone(rule, Init(), second, 1);
    var again := GivenUp(second, 1, 0);
    AcquireQuietly(rule, again, 2, 0, "v", 1);
    HeldThroughAcquire(again, 2, 0, "v", 1, 1);
  }

  // ---- A release that goes on after the recorded owner has ended ----

  const GONE := Snapshot(Some(false), None, Some(NotRunning))

  /** Process a finds the file of an ended owner, removes it and acquires for itself. */
  lemma TakeOver(rule: Discipline, s: State, n: nat, a: nat, task: string, pid: int)
    requires Leads(rule, Init(), s) && Quiet(s, n) && s.ReadOwner().Some? && s.table.Absent(s.ReadOwner().value.pid)
    requires s.ReadOwner().value.pid > 0
    requires a in s.pcs && s.pcs[a] == Idle && a in s.table.live && s.table.live[a] == Process(pid, "boot")
    ensures var cleaned := s.(file := None);
            && Leads(rule, Init(), Granted(cleaned, a, task, pid)) && Quiet(Granted(cleaned, a, task, pid), n + 1)
            && Held(Granted(cleaned, a, task, pid), n)
  {
    var goal := JustClean;
    var cleaned := s.(file := None);
    PlainStep(rule, Init(), s, Call(a, CleanWait(goal)));
    CleanAlone(rule, Init(), s.At(a, CleanWait(goal)), a, goal, GONE);
    assert s.At(a, CleanWait(goal)).(file := None).At(a, Idle) == cleaned;
    AcquireQuietly(rule, cleaned, n, a, task, pid);
  }

  /** Process 0 has acquired instance 0, process 1 has read it for release, then process 0 has ended. */
  ghost function Orphaned(start: State): State
    requires 0 in start.table.live
  {
    var first := Granted(start, 0, "t", 1);
    var late := first.At(1, ReleaseUnlink(first.registry[0].payload));
    late.(table := late.table.End(0), pcs := late.pcs - {0})
  }

  lemma ReachOrphaned(rule: Discipline, start: State)
    requires rule == KeepsOneRelease && Leads(rule, Init(), start) && Booted(start, 4)
    ensures Leads(rule, Init(), Orphaned(start))
  {
    AcquireQuietly(rule, start, 0, 0, "t", 1);
    var first := Granted(start, 0, "t", 1);
    ReleaseReadAlone(rule, Init(), first, 1, "t");
    var late := first.At(1, ReleaseUnlink(first.registry[0].payload));
    PlainStep(rule, Init(), late, Die(0));
    assert Next(late, Die(0)) == Orphaned(start);
  }

  lemma OrphanedFacts(start: State)
    requires Booted(start, 4)
    ensures var s := Orphaned(start);
            && Quiet(s, 1) && s.retired == {} && s.ReadOwner() == Some(Payload("t", 1, Some("boot"), 0))
            && s.table.Absent(1) && s.pcs.Keys == {1, 2, 3} && s.table.live.Keys == {1, 2, 3}
            && s.table.live[2] == Process(3, "boot") && s.table.live[3] == Process(4, "boot")
            && s.pcs[1] == ReleaseUnlink(Payload("t", 1, Some("boot"), 0)) && s.pcs[2] == Idle && s.pcs[3] == Idle
  {}

  /** Only one release ever runs, but its owner ends before it unlinks: two held instances coexist. */
  lemma LateReleaseBreaksExclusion()
    ensures exists s: State, u: nat, v: nat :: Leads(KeepsOneRelease, Init(), s) && u != v && Held(s, u) && Held(s, v)
  {
    var rule := KeepsOneRelease;
    var start := Boot(rule, 4);
    ReachOrphaned(rule, start);
    OrphanedFacts(start);
    var orphan := Orphaned(start);
    TakeOver(rule, orphan, 1, 2, "u", 3);
    var second := Granted(orphan.(file := None), 2, "u", 3);
    UnlinkAlone(rule, Init(), second, 1);
    var again := GivenUp(second, 1, 0);
    assert Held(again, 1);
    AcquireQuietly(rule, again, 2, 3, "v", 4);
    HeldThroughAcquire(again, 2, 3, "v", 4, 1);
  }
}
