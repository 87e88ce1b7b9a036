/** Automatic removal of task directories whose recorded owner process has ended. */
module TaskCleanup {
  import opened Basics
  import opened ProcessIdentity

  const AUTHORITY_LOCK := "authority.lock"

  /** The owner fields of a readable context document; `pid` is None when it is not a number. */
  datatype Metadata = Metadata(pid: Option<int>, creation: Option<string>)

  datatype Entry = Entry(name: string, directoryOrLink: bool, metadata: Option<Metadata>)

  /** What one look at an entry found: the holder of the authority lock and the process snapshot. */
  datatype Look = Look(lockOwner: Option<string>, snap: Snapshot)

  predicate MechanicallyStaleTask(entry: Entry, current: string, look: Look) {
    && entry.name != current
    && look.lockOwner != Some(entry.name)
    && entry.metadata.Some?
    && entry.metadata.value.pid.Some?
    && entry.metadata.value.pid.value > 0
    && MechanicallyStale(entry.metadata.value.pid.value, entry.metadata.value.creation, look.snap)
  }

  predicate Removed(entry: Entry, current: string, look: Look) {
    && entry.name != AUTHORITY_LOCK
    && entry.directoryOrLink
    && MechanicallyStaleTask(entry, current, look)
  }

  /**
   Removed is a directory or link that is neither the own task nor the holder of the authority lock, with a recorded owner
   that does not run or whose process id belongs to another process now.
   */
  lemma RemovedExactly(entry: Entry, current: string, look: Look)
    requires look.snap.Shape()
    ensures Removed(entry, current, look) <==>
              && entry.directoryOrLink && !(entry.name == current || entry.name == "authority.lock" || look.lockOwner == Some(entry.name))
              && entry.metadata.Some? && entry.metadata.value.pid.Some? && entry.metadata.value.pid.value > 0
              && (|| look.snap.running == Some(false)
                  || (look.snap.running == Some(true) && Truthy(entry.metadata.value.creation) && Truthy(look.snap.creation)
                      && look.snap.creation != entry.metadata.value.creation))
  {
    if entry.metadata.Some? && entry.metadata.value.pid.Some? {
      StaleExactly(entry.metadata.value.pid.value, entry.metadata.value.creation, look.snap);
    }
  }

  /** The entries that survive, in order. */
  function Survivors(entries: seq<Entry>, current: string, looks: seq<Look>): (kept: seq<Entry>)
    requires |entries| == |looks|
    ensures forall i :: 0 <= i < |entries| && !Removed(entries[i], current, looks[i]) ==> entries[i] in kept
    ensures forall e <- kept :: exists i :: 0 <= i < |entries| && entries[i] == e && !Removed(entries[i], current, looks[i])
  {
    if entries == [] then []
    else
      var last := |entries| - 1;
      var kept := Survivors(entries[..last], current, looks[..last]);
      if Removed(entries[last], current, looks[last]) then kept else kept + [entries[last]]
  }

  function RemovedNames(entries: seq<Entry>, current: string, looks: seq<Look>): set<string>
    requires |entries| == |looks|
  {
    set i | 0 <= i < |entries| && Removed(entries[i], current, looks[i]) :: entries[i].name
  }

  /** One more entry either stays or goes. */
  lemma OneMore(entries: seq<Entry>, current: string, looks: seq<Look>, i: nat)
    requires |entries| == |looks| && i < |entries|
    ensures Removed(entries[i], current, looks[i]) ==>
              && Survivors(entries[..i + 1], current, looks[..i + 1]) == Survivors(entries[..i], current, looks[..i])
              && RemovedNames(entries[..i + 1], current, looks[..i + 1])
                 == RemovedNames(entries[..i], current, looks[..i]) + {entries[i].name}
    ensures !Removed(entries[i], current, looks[i]) ==>
              && Survivors(entries[..i + 1], current, looks[..i + 1]) == Survivors(entries[..i], current, looks[..i]) + [entries[i]]
              && RemovedNames(entries[..i + 1], current, looks[..i + 1]) == RemovedNames(entries[..i], current, looks[..i])
  {
    assert entries[..i + 1][..i] == entries[..i] && looks[..i + 1][..i] == looks[..i];
  }

  class GovernanceTmp {
    var entries: seq<Entry>

    method CleanupOtherTasks(current: string, looks: seq<Look>) returns (removed: set<string>)
      requires |looks| == |entries|
      modifies this
      ensures entries == Survivors(old(entries), current, looks)
      ensures removed == RemovedNames(old(entries), current, looks)
    {
      var listing := entries;
      var kept := [];
      removed := {};
      for i := 0 to |listing|
        invariant entries == old(entries) == listing
        invariant kept == Survivors(listing[..i], current, looks[..i])
        invariant removed == RemovedNames(listing[..i], current, looks[..i])
      {
        OneMore(listing, current, looks, i);
        if listing[i].name == AUTHORITY_LOCK || !listing[i].directoryOrLink {
          kept := kept + [listing[i]];
        } else if MechanicallyStaleTask(listing[i], current, looks[i]) {
          removed := removed + {listing[i].name};
        } else {
          kept := kept + [listing[i]];
        }
      }
      assert listing[..|listing|] == listing && looks[..|listing|] == looks;
      entries := kept;
    }
  }

  /**
   In every run of the process table: a task recorded for a process that is still living when
   the cleanup ends is never removed, whenever its entry was looked at.
   */
  lemma LivingOwnerSurvives(run: seq<Table>, entries: seq<Entry>, current: string, looks: seq<Look>, times: seq<nat>,
                            i: nat, recorded: nat, incarnation: nat)
    requires IsRun(run) && |entries| == |looks| == |times| && i < |entries|
    requires recorded <= times[i] < |run|
    requires entries[i].metadata.Some? && entries[i].metadata.value.pid.Some?
    requires var m := entries[i].metadata.value;
             && incarnation in run[recorded].live
             && RecordOf(run[recorded], incarnation, m.pid.value, m.creation)
             && Faithful(run[times[i]], run[times[i]], m.pid.value, looks[i].snap)
    requires incarnation in run[|run| - 1].live
    ensures entries[i] in Survivors(entries, current, looks)
  {
    var m := entries[i].metadata.value;
    if MechanicallyStale(m.pid.value, m.creation, looks[i].snap) {
      StaleVerdictSound(run, recorded, times[i], times[i], |run| - 1, incarnation, m.pid.value, m.creation, looks[i].snap);
      assert false;
    }
  }
}
