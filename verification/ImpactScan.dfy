/** Impact routing: the dependency worklist and the expansion to configured modules. */
module ImpactScan {
  import opened Basics

  /** A routing record; `isAuthority` is kind == "authority" ignoring case. */
  datatype Record = Record(
    owner: string, ownerIsFile: bool, inherit: bool, profileRecord: bool, isAuthority: bool,
    domains: set<string>, dependsOn: seq<string>, authorities: seq<string>, pathPatterns: seq<string>)

  /**
   Given project facts: normalization of a relative path (None when unusable), path patterns, the authority
   files of a record, the files a list of specs expands to, and which paths are authority paths.
   */
  datatype Facts = Facts(
    safeRelative: string -> Option<string>,
    matchAny: (string, seq<string>) -> bool,
    recordFiles: Record -> set<string>,
    expandPaths: seq<string> -> set<string>,
    isAuthorityPath: string -> bool)

  const DOMAIN := "domain:"

  // ---- The owner index ----

  function LastOwned(records: seq<Record>, key: string): Option<Record> {
    if records == [] then None
    else if records[|records| - 1].owner == key then Some(records[|records| - 1])
    else LastOwned(records[..|records| - 1], key)
  }

  function FirstOfDomain(records: seq<Record>, key: string): Option<Record> {
    if records == [] then None
    else
      var earlier := FirstOfDomain(records[..|records| - 1], key);
      if earlier.Some? then earlier
      else if exists d <- records[|records| - 1].domains :: DOMAIN + d == key then Some(records[|records| - 1])
      else None
  }

  /** The record a dependency node resolves to: the last with that owner, else the first with that domain. */
  function RecordFor(records: seq<Record>, key: string): Option<Record> {
    if LastOwned(records, key).Some? then LastOwned(records, key) else FirstOfDomain(records, key)
  }

  ghost predicate IsIndex(records: seq<Record>, index: map<string, Record>) {
    && (forall key :: key in index <==> RecordFor(records, key).Some?)
    && (forall key <- index :: RecordFor(records, key) == Some(index[key]))
  }

  method OwnerIndex(records: seq<Record>) returns (index: map<string, Record>)
    ensures IsIndex(records, index)
  {
    index := OwnerTable(records);
    for i := 0 to |records|
      invariant forall key :: key in index <==> LastOwned(records, key).Some? || FirstOfDomain(records[..i], key).Some?
      invariant forall key <- index :: index[key] ==
                  if LastOwned(records, key).Some? then LastOwned(records, key).value else FirstOfDomain(records[..i], key).value
    {
      assert records[..i + 1][..i] == records[..i];
      var keys := set d <- records[i].domains :: DOMAIN + d;
      index := (map key <- keys :: records[i]) + index;
    }
    assert records[..|records|] == records;
  }

  method OwnerTable(records: seq<Record>) returns (index: map<string, Record>)
    ensures forall key :: key in index <==> LastOwned(records, key).Some?
    ensures forall key <- index :: LastOwned(records, key) == Some(index[key])
  {
    index := map[];
    for i := 0 to |records|
      invariant forall key :: key in index <==> LastOwned(records[..i], key).Some?
      invariant forall key <- index :: LastOwned(records[..i], key) == Some(index[key])
    {
      assert records[..i + 1][..i] == records[..i];
      index := index[records[i].owner := records[i]];
    }
    assert records[..|records|] == records;
  }

  // ---- Reachability ----

  /** The node a dependency text stands for; unusable texts stand for none. */
  function NodeOf(facts: Facts, dep: string): Option<string> {
    var node := if DOMAIN <= dep then Some(dep) else facts.safeRelative(dep);
    if Truthy(node) then node else None
  }

  /** A domain dependency stands for itself, any other for its normalised path; what normalises to nothing stands for none. */
  lemma NodeOfExactly(facts: Facts, dep: string)
    ensures |dep| >= 7 && dep[..7] == "domain:" ==> NodeOf(facts, dep) == Some(dep)
    ensures !(|dep| >= 7 && dep[..7] == "domain:") ==>
              NodeOf(facts, dep) == if facts.safeRelative(dep) == Some("") then None else facts.safeRelative(dep)
  {}

  function Successors(records: seq<Record>, node: string): seq<string> {
    if RecordFor(records, node).Some? then RecordFor(records, node).value.dependsOn else []
  }

  predicate Leads(facts: Facts, deps: seq<string>, node: string) {
    exists d <- deps :: NodeOf(facts, d) == Some(node)
  }

  /** A chain of dependencies from the initial ones to its last node. */
  predicate IsChain(facts: Facts, records: seq<Record>, initial: seq<string>, chain: seq<string>) {
    && chain != []
    && Leads(facts, initial, chain[0])
    && forall i :: 0 <= i < |chain| - 1 ==> Leads(facts, Successors(records, chain[i]), chain[i + 1])
  }

  ghost predicate Reachable(facts: Facts, records: seq<Record>, initial: seq<string>, node: string) {
    exists chain :: IsChain(facts, records, initial, chain) && chain[|chain| - 1] == node
  }

  ghost predicate IsReachableSet(facts: Facts, records: seq<Record>, initial: seq<string>, nodes: set<string>) {
    forall x :: x in nodes <==> Reachable(facts, records, initial, x)
  }

  /** The authority files attached to a node. */
  function AuthoritiesOf(facts: Facts, records: seq<Record>, node: string): set<string> {
    var r := RecordFor(records, node);
    if r.Some? then facts.recordFiles(r.value) + facts.expandPaths(r.value.authorities)
    else if facts.isAuthorityPath(node) then facts.expandPaths([node])
    else {}
  }

  /** Every node that can ever be put in the queue. */
  function Universe(facts: Facts, records: seq<Record>, initial: seq<string>): set<string> {
    (set d <- initial | NodeOf(facts, d).Some? :: NodeOf(facts, d).value)
    + (set r <- records, d <- r.dependsOn | NodeOf(facts, d).Some? :: NodeOf(facts, d).value)
  }

  lemma RecordForIsRecord(records: seq<Record>, key: string)
    ensures RecordFor(records, key).Some? ==> RecordFor(records, key).value in records
  {
    LastOwnedIsRecord(records, key);
    FirstOfDomainIsRecord(records, key);
  }

  lemma LastOwnedIsRecord(records: seq<Record>, key: string)
    ensures LastOwned(records, key).Some? ==> LastOwned(records, key).value in records
  {}

  lemma FirstOfDomainIsRecord(records: seq<Record>, key: string)
    ensures FirstOfDomain(records, key).Some? ==> FirstOfDomain(records, key).value in records
  {}

  lemma InitialReachable(facts: Facts, records: seq<Record>, initial: seq<string>, d: string)
    requires d in initial && NodeOf(facts, d).Some?
    ensures Reachable(facts, records, initial, NodeOf(facts, d).value)
  {
    assert IsChain(facts, records, initial, [NodeOf(facts, d).value]);
  }

  /** What a newly done node puts in the queue is reachable and in the universe. */
  lemma SuccessorsReachable(facts: Facts, records: seq<Record>, initial: seq<string>, node: string)
    requires Reachable(facts, records, initial, node)
    ensures forall d <- Successors(records, node) | NodeOf(facts, d).Some? ::
              && Reachable(facts, records, initial, NodeOf(facts, d).value)
              && NodeOf(facts, d).value in Universe(facts, records, initial)
  {
    RecordForIsRecord(records, node);
    forall d <- Successors(records, node) | NodeOf(facts, d).Some?
      ensures Reachable(facts, records, initial, NodeOf(facts, d).value)
    {
      assert Leads(facts, Successors(records, node), NodeOf(facts, d).value);
      ExtendChain(facts, records, initial, node, NodeOf(facts, d).value);
    }
  }

  lemma ExtendChain(facts: Facts, records: seq<Record>, initial: seq<string>, node: string, next: string)
    requires Reachable(facts, records, initial, node) && Leads(facts, Successors(records, node), next)
    ensures Reachable(facts, records, initial, next)
  {
    var chain :| IsChain(facts, records, initial, chain) && chain[|chain| - 1] == node;
    assert IsChain(facts, records, initial, chain + [next]);
  }

  /** A set that holds the initial nodes and is closed under dependencies holds every reachable node. */
  lemma {:induction false} ClosedHoldsChain(facts: Facts, records: seq<Record>, initial: seq<string>, seen: set<string>, chain: seq<string>)
    requires IsChain(facts, records, initial, chain)
    requires forall x | Leads(facts, initial, x) :: x in seen
    requires forall x <- seen, y | Leads(facts, Successors(records, x), y) :: y in seen
    ensures chain[|chain| - 1] in seen
  {
    if |chain| > 1 {
      var shorter := chain[..|chain| - 1];
      ClosedHoldsChain(facts, records, initial, seen, shorter);
      assert Leads(facts, Successors(records, chain[|chain| - 2]), chain[|chain| - 1]);
    }
  }

  /** dict.fromkeys: first occurrences, in order. */
  function Distinct(s: seq<string>): (r: seq<string>)
    ensures forall x :: x in r <==> x in s
  {
    if s == [] then []
    else
      var before := Distinct(s[..|s| - 1]);
      assert s == s[..|s| - 1] + [s[|s| - 1]];
      if s[|s| - 1] in before then before else before + [s[|s| - 1]]
  }

  /** A node is either done or still waiting in the queue. */
  predicate Pending(facts: Facts, seen: set<string>, queue: seq<string>, deps: seq<string>) {
    forall d <- deps | NodeOf(facts, d).Some? :: NodeOf(facts, d).value in seen || d in queue
  }

  function AllAuthorities(facts: Facts, records: seq<Record>, nodes: set<string>): set<string> {
    set x <- nodes, a <- AuthoritiesOf(facts, records, x) :: a
  }

  /** Done nodes are reachable, and whatever a done node or the start leads to is done or queued. */
  ghost predicate Explored(facts: Facts, records: seq<Record>, initial: seq<string>, seen: set<string>, queue: seq<string>) {
    && (forall x <- seen :: Reachable(facts, records, initial, x))
    && (forall d <- queue | NodeOf(facts, d).Some? ::
          && Reachable(facts, records, initial, NodeOf(facts, d).value)
          && NodeOf(facts, d).value in Universe(facts, records, initial))
    && Pending(facts, seen, queue, initial)
    && (forall x <- seen :: Pending(facts, seen, queue, Successors(records, x)))
    && seen <= Universe(facts, records, initial)
  }

  lemma StartExplored(facts: Facts, records: seq<Record>, initial: seq<string>, queue: seq<string>)
    requires forall x :: x in queue <==> x in initial
    ensures Explored(facts, records, initial, {}, queue)
  {
    forall d <- queue | NodeOf(facts, d).Some? ensures Reachable(facts, records, initial, NodeOf(facts, d).value) {
      InitialReachable(facts, records, initial, d);
    }
  }

  lemma PendingAfter(facts: Facts, seen: set<string>, dep: string, rest: seq<string>, deps: seq<string>, more: seq<string>)
    requires Pending(facts, seen, [dep] + rest, deps)
    ensures var node := NodeOf(facts, dep);
            Pending(facts, if node.Some? then seen + {node.value} else seen, rest + more, deps)
  {
    forall d <- deps | NodeOf(facts, d).Some? && d in [dep] + rest && d != dep ensures d in rest {}
  }

  lemma SkipExplored(facts: Facts, records: seq<Record>, initial: seq<string>, seen: set<string>, dep: string, rest: seq<string>)
    requires Explored(facts, records, initial, seen, [dep] + rest)
    requires NodeOf(facts, dep).None? || NodeOf(facts, dep).value in seen
    ensures Explored(facts, records, initial, seen, rest)
  {
    assert forall d <- rest :: d in [dep] + rest;
    assert rest + [] == rest && (NodeOf(facts, dep).Some? ==> seen + {NodeOf(facts, dep).value} == seen);
    PendingAfter(facts, seen, dep, rest, initial, []);
    forall x <- seen ensures Pending(facts, seen, rest, Successors(records, x)) {
      PendingAfter(facts, seen, dep, rest, Successors(records, x), []);
    }
  }

  lemma GrowExplored(facts: Facts, records: seq<Record>, initial: seq<string>, seen: set<string>, dep: string, rest: seq<string>)
    requires Explored(facts, records, initial, seen, [dep] + rest) && NodeOf(facts, dep).Some?
    ensures var node := NodeOf(facts, dep).value;
            Explored(facts, records, initial, seen + {node}, rest + Successors(records, node))
  {
    var node := NodeOf(facts, dep).value;
    var next := Successors(records, node);
    assert dep in [dep] + rest && forall d <- rest :: d in [dep] + rest;
    SuccessorsReachable(facts, records, initial, node);
    PendingAfter(facts, seen, dep, rest, initial, next);
    forall x <- seen + {node} ensures Pending(facts, seen + {node}, rest + next, Successors(records, x)) {
      if x in seen { PendingAfter(facts, seen, dep, rest, Successors(records, x), next); }
    }
  }

  lemma AllAuthoritiesAdd(facts: Facts, records: seq<Record>, nodes: set<string>, x: string)
    ensures AllAuthorities(facts, records, nodes + {x}) == AllAuthorities(facts, records, nodes) + AuthoritiesOf(facts, records, x)
  {}

  lemma PendingDone(facts: Facts, seen: set<string>, deps: seq<string>, x: string)
    requires Pending(facts, seen, [], deps) && Leads(facts, deps, x)
    ensures x in seen
  {}

  lemma Shrinks<T>(universe: set<T>, seen: set<T>, x: T)
    requires x in universe && x !in seen
    ensures universe - (seen + {x}) < universe - seen
  {
    assert x in universe - seen;
  }

  /** The head of the queue is a dependency of the universe. */
  lemma HeadInUniverse(facts: Facts, records: seq<Record>, initial: seq<string>, seen: set<string>, queue: seq<string>)
    requires queue != [] && Explored(facts, records, initial, seen, queue)
    ensures NodeOf(facts, queue[0]).Some? ==> NodeOf(facts, queue[0]).value in Universe(facts, records, initial)
  {}

  /** With an empty queue nothing reachable is missing. */
  lemma ExploredIsComplete(facts: Facts, records: seq<Record>, initial: seq<string>, seen: set<string>)
    requires Explored(facts, records, initial, seen, [])
    ensures IsReachableSet(facts, records, initial, seen)
  {
    forall x | Leads(facts, initial, x) ensures x in seen {
      PendingDone(facts, seen, initial, x);
    }
    forall x <- seen, y | Leads(facts, Successors(records, x), y) ensures y in seen {
      PendingDone(facts, seen, Successors(records, x), y);
    }
    forall x | Reachable(facts, records, initial, x) ensures x in seen {
      var chain :| IsChain(facts, records, initial, chain) && chain[|chain| - 1] == x;
      ClosedHoldsChain(facts, records, initial, seen, chain);
    }
  }

  /** What visiting a node adds: its authority files and its dependencies. */
  method Visit(facts: Facts, records: seq<Record>, index: map<string, Record>, node: string)
    returns (files: set<string>, next: seq<string>)
    requires IsIndex(records, index)
    ensures files == AuthoritiesOf(facts, records, node) && next == Successors(records, node)
  {
    files, next := {}, [];
    if node in index {
      files := facts.recordFiles(index[node]) + facts.expandPaths(index[node].authorities);
      next := index[node].dependsOn;
    } else if facts.isAuthorityPath(node) {
      files := facts.expandPaths([node]);
    }
  }

  /** One turn of the worklist: the head of the queue is visited unless it is no node or was seen before. */
  method TakeNext(facts: Facts, records: seq<Record>, index: map<string, Record>, ghost initial: seq<string>,
                  seen: set<string>, authorities: set<string>, queue: seq<string>)
    returns (seen': set<string>, authorities': set<string>, queue': seq<string>)
    requires IsIndex(records, index) && queue != []
    requires Explored(facts, records, initial, seen, queue) && authorities == AllAuthorities(facts, records, seen)
    ensures Explored(facts, records, initial, seen', queue') && authorities' == AllAuthorities(facts, records, seen')
    ensures || Universe(facts, records, initial) - seen' < Universe(facts, records, initial) - seen
            || (seen' == seen && |queue'| < |queue|)
  {
    var dep, rest := queue[0], queue[1..];
    assert queue == [dep] + rest;
    HeadInUniverse(facts, records, initial, seen, queue);
    seen', authorities', queue' := seen, authorities, rest;
    var node := NodeOf(facts, dep);
    if node.None? || node.value in seen {
      SkipExplored(facts, records, initial, seen, dep, rest);
    } else {
      GrowExplored(facts, records, initial, seen, dep, rest);
      var files, next := Visit(facts, records, index, node.value);
      AllAuthoritiesAdd(facts, records, seen, node.value);
      Shrinks(Universe(facts, records, initial), seen, node.value);
      seen', authorities', queue' := seen + {node.value}, authorities + files, rest + next;
    }
  }

  method DependencyClosure(facts: Facts, records: seq<Record>, initial: seq<string>)
    returns (seen: set<string>, authorities: set<string>)
    ensures IsReachableSet(facts, records, initial, seen)
    ensures authorities == AllAuthorities(facts, records, seen)
  {
    var queue := Distinct(initial);
    var index := OwnerIndex(records);
    seen, authorities := {}, {};
    StartExplored(facts, records, initial, queue);
    while queue != []
      invariant Explored(facts, records, initial, seen, queue)
      invariant authorities == AllAuthorities(facts, records, seen)
      decreases Universe(facts, records, initial) - seen, |queue|
    {
      seen, authorities, queue := TakeNext(facts, records, index, initial, seen, authorities, queue);
    }
    ExploredIsComplete(facts, records, initial, seen);
  }

  // ---- Module scope ----

  function StripSlashes(owner: string): string {
    if owner != "" && owner[|owner| - 1] == '/' then StripSlashes(owner[..|owner| - 1]) else owner
  }

  predicate Applies(facts: Facts, r: Record, path: string) {
    if r.pathPatterns != [] then facts.matchAny(path, r.pathPatterns)
    else path == r.owner || (!r.ownerIsFile && r.inherit && StripSlashes(r.owner) + "/" <= path)
  }

  /** Profile records that apply, and of the other applying records those with the longest owner. */
  predicate Matching(facts: Facts, records: seq<Record>, path: string, r: Record) {
    && r in records && Applies(facts, r, path)
    && (r.profileRecord
        || forall q <- records | !q.profileRecord && Applies(facts, q, path) :: |q.owner| <= |r.owner|)
  }

  function PreliminaryDomains(facts: Facts, records: seq<Record>, requested: set<string>, files: set<string>): set<string> {
    requested + set r <- records, d <- r.domains | exists f <- files :: Matching(facts, records, f, r) :: d
  }

  /** The files of the whole workspace that a record claims as its module. */
  predicate InModule(facts: Facts, r: Record, path: string) {
    if r.pathPatterns != [] then facts.matchAny(path, r.pathPatterns)
    else !r.ownerIsFile && !("@profile/" <= r.owner) && (path == r.owner || StripSlashes(r.owner) + "/" <= path)
  }

  function ModuleScope(facts: Facts, records: seq<Record>, requested: set<string>, all: set<string>, files: set<string>): set<string> {
    var domains := PreliminaryDomains(facts, records, requested, files);
    files + set f <- all | exists r <- records :: r.domains * domains != {} && !r.isAuthority && InModule(facts, r, f)
  }

  method ExpandModuleScope(facts: Facts, records: seq<Record>, requested: set<string>, all: set<string>, files: set<string>)
    returns (out: set<string>)
    ensures out == ModuleScope(facts, records, requested, all, files)
  {
    var domains := requested;
    var rest := files;
    while rest != {}
      invariant rest <= files
      invariant domains == PreliminaryDomains(facts, records, requested, files - rest)
      decreases rest
    {
      var f :| f in rest;
      var found := set r <- records, d <- r.domains | Matching(facts, records, f, r) :: d;
      assert files - (rest - {f}) == files - rest + {f};
      domains := domains + found;
      rest := rest - {f};
    }
    assert files - rest == files;
    out := files;
    for i := 0 to |records|
      invariant out == files + set f <- all | exists r <- records[..i] ::
                  r.domains * domains != {} && !r.isAuthority && InModule(facts, r, f)
    {
      assert records[..i + 1] == records[..i] + [records[i]];
      if records[i].domains * domains != {} && !records[i].isAuthority {
        out := out + set f <- all | InModule(facts, records[i], f);
      }
    }
    assert records[..|records|] == records;
  }

  /** Module expansion keeps the files it starts from, adds only workspace files. */
  lemma ModuleScopeBounds(facts: Facts, records: seq<Record>, requested: set<string>, all: set<string>, files: set<string>)
    ensures files <= ModuleScope(facts, records, requested, all, files) <= files + all
  {}

  // ---- What a node resolves to and what is attached to it ----

  predicate NamesDomain(r: Record, x: string) {
    exists d <- r.domains :: DOMAIN + d == x
  }

  /** Record i has the owner x and none after it has. */
  predicate LastWithOwner(records: seq<Record>, x: string, i: int) {
    0 <= i < |records| && records[i].owner == x && forall j :: i < j < |records| ==> records[j].owner != x
  }

  /** Record i belongs to the domain that x names and none before it does. */
  predicate FirstOfItsDomain(records: seq<Record>, x: string, i: int) {
    0 <= i < |records| && NamesDomain(records[i], x) && forall j :: 0 <= j < i ==> !NamesDomain(records[j], x)
  }

  /** r is the last record with the owner x, or, if nothing has that owner, the first record of the domain that x names. */
  ghost predicate ResolvesTo(records: seq<Record>, x: string, r: Record) {
    if exists q <- records :: q.owner == x
    then exists i :: LastWithOwner(records, x, i) && records[i] == r
    else exists i :: FirstOfItsDomain(records, x, i) && records[i] == r
  }

  lemma {:induction false} LastOwnedExactly(records: seq<Record>, x: string)
    ensures LastOwned(records, x).None? <==> forall q <- records :: q.owner != x
    ensures LastOwned(records, x).Some? ==> exists i :: LastWithOwner(records, x, i) && records[i] == LastOwned(records, x).value
  {
    if records != [] {
      var n := |records| - 1;
      var before := records[..n];
      LastOwnedExactly(before, x);
      assert records == before + [records[n]];
      if records[n].owner == x {
        assert LastWithOwner(records, x, n);
      } else if LastOwned(before, x).Some? {
        var i :| LastWithOwner(before, x, i) && before[i] == LastOwned(before, x).value;
        assert LastWithOwner(records, x, i);
      }
    }
  }

  lemma {:induction false} FirstOfDomainExactly(records: seq<Record>, x: string)
    ensures FirstOfDomain(records, x).None? <==> forall q <- records :: !NamesDomain(q, x)
    ensures FirstOfDomain(records, x).Some? ==> exists i :: FirstOfItsDomain(records, x, i) && records[i] == FirstOfDomain(records, x).value
  {
    if records != [] {
      var n := |records| - 1;
      var before := records[..n];
      FirstOfDomainExactly(before, x);
      assert records == before + [records[n]];
      assert FirstOfDomain(before, x).None? ==> (FirstOfDomain(records, x).Some? <==> NamesDomain(records[n], x));
      if FirstOfDomain(before, x).Some? {
        var i :| FirstOfItsDomain(before, x, i) && before[i] == FirstOfDomain(before, x).value;
        assert FirstOfItsDomain(records, x, i);
      } else if NamesDomain(records[n], x) {
        assert forall j :: 0 <= j < n ==> records[j] == before[j] && before[j] in before;
        assert FirstOfItsDomain(records, x, n);
      }
    }
  }

  lemma RecordForExactly(records: seq<Record>, x: string)
    ensures RecordFor(records, x).Some? ==> ResolvesTo(records, x, RecordFor(records, x).value)
    ensures RecordFor(records, x).None? <==> forall q <- records :: q.owner != x && !NamesDomain(q, x)
  {
    LastOwnedExactly(records, x);
    FirstOfDomainExactly(records, x);
  }

  /**
   The authority files of a set of nodes: of every record a node resolves to both its own authority files and those its
   list expands to, and of every node without a record, if it is an authority path, what that path expands to.
   */
  lemma AttachedExactly(facts: Facts, records: seq<Record>, nodes: set<string>, a: string)
    ensures a in AllAuthorities(facts, records, nodes) <==>
              || (exists x <- nodes, r <- records :: RecordFor(records, x) == Some(r)
                    && (a in facts.recordFiles(r) || a in facts.expandPaths(r.authorities)))
              || (exists x <- nodes :: facts.isAuthorityPath(x) && a in facts.expandPaths([x])
                    && forall q <- records :: q.owner != x && !NamesDomain(q, x))
  {
    forall x <- nodes
      ensures a in AuthoritiesOf(facts, records, x) <==>
                || (exists r <- records :: RecordFor(records, x) == Some(r) && (a in facts.recordFiles(r) || a in facts.expandPaths(r.authorities)))
                || (facts.isAuthorityPath(x) && a in facts.expandPaths([x])
                    && forall q <- records :: q.owner != x && !NamesDomain(q, x))
    {
      RecordForIsRecord(records, x);
      RecordForExactly(records, x);
    }
  }

  // ---- Module scope in its own terms ----

  /** The owner without its trailing slashes. */
  lemma {:induction false} StripSlashesExactly(owner: string)
    ensures StripSlashes(owner) <= owner
    ensures StripSlashes(owner) == "" || StripSlashes(owner)[|StripSlashes(owner)| - 1] != '/'
    ensures forall i :: |StripSlashes(owner)| <= i < |owner| ==> owner[i] == '/'
  {
    if owner != "" && owner[|owner| - 1] == '/' {
      StripSlashesExactly(owner[..|owner| - 1]);
    }
  }

  /** `path` lies in the directory `owner`, whatever slashes the owner ends with. */
  predicate InDirectory(owner: string, path: string) {
    exists n :: 0 <= n <= |owner| && n < |path| && (n == 0 || owner[n - 1] != '/') && (forall i :: n <= i < |owner| ==> owner[i] == '/')
                && path[..n] == owner[..n] && path[n] == '/'
  }

  lemma InDirectoryExactly(owner: string, path: string)
    ensures StripSlashes(owner) + "/" <= path <==> InDirectory(owner, path)
  {
    var o := StripSlashes(owner);
    StripSlashesExactly(owner);
    if o + "/" <= path {
      assert path[..|o|] == (o + "/")[..|o|] == owner[..|o|] && path[|o|] == (o + "/")[|o|];
    }
    if n :| 0 <= n <= |owner| && n < |path| && (n == 0 || owner[n - 1] != '/') && (forall i :: n <= i < |owner| ==> owner[i] == '/')
            && path[..n] == owner[..n] && path[n] == '/' {
      assert n == |o|;
      assert o == owner[..n] == path[..n];
      assert path[..n + 1] == o + "/";
    }
  }

  /** The record is about the path: by its patterns if it has any, else as the file itself or, if it inherits, below its directory. */
  predicate IsAbout(facts: Facts, r: Record, path: string) {
    if r.pathPatterns != [] then facts.matchAny(path, r.pathPatterns)
    else if r.ownerIsFile then path == r.owner
    else path == r.owner || (r.inherit && InDirectory(r.owner, path))
  }

  /** Of the records about a path, profile records and the ones with the longest owner count. */
  predicate Concerns(facts: Facts, records: seq<Record>, r: Record, path: string) {
    && r in records && IsAbout(facts, r, path)
    && (r.profileRecord || !exists q <- records :: !q.profileRecord && IsAbout(facts, q, path) && |q.owner| > |r.owner|)
  }

  lemma ConcernsExactly(facts: Facts, records: seq<Record>, r: Record, path: string)
    ensures Matching(facts, records, path, r) <==> Concerns(facts, records, r, path)
  {
    forall q: Record ensures Applies(facts, q, path) <==> IsAbout(facts, q, path) {
      InDirectoryExactly(q.owner, path);
    }
  }

  /**
   Module expansion adds a workspace file exactly if a record that is no authority and shares a domain with the request or with
   a record that concerns a start file claims it: by its patterns if it has any, else as a directory that is no profile entry.
   */
  lemma ModuleScopeExactly(facts: Facts, records: seq<Record>, requested: set<string>, all: set<string>, files: set<string>, f: string)
    ensures f in ModuleScope(facts, records, requested, all, files) <==>
              || f in files
              || (f in all && exists r <- records ::
                    && !r.isAuthority
                    && (exists d <- r.domains :: d in requested || exists q <- records, g <- files :: Concerns(facts, records, q, g) && d in q.domains)
                    && (if r.pathPatterns != [] then facts.matchAny(f, r.pathPatterns)
                        else !r.ownerIsFile && !("@profile/" <= r.owner) && (f == r.owner || InDirectory(r.owner, f))))
  {
    var domains := PreliminaryDomains(facts, records, requested, files);
    forall d ensures d in domains <==> d in requested || exists q <- records, g <- files :: Concerns(facts, records, q, g) && d in q.domains {
      forall q <- records, g <- files ensures Matching(facts, records, g, q) <==> Concerns(facts, records, q, g) {
        ConcernsExactly(facts, records, q, g);
      }
    }
    forall r <- records
      ensures r.domains * domains != {} <==> exists d <- r.domains :: d in domains
      ensures InModule(facts, r, f) <==> if r.pathPatterns != [] then facts.matchAny(f, r.pathPatterns)
                                         else !r.ownerIsFile && !("@profile/" <= r.owner) && (f == r.owner || InDirectory(r.owner, f))
    {
      InDirectoryExactly(r.owner, f);
      assert forall d :: d in r.domains * domains <==> d in r.domains && d in domains;
    }
  }
}
