/**
 The relationship search told by rounds, without its mutable queue and origin table: which ids are visited, which
 paths a visit leaves out, and what it finds.
 */
module RelationshipRounds {
  import opened Basics
  import opened AuthorityRefs
  import opened TextOrder

  datatype LinkKind = SameId | Reference

  predicate HasId(r: Ref, id: string) {
    r.canonicalId == id || r.structuralId == id
  }

  predicate Matches(r: Ref, id: string, kind: LinkKind) {
    if kind.SameId? then HasId(r, id) else id in r.referenceIds
  }

  predicate Related(r: Ref, id: string) {
    HasId(r, id) || id in r.referenceIds
  }

  /** The routed records that match an id in one way, minus those on skipped paths. */
  function Candidates(routed: seq<Ref>, id: string, kind: LinkKind, skip: set<string>): seq<Ref> {
    if routed == [] then []
    else
      Candidates(routed[..|routed| - 1], id, kind, skip)
      + if Matches(routed[|routed| - 1], id, kind) && routed[|routed| - 1].path !in skip then [routed[|routed| - 1]] else []
  }

  lemma {:induction false} CandidatesExact(routed: seq<Ref>, id: string, kind: LinkKind, skip: set<string>)
    ensures forall r :: r in Candidates(routed, id, kind, skip) <==> r in routed && Matches(r, id, kind) && r.path !in skip
  {
    if routed != [] {
      CandidatesExact(routed[..|routed| - 1], id, kind, skip);
      assert routed == routed[..|routed| - 1] + [routed[|routed| - 1]];
    }
  }

  // ---- One visit ----

  /** An id together with the paths on which its references are not looked for. */
  datatype Visit = Visit(id: string, skip: set<string>)

  predicate HasPath(refs: seq<Ref>, path: string) {
    exists r <- refs :: r.path == path
  }

  /** The first record of every path. */
  function Heads(refs: seq<Ref>): seq<Ref> {
    if refs == [] then []
    else
      var before, r := refs[..|refs| - 1], refs[|refs| - 1];
      Heads(before) + if HasPath(before, r.path) then [] else [r]
  }

  function Taken(matches: seq<Ref>, kind: LinkKind, full: bool): seq<Ref> {
    if full && kind.Reference? then matches else Heads(matches)
  }

  function Skipped(v: Visit, kind: LinkKind): set<string> {
    if kind.SameId? then {} else v.skip
  }

  function FoundAs(routed: seq<Ref>, v: Visit, kind: LinkKind, full: bool): seq<Ref> {
    Taken(SortByKey(Candidates(routed, v.id, kind, Skipped(v, kind))), kind, full)
  }

  /** What a visit finds, in the order in which it is processed. */
  function Found(routed: seq<Ref>, v: Visit, full: bool): seq<Ref> {
    FoundAs(routed, v, SameId, full) + FoundAs(routed, v, Reference, full)
  }

  function FoundAll(routed: seq<Ref>, visits: seq<Visit>, full: bool): seq<Ref> {
    if visits == [] then []
    else FoundAll(routed, visits[..|visits| - 1], full) + Found(routed, visits[|visits| - 1], full)
  }

  function IdsOf(visits: seq<Visit>): set<string> {
    set v <- visits :: v.id
  }

  // ---- Rounds ----

  /** The path of the first found record that references an id; empty if there is none. */
  function FirstReferrer(found: seq<Ref>, x: string): set<string> {
    if x == "" || found == [] then {}
    else
      var before, r := FirstReferrer(found[..|found| - 1], x), found[|found| - 1];
      if before != {} then before else if x in r.referenceIds then {r.path} else {}
  }

  function AddIds(ids: seq<string>, refs: seq<string>, visited: set<string>): seq<string> {
    if refs == [] then ids
    else
      var before, x := AddIds(ids, refs[..|refs| - 1], visited), refs[|refs| - 1];
      if x == "" || x in visited || x in before then before else before + [x]
  }

  /** The ids that found records reference and that were not visited, in the order of their first mention. */
  function NewIds(found: seq<Ref>, visited: set<string>): seq<string> {
    if found == [] then []
    else AddIds(NewIds(found[..|found| - 1], visited), found[|found| - 1].referenceIds, visited)
  }

  /**
   The visits of one round. An id is left out on the path of its first referrer in the round before and on the path
   of its first referrer so far in this round.
   */
  function RoundVisits(routed: seq<Ref>, frontier: seq<string>, visited: set<string>, previous: seq<Ref>, full: bool): seq<Visit> {
    if frontier == [] then []
    else
      var before, x := RoundVisits(routed, frontier[..|frontier| - 1], visited, previous, full), frontier[|frontier| - 1];
      if x in visited || x in IdsOf(before) then before
      else before + [Visit(x, FirstReferrer(previous, x) + FirstReferrer(FoundAll(routed, before, full), x))]
  }

  /** Where a search is between two rounds: its visits so far, the next ids and what the last round found. */
  datatype Progress = Progress(visits: seq<Visit>, frontier: seq<string>, found: seq<Ref>)

  function Turn(routed: seq<Ref>, p: Progress, full: bool): Progress {
    var round := RoundVisits(routed, p.frontier, IdsOf(p.visits), p.found, full);
    var found := FoundAll(routed, round, full);
    Progress(p.visits + round, NewIds(found, IdsOf(p.visits) + IdsOf(round)), found)
  }

  function TurnOf(routed: seq<Ref>, full: bool): Progress -> Progress {
    (p: Progress) => Turn(routed, p, full)
  }

  function Iterate(turn: Progress -> Progress, p: Progress, n: nat): Progress {
    if n == 0 then p else turn(Iterate(turn, p, n - 1))
  }

  function Start(anchors: seq<string>): Progress {
    Progress([], anchors, [])
  }

  /** All visits of a search that is `depth` rounds deep. */
  function SearchVisits(routed: seq<Ref>, anchors: seq<string>, full: bool, depth: nat): seq<Visit> {
    Iterate(TurnOf(routed, full), Start(anchors), depth).visits
  }

  // ---- Elements ----

  lemma {:induction false} HeadsExact(refs: seq<Ref>)
    ensures forall r <- Heads(refs) :: r in refs
    ensures forall p :: HasPath(Heads(refs), p) <==> HasPath(refs, p)
  {
    if refs != [] {
      var before, r := refs[..|refs| - 1], refs[|refs| - 1];
      HeadsExact(before);
      assert refs == before + [r];
      assert forall p :: HasPath(refs, p) <==> HasPath(before, p) || r.path == p;
      assert forall p :: HasPath(Heads(before) + [r], p) <==> HasPath(Heads(before), p) || r.path == p;
    }
  }

  lemma FoundAsExact(routed: seq<Ref>, v: Visit, kind: LinkKind, full: bool)
    ensures forall r <- FoundAs(routed, v, kind, full) :: r in routed && Matches(r, v.id, kind) && r.path !in Skipped(v, kind)
    ensures full && kind.Reference? ==>
              forall r <- routed | Matches(r, v.id, kind) && r.path !in v.skip :: r in FoundAs(routed, v, kind, full)
  {
    var matches := Candidates(routed, v.id, kind, Skipped(v, kind));
    CandidatesExact(routed, v.id, kind, Skipped(v, kind));
    SortElements(matches);
    HeadsExact(SortByKey(matches));
  }

  /** Among the routed records of its path that match the id in this way, the one with the smallest selector, on a path that is not left out. */
  predicate IsFirstMatch(routed: seq<Ref>, r: Ref, id: string, kind: LinkKind, skip: set<string>) {
    && r in routed && Matches(r, id, kind) && r.path !in skip
    && forall q <- routed | q.path == r.path && Matches(q, id, kind) :: q.selector == r.selector || TextLess(r.selector, q.selector)
  }

  /** r stands before every other record of its path. */
  predicate FirstOfPath(refs: seq<Ref>, r: Ref) {
    exists i :: 0 <= i < |refs| && refs[i] == r && forall j :: 0 <= j < i ==> refs[j].path != r.path
  }

  /** r has the smallest selector of its path. */
  predicate SmallestOfPath(refs: seq<Ref>, r: Ref) {
    r in refs && forall q <- refs | q.path == r.path :: q == r || TextLess(r.selector, q.selector)
  }

  lemma FirstOfMore(before: seq<Ref>, x: Ref, r: Ref)
    ensures FirstOfPath(before + [x], r) <==> FirstOfPath(before, r) || (x == r && !HasPath(before, r.path))
  {
    var more := before + [x];
    assert forall j :: 0 <= j < |before| ==> more[j] == before[j] && before[j] in before;
    if i :| 0 <= i < |before| && before[i] == r && forall j :: 0 <= j < i ==> before[j].path != r.path {
      assert more[i] == r;
    }
    if x == r && !HasPath(before, r.path) {
      assert more[|before|] == r;
    }
  }

  lemma {:induction false} HeadsAreFirst(refs: seq<Ref>, r: Ref)
    ensures r in Heads(refs) <==> FirstOfPath(refs, r)
  {
    if refs != [] {
      var before, x := refs[..|refs| - 1], refs[|refs| - 1];
      HeadsAreFirst(before, r);
      FirstOfMore(before, x, r);
      assert refs == before + [x];
      InConcat(Heads(before), if HasPath(before, x.path) then [] else [x], r);
    }
  }

  lemma FirstIsSmallest(sorted: seq<Ref>, r: Ref)
    requires InKeyOrder(sorted) && UniqueKeys(sorted) && FirstOfPath(sorted, r)
    ensures SmallestOfPath(sorted, r)
  {
    var i :| 0 <= i < |sorted| && sorted[i] == r && forall j :: 0 <= j < i ==> sorted[j].path != r.path;
    forall q <- sorted | q.path == r.path ensures q == r || TextLess(r.selector, q.selector) {
      var k :| 0 <= k < |sorted| && sorted[k] == q;
      KeyLessOrder(KeyOf(r), KeyOf(q), KeyOf(q));
    }
  }

  lemma {:induction false} FirstOnThePath(refs: seq<Ref>, path: string) returns (i: nat)
    requires HasPath(refs, path)
    ensures i < |refs| && refs[i].path == path && forall j :: 0 <= j < i ==> refs[j].path != path
  {
    i := 0;
    while refs[i].path != path
      invariant i < |refs| && forall j :: 0 <= j < i ==> refs[j].path != path
      invariant exists k :: i <= k < |refs| && refs[k].path == path
      decreases |refs| - i
    {
      i := i + 1;
    }
  }

  /** In key order the record with the smallest selector of its path stands before all others of the path. */
  lemma SmallestIsFirst(sorted: seq<Ref>, r: Ref)
    requires InKeyOrder(sorted) && SmallestOfPath(sorted, r)
    ensures FirstOfPath(sorted, r)
  {
    var i := FirstOnThePath(sorted, r.path);
    var k :| 0 <= k < |sorted| && sorted[k] == r;
    assert sorted[i] in sorted && (i < k ==> !KeyLess(KeyOf(sorted[k]), KeyOf(sorted[i])));
    KeyLessOrder(KeyOf(r), KeyOf(sorted[i]), KeyOf(r));
    assert sorted[i] == r;
  }

  lemma SortedFirst(matches: seq<Ref>, r: Ref)
    requires UniqueKeys(matches)
    ensures r in Heads(SortByKey(matches)) <==> SmallestOfPath(matches, r)
  {
    var sorted := SortByKey(matches);
    SortElements(matches);
    SortOrdered(matches);
    SortUnique(matches);
    HeadsAreFirst(sorted, r);
    assert SmallestOfPath(matches, r) <==> SmallestOfPath(sorted, r);
    if FirstOfPath(sorted, r) {
      FirstIsSmallest(sorted, r);
    } else if SmallestOfPath(sorted, r) {
      SmallestIsFirst(sorted, r);
    }
  }

  lemma {:induction false} CandidatesUnique(routed: seq<Ref>, id: string, kind: LinkKind, skip: set<string>)
    requires UniqueKeys(routed)
    ensures UniqueKeys(Candidates(routed, id, kind, skip))
  {
    if routed != [] {
      var rest, last := routed[..|routed| - 1], routed[|routed| - 1];
      CandidatesUnique(rest, id, kind, skip);
      CandidatesExact(rest, id, kind, skip);
      var before := Candidates(rest, id, kind, skip);
      forall i | 0 <= i < |before| ensures KeyOf(before[i]) != KeyOf(last) {
        assert before[i] in rest;
        var k :| 0 <= k < |rest| && rest[k] == before[i];
      }
    }
  }

  /** What a visit finds, without sorting: per path the match with the smallest selector, or every referrer in full cardinality. */
  lemma FoundAsExactly(routed: seq<Ref>, v: Visit, kind: LinkKind, full: bool, r: Ref)
    requires UniqueKeys(routed)
    ensures r in FoundAs(routed, v, kind, full) <==>
              if full && kind.Reference? then r in routed && v.id in r.referenceIds && r.path !in v.skip
              else IsFirstMatch(routed, r, v.id, kind, if kind.SameId? then {} else v.skip)
  {
    var skip := Skipped(v, kind);
    var matches := Candidates(routed, v.id, kind, skip);
    CandidatesExact(routed, v.id, kind, skip);
    CandidatesUnique(routed, v.id, kind, skip);
    SortedFirst(matches, r);
    SortElements(matches);
    OneRecordPerKey(routed);
  }

  lemma OneRecordPerKey(routed: seq<Ref>)
    requires UniqueKeys(routed)
    ensures forall q <- routed, r <- routed :: q.path == r.path && q.selector == r.selector ==> q == r
  {
    forall q <- routed, r <- routed | q.path == r.path && q.selector == r.selector ensures q == r {
      var a :| 0 <= a < |routed| && routed[a] == q;
      var b :| 0 <= b < |routed| && routed[b] == r;
      assert KeyOf(q) == KeyOf(r);
    }
  }

  lemma FoundExact(routed: seq<Ref>, v: Visit, full: bool, r: Ref)
    ensures r in Found(routed, v, full) <==> r in FoundAs(routed, v, SameId, full) || r in FoundAs(routed, v, Reference, full)
    ensures r in Found(routed, v, full) ==> r in routed && Related(r, v.id)
  {
    FoundAsExact(routed, v, SameId, full);
    FoundAsExact(routed, v, Reference, full);
  }

  lemma InConcat(a: seq<Ref>, b: seq<Ref>, r: Ref)
    ensures r in a + b <==> r in a || r in b
  {}

  /** Some visit finds the record. */
  predicate FoundBySome(routed: seq<Ref>, visits: seq<Visit>, full: bool, r: Ref) {
    exists v <- visits :: r in Found(routed, v, full)
  }

  lemma FoundBySomeStep(routed: seq<Ref>, visits: seq<Visit>, last: Visit, full: bool, r: Ref)
    ensures FoundBySome(routed, visits + [last], full, r) <==> FoundBySome(routed, visits, full, r) || r in Found(routed, last, full)
  {
    if r in Found(routed, last, full) {
      assert last in visits + [last];
    }
    if FoundBySome(routed, visits, full, r) {
      var v :| v in visits && r in Found(routed, v, full);
      assert v in visits + [last];
    }
  }

  lemma {:induction false} FoundAllExact(routed: seq<Ref>, visits: seq<Visit>, full: bool, r: Ref)
    ensures r in FoundAll(routed, visits, full) <==> FoundBySome(routed, visits, full, r)
  {
    if visits != [] {
      var before, last := visits[..|visits| - 1], visits[|visits| - 1];
      assert visits == before + [last];
      FoundAllExact(routed, before, full, r);
      FoundBySomeStep(routed, before, last, full, r);
      InConcat(FoundAll(routed, before, full), Found(routed, last, full), r);
    }
  }

  lemma Regroup(a: seq<Ref>, b: seq<Ref>, c: seq<Ref>)
    ensures (a + b) + c == a + (b + c)
  {}

  lemma {:induction false} FoundAllConcat(routed: seq<Ref>, a: seq<Visit>, b: seq<Visit>, full: bool)
    ensures FoundAll(routed, a + b, full) == FoundAll(routed, a, full) + FoundAll(routed, b, full)
  {
    if b == [] {
      assert a + b == a;
    } else {
      assert (a + b)[..|a + b| - 1] == a + b[..|b| - 1] && (a + b)[|a + b| - 1] == b[|b| - 1];
      FoundAllConcat(routed, a, b[..|b| - 1], full);
      Regroup(FoundAll(routed, a, full), FoundAll(routed, b[..|b| - 1], full), Found(routed, b[|b| - 1], full));
    }
  }

  lemma {:induction false} FirstReferrerExact(found: seq<Ref>, x: string)
    ensures FirstReferrer(found, x) != {} <==> x != "" && exists r <- found :: x in r.referenceIds
    ensures forall p <- FirstReferrer(found, x) :: FirstReferrer(found, x) == {p} && exists r <- found :: r.path == p && x in r.referenceIds
  {
    if x != "" && found != [] {
      FirstReferrerExact(found[..|found| - 1], x);
      assert found == found[..|found| - 1] + [found[|found| - 1]];
    }
  }

  lemma {:induction false} AddIdsExact(ids: seq<string>, refs: seq<string>, visited: set<string>)
    ensures forall x :: x in AddIds(ids, refs, visited) <==> x in ids || (x in refs && x != "" && x !in visited)
  {
    if refs != [] {
      AddIdsExact(ids, refs[..|refs| - 1], visited);
      assert refs == refs[..|refs| - 1] + [refs[|refs| - 1]];
    }
  }

  lemma {:induction false} NewIdsExact(found: seq<Ref>, visited: set<string>, x: string)
    ensures x in NewIds(found, visited) <==> x !in visited && FirstReferrer(found, x) != {}
  {
    if found != [] {
      NewIdsExact(found[..|found| - 1], visited, x);
      AddIdsExact(NewIds(found[..|found| - 1], visited), found[|found| - 1].referenceIds, visited);
    }
  }

  // ---- Leaving out what was visited ----

  function Unvisited(ids: seq<string>, visited: set<string>): seq<string> {
    if ids == [] then []
    else Unvisited(ids[..|ids| - 1], visited) + if ids[|ids| - 1] in visited then [] else [ids[|ids| - 1]]
  }

  lemma {:induction false} UnvisitedExact(ids: seq<string>, visited: set<string>)
    ensures forall x :: x in Unvisited(ids, visited) <==> x in ids && x !in visited
  {
    if ids != [] {
      UnvisitedExact(ids[..|ids| - 1], visited);
      assert ids == ids[..|ids| - 1] + [ids[|ids| - 1]];
    }
  }

  lemma {:induction false} UnvisitedAppend(ids: seq<string>, x: string, visited: set<string>)
    ensures Unvisited(ids + [x], visited) == Unvisited(ids, visited) + if x in visited then [] else [x]
  {
    assert (ids + [x])[..|ids|] == ids;
  }

  lemma {:induction false} UnvisitedTwice(ids: seq<string>, visited: set<string>, more: set<string>)
    requires visited <= more
    ensures Unvisited(Unvisited(ids, visited), more) == Unvisited(ids, more)
  {
    if ids != [] {
      UnvisitedTwice(ids[..|ids| - 1], visited, more);
      var before := Unvisited(ids[..|ids| - 1], visited);
      if ids[|ids| - 1] in visited {
        assert before + [] == before && Unvisited(ids[..|ids| - 1], more) + [] == Unvisited(ids[..|ids| - 1], more);
      } else {
        UnvisitedAppend(before, ids[|ids| - 1], more);
      }
    }
  }

  lemma {:induction false} AddIdsUnvisited(ids: seq<string>, refs: seq<string>, visited: set<string>, more: set<string>)
    requires visited <= more
    ensures Unvisited(AddIds(ids, refs, visited), more) == AddIds(Unvisited(ids, more), refs, more)
  {
    if refs != [] {
      var rest, x := refs[..|refs| - 1], refs[|refs| - 1];
      var before := AddIds(ids, rest, visited);
      AddIdsUnvisited(ids, rest, visited, more);
      UnvisitedExact(before, more);
      UnvisitedAppend(before, x, more);
      assert Unvisited(before, more) + [] == Unvisited(before, more);
    }
  }

  lemma {:induction false} NewIdsUnvisited(found: seq<Ref>, visited: set<string>, more: set<string>)
    requires visited <= more
    ensures Unvisited(NewIds(found, visited), more) == NewIds(found, more)
  {
    if found != [] {
      NewIdsUnvisited(found[..|found| - 1], visited, more);
      AddIdsUnvisited(NewIds(found[..|found| - 1], visited), found[|found| - 1].referenceIds, visited, more);
    }
  }

  lemma {:induction false} RoundSkipsVisited(routed: seq<Ref>, frontier: seq<string>, visited: set<string>, previous: seq<Ref>, full: bool)
    ensures RoundVisits(routed, Unvisited(frontier, visited), visited, previous, full)
         == RoundVisits(routed, frontier, visited, previous, full)
  {
    if frontier != [] {
      var rest, x := frontier[..|frontier| - 1], frontier[|frontier| - 1];
      RoundSkipsVisited(routed, rest, visited, previous, full);
      if x in visited {
        assert Unvisited(rest, visited) + [] == Unvisited(rest, visited);
      } else {
        assert (Unvisited(rest, visited) + [x])[..|Unvisited(rest, visited)|] == Unvisited(rest, visited);
      }
    }
  }

  lemma {:induction false} RoundIds(routed: seq<Ref>, frontier: seq<string>, visited: set<string>, previous: seq<Ref>, full: bool)
    ensures forall x :: x in IdsOf(RoundVisits(routed, frontier, visited, previous, full)) <==> x in frontier && x !in visited
  {
    if frontier != [] {
      var rest, x := frontier[..|frontier| - 1], frontier[|frontier| - 1];
      var before := RoundVisits(routed, rest, visited, previous, full);
      RoundIds(routed, rest, visited, previous, full);
      assert frontier == rest + [x];
      IdsAppend(before, Visit(x, FirstReferrer(previous, x) + FirstReferrer(FoundAll(routed, before, full), x)));
    }
  }

  lemma IdsAppend(visits: seq<Visit>, v: Visit)
    ensures IdsOf(visits + [v]) == IdsOf(visits) + {v.id}
  {
    assert forall u :: u in visits + [v] <==> u in visits || u == v;
  }

  lemma IdsConcat(a: seq<Visit>, b: seq<Visit>)
    ensures IdsOf(a + b) == IdsOf(a) + IdsOf(b)
  {
    assert forall v :: v in a + b <==> v in a || v in b;
  }

  // ---- The mutable queue against the rounds ----

  /** next_frontier and reference_origin_paths. */
  datatype Queue = Queue(next: seq<string>, origins: map<string, set<string>>)

  function OriginsOf(q: Queue, x: string): set<string> {
    if x in q.origins then q.origins[x] else {}
  }

  function Enqueue(visited: set<string>, q: Queue, x: string, path: string): Queue {
    if x == "" || x in visited || x in q.next then q
    else Queue(q.next + [x], q.origins[x := OriginsOf(q, x) + {path}])
  }

  function EnqueueRefs(visited: set<string>, q: Queue, refs: seq<string>, path: string): Queue {
    if refs == [] then q
    else Enqueue(visited, EnqueueRefs(visited, q, refs[..|refs| - 1], path), refs[|refs| - 1], path)
  }

  function EnqueueAll(visited: set<string>, q: Queue, found: seq<Ref>): Queue {
    if found == [] then q
    else
      var r := found[|found| - 1];
      EnqueueRefs(visited, EnqueueAll(visited, q, found[..|found| - 1]), r.referenceIds, r.path)
  }

  lemma {:induction false} EnqueueAllConcat(visited: set<string>, q: Queue, a: seq<Ref>, b: seq<Ref>)
    ensures EnqueueAll(visited, q, a + b) == EnqueueAll(visited, EnqueueAll(visited, q, a), b)
  {
    if b == [] {
      assert a + b == a;
    } else {
      assert (a + b)[..|a + b| - 1] == a + b[..|b| - 1];
      EnqueueAllConcat(visited, q, a, b[..|b| - 1]);
    }
  }

  lemma {:induction false} EnqueueRefsExact(visited: set<string>, q: Queue, refs: seq<string>, path: string)
    ensures var after := EnqueueRefs(visited, q, refs, path);
            && after.next == AddIds(q.next, refs, visited)
            && forall x | x !in visited :: OriginsOf(after, x)
                 == OriginsOf(q, x) + if x != "" && x !in q.next && x in refs then {path} else {}
  {
    if refs != [] {
      var rest, y := refs[..|refs| - 1], refs[|refs| - 1];
      EnqueueRefsExact(visited, q, rest, path);
      AddIdsExact(q.next, rest, visited);
      assert refs == rest + [y];
    }
  }

  /** Up to visited ids, the queue holds the new ids of this round and the origins are the first referrers. */
  ghost predicate QueueOk(visited: set<string>, q: Queue, previous: seq<Ref>, found: seq<Ref>) {
    && Unvisited(q.next, visited) == NewIds(found, visited)
    && forall x | x !in visited :: OriginsOf(q, x) == FirstReferrer(previous, x) + FirstReferrer(found, x)
  }

  lemma {:induction false} EnqueueRecord(visited: set<string>, q: Queue, previous: seq<Ref>, found: seq<Ref>, r: Ref)
    requires QueueOk(visited, q, previous, found)
    ensures QueueOk(visited, EnqueueRefs(visited, q, r.referenceIds, r.path), previous, found + [r])
  {
    var after, more := EnqueueRefs(visited, q, r.referenceIds, r.path), found + [r];
    assert more[..|found|] == found;
    EnqueueRefsExact(visited, q, r.referenceIds, r.path);
    AddIdsUnvisited(q.next, r.referenceIds, visited, visited);
    UnvisitedExact(q.next, visited);
    forall x | x !in visited ensures OriginsOf(after, x) == FirstReferrer(previous, x) + FirstReferrer(more, x) {
      NewIdsExact(found, visited, x);
    }
  }

  lemma {:induction false} EnqueueAllOk(visited: set<string>, q: Queue, previous: seq<Ref>, found: seq<Ref>, more: seq<Ref>)
    requires QueueOk(visited, q, previous, found)
    ensures QueueOk(visited, EnqueueAll(visited, q, more), previous, found + more)
  {
    if more == [] {
      assert found + more == found;
    } else {
      var rest, r := more[..|more| - 1], more[|more| - 1];
      EnqueueAllOk(visited, q, previous, found, rest);
      EnqueueRecord(visited, EnqueueAll(visited, q, rest), previous, found + rest, r);
      assert found + more == found + rest + [r];
    }
  }

  lemma QueueGrows(visited: set<string>, q: Queue, previous: seq<Ref>, found: seq<Ref>, more: set<string>)
    requires QueueOk(visited, q, previous, found) && visited <= more
    ensures QueueOk(more, q, previous, found)
  {
    UnvisitedTwice(q.next, visited, more);
    NewIdsUnvisited(found, visited, more);
  }

  /** A round ends: what it found becomes the round before. */
  lemma QueueTurns(visited: set<string>, q: Queue, previous: seq<Ref>, found: seq<Ref>)
    requires QueueOk(visited, q, previous, found)
    requires forall x | FirstReferrer(previous, x) != {} :: x in visited
    ensures QueueOk(visited, Queue([], q.origins), found, [])
  {
    forall x | x !in visited ensures OriginsOf(Queue([], q.origins), x) == FirstReferrer(found, x) + FirstReferrer([], x) {
      assert OriginsOf(Queue([], q.origins), x) == OriginsOf(q, x);
    }
  }

  // ---- What is visited ----

  lemma {:induction false} RoundPrefix(routed: seq<Ref>, frontier: seq<string>, k: nat, visited: set<string>, previous: seq<Ref>, full: bool)
    requires k <= |frontier|
    ensures RoundVisits(routed, frontier[..k], visited, previous, full) <= RoundVisits(routed, frontier, visited, previous, full)
    decreases |frontier|
  {
    if k < |frontier| {
      var rest := frontier[..|frontier| - 1];
      assert rest[..k] == frontier[..k];
      RoundPrefix(routed, rest, k, visited, previous, full);
    } else {
      assert frontier[..k] == frontier;
    }
  }

  /** No id is visited twice. */
  predicate UniqueIds(visits: seq<Visit>) {
    forall u <- visits, v <- visits :: u.id == v.id ==> u == v
  }

  lemma {:induction false} RoundUnique(routed: seq<Ref>, frontier: seq<string>, visited: set<string>, previous: seq<Ref>, full: bool)
    ensures UniqueIds(RoundVisits(routed, frontier, visited, previous, full))
  {
    if frontier != [] {
      var rest, x := frontier[..|frontier| - 1], frontier[|frontier| - 1];
      var before := RoundVisits(routed, rest, visited, previous, full);
      RoundUnique(routed, rest, visited, previous, full);
      if x !in visited && x !in IdsOf(before) {
        var visit := Visit(x, FirstReferrer(previous, x) + FirstReferrer(FoundAll(routed, before, full), x));
        UniqueAppend(before, [visit]);
      }
    }
  }

  lemma UniqueAppend(a: seq<Visit>, b: seq<Visit>)
    requires UniqueIds(a) && UniqueIds(b) && IdsOf(a) !! IdsOf(b)
    ensures UniqueIds(a + b)
  {
    forall u <- a + b, v <- a + b | u.id == v.id ensures u == v {
      assert (u in a ==> u.id in IdsOf(a)) && (u in b ==> u.id in IdsOf(b));
      assert (v in a ==> v.id in IdsOf(a)) && (v in b ==> v.id in IdsOf(b));
    }
  }

  lemma TurnUnique(routed: seq<Ref>, p: Progress, full: bool)
    requires UniqueIds(p.visits)
    ensures UniqueIds(Turn(routed, p, full).visits)
  {
    var visited := IdsOf(p.visits);
    RoundIds(routed, p.frontier, visited, p.found, full);
    RoundUnique(routed, p.frontier, visited, p.found, full);
    UniqueAppend(p.visits, RoundVisits(routed, p.frontier, visited, p.found, full));
  }

  lemma {:induction false} IterateUnique(turn: Progress -> Progress, p: Progress, n: nat)
    requires UniqueIds(p.visits) && forall q: Progress | UniqueIds(q.visits) :: UniqueIds(turn(q).visits)
    ensures UniqueIds(Iterate(turn, p, n).visits)
  {
    if n > 0 {
      IterateUnique(turn, p, n - 1);
    }
  }

  lemma VisitsUnique(routed: seq<Ref>, anchors: seq<string>, full: bool, depth: nat)
    ensures UniqueIds(SearchVisits(routed, anchors, full, depth))
  {
    forall q: Progress | UniqueIds(q.visits) ensures UniqueIds(TurnOf(routed, full)(q).visits) {
      TurnUnique(routed, q, full);
    }
    IterateUnique(TurnOf(routed, full), Start(anchors), depth);
  }

  lemma TurnOfNothing(routed: seq<Ref>, p: Progress, full: bool)
    requires p.frontier == []
    ensures Turn(routed, p, full).visits == p.visits && Turn(routed, p, full).frontier == []
  {
    assert RoundVisits(routed, p.frontier, IdsOf(p.visits), p.found, full) == [];
    assert p.visits + [] == p.visits;
  }

  lemma {:induction false} IterateStops(turn: Progress -> Progress, p: Progress, d: nat, n: nat)
    requires d <= n && Iterate(turn, p, d).frontier == []
    requires forall q: Progress | q.frontier == [] :: turn(q).visits == q.visits && turn(q).frontier == []
    ensures Iterate(turn, p, n).visits == Iterate(turn, p, d).visits && Iterate(turn, p, n).frontier == []
    decreases n
  {
    if d < n {
      IterateStops(turn, p, d, n - 1);
    }
  }

  /** Once nothing is left to visit, further rounds change nothing. */
  lemma SearchStops(routed: seq<Ref>, anchors: seq<string>, full: bool, d: nat, depth: nat)
    requires d <= depth && Iterate(TurnOf(routed, full), Start(anchors), d).frontier == []
    ensures SearchVisits(routed, anchors, full, depth) == SearchVisits(routed, anchors, full, d)
  {
    forall q: Progress | q.frontier == []
      ensures TurnOf(routed, full)(q).visits == q.visits && TurnOf(routed, full)(q).frontier == []
    {
      TurnOfNothing(routed, q, full);
    }
    IterateStops(TurnOf(routed, full), Start(anchors), d, depth);
  }

  lemma {:induction false} IterateGrows(turn: Progress -> Progress, p: Progress, d: nat, n: nat)
    requires d <= n && forall q: Progress :: q.visits <= turn(q).visits
    ensures Iterate(turn, p, d).visits <= Iterate(turn, p, n).visits
    decreases n
  {
    if d < n {
      IterateGrows(turn, p, d, n - 1);
    }
  }

  /** An anchor, or an id that a routed record references. */
  predicate Known(routed: seq<Ref>, anchors: seq<string>, x: string) {
    x in anchors || (x != "" && exists r <- routed :: x in r.referenceIds)
  }

  ghost predicate AllKnown(routed: seq<Ref>, anchors: seq<string>, p: Progress) {
    (forall v <- p.visits :: Known(routed, anchors, v.id)) && forall x <- p.frontier :: Known(routed, anchors, x)
  }

  lemma FoundIsRouted(routed: seq<Ref>, visits: seq<Visit>, full: bool, r: Ref)
    requires r in FoundAll(routed, visits, full)
    ensures r in routed
  {
    FoundAllExact(routed, visits, full, r);
    var v :| v in visits && r in Found(routed, v, full);
    FoundExact(routed, v, full, r);
  }

  lemma TurnKnown(routed: seq<Ref>, anchors: seq<string>, p: Progress, full: bool)
    requires AllKnown(routed, anchors, p)
    ensures AllKnown(routed, anchors, Turn(routed, p, full))
  {
    var visited := IdsOf(p.visits);
    var round := RoundVisits(routed, p.frontier, visited, p.found, full);
    var found, next := FoundAll(routed, round, full), Turn(routed, p, full);
    RoundIds(routed, p.frontier, visited, p.found, full);
    forall v <- next.visits ensures Known(routed, anchors, v.id) {
      if v in round { assert v.id in IdsOf(round); }
    }
    forall x <- next.frontier ensures Known(routed, anchors, x) {
      NewIdsExact(found, visited + IdsOf(round), x);
      FirstReferrerExact(found, x);
      var r :| r in found && x in r.referenceIds;
      FoundIsRouted(routed, round, full, r);
    }
  }

  lemma {:induction false} IterateKnown(routed: seq<Ref>, anchors: seq<string>, turn: Progress -> Progress, p: Progress, n: nat)
    requires AllKnown(routed, anchors, p)
    requires forall q: Progress | AllKnown(routed, anchors, q) :: AllKnown(routed, anchors, turn(q))
    ensures AllKnown(routed, anchors, Iterate(turn, p, n))
  {
    if n > 0 {
      IterateKnown(routed, anchors, turn, p, n - 1);
    }
  }

  /** Only anchors and referenced ids are ever visited. */
  lemma VisitsAreKnown(routed: seq<Ref>, anchors: seq<string>, full: bool, depth: nat)
    ensures forall v <- SearchVisits(routed, anchors, full, depth) :: Known(routed, anchors, v.id)
  {
    var turn := TurnOf(routed, full);
    forall q: Progress | AllKnown(routed, anchors, q) ensures AllKnown(routed, anchors, turn(q)) {
      TurnKnown(routed, anchors, q, full);
    }
    IterateKnown(routed, anchors, turn, Start(anchors), depth);
  }

  // ---- Full cardinality of an anchor ----

  /** The path, if any, on which references to anchor k are not looked for: that of the first referrer found for an earlier anchor. */
  function Origin(routed: seq<Ref>, anchors: seq<string>, k: nat, full: bool): set<string>
    requires k < |anchors|
  {
    FirstReferrer(FoundAll(routed, RoundVisits(routed, anchors[..k], {}, [], full), full), anchors[k])
  }

  lemma FirstTurn(routed: seq<Ref>, anchors: seq<string>, full: bool)
    ensures Turn(routed, Start(anchors), full).visits == RoundVisits(routed, anchors, {}, [], full)
  {
    assert IdsOf([]) == {};
  }

  lemma FirstRound(routed: seq<Ref>, anchors: seq<string>, full: bool, depth: nat)
    requires depth > 0
    ensures RoundVisits(routed, anchors, {}, [], full) <= SearchVisits(routed, anchors, full, depth)
  {
    var turn := TurnOf(routed, full);
    forall q: Progress ensures q.visits <= turn(q).visits {
      assert turn(q) == Turn(routed, q, full);
    }
    IterateGrows(turn, Start(anchors), 1, depth);
    assert Iterate(turn, Start(anchors), 1) == turn(Iterate(turn, Start(anchors), 0));
    FirstTurn(routed, anchors, full);
  }

  lemma NextVisit(routed: seq<Ref>, anchors: seq<string>, k: nat, full: bool)
    requires k < |anchors| && anchors[k] !in anchors[..k]
    ensures RoundVisits(routed, anchors[..k + 1], {}, [], full)
         == RoundVisits(routed, anchors[..k], {}, [], full) + [Visit(anchors[k], Origin(routed, anchors, k, full))]
  {
    RoundIds(routed, anchors[..k], {}, [], full);
    assert anchors[..k + 1][..k] == anchors[..k];
    var origin := Origin(routed, anchors, k, full);
    assert FirstReferrer([], anchors[k]) + origin == origin;
  }

  lemma InPrefix(a: seq<Visit>, v: Visit, b: seq<Visit>, c: seq<Visit>)
    requires a + [v] <= b <= c
    ensures v in c
  {
    assert c[|a|] == (a + [v])[|a|];
  }

  lemma AnchorIsVisited(routed: seq<Ref>, anchors: seq<string>, k: nat, full: bool, depth: nat)
    requires k < |anchors| && anchors[k] !in anchors[..k] && depth > 0
    ensures Visit(anchors[k], Origin(routed, anchors, k, full)) in SearchVisits(routed, anchors, full, depth)
  {
    NextVisit(routed, anchors, k, full);
    RoundPrefix(routed, anchors, k + 1, {}, [], full);
    FirstRound(routed, anchors, full, depth);
    InPrefix(RoundVisits(routed, anchors[..k], {}, [], full), Visit(anchors[k], Origin(routed, anchors, k, full)),
             RoundVisits(routed, anchors, {}, [], full), SearchVisits(routed, anchors, full, depth));
  }

  /** No earlier anchor leads to anchor k: no routed record related to one of them references it. */
  predicate NotReferredBefore(routed: seq<Ref>, anchors: seq<string>, k: nat)
    requires k < |anchors|
  {
    forall q <- routed, a <- anchors[..k] :: Related(q, a) ==> anchors[k] !in q.referenceIds
  }

  lemma NoOrigin(routed: seq<Ref>, anchors: seq<string>, k: nat, full: bool)
    requires k < |anchors| && NotReferredBefore(routed, anchors, k)
    ensures Origin(routed, anchors, k, full) == {}
  {
    var round := RoundVisits(routed, anchors[..k], {}, [], full);
    RoundIds(routed, anchors[..k], {}, [], full);
    forall q <- FoundAll(routed, round, full) ensures anchors[k] !in q.referenceIds {
      FoundAllExact(routed, round, full, q);
      var v :| v in round && q in Found(routed, v, full);
      FoundExact(routed, v, full, q);
      assert v.id in IdsOf(round);
    }
    FirstReferrerExact(FoundAll(routed, round, full), anchors[k]);
  }

  /** A record is found without looking for references to `a`: as first of its path for some id, or through another id. */
  predicate ComesBack(routed: seq<Ref>, visits: seq<Visit>, full: bool, r: Ref, a: string) {
    exists v <- visits :: r in FoundAs(routed, v, SameId, full) || (v.id != a && r in FoundAs(routed, v, Reference, full))
  }

  lemma ReferenceFoundExactly(routed: seq<Ref>, anchors: seq<string>, k: nat, depth: nat, r: Ref)
    requires k < |anchors| && anchors[k] !in anchors[..k] && depth > 0 && r in routed && anchors[k] in r.referenceIds
    ensures FoundBySome(routed, SearchVisits(routed, anchors, true, depth), true, r) <==>
              r.path !in Origin(routed, anchors, k, true) || ComesBack(routed, SearchVisits(routed, anchors, true, depth), true, r, anchors[k])
  {
    var visits, a := SearchVisits(routed, anchors, true, depth), anchors[k];
    var own := Visit(a, Origin(routed, anchors, k, true));
    AnchorIsVisited(routed, anchors, k, true, depth);
    VisitsUnique(routed, anchors, true, depth);
    FoundAsExact(routed, own, Reference, true);
    if r.path !in own.skip {
      FoundExact(routed, own, true, r);
    } else {
      forall v <- visits ensures r in Found(routed, v, true) <==>
          r in FoundAs(routed, v, SameId, true) || (v.id != a && r in FoundAs(routed, v, Reference, true))
      {
        FoundExact(routed, v, true, r);
        if v.id == a { assert v == own; }
      }
    }
  }
}
