/** The bounded relationship search over already routed authority records. */
module RelationshipClosure {
  import opened Basics
  import opened AuthorityRefs
  import opened RelationshipRounds

  datatype Edge = Edge(relationshipId: string, kind: LinkKind, path: string, selector: string, canonicalId: string)

  /** What the search has found so far; `origins` are the paths from which an id was first reached. */
  datatype Walk = Walk(selected: seq<Ref>, edges: seq<Edge>, visited: set<string>,
                       next: seq<string>, origins: map<string, set<string>>)

  function QueueOf(w: Walk): Queue {
    Queue(w.next, w.origins)
  }

  /** Processing `found` selected its keys and queued its references. */
  ghost predicate Took(w: Walk, v: Walk, found: seq<Ref>) {
    && KeysOf(v.selected) == KeysOf(w.selected) + KeysOf(found)
    && v.visited == w.visited && QueueOf(v) == EnqueueAll(w.visited, QueueOf(w), found)
  }

  lemma KeysConcat(a: seq<Ref>, b: seq<Ref>)
    ensures KeysOf(a + b) == KeysOf(a) + KeysOf(b)
  {
    forall k ensures k in KeysOf(a + b) <==> k in KeysOf(a) || k in KeysOf(b) {
      if r :| r in a && KeyOf(r) == k { assert r in a + b; }
      if r :| r in b && KeyOf(r) == k { assert r in a + b; }
    }
  }

  lemma TookMore(w: Walk, u: Walk, v: Walk, a: seq<Ref>, b: seq<Ref>)
    requires Took(w, u, a) && Took(u, v, b)
    ensures Took(w, v, a + b)
  {
    KeysConcat(a, b);
    EnqueueAllConcat(w.visited, QueueOf(w), a, b);
  }

  lemma TookNothing(w: Walk)
    ensures Took(w, w, [])
  {}

  lemma TookOne(w: Walk, v: Walk, r: Ref)
    requires KeysOf(v.selected) == KeysOf(w.selected) + {KeyOf(r)}
    requires v.visited == w.visited && QueueOf(v) == EnqueueRefs(w.visited, QueueOf(w), r.referenceIds, r.path)
    ensures Took(w, v, [r])
  {
    assert [r][..0] == [] && KeysOf([r]) == {KeyOf(r)};
  }

  /** An id is near when it is an anchor or is referenced by a routed record related to a nearer id. */
  ghost predicate Near(routed: seq<Ref>, anchors: seq<string>, id: string, hops: nat)
    decreases hops
  {
    || id in anchors
    || (hops > 0 && exists r, p :: r in routed && Near(routed, anchors, p, hops - 1) && Related(r, p) && id in r.referenceIds)
  }

  lemma NearGrows(routed: seq<Ref>, anchors: seq<string>, id: string, m: nat, n: nat)
    requires m <= n && Near(routed, anchors, id, m)
    ensures Near(routed, anchors, id, n)
    decreases m
  {
    if id !in anchors {
      var r, p :| r in routed && Near(routed, anchors, p, m - 1) && Related(r, p) && id in r.referenceIds;
      NearGrows(routed, anchors, p, m - 1, n - 1);
    }
  }

  /** Edge i describes selected record i, a copy of a routed record related to the edge's id. */
  ghost predicate EdgeOk(routed: seq<Ref>, w: Walk, i: nat)
    requires i < |w.selected| == |w.edges|
  {
    var s, e := w.selected[i], w.edges[i];
    && e == Edge(e.relationshipId, e.kind, s.path, s.selector, s.canonicalId)
    && e.relationshipId in w.visited
    && Matches(s, e.relationshipId, e.kind)
    && exists r <- routed :: s == Marked(r, e.kind)
  }

  /** Some selected record on this path matches the id in this way. */
  predicate Represented(w: Walk, path: string, id: string, kind: LinkKind) {
    exists s <- w.selected :: s.path == path && Matches(s, id, kind)
  }

  ghost predicate WalkOk(routed: seq<Ref>, w: Walk) {
    && |w.selected| == |w.edges|
    && UniqueKeys(w.selected)
    && (forall i :: 0 <= i < |w.selected| ==> EdgeOk(routed, w, i))
    && (forall id <- w.origins, p <- w.origins[id] :: Represented(w, p, id, Reference))
  }

  /** `v` extends `w` by further selected records and further queued ids. */
  predicate Extends(w: Walk, v: Walk) {
    w.selected <= v.selected && w.edges <= v.edges && w.visited == v.visited && w.next <= v.next
  }

  /** Every reference of a record was visited or is queued. */
  predicate RefsKnown(w: Walk, s: Ref) {
    forall x <- s.referenceIds :: x == "" || x in w.visited || x in w.next
  }

  /** The records from position n on were found through `id`, and their references are known. */
  predicate FoundBy(w: Walk, n: nat, id: string) {
    |w.selected| == |w.edges| && forall i :: n <= i < |w.selected| ==> w.edges[i].relationshipId == id && RefsKnown(w, w.selected[i])
  }

  lemma ExtendsRepresented(w: Walk, v: Walk, path: string, id: string, kind: LinkKind)
    requires Extends(w, v) && Represented(w, path, id, kind)
    ensures Represented(v, path, id, kind)
  {
    var s :| s in w.selected && s.path == path && Matches(s, id, kind);
    assert s in v.selected;
  }

  function Marked(r: Ref, kind: LinkKind): Ref {
    var marker := if kind.SameId? then RelationshipSameId else RelationshipReference;
    var floor := if kind.SameId? then 950 else 900;
    r.(score := if r.score < floor then floor else r.score,
       reasons := if marker in r.reasons then r.reasons else [marker] + r.reasons)
  }

  /** add_ref: each (path, selector) is selected once, together with the edge that found it. */
  method AddRef(routed: seq<Ref>, w: Walk, r: Ref, id: string, kind: LinkKind) returns (v: Walk)
    requires WalkOk(routed, w) && UniqueKeys(routed) && r in routed && id in w.visited && Matches(r, id, kind)
    ensures WalkOk(routed, v) && Extends(w, v) && v.next == w.next && v.origins == w.origins
    ensures KeysOf(v.selected) == KeysOf(w.selected) + {KeyOf(r)} && Represented(v, r.path, id, kind)
    ensures forall x <- r.referenceIds :: Represented(v, r.path, x, Reference)
    ensures v == w || (|v.selected| == |w.selected| + 1 && v.edges[|w.selected|].relationshipId == id
                       && v.selected[|w.selected|].referenceIds == r.referenceIds)
  {
    if KeyOf(r) in KeysOf(w.selected) {
      SelectedCopy(routed, w, r);
      return w;
    }
    var copied := Marked(r, kind);
    v := w.(selected := w.selected + [copied],
            edges := w.edges + [Edge(id, kind, copied.path, copied.selector, copied.canonicalId)]);
    assert copied in v.selected;
    KeysConcat(w.selected, [copied]);
    forall i | 0 <= i < |v.selected| ensures EdgeOk(routed, v, i) {
      if i < |w.selected| { assert EdgeOk(routed, w, i); }
    }
    forall x <- w.origins, p <- w.origins[x] ensures Represented(v, p, x, Reference) {
      ExtendsRepresented(w, v, p, x, Reference);
    }
    forall s <- w.selected ensures KeyOf(s) != KeyOf(r) {
      assert KeyOf(s) in KeysOf(w.selected);
    }
  }

  /** A selected record with the key of a routed record is a copy of that record. */
  lemma SelectedCopy(routed: seq<Ref>, w: Walk, r: Ref)
    requires WalkOk(routed, w) && UniqueKeys(routed) && r in routed && KeyOf(r) in KeysOf(w.selected)
    ensures exists s <- w.selected :: SameRecord(s, r)
  {
    var s :| s in w.selected && KeyOf(s) == KeyOf(r);
    var i :| 0 <= i < |w.selected| && w.selected[i] == s;
    assert EdgeOk(routed, w, i);
    var q :| q in routed && s == Marked(q, w.edges[i].kind);
    var a :| 0 <= a < |routed| && routed[a] == q;
    var b :| 0 <= b < |routed| && routed[b] == r;
    assert KeyOf(q) == KeyOf(r);
    assert a == b;
  }

  /** Queue the references of a selected record that are not known yet. */
  method Propagate(routed: seq<Ref>, w: Walk, r: Ref) returns (v: Walk)
    requires WalkOk(routed, w) && r in routed
    requires forall x <- r.referenceIds :: Represented(w, r.path, x, Reference)
    ensures WalkOk(routed, v) && Extends(w, v) && v.selected == w.selected && v.edges == w.edges
    ensures forall x <- v.next :: x in w.next || x in r.referenceIds
    ensures RefsKnown(v, r)
    ensures QueueOf(v) == EnqueueRefs(w.visited, QueueOf(w), r.referenceIds, r.path)
    ensures forall x <- w.visited | x in v.origins :: x in w.origins && v.origins[x] == w.origins[x]
  {
    v := w;
    for i := 0 to |r.referenceIds|
      invariant WalkOk(routed, v) && Extends(w, v) && v.selected == w.selected && v.edges == w.edges
      invariant forall x <- v.next :: x in w.next || x in r.referenceIds
      invariant forall j :: 0 <= j < i ==>
                  r.referenceIds[j] == "" || r.referenceIds[j] in v.visited || r.referenceIds[j] in v.next
      invariant QueueOf(v) == EnqueueRefs(w.visited, QueueOf(w), r.referenceIds[..i], r.path)
      invariant forall x <- w.visited | x in v.origins :: x in w.origins && v.origins[x] == w.origins[x]
    {
      var candidate := r.referenceIds[i];
      assert Related(r, candidate) && r.referenceIds[..i + 1][..i] == r.referenceIds[..i];
      if candidate != "" && candidate !in v.visited && candidate !in v.next
         && exists other <- routed :: Related(other, candidate) {
        var origin := if candidate in v.origins then v.origins[candidate] else {};
        var u := v.(origins := v.origins[candidate := origin + {r.path}], next := v.next + [candidate]);
        assert Represented(w, r.path, candidate, Reference);
        forall x <- u.origins, p <- u.origins[x] ensures Represented(u, p, x, Reference) {
          if x == candidate && p == r.path {
            ExtendsRepresented(w, u, p, x, Reference);
          } else {
            assert Represented(v, p, x, Reference);
          }
        }
        forall k | 0 <= k < |u.selected| ensures EdgeOk(routed, u, k) {
          assert EdgeOk(routed, v, k);
        }
        assert u.next[|v.next|] == candidate;
        v := u;
      }
    }
    assert r.referenceIds[..|r.referenceIds|] == r.referenceIds;
  }

  /** What adding matches of one id may change. */
  ghost predicate AddedOk(routed: seq<Ref>, w: Walk, v: Walk, id: string) {
    && WalkOk(routed, v) && Extends(w, v) && FoundBy(v, |w.selected|, id)
    && (forall x <- v.next :: x in w.next || exists r <- routed :: Related(r, id) && x in r.referenceIds)
    && (forall x <- w.visited | x in v.origins :: x in w.origins && v.origins[x] == w.origins[x])
  }

  method AddOne(routed: seq<Ref>, ghost w: Walk, v: Walk, r: Ref, id: string, kind: LinkKind) returns (next: Walk)
    requires AddedOk(routed, w, v, id) && UniqueKeys(routed) && r in routed && id in w.visited && Matches(r, id, kind)
    ensures AddedOk(routed, w, next, id) && Extends(v, next) && Took(v, next, [r])
    ensures KeyOf(r) in KeysOf(next.selected) && Represented(next, r.path, id, kind)
  {
    var added := AddRef(routed, v, r, id, kind);
    next := Propagate(routed, added, r);
    forall i | |w.selected| <= i < |next.selected|
      ensures next.edges[i].relationshipId == id && RefsKnown(next, next.selected[i])
    {
      if i < |v.selected| { assert RefsKnown(v, v.selected[i]); }
    }
    ExtendsRepresented(added, next, r.path, id, kind);
    TookOne(v, next, r);
  }

  ghost predicate PathsOf(matches: seq<Ref>, i: nat, perPath: set<string>)
    requires i <= |matches|
  {
    forall p :: p in perPath <==> HasPath(matches[..i], p)
  }

  ghost predicate AllRepresented(v: Walk, paths: set<string>, id: string, kind: LinkKind) {
    forall p <- paths :: Represented(v, p, id, kind)
  }

  /** The first i matches are processed; `perPath` holds their paths. */
  ghost predicate Listed(w: Walk, v: Walk, matches: seq<Ref>, i: nat, id: string, kind: LinkKind, full: bool, perPath: set<string>)
    requires i <= |matches|
  {
    Took(w, v, Taken(matches[..i], kind, full)) && PathsOf(matches, i, perPath) && AllRepresented(v, perPath, id, kind)
  }

  lemma ListedSkips(w: Walk, v: Walk, matches: seq<Ref>, i: nat, id: string, kind: LinkKind, full: bool, perPath: set<string>)
    requires i < |matches| && Listed(w, v, matches, i, id, kind, full, perPath)
    requires matches[i].path in perPath && !(full && kind.Reference?)
    ensures Listed(w, v, matches, i + 1, id, kind, full, perPath)
  {
    TakenStep(matches, i, kind, full);
  }

  lemma ListedGrows(w: Walk, v: Walk, next: Walk, matches: seq<Ref>, i: nat, id: string, kind: LinkKind, full: bool, perPath: set<string>)
    requires i < |matches| && Listed(w, v, matches, i, id, kind, full, perPath)
    requires matches[i].path !in perPath || (full && kind.Reference?)
    requires Took(v, next, [matches[i]]) && Extends(v, next) && Represented(next, matches[i].path, id, kind)
    ensures Listed(w, next, matches, i + 1, id, kind, full, perPath + {matches[i].path})
  {
    TakenStep(matches, i, kind, full);
    TookMore(w, v, next, Taken(matches[..i], kind, full), [matches[i]]);
    forall p <- perPath ensures Represented(next, p, id, kind) {
      ExtendsRepresented(v, next, p, id, kind);
    }
  }

  /** One representative per path, or every match when complete cardinality is asked for. */
  method AddList(routed: seq<Ref>, w: Walk, matches: seq<Ref>, id: string, kind: LinkKind, full: bool) returns (v: Walk)
    requires WalkOk(routed, w) && UniqueKeys(routed) && id in w.visited
    requires forall m <- matches :: m in routed && Matches(m, id, kind)
    ensures AddedOk(routed, w, v, id) && Took(w, v, Taken(matches, kind, full))
    ensures forall m <- matches :: Represented(v, m.path, id, kind)
    ensures full && kind.Reference? ==> forall m <- matches :: KeyOf(m) in KeysOf(v.selected)
  {
    var perPath: set<string> := {};
    v := w;
    TookNothing(w);
    for i := 0 to |matches|
      invariant AddedOk(routed, w, v, id) && Listed(w, v, matches, i, id, kind, full, perPath)
    {
      var r := matches[i];
      assert r in matches;
      if r.path in perPath && !(full && kind.Reference?) {
        ListedSkips(w, v, matches, i, id, kind, full, perPath);
      } else {
        ghost var before := v;
        v := AddOne(routed, w, v, r, id, kind);
        ListedGrows(w, before, v, matches, i, id, kind, full, perPath);
        perPath := perPath + {r.path};
      }
    }
    assert matches[..|matches|] == matches;
    forall m <- matches ensures Represented(v, m.path, id, kind) {
      assert HasPath(matches, m.path);
    }
  }

  lemma TakenStep(matches: seq<Ref>, i: nat, kind: LinkKind, full: bool)
    requires i < |matches|
    ensures if HasPath(matches[..i], matches[i].path) && !(full && kind.Reference?)
            then Taken(matches[..i + 1], kind, full) == Taken(matches[..i], kind, full)
            else Taken(matches[..i + 1], kind, full) == Taken(matches[..i], kind, full) + [matches[i]]
    ensures forall p :: HasPath(matches[..i + 1], p) <==> HasPath(matches[..i], p) || p == matches[i].path
  {
    assert matches[..i + 1] == matches[..i] + [matches[i]];
    assert matches[..i + 1][..i] == matches[..i];
    assert Heads(matches[..i]) + [] == Heads(matches[..i]);
  }

  method AddMatches(routed: seq<Ref>, w: Walk, id: string, kind: LinkKind, skip: set<string>, full: bool) returns (v: Walk)
    requires WalkOk(routed, w) && UniqueKeys(routed) && id in w.visited
    ensures AddedOk(routed, w, v, id) && Took(w, v, Taken(SortByKey(Candidates(routed, id, kind, skip)), kind, full))
    ensures forall r <- routed | Matches(r, id, kind) && r.path !in skip :: Represented(v, r.path, id, kind)
    ensures full && kind.Reference? ==>
              forall r <- routed | Matches(r, id, kind) && r.path !in skip :: KeyOf(r) in KeysOf(v.selected)
  {
    var matches := SortByKey(Candidates(routed, id, kind, skip));
    SortElements(Candidates(routed, id, kind, skip));
    CandidatesExact(routed, id, kind, skip);
    v := AddList(routed, w, matches, id, kind, full);
  }

  lemma KeysGrow(w: Walk, v: Walk)
    requires Extends(w, v)
    ensures KeysOf(w.selected) <= KeysOf(v.selected)
  {
    forall k <- KeysOf(w.selected) ensures k in KeysOf(v.selected) {
      var s :| s in w.selected && KeyOf(s) == k;
      assert s in v.selected;
    }
  }

  /** Every path with a matching routed record has a selected record that matches the id in the same way. */
  predicate Covered(routed: seq<Ref>, w: Walk, id: string) {
    forall r <- routed ::
      && (Matches(r, id, SameId) ==> Represented(w, r.path, id, SameId))
      && (Matches(r, id, Reference) ==> Represented(w, r.path, id, Reference))
  }

  lemma CoveredGrows(routed: seq<Ref>, w: Walk, v: Walk, id: string)
    requires w.selected <= v.selected
    ensures Covered(routed, w, id) ==> Covered(routed, v, id)
  {
    var u := v.(edges := w.edges, visited := w.visited, next := w.next);
    assert Extends(w, u);
    KeysGrow(w, u);
    if Covered(routed, w, id) {
      forall r <- routed, kind: LinkKind | Matches(r, id, kind) ensures Represented(v, r.path, id, kind) {
        ExtendsRepresented(w, u, r.path, id, kind);
      }
    }
  }

  method VisitId(routed: seq<Ref>, w: Walk, id: string, full: bool) returns (v: Walk)
    requires WalkOk(routed, w) && UniqueKeys(routed) && id !in w.visited
    ensures WalkOk(routed, v) && w.selected <= v.selected && w.next <= v.next
    ensures v.visited == w.visited + {id} && Covered(routed, v, id)
    ensures Took(w.(visited := v.visited), v, Found(routed, Visit(id, OriginsOf(QueueOf(w), id)), full))
    ensures w.edges <= v.edges && FoundBy(v, |w.selected|, id)
    ensures forall x <- v.next :: x in w.next || exists r <- routed :: Related(r, id) && x in r.referenceIds
  {
    var entered := w.(visited := w.visited + {id});
    EnteredOk(routed, w, id);
    var skip := if id in entered.origins then entered.origins[id] else {};
    var same := AddMatches(routed, entered, id, SameId, {}, full);
    v := AddMatches(routed, same, id, Reference, skip, full);
    TookMore(entered, same, v, FoundAs(routed, Visit(id, skip), SameId, full), FoundAs(routed, Visit(id, skip), Reference, full));
    forall i | |w.selected| <= i < |v.selected|
      ensures v.edges[i].relationshipId == id && RefsKnown(v, v.selected[i])
    {
      if i < |same.selected| { assert RefsKnown(same, same.selected[i]); }
    }
    forall r <- routed
      ensures Matches(r, id, SameId) ==> Represented(v, r.path, id, SameId)
      ensures Matches(r, id, Reference) ==> Represented(v, r.path, id, Reference)
    {
      if Matches(r, id, SameId) { ExtendsRepresented(same, v, r.path, id, SameId); }
      if Matches(r, id, Reference) && r.path in skip {
        assert Represented(entered, r.path, id, Reference);
        ExtendsRepresented(entered, same, r.path, id, Reference);
        ExtendsRepresented(same, v, r.path, id, Reference);
      }
    }
  }

  lemma EnteredOk(routed: seq<Ref>, w: Walk, id: string)
    requires WalkOk(routed, w)
    ensures WalkOk(routed, w.(visited := w.visited + {id}))
  {
    var v := w.(visited := w.visited + {id});
    forall i | 0 <= i < |v.selected| ensures EdgeOk(routed, v, i) {
      assert EdgeOk(routed, w, i);
    }
    forall x <- w.origins, p <- w.origins[x] ensures Represented(v, p, x, Reference) {
      assert Represented(w, p, x, Reference);
    }
  }

  datatype Closure = Closure(anchors: seq<string>, selected: seq<Ref>, edges: seq<Edge>, visited: set<string>)

  /** Strong anchors: canonical ids that the request names, directly or through the structural id. */
  method FindAnchors(scored: seq<Ref>, explicit: set<string>, literal: string -> bool) returns (anchors: seq<string>)
    ensures forall a :: a in anchors <==> exists r <- scored :: r.canonicalId == a && IsAnchor(r, explicit, literal)
    ensures forall i, j :: 0 <= i < j < |anchors| ==> anchors[i] != anchors[j]
  {
    anchors := [];
    for i := 0 to |scored|
      invariant forall a <- anchors :: exists r <- scored :: r.canonicalId == a && IsAnchor(r, explicit, literal)
      invariant forall j :: 0 <= j < i && IsAnchor(scored[j], explicit, literal) ==> scored[j].canonicalId in anchors
      invariant forall k, j :: 0 <= k < j < |anchors| ==> anchors[k] != anchors[j]
    {
      if IsAnchor(scored[i], explicit, literal) && scored[i].canonicalId !in anchors {
        assert scored[i] in scored;
        anchors := anchors + [scored[i].canonicalId];
      }
    }
  }

  predicate IsAnchor(r: Ref, explicit: set<string>, literal: string -> bool) {
    && r.canonicalId != ""
    && (|| r.canonicalId in explicit
        || (r.structuralId != "" && r.structuralId in explicit)
        || literal(r.canonicalId)
        || (r.structuralId != "" && literal(r.structuralId))
        || IsExplicit(r))
  }

  /** Selected record i is a copy of a routed record that matches an id fewer than `depth` hops from an anchor. */
  ghost predicate SelectedOk(routed: seq<Ref>, c: Closure, i: nat, depth: nat)
    requires i < |c.selected| == |c.edges|
  {
    var s, e := c.selected[i], c.edges[i];
    && e == Edge(e.relationshipId, e.kind, s.path, s.selector, s.canonicalId)
    && Matches(s, e.relationshipId, e.kind)
    && depth > 0 && Near(routed, c.anchors, e.relationshipId, depth - 1)
    && exists r <- routed :: s == Marked(r, e.kind)
  }

  /** All that the records found for an anchor reference was visited, if there was a second round. */
  ghost predicate SecondRound(c: Closure, depth: nat)
    requires |c.selected| == |c.edges|
  {
    depth >= 2 ==> forall i, x :: 0 <= i < |c.selected| && c.edges[i].relationshipId in c.anchors && x in c.selected[i].referenceIds
                                  ==> x == "" || x in c.visited
  }

  /** The selected records and visited ids are those of the search told by rounds. */
  ghost predicate SearchedExactly(routed: seq<Ref>, c: Closure, full: bool, depth: nat) {
    var visits := SearchVisits(routed, c.anchors, full, depth);
    KeysOf(c.selected) == KeysOf(FoundAll(routed, visits, full)) && c.visited == IdsOf(visits)
  }

  /** Everything a closure promises. */
  ghost predicate ClosureOk(routed: seq<Ref>, c: Closure, full: bool, depth: nat) {
    StructureOk(routed, c, depth) && SearchedExactly(routed, c, full, depth)
  }

  ghost predicate StructureOk(routed: seq<Ref>, c: Closure, depth: nat) {
    && UniqueKeys(c.selected)
    && |c.edges| == |c.selected|
    && (forall i :: 0 <= i < |c.selected| ==> SelectedOk(routed, c, i, depth))
    && SecondRound(c, depth)
    && (depth > 0 ==> forall a <- c.anchors :: a in c.visited)
    && (forall id <- c.visited :: Covered(routed, Walk(c.selected, c.edges, c.visited, [], map[]), id))
  }

  /** Where the references of the records found for anchors are: queued in round 0, in the frontier in round 1, then visited. */
  ghost predicate AnchorRefs(anchors: seq<string>, frontier: seq<string>, w: Walk, d: nat)
    requires |w.selected| == |w.edges|
  {
    forall i, x :: 0 <= i < |w.selected| && w.edges[i].relationshipId in anchors && x in w.selected[i].referenceIds ==>
                     x == "" || x in w.visited || (d == 0 && x in w.next) || (d == 1 && x in frontier)
  }

  /** The state between two visits at depth d, with the first k ids of the frontier done. */
  ghost predicate SearchOk(routed: seq<Ref>, anchors: seq<string>, frontier: seq<string>, w: Walk, d: nat, k: nat)
    requires k <= |frontier|
  {
    && WalkOk(routed, w) && AnchorRefs(anchors, frontier, w, d)
    && (forall id <- frontier :: Near(routed, anchors, id, d))
    && (forall id <- w.visited :: Covered(routed, w, id))
    && (forall id <- w.visited :: if k == 0 then d > 0 && Near(routed, anchors, id, d - 1) else Near(routed, anchors, id, d))
    && (forall id <- w.next :: Near(routed, anchors, id, d + 1))
    && (forall j :: 0 <= j < k ==> frontier[j] in w.visited)
    && (if d == 0 then frontier == anchors else forall a <- anchors :: a in w.visited)
  }

  /** An id that was visited is passed over; any other is visited without the paths of its origins. */
  ghost predicate Visited(routed: seq<Ref>, w: Walk, v: Walk, id: string, full: bool) {
    if id in w.visited then v == w
    else
      && v.visited == w.visited + {id}
      && Took(w.(visited := v.visited), v, Found(routed, Visit(id, OriginsOf(QueueOf(w), id)), full))
  }

  lemma VisitedBefore(routed: seq<Ref>, anchors: seq<string>, frontier: seq<string>, w: Walk, d: nat, k: nat)
    requires k < |frontier| && SearchOk(routed, anchors, frontier, w, d, k)
    ensures forall x <- w.visited :: Near(routed, anchors, x, d)
    ensures frontier[k] in w.visited ==> SearchOk(routed, anchors, frontier, w, d, k + 1)
  {
    forall x <- w.visited ensures Near(routed, anchors, x, d) {
      if k == 0 { NearGrows(routed, anchors, x, d - 1, d); }
    }
  }

  lemma VisitKeepsSearch(routed: seq<Ref>, anchors: seq<string>, frontier: seq<string>, w: Walk, v: Walk, d: nat, k: nat)
    requires k < |frontier| && SearchOk(routed, anchors, frontier, w, d, k) && frontier[k] !in w.visited
    requires forall x <- w.visited :: Near(routed, anchors, x, d)
    requires WalkOk(routed, v) && w.selected <= v.selected && w.next <= v.next && w.edges <= v.edges
    requires v.visited == w.visited + {frontier[k]} && Covered(routed, v, frontier[k]) && FoundBy(v, |w.selected|, frontier[k])
    requires forall x <- v.next :: x in w.next || exists r <- routed :: Related(r, frontier[k]) && x in r.referenceIds
    ensures SearchOk(routed, anchors, frontier, v, d, k + 1)
  {
    AnchorRefsKept(anchors, frontier, w, v, d, frontier[k]);
    forall x <- v.visited ensures Covered(routed, v, x) {
      if x != frontier[k] { CoveredGrows(routed, w, v, x); }
    }
  }

  method SearchStep(routed: seq<Ref>, ghost anchors: seq<string>, frontier: seq<string>, w: Walk, full: bool, ghost d: nat, k: nat)
    returns (v: Walk)
    requires UniqueKeys(routed) && k < |frontier| && SearchOk(routed, anchors, frontier, w, d, k)
    ensures SearchOk(routed, anchors, frontier, v, d, k + 1)
    ensures Visited(routed, w, v, frontier[k], full)
  {
    VisitedBefore(routed, anchors, frontier, w, d, k);
    if frontier[k] in w.visited {
      return w;
    }
    v := VisitId(routed, w, frontier[k], full);
    VisitKeepsSearch(routed, anchors, frontier, w, v, d, k);
  }

  lemma AnchorRefsKept(anchors: seq<string>, frontier: seq<string>, w: Walk, v: Walk, d: nat, id: string)
    requires |w.selected| == |w.edges| && |v.selected| == |v.edges| && AnchorRefs(anchors, frontier, w, d)
    requires w.selected <= v.selected && w.edges <= v.edges && w.visited <= v.visited && w.next <= v.next
    requires FoundBy(v, |w.selected|, id) && (d == 0 || id !in anchors)
    ensures AnchorRefs(anchors, frontier, v, d)
  {
    forall i, x | 0 <= i < |v.selected| && v.edges[i].relationshipId in anchors && x in v.selected[i].referenceIds
      ensures x == "" || x in v.visited || (d == 0 && x in v.next) || (d == 1 && x in frontier)
    {
      if i >= |w.selected| { assert RefsKnown(v, v.selected[i]); }
    }
  }

  lemma NextDepth(routed: seq<Ref>, anchors: seq<string>, frontier: seq<string>, w: Walk, d: nat)
    requires frontier != [] && SearchOk(routed, anchors, frontier, w, d, |frontier|)
    ensures SearchOk(routed, anchors, w.next, w.(next := []), d + 1, 0)
  {
    var v := w.(next := []);
    forall i | 0 <= i < |v.selected| ensures EdgeOk(routed, v, i) {
      assert EdgeOk(routed, w, i);
    }
    forall x <- v.origins, p <- v.origins[x] ensures Represented(v, p, x, Reference) {
      assert Represented(w, p, x, Reference);
    }
    forall x <- v.visited ensures Covered(routed, v, x) {
      CoveredGrows(routed, w, v, x);
    }
    if d == 0 {
      forall a <- anchors ensures a in v.visited {
        var j :| 0 <= j < |frontier| && frontier[j] == a;
      }
    }
  }

  // ---- The search is the one told by rounds ----

  /** The visits of the current round whose first k ids are done. */
  function Current(routed: seq<Ref>, frontier: seq<string>, full: bool, k: nat, p: Progress): seq<Visit>
    requires k <= |frontier|
  {
    RoundVisits(routed, frontier[..k], IdsOf(p.visits), p.found, full)
  }

  /** Visited ids, selected keys and queue are those after the visits of `round`. */
  ghost predicate FollowsRound(routed: seq<Ref>, w: Walk, full: bool, p: Progress, round: seq<Visit>) {
    && w.visited == IdsOf(p.visits) + IdsOf(round)
    && KeysOf(w.selected) == KeysOf(FoundAll(routed, p.visits + round, full))
    && QueueOk(w.visited, QueueOf(w), p.found, FoundAll(routed, round, full))
  }

  /** The real frontier is the one of the rounds up to visited ids. */
  ghost predicate FollowsFrontier(frontier: seq<string>, p: Progress) {
    && Unvisited(frontier, IdsOf(p.visits)) == Unvisited(p.frontier, IdsOf(p.visits))
    && forall x | FirstReferrer(p.found, x) != {} :: x in IdsOf(p.visits) || x in frontier
  }

  /** The walk is where the rounds say: `p` is the state before this round. */
  ghost predicate Traced(routed: seq<Ref>, frontier: seq<string>, w: Walk, full: bool, k: nat, p: Progress)
    requires k <= |frontier|
  {
    FollowsRound(routed, w, full, p, Current(routed, frontier, full, k, p)) && FollowsFrontier(frontier, p)
  }

  lemma FollowsVisit(routed: seq<Ref>, w: Walk, v: Walk, full: bool, p: Progress, round: seq<Visit>, visit: Visit)
    requires FollowsRound(routed, w, full, p, round) && v.visited == w.visited + {visit.id}
    requires Took(w.(visited := v.visited), v, Found(routed, visit, full))
    ensures FollowsRound(routed, v, full, p, round + [visit])
  {
    IdsAppend(round, visit);
    KeysStep(routed, w, v, p.visits, round, visit, full);
    QueueStep(routed, w, v, p.found, round, visit, full);
  }

  lemma TracedStep(routed: seq<Ref>, frontier: seq<string>, w: Walk, v: Walk, full: bool, k: nat, p: Progress)
    requires k < |frontier| && Traced(routed, frontier, w, full, k, p) && Visited(routed, w, v, frontier[k], full)
    ensures Traced(routed, frontier, v, full, k + 1, p)
  {
    var id := frontier[k];
    CurrentStep(routed, frontier, full, k, p);
    if id !in w.visited {
      FollowsVisit(routed, w, v, full, p, Current(routed, frontier, full, k, p), Visit(id, OriginsOf(QueueOf(w), id)));
    }
  }

  lemma CurrentStep(routed: seq<Ref>, frontier: seq<string>, full: bool, k: nat, p: Progress)
    requires k < |frontier|
    ensures var id, round := frontier[k], Current(routed, frontier, full, k, p);
            Current(routed, frontier, full, k + 1, p)
              == if id in IdsOf(p.visits) || id in IdsOf(round) then round
                 else round + [Visit(id, FirstReferrer(p.found, id) + FirstReferrer(FoundAll(routed, round, full), id))]
  {
    assert frontier[..k + 1][..k] == frontier[..k];
  }

  lemma KeysStep(routed: seq<Ref>, w: Walk, v: Walk, done: seq<Visit>, round: seq<Visit>, visit: Visit, full: bool)
    requires KeysOf(w.selected) == KeysOf(FoundAll(routed, done + round, full))
    requires KeysOf(v.selected) == KeysOf(w.selected) + KeysOf(Found(routed, visit, full))
    ensures KeysOf(v.selected) == KeysOf(FoundAll(routed, done + (round + [visit]), full))
  {
    FoundAppend(routed, done + round, visit, full);
    assert done + (round + [visit]) == done + round + [visit];
    KeysConcat(FoundAll(routed, done + round, full), Found(routed, visit, full));
  }

  lemma QueueStep(routed: seq<Ref>, w: Walk, v: Walk, previous: seq<Ref>, round: seq<Visit>, visit: Visit, full: bool)
    requires QueueOk(w.visited, QueueOf(w), previous, FoundAll(routed, round, full)) && v.visited == w.visited + {visit.id}
    requires QueueOf(v) == EnqueueAll(v.visited, QueueOf(w), Found(routed, visit, full))
    ensures QueueOk(v.visited, QueueOf(v), previous, FoundAll(routed, round + [visit], full))
  {
    var found := FoundAll(routed, round, full);
    QueueGrows(w.visited, QueueOf(w), previous, found, v.visited);
    EnqueueAllOk(v.visited, QueueOf(w), previous, found, Found(routed, visit, full));
    FoundAppend(routed, round, visit, full);
  }

  lemma FoundAppend(routed: seq<Ref>, visits: seq<Visit>, v: Visit, full: bool)
    ensures FoundAll(routed, visits + [v], full) == FoundAll(routed, visits, full) + Found(routed, v, full)
  {
    assert (visits + [v])[..|visits|] == visits;
  }

  lemma TracedStart(routed: seq<Ref>, frontier: seq<string>, w: Walk, full: bool, p: Progress)
    requires w.visited == IdsOf(p.visits) && KeysOf(w.selected) == KeysOf(FoundAll(routed, p.visits, full))
    requires QueueOk(w.visited, QueueOf(w), p.found, [])
    requires Unvisited(frontier, w.visited) == Unvisited(p.frontier, w.visited)
    requires forall x | FirstReferrer(p.found, x) != {} :: x in w.visited || x in frontier
    ensures Traced(routed, frontier, w, full, 0, p)
  {
    assert Current(routed, frontier, full, 0, p) == [] && p.visits + [] == p.visits;
    assert IdsOf(p.visits) + {} == IdsOf(p.visits);
  }

  /** At the end of a round the queue is, up to visited ids, the next frontier. */
  lemma TracedTurn(routed: seq<Ref>, frontier: seq<string>, w: Walk, full: bool, p: Progress)
    requires Traced(routed, frontier, w, full, |frontier|, p)
    ensures Traced(routed, w.next, w.(next := []), full, 0, Turn(routed, p, full))
  {
    var visited := IdsOf(p.visits);
    var round := RoundVisits(routed, frontier, visited, p.found, full);
    var found := FoundAll(routed, round, full);
    assert frontier[..|frontier|] == frontier;
    RoundSkipsVisited(routed, frontier, visited, p.found, full);
    RoundSkipsVisited(routed, p.frontier, visited, p.found, full);
    assert Turn(routed, p, full) == Progress(p.visits + round, NewIds(found, w.visited), found);
    RoundIds(routed, frontier, visited, p.found, full);
    QueueTurns(w.visited, QueueOf(w), p.found, found);
    IdsConcat(p.visits, round);
    UnvisitedTwice(w.next, w.visited, w.visited);
    forall x | FirstReferrer(found, x) != {} ensures x in w.visited || x in w.next {
      NewIdsExact(found, w.visited, x);
      UnvisitedExact(w.next, w.visited);
    }
    TracedStart(routed, w.next, w.(next := []), full, Turn(routed, p, full));
  }

  lemma FinishSearch(routed: seq<Ref>, anchors: seq<string>, frontier: seq<string>, w: Walk, d: nat, depth: nat)
    requires SearchOk(routed, anchors, frontier, w, d, 0) && d <= depth && (d == depth || frontier == [])
    ensures StructureOk(routed, Closure(anchors, w.selected, w.edges, w.visited), depth)
  {
    var v := Walk(w.selected, w.edges, w.visited, [], map[]);
    var c := Closure(anchors, w.selected, w.edges, w.visited);
    forall i | 0 <= i < |w.selected| ensures SelectedOk(routed, c, i, depth) {
      assert EdgeOk(routed, w, i);
      NearGrows(routed, anchors, w.edges[i].relationshipId, d - 1, depth - 1);
    }
    forall x <- w.visited ensures Covered(routed, v, x) {
      CoveredGrows(routed, w, v, x);
    }
    assert depth > 0 ==> forall a <- anchors :: a in w.visited;
  }

  /** One depth: every id of the frontier that was not visited before. */
  method VisitFrontier(routed: seq<Ref>, ghost anchors: seq<string>, frontier: seq<string>, w: Walk, full: bool, ghost d: nat,
                       ghost p: Progress)
    returns (v: Walk)
    requires UniqueKeys(routed) && SearchOk(routed, anchors, frontier, w, d, 0) && Traced(routed, frontier, w, full, 0, p)
    ensures SearchOk(routed, anchors, frontier, v, d, |frontier|) && Traced(routed, frontier, v, full, |frontier|, p)
  {
    v := w;
    for k := 0 to |frontier|
      invariant SearchOk(routed, anchors, frontier, v, d, k) && Traced(routed, frontier, v, full, k, p)
    {
      ghost var before := v;
      v := SearchStep(routed, anchors, frontier, v, full, d, k);
      TracedStep(routed, frontier, before, v, full, k, p);
    }
  }

  /** The state of the search after d rounds. */
  ghost predicate Reached(routed: seq<Ref>, anchors: seq<string>, frontier: seq<string>, w: Walk, full: bool, d: nat) {
    forall p {:trigger Traced(routed, frontier, w, full, 0, p)} :: p == Iterate(TurnOf(routed, full), Start(anchors), d) ==>
      SearchOk(routed, anchors, frontier, w, d, 0) && Traced(routed, frontier, w, full, 0, p)
  }

  lemma StartSearch(routed: seq<Ref>, anchors: seq<string>, full: bool)
    ensures Reached(routed, anchors, anchors, Walk([], [], {}, [], map[]), full, 0)
  {
    var w := Walk([], [], {}, [], map[]);
    TracedStart(routed, anchors, w, full, Start(anchors));
    assert SearchOk(routed, anchors, anchors, w, 0, 0);
  }

  lemma TurnAgain(routed: seq<Ref>, full: bool, p: Progress, n: nat)
    ensures Iterate(TurnOf(routed, full), p, n + 1) == Turn(routed, Iterate(TurnOf(routed, full), p, n), full)
  {}

  /** One round: all of the frontier, then its queue becomes the frontier. */
  method SearchRound(routed: seq<Ref>, ghost anchors: seq<string>, frontier: seq<string>, w: Walk, full: bool, ghost d: nat)
    returns (v: Walk, next: seq<string>)
    requires UniqueKeys(routed) && frontier != [] && Reached(routed, anchors, frontier, w, full, d)
    ensures Reached(routed, anchors, next, v, full, d + 1)
  {
    ghost var p := Iterate(TurnOf(routed, full), Start(anchors), d);
    assert Traced(routed, frontier, w, full, 0, p);
    var after := VisitFrontier(routed, anchors, frontier, w, full, d, p);
    NextDepth(routed, anchors, frontier, after, d);
    TracedTurn(routed, frontier, after, full, p);
    TurnAgain(routed, full, Start(anchors), d);
    v, next := after.(next := []), after.next;
  }

  lemma ExactEnd(routed: seq<Ref>, anchors: seq<string>, frontier: seq<string>, w: Walk, full: bool, d: nat, depth: nat, p: Progress)
    requires Traced(routed, frontier, w, full, 0, p) && p == Iterate(TurnOf(routed, full), Start(anchors), d)
    requires d <= depth && (d == depth || (frontier == [] && p.frontier == []))
    ensures SearchedExactly(routed, Closure(anchors, w.selected, w.edges, w.visited), full, depth)
  {
    assert Current(routed, frontier, full, 0, p) == [] && p.visits + [] == p.visits;
    if d < depth {
      SearchStops(routed, anchors, full, d, depth);
    }
  }

  /** The next ids of a search were not visited, except that the anchors may repeat one another. */
  lemma FrontierIsNew(routed: seq<Ref>, anchors: seq<string>, full: bool, d: nat, x: string)
    requires x in Iterate(TurnOf(routed, full), Start(anchors), d).frontier
    ensures x !in IdsOf(Iterate(TurnOf(routed, full), Start(anchors), d).visits)
  {
    if d > 0 {
      var p := Iterate(TurnOf(routed, full), Start(anchors), d - 1);
      var round := RoundVisits(routed, p.frontier, IdsOf(p.visits), p.found, full);
      NewIdsExact(FoundAll(routed, round, full), IdsOf(p.visits) + IdsOf(round), x);
      IdsConcat(p.visits, round);
    }
  }

  lemma NothingLeft(routed: seq<Ref>, anchors: seq<string>, w: Walk, full: bool, d: nat)
    requires Traced(routed, [], w, full, 0, Iterate(TurnOf(routed, full), Start(anchors), d))
    ensures Iterate(TurnOf(routed, full), Start(anchors), d).frontier == []
  {
    var p := Iterate(TurnOf(routed, full), Start(anchors), d);
    assert Unvisited([], IdsOf(p.visits)) == [];
    UnvisitedExact(p.frontier, IdsOf(p.visits));
    if p.frontier != [] {
      FrontierIsNew(routed, anchors, full, d, p.frontier[0]);
    }
  }

  lemma EndSearch(routed: seq<Ref>, anchors: seq<string>, frontier: seq<string>, w: Walk, full: bool, d: nat, depth: nat)
    requires d <= depth && (d == depth || frontier == []) && Reached(routed, anchors, frontier, w, full, d)
    ensures ClosureOk(routed, Closure(anchors, w.selected, w.edges, w.visited), full, depth)
  {
    var p := Iterate(TurnOf(routed, full), Start(anchors), d);
    assert Traced(routed, frontier, w, full, 0, p);
    if d < depth {
      NothingLeft(routed, anchors, w, full, d);
    }
    ExactEnd(routed, anchors, frontier, w, full, d, depth, p);
    FinishSearch(routed, anchors, frontier, w, d, depth);
  }

  method RelationshipSearch(routed: seq<Ref>, anchors: seq<string>, full: bool, depth: nat) returns (c: Closure)
    requires UniqueKeys(routed)
    ensures c.anchors == anchors && ClosureOk(routed, c, full, depth)
  {
    var w := Walk([], [], {}, [], map[]);
    var frontier := anchors;
    var d := 0;
    StartSearch(routed, anchors, full);
    while d < depth && frontier != []
      invariant d <= depth && Reached(routed, anchors, frontier, w, full, d)
    {
      w, frontier := SearchRound(routed, anchors, frontier, w, full, d);
      d := d + 1;
    }
    EndSearch(routed, anchors, frontier, w, full, d, depth);
    c := Closure(anchors, w.selected, w.edges, w.visited);
  }

  /**
   The second hop is complete: whatever a record found for an anchor references, every routed file that mentions it
   has a selected record that mentions it in the same way.
   */
  lemma SecondHopKept(routed: seq<Ref>, c: Closure, full: bool, i: nat, x: string, r: Ref, kind: LinkKind)
    requires ClosureOk(routed, c, full, 2) && i < |c.selected| && c.edges[i].relationshipId in c.anchors
    requires x != "" && x in c.selected[i].referenceIds && r in routed && Matches(r, x, kind)
    ensures exists s <- c.selected :: s.path == r.path && Matches(s, x, kind)
  {
    var w := Walk(c.selected, c.edges, c.visited, [], map[]);
    assert Covered(routed, w, x);
    assert Represented(w, r.path, x, kind);
  }

  /** At the usual depth of two: a selected record is related to an anchor, or to an id that a record related to an anchor references. */
  lemma WithinTwoHops(routed: seq<Ref>, c: Closure, full: bool, i: nat)
    requires ClosureOk(routed, c, full, 2) && i < |c.selected|
    ensures exists a <- c.anchors ::
              || Related(c.selected[i], a)
              || exists r <- routed, x <- r.referenceIds :: Related(r, a) && Related(c.selected[i], x)
  {
    assert SelectedOk(routed, c, i, 2);
    var x := c.edges[i].relationshipId;
    if x in c.anchors {
      assert Related(c.selected[i], x);
    } else {
      var r, p :| r in routed && Near(routed, c.anchors, p, 0) && Related(r, p) && x in r.referenceIds;
      assert p in c.anchors && Related(r, p) && Related(c.selected[i], x);
    }
  }

  /** A routed record is selected exactly if some visit of the rounds finds it. */
  lemma SelectedExactly(routed: seq<Ref>, c: Closure, full: bool, depth: nat, r: Ref)
    requires UniqueKeys(routed) && SearchedExactly(routed, c, full, depth) && r in routed
    ensures KeyOf(r) in KeysOf(c.selected) <==> FoundBySome(routed, SearchVisits(routed, c.anchors, full, depth), full, r)
  {
    var visits := SearchVisits(routed, c.anchors, full, depth);
    var found := FoundAll(routed, visits, full);
    FoundAllExact(routed, visits, full, r);
    if q :| q in found && KeyOf(q) == KeyOf(r) {
      FoundAllExact(routed, visits, full, q);
      var v :| v in visits && q in Found(routed, v, full);
      FoundExact(routed, v, full, q);
      var a :| 0 <= a < |routed| && routed[a] == q;
      var b :| 0 <= b < |routed| && routed[b] == r;
      assert a == b;
    }
  }

  /** Off its origin path an anchor's referrers are all selected. */
  lemma AnchorReferrerSelected(routed: seq<Ref>, c: Closure, depth: nat, k: nat, r: Ref)
    requires depth > 0 && SearchedExactly(routed, c, true, depth) && k < |c.anchors| && c.anchors[k] !in c.anchors[..k]
    requires r in routed && c.anchors[k] in r.referenceIds && r.path !in Origin(routed, c.anchors, k, true)
    ensures KeyOf(r) in KeysOf(c.selected)
  {
    var visits := SearchVisits(routed, c.anchors, true, depth);
    var visit := Visit(c.anchors[k], Origin(routed, c.anchors, k, true));
    AnchorIsVisited(routed, c.anchors, k, true, depth);
    FoundAsExact(routed, visit, Reference, true);
    FoundExact(routed, visit, true, r);
    FoundAllExact(routed, visits, true, r);
  }

  /** No routed file that mentions an anchor is lost: it keeps a selected record that mentions the anchor in the same way. */
  lemma AnchorFilesKept(routed: seq<Ref>, c: Closure, full: bool, depth: nat, a: string, r: Ref, kind: LinkKind)
    requires depth > 0 && ClosureOk(routed, c, full, depth) && a in c.anchors && r in routed && Matches(r, a, kind)
    ensures exists s <- c.selected :: s.path == r.path && Matches(s, a, kind)
    ensures full && a == c.anchors[0] && a in r.referenceIds ==> KeyOf(r) in KeysOf(c.selected)
  {
    var w := Walk(c.selected, c.edges, c.visited, [], map[]);
    assert Covered(routed, w, a);
    assert Represented(w, r.path, a, kind);
    if full && a == c.anchors[0] && a in r.referenceIds {
      NoOrigin(routed, c.anchors, 0, true);
      AnchorReferrerSelected(routed, c, depth, 0, r);
    }
  }

  /**
   Full cardinality, record by record: a routed record that references anchor k is selected exactly if it does not lie
   on the path of the first referrer found for an earlier anchor, or comes back through another id or as first of its path.
   */
  lemma AnchorReferenceExactly(routed: seq<Ref>, c: Closure, depth: nat, k: nat, r: Ref)
    requires UniqueKeys(routed) && depth > 0 && SearchedExactly(routed, c, true, depth)
    requires k < |c.anchors| && c.anchors[k] !in c.anchors[..k] && r in routed && c.anchors[k] in r.referenceIds
    ensures KeyOf(r) in KeysOf(c.selected) <==>
              || r.path !in Origin(routed, c.anchors, k, true)
              || ComesBack(routed, SearchVisits(routed, c.anchors, true, depth), true, r, c.anchors[k])
  {
    SelectedExactly(routed, c, true, depth, r);
    ReferenceFoundExactly(routed, c.anchors, k, depth, r);
  }

  /** Every routed record that references the id is selected. */
  predicate AllReferencing(routed: seq<Ref>, c: Closure, id: string) {
    forall r <- routed | id in r.referenceIds :: KeyOf(r) in KeysOf(c.selected)
  }

  /** For every anchor: all its referrers are selected exactly if those on its origin path come back. */
  lemma FullCardinalityExactly(routed: seq<Ref>, c: Closure, depth: nat, k: nat)
    requires UniqueKeys(routed) && depth > 0 && SearchedExactly(routed, c, true, depth)
    requires k < |c.anchors| && c.anchors[k] !in c.anchors[..k]
    ensures AllReferencing(routed, c, c.anchors[k]) <==>
              forall r <- routed | c.anchors[k] in r.referenceIds && r.path in Origin(routed, c.anchors, k, true) ::
                ComesBack(routed, SearchVisits(routed, c.anchors, true, depth), true, r, c.anchors[k])
  {
    forall r <- routed | c.anchors[k] in r.referenceIds
      ensures KeyOf(r) in KeysOf(c.selected) <==>
                || r.path !in Origin(routed, c.anchors, k, true)
                || ComesBack(routed, SearchVisits(routed, c.anchors, true, depth), true, r, c.anchors[k])
    {
      AnchorReferenceExactly(routed, c, depth, k, r);
    }
  }

  /** An anchor that no record related to an earlier anchor references, so always the first one, keeps all its referrers. */
  lemma UnreferredAnchorKeepsAll(routed: seq<Ref>, c: Closure, depth: nat, k: nat)
    requires UniqueKeys(routed) && depth > 0 && SearchedExactly(routed, c, true, depth)
    requires k < |c.anchors| && c.anchors[k] !in c.anchors[..k] && NotReferredBefore(routed, c.anchors, k)
    ensures AllReferencing(routed, c, c.anchors[k])
  {
    NoOrigin(routed, c.anchors, k, true);
    FullCardinalityExactly(routed, c, depth, k);
  }

  // ---- A later anchor can lose a record ----

  /** Two records of one file: the first is `a` and references `b`, the second references `b` only. */
  function LosingRecords(path: string, s1: string, s2: string, a: string, b: string): seq<Ref> {
    [Ref(path, s1, CanonicalRef, a, "", [b], "f1", None, "", {}, 0, []),
     Ref(path, s2, LocatorRef, "", "", [b], "f2", None, "", {}, 0, [])]
  }

  /** All found referrers of x lie on one path, and one of them is found. */
  lemma OneOrigin(routed: seq<Ref>, visits: seq<Visit>, full: bool, x: string, r: Ref)
    requires x != "" && FoundBySome(routed, visits, full, r) && x in r.referenceIds && forall q <- routed :: q.path == r.path
    ensures FirstReferrer(FoundAll(routed, visits, full), x) == {r.path}
  {
    var found := FoundAll(routed, visits, full);
    FoundAllExact(routed, visits, full, r);
    FirstReferrerExact(found, x);
    var p :| p in FirstReferrer(found, x);
    var q :| q in found && q.path == p && x in q.referenceIds;
    FoundIsRouted(routed, visits, full, q);
  }

  lemma SharedOrigin(routed: seq<Ref>, a: string, b: string, r: Ref)
    requires a != b && b != "" && r in routed && HasId(r, a) && b in r.referenceIds
    requires forall q <- routed :: q.path == r.path && (q != r ==> !HasId(q, a))
    ensures Origin(routed, [a, b], 1, true) == {r.path}
  {
    var round := RoundVisits(routed, [a], {}, [], true);
    assert [a, b][..1] == [a];
    RoundIds(routed, [a], {}, [], true);
    assert a in IdsOf(round);
    var v :| v in round && v.id == a;
    FirstIsFound(routed, v, r);
    OneOrigin(routed, round, true, b, r);
  }

  lemma LosingOrigin(path: string, s1: string, s2: string, a: string, b: string)
    requires a != "" && b != "" && a != b
    ensures Origin(LosingRecords(path, s1, s2, a, b), [a, b], 1, true) == {path}
  {
    SharedOrigin(LosingRecords(path, s1, s2, a, b), a, b, LosingRecords(path, s1, s2, a, b)[0]);
  }

  /** The only record with an id is found when that id is visited. */
  lemma FirstIsFound(routed: seq<Ref>, v: Visit, r: Ref)
    requires r in routed && HasId(r, v.id) && forall q <- routed | q != r :: !HasId(q, v.id)
    ensures r in Found(routed, v, true)
  {
    var matches := Candidates(routed, v.id, SameId, {});
    CandidatesExact(routed, v.id, SameId, {});
    SortElements(matches);
    HeadsExact(SortByKey(matches));
    assert HasPath(SortByKey(matches), r.path);
    var q :| q in Heads(SortByKey(matches)) && q.path == r.path;
    assert q == r;
    FoundExact(routed, v, true, r);
  }

  /**
   In full cardinality at every depth: the search for the anchors a and b never selects the second record, although it
   references b.
   */
  lemma LaterAnchorLosesRecord(path: string, s1: string, s2: string, a: string, b: string, c: Closure, depth: nat)
    requires a != "" && b != "" && a != b && s1 != s2 && depth > 0
    requires c.anchors == [a, b] && SearchedExactly(LosingRecords(path, s1, s2, a, b), c, true, depth)
    ensures (path, s2) !in KeysOf(c.selected) && !AllReferencing(LosingRecords(path, s1, s2, a, b), c, b)
  {
    var routed := LosingRecords(path, s1, s2, a, b);
    var visits := SearchVisits(routed, [a, b], true, depth);
    var r := routed[1];
    assert [a, b][..1] == [a] && r in routed && KeyOf(r) == (path, s2) && b in r.referenceIds;
    LosingOrigin(path, s1, s2, a, b);
    AnchorReferenceExactly(routed, c, depth, 1, r);
    VisitsAreKnown(routed, [a, b], true, depth);
    LosingIsLost(path, s1, s2, a, b, visits);
  }

  lemma LosingIsLost(path: string, s1: string, s2: string, a: string, b: string, visits: seq<Visit>)
    requires a != "" && b != "" && forall v <- visits :: Known(LosingRecords(path, s1, s2, a, b), [a, b], v.id)
    ensures !ComesBack(LosingRecords(path, s1, s2, a, b), visits, true, LosingRecords(path, s1, s2, a, b)[1], b)
  {
    var routed := LosingRecords(path, s1, s2, a, b);
    forall v <- visits
      ensures routed[1] !in FoundAs(routed, v, SameId, true) && (v.id != b ==> routed[1] !in FoundAs(routed, v, Reference, true))
    {
      FoundAsExact(routed, v, SameId, true);
      FoundAsExact(routed, v, Reference, true);
    }
  }

  // ---- Which record represents a file ----

  /** A visit of r's path: r is the smallest match in one of the two ways, or in full cardinality any referrer. */
  predicate Represents(routed: seq<Ref>, v: Visit, r: Ref, full: bool) {
    || IsFirstMatch(routed, r, v.id, SameId, {})
    || (if full then v.id in r.referenceIds && r.path !in v.skip else IsFirstMatch(routed, r, v.id, Reference, v.skip))
  }

  /** A routed record is selected exactly if for some visited id it is the match with the smallest selector on its path, or in full cardinality a referrer off the origin path. */
  lemma SelectedRepresentatives(routed: seq<Ref>, c: Closure, full: bool, depth: nat, r: Ref)
    requires UniqueKeys(routed) && SearchedExactly(routed, c, full, depth) && r in routed
    ensures KeyOf(r) in KeysOf(c.selected) <==> exists v <- SearchVisits(routed, c.anchors, full, depth) :: Represents(routed, v, r, full)
  {
    SelectedExactly(routed, c, full, depth, r);
    forall v ensures r in Found(routed, v, full) <==> Represents(routed, v, r, full) {
      FoundExact(routed, v, full, r);
      FoundAsExactly(routed, v, SameId, full, r);
      FoundAsExactly(routed, v, Reference, full, r);
    }
  }

  // ---- Marks and anchors ----

  /** A marked copy carries the reason of its kind, its own reasons, and at least the score of its kind; nothing else changes. */
  lemma MarkedExactly(r: Ref, kind: LinkKind)
    ensures var m := Marked(r, kind);
            && SameRecord(m, r)
            && (kind == SameId ==> RelationshipSameId in m.reasons && m.score >= 950 && (m.score == r.score || m.score == 950))
            && (kind == Reference ==> RelationshipReference in m.reasons && m.score >= 900 && (m.score == r.score || m.score == 900))
            && (forall reason :: reason in m.reasons <==>
                  reason in r.reasons || reason == if kind == SameId then RelationshipSameId else RelationshipReference)
            && r.score <= m.score && |m.reasons| <= |r.reasons| + 1
  {}

  /** An anchor is a canonical record whose canonical or structural id the request names, explicitly or literally, or an exact hit. */
  lemma IsAnchorExactly(r: Ref, explicit: set<string>, literal: string -> bool)
    ensures IsAnchor(r, explicit, literal) <==>
              && r.canonicalId != ""
              && ((exists id :: id != "" && (id == r.canonicalId || id == r.structuralId) && (id in explicit || literal(id)))
                  || exists reason <- r.reasons :: reason in {ExplicitId, ExplicitEndpoint})
  {
    if r.structuralId != "" && (r.structuralId in explicit || literal(r.structuralId)) {
      assert IsAnchor(r, explicit, literal) == (r.canonicalId != "");
    }
  }
}
