/** One refresh of a task's context: closure, selection, priority order and decision, and what SUFFICIENT then says about the past. */
module ContextRefresh {
  import opened Basics
  import opened AuthorityRefs
  import opened ContextProjection
  import ContextHistory
  import RelationshipRounds
  import RelationshipClosure
  import AuthoritySelection

  /** What the index and the route map give a query: scored and routed records, the routed paths, groups and domains. */
  datatype Candidates = Candidates(scored: seq<Ref>, routed: seq<Ref>, paths: set<string>, groups: seq<string>, domains: set<string>)

  /** What the request asks for. */
  datatype Request = Request(explicit: set<string>, literal: string -> bool, full: bool, limit: nat, perGroup: nat, perDomain: nat)

  /** Indexed records have a selector and are no file references. */
  predicate AreRecords(refs: seq<Ref>) {
    forall r <- refs :: !r.kind.RoutedFileRef? && r.selector != ""
  }

  lemma SelectedAreRecords(routed: seq<Ref>, c: RelationshipClosure.Closure, full: bool, depth: nat)
    requires AreRecords(routed) && RelationshipClosure.ClosureOk(routed, c, full, depth)
    ensures AreRecords(c.selected)
  {
    forall s <- c.selected ensures !s.kind.RoutedFileRef? && s.selector != "" {
      var i :| 0 <= i < |c.selected| && c.selected[i] == s;
      assert RelationshipClosure.SelectedOk(routed, c, i, depth);
    }
  }

  lemma CoreAreRecords(scored: seq<Ref>, core: seq<Ref>)
    requires AreRecords(scored) && forall r <- core :: AuthoritySelection.IsCore(scored, r)
    ensures AreRecords(core)
  {
    forall r <- core ensures !r.kind.RoutedFileRef? && r.selector != "" {
      AuthoritySelection.FirstOnPathExact(scored, r.path);
    }
  }

  /** A reference stands for a whole file exactly if it has no selector. */
  predicate FilesHaveNoSelector(refs: seq<Ref>) {
    forall r <- refs :: r.kind.RoutedFileRef? <==> r.selector == ""
  }

  lemma RecordsThenFiles(refs: seq<Ref>, records: nat)
    requires records <= |refs| && AreRecords(refs[..records])
    requires forall i :: records <= i < |refs| ==> refs[i] == AuthoritySelection.FileRef(refs[i].path)
    ensures FilesHaveNoSelector(refs)
  {
    forall r <- refs ensures r.kind.RoutedFileRef? <==> r.selector == "" {
      var i :| 0 <= i < |refs| && refs[i] == r;
      if i < records { assert refs[..records][i] == r; }
    }
  }

  /** The query: anchors, closure, diverse baseline, selection, then the routed paths' first records moved to the front. */
  method RunQuery(cs: Candidates, q: Request, authorities: seq<string>)
    returns (query: Query, c: RelationshipClosure.Closure)
    requires UniqueKeys(cs.routed) && AreRecords(cs.routed) && AreRecords(cs.scored)
    ensures RelationshipClosure.ClosureOk(cs.routed, c, q.full, 2)
    ensures CarriesRelationship(query, c.selected)
    ensures query.anchors == set a <- c.anchors
    ensures forall p <- cs.paths :: AuthoritySelection.HasCandidate(query.refs, p)
  {
    var anchors := RelationshipClosure.FindAnchors(cs.scored, q.explicit, q.literal);
    c := RelationshipClosure.RelationshipSearch(cs.routed, anchors, q.full, 2);
    var baseline := AuthoritySelection.ChooseDiverse(cs.scored, q.limit, cs.groups, cs.paths, cs.domains, q.perGroup, q.perDomain);
    ghost var core;
    var refs, records;
    refs, records, core := AuthoritySelection.SelectRefs(cs.scored, baseline, c.selected, cs.paths, q.limit);
    SelectedAreRecords(cs.routed, c, q.full, 2);
    CoreAreRecords(cs.scored, core);
    RecordsThenFiles(refs, records);
    var ordered := PriorityRefs(refs, authorities);
    PrefixKeys(refs, records);
    CandidatesStay(refs, ordered, cs.paths);
    query := Query(ordered, KeysOf(c.selected), set a <- anchors);
  }

  lemma PrefixKeys(refs: seq<Ref>, n: nat)
    requires n <= |refs|
    ensures KeysOf(refs[..n]) <= KeysOf(refs)
  {
    forall r <- refs[..n] ensures KeyOf(r) in KeysOf(refs) {
      assert r in refs;
    }
  }

  lemma CandidatesStay(refs: seq<Ref>, ordered: seq<Ref>, paths: set<string>)
    requires KeysOf(ordered) == KeysOf(refs) && forall p <- paths :: AuthoritySelection.HasCandidate(refs, p)
    ensures forall p <- paths :: AuthoritySelection.HasCandidate(ordered, p)
  {
    forall p <- paths ensures AuthoritySelection.HasCandidate(ordered, p) {
      var r :| r in refs && r.path == p;
      assert KeyOf(r) in KeysOf(ordered);
      var o :| o in ordered && KeyOf(o) == KeyOf(r);
    }
  }

  /**
   The whole refresh. SUFFICIENT means that every routed path and every record of the relationship closure has a full
   load by this task and consumer that equals the current index record.
   */
  method RefreshContext(reader: Reader, index: Index, history: seq<ContextHistory.Entry>, cs: Candidates, q: Request,
                        authorities: seq<string>, s: Signals)
    returns (f: Refresh, c: RelationshipClosure.Closure)
    requires UniqueKeys(cs.routed) && AreRecords(cs.routed) && AreRecords(cs.scored)
    ensures RelationshipClosure.ClosureOk(cs.routed, c, q.full, 2)
    ensures f.decision == Sufficient ==>
              && f.uncovered == {}
              && (forall p <- authorities :: exists key: AuthorityRefs.Key :: key.0 == p && FullyLoaded(reader, authorities, index, history, key))
              && (forall r <- c.selected :: FullyLoaded(reader, authorities, index, history, KeyOf(r)))
  {
    var query;
    query, c := RunQuery(cs, q, authorities);
    f := EnrichTaskContext(reader, index, history, query, authorities, s);
    if f.decision == Sufficient {
      SufficientIsSound(reader, index, history, query, c.selected, authorities, s, f);
    }
  }

  /** A key that counts as fully loaded was delivered, expanded, by an earlier call of this consumer for that locator. */
  ghost predicate WasDelivered(reader: Reader, authorities: seq<string>, index: Index, calls: seq<ContextHistory.Call>, key: AuthorityRefs.Key) {
    exists item: ContextHistory.Entry, r: Ref, j: nat ::
      && Proves(reader, PathSet(authorities), index, item, r) && KeyOf(r) == key
      && j < |calls| && ContextHistory.Delivered(calls, j) && calls[j].expand
      && calls[j].category == ContextHistory.AuthorityRead && calls[j].key == item.key && item.key.consumer == reader.consumer
  }

  /** With the history that a log of calls leaves: whatever is fully loaded was really delivered with its content. */
  lemma LoadedWasDelivered(reader: Reader, authorities: seq<string>, index: Index, calls: seq<ContextHistory.Call>, key: AuthorityRefs.Key)
    requires FullyLoaded(reader, authorities, index, ContextHistory.After(calls).Bucket(ContextHistory.AuthorityRead), key)
    ensures WasDelivered(reader, authorities, index, calls, key)
  {
    var category := ContextHistory.AuthorityRead;
    var bucket := ContextHistory.After(calls).Bucket(category);
    var item: ContextHistory.Entry, r: Ref :| item in bucket && KeyOf(r) == key
      && Proves(reader, PathSet(authorities), index, item, r) && item.key.consumer == reader.consumer && item.expanded;
    ContextHistory.HistoryInvariant(calls, category);
    assert ContextHistory.DeliveredBefore(calls, |calls|, category, item.key, true);
    var j :| 0 <= j < |calls| && calls[j].category == category && calls[j].key == item.key
             && ContextHistory.Delivered(calls, j) && calls[j].expand;
  }

  /** Over any log of reads: SUFFICIENT means that each routed path and each relationship record was delivered expanded to this consumer. */
  lemma SufficientWasDelivered(reader: Reader, index: Index, calls: seq<ContextHistory.Call>, query: Query, relationship: seq<Ref>,
                               authorities: seq<string>, s: Signals, f: Refresh)
    requires RefreshOk(reader, index, ContextHistory.After(calls).Bucket(ContextHistory.AuthorityRead), query, authorities, s, f)
    requires f.decision == Sufficient && CarriesRelationship(query, relationship)
    ensures forall p <- authorities :: exists key: AuthorityRefs.Key :: key.0 == p && WasDelivered(reader, authorities, index, calls, key)
    ensures forall r <- relationship :: WasDelivered(reader, authorities, index, calls, KeyOf(r))
  {
    var history := ContextHistory.After(calls).Bucket(ContextHistory.AuthorityRead);
    SufficientIsSound(reader, index, history, query, relationship, authorities, s, f);
    forall p <- authorities ensures exists key: AuthorityRefs.Key :: key.0 == p && WasDelivered(reader, authorities, index, calls, key) {
      var key: AuthorityRefs.Key :| key.0 == p && FullyLoaded(reader, authorities, index, history, key);
      LoadedWasDelivered(reader, authorities, index, calls, key);
    }
    forall r <- relationship ensures WasDelivered(reader, authorities, index, calls, KeyOf(r)) {
      LoadedWasDelivered(reader, authorities, index, calls, KeyOf(r));
    }
  }
}
