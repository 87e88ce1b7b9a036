/** Deciding from the read history whether every required authority fact was really loaded and is still current. */
module ContextProjection {
  import opened Basics
  import opened AuthorityRefs
  import opened ContextHistory

  /** Who is reading: the task, the consumer, and whether the task has reached a terminal status. */
  datatype Reader = Reader(taskId: string, consumer: string, terminal: bool)

  /** The current index: locator to record. */
  type Index = map<string, Ref>

  function PathSet(routed: seq<string>): set<string> {
    set p <- routed
  }

  function LocatorOf(path: string, selector: string): string {
    path + "#" + selector
  }

  ghost predicate IndexOk(index: Index) {
    forall l <- index ::
      var r := index[l];
      && l == LocatorOf(r.path, r.selector)
      && r.selector != "" && r.selector[0] == '/' && r.fingerprint != "" && '#' !in r.path
      && !r.kind.RoutedFileRef?
      && (r.kind.CanonicalRef? ==> r.canonicalId != "")
      && (r.kind.StructuralRef? ==> r.structuralId != "")
      && (r.kind.LocatorRef? ==> r.canonicalId == "")
  }

  // ---- Validating the recorded loads ----

  datatype Defect =
    | ConsumerMismatch | TaskNotActive | OwnershipNotVerified | FullLoadNotVerified | SelectorRequired
    | IdentityRequired | FingerprintRequired
    | RecordNotFound | CanonicalChanged | StructuralChanged | LocatorChanged | RecordChanged

  /** What is wrong with an entry by itself. */
  function EntryDefect(reader: Reader, item: Entry): Option<Defect> {
    if item.key.consumer != reader.consumer then Some(ConsumerMismatch)
    else if reader.terminal then Some(TaskNotActive)
    else if reader.taskId == "" || item.evidence.None? || item.evidence.value.taskId != reader.taskId then Some(OwnershipNotVerified)
    else
      var e := item.evidence.value;
      if !item.expanded || !e.fullRecord then Some(FullLoadNotVerified)
      else if item.key.scope == "" || item.key.scope[0] != '/' then Some(SelectorRequired)
      else if e.kind.OtherKind? then Some(IdentityRequired)
      else if !e.kind.LocatorOnly? && e.canonicalId == "" && e.structuralId == "" then Some(IdentityRequired)
      else if e.fingerprint == "" then Some(FingerprintRequired)
      else None
  }

  /** What is wrong with its evidence against the current index. */
  function CurrentDefect(e: Evidence, current: Option<Ref>): Option<Defect> {
    if current.None? then Some(RecordNotFound)
    else
      var r := current.value;
      if e.canonicalId != "" && r.canonicalId != e.canonicalId then Some(CanonicalChanged)
      else if e.kind.Structural? && r.structuralId != e.structuralId then Some(StructuralChanged)
      else if e.kind.LocatorOnly? && !r.kind.LocatorRef? then Some(LocatorChanged)
      else if r.fingerprint != e.fingerprint then Some(RecordChanged)
      else None
  }

  function CurrentRef(index: Index, item: Entry): Option<Ref> {
    var l := LocatorOf(item.key.locator, item.key.scope);
    if l in index then Some(index[l]) else None
  }

  /** The first defect that is found. */
  function DefectOf(reader: Reader, index: Index, item: Entry): Option<Defect> {
    if EntryDefect(reader, item).Some? then EntryDefect(reader, item)
    else CurrentDefect(item.evidence.value, CurrentRef(index, item))
  }

  function Rejection(reader: Reader, index: Index, item: Entry): (string, string, Defect)
    requires DefectOf(reader, index, item).Some?
  {
    (item.key.locator, item.key.scope, DefectOf(reader, index, item).value)
  }

  predicate Rejected(reader: Reader, routed: set<string>, index: Index, history: seq<Entry>, x: (string, string, Defect)) {
    exists item <- history ::
      item.key.locator in routed && DefectOf(reader, index, item).Some? && x == Rejection(reader, index, item)
  }

  /** This entry is a full load of `r` by this reader, and `r` is the record the index has now. */
  predicate Proves(reader: Reader, routed: set<string>, index: Index, item: Entry, r: Ref) {
    && item.key.locator in routed
    && EntryDefect(reader, item).None?
    && CurrentRef(index, item) == Some(r)
    && CurrentDefect(item.evidence.value, Some(r)).None?
  }

  predicate Loaded(reader: Reader, routed: set<string>, index: Index, history: seq<Entry>, key: AuthorityRefs.Key) {
    exists item <- history :: CurrentRef(index, item).Some? && KeyOf(CurrentRef(index, item).value) == key
                              && Proves(reader, routed, index, item, CurrentRef(index, item).value)
  }

  /** The validated references are exactly the loaded records, each once. */
  ghost predicate Validated(reader: Reader, routed: set<string>, index: Index, history: seq<Entry>, valid: seq<Ref>) {
    && AuthorityRefs.UniqueKeys(valid)
    && (forall r <- valid :: exists item <- history :: Proves(reader, routed, index, item, r))
    && (forall key :: Loaded(reader, routed, index, history, key) <==> key in KeysOf(valid))
  }

  /** The entries of routed paths: those without a defect of their own, and the rejected others. */
  ghost predicate Sifted(reader: Reader, routed: set<string>, index: Index, history: seq<Entry>, n: nat,
                         candidates: seq<Entry>, invalid: seq<(string, string, Defect)>)
    requires n <= |history|
  {
    && (forall c <- candidates :: c in history && c.key.locator in routed && EntryDefect(reader, c).None?)
    && (forall j :: 0 <= j < n && history[j].key.locator in routed ==>
          if EntryDefect(reader, history[j]).None? then history[j] in candidates
          else Rejection(reader, index, history[j]) in invalid)
    && (forall x <- invalid :: Rejected(reader, routed, index, history, x))
  }

  method SiftEntries(reader: Reader, routed: set<string>, ghost index: Index, history: seq<Entry>)
    returns (candidates: seq<Entry>, invalid: seq<(string, string, Defect)>)
    ensures Sifted(reader, routed, index, history, |history|, candidates, invalid)
  {
    candidates, invalid := [], [];
    for i := 0 to |history|
      invariant Sifted(reader, routed, index, history, i, candidates, invalid)
    {
      var item := history[i];
      if item.key.locator in routed {
        var defect := EntryDefect(reader, item);
        if defect.Some? {
          invalid := invalid + [(item.key.locator, item.key.scope, defect.value)];
          assert invalid[|invalid| - 1] == Rejection(reader, index, item);
        } else {
          candidates := candidates + [item];
          assert candidates[|candidates| - 1] == item;
        }
      }
    }
  }

  /** The first n candidates are checked against the index. */
  ghost predicate Checked(reader: Reader, routed: set<string>, index: Index, history: seq<Entry>, candidates: seq<Entry>, n: nat,
                          valid: seq<Ref>, invalid: seq<(string, string, Defect)>)
    requires n <= |candidates|
  {
    && AuthorityRefs.UniqueKeys(valid)
    && (forall r <- valid :: exists item <- history :: Proves(reader, routed, index, item, r))
    && (forall j :: 0 <= j < n ==> forall r | Proves(reader, routed, index, candidates[j], r) :: KeyOf(r) in KeysOf(valid))
    && (forall j :: 0 <= j < n && DefectOf(reader, index, candidates[j]).Some? ==> Rejection(reader, index, candidates[j]) in invalid)
    && (forall x <- invalid :: Rejected(reader, routed, index, history, x))
  }

  method CheckCandidates(reader: Reader, ghost routed: set<string>, index: Index, ghost history: seq<Entry>, candidates: seq<Entry>,
                         early: seq<(string, string, Defect)>)
    returns (valid: seq<Ref>, invalid: seq<(string, string, Defect)>)
    requires forall c <- candidates :: c in history && c.key.locator in routed && EntryDefect(reader, c).None?
    requires forall x <- early :: Rejected(reader, routed, index, history, x)
    ensures Checked(reader, routed, index, history, candidates, |candidates|, valid, invalid) && early <= invalid
  {
    valid, invalid := [], early;
    for i := 0 to |candidates|
      invariant Checked(reader, routed, index, history, candidates, i, valid, invalid) && early <= invalid
    {
      var item := candidates[i];
      assert item in candidates;
      var current := CurrentRef(index, item);
      var defect := CurrentDefect(item.evidence.value, current);
      if defect.Some? {
        invalid := invalid + [(item.key.locator, item.key.scope, defect.value)];
        assert invalid[|invalid| - 1] == Rejection(reader, index, item);
      } else if KeyOf(current.value) !in KeysOf(valid) {
        valid := AddValid(valid, current.value);
        assert Proves(reader, routed, index, item, current.value);
      }
    }
  }

  lemma CheckedIsValidated(reader: Reader, routed: set<string>, index: Index, history: seq<Entry>, candidates: seq<Entry>,
                           early: seq<(string, string, Defect)>, valid: seq<Ref>, invalid: seq<(string, string, Defect)>)
    requires Sifted(reader, routed, index, history, |history|, candidates, early) && early <= invalid
    requires Checked(reader, routed, index, history, candidates, |candidates|, valid, invalid)
    ensures Validated(reader, routed, index, history, valid)
  {
    forall key ensures Loaded(reader, routed, index, history, key) <==> key in KeysOf(valid) {
      if Loaded(reader, routed, index, history, key) {
        var item :| item in history && CurrentRef(index, item).Some? && KeyOf(CurrentRef(index, item).value) == key
                    && Proves(reader, routed, index, item, CurrentRef(index, item).value);
        var h :| 0 <= h < |history| && history[h] == item;
        var j :| 0 <= j < |candidates| && candidates[j] == item;
      }
      if key in KeysOf(valid) {
        var r :| r in valid && KeyOf(r) == key;
        var item :| item in history && Proves(reader, routed, index, item, r);
      }
    }
  }

  method ValidatedEvidence(reader: Reader, routed: set<string>, index: Index, history: seq<Entry>)
    returns (valid: seq<Ref>, invalid: seq<(string, string, Defect)>)
    ensures Validated(reader, routed, index, history, valid)
    ensures forall item <- history | item.key.locator in routed && DefectOf(reader, index, item).Some? ::
              Rejection(reader, index, item) in invalid
    ensures forall x <- invalid :: Rejected(reader, routed, index, history, x)
  {
    var candidates, early := SiftEntries(reader, routed, index, history);
    valid, invalid := CheckCandidates(reader, routed, index, history, candidates, early);
    CheckedIsValidated(reader, routed, index, history, candidates, early, valid, invalid);
    forall item <- history | item.key.locator in routed && DefectOf(reader, index, item).Some?
      ensures Rejection(reader, index, item) in invalid
    {
      var h :| 0 <= h < |history| && history[h] == item;
      if EntryDefect(reader, item).Some? {
        assert Rejection(reader, index, item) in early;
      } else {
        var j :| 0 <= j < |candidates| && candidates[j] == item;
      }
    }
  }

  method AddValid(valid: seq<Ref>, r: Ref) returns (longer: seq<Ref>)
    requires AuthorityRefs.UniqueKeys(valid) && KeyOf(r) !in KeysOf(valid)
    ensures longer == valid + [r] && AuthorityRefs.UniqueKeys(longer)
    ensures KeysOf(longer) == KeysOf(valid) + {KeyOf(r)}
  {
    longer := valid + [r];
    forall v <- valid ensures KeyOf(v) != KeyOf(r) && v in longer {
      assert KeyOf(v) in KeysOf(valid);
    }
    assert r in longer;
  }

  // ---- Required references ----

  /** What the query projected: its references, the relationship candidates and the anchors. */
  datatype Query = Query(refs: seq<Ref>, candidates: set<AuthorityRefs.Key>, anchors: set<string>)

  predicate IsPrecise(r: Ref) {
    !r.kind.RoutedFileRef? && r.selector != ""
  }

  function Precise(refs: seq<Ref>): (p: seq<Ref>)
    ensures forall r :: r in p <==> r in refs && IsPrecise(r)
  {
    if refs == [] then []
    else
      assert refs == refs[..|refs| - 1] + [refs[|refs| - 1]];
      Precise(refs[..|refs| - 1]) + if IsPrecise(refs[|refs| - 1]) then [refs[|refs| - 1]] else []
  }

  function FirstOn(refs: seq<Ref>, path: string): Option<Ref> {
    if refs == [] then None
    else if refs[0].path == path then Some(refs[0])
    else FirstOn(refs[1..], path)
  }

  lemma {:induction false} FirstOnExact(refs: seq<Ref>, path: string)
    ensures FirstOn(refs, path).Some? ==> FirstOn(refs, path).value in refs && FirstOn(refs, path).value.path == path
    ensures FirstOn(refs, path).None? <==> forall r <- refs :: r.path != path
  {
    if refs != [] {
      FirstOnExact(refs[1..], path);
      assert refs == [refs[0]] + refs[1..];
    }
  }

  lemma {:induction false} FirstOnConcat(a: seq<Ref>, b: seq<Ref>, path: string)
    ensures FirstOn(a + b, path) == if FirstOn(a, path).Some? then FirstOn(a, path) else FirstOn(b, path)
  {
    if a == [] {
      assert a + b == b;
    } else {
      assert (a + b)[1..] == a[1..] + b;
      FirstOnConcat(a[1..], b, path);
    }
  }

  /** Nothing was added that would change which record comes first on a path. */
  ghost predicate LedBy(ordered: seq<Ref>, refs: seq<Ref>) {
    forall p: string :: FirstOn(ordered, p).Some? ==> FirstOn(ordered, p) == FirstOn(refs, p)
  }

  lemma LedByGrows(ordered: seq<Ref>, refs: seq<Ref>, r: Ref)
    requires LedBy(ordered, refs) && (FirstOn(ordered, r.path).Some? || FirstOn(refs, r.path) == Some(r))
    ensures LedBy(ordered + [r], refs)
    ensures forall p :: FirstOn(ordered, p).Some? ==> FirstOn(ordered + [r], p).Some?
    ensures FirstOn(ordered + [r], r.path).Some?
  {
    forall p ensures FirstOn(ordered + [r], p) ==
                     if FirstOn(ordered, p).Some? then FirstOn(ordered, p) else if p == r.path then Some(r) else None {
      FirstOnConcat(ordered, [r], p);
      assert [r][1..] == [];
    }
  }

  /** Moves the first record of every routed path to the front; drops nothing and changes no path's first record. */
  method PriorityRefs(refs: seq<Ref>, routed: seq<string>) returns (ordered: seq<Ref>)
    ensures AuthorityRefs.UniqueKeys(ordered) && KeysOf(ordered) == KeysOf(refs)
    ensures forall r <- ordered :: r in refs
    ensures forall p :: FirstOn(ordered, p) == FirstOn(refs, p)
  {
    ordered := [];
    for i := 0 to |routed|
      invariant AuthorityRefs.UniqueKeys(ordered) && (forall r <- ordered :: r in refs) && LedBy(ordered, refs)
    {
      FirstOnExact(refs, routed[i]);
      var first := FirstOn(refs, routed[i]);
      if first.Some? && KeyOf(first.value) !in KeysOf(ordered) {
        LedByGrows(ordered, refs, first.value);
        ordered := AddValid(ordered, first.value);
      }
    }
    for i := 0 to |refs|
      invariant AuthorityRefs.UniqueKeys(ordered) && (forall r <- ordered :: r in refs) && LedBy(ordered, refs)
      invariant forall j :: 0 <= j < i ==> KeyOf(refs[j]) in KeysOf(ordered)
    {
      if KeyOf(refs[i]) !in KeysOf(ordered) {
        FirstOfRest(ordered, refs, i);
        LedByGrows(ordered, refs, refs[i]);
        ordered := AddValid(ordered, refs[i]);
      }
    }
    forall p ensures FirstOn(ordered, p) == FirstOn(refs, p) {
      FirstOnExact(ordered, p);
      FirstOnExact(refs, p);
      if FirstOn(refs, p).Some? {
        assert KeyOf(FirstOn(refs, p).value) in KeysOf(ordered);
      }
    }
  }

  lemma FirstOfRest(ordered: seq<Ref>, refs: seq<Ref>, i: nat)
    requires i < |refs| && forall j :: 0 <= j < i ==> KeyOf(refs[j]) in KeysOf(ordered)
    ensures FirstOn(ordered, refs[i].path).Some? || FirstOn(refs, refs[i].path) == Some(refs[i])
  {
    FirstOnExact(ordered, refs[i].path);
    FirstOnExact(refs[..i], refs[i].path);
    FirstOnConcat(refs[..i], refs[i..], refs[i].path);
    assert refs == refs[..i] + refs[i..];
  }

  /** The record that has to cover a routed path: the first projected one, else the first loaded one. */
  function CoreRef(query: Query, loaded: seq<Ref>, path: string): Option<Ref> {
    if FirstOn(Precise(query.refs), path).Some? then FirstOn(Precise(query.refs), path) else FirstOn(loaded, path)
  }

  /** A record that must be loaded for its own sake: a relationship candidate, an anchor or an exact hit. */
  predicate RequiredItself(query: Query, r: Ref) {
    || KeyOf(r) in query.candidates
    || r.canonicalId in query.anchors
    || IsExplicit(r)
    || RelationshipSameId in r.reasons || RelationshipReference in r.reasons
  }

  /** by_key: the projected record wins over a loaded one with the same key. */
  predicate Available(query: Query, loaded: seq<Ref>, r: Ref) {
    r in Precise(query.refs) || (r in loaded && KeyOf(r) !in KeysOf(Precise(query.refs)))
  }

  ghost predicate IsRequired(query: Query, loaded: seq<Ref>, routed: seq<string>, key: AuthorityRefs.Key) {
    || (exists r :: Available(query, loaded, r) && RequiredItself(query, r) && KeyOf(r) == key)
    || (exists p <- routed :: CoreRef(query, loaded, p).Some? && KeyOf(CoreRef(query, loaded, p).value) == key)
  }

  datatype Coverage = Coverage(required: set<AuthorityRefs.Key>, missingCore: set<string>, loadedCore: set<string>)

  ghost predicate CoverageOk(query: Query, loaded: seq<Ref>, routed: seq<string>, c: Coverage) {
    && (forall key :: key in c.required <==> IsRequired(query, loaded, routed, key))
    && (forall p :: p in c.missingCore <==> p in routed && CoreRef(query, loaded, p).None?)
    && (forall p :: p in c.loadedCore <==>
          p in routed && CoreRef(query, loaded, p).Some? && KeyOf(CoreRef(query, loaded, p).value) in KeysOf(loaded))
  }

  method RequiredAuthorityRefs(query: Query, loaded: seq<Ref>, routed: seq<string>) returns (c: Coverage)
    ensures CoverageOk(query, loaded, routed, c)
  {
    var projected := Precise(query.refs);
    var own := (set r <- projected | RequiredItself(query, r) :: KeyOf(r))
             + (set r <- loaded | KeyOf(r) !in KeysOf(projected) && RequiredItself(query, r) :: KeyOf(r));
    var core: set<AuthorityRefs.Key>, missing: set<string>, covered: set<string> := {}, {}, {};
    for i := 0 to |routed|
      invariant forall key :: key in core <==> exists j :: 0 <= j < i && CoreRef(query, loaded, routed[j]).Some?
                                                           && KeyOf(CoreRef(query, loaded, routed[j]).value) == key
      invariant forall p :: p in missing <==> p in routed[..i] && CoreRef(query, loaded, p).None?
      invariant forall p :: p in covered <==>
                  p in routed[..i] && CoreRef(query, loaded, p).Some? && KeyOf(CoreRef(query, loaded, p).value) in KeysOf(loaded)
    {
      assert routed[..i + 1] == routed[..i] + [routed[i]];
      var candidate := CoreRef(query, loaded, routed[i]);
      if candidate.None? {
        missing := missing + {routed[i]};
      } else {
        core := core + {KeyOf(candidate.value)};
        if KeyOf(candidate.value) in KeysOf(loaded) {
          covered := covered + {routed[i]};
        }
      }
    }
    assert routed[..|routed|] == routed;
    c := Coverage(own + core, missing, covered);
  }

  // ---- The decision ----

  datatype IndexStatus = IndexReady | IndexPartial | IndexMissing | IndexStale | IndexInvalid
  datatype QueryStatus = QueryReady | QueryPartial | QueryTruncated | QueryOther
  datatype Decision = Sufficient | ExpansionRequired | Unavailable

  /** The remaining facts the decision reads. */
  datatype Signals = Signals(
    index: IndexStatus, query: QueryStatus, unrepresented: bool, relationshipComplete: bool,
    previewIncomplete: bool, sourcesUnavailable: bool)

  function Decide(s: Signals, query: Query, routed: seq<string>, c: Coverage, missing: set<AuthorityRefs.Key>): Decision {
    var relationshipIncomplete := query.anchors != {} && !s.relationshipComplete;
    var coreIncomplete := c.missingCore != {};
    var notLoaded := missing != {} || (routed != [] && !s.index.IndexReady?);
    var previewIncomplete := s.previewIncomplete && (notLoaded || c.required == {});
    if s.sourcesUnavailable then Unavailable
    else if !s.index.IndexReady? || s.query.QueryPartial?
            || (s.query.QueryTruncated? && (coreIncomplete || notLoaded || relationshipIncomplete))
            || s.unrepresented || relationshipIncomplete || coreIncomplete || notLoaded || previewIncomplete
    then ExpansionRequired
    else Sufficient
  }

  datatype Refresh = Refresh(decision: Decision, loaded: seq<Ref>, coverage: Coverage,
                             missing: set<AuthorityRefs.Key>, uncovered: set<string>)

  ghost predicate RefreshOk(reader: Reader, index: Index, history: seq<Entry>, query: Query, routed: seq<string>,
                            s: Signals, f: Refresh) {
    && (if s.index.IndexReady? then Validated(reader, PathSet(routed), index, history, f.loaded) else f.loaded == [])
    && CoverageOk(query, f.loaded, routed, f.coverage)
    && f.missing == f.coverage.required - KeysOf(f.loaded)
    && f.uncovered == PathSet(routed) - f.coverage.loadedCore
    && f.decision == Decide(s, query, routed, f.coverage, f.missing)
  }

  method EnrichTaskContext(reader: Reader, index: Index, history: seq<Entry>, query: Query, routed: seq<string>, s: Signals)
    returns (f: Refresh)
    ensures RefreshOk(reader, index, history, query, routed, s, f)
  {
    var paths := PathSet(routed);
    var loaded: seq<Ref> := [];
    if s.index.IndexReady? {
      var invalid;
      loaded, invalid := ValidatedEvidence(reader, paths, index, history);
    }
    var coverage := RequiredAuthorityRefs(query, loaded, routed);
    var missing := coverage.required - KeysOf(loaded);
    f := Refresh(Decide(s, query, routed, coverage, missing), loaded, coverage, missing, paths - coverage.loadedCore);
  }

  /** Some record with this path is projected precisely or proved loaded. */
  predicate HasRecord(query: Query, loaded: seq<Ref>, path: string) {
    || (exists r <- query.refs :: r.path == path && !r.kind.RoutedFileRef? && r.selector != "")
    || (exists r <- loaded :: r.path == path)
  }

  lemma CoreRefExists(query: Query, loaded: seq<Ref>, path: string)
    ensures CoreRef(query, loaded, path).Some? <==> HasRecord(query, loaded, path)
  {
    FirstOnExact(Precise(query.refs), path);
    FirstOnExact(loaded, path);
  }

  lemma NothingMissing(required: set<AuthorityRefs.Key>, loaded: set<AuthorityRefs.Key>)
    ensures required - loaded == {} <==> forall key <- required :: key in loaded
  {
    if required - loaded == {} {
      forall key <- required ensures key in loaded {
        assert key !in required - loaded;
      }
    }
  }

  /**
   Exactly when a refresh decides what. A truncated query and a truncated preview do not count once every required record
   is loaded; a preview counts while nothing is required.
   */
  lemma DecisionExactly(reader: Reader, index: Index, history: seq<Entry>, query: Query, routed: seq<string>, s: Signals, f: Refresh)
    requires RefreshOk(reader, index, history, query, routed, s, f)
    ensures f.decision == Unavailable <==> s.sourcesUnavailable
    ensures f.decision == Sufficient <==>
              && !s.sourcesUnavailable && s.index == IndexReady && s.query != QueryPartial && !s.unrepresented
              && (query.anchors == {} || s.relationshipComplete)
              && (forall p <- routed :: HasRecord(query, f.loaded, p))
              && (forall key | IsRequired(query, f.loaded, routed, key) :: key in KeysOf(f.loaded))
              && (s.previewIncomplete ==> exists key :: IsRequired(query, f.loaded, routed, key))
  {
    forall p ensures p in f.coverage.missingCore <==> p in routed && !HasRecord(query, f.loaded, p) {
      CoreRefExists(query, f.loaded, p);
    }
    assert f.coverage.missingCore == {} <==> forall p <- routed :: p !in f.coverage.missingCore;
    NothingMissing(f.coverage.required, KeysOf(f.loaded));
    assert f.coverage.required == {} <==> !exists key :: key in f.coverage.required;
  }

  // ---- CONTEXT_SUFFICIENT is sound ----

  /** This task and consumer loaded the full record at `key`, and identity and fingerprint equal the current index record. */
  ghost predicate FullyLoaded(reader: Reader, routed: seq<string>, index: Index, history: seq<Entry>, key: AuthorityRefs.Key) {
    exists item: Entry, r: Ref ::
      && item in history && KeyOf(r) == key
      && Proves(reader, PathSet(routed), index, item, r)
      && item.key.consumer == reader.consumer && !reader.terminal
      && item.expanded && item.evidence.Some?
      && item.evidence.value.taskId == reader.taskId && item.evidence.value.fullRecord
      && item.evidence.value.fingerprint == r.fingerprint
      && (item.evidence.value.canonicalId != "" ==> item.evidence.value.canonicalId == r.canonicalId)
  }

  lemma LoadedIsFull(reader: Reader, routed: seq<string>, index: Index, history: seq<Entry>, loaded: seq<Ref>, key: AuthorityRefs.Key)
    requires Validated(reader, PathSet(routed), index, history, loaded) && key in KeysOf(loaded)
    ensures FullyLoaded(reader, routed, index, history, key)
  {
    var r :| r in loaded && KeyOf(r) == key;
    var item :| item in history && Proves(reader, PathSet(routed), index, item, r);
  }

  /** Every projected record with the key of a relationship record is a precise one. */
  ghost predicate CarriesRelationship(query: Query, relationship: seq<Ref>) {
    && query.candidates == KeysOf(relationship)
    && (forall r <- query.refs :: r.kind.RoutedFileRef? <==> r.selector == "")
    && (forall r <- relationship :: r.selector != "" && KeyOf(r) in KeysOf(query.refs))
  }

  /**
   When the decision is SUFFICIENT, every routed path and every record of the relationship closure has a full load
   by this task and consumer that equals the current index record, and no routed path is reported uncovered.
   */
  lemma SufficientIsSound(reader: Reader, index: Index, history: seq<Entry>, query: Query, relationship: seq<Ref>,
                          routed: seq<string>, s: Signals, f: Refresh)
    requires RefreshOk(reader, index, history, query, routed, s, f) && f.decision == Sufficient
    requires CarriesRelationship(query, relationship)
    ensures f.uncovered == {}
    ensures forall p <- routed :: exists key: AuthorityRefs.Key :: key.0 == p && FullyLoaded(reader, routed, index, history, key)
    ensures forall r <- relationship :: FullyLoaded(reader, routed, index, history, KeyOf(r))
  {
    forall p <- routed
      ensures p in f.coverage.loadedCore
      ensures exists key: AuthorityRefs.Key :: key.0 == p && FullyLoaded(reader, routed, index, history, key)
    {
      assert p !in f.coverage.missingCore;
      var core := CoreRef(query, f.loaded, p).value;
      FirstOnExact(Precise(query.refs), p);
      FirstOnExact(f.loaded, p);
      assert IsRequired(query, f.loaded, routed, KeyOf(core));
      assert KeyOf(core) in f.coverage.required && KeyOf(core) !in f.missing;
      LoadedIsFull(reader, routed, index, history, f.loaded, KeyOf(core));
    }
    forall r <- relationship ensures FullyLoaded(reader, routed, index, history, KeyOf(r)) {
      var q :| q in query.refs && KeyOf(q) == KeyOf(r);
      assert q in Precise(query.refs);
      assert Available(query, f.loaded, q) && RequiredItself(query, q);
      assert KeyOf(r) in f.coverage.required && KeyOf(r) !in f.missing;
      LoadedIsFull(reader, routed, index, history, f.loaded, KeyOf(r));
    }
  }

  // ---- Loading makes progress ----

  /** With all that was missing loaded as well, nothing required is missing, although the required set is recomputed. */
  lemma MoreLoadsLeaveNothingMissing(query: Query, routed: seq<string>, before: seq<Ref>, after: seq<Ref>, key: AuthorityRefs.Key)
    requires KeysOf(before) <= KeysOf(after)
    requires forall k | IsRequired(query, before, routed, k) :: k in KeysOf(after)
    requires IsRequired(query, after, routed, key)
    ensures key in KeysOf(after)
  {
    if r :| Available(query, after, r) && RequiredItself(query, r) && KeyOf(r) == key {
      if r in Precise(query.refs) {
        assert Available(query, before, r);
        assert IsRequired(query, before, routed, key);
      }
    } else {
      var p :| p in routed && CoreRef(query, after, p).Some? && KeyOf(CoreRef(query, after, p).value) == key;
      FirstOnExact(after, p);
      if FirstOn(Precise(query.refs), p).Some? {
        assert IsRequired(query, before, routed, key);
      }
    }
  }

  /** The evidence stored for a full load of a record. */
  function EvidenceFor(r: Ref, taskId: string): Evidence {
    Evidence(taskId, true,
             match r.kind case CanonicalRef => Canonical case StructuralRef => Structural case LocatorRef => LocatorOnly case _ => OtherKind,
             r.canonicalId, r.structuralId, r.fingerprint)
  }

  function LoadCall(reader: Reader, r: Ref, digest: string, force: bool): Call {
    Call(AuthorityRead, ContextHistory.Key(reader.consumer, r.path, r.selector, digest), true, force, Some(EvidenceFor(r, reader.taskId)))
  }

  /** Loading records one after the other; `digests` gives the current digest of a source file. */
  function LoadAll(h: History, reader: Reader, refs: seq<Ref>, digests: string -> string, force: bool): History
    decreases |refs|
  {
    if refs == [] then h
    else LoadAll(Record(h, LoadCall(reader, refs[0], digests(refs[0].path), force)), reader, refs[1..], digests, force)
  }

  lemma LoadProves(reader: Reader, routed: set<string>, index: Index, r: Ref, digest: string)
    requires IndexOk(index) && reader.taskId != "" && !reader.terminal && r.path in routed
    requires LocatorOf(r.path, r.selector) in index && index[LocatorOf(r.path, r.selector)] == r
    ensures Proves(reader, routed, index,
                   Entry(ContextHistory.Key(reader.consumer, r.path, r.selector, digest), true, Some(EvidenceFor(r, reader.taskId))), r)
  {}

  predicate IsCurrent(index: Index, r: Ref) {
    LocatorOf(r.path, r.selector) in index && index[LocatorOf(r.path, r.selector)] == r
  }

  lemma LoadStep(h: History, reader: Reader, routed: set<string>, index: Index, r: Ref, digest: string, force: bool)
    requires IndexOk(index) && reader.taskId != "" && !reader.terminal && IsCurrent(index, r)
    requires ContextHistory.UniqueKeys(h.Bucket(AuthorityRead)) && |h.Bucket(AuthorityRead)| < CAPACITY
    ensures var next := Record(h, LoadCall(reader, r, digest, force)).Bucket(AuthorityRead);
            && ContextHistory.UniqueKeys(next) && |next| <= |h.Bucket(AuthorityRead)| + 1
            && (r.path in routed ==> Loaded(reader, routed, index, next, KeyOf(r)))
            && forall key | Loaded(reader, routed, index, h.Bucket(AuthorityRead), key) :: Loaded(reader, routed, index, next, key)
  {
    var c := LoadCall(reader, r, digest, force);
    var bucket, next := h.Bucket(AuthorityRead), Record(h, c).Bucket(AuthorityRead);
    LoadIsStored(h, c);
    var stored := Entry(c.key, true, c.evidence);
    assert CurrentRef(index, stored) == Some(r);
    if r.path in routed { LoadProves(reader, routed, index, r, digest); }
    forall key | Loaded(reader, routed, index, bucket, key) ensures Loaded(reader, routed, index, next, key) {
      var item :| item in bucket && CurrentRef(index, item).Some? && KeyOf(CurrentRef(index, item).value) == key
                  && Proves(reader, routed, index, item, CurrentRef(index, item).value);
      if item.key != c.key {
        assert item in next;
      } else {
        assert CurrentRef(index, item) == CurrentRef(index, stored);
      }
    }
  }

  lemma {:induction false} LoadAllLoads(h: History, reader: Reader, routed: set<string>, index: Index, refs: seq<Ref>,
                                        digests: string -> string, force: bool)
    requires IndexOk(index) && reader.taskId != "" && !reader.terminal && forall r <- refs :: IsCurrent(index, r)
    requires ContextHistory.UniqueKeys(h.Bucket(AuthorityRead)) && |h.Bucket(AuthorityRead)| + |refs| <= CAPACITY
    ensures var after := LoadAll(h, reader, refs, digests, force).Bucket(AuthorityRead);
            && (forall r <- refs | r.path in routed :: Loaded(reader, routed, index, after, KeyOf(r)))
            && (forall key | Loaded(reader, routed, index, h.Bucket(AuthorityRead), key) :: Loaded(reader, routed, index, after, key))
    decreases |refs|
  {
    if refs != [] {
      var r := refs[0];
      LoadStep(h, reader, routed, index, r, digests(r.path), force);
      LoadAllLoads(Record(h, LoadCall(reader, r, digests(r.path), force)), reader, routed, index, refs[1..], digests, force);
      assert refs == [r] + refs[1..];
    }
  }

  lemma {:induction false} LocatorInjective(path: string, selector: string, path': string, selector': string)
    requires '#' !in path && '#' !in path' && LocatorOf(path, selector) == LocatorOf(path', selector')
    ensures path == path' && selector == selector'
  {
    var l := LocatorOf(path, selector);
    assert l[|path|] == '#' && l[|path'|] == '#';
    assert (forall i :: 0 <= i < |path| ==> l[i] == path[i]) && (forall i :: 0 <= i < |path'| ==> l[i] == path'[i]);
    assert |path| == |path'|;
    assert path == l[..|path|] && path' == l[..|path'|];
    assert selector == l[|path| + 1..] && selector' == l[|path'| + 1..];
  }

  /** Routing is needed for that progress: a record outside the routed paths never counts as loaded, whatever is read. */
  lemma UnroutedNeverLoaded(reader: Reader, routed: seq<string>, index: Index, history: seq<Entry>, loaded: seq<Ref>, key: AuthorityRefs.Key)
    requires IndexOk(index) && Validated(reader, PathSet(routed), index, history, loaded)
    requires (forall p <- routed :: '#' !in p) && key.0 !in routed
    ensures key !in KeysOf(loaded)
  {
    if key in KeysOf(loaded) {
      var r :| r in loaded && KeyOf(r) == key;
      var item :| item in history && Proves(reader, PathSet(routed), index, item, r);
      LocatorInjective(item.key.locator, item.key.scope, r.path, r.selector);
    }
  }

  /** A missing reference outside the routed paths stays required and missing. */
  lemma UnroutedStaysMissing(reader: Reader, index: Index, query: Query, routed: seq<string>, s: Signals,
                             before: seq<Entry>, f: Refresh, after: seq<Entry>, g: Refresh, key: AuthorityRefs.Key)
    requires IndexOk(index) && s.index.IndexReady? && forall p <- routed :: '#' !in p
    requires RefreshOk(reader, index, before, query, routed, s, f) && RefreshOk(reader, index, after, query, routed, s, g)
    requires key in f.missing && key.0 !in routed
    ensures key in g.missing
  {
    assert IsRequired(query, f.loaded, routed, key);
    if p :| p in routed && CoreRef(query, f.loaded, p).Some? && KeyOf(CoreRef(query, f.loaded, p).value) == key {
      FirstOnExact(Precise(query.refs), p);
      FirstOnExact(f.loaded, p);
      assert false;
    }
    var r :| Available(query, f.loaded, r) && RequiredItself(query, r) && KeyOf(r) == key;
    assert r in Precise(query.refs);
    assert Available(query, g.loaded, r);
    assert IsRequired(query, g.loaded, routed, key);
    UnroutedNeverLoaded(reader, routed, index, after, g.loaded, key);
  }

  /**
   After the current records of all missing references were fully loaded (authority unchanged, capacity not exceeded),
   the next refresh reports no missing reference exactly if all that was missing lies in routed files.
   */
  lemma LoadingMakesProgress(h: History, reader: Reader, index: Index, query: Query, routed: seq<string>, s: Signals,
                             f: Refresh, refs: seq<Ref>, digests: string -> string, force: bool, g: Refresh)
    requires IndexOk(index) && reader.taskId != "" && !reader.terminal && s.index.IndexReady? && forall p <- routed :: '#' !in p
    requires RefreshOk(reader, index, h.Bucket(AuthorityRead), query, routed, s, f)
    requires f.missing <= KeysOf(refs) && forall r <- refs :: IsCurrent(index, r)
    requires ContextHistory.UniqueKeys(h.Bucket(AuthorityRead)) && |h.Bucket(AuthorityRead)| + |refs| <= CAPACITY
    requires RefreshOk(reader, index, LoadAll(h, reader, refs, digests, force).Bucket(AuthorityRead), query, routed, s, g)
    ensures g.missing == {} <==> forall key <- f.missing :: key.0 in routed
  {
    var after := LoadAll(h, reader, refs, digests, force).Bucket(AuthorityRead);
    if key :| key in f.missing && key.0 !in routed {
      UnroutedStaysMissing(reader, index, query, routed, s, h.Bucket(AuthorityRead), f, after, g, key);
    } else {
      var paths := PathSet(routed);
      LoadAllLoads(h, reader, paths, index, refs, digests, force);
      forall key | key in KeysOf(f.loaded) || key in f.missing ensures key in KeysOf(g.loaded) {
        if key in f.missing {
          var r :| r in refs && KeyOf(r) == key;
        }
        assert Loaded(reader, paths, index, after, key);
      }
      forall k | IsRequired(query, f.loaded, routed, k) ensures k in KeysOf(g.loaded) {
        assert k in f.coverage.required;
      }
      forall key <- g.coverage.required ensures key in KeysOf(g.loaded) {
        MoreLoadsLeaveNothingMissing(query, routed, f.loaded, g.loaded, key);
      }
    }
  }

  /** The keys a history can prove loaded. */
  function ProvableKeys(index: Index, history: seq<Entry>): set<AuthorityRefs.Key> {
    if history == [] then {}
    else
      ProvableKeys(index, history[1..])
      + if CurrentRef(index, history[0]).Some? then {KeyOf(CurrentRef(index, history[0]).value)} else {}
  }

  lemma {:induction false} ProvableKeysBound(index: Index, history: seq<Entry>)
    ensures |ProvableKeys(index, history)| <= |history|
    ensures forall item <- history :: CurrentRef(index, item).Some? ==>
              KeyOf(CurrentRef(index, item).value) in ProvableKeys(index, history)
  {
    if history != [] {
      ProvableKeysBound(index, history[1..]);
      assert history == [history[0]] + history[1..];
    }
  }

  lemma SubsetCardinality<T>(small: set<T>, large: set<T>)
    requires small <= large
    ensures |small| <= |large|
  {
    assert large == small + (large - small);
  }

  lemma LoadedIsProvable(reader: Reader, routed: set<string>, index: Index, history: seq<Entry>, key: AuthorityRefs.Key)
    requires Loaded(reader, routed, index, history, key)
    ensures key in ProvableKeys(index, history)
  {
    ProvableKeysBound(index, history);
  }

  /** The history capacity is a limit for correctness too: with more than 500 required records no history ever suffices. */
  lemma CapacityBoundsSufficiency(reader: Reader, index: Index, history: seq<Entry>, query: Query, routed: seq<string>,
                                  s: Signals, f: Refresh)
    requires RefreshOk(reader, index, history, query, routed, s, f)
    requires |history| <= CAPACITY && |f.coverage.required| > CAPACITY
    ensures f.decision != Sufficient
  {
    var required, missing := f.coverage.required, f.missing;
    if missing == {} && s.index.IndexReady? {
      forall key <- required ensures key in ProvableKeys(index, history) {
        assert key !in missing && key in KeysOf(f.loaded);
        LoadedIsProvable(reader, PathSet(routed), index, history, key);
      }
      ProvableKeysBound(index, history);
      SubsetCardinality(required, ProvableKeys(index, history));
    }
  }

  // ---- What is required ----

  /**
   Required are exactly: the available records (projected precisely, or loaded and not projected) that are relationship
   candidates, carry an anchor's canonical id, are exact hits of the request or were found through a relationship; and for
   every routed path its first projected record, or its first loaded one where none is projected.
   */
  lemma RequiredExactly(query: Query, loaded: seq<Ref>, routed: seq<string>, c: Coverage, key: AuthorityRefs.Key)
    requires CoverageOk(query, loaded, routed, c)
    ensures key in c.required <==>
              || (exists r <- query.refs + loaded ::
                    && KeyOf(r) == key
                    && ((r in query.refs && !r.kind.RoutedFileRef? && r.selector != "")
                        || (r in loaded && forall q <- query.refs | !q.kind.RoutedFileRef? && q.selector != "" :: KeyOf(q) != key))
                    && (key in query.candidates || r.canonicalId in query.anchors
                        || exists reason <- r.reasons :: reason in {ExplicitId, ExplicitEndpoint, RelationshipSameId, RelationshipReference}))
              || (exists p <- routed :: CoreRef(query, loaded, p).Some? && KeyOf(CoreRef(query, loaded, p).value) == key)
  {
    forall r ensures Available(query, loaded, r) && KeyOf(r) == key <==>
        && KeyOf(r) == key
        && ((r in query.refs && !r.kind.RoutedFileRef? && r.selector != "")
            || (r in loaded && forall q <- query.refs | !q.kind.RoutedFileRef? && q.selector != "" :: KeyOf(q) != key))
    {
      forall q <- Precise(query.refs) ensures KeyOf(q) in KeysOf(Precise(query.refs)) {}
    }
    forall r | KeyOf(r) == key ensures RequiredItself(query, r) <==>
        || key in query.candidates || r.canonicalId in query.anchors
        || exists reason <- r.reasons :: reason in {ExplicitId, ExplicitEndpoint, RelationshipSameId, RelationshipReference}
    {}
    assert key in c.required <==> IsRequired(query, loaded, routed, key);
  }

  /** SUFFICIENT: every projected record that is an anchor or an exact hit is fully loaded too. */
  lemma SufficientLoadsAnchors(reader: Reader, index: Index, history: seq<Entry>, query: Query, routed: seq<string>, s: Signals, f: Refresh, r: Ref)
    requires RefreshOk(reader, index, history, query, routed, s, f) && f.decision == Sufficient
    requires r in query.refs && !r.kind.RoutedFileRef? && r.selector != ""
    requires r.canonicalId in query.anchors || ExplicitId in r.reasons || ExplicitEndpoint in r.reasons
    ensures FullyLoaded(reader, routed, index, history, KeyOf(r))
  {
    assert Available(query, f.loaded, r) && RequiredItself(query, r);
    assert IsRequired(query, f.loaded, routed, KeyOf(r));
    assert KeyOf(r) in f.coverage.required && KeyOf(r) !in f.missing;
    LoadedIsFull(reader, routed, index, history, f.loaded, KeyOf(r));
  }
}
