/** Choosing the authority references of a query: quotas first, then relevance, then a reference for every routed file. */
module AuthoritySelection {
  import opened Basics
  import opened TextOrder
  import opened AuthorityRefs

  /** `take`: a candidate enters unless its key is already chosen or the limit is reached. */
  function Take(chosen: seq<Ref>, limit: nat, r: Ref): seq<Ref> {
    if KeyOf(r) in KeysOf(chosen) || |chosen| >= limit then chosen else chosen + [r]
  }

  ghost predicate ChosenOk(scored: seq<Ref>, limit: nat, chosen: seq<Ref>) {
    UniqueKeys(chosen) && |chosen| <= limit && forall r <- chosen :: r in scored
  }

  lemma TakeOk(scored: seq<Ref>, limit: nat, chosen: seq<Ref>, r: Ref)
    requires ChosenOk(scored, limit, chosen) && r in scored
    ensures ChosenOk(scored, limit, Take(chosen, limit, r)) && chosen <= Take(chosen, limit, r)
    ensures KeyOf(r) in KeysOf(Take(chosen, limit, r)) || |chosen| == limit
    ensures |Take(chosen, limit, r)| <= |chosen| + 1
  {
    forall c <- chosen | KeyOf(r) !in KeysOf(chosen) ensures KeyOf(c) != KeyOf(r) {
      assert KeyOf(c) in KeysOf(chosen);
    }
    if KeyOf(r) !in KeysOf(chosen) && |chosen| < limit {
      assert (chosen + [r])[|chosen|] == r;
      assert KeyOf(r) in KeysOf(chosen + [r]);
    }
  }

  lemma KeysGrow(a: seq<Ref>, b: seq<Ref>)
    requires a <= b
    ensures KeysOf(a) <= KeysOf(b)
  {
    forall r <- a ensures KeyOf(r) in KeysOf(b) {
      assert r in b;
    }
  }

  function ExplicitCount(scored: seq<Ref>): nat {
    if scored == [] then 0 else ExplicitCount(scored[..|scored| - 1]) + if IsExplicit(scored[|scored| - 1]) then 1 else 0
  }

  /** Every exact hit is chosen, or nothing but the limit kept it out. */
  ghost predicate ExplicitFirst(scored: seq<Ref>, limit: nat, chosen: seq<Ref>) {
    || (forall r <- scored | IsExplicit(r) :: KeyOf(r) in KeysOf(chosen))
    || (|chosen| == limit && forall r <- chosen :: IsExplicit(r))
  }

  method TakeExplicit(scored: seq<Ref>, limit: nat) returns (chosen: seq<Ref>)
    ensures ChosenOk(scored, limit, chosen) && ExplicitFirst(scored, limit, chosen)
    ensures |chosen| <= ExplicitCount(scored)
  {
    chosen := [];
    for i := 0 to |scored|
      invariant ChosenOk(scored, limit, chosen) && |chosen| <= ExplicitCount(scored[..i])
      invariant forall r <- chosen :: IsExplicit(r)
      invariant |chosen| == limit || forall j :: 0 <= j < i && IsExplicit(scored[j]) ==> KeyOf(scored[j]) in KeysOf(chosen)
    {
      assert scored[..i + 1][..i] == scored[..i];
      if IsExplicit(scored[i]) {
        TakeOk(scored, limit, chosen, scored[i]);
        KeysGrow(chosen, Take(chosen, limit, scored[i]));
        chosen := Take(chosen, limit, scored[i]);
      }
    }
    assert scored[..|scored|] == scored;
    if |chosen| != limit {
      forall r <- scored | IsExplicit(r) ensures KeyOf(r) in KeysOf(chosen) {
        var j :| 0 <= j < |scored| && scored[j] == r;
      }
    }
  }

  predicate HasCandidate(scored: seq<Ref>, path: string) {
    exists r <- scored :: r.path == path
  }

  /** One further record for a routed file, unless it has none left or the limit is reached. */
  method TakeForPath(scored: seq<Ref>, limit: nat, before: seq<Ref>, path: string) returns (chosen: seq<Ref>)
    requires ChosenOk(scored, limit, before)
    ensures ChosenOk(scored, limit, chosen) && before <= chosen && |chosen| <= |before| + 1
    ensures |before| < limit && HasCandidate(scored, path) ==> HasCandidate(chosen, path)
    ensures chosen != before ==> exists i :: 0 <= i < |scored| && scored[i].path == path && chosen == before + [scored[i]]
                                             && forall j :: 0 <= j < i && scored[j].path == path ==> KeyOf(scored[j]) in KeysOf(before)
  {
    chosen := before;
    for i := 0 to |scored|
      invariant chosen == before
      invariant |before| < limit ==> forall j :: 0 <= j < i && scored[j].path == path ==> KeyOf(scored[j]) in KeysOf(chosen)
    {
      if scored[i].path == path {
        TakeOk(scored, limit, chosen, scored[i]);
        var taken := Take(chosen, limit, scored[i]);
        if taken != chosen {
          assert taken[|chosen|] == scored[i] && scored[i] in taken;
          return taken;
        }
      }
    }
    if |before| < limit && HasCandidate(scored, path) {
      var r :| r in scored && r.path == path;
      var j :| 0 <= j < |scored| && scored[j] == r;
      var c :| c in chosen && KeyOf(c) == KeyOf(r);
    }
  }

  method TakeRoutedFiles(scored: seq<Ref>, limit: nat, before: seq<Ref>, routed: set<string>) returns (chosen: seq<Ref>)
    requires ChosenOk(scored, limit, before)
    ensures ChosenOk(scored, limit, chosen) && before <= chosen
    ensures limit >= |before| + |routed| ==> forall p <- routed | HasCandidate(scored, p) :: HasCandidate(chosen, p)
  {
    chosen := before;
    var rest := routed;
    while rest != {}
      invariant rest <= routed
      invariant ChosenOk(scored, limit, chosen) && before <= chosen
      invariant |chosen| + |rest| <= |before| + |routed|
      invariant limit >= |before| + |routed| ==>
                  forall p <- routed - rest | HasCandidate(scored, p) :: HasCandidate(chosen, p)
      decreases rest
    {
      var path := FindLeast(rest);
      var next := TakeForPath(scored, limit, chosen, path);
      forall p <- routed - (rest - {path}) | limit >= |before| + |routed| && HasCandidate(scored, p)
        ensures HasCandidate(next, p)
      {
        if p != path { CandidateKept(chosen, next, p); }
      }
      chosen := next;
      rest := rest - {path};
    }
  }

  lemma CandidateKept(a: seq<Ref>, b: seq<Ref>, path: string)
    requires a <= b && HasCandidate(a, path)
    ensures HasCandidate(b, path)
  {
    var r :| r in a && r.path == path;
    assert r in b;
  }

  function Count(refs: seq<Ref>, wanted: Ref -> bool): nat {
    if refs == [] then 0 else Count(refs[..|refs| - 1], wanted) + if wanted(refs[|refs| - 1]) then 1 else 0
  }

  /** A quota is met, or no wanted candidate is left, or the limit is reached. */
  ghost predicate QuotaMet(scored: seq<Ref>, limit: nat, chosen: seq<Ref>, wanted: Ref -> bool, quota: nat) {
    || Count(chosen, wanted) >= quota
    || |chosen| == limit
    || forall r <- scored | wanted(r) :: KeyOf(r) in KeysOf(chosen)
  }

  lemma {:induction false} CountGrows(a: seq<Ref>, b: seq<Ref>, wanted: Ref -> bool)
    requires a <= b
    ensures Count(a, wanted) <= Count(b, wanted)
    decreases |b|
  {
    if |a| < |b| {
      CountGrows(a, b[..|b| - 1], wanted);
    } else {
      assert a == b;
    }
  }

  lemma {:induction false} CountSuffix(a: seq<Ref>, b: seq<Ref>, wanted: Ref -> bool)
    ensures Count(b, wanted) <= Count(a + b, wanted)
  {
    if b != [] {
      assert (a + b)[..|a + b| - 1] == a + b[..|b| - 1];
      CountSuffix(a, b[..|b| - 1], wanted);
    }
  }

  lemma QuotaKept(scored: seq<Ref>, limit: nat, a: seq<Ref>, b: seq<Ref>, wanted: Ref -> bool, quota: nat)
    requires a <= b && |b| <= limit && QuotaMet(scored, limit, a, wanted, quota)
    ensures QuotaMet(scored, limit, b, wanted, quota)
  {
    CountGrows(a, b, wanted);
    KeysGrow(a, b);
  }

  lemma TakeWanted(scored: seq<Ref>, limit: nat, chosen: seq<Ref>, r: Ref, wanted: Ref -> bool)
    requires ChosenOk(scored, limit, chosen) && r in scored && wanted(r)
    ensures var next := Take(chosen, limit, r);
            && ChosenOk(scored, limit, next) && chosen <= next
            && Count(next, wanted) == Count(chosen, wanted) + |next| - |chosen|
            && KeysOf(chosen) <= KeysOf(next)
            && (KeyOf(r) in KeysOf(next) || |chosen| == limit)
  {
    var next := Take(chosen, limit, r);
    TakeOk(scored, limit, chosen, r);
    KeysGrow(chosen, next);
    if next != chosen {
      assert next[..|next| - 1] == chosen;
    }
  }

  /** Candidates of one kind enter until the quota is met; `taken` is what the caller already counts towards it. */
  method FillQuota(scored: seq<Ref>, limit: nat, before: seq<Ref>, wanted: Ref -> bool, taken: nat, quota: nat)
    returns (chosen: seq<Ref>)
    requires ChosenOk(scored, limit, before) && taken <= Count(before, wanted)
    ensures ChosenOk(scored, limit, chosen) && before <= chosen && QuotaMet(scored, limit, chosen, wanted, quota)
    ensures |chosen| - |before| <= if taken < quota then quota - taken else 0
    ensures forall i :: |before| <= i < |chosen| ==> wanted(chosen[i])
  {
    chosen := before;
    var count: nat := taken;
    for i := 0 to |scored|
      invariant Filling(scored, limit, before, chosen, wanted, taken, quota, count)
      invariant TakenSoFar(scored, limit, chosen, wanted, i)
    {
      if count >= quota {
        return;
      }
      if wanted(scored[i]) {
        FillingStep(scored, limit, before, chosen, wanted, taken, quota, count, i);
        var next := Take(chosen, limit, scored[i]);
        count := count + (|next| - |chosen|);
        chosen := next;
      }
    }
    AllTaken(scored, limit, chosen, wanted);
  }

  /** Only wanted records were added, and `count` is what they and the caller's count make. */
  ghost predicate Filling(scored: seq<Ref>, limit: nat, before: seq<Ref>, chosen: seq<Ref>, wanted: Ref -> bool, taken: nat, quota: nat, count: nat) {
    && ChosenOk(scored, limit, chosen) && before <= chosen && count <= Count(chosen, wanted)
    && count == taken + |chosen| - |before| && (count <= quota || chosen == before)
    && forall k :: |before| <= k < |chosen| ==> wanted(chosen[k])
  }

  /** The limit is reached or every wanted candidate among the first i is in. */
  ghost predicate TakenSoFar(scored: seq<Ref>, limit: nat, chosen: seq<Ref>, wanted: Ref -> bool, i: nat)
    requires i <= |scored|
  {
    |chosen| == limit || forall j :: 0 <= j < i && wanted(scored[j]) ==> KeyOf(scored[j]) in KeysOf(chosen)
  }

  lemma FillingStep(scored: seq<Ref>, limit: nat, before: seq<Ref>, chosen: seq<Ref>, wanted: Ref -> bool, taken: nat, quota: nat,
                    count: nat, i: nat)
    requires i < |scored| && wanted(scored[i]) && count < quota
    requires Filling(scored, limit, before, chosen, wanted, taken, quota, count) && TakenSoFar(scored, limit, chosen, wanted, i)
    ensures var next := Take(chosen, limit, scored[i]);
            && |chosen| <= |next|
            && Filling(scored, limit, before, next, wanted, taken, quota, count + (|next| - |chosen|))
            && TakenSoFar(scored, limit, next, wanted, i + 1)
  {
    assert scored[i] in scored;
    TakeWanted(scored, limit, chosen, scored[i], wanted);
  }

  lemma AllTaken(scored: seq<Ref>, limit: nat, chosen: seq<Ref>, wanted: Ref -> bool)
    requires TakenSoFar(scored, limit, chosen, wanted, |scored|)
    ensures |chosen| == limit || forall r <- scored | wanted(r) :: KeyOf(r) in KeysOf(chosen)
  {
    forall r <- scored | wanted(r) && |chosen| != limit ensures KeyOf(r) in KeysOf(chosen) {
      var j :| 0 <= j < |scored| && scored[j] == r;
    }
  }

  function OfGroup(group: string): Ref -> bool {
    (r: Ref) => r.group == Some(group)
  }

  function OfDomain(domain: string): Ref -> bool {
    (r: Ref) => domain in r.domains
  }

  /** What the quotas of groups, domains and sections count. */
  lemma QuotasCount(r: Ref, text: string)
    ensures OfGroup(text)(r) <==> r.group == Some(text)
    ensures OfDomain(text)(r) <==> text in r.domains
    ensures OfSection(text)(r) <==> r.section == text
  {}

  method CountChosen(chosen: seq<Ref>, wanted: Ref -> bool) returns (count: nat)
    ensures count == Count(chosen, wanted)
  {
    count := 0;
    for i := 0 to |chosen|
      invariant count == Count(chosen[..i], wanted)
    {
      assert chosen[..i + 1][..i] == chosen[..i];
      if wanted(chosen[i]) { count := count + 1; }
    }
    assert chosen[..|chosen|] == chosen;
  }

  /** A domain counts only what it takes itself, and its first candidate enters before the quota is looked at. */
  method FillDomain(scored: seq<Ref>, limit: nat, before: seq<Ref>, domain: string, quota: nat) returns (chosen: seq<Ref>)
    requires ChosenOk(scored, limit, before)
    ensures ChosenOk(scored, limit, chosen) && before <= chosen && QuotaMet(scored, limit, chosen, OfDomain(domain), quota)
    ensures |chosen| - |before| <= if quota == 0 then 1 else quota
    ensures forall i :: |before| <= i < |chosen| ==> domain in chosen[i].domains
  {
    chosen := FillQuota(scored, limit, before, OfDomain(domain), 0, if quota == 0 then 1 else quota);
  }

  const PER_SECTION: nat := 4

  function OfSection(section: string): Ref -> bool {
    (r: Ref) => r.section == section
  }

  /** A candidate is in, or it is no exact hit and its section has four records already. */
  predicate InOrCrowded(chosen: seq<Ref>, added: seq<Ref>, r: Ref) {
    KeyOf(r) in KeysOf(chosen) || (!IsExplicit(r) && Count(added, OfSection(r.section)) >= PER_SECTION)
  }

  /** No record that is not an exact hit was added after four others of its section. */
  ghost predicate SectionsBounded(added: seq<Ref>) {
    forall i :: 0 <= i < |added| && !IsExplicit(added[i]) ==> Count(added[..i], OfSection(added[i].section)) < PER_SECTION
  }

  lemma CrowdedLater(chosen: seq<Ref>, added: seq<Ref>, chosen': seq<Ref>, added': seq<Ref>, r: Ref)
    requires chosen <= chosen' && added <= added' && InOrCrowded(chosen, added, r)
    ensures InOrCrowded(chosen', added', r)
  {
    KeysGrow(chosen, chosen');
    CountGrows(added, added', OfSection(r.section));
  }

  lemma SectionsGrow(added: seq<Ref>, r: Ref)
    requires SectionsBounded(added) && (IsExplicit(r) || Count(added, OfSection(r.section)) < PER_SECTION)
    ensures SectionsBounded(added + [r])
    ensures forall section :: Count(added + [r], OfSection(section)) == Count(added, OfSection(section)) + if section == r.section then 1 else 0
  {
    var more := added + [r];
    assert more[..|added|] == added;
    forall i | 0 <= i < |more| && !IsExplicit(more[i]) ensures Count(more[..i], OfSection(more[i].section)) < PER_SECTION {
      if i < |added| { assert more[..i] == added[..i]; }
    }
  }

  lemma AllCrowdedLater(scored: seq<Ref>, i: nat, chosen: seq<Ref>, added: seq<Ref>, chosen': seq<Ref>, added': seq<Ref>, limit: nat)
    requires i <= |scored| && chosen <= chosen' && added <= added' && |chosen'| <= limit
    requires |chosen| == limit || forall j :: 0 <= j < i ==> InOrCrowded(chosen, added, scored[j])
    ensures |chosen'| == limit || forall j :: 0 <= j < i ==> InOrCrowded(chosen', added', scored[j])
  {
    forall j | 0 <= j < i && |chosen| != limit ensures InOrCrowded(chosen', added', scored[j]) {
      CrowdedLater(chosen, added, chosen', added', scored[j]);
    }
  }

  /** One candidate of the relevance competition. */
  method TakeByRelevance(scored: seq<Ref>, limit: nat, chosen: seq<Ref>, ghost added: seq<Ref>, r: Ref, used: nat)
    returns (chosen': seq<Ref>, ghost added': seq<Ref>)
    requires ChosenOk(scored, limit, chosen) && r in scored && SectionsBounded(added) && used == Count(added, OfSection(r.section))
    ensures ChosenOk(scored, limit, chosen') && chosen <= chosen' && added <= added' && SectionsBounded(added')
    ensures (chosen', added') == (chosen, added) || (chosen', added') == (chosen + [r], added + [r])
    ensures |chosen'| == limit || InOrCrowded(chosen', added', r)
    ensures forall section :: Count(added', OfSection(section))
                           == Count(added, OfSection(section)) + if section == r.section then |chosen'| - |chosen| else 0
  {
    chosen', added' := chosen, added;
    if used < PER_SECTION || IsExplicit(r) {
      TakeOk(scored, limit, chosen, r);
      chosen' := Take(chosen, limit, r);
      if chosen' != chosen {
        SectionsGrow(added, r);
        added' := added + [r];
      }
    }
  }

  /** At most four records of a section compete by relevance; exact hits are exempt. */
  method FillByRelevance(scored: seq<Ref>, limit: nat, before: seq<Ref>) returns (chosen: seq<Ref>, ghost added: seq<Ref>)
    requires ChosenOk(scored, limit, before)
    ensures ChosenOk(scored, limit, chosen) && chosen == before + added && SectionsBounded(added)
    ensures |chosen| == limit || forall r <- scored :: InOrCrowded(chosen, added, r)
  {
    chosen, added := before, [];
    var sections: map<string, nat> := map[];
    for i := 0 to |scored|
      invariant ChosenOk(scored, limit, chosen) && chosen == before + added && SectionsBounded(added)
      invariant forall s :: (if s in sections then sections[s] else 0) == Count(added, OfSection(s))
      invariant |chosen| == limit || forall j :: 0 <= j < i ==> InOrCrowded(chosen, added, scored[j])
    {
      var section := scored[i].section;
      var used := if section in sections then sections[section] else 0;
      ghost var longer;
      var next;
      next, longer := TakeByRelevance(scored, limit, chosen, added, scored[i], used);
      AllCrowdedLater(scored, i, chosen, added, next, longer, limit);
      if next != chosen {
        sections := sections[section := used + 1];
      }
      chosen, added := next, longer;
      if |chosen| >= limit {
        return;
      }
    }
  }

  method ChooseDiverse(scored: seq<Ref>, limit: nat, groups: seq<string>, routed: set<string>, domains: set<string>,
                       perGroup: nat, perDomain: nat) returns (chosen: seq<Ref>)
    ensures ChosenOk(scored, limit, chosen)
    ensures (exists r <- chosen :: !IsExplicit(r)) ==> forall r <- scored | IsExplicit(r) :: KeyOf(r) in KeysOf(chosen)
    ensures limit >= ExplicitCount(scored) + |routed| ==>
              forall p <- routed | HasCandidate(scored, p) :: HasCandidate(chosen, p)
    ensures forall g <- groups :: QuotaMet(scored, limit, chosen, OfGroup(g), perGroup)
    ensures forall d <- domains :: QuotaMet(scored, limit, chosen, OfDomain(d), perDomain)
    ensures |chosen| == limit || forall r <- scored :: InOrCrowded(chosen, chosen, r)
  {
    var explicit := TakeExplicit(scored, limit);
    var filed := TakeRoutedFiles(scored, limit, explicit, routed);
    chosen := filed;
    for i := 0 to |groups|
      invariant ChosenOk(scored, limit, chosen) && filed <= chosen
      invariant forall j :: 0 <= j < i ==> QuotaMet(scored, limit, chosen, OfGroup(groups[j]), perGroup)
    {
      var count := CountChosen(chosen, OfGroup(groups[i]));
      var next := FillQuota(scored, limit, chosen, OfGroup(groups[i]), count, perGroup);
      forall j | 0 <= j < i ensures QuotaMet(scored, limit, next, OfGroup(groups[j]), perGroup) {
        QuotaKept(scored, limit, chosen, next, OfGroup(groups[j]), perGroup);
      }
      chosen := next;
    }
    ghost var grouped := chosen;
    var rest := domains;
    while rest != {}
      invariant rest <= domains
      invariant ChosenOk(scored, limit, chosen) && grouped <= chosen
      invariant forall d <- domains - rest :: QuotaMet(scored, limit, chosen, OfDomain(d), perDomain)
      decreases rest
    {
      var domain := FindLeast(rest);
      var next := FillDomain(scored, limit, chosen, domain, perDomain);
      forall d <- domains - rest ensures QuotaMet(scored, limit, next, OfDomain(d), perDomain) {
        QuotaKept(scored, limit, chosen, next, OfDomain(d), perDomain);
      }
      chosen := next;
      rest := rest - {domain};
    }
    ghost var quotas := chosen;
    ghost var added;
    chosen, added := FillByRelevance(scored, limit, chosen);
    forall r <- scored | InOrCrowded(chosen, added, r) ensures InOrCrowded(chosen, chosen, r) {
      CountSuffix(quotas, added, OfSection(r.section));
    }
    forall g <- groups ensures QuotaMet(scored, limit, chosen, OfGroup(g), perGroup) {
      QuotaKept(scored, limit, grouped, chosen, OfGroup(g), perGroup);
    }
    forall d <- domains ensures QuotaMet(scored, limit, chosen, OfDomain(d), perDomain) {
      QuotaKept(scored, limit, quotas, chosen, OfDomain(d), perDomain);
    }
    assert explicit <= chosen && filed <= chosen;
    KeysGrow(explicit, chosen);
    forall p <- routed | HasCandidate(filed, p) ensures HasCandidate(chosen, p) {
      CandidateKept(filed, chosen, p);
    }
    if |explicit| == limit {
      assert chosen == explicit;
    }
  }

  // ---- The references of a query ----

  /** The entry that stands for a whole routed file. */
  function FileRef(path: string): Ref {
    Ref(path, "", RoutedFileRef, "", "", [], "", None, "", {}, 0, [RoutedFileMinimum])
  }

  function MarkedCore(r: Ref): Ref {
    r.(reasons := if CoreMinimum in r.reasons then r.reasons else [CoreMinimum] + r.reasons)
  }

  /** The mark stands in front once, and nothing else changes. */
  lemma MarkedCoreExactly(r: Ref)
    ensures MarkedCore(r).(reasons := r.reasons) == r && CoreMinimum in MarkedCore(r).reasons
    ensures MarkedCore(r).reasons == r.reasons || (CoreMinimum !in r.reasons && MarkedCore(r).reasons == [CoreMinimum] + r.reasons)
  {}

  function FirstOnPath(scored: seq<Ref>, path: string): Option<Ref> {
    if scored == [] then None
    else if scored[0].path == path then Some(scored[0])
    else FirstOnPath(scored[1..], path)
  }

  lemma {:induction false} FirstOnPathExact(scored: seq<Ref>, path: string)
    ensures FirstOnPath(scored, path).Some? <==> HasCandidate(scored, path)
    ensures FirstOnPath(scored, path).Some? ==> FirstOnPath(scored, path).value in scored && FirstOnPath(scored, path).value.path == path
  {
    if scored != [] {
      FirstOnPathExact(scored[1..], path);
      assert scored == [scored[0]] + scored[1..];
    }
  }

  /** A copy of the best scored record of its file. */
  predicate IsCore(scored: seq<Ref>, r: Ref) {
    FirstOnPath(scored, r.path).Some? && r == MarkedCore(FirstOnPath(scored, r.path).value)
  }

  /** The best record of every routed file that has one, in path order. */
  method CoreMinimumRefs(scored: seq<Ref>, routed: set<string>) returns (core: seq<Ref>)
    ensures forall p <- routed | HasCandidate(scored, p) :: HasCandidate(core, p)
    ensures forall r <- core :: r.path in routed && IsCore(scored, r)
    ensures |core| <= |routed|
  {
    core := [];
    var paths := SortedList(routed);
    SortedListLength(paths, routed);
    for i := 0 to |paths|
      invariant |core| <= i
      invariant forall j :: 0 <= j < i && HasCandidate(scored, paths[j]) ==> HasCandidate(core, paths[j])
      invariant forall r <- core :: r.path in routed && IsCore(scored, r)
    {
      FirstOnPathExact(scored, paths[i]);
      var best := FirstOnPath(scored, paths[i]);
      assert paths[i] in paths;
      if best.Some? {
        var marked := MarkedCore(best.value);
        ghost var before := core;
        core := core + [marked];
        assert marked in core;
        forall j | 0 <= j < i && HasCandidate(before, paths[j]) ensures HasCandidate(core, paths[j]) {
          CandidateKept(before, core, paths[j]);
        }
      }
    }
    forall p <- routed | HasCandidate(scored, p) ensures HasCandidate(core, p) {
      var j :| 0 <= j < |paths| && paths[j] == p;
    }
  }

  lemma {:induction false} SortedListLength(list: seq<string>, s: set<string>)
    requires IsSorted(list, s)
    ensures |list| == |s|
  {
    if list == [] {
      assert s == {};
    } else {
      TailSorted(list, s);
      assert list[0] in s;
      SortedListLength(list[1..], s - {list[0]});
    }
  }

  /** Append the references whose keys are new, as long as `room` allows. */
  method AppendNew(before: seq<Ref>, more: seq<Ref>, room: nat) returns (chosen: seq<Ref>)
    requires UniqueKeys(before)
    ensures UniqueKeys(chosen) && before <= chosen
    ensures |chosen| <= |before| + |more| && (|before| <= room ==> |chosen| <= room)
    ensures |chosen| >= room || forall r <- more :: KeyOf(r) in KeysOf(chosen)
    ensures room >= |before| + |more| ==> forall r <- more :: KeyOf(r) in KeysOf(chosen)
    ensures forall r <- chosen :: r in before || r in more
  {
    chosen := before;
    for i := 0 to |more|
      invariant UniqueKeys(chosen) && before <= chosen && |chosen| <= |before| + i
      invariant |before| <= room ==> |chosen| <= room
      invariant |chosen| >= room || forall j :: 0 <= j < i ==> KeyOf(more[j]) in KeysOf(chosen)
      invariant room >= |before| + |more| ==> forall j :: 0 <= j < i ==> KeyOf(more[j]) in KeysOf(chosen)
      invariant forall r <- chosen :: r in before || r in more
    {
      ghost var old' := chosen;
      if KeyOf(more[i]) !in KeysOf(chosen) && |chosen| < room {
        forall c <- chosen ensures KeyOf(c) != KeyOf(more[i]) {
          assert KeyOf(c) in KeysOf(chosen);
        }
        chosen := chosen + [more[i]];
        assert chosen[|chosen| - 1] == more[i];
      }
      KeysGrow(old', chosen);
    }
  }

  /**
   Relationship records first, then the best record of every routed file, then the diverse baseline up to the
   limit, then one file reference for every routed file that is still not represented.
   */
  method SelectRefs(scored: seq<Ref>, baseline: seq<Ref>, relationship: seq<Ref>, routed: set<string>, limit: nat)
    returns (refs: seq<Ref>, records: nat, ghost core: seq<Ref>)
    ensures records <= |refs|
    ensures forall r <- relationship :: KeyOf(r) in KeysOf(refs[..records])
    ensures forall p <- routed :: HasCandidate(refs, p)
    ensures UniqueKeys(refs)
    ensures |core| <= |routed| && (forall r <- core :: IsCore(scored, r) && KeyOf(r) in KeysOf(refs[..records]))
    ensures var room := if limit < |relationship| + |core| then |relationship| + |core| else limit;
            records == room || (records < room && forall r <- baseline :: KeyOf(r) in KeysOf(refs[..records]))
    ensures forall r <- refs[..records] :: r in relationship || r in core || r in baseline
    ensures forall i :: records <= i < |refs| ==>
              && refs[i] == FileRef(refs[i].path) && refs[i].path in routed
              && !HasCandidate(scored, refs[i].path) && !HasCandidate(refs[..records], refs[i].path)
  {
    var minimum := CoreMinimumRefs(scored, routed);
    core := minimum;
    var room := if limit < |relationship| + |minimum| then |relationship| + |minimum| else limit;
    var chosen := AppendNew([], relationship, room);
    var withCore := AppendNew(chosen, minimum, room);
    var withBaseline := AppendNew(withCore, baseline, room);
    KeysGrow(chosen, withBaseline);
    KeysGrow(withCore, withBaseline);
    refs := withBaseline;
    records := |refs|;
    var missing := set p <- routed | !HasCandidate(refs, p);
    forall p <- routed | HasCandidate(scored, p) ensures HasCandidate(withBaseline, p) {
      var c :| c in core && c.path == p;
      var r :| r in withBaseline && KeyOf(r) == KeyOf(c);
    }
    refs := AddFileRefs(withBaseline, missing);
    forall p <- routed ensures HasCandidate(refs, p) {
      if p !in missing { CandidateKept(withBaseline, refs, p); }
    }
  }

  /** One file reference for every missing path, in path order. */
  method AddFileRefs(before: seq<Ref>, missing: set<string>) returns (refs: seq<Ref>)
    requires UniqueKeys(before) && forall p <- missing :: !HasCandidate(before, p)
    ensures before <= refs && UniqueKeys(refs) && forall p <- missing :: HasCandidate(refs, p)
    ensures forall i :: |before| <= i < |refs| ==> refs[i] == FileRef(refs[i].path) && refs[i].path in missing
  {
    refs := before;
    var rest := missing;
    while rest != {}
      invariant rest <= missing && before <= refs && UniqueKeys(refs)
      invariant forall p <- missing - rest :: HasCandidate(refs, p)
      invariant forall i :: |before| <= i < |refs| ==> refs[i] == FileRef(refs[i].path) && refs[i].path in missing - rest
      decreases rest
    {
      var path := FindLeast(rest);
      forall i | 0 <= i < |refs| ensures KeyOf(refs[i]) != KeyOf(FileRef(path)) {
        if i < |before| { assert refs[i] == before[i] && before[i] in before; }
      }
      var longer := refs + [FileRef(path)];
      forall p <- missing - (rest - {path}) ensures HasCandidate(longer, p) {
        if p == path { assert longer[|refs|] == FileRef(path); } else { CandidateKept(refs, longer, p); }
      }
      refs := longer;
      rest := rest - {path};
    }
  }
}
