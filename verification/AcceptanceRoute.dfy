/** Rank-based choice of one acceptance route, and the gate filter built on it. */
module AcceptanceRoute {
  import opened Basics
  import opened TextOrder

  datatype Route = Route(
    routeId: string,
    conditions: seq<string>, domains: seq<string>, affectedPaths: seq<string>,
    canonicalPaths: seq<string>, priority: int, ownedGates: seq<string>)

  /** The task facts a route is judged against. */
  datatype Facts = Facts(conditions: set<string>, domains: set<string>, affected: seq<string>)

  /** fnmatch(path, pattern). */
  type Glob = (string, string) -> bool

  datatype Selection = InvalidRoutes | NoRoute | Selected(route: Route)

  function Elements<T>(s: seq<T>): set<T> {
    set x | x in s
  }

  predicate NoDuplicates<T(==)>(s: seq<T>) {
    forall i, j :: 0 <= i < j < |s| ==> s[i] != s[j]
  }

  /** Not empty and without white space around it. */
  predicate IsTidy(text: string) {
    text != "" && text == Strip(text)
  }

  predicate ValidList(s: seq<string>) {
    (forall text <- s :: IsTidy(text)) && NoDuplicates(s)
  }

  predicate ValidRoutes(routes: seq<Route>) {
    && (forall r <- routes ::
          && IsTidy(r.routeId)
          && ValidList(r.conditions) && ValidList(r.domains) && ValidList(r.affectedPaths)
          && ValidList(r.canonicalPaths) && ValidList(r.ownedGates))
    && forall i, j :: 0 <= i < j < |routes| ==> routes[i].routeId != routes[j].routeId
  }

  /** A text begins or ends with white space or is empty. */
  predicate IsUntidy(text: string) {
    text == "" || IsSpace(text[0]) || IsSpace(text[|text| - 1])
  }

  /** A list holds a text twice or an untidy one. */
  predicate IsFaulty(s: seq<string>) {
    || (exists i, j :: 0 <= i < |s| && 0 <= j < |s| && i != j && s[i] == s[j])
    || exists text <- s :: IsUntidy(text)
  }

  /** Configured routes are invalid exactly if one has an untidy id or a faulty list, or two share an id. */
  lemma ValidRoutesExactly(routes: seq<Route>)
    ensures !ValidRoutes(routes) <==>
              || (exists r <- routes ::
                    IsUntidy(r.routeId) || IsFaulty(r.conditions) || IsFaulty(r.domains) || IsFaulty(r.affectedPaths)
                    || IsFaulty(r.canonicalPaths) || IsFaulty(r.ownedGates))
              || exists i, j :: 0 <= i < |routes| && 0 <= j < |routes| && i != j && routes[i].routeId == routes[j].routeId
  {
    forall text ensures IsTidy(text) <==> !IsUntidy(text) { StripExactly(text); }
    forall s: seq<string> ensures ValidList(s) <==> !IsFaulty(s) {}
  }

  // ---- Rank ----

  function ForwardSlashes(path: string): string {
    seq(|path|, i requires 0 <= i < |path| => if path[i] == '\\' then '/' else path[i])
  }

  function AffectedSet(affected: seq<string>): set<string> {
    set p <- affected :: ForwardSlashes(p)
  }

  function MatchingPaths(affected: set<string>, patterns: seq<string>, glob: Glob): set<string> {
    set p <- affected | exists pattern <- patterns :: glob(p, pattern)
  }

  /** The number of literal characters of a pattern. */
  function Weight(pattern: string): nat {
    if pattern == "" then 0
    else (if pattern[0] == '*' || pattern[0] == '?' then 0 else 1) + Weight(pattern[1..])
  }

  function Max(a: nat, b: nat): nat {
    if a < b then b else a
  }

  /** The weight of the heaviest pattern that matches a path. */
  function Specificity(path: string, patterns: seq<string>, glob: Glob): nat {
    if patterns == [] then 0
    else Max(if glob(path, patterns[0]) then Weight(patterns[0]) else 0, Specificity(path, patterns[1..], glob))
  }

  ghost function TotalSpecificity(paths: set<string>, patterns: seq<string>, glob: Glob): nat {
    if paths == {} then 0
    else
      var p :| p in paths;
      Specificity(p, patterns, glob) + TotalSpecificity(paths - {p}, patterns, glob)
  }

  /** The sum over a set may be taken in any order. */
  lemma {:induction false} TotalInAnyOrder(paths: set<string>, patterns: seq<string>, glob: Glob, first: string)
    requires first in paths
    ensures TotalSpecificity(paths, patterns, glob)
         == Specificity(first, patterns, glob) + TotalSpecificity(paths - {first}, patterns, glob)
  {
    var p :| p in paths && TotalSpecificity(paths, patterns, glob)
                           == Specificity(p, patterns, glob) + TotalSpecificity(paths - {p}, patterns, glob);
    if p != first {
      TotalInAnyOrder(paths - {p}, patterns, glob, first);
      TotalInAnyOrder(paths - {first}, patterns, glob, p);
      assert paths - {p} - {first} == paths - {first} - {p};
    }
  }

  predicate Applies(r: Route, facts: Facts, glob: Glob) {
    && (r.conditions == [] || Elements(r.conditions) * facts.conditions != {})
    && (r.domains == [] || Elements(r.domains) * facts.domains != {})
    && (r.affectedPaths == [] || MatchingPaths(AffectedSet(facts.affected), r.affectedPaths, glob) != {})
  }

  ghost function Rank(r: Route, facts: Facts, glob: Glob): seq<int> {
    var affected := AffectedSet(facts.affected);
    var canonical := MatchingPaths(affected, r.canonicalPaths, glob);
    [|canonical|,
     TotalSpecificity(canonical, r.canonicalPaths, glob),
     |Elements(r.conditions) * facts.conditions|,
     |Elements(r.domains) * facts.domains|,
     |MatchingPaths(affected, r.affectedPaths, glob)|,
     r.priority]
  }

  method ComputeRank(r: Route, facts: Facts, glob: Glob) returns (rank: seq<int>)
    ensures rank == Rank(r, facts, glob)
  {
    var affected := AffectedSet(facts.affected);
    var canonical := MatchingPaths(affected, r.canonicalPaths, glob);
    var total, rest := 0, canonical;
    while rest != {}
      invariant total + TotalSpecificity(rest, r.canonicalPaths, glob) == TotalSpecificity(canonical, r.canonicalPaths, glob)
      decreases rest
    {
      var path :| path in rest;
      TotalInAnyOrder(rest, r.canonicalPaths, glob, path);
      total := total + Specificity(path, r.canonicalPaths, glob);
      rest := rest - {path};
    }
    rank := [|canonical|, total, |Elements(r.conditions) * facts.conditions|, |Elements(r.domains) * facts.domains|,
             |MatchingPaths(affected, r.affectedPaths, glob)|, r.priority];
  }

  // ---- Selection ----

  /** q does not beat r: smaller rank, or the same rank and no smaller id. */
  ghost predicate NotBetter(q: Route, r: Route, facts: Facts, glob: Glob) {
    || LexLess(Rank(q, facts, glob), Rank(r, facts, glob))
    || (Rank(q, facts, glob) == Rank(r, facts, glob) && (q.routeId == r.routeId || TextLess(r.routeId, q.routeId)))
  }

  /** r has the largest rank of all applicable routes, and the smallest id among those of that rank. */
  ghost predicate Best(routes: seq<Route>, facts: Facts, glob: Glob, r: Route) {
    && r in routes && Applies(r, facts, glob)
    && forall q <- routes | Applies(q, facts, glob) :: NotBetter(q, r, facts, glob)
  }

  /** The largest rank among the matches. */
  method BestRank(matches: seq<(seq<int>, Route)>) returns (best: seq<int>)
    requires matches != []
    ensures exists m <- matches :: m.0 == best
    ensures forall m <- matches :: m.0 == best || LexLess(m.0, best)
  {
    best := matches[0].0;
    for i := 1 to |matches|
      invariant exists m <- matches :: m.0 == best
      invariant forall j :: 0 <= j < i ==> matches[j].0 == best || LexLess(matches[j].0, best)
    {
      LexTotal(matches[i].0, best);
      if LexLess(best, matches[i].0) {
        forall j | 0 <= j < i && LexLess(matches[j].0, best) ensures LexLess(matches[j].0, matches[i].0) {
          LexTransitive(matches[j].0, best, matches[i].0);
        }
        best := matches[i].0;
        assert matches[i] in matches;
      }
    }
  }

  /** Among the matches of one rank, the route with the smallest id. */
  method SmallestId(matches: seq<(seq<int>, Route)>, best: seq<int>) returns (r: Route)
    requires exists m <- matches :: m.0 == best
    ensures (best, r) in matches
    ensures forall m <- matches | m.0 == best :: m.1.routeId == r.routeId || TextLess(r.routeId, m.1.routeId)
  {
    var finalist: Option<Route> := None;
    for i := 0 to |matches|
      invariant finalist.Some? ==> (best, finalist.value) in matches
      invariant forall j :: 0 <= j < i && matches[j].0 == best ==>
                  finalist.Some? && (matches[j].1.routeId == finalist.value.routeId
                                     || TextLess(finalist.value.routeId, matches[j].1.routeId))
    {
      if matches[i].0 == best {
        assert matches[i] == (best, matches[i].1) && matches[i] in matches;
        if finalist.None? {
          finalist := Some(matches[i].1);
        } else {
          var f, m := finalist.value, matches[i].1;
          TextTotal(m.routeId, f.routeId);
          if TextLess(m.routeId, f.routeId) {
            forall j | 0 <= j < i && matches[j].0 == best && TextLess(f.routeId, matches[j].1.routeId)
              ensures TextLess(m.routeId, matches[j].1.routeId)
            {
              LexTransitive(Codes(m.routeId), Codes(f.routeId), Codes(matches[j].1.routeId));
            }
            finalist := Some(m);
          }
        }
      }
    }
    r := finalist.value;
  }

  /** The applicable routes with their ranks. */
  ghost predicate MatchesOk(routes: seq<Route>, facts: Facts, glob: Glob, matches: seq<(seq<int>, Route)>) {
    && (forall m <- matches :: m.1 in routes && Applies(m.1, facts, glob) && m.0 == Rank(m.1, facts, glob))
    && (forall r <- routes | Applies(r, facts, glob) :: (Rank(r, facts, glob), r) in matches)
  }

  method RankMatches(routes: seq<Route>, facts: Facts, glob: Glob) returns (matches: seq<(seq<int>, Route)>)
    ensures MatchesOk(routes, facts, glob, matches)
  {
    matches := [];
    for i := 0 to |routes|
      invariant MatchesOk(routes[..i], facts, glob, matches)
    {
      assert routes[..i + 1] == routes[..i] + [routes[i]];
      if Applies(routes[i], facts, glob) {
        var rank := ComputeRank(routes[i], facts, glob);
        matches := matches + [(rank, routes[i])];
        assert matches[|matches| - 1] == (rank, routes[i]);
      }
    }
    assert routes[..|routes|] == routes;
  }

  lemma WinnerIsBest(routes: seq<Route>, facts: Facts, glob: Glob, matches: seq<(seq<int>, Route)>, best: seq<int>, r: Route)
    requires MatchesOk(routes, facts, glob, matches) && (best, r) in matches
    requires forall m <- matches :: m.0 == best || LexLess(m.0, best)
    requires forall m <- matches | m.0 == best :: m.1.routeId == r.routeId || TextLess(r.routeId, m.1.routeId)
    ensures Best(routes, facts, glob, r)
  {
    forall q <- routes | Applies(q, facts, glob) ensures NotBetter(q, r, facts, glob) {
      assert (Rank(q, facts, glob), q) in matches;
    }
  }

  method SelectRoute(routes: seq<Route>, facts: Facts, glob: Glob) returns (s: Selection)
    ensures s.InvalidRoutes? <==> !ValidRoutes(routes)
    ensures s.NoRoute? <==> ValidRoutes(routes) && forall r <- routes :: !Applies(r, facts, glob)
    ensures s.Selected? ==> Best(routes, facts, glob, s.route)
  {
    if !ValidRoutes(routes) {
      return InvalidRoutes;
    }
    var matches := RankMatches(routes, facts, glob);
    if matches == [] {
      return NoRoute;
    }
    assert matches[0] in matches;
    var best := BestRank(matches);
    var r := SmallestId(matches, best);
    WinnerIsBest(routes, facts, glob, matches, best, r);
    return Selected(r);
  }

  /** Neither the order of the routes nor the order or repetition of the affected files changes the choice. */
  lemma SelectionIgnoresOrder(routes: seq<Route>, routes': seq<Route>, facts: Facts, facts': Facts, glob: Glob, r: Route, r': Route)
    requires ValidRoutes(routes) && Elements(routes) == Elements(routes')
    requires facts'.conditions == facts.conditions && facts'.domains == facts.domains
    requires AffectedSet(facts.affected) == AffectedSet(facts'.affected)
    requires Best(routes, facts, glob, r) && Best(routes', facts', glob, r')
    ensures r == r'
  {
    assert forall q :: Rank(q, facts, glob) == Rank(q, facts', glob);
    assert forall q :: Applies(q, facts, glob) == Applies(q, facts', glob);
    assert r in Elements(routes') && r' in Elements(routes);
    LexTotal(Rank(r, facts, glob), Rank(r', facts, glob));
    TextTotal(r.routeId, r'.routeId);
    assert r.routeId == r'.routeId;
  }

  // ---- The gate filter ----

  function OwnedBySome(routes: seq<Route>): set<string> {
    set r <- routes, g <- r.ownedGates :: g
  }

  method FilterTaskGates(routes: seq<Route>, selected: set<string>, facts: Facts, glob: Glob)
    returns (gates: Option<set<string>>)
    ensures IsFiltered(routes, selected, facts, glob, gates)
  {
    if !ValidRoutes(routes) {
      return None;
    }
    var owned := OwnedBySome(routes);
    if owned == {} {
      forall r | Best(routes, facts, glob, r) ensures Kept(routes, r, selected) == selected {
        NothingOwned(routes, r, selected);
      }
      return Some(selected);
    }
    var s := SelectRoute(routes, facts, glob);
    if s.NoRoute? {
      return Some(selected);
    }
    ChosenKeeps(routes, selected, facts, glob, s.route);
    return Some(selected - (owned - Elements(s.route.ownedGates)));
  }

  lemma ChosenKeeps(routes: seq<Route>, selected: set<string>, facts: Facts, glob: Glob, b: Route)
    requires ValidRoutes(routes) && Best(routes, facts, glob, b)
    ensures IsFiltered(routes, selected, facts, glob, Some(selected - (OwnedBySome(routes) - Elements(b.ownedGates))))
  {
    forall r | Best(routes, facts, glob, r) ensures r == b {
      SelectionIgnoresOrder(routes, routes, facts, facts, glob, r, b);
    }
    assert selected - (OwnedBySome(routes) - Elements(b.ownedGates)) == Kept(routes, b, selected);
  }

  /** Gates that no route owns, or that the chosen route owns. */
  function Kept(routes: seq<Route>, chosen: Route, selected: set<string>): set<string> {
    set g <- selected | g in chosen.ownedGates || forall r <- routes :: g !in r.ownedGates
  }

  lemma NothingOwned(routes: seq<Route>, chosen: Route, selected: set<string>)
    requires OwnedBySome(routes) == {}
    ensures Kept(routes, chosen, selected) == selected
  {
    forall g <- selected, r <- routes ensures g !in r.ownedGates {
      assert g in r.ownedGates ==> g in OwnedBySome(routes);
    }
  }

  lemma NotBetterTotal(q: Route, r: Route, facts: Facts, glob: Glob)
    ensures NotBetter(q, r, facts, glob) || NotBetter(r, q, facts, glob)
  {
    LexTotal(Rank(q, facts, glob), Rank(r, facts, glob));
    TextTotal(q.routeId, r.routeId);
  }

  lemma NotBetterTransitive(p: Route, q: Route, r: Route, facts: Facts, glob: Glob)
    requires NotBetter(p, q, facts, glob) && NotBetter(q, r, facts, glob)
    ensures NotBetter(p, r, facts, glob)
  {
    var a, b, c := Rank(p, facts, glob), Rank(q, facts, glob), Rank(r, facts, glob);
    if LexLess(a, b) && LexLess(b, c) {
      LexTransitive(a, b, c);
    } else if a == b == c && TextLess(q.routeId, p.routeId) && TextLess(r.routeId, q.routeId) {
      TextTransitive(r.routeId, q.routeId, p.routeId);
    }
  }

  /** One more applicable route: the best one stays, or the new one is best. */
  lemma BestOfMore(rest: seq<Route>, last: Route, facts: Facts, glob: Glob, b: Route)
    requires Best(rest, facts, glob, b)
    ensures Best(rest + [last], facts, glob, b) || Best(rest + [last], facts, glob, last)
  {
    NotBetterTotal(last, b, facts, glob);
    if !Applies(last, facts, glob) || NotBetter(last, b, facts, glob) {
      assert Best(rest + [last], facts, glob, b);
    } else {
      forall q <- rest | Applies(q, facts, glob) ensures NotBetter(q, last, facts, glob) {
        NotBetterTransitive(q, b, last, facts, glob);
      }
      assert last in rest + [last];
    }
  }

  /** As soon as a route applies there is a best one. */
  lemma {:induction false} BestExists(routes: seq<Route>, facts: Facts, glob: Glob)
    requires exists r <- routes :: Applies(r, facts, glob)
    ensures exists r :: Best(routes, facts, glob, r)
  {
    var rest, last := routes[..|routes| - 1], routes[|routes| - 1];
    assert routes == rest + [last];
    if exists r <- rest :: Applies(r, facts, glob) {
      BestExists(rest, facts, glob);
      var b :| Best(rest, facts, glob, b);
      BestOfMore(rest, last, facts, glob, b);
    } else {
      assert last in routes && Best(routes, facts, glob, last);
    }
  }

  /** What FilterTaskGates promises about its result. */
  ghost predicate IsFiltered(routes: seq<Route>, selected: set<string>, facts: Facts, glob: Glob, gates: Option<set<string>>) {
    && (gates.None? <==> !ValidRoutes(routes))
    && (gates.Some? && (forall r <- routes :: !Applies(r, facts, glob)) ==> gates.value == selected)
    && (forall r | gates.Some? && Best(routes, facts, glob, r) :: gates.value == Kept(routes, r, selected))
  }

  /** A valid configuration determines the result: all gates, or those the best route keeps. */
  lemma FilteredExactly(routes: seq<Route>, selected: set<string>, facts: Facts, glob: Glob, gates: Option<set<string>>, g: string)
    requires IsFiltered(routes, selected, facts, glob, gates) && gates.Some?
    ensures g in gates.value <==>
              && g in selected
              && ((exists r <- routes :: g in r.ownedGates) && (exists r <- routes :: Applies(r, facts, glob)) ==>
                    exists r :: Best(routes, facts, glob, r) && g in r.ownedGates)
  {
    if exists r <- routes :: Applies(r, facts, glob) {
      BestExists(routes, facts, glob);
      var b :| Best(routes, facts, glob, b);
      forall r | Best(routes, facts, glob, r) ensures r == b {
        SelectionIgnoresOrder(routes, routes, facts, facts, glob, r, b);
      }
    }
  }

  /** Filtering only removes gates, filtering again under the same facts removes nothing, and each gate is judged by itself. */
  lemma FilterIsIdempotent(routes: seq<Route>, facts: Facts, glob: Glob, selected: set<string>, more: set<string>,
                           once: set<string>, twice: set<string>, joint: set<string>, other: set<string>)
    requires IsFiltered(routes, selected, facts, glob, Some(once)) && IsFiltered(routes, once, facts, glob, Some(twice))
    requires IsFiltered(routes, selected + more, facts, glob, Some(joint)) && IsFiltered(routes, more, facts, glob, Some(other))
    ensures once <= selected && twice == once && joint == once + other
  {
    forall g ensures (g in once ==> g in selected) && (g in twice <==> g in once) && (g in joint <==> g in once || g in other) {
      FilteredExactly(routes, selected, facts, glob, Some(once), g);
      FilteredExactly(routes, once, facts, glob, Some(twice), g);
      FilteredExactly(routes, selected + more, facts, glob, Some(joint), g);
      FilteredExactly(routes, more, facts, glob, Some(other), g);
    }
  }

  // ---- Which facts dominate ----

  /** The affected files that a route's patterns match, with the direction of slashes normalised. */
  function Hits(facts: Facts, patterns: seq<string>, glob: Glob): set<string> {
    set f <- facts.affected | (exists pattern <- patterns :: glob(ForwardSlashes(f), pattern)) :: ForwardSlashes(f)
  }

  lemma HitsExactly(facts: Facts, patterns: seq<string>, glob: Glob)
    ensures MatchingPaths(AffectedSet(facts.affected), patterns, glob) == Hits(facts, patterns, glob)
  {}

  lemma ForwardSlashesExactly(path: string)
    ensures |ForwardSlashes(path)| == |path|
    ensures forall i :: 0 <= i < |path| ==> ForwardSlashes(path)[i] == if path[i] == '\\' then '/' else path[i]
  {}

  /** What counts for a route, the most important first. */
  ghost function Merits(r: Route, facts: Facts, glob: Glob): (m: seq<int>)
    ensures |m| == 6
  {
    var canonical := Hits(facts, r.canonicalPaths, glob);
    [|canonical|,
     TotalSpecificity(canonical, r.canonicalPaths, glob),
     |Elements(r.conditions) * facts.conditions|,
     |Elements(r.domains) * facts.domains|,
     |Hits(facts, r.affectedPaths, glob)|,
     r.priority]
  }

  lemma RankIsMerits(r: Route, facts: Facts, glob: Glob)
    ensures Rank(r, facts, glob) == Merits(r, facts, glob)
  {
    HitsExactly(facts, r.canonicalPaths, glob);
    HitsExactly(facts, r.affectedPaths, glob);
  }

  /** At the first place where a and b differ, a is smaller. */
  predicate Behind(a: seq<int>, b: seq<int>)
    requires |a| == |b| == 6
  {
    || a[0] < b[0]
    || (a[0] == b[0] && a[1] < b[1])
    || (a[0] == b[0] && a[1] == b[1] && a[2] < b[2])
    || (a[0] == b[0] && a[1] == b[1] && a[2] == b[2] && a[3] < b[3])
    || (a[0] == b[0] && a[1] == b[1] && a[2] == b[2] && a[3] == b[3] && a[4] < b[4])
    || (a[0] == b[0] && a[1] == b[1] && a[2] == b[2] && a[3] == b[3] && a[4] == b[4] && a[5] < b[5])
  }

  lemma SixPlaces(a: seq<int>, b: seq<int>)
    requires |a| == |b| == 6 && LexLess(a, b)
    ensures Behind(a, b)
  {
    LexLessExactly(a, b);
    var i :| DiffersAt(a, b, i);
    assert forall k :: 0 <= k < i ==> a[..i][k] == b[..i][k];
    assert forall k :: 0 <= k < i ==> a[k] == b[k];
  }

  /**
   Of the best route and any other applicable one: first the number of canonical matches decides, then their specificity,
   then the matched conditions, domains and affected paths, then the priority, and at last the smaller id.
   */
  lemma BestDominates(routes: seq<Route>, facts: Facts, glob: Glob, b: Route, q: Route)
    requires Best(routes, facts, glob, b) && q in routes && Applies(q, facts, glob)
    ensures || Behind(Merits(q, facts, glob), Merits(b, facts, glob))
            || (Merits(q, facts, glob) == Merits(b, facts, glob) && (b.routeId == q.routeId || TextLess(b.routeId, q.routeId)))
  {
    RankIsMerits(b, facts, glob);
    RankIsMerits(q, facts, glob);
    assert NotBetter(q, b, facts, glob);
    if LexLess(Merits(q, facts, glob), Merits(b, facts, glob)) {
      SixPlaces(Merits(q, facts, glob), Merits(b, facts, glob));
    }
  }

  /** A route applies exactly if each kind of fact it names at all is met by the task. */
  lemma AppliesExactly(r: Route, facts: Facts, glob: Glob)
    ensures Applies(r, facts, glob) <==>
              && (r.conditions != [] ==> exists c :: c in r.conditions && c in facts.conditions)
              && (r.domains != [] ==> exists d :: d in r.domains && d in facts.domains)
              && (r.affectedPaths != [] ==> exists f <- facts.affected, pattern <- r.affectedPaths :: glob(ForwardSlashes(f), pattern))
  {
    HitsExactly(facts, r.affectedPaths, glob);
    MeetExactly(r.conditions, facts.conditions);
    MeetExactly(r.domains, facts.domains);
    if f, pattern :| f in facts.affected && pattern in r.affectedPaths && glob(ForwardSlashes(f), pattern) {
      assert ForwardSlashes(f) in Hits(facts, r.affectedPaths, glob);
    }
    if p :| p in Hits(facts, r.affectedPaths, glob) {
      var f :| f in facts.affected && ForwardSlashes(f) == p && exists pattern <- r.affectedPaths :: glob(p, pattern);
    }
  }

  lemma MeetExactly(named: seq<string>, given: set<string>)
    ensures Elements(named) * given != {} <==> exists x :: x in named && x in given
  {
    if x :| x in named && x in given {
      assert x in Elements(named) * given;
    }
  }

  predicate IsLiteral(c: char) {
    c != '*' && c != '?'
  }

  /** Every further character counts, unless it is a wildcard. */
  lemma {:induction false} WeightExactly(pattern: string, c: char)
    ensures Weight("") == 0
    ensures Weight(pattern + [c]) == Weight(pattern) + if IsLiteral(c) then 1 else 0
  {
    if pattern == "" {
      assert pattern + [c] == [c] && [c][1..] == "";
    } else {
      WeightExactly(pattern[1..], c);
      assert (pattern + [c])[1..] == pattern[1..] + [c];
    }
  }

  /** The specificity of a path is the weight of a heaviest matching pattern, 0 if none matches. */
  lemma {:induction false} SpecificityExactly(path: string, patterns: seq<string>, glob: Glob)
    ensures forall p <- patterns | glob(path, p) :: Weight(p) <= Specificity(path, patterns, glob)
    ensures Specificity(path, patterns, glob) == 0 || exists p <- patterns :: glob(path, p) && Weight(p) == Specificity(path, patterns, glob)
  {
    if patterns != [] {
      SpecificityExactly(path, patterns[1..], glob);
      assert patterns == [patterns[0]] + patterns[1..];
    }
  }
}
