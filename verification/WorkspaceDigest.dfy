/** Change detection against the task-start baseline and the content digest of the affected files. */
module WorkspaceDigest {
  import opened Basics
  import opened TextOrder

  datatype Metadata = Metadata(size: nat, mtime: int)

  /** What the file system shows at a path; absent paths are not in the map. */
  datatype FileState =
    | Regular(content: string, metadata: Metadata)
    | Symlink(target: string)
    | NonFile
    | Unreadable(error: string)

  type Workspace = map<string, FileState>

  /**
   The fixed facts about paths: `listed` by the tracking walk, `tracked` by the pointwise classifier,
   `digested` by the gate digest policy, `proper` when relative and free of "..", and the content hash.
   */
  datatype Rules = Rules(listed: string -> bool, tracked: string -> bool, digested: string -> bool,
                         proper: string -> bool, hash: string -> string)

  const NUL: char := '\0'

  predicate NulFree(s: string) {
    NUL !in s
  }

  ghost predicate HashOk(rules: Rules) {
    && (forall a, b :: rules.hash(a) == rules.hash(b) ==> a == b)
    && (forall a :: NulFree(rules.hash(a)))
  }

  // ---- Changes since the baseline ----

  function Snapshot(rules: Rules, ws: Workspace): map<string, Metadata> {
    map p <- ws | rules.listed(p) && ws[p].Regular? :: ws[p].metadata
  }

  function Lookup<K, V>(m: map<K, V>, k: K): Option<V> {
    if k in m then Some(m[k]) else None
  }

  /** The paths reported as added, modified or deleted. */
  function Changes(rules: Rules, baseline: map<string, Metadata>, ws: Workspace): set<string> {
    var before := map p <- baseline | rules.tracked(p) :: baseline[p];
    var after := Snapshot(rules, ws);
    set p <- before.Keys + after.Keys | Lookup(before, p) != Lookup(after, p)
  }

  /** A listed regular file now, without a tracked entry in the baseline. */
  predicate Added(rules: Rules, baseline: map<string, Metadata>, ws: Workspace, p: string) {
    p in ws && ws[p].Regular? && rules.listed(p) && !(p in baseline && rules.tracked(p))
  }

  /** A tracked entry of the baseline and a listed regular file now, with other metadata. */
  predicate Modified(rules: Rules, baseline: map<string, Metadata>, ws: Workspace, p: string) {
    && p in ws && ws[p].Regular? && rules.listed(p)
    && p in baseline && rules.tracked(p) && ws[p].metadata != baseline[p]
  }

  /** A tracked entry of the baseline that is no listed regular file any more. */
  predicate Deleted(rules: Rules, baseline: map<string, Metadata>, ws: Workspace, p: string) {
    p in baseline && rules.tracked(p) && !(p in ws && ws[p].Regular? && rules.listed(p))
  }

  /** Reported are exactly the added, the modified and the deleted files. */
  lemma ChangesExactly(rules: Rules, baseline: map<string, Metadata>, ws: Workspace, p: string)
    ensures p in Changes(rules, baseline, ws) <==>
              Added(rules, baseline, ws, p) || Modified(rules, baseline, ws, p) || Deleted(rules, baseline, ws, p)
  {
    var before := map q <- baseline | rules.tracked(q) :: baseline[q];
    var after := Snapshot(rules, ws);
    assert p in before <==> p in baseline && rules.tracked(p);
    assert p in after <==> p in ws && ws[p].Regular? && rules.listed(p);
  }

  // ---- The digest ----

  function Normalize(paths: set<string>): set<string> {
    set p <- paths :: Slashes(p)
  }

  function Slashes(path: string): string {
    seq(|path|, i requires 0 <= i < |path| => if path[i] == '\\' then '/' else path[i])
  }

  function StateText(rules: Rules, ws: Workspace, path: string): string {
    if !rules.proper(path) then "INVALID_PATH"
    else if !rules.digested(path) then "IGNORED_BY_WORKSPACE_POLICY"
    else if path !in ws then "DELETED"
    else match ws[path]
      case Symlink(target) => "SYMLINK:" + target
      case Regular(content, _) => "FILE:" + rules.hash(content)
      case NonFile => "NON_FILE"
      case Unreadable(error) => "UNREADABLE:" + error
  }

  function Closed(field: string, rest: string): string {
    field + [NUL] + rest
  }

  /** The bytes fed to the digest: each path and its state, both closed by a NUL. */
  function Encode(rules: Rules, ws: Workspace, paths: seq<string>): string {
    if paths == [] then ""
    else Closed(paths[0], Closed(StateText(rules, ws, paths[0]), Encode(rules, ws, paths[1..])))
  }

  /** `d` is the digest material of the affected files; the hash over it is taken to be injective. */
  ghost predicate IsDigest(rules: Rules, ws: Workspace, affected: set<string>, d: string) {
    exists list :: IsSorted(list, Normalize(affected)) && d == Encode(rules, ws, list)
  }

  /** A path that leaves the workspace or is ignored contributes the same state whatever is there; any other path tells what is there. */
  lemma StateTextExactly(rules: Rules, ws: Workspace, path: string)
    ensures !rules.proper(path) ==> StateText(rules, ws, path) == "INVALID_PATH"
    ensures rules.proper(path) && !rules.digested(path) ==> StateText(rules, ws, path) == "IGNORED_BY_WORKSPACE_POLICY"
    ensures rules.proper(path) && rules.digested(path) ==>
              && (path !in ws <==> StateText(rules, ws, path) == "DELETED")
              && (path in ws && ws[path].Regular? ==> StateText(rules, ws, path) == "FILE:" + rules.hash(ws[path].content))
              && (path in ws && ws[path].Symlink? ==> StateText(rules, ws, path) == "SYMLINK:" + ws[path].target)
              && (path in ws && ws[path].Unreadable? ==> StateText(rules, ws, path) == "UNREADABLE:" + ws[path].error)
              && (path in ws && ws[path].NonFile? ==> StateText(rules, ws, path) == "NON_FILE")
  {
    if path in ws {
      assert StateText(rules, ws, path)[0] != 'D';
    }
  }

  /** Only the direction of slashes is normalised. */
  lemma SlashesExactly(path: string)
    ensures |Slashes(path)| == |path|
    ensures forall i :: 0 <= i < |path| ==> Slashes(path)[i] == if path[i] == '\\' then '/' else path[i]
    ensures '\\' !in Slashes(path)
  {}

  lemma ClosedAppend(field: string, rest: string, tail: string)
    ensures Closed(field, rest + tail) == Closed(field, rest) + tail
  {}

  lemma {:induction false} EncodeAppend(rules: Rules, ws: Workspace, paths: seq<string>, p: string)
    ensures Encode(rules, ws, paths + [p]) == Encode(rules, ws, paths) + Closed(p, Closed(StateText(rules, ws, p), ""))
  {
    var tail := Closed(p, Closed(StateText(rules, ws, p), ""));
    if paths == [] {
      assert (paths + [p])[1..] == [];
    } else {
      assert (paths + [p])[1..] == paths[1..] + [p];
      EncodeAppend(rules, ws, paths[1..], p);
      var state, rest := StateText(rules, ws, paths[0]), Encode(rules, ws, paths[1..]);
      ClosedAppend(state, rest, tail);
      ClosedAppend(paths[0], Closed(state, rest), tail);
    }
  }

  method WorkspaceStateDigest(rules: Rules, ws: Workspace, affected: set<string>) returns (digest: string)
    ensures IsDigest(rules, ws, affected, digest)
  {
    var list := SortedList(Normalize(affected));
    digest := FeedStates(rules, ws, list);
  }

  /** The loop that feeds each path and its state to the hash. */
  method FeedStates(rules: Rules, ws: Workspace, list: seq<string>) returns (fed: string)
    ensures fed == Encode(rules, ws, list)
  {
    fed := "";
    for i := 0 to |list|
      invariant fed == Encode(rules, ws, list[..i])
    {
      assert list[..i + 1] == list[..i] + [list[i]];
      EncodeAppend(rules, ws, list[..i], list[i]);
      fed := fed + Closed(list[i], Closed(StateText(rules, ws, list[i]), ""));
    }
    assert list[..|list|] == list;
  }

  /** One workspace state and one affected set have one digest. */
  lemma DigestDetermined(rules: Rules, ws: Workspace, affected: set<string>, d: string, e: string)
    requires IsDigest(rules, ws, affected, d) && IsDigest(rules, ws, affected, e)
    ensures d == e
  {
    var a :| IsSorted(a, Normalize(affected)) && d == Encode(rules, ws, a);
    var b :| IsSorted(b, Normalize(affected)) && e == Encode(rules, ws, b);
    SortedUnique(a, b, Normalize(affected));
  }

  /** A NUL-free text is recovered from what it was closed with. */
  lemma {:induction false} SplitAtNul(a: string, x: string, b: string, y: string)
    requires NulFree(a) && NulFree(b) && Closed(a, x) == Closed(b, y)
    ensures a == b && x == y
  {
    var s := Closed(a, x);
    assert s[|a|] == NUL && s[|b|] == NUL;
    assert (forall i :: 0 <= i < |a| ==> s[i] == a[i]) && (forall i :: 0 <= i < |b| ==> s[i] == b[i]);
    assert |a| == |b|;
    assert a == s[..|a|] && b == s[..|b|];
    assert x == s[|a| + 1..] && y == s[|b| + 1..];
  }

  predicate StatesNulFree(rules: Rules, ws: Workspace) {
    forall p <- ws ::
      && (ws[p].Symlink? ==> NulFree(ws[p].target))
      && (ws[p].Unreadable? ==> NulFree(ws[p].error))
  }

  lemma StateTextNulFree(rules: Rules, ws: Workspace, path: string)
    requires HashOk(rules) && StatesNulFree(rules, ws)
    ensures NulFree(StateText(rules, ws, path))
  {}

  /** Equal encodings come from the same paths in the same order with the same states. */
  lemma {:induction false} EncodeInjective(rules: Rules, ws: Workspace, a: seq<string>, ws': Workspace, b: seq<string>)
    requires HashOk(rules) && StatesNulFree(rules, ws) && StatesNulFree(rules, ws')
    requires (forall p <- a :: NulFree(p)) && (forall p <- b :: NulFree(p))
    requires Encode(rules, ws, a) == Encode(rules, ws', b)
    ensures a == b
    ensures forall p <- a :: StateText(rules, ws, p) == StateText(rules, ws', p)
    decreases |a|
  {
    if a != [] && b != [] {
      var s, s' := StateText(rules, ws, a[0]), StateText(rules, ws', b[0]);
      var rest, rest' := Encode(rules, ws, a[1..]), Encode(rules, ws', b[1..]);
      StateTextNulFree(rules, ws, a[0]);
      StateTextNulFree(rules, ws', b[0]);
      SplitAtNul(a[0], Closed(s, rest), b[0], Closed(s', rest'));
      SplitAtNul(s, rest, s', rest');
      EncodeInjective(rules, ws, a[1..], ws', b[1..]);
      assert a == [a[0]] + a[1..] && b == [b[0]] + b[1..];
    }
  }

  /** What two workspaces must agree on at a path: kind, content and link target; not the metadata. */
  predicate SameState(ws: Workspace, ws': Workspace, path: string) {
    if path !in ws || path !in ws' then path !in ws && path !in ws'
    else match (ws[path], ws'[path])
      case (Regular(c, _), Regular(c', _)) => c == c'
      case (a, b) => a == b
  }

  lemma SameTextSameState(rules: Rules, ws: Workspace, ws': Workspace, path: string)
    requires HashOk(rules) && rules.proper(path) && rules.digested(path)
    requires StateText(rules, ws, path) == StateText(rules, ws', path)
    ensures SameState(ws, ws', path)
  {
    var t, t' := StateText(rules, ws, path), StateText(rules, ws', path);
    assert t[0] == t'[0];
    if path in ws && path in ws' {
      match (ws[path], ws'[path])
      case (Regular(c, _), Regular(c', _)) => assert rules.hash(c) == t[5..] == t'[5..] == rules.hash(c');
      case (Symlink(a), Symlink(b)) => assert a == t[8..] == t'[8..] == b;
      case (Unreadable(a), Unreadable(b)) => assert a == t[11..] == t'[11..] == b;
      case _ =>
    }
  }

  /**
   Equal digests mean equal affected sets (up to slash direction) and, for every path the digest
   policy does not ignore, the same content and state. Paths of existing files contain no NUL.
   */
  lemma DigestInjective(rules: Rules, ws: Workspace, affected: set<string>, ws': Workspace, affected': set<string>, d: string)
    requires HashOk(rules) && StatesNulFree(rules, ws) && StatesNulFree(rules, ws')
    requires (forall p <- affected :: NulFree(p)) && (forall p <- affected' :: NulFree(p))
    requires IsDigest(rules, ws, affected, d) && IsDigest(rules, ws', affected', d)
    ensures Normalize(affected) == Normalize(affected')
    ensures forall p <- Normalize(affected) | rules.proper(p) && rules.digested(p) :: SameState(ws, ws', p)
  {
    var a :| IsSorted(a, Normalize(affected)) && d == Encode(rules, ws, a);
    var b :| IsSorted(b, Normalize(affected')) && d == Encode(rules, ws', b);
    SortedNulFree(affected, a);
    SortedNulFree(affected', b);
    EncodingsAgree(rules, ws, a, ws', b);
    SameElements(a, Normalize(affected), Normalize(affected'));
  }

  /** Equal encodings of two lists: the same list, and the same state of every path that is not ignored. */
  lemma EncodingsAgree(rules: Rules, ws: Workspace, a: seq<string>, ws': Workspace, b: seq<string>)
    requires HashOk(rules) && StatesNulFree(rules, ws) && StatesNulFree(rules, ws')
    requires (forall p <- a :: NulFree(p)) && (forall p <- b :: NulFree(p))
    requires Encode(rules, ws, a) == Encode(rules, ws', b)
    ensures a == b
    ensures forall p <- a | rules.proper(p) && rules.digested(p) :: SameState(ws, ws', p)
  {
    EncodeInjective(rules, ws, a, ws', b);
    forall p <- a | rules.proper(p) && rules.digested(p) ensures SameState(ws, ws', p) {
      SameTextSameState(rules, ws, ws', p);
    }
  }

  lemma SameElements(list: seq<string>, s: set<string>, t: set<string>)
    requires IsSorted(list, s) && IsSorted(list, t)
    ensures s == t && forall p :: p in s <==> p in list
  {}

  lemma SortedNulFree(paths: set<string>, list: seq<string>)
    requires (forall p <- paths :: NulFree(p)) && IsSorted(list, Normalize(paths))
    ensures forall p <- list :: NulFree(p)
  {
    SlashesNulFree(paths);
  }

  lemma SlashesNulFree(paths: set<string>)
    requires forall p <- paths :: NulFree(p)
    ensures forall p <- Normalize(paths) :: NulFree(p)
  {
    forall p <- paths ensures NulFree(Slashes(p)) {
      assert forall i :: 0 <= i < |p| ==> p[i] != NUL && Slashes(p)[i] != NUL;
    }
  }

  /** The path that spells out two entries of absent files, x and y. */
  function Forged(x: string, y: string): string {
    Closed(x, Closed("DELETED", y))
  }

  /** Why NUL-free paths are needed: for every x before y, {forged} and {x, y} have the same digest when none of them exists. */
  lemma NulInPathCollides(rules: Rules, x: string, y: string)
    requires forall p :: rules.proper(p) && rules.digested(p)
    requires TextLess(x, y) && '\\' !in x && '\\' !in y
    ensures Normalize({Forged(x, y)}) != Normalize({x, y})
    ensures exists d :: IsDigest(rules, map[], {Forged(x, y)}, d) && IsDigest(rules, map[], {x, y}, d)
  {
    var p := Forged(x, y);
    ForgedPlain(x, y);
    NormalizePlain({p});
    NormalizePlain({x, y});
    ForgedEncoding(rules, x, y);
    SortedPair(x, y);
    DigestOfList(rules, map[], {p}, [p]);
    DigestOfList(rules, map[], {x, y}, [x, y]);
  }

  lemma DigestOfList(rules: Rules, ws: Workspace, affected: set<string>, list: seq<string>)
    requires IsSorted(list, Normalize(affected))
    ensures IsDigest(rules, ws, affected, Encode(rules, ws, list))
  {}

  lemma ForgedPlain(x: string, y: string)
    requires '\\' !in x && '\\' !in y
    ensures '\\' !in Forged(x, y)
    ensures {Forged(x, y)} != {x, y}
  {
    var p := Forged(x, y);
    assert p in {p} && |p| > |x| && |p| > |y|;
    assert '\\' !in "DELETED";
  }

  lemma SortedPair(x: string, y: string)
    requires TextLess(x, y)
    ensures IsSorted([x, y], {x, y})
  {}

  lemma NormalizePlain(paths: set<string>)
    requires forall p <- paths :: '\\' !in p
    ensures Normalize(paths) == paths
  {
    assert forall p <- paths :: Slashes(p) == p;
    forall p <- paths ensures p in Normalize(paths) {
      assert Slashes(p) == p;
    }
  }

  lemma ClosedNested(a: string, b: string, c: string)
    ensures Closed(Closed(a, b), c) == Closed(a, Closed(b, c))
  {}

  lemma ForgedEncoding(rules: Rules, x: string, y: string)
    requires forall p :: rules.proper(p) && rules.digested(p)
    ensures Encode(rules, map[], [Forged(x, y)]) == Encode(rules, map[], [x, y])
  {
    assert [x, y][1..] == [y] && [y][1..] == [] && [Forged(x, y)][1..] == [];
    assert Encode(rules, map[], [y]) == Closed(y, Closed("DELETED", ""));
    var tail := Closed("DELETED", "");
    ClosedNested("DELETED", y, tail);
    ClosedNested(x, Closed("DELETED", y), tail);
  }
}
