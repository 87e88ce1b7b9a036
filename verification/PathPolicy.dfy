/** The workspace path policy: a pruned directory walk against the pointwise classifier. */
module PathPolicy {
  /** A workspace-relative path as its non-empty list of parts. */
  type Path = seq<string>

  const PROBE := "__policy_probe__"

  datatype Class =
    | Cache | BuildOutput | RuntimeOutput | Transient | Secret
    | FormalEvidence | Authority | GeneratedRequired | Source

  const PRECEDENCE: seq<Class> :=
    [Cache, BuildOutput, RuntimeOutput, Transient, Secret, FormalEvidence, Authority, GeneratedRequired]

  /** `nameRule` stands for the suffix and name-pattern rules, which look at the last part only. */
  datatype Category = Category(
    directoryNames: set<string>, exactNames: set<string>, nameRule: string -> bool, prefixes: set<Path>)

  type Categories = map<Class, Category>

  predicate FileRule(name: string, c: Category) {
    name in c.exactNames || c.nameRule(name)
  }

  predicate MatchesCategory(rel: Path, c: Category)
    requires rel != []
  {
    || (exists i :: 0 <= i < |rel| - 1 && rel[i] in c.directoryNames)
    || FileRule(rel[|rel| - 1], c)
    || (exists p <- c.prefixes :: p != [] && p <= rel)
  }

  predicate Matches(rel: Path, categories: Categories, name: Class)
    requires rel != []
  {
    name in categories && MatchesCategory(rel, categories[name])
  }

  function ClassifyFrom(rel: Path, categories: Categories, i: nat): Class
    requires rel != [] && i <= |PRECEDENCE|
    decreases |PRECEDENCE| - i
  {
    if i == |PRECEDENCE| then Source
    else if Matches(rel, categories, PRECEDENCE[i]) then PRECEDENCE[i]
    else ClassifyFrom(rel, categories, i + 1)
  }

  function Classify(rel: Path, categories: Categories): Class
    requires rel != []
  {
    if Matches(rel, categories, Source) then Source else ClassifyFrom(rel, categories, 0)
  }

  // ---- What the rules claim ----

  /** A directory name before the last part, the last part itself, or a prefix of parts. */
  predicate RuleClaims(rel: Path, c: Category) {
    || (exists i :: 0 <= i && i + 1 < |rel| && rel[i] in c.directoryNames)
    || (rel != [] && (rel[|rel| - 1] in c.exactNames || c.nameRule(rel[|rel| - 1])))
    || (exists p <- c.prefixes :: 0 < |p| <= |rel| && forall i :: 0 <= i < |p| ==> p[i] == rel[i])
  }

  lemma ClaimsExactly(rel: Path, c: Category)
    requires rel != []
    ensures MatchesCategory(rel, c) <==> RuleClaims(rel, c)
  {
    forall p ensures p <= rel <==> |p| <= |rel| && forall i :: 0 <= i < |p| ==> p[i] == rel[i] {}
  }

  predicate Claimed(rel: Path, categories: Categories, name: Class) {
    name in categories && RuleClaims(rel, categories[name])
  }

  lemma {:induction false} ClassifyFromExactly(rel: Path, categories: Categories, i: nat, m: nat)
    requires rel != [] && i <= m <= |PRECEDENCE|
    requires forall h :: i <= h < m ==> !Claimed(rel, categories, PRECEDENCE[h])
    requires m < |PRECEDENCE| ==> Claimed(rel, categories, PRECEDENCE[m])
    ensures ClassifyFrom(rel, categories, i) == if m < |PRECEDENCE| then PRECEDENCE[m] else Source
    decreases m - i
  {
    if i < |PRECEDENCE| && PRECEDENCE[i] in categories {
      ClaimsExactly(rel, categories[PRECEDENCE[i]]);
    }
    if i < m {
      ClassifyFromExactly(rel, categories, i + 1, m);
    }
  }

  lemma {:induction false} FirstClaim(rel: Path, categories: Categories, i: nat) returns (m: nat)
    requires i <= |PRECEDENCE|
    ensures i <= m <= |PRECEDENCE|
    ensures forall h :: i <= h < m ==> !Claimed(rel, categories, PRECEDENCE[h])
    ensures m < |PRECEDENCE| ==> Claimed(rel, categories, PRECEDENCE[m])
    decreases |PRECEDENCE| - i
  {
    if i == |PRECEDENCE| || Claimed(rel, categories, PRECEDENCE[i]) {
      m := i;
    } else {
      m := FirstClaim(rel, categories, i + 1);
    }
  }

  /** The position in the precedence order; SOURCE comes last. */
  function Position(name: Class): (k: nat) {
    match name
    case Cache => 0
    case BuildOutput => 1
    case RuntimeOutput => 2
    case Transient => 3
    case Secret => 4
    case FormalEvidence => 5
    case Authority => 6
    case GeneratedRequired => 7
    case Source => 8
  }

  /**
   The class of every path: SOURCE if its category claims the path; otherwise the category of smallest position that
   claims it; SOURCE again if none does.
   */
  lemma ClassExactly(rel: Path, categories: Categories, name: Class)
    requires rel != []
    ensures Classify(rel, categories) == name <==>
              if Claimed(rel, categories, Source) then name == Source
              else
                && (name != Source ==> Claimed(rel, categories, name))
                && forall other: Class | Position(other) < Position(name) :: !Claimed(rel, categories, other)
  {
    if Source in categories { ClaimsExactly(rel, categories[Source]); }
    if !Claimed(rel, categories, Source) {
      var m := FirstClaim(rel, categories, 0);
      ClassifyFromExactly(rel, categories, 0, m);
      PositionsInOrder();
      var class' := if m < |PRECEDENCE| then PRECEDENCE[m] else Source;
      assert Position(class') == m;
      forall other: Class | Position(other) < m ensures !Claimed(rel, categories, other) {
        assert other == PRECEDENCE[Position(other)];
      }
    }
  }

  lemma PositionsInOrder()
    ensures forall k :: 0 <= k < |PRECEDENCE| ==> Position(PRECEDENCE[k]) == k
    ensures forall name: Class | name != Source :: Position(name) < |PRECEDENCE| && PRECEDENCE[Position(name)] == name
    ensures Position(Source) == |PRECEDENCE|
  {}

  /** A claim of an ordinary category makes the class that one or an earlier one, unless the SOURCE override claims the path. */
  lemma ClaimBoundsClass(rel: Path, categories: Categories, name: Class)
    requires rel != [] && Claimed(rel, categories, name)
    ensures Claimed(rel, categories, Source) || Position(Classify(rel, categories)) <= Position(name)
  {
    ClassExactly(rel, categories, Classify(rel, categories));
  }

  /** A directory name counts at every depth, for everything below that directory. */
  lemma DirectoryNameCounts(rel: Path, categories: Categories, name: Class, i: nat)
    requires i + 1 < |rel| && name in categories && rel[i] in categories[name].directoryNames
    ensures Claimed(rel, categories, Source) || Position(Classify(rel, categories)) <= Position(name)
  {
    ClaimBoundsClass(rel, categories, name);
  }

  // ---- The directory tree and the walk ----

  datatype Node = File(name: string, link: bool) | Dir(name: string, link: bool, children: seq<Node>)

  function Size(nodes: seq<Node>): nat {
    if nodes == [] then 0
    else 1 + (if nodes[0].Dir? then Size(nodes[0].children) else 0) + Size(nodes[1..])
  }

  predicate DirKept(at: Path, node: Node, categories: Categories, included: set<Class>) {
    node.Dir? && !node.link && Classify(at + [node.name] + [PROBE], categories) in included
  }

  predicate FileKept(at: Path, node: Node, categories: Categories, included: set<Class>) {
    node.File? && !node.link && Classify(at + [node.name], categories) in included
  }

  function FilesHere(at: Path, nodes: seq<Node>, categories: Categories, included: set<Class>): seq<Path> {
    if nodes == [] then []
    else (if FileKept(at, nodes[0], categories, included) then [at + [nodes[0].name]] else [])
         + FilesHere(at, nodes[1..], categories, included)
  }

  function FilesBelow(at: Path, nodes: seq<Node>, categories: Categories, included: set<Class>): seq<Path>
    decreases nodes, 0
  {
    if nodes == [] then []
    else (if DirKept(at, nodes[0], categories, included)
          then Walk(at + [nodes[0].name], nodes[0].children, categories, included) else [])
         + FilesBelow(at, nodes[1..], categories, included)
  }

  /** The visiting order of a top-down walk: the files of a directory, then its kept sub-directories. */
  function Walk(at: Path, nodes: seq<Node>, categories: Categories, included: set<Class>): seq<Path>
    decreases nodes, 1
  {
    FilesHere(at, nodes, categories, included) + FilesBelow(at, nodes, categories, included)
  }

  datatype Frame = Frame(at: Path, nodes: seq<Node>)

  /** The output still owed for the directories on the stack, topmost (last) first. */
  function Owed(stack: seq<Frame>, categories: Categories, included: set<Class>): seq<Path> {
    if stack == [] then []
    else
      var top := stack[|stack| - 1];
      Walk(top.at, top.nodes, categories, included) + Owed(stack[..|stack| - 1], categories, included)
  }

  function StackSize(stack: seq<Frame>): nat {
    if stack == [] then 0
    else 1 + Size(stack[|stack| - 1].nodes) + StackSize(stack[..|stack| - 1])
  }

  lemma SizeSuffix(nodes: seq<Node>, i: nat)
    requires i < |nodes|
    ensures Size(nodes[i..]) == 1 + (if nodes[i].Dir? then Size(nodes[i].children) else 0) + Size(nodes[i + 1..])
  {
    assert nodes[i..][1..] == nodes[i + 1..];
  }

  lemma {:induction false} FilesBelowSuffix(at: Path, nodes: seq<Node>, categories: Categories, included: set<Class>, i: nat)
    requires i < |nodes|
    ensures FilesBelow(at, nodes[i..], categories, included)
         == (if DirKept(at, nodes[i], categories, included)
             then Walk(at + [nodes[i].name], nodes[i].children, categories, included) else [])
            + FilesBelow(at, nodes[i + 1..], categories, included)
  {
    assert nodes[i..][1..] == nodes[i + 1..];
  }

  lemma {:induction false} OwedPush(stack: seq<Frame>, frame: Frame, categories: Categories, included: set<Class>)
    ensures Owed(stack + [frame], categories, included)
         == Walk(frame.at, frame.nodes, categories, included) + Owed(stack, categories, included)
    ensures StackSize(stack + [frame]) == 1 + Size(frame.nodes) + StackSize(stack)
  {
    assert (stack + [frame])[..|stack|] == stack;
  }

  /** `pushed` is the stack with the kept directories among the nodes from i on. */
  ghost predicate Pushed(pushed: seq<Frame>, stack: seq<Frame>, top: Frame, categories: Categories, included: set<Class>, i: nat)
    requires i <= |top.nodes|
  {
    && Owed(pushed, categories, included)
         == FilesBelow(top.at, top.nodes[i..], categories, included) + Owed(stack, categories, included)
    && StackSize(pushed) <= Size(top.nodes[i..]) + StackSize(stack)
  }

  function FrameOf(at: Path, node: Node): Frame
    requires node.Dir?
  {
    Frame(at + [node.name], node.children)
  }

  lemma Regroup(owed: seq<Path>, walk: seq<Path>, below: seq<Path>, rest: seq<Path>)
    requires owed == below + rest
    ensures walk + owed == (walk + below) + rest
  {}

  lemma {:induction false} PushStep(pushed: seq<Frame>, stack: seq<Frame>, top: Frame, categories: Categories, included: set<Class>, i: nat)
    requires i < |top.nodes| && Pushed(pushed, stack, top, categories, included, i + 1)
    ensures DirKept(top.at, top.nodes[i], categories, included) ==>
              Pushed(pushed + [FrameOf(top.at, top.nodes[i])], stack, top, categories, included, i)
    ensures !DirKept(top.at, top.nodes[i], categories, included) ==> Pushed(pushed, stack, top, categories, included, i)
  {
    var below := FilesBelow(top.at, top.nodes[i + 1..], categories, included);
    SizeSuffix(top.nodes, i);
    FilesBelowSuffix(top.at, top.nodes, categories, included, i);
    if DirKept(top.at, top.nodes[i], categories, included) {
      var frame := FrameOf(top.at, top.nodes[i]);
      OwedPush(pushed, frame, categories, included);
      Regroup(Owed(pushed, categories, included), Walk(frame.at, frame.nodes, categories, included), below,
              Owed(stack, categories, included));
    } else {
      assert [] + below == below;
    }
  }

  /** The pruning step: the kept sub-directories, pushed so that the first of them is on top. */
  method PushKept(stack: seq<Frame>, top: Frame, categories: Categories, included: set<Class>) returns (pushed: seq<Frame>)
    ensures Owed(pushed, categories, included)
         == FilesBelow(top.at, top.nodes, categories, included) + Owed(stack, categories, included)
    ensures StackSize(pushed) <= Size(top.nodes) + StackSize(stack)
  {
    pushed := stack;
    var i := |top.nodes|;
    while i > 0
      invariant 0 <= i <= |top.nodes| && Pushed(pushed, stack, top, categories, included, i)
    {
      i := i - 1;
      PushStep(pushed, stack, top, categories, included, i);
      if DirKept(top.at, top.nodes[i], categories, included) {
        pushed := pushed + [FrameOf(top.at, top.nodes[i])];
      }
    }
    assert top.nodes[0..] == top.nodes;
  }

  method TakeFiles(top: Frame, categories: Categories, included: set<Class>) returns (files: seq<Path>)
    ensures files == FilesHere(top.at, top.nodes, categories, included)
  {
    files := [];
    for j := 0 to |top.nodes|
      invariant files + FilesHere(top.at, top.nodes[j..], categories, included)
             == FilesHere(top.at, top.nodes, categories, included)
    {
      assert top.nodes[j..][1..] == top.nodes[j + 1..];
      if FileKept(top.at, top.nodes[j], categories, included) {
        files := files + [top.at + [top.nodes[j].name]];
      }
    }
  }

  method IterPolicyFiles(root: seq<Node>, categories: Categories, included: set<Class>) returns (out: seq<Path>)
    ensures out == Walk([], root, categories, included)
  {
    out := [];
    var stack := [Frame([], root)];
    assert stack[..0] == [];
    while stack != []
      invariant out + Owed(stack, categories, included) == Walk([], root, categories, included)
      decreases StackSize(stack)
    {
      var top := stack[|stack| - 1];
      var files := TakeFiles(top, categories, included);
      stack := PushKept(stack[..|stack| - 1], top, categories, included);
      out := out + files;
    }
  }

  // ---- What the walk yields ----

  /** `rel` names a file of the tree that is no link and is reached without passing a link. */
  predicate HasFile(nodes: seq<Node>, rel: Path) {
    if rel == [] then false
    else if |rel| == 1 then exists n <- nodes :: n == File(rel[0], false)
    else exists n <- nodes :: n.Dir? && n.name == rel[0] && !n.link && HasFile(n.children, rel[1..])
  }

  /** The directory made of the first k parts is pruned. */
  predicate Pruned(path: Path, k: nat, categories: Categories, included: set<Class>)
    requires k <= |path|
  {
    Classify(path[..k] + [PROBE], categories) !in included
  }

  predicate UnderPruned(path: Path, categories: Categories, included: set<Class>) {
    exists k :: 0 < k < |path| && Pruned(path, k, categories, included)
  }

  predicate NoPruned(path: Path, from: nat, categories: Categories, included: set<Class>) {
    forall k :: from < k < |path| ==> !Pruned(path, k, categories, included)
  }

  lemma {:induction false} FilesHereExact(at: Path, nodes: seq<Node>, categories: Categories, included: set<Class>, path: Path)
    ensures path in FilesHere(at, nodes, categories, included) <==>
              exists n <- nodes :: FileKept(at, n, categories, included) && path == at + [n.name]
  {
    if nodes != [] {
      FilesHereExact(at, nodes[1..], categories, included, path);
      assert nodes == [nodes[0]] + nodes[1..];
    }
  }

  lemma {:induction false} FilesBelowExact(at: Path, nodes: seq<Node>, categories: Categories, included: set<Class>, path: Path)
    ensures path in FilesBelow(at, nodes, categories, included) <==>
              exists n <- nodes :: DirKept(at, n, categories, included)
                                   && path in Walk(at + [n.name], n.children, categories, included)
    decreases nodes
  {
    if nodes != [] {
      FilesBelowExact(at, nodes[1..], categories, included, path);
      assert nodes == [nodes[0]] + nodes[1..];
    }
  }

  /**
   For every policy: the walk yields exactly the non-link files that are reached without a link,
   are themselves included and lie under no pruned directory.
   */
  lemma {:induction false} WalkFromExact(at: Path, nodes: seq<Node>, categories: Categories, included: set<Class>, rel: Path)
    requires rel != []
    ensures at + rel in Walk(at, nodes, categories, included) <==>
              && HasFile(nodes, rel)
              && Classify(at + rel, categories) in included
              && NoPruned(at + rel, |at|, categories, included)
    decreases |rel|
  {
    var path := at + rel;
    FilesHereExact(at, nodes, categories, included, path);
    FilesBelowExact(at, nodes, categories, included, path);
    if |rel| == 1 {
      assert rel == [rel[0]];
      assert forall n <- nodes :: path == at + [n.name] ==> path[|at|] == n.name;
      forall n <- nodes | DirKept(at, n, categories, included)
        ensures path !in Walk(at + [n.name], n.children, categories, included)
      {
        WalkIsDeeper(at + [n.name], n.children, categories, included, path);
      }
    } else {
      assert path !in FilesHere(at, nodes, categories, included);
      forall n <- nodes | DirKept(at, n, categories, included)
        ensures path in Walk(at + [n.name], n.children, categories, included) <==>
                  && n.name == rel[0] && HasFile(n.children, rel[1..])
                  && Classify(path, categories) in included
                  && NoPruned(path, |at| + 1, categories, included)
      {
        BelowExact(at, n, categories, included, rel);
      }
      NoPrunedSplit(at, rel, categories, included);
    }
  }

  lemma BelowExact(at: Path, n: Node, categories: Categories, included: set<Class>, rel: Path)
    requires |rel| > 1 && n.Dir?
    ensures at + rel in Walk(at + [n.name], n.children, categories, included) <==>
              && n.name == rel[0] && HasFile(n.children, rel[1..])
              && Classify(at + rel, categories) in included
              && NoPruned(at + rel, |at| + 1, categories, included)
    decreases |rel|, 0
  {
    if n.name == rel[0] {
      WalkFromExact(at + [n.name], n.children, categories, included, rel[1..]);
      assert at + [n.name] + rel[1..] == at + rel;
    } else {
      WalkIsDeeper(at + [n.name], n.children, categories, included, at + rel);
      assert (at + rel)[|at|] == rel[0] && (at + [n.name])[|at|] == n.name;
    }
  }

  lemma NoPrunedSplit(at: Path, rel: Path, categories: Categories, included: set<Class>)
    requires |rel| > 1
    ensures NoPruned(at + rel, |at|, categories, included) <==>
              && Classify(at + [rel[0]] + [PROBE], categories) in included
              && NoPruned(at + rel, |at| + 1, categories, included)
  {
    assert (at + rel)[..|at| + 1] == at + [rel[0]];
    assert Pruned(at + rel, |at| + 1, categories, included) <==> Classify(at + [rel[0]] + [PROBE], categories) !in included;
    assert NoPruned(at + rel, |at|, categories, included)
      <==> !Pruned(at + rel, |at| + 1, categories, included) && NoPruned(at + rel, |at| + 1, categories, included);
  }

  /** Everything yielded from a directory lies strictly below it. */
  lemma {:induction false} WalkIsDeeper(at: Path, nodes: seq<Node>, categories: Categories, included: set<Class>, path: Path)
    ensures path in Walk(at, nodes, categories, included) ==> at < path
    decreases nodes
  {
    FilesHereExact(at, nodes, categories, included, path);
    FilesBelowExact(at, nodes, categories, included, path);
    forall n <- nodes | n.Dir? && path in Walk(at + [n.name], n.children, categories, included)
      ensures at < path
    {
      WalkIsDeeper(at + [n.name], n.children, categories, included, path);
    }
  }

  // ---- When the walk agrees with the classifier ----

  /** The included classes are a tail of the precedence order, SOURCE last. */
  ghost predicate Tail(included: set<Class>) {
    Source in included && exists j: nat :: TailFrom(included, j)
  }

  predicate TailFrom(included: set<Class>, j: nat) {
    && j <= |PRECEDENCE|
    && forall i :: 0 <= i < |PRECEDENCE| ==> (PRECEDENCE[i] in included <==> j <= i)
  }

  /** No file-level rule and no prefix of the ordinary categories is about the probe name. */
  predicate ProbeClean(categories: Categories) {
    forall name <- PRECEDENCE | name in categories ::
      && !FileRule(PROBE, categories[name])
      && forall p <- categories[name].prefixes :: p != [] ==> p[|p| - 1] != PROBE
  }

  lemma {:induction false} ClassifyFromIsFirst(rel: Path, categories: Categories, i: nat, m: nat)
    requires rel != [] && i <= m < |PRECEDENCE| && Matches(rel, categories, PRECEDENCE[m])
    ensures exists h :: i <= h <= m && ClassifyFrom(rel, categories, i) == PRECEDENCE[h]
    decreases m - i
  {
    if !Matches(rel, categories, PRECEDENCE[i]) {
      ClassifyFromIsFirst(rel, categories, i + 1, m);
    }
  }

  lemma {:induction false} ClassifyFromMatches(rel: Path, categories: Categories, i: nat)
    requires rel != [] && i <= |PRECEDENCE| && ClassifyFrom(rel, categories, i) != Source
    ensures exists h :: i <= h < |PRECEDENCE| && ClassifyFrom(rel, categories, i) == PRECEDENCE[h]
                        && Matches(rel, categories, PRECEDENCE[h])
    decreases |PRECEDENCE| - i
  {
    if !Matches(rel, categories, PRECEDENCE[i]) {
      ClassifyFromMatches(rel, categories, i + 1);
    }
  }

  /** A category that claims the probe of a directory claims every file below that directory. */
  lemma ProbeMatchCoversFiles(path: Path, k: nat, c: Category)
    requires 0 < k < |path|
    requires MatchesCategory(path[..k] + [PROBE], c) && !FileRule(PROBE, c)
    requires forall p <- c.prefixes :: p != [] ==> p[|p| - 1] != PROBE
    ensures MatchesCategory(path, c)
  {
    var probe := path[..k] + [PROBE];
    if i :| 0 <= i < |probe| - 1 && probe[i] in c.directoryNames {
      assert path[i] in c.directoryNames;
    } else {
      var p :| p in c.prefixes && p != [] && p <= probe;
      assert p[|p| - 1] == probe[|p| - 1];
      assert p <= path;
    }
  }

  lemma PrunedMeansExcluded(path: Path, k: nat, categories: Categories, included: set<Class>)
    requires 0 < k < |path| && Tail(included) && ProbeClean(categories)
    requires Pruned(path, k, categories, included)
    requires !Matches(path, categories, Source)
    ensures Classify(path, categories) !in included
  {
    var probe := path[..k] + [PROBE];
    var j: nat :| TailFrom(included, j);
    ClassifyFromMatches(probe, categories, 0);
    var m :| 0 <= m < |PRECEDENCE| && ClassifyFrom(probe, categories, 0) == PRECEDENCE[m] && Matches(probe, categories, PRECEDENCE[m]);
    assert PRECEDENCE[m] in PRECEDENCE;
    ProbeMatchCoversFiles(path, k, categories[PRECEDENCE[m]]);
    ClassifyFromIsFirst(path, categories, 0, m);
  }

  /**
   With a tail of included classes and no rule about the probe name, the walk yields exactly the
   files the classifier admits (no links, none reached through links), except those that only the
   SOURCE override admits from inside a pruned directory.
   */
  lemma WalkAgreesWithClassifier(root: seq<Node>, categories: Categories, included: set<Class>, path: Path)
    requires path != [] && Tail(included) && ProbeClean(categories)
    ensures path in Walk([], root, categories, included) <==>
              && HasFile(root, path)
              && Classify(path, categories) in included
              && !(Matches(path, categories, Source) && UnderPruned(path, categories, included))
  {
    WalkFromExact([], root, categories, included, path);
    assert [] + path == path;
    if !Matches(path, categories, Source) {
      forall k | 0 < k < |path| && Pruned(path, k, categories, included)
        ensures Classify(path, categories) !in included
      {
        PrunedMeansExcluded(path, k, categories, included);
      }
    }
  }

  /** Without a SOURCE override the agreement has no exception. */
  lemma WalkIsTheSimpleFilter(root: seq<Node>, categories: Categories, included: set<Class>, path: Path)
    requires path != [] && Tail(included) && ProbeClean(categories) && Source !in categories
    ensures path in Walk([], root, categories, included) <==>
              HasFile(root, path) && Classify(path, categories) in included
  {
    WalkAgreesWithClassifier(root, categories, included, path);
  }

  // ---- The policy of this project ----

  predicate EndsWith(s: string, suffix: string) {
    |suffix| <= |s| && s[|s| - |suffix|..] == suffix
  }

  function LastDot(name: string): (i: int)
    ensures -1 <= i < |name|
  {
    if name == "" then -1 else if name[|name| - 1] == '.' then |name| - 1 else LastDot(name[..|name| - 1])
  }

  /** The suffix of a file name; a leading or trailing dot starts none. */
  function Suffix(name: string): string {
    var i := LastDot(name);
    if 0 < i < |name| - 1 then name[i..] else ""
  }

  function Lower(text: string): string {
    if text == "" then ""
    else [if 'A' <= text[0] <= 'Z' then ('a' as int + (text[0] as int - 'A' as int)) as char else text[0]] + Lower(text[1..])
  }

  /** Only the letters A to Z change, each to its small letter. */
  lemma {:induction false} LowerExactly(text: string)
    ensures |Lower(text)| == |text|
    ensures forall i :: 0 <= i < |text| ==>
              Lower(text)[i] as int == text[i] as int + if 65 <= text[i] as int <= 90 then 32 else 0
  {
    if text != "" {
      LowerExactly(text[1..]);
      assert forall i :: 0 < i < |text| ==> Lower(text)[i] == Lower(text[1..])[i - 1] && text[i] == text[1..][i - 1];
    }
  }

  /** The suffix starts at the last dot, unless that dot begins or ends the name. */
  lemma {:induction false} LastDotExactly(name: string)
    ensures LastDot(name) == -1 <==> '.' !in name
    ensures LastDot(name) >= 0 ==> name[LastDot(name)] == '.' && forall i :: LastDot(name) < i < |name| ==> name[i] != '.'
  {
    if name != "" && name[|name| - 1] != '.' {
      LastDotExactly(name[..|name| - 1]);
      assert name == name[..|name| - 1] + [name[|name| - 1]];
    }
  }

  lemma SuffixExactly(name: string, i: int)
    requires 0 <= i < |name| && name[i] == '.' && forall k :: i < k < |name| ==> name[k] != '.'
    ensures Suffix(name) == if 0 < i && i + 1 < |name| then name[i..] else ""
  {
    LastDotExactly(name);
  }

  predicate CacheName(name: string) {
    var suffix := Lower(Suffix(name));
    suffix == ".pyc" || suffix == ".pyo"
  }

  predicate SecretName(name: string) {
    ".env." <= name || EndsWith(name, ".pem") || EndsWith(name, ".key")
  }

  /** Names that begin with ".env." or end with ".pem" or ".key". */
  lemma SecretNameExactly(name: string)
    ensures SecretName(name) <==>
              || (|name| >= 5 && name[..5] == ".env.")
              || exists i :: 0 <= i && i + 4 == |name| && (name[i..] == ".pem" || name[i..] == ".key")
  {
    if |name| >= 4 {
      assert name[|name| - 4..] == ".pem" || name[|name| - 4..] == ".key" <==> EndsWith(name, ".pem") || EndsWith(name, ".key");
    }
  }

  function ProjectCategory(name: Class): Category {
    var none := (_: string) => false;
    match name
    case Source => Category({}, {".env.example"}, none, {})
    case Authority => Category({}, {}, none, {["docs", "authority"]})
    case GeneratedRequired => Category({}, {}, none, {["packages", "contracts", "src", "generated"]})
    case Transient => Category({".mypy_cache", ".ruff_cache", ".git", ".idea", ".venv", "venv"}, {}, none, {[".tmp"]})
    case Cache => Category({"__pycache__", ".pytest_cache", "node_modules"}, {}, CacheName, {})
    case BuildOutput => Category({"dist", "build", "coverage", "htmlcov"}, {}, none, {})
    case RuntimeOutput => Category({"test-results", "outputs", ".runtime", "playwright-report"}, {}, none, {})
    case Secret => Category({}, {".env"}, SecretName, {})
    case FormalEvidence => Category({}, {}, none, {})
  }

  function ProjectCategories(): Categories {
    map name: Class | name != FormalEvidence :: ProjectCategory(name)
  }

  const TRACKED: set<Class> := {Source, Authority, GeneratedRequired}

  lemma SameLast(s: string, suffix: string)
    requires suffix != "" && EndsWith(s, suffix)
    ensures s[|s| - 1] == suffix[|suffix| - 1]
  {
    assert s[|s| - |suffix|..][|suffix| - 1] == s[|s| - 1];
  }

  lemma ProbeEnding(suffix: string)
    requires suffix != "" && suffix[|suffix| - 1] != '_'
    ensures !EndsWith(PROBE, suffix)
  {
    if EndsWith(PROBE, suffix) {
      SameLast(PROBE, suffix);
    }
  }

  lemma {:induction false} NoDot(name: string)
    requires '.' !in name
    ensures LastDot(name) == -1
  {
    if name != "" {
      NoDot(name[..|name| - 1]);
    }
  }

  lemma ProbeIsNoCacheFile()
    ensures !FileRule(PROBE, ProjectCategory(Cache))
  {
    NoDot(PROBE);
    assert !CacheName(PROBE);
  }

  lemma ProbeDiffers()
    ensures PROBE != ".env" && !(".env." <= PROBE)
  {
    assert PROBE[0] == '_' && ".env."[0] == '.' && ".env"[0] == '.';
  }

  lemma ProbeIsNoSecretFile()
    ensures !FileRule(PROBE, ProjectCategory(Secret))
  {
    ProbeDiffers();
    ProbeEnding(".pem");
    ProbeEnding(".key");
    assert !SecretName(PROBE);
  }

  lemma ProjectFileRules(name: Class)
    requires name != Source
    ensures !FileRule(PROBE, ProjectCategory(name))
  {
    match name
    case Cache => ProbeIsNoCacheFile();
    case Secret => ProbeIsNoSecretFile();
    case _ =>
  }

  lemma ProjectPrefixes(name: Class, p: Path)
    requires name != Source && p in ProjectCategory(name).prefixes
    ensures p != [] && p[|p| - 1] != PROBE
  {
    var last := if name == Authority then "authority" else if name == GeneratedRequired then "generated" else ".tmp";
    assert p[|p| - 1] == last;
    assert |last| <= 9 && |PROBE| == 16;
  }

  lemma ProjectConditions()
    ensures Tail(TRACKED) && ProbeClean(ProjectCategories())
  {
    assert TailFrom(TRACKED, 6);
    forall name <- PRECEDENCE | name in ProjectCategories()
      ensures !FileRule(PROBE, ProjectCategories()[name])
      ensures forall p <- ProjectCategories()[name].prefixes :: p != [] ==> p[|p| - 1] != PROBE
    {
      ProjectFileRules(name);
      forall p <- ProjectCategories()[name].prefixes ensures p != [] && p[|p| - 1] != PROBE {
        ProjectPrefixes(name, p);
      }
    }
  }

  lemma ProjectOverride(path: Path)
    requires path != []
    ensures Matches(path, ProjectCategories(), Source) <==> path[|path| - 1] == ".env.example"
  {
    assert ProjectCategories()[Source] == ProjectCategory(Source);
  }

  /** The shipped policy meets both conditions, so its walk misses overridden files in pruned directories and nothing else. */
  lemma ProjectWalk(root: seq<Node>, path: Path)
    requires path != []
    ensures path in Walk([], root, ProjectCategories(), TRACKED) <==>
              && HasFile(root, path)
              && Classify(path, ProjectCategories()) in TRACKED
              && !(path[|path| - 1] == ".env.example" && UnderPruned(path, ProjectCategories(), TRACKED))
  {
    ProjectConditions();
    ProjectOverride(path);
    WalkAgreesWithClassifier(root, ProjectCategories(), TRACKED, path);
  }

  /** The exception is real: the classifier admits this file, the walk never yields it. */
  lemma OverrideInsidePrunedDirectoryIsMissed(root: seq<Node>)
    ensures Classify(["node_modules", ".env.example"], ProjectCategories()) in TRACKED
    ensures ["node_modules", ".env.example"] !in Walk([], root, ProjectCategories(), TRACKED)
  {
    ProjectOverride(["node_modules", ".env.example"]);
    NodeModulesIsPruned();
    PrunedIsMissed(root, "node_modules", ".env.example", ProjectCategories(), TRACKED);
  }

  lemma PrunedIsMissed(root: seq<Node>, directory: string, name: string, categories: Categories, included: set<Class>)
    requires Classify([directory, PROBE], categories) !in included
    ensures [directory, name] !in Walk([], root, categories, included)
  {
    var path := [directory, name];
    assert path[..1] + [PROBE] == [directory, PROBE];
    assert Pruned(path, 1, categories, included);
    WalkFromExact([], root, categories, included, path);
    assert [] + path == path;
  }

  lemma NodeModulesIsPruned()
    ensures Classify(["node_modules", PROBE], ProjectCategories()) == Cache
  {
    var probe := ["node_modules", PROBE];
    ProjectOverride(probe);
    assert |PROBE| == 16 && |".env.example"| == 12;
    assert ProjectCategories()[Cache] == ProjectCategory(Cache);
    assert probe[0] in ProjectCategory(Cache).directoryNames;
    ClassifyFromIsFirst(probe, ProjectCategories(), 0, 0);
  }

  function OnlyCache(rule: string -> bool): Categories {
    map[Cache := Category({}, {}, rule, {})]
  }

  lemma OnlyCacheClassifies(rule: string -> bool, rel: Path)
    requires rel != []
    ensures Classify(rel, OnlyCache(rule)) == if rule(rel[|rel| - 1]) then Cache else Source
  {
    var categories := OnlyCache(rule);
    assert MatchesCategory(rel, categories[Cache]) <==> rule(rel[|rel| - 1]);
    if rule(rel[|rel| - 1]) {
      ClassifyFromIsFirst(rel, categories, 0, 0);
    } else if ClassifyFrom(rel, categories, 0) != Source {
      ClassifyFromMatches(rel, categories, 0);
    }
  }

  /** An included set that is no tail loses files: a consumer of one middle class never enters a SOURCE directory. */
  lemma NonTailLosesFiles(rule: string -> bool, directory: string, name: string)
    requires rule(name) && !rule(PROBE)
    ensures var root := [Dir(directory, false, [File(name, false)])];
            && HasFile(root, [directory, name])
            && Classify([directory, name], OnlyCache(rule)) == Cache
            && [directory, name] !in Walk([], root, OnlyCache(rule), {Cache})
  {
    var root := [Dir(directory, false, [File(name, false)])];
    var path := [directory, name];
    assert path[1..] == [name] && [] + path == path;
    assert File(name, false) in root[0].children && root[0] in root;
    OnlyCacheClassifies(rule, path);
    OnlyCacheClassifies(rule, [directory, PROBE]);
    WalkFromExact([], root, OnlyCache(rule), {Cache}, path);
    assert path[..1] + [PROBE] == [directory, PROBE];
    assert Pruned(path, 1, OnlyCache(rule), {Cache});
  }

  // ---- The project policy in its own terms ----

  predicate SomeDirectory(path: Path, names: set<string>) {
    exists i :: 0 <= i && i + 1 < |path| && path[i] in names
  }

  predicate Below(path: Path, directory: Path) {
    |directory| <= |path| && forall i :: 0 <= i < |directory| ==> path[i] == directory[i]
  }

  /** Which class claims a path under the project's policy. */
  predicate ProjectClaims(path: Path, name: Class)
    requires path != []
  {
    var last := path[|path| - 1];
    match name
    case Source => last == ".env.example"
    case Cache => SomeDirectory(path, {"__pycache__", ".pytest_cache", "node_modules"}) || Lower(Suffix(last)) in {".pyc", ".pyo"}
    case BuildOutput => SomeDirectory(path, {"dist", "build", "coverage", "htmlcov"})
    case RuntimeOutput => SomeDirectory(path, {"test-results", "outputs", ".runtime", "playwright-report"})
    case Transient =>
      SomeDirectory(path, {".mypy_cache", ".ruff_cache", ".git", ".idea", ".venv", "venv"}) || Below(path, [".tmp"])
    case Secret => last == ".env" || SecretName(last)
    case FormalEvidence => false
    case Authority => Below(path, ["docs", "authority"])
    case GeneratedRequired => Below(path, ["packages", "contracts", "src", "generated"])
  }

  lemma NoPrefixClaims(path: Path, c: Category)
    requires path != [] && c.prefixes == {}
    ensures RuleClaims(path, c) <==> SomeDirectory(path, c.directoryNames) || FileRule(path[|path| - 1], c)
  {}

  lemma OnePrefixClaims(path: Path, c: Category, directory: Path)
    requires path != [] && c.prefixes == {directory} && directory != []
    ensures RuleClaims(path, c) <==>
              SomeDirectory(path, c.directoryNames) || FileRule(path[|path| - 1], c) || Below(path, directory)
  {
    assert directory in c.prefixes;
  }

  lemma ProjectClaimsExactly(path: Path, name: Class)
    requires path != []
    ensures Claimed(path, ProjectCategories(), name) <==> ProjectClaims(path, name)
  {
    if name != FormalEvidence {
      assert ProjectCategories()[name] == ProjectCategory(name);
      CategoryClaimsExactly(path, name);
    }
  }

  lemma CategoryClaimsExactly(path: Path, name: Class)
    requires path != [] && name != FormalEvidence
    ensures RuleClaims(path, ProjectCategory(name)) <==> ProjectClaims(path, name)
  {
    var c := ProjectCategory(name);
    match name
    case Transient => OnePrefixClaims(path, c, [".tmp"]);
    case Authority => OnePrefixClaims(path, c, ["docs", "authority"]);
    case GeneratedRequired => OnePrefixClaims(path, c, ["packages", "contracts", "src", "generated"]);
    case _ => NoPrefixClaims(path, c);
  }

  /** Under the project's policy: SOURCE for the override, else the first claim in the order of positions, else SOURCE. */
  lemma ProjectClassExactly(path: Path, name: Class)
    requires path != []
    ensures Classify(path, ProjectCategories()) == name <==>
              if path[|path| - 1] == ".env.example" then name == Source
              else
                && (name != Source ==> ProjectClaims(path, name))
                && forall other: Class | Position(other) < Position(name) :: !ProjectClaims(path, other)
  {
    ClassExactly(path, ProjectCategories(), name);
    forall other: Class ensures Claimed(path, ProjectCategories(), other) <==> ProjectClaims(path, other) {
      ProjectClaimsExactly(path, other);
    }
  }

  const GENERATED_DIRECTORIES: set<string> :=
    {"__pycache__", ".pytest_cache", "node_modules", "dist", "build", "coverage", "htmlcov", "test-results", "outputs", ".runtime",
     "playwright-report", ".mypy_cache", ".ruff_cache", ".git", ".idea", ".venv", "venv"}

  lemma WalkedIsKept(root: seq<Node>, path: Path)
    requires path != [] && path in Walk([], root, ProjectCategories(), TRACKED)
    ensures Classify(path, ProjectCategories()) in TRACKED && NoPruned(path, 0, ProjectCategories(), TRACKED)
  {
    WalkFromExact([], root, ProjectCategories(), TRACKED, path);
    assert [] + path == path;
  }

  /** No file below a generated directory, at whatever depth, is ever yielded. */
  lemma NothingGeneratedIsWalked(root: seq<Node>, path: Path)
    requires path != [] && path in Walk([], root, ProjectCategories(), TRACKED)
    ensures !SomeDirectory(path, GENERATED_DIRECTORIES)
  {
    WalkedIsKept(root, path);
    forall k | 0 <= k && k + 1 < |path| ensures path[k] !in GENERATED_DIRECTORIES {
      if path[k] in GENERATED_DIRECTORIES { GeneratedIsPruned(path, k); }
    }
  }

  /** No secret is ever yielded, other than the example file that the override admits. */
  lemma NoSecretIsWalked(root: seq<Node>, path: Path)
    requires path != [] && path in Walk([], root, ProjectCategories(), TRACKED)
    ensures path[|path| - 1] == ".env.example" || !ProjectClaims(path, Secret)
  {
    WalkedIsKept(root, path);
    if path[|path| - 1] != ".env.example" && ProjectClaims(path, Secret) {
      EarlyClaimExcludes(path, Secret);
    }
  }

  lemma GeneratedClaims(path: Path, k: nat) returns (name: Class)
    requires k + 1 < |path| && path[k] in GENERATED_DIRECTORIES
    ensures ProjectClaims(path, name) && Position(name) <= 3
  {
    if path[k] in {"__pycache__", ".pytest_cache", "node_modules"} {
      name := Cache;
    } else if path[k] in {"dist", "build", "coverage", "htmlcov"} {
      name := BuildOutput;
    } else if path[k] in {"test-results", "outputs", ".runtime", "playwright-report"} {
      name := RuntimeOutput;
    } else {
      name := Transient;
    }
  }

  lemma GeneratedIsPruned(path: Path, k: nat)
    requires k + 1 < |path| && path[k] in GENERATED_DIRECTORIES
    ensures Pruned(path, k + 1, ProjectCategories(), TRACKED)
  {
    var probe := path[..k + 1] + [PROBE];
    assert probe[k] == path[k];
    assert |PROBE| == 16 && |".env.example"| == 12;
    var name := GeneratedClaims(probe, k);
    EarlyClaimExcludes(probe, name);
  }

  lemma EarlyClaimExcludes(path: Path, name: Class)
    requires path != [] && path[|path| - 1] != ".env.example" && ProjectClaims(path, name) && Position(name) <= 5
    ensures Classify(path, ProjectCategories()) !in TRACKED
  {
    ProjectClassExactly(path, Classify(path, ProjectCategories()));
  }
}
