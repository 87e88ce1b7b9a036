/** Expanding authority references into content under one response budget. */
module AuthorityExpansion {
  import opened Basics

  /** What resolving a reference gave: a serialized record, or one of the failures. */
  datatype Source =
    | FileReference
    | SourceNotFound
    | BadSelector
    | LoadError
    | RecordNotFound
    | Loaded(serialized: string)

  datatype Failure = NotFound | InvalidSelector | Error

  datatype Slice = Slice(ref: nat, content: string, chars: nat, full: bool)

  datatype Status = NoRecords | InvalidSelectorStatus | NotFoundStatus | ErrorStatus | Partial | RefOnly | Truncated | Pass

  datatype Expansion = Expansion(status: Status, slices: seq<Slice>, errors: seq<Failure>, refOnly: nat, used: nat)

  function FailureOf(s: Source): Failure
    requires !s.FileReference? && !s.Loaded?
  {
    match s
    case BadSelector => InvalidSelector
    case LoadError => Error
    case _ => NotFound
  }

  function Min(a: nat, b: nat): nat {
    if a < b then a else b
  }

  /** How many characters the next slice may have. */
  function Allowed(size: nat, used: nat, total: Option<nat>, record: Option<nat>): nat {
    var byRecord := if record.Some? then Min(size, record.value) else size;
    if total.Some? then Min(byRecord, if used < total.value then total.value - used else 0) else byRecord
  }

  const ELLIPSIS := "…"

  function Cut(serialized: string, allowed: nat): string
    requires allowed < |serialized|
  {
    serialized[..if allowed == 0 then 0 else allowed - 1] + ELLIPSIS
  }

  function Used(slices: seq<Slice>): nat {
    if slices == [] then 0 else Used(slices[..|slices| - 1]) + slices[|slices| - 1].chars
  }

  function CountFileRefs(sources: seq<Source>): nat {
    if sources == [] then 0
    else CountFileRefs(sources[..|sources| - 1]) + if sources[|sources| - 1].FileReference? then 1 else 0
  }

  function CountLoadable(sources: seq<Source>): nat {
    if sources == [] then 0
    else CountLoadable(sources[..|sources| - 1]) + if sources[|sources| - 1].FileReference? then 0 else 1
  }

  lemma {:induction false} CountsSplit(sources: seq<Source>)
    ensures CountFileRefs(sources) + CountLoadable(sources) == |sources|
  {
    if sources != [] {
      CountsSplit(sources[..|sources| - 1]);
    }
  }

  lemma {:induction false} CountLoadableGrows(sources: seq<Source>, n: nat)
    requires n <= |sources|
    ensures CountLoadable(sources[..n]) <= CountLoadable(sources)
    ensures n < |sources| && !sources[n].FileReference? ==> CountLoadable(sources[..n]) < CountLoadable(sources)
    decreases |sources|
  {
    if n < |sources| {
      assert sources[..|sources| - 1][..n] == sources[..n];
      CountLoadableGrows(sources[..|sources| - 1], n);
    } else {
      assert sources[..n] == sources;
    }
  }

  /** A slice shows the record of its reference: whole, or its beginning closed by an ellipsis. */
  predicate SliceOk(sources: seq<Source>, s: Slice, record: Option<nat>) {
    && s.ref < |sources| && sources[s.ref].Loaded?
    && s.chars == |s.content|
    && (record.Some? ==> s.chars <= record.value)
    && (if s.full then s.content == sources[s.ref].serialized
        else 0 < s.chars < |sources[s.ref].serialized| && s.content == Cut(sources[s.ref].serialized, s.chars))
  }

  /** The slices made from the first n references: in reference order, within both limits. */
  ghost predicate SlicesOk(sources: seq<Source>, slices: seq<Slice>, n: nat, used: nat, total: Option<nat>, record: Option<nat>) {
    && (forall i :: 0 <= i < |slices| ==> SliceOk(sources, slices[i], record) && slices[i].ref < n)
    && (forall i, j :: 0 <= i < j < |slices| ==> slices[i].ref < slices[j].ref)
    && used == Used(slices)
    && (total.Some? ==> used <= total.value)
  }

  lemma AppendSlice(sources: seq<Source>, slices: seq<Slice>, i: nat, used: nat, total: Option<nat>, record: Option<nat>, s: Slice)
    requires SlicesOk(sources, slices, i, used, total, record) && SliceOk(sources, s, record) && s.ref == i
    requires total.Some? ==> used + s.chars <= total.value
    ensures SlicesOk(sources, slices + [s], i + 1, used + s.chars, total, record)
  {
    assert (slices + [s])[..|slices|] == slices;
  }

  function StatusOf(count: nat, slices: seq<Slice>, errors: seq<Failure>, refOnly: nat): Status {
    var truncated := |slices| < (if count < refOnly then 0 else count - refOnly) || exists i :: 0 <= i < |slices| && !slices[i].full;
    if count == 0 then NoRecords
    else if errors != [] then
      if slices == [] && (forall e <- errors :: e == InvalidSelector) then InvalidSelectorStatus
      else if slices == [] && (forall e <- errors :: e == NotFound) then NotFoundStatus
      else if slices == [] && Error in errors then ErrorStatus
      else Partial
    else if slices == [] then if refOnly > 0 then RefOnly else NoRecords
    else if truncated then Truncated
    else Pass
  }

  /** Which answer gets which status. Errors come first, then missing slices, then incomplete ones. */
  lemma StatusExactly(count: nat, slices: seq<Slice>, errors: seq<Failure>, refOnly: nat)
    ensures var status := StatusOf(count, slices, errors, refOnly);
            var cut := exists i :: 0 <= i < |slices| && !slices[i].full;
            && (status == NoRecords <==> count == 0 || (errors == [] && slices == [] && refOnly == 0))
            && (status == RefOnly <==> count > 0 && errors == [] && slices == [] && refOnly > 0)
            && (status == Pass <==> count > 0 && errors == [] && slices != [] && |slices| + refOnly >= count && !cut)
            && (status == Truncated <==> count > 0 && errors == [] && slices != [] && (|slices| + refOnly < count || cut))
            && (status == InvalidSelectorStatus <==>
                  count > 0 && errors != [] && slices == [] && forall e <- errors :: e == InvalidSelector)
            && (status == NotFoundStatus <==> count > 0 && errors != [] && slices == [] && forall e <- errors :: e == NotFound)
            && (status == ErrorStatus <==> count > 0 && slices == [] && Error in errors)
            && (status == Partial <==>
                  count > 0 && errors != []
                  && (slices != [] || (Error !in errors && InvalidSelector in errors && NotFound in errors)))
  {
    if errors != [] {
      assert errors[0] in errors;
      assert forall e <- errors :: e == NotFound || e == InvalidSelector || e == Error;
    }
  }

  /** What a slice may have: no more than the record, its own limit and what is left of the budget, and all of the smallest of these. */
  lemma AllowedExactly(size: nat, used: nat, total: Option<nat>, record: Option<nat>)
    ensures var a := Allowed(size, used, total, record);
            && a <= size && (record.Some? ==> a <= record.value) && (total.Some? ==> a == 0 || used + a <= total.value)
            && (a == size || record == Some(a) || total == Some(used + a) || (total.Some? && used >= total.value))
  {}

  function FailuresOf(sources: seq<Source>): seq<Failure> {
    if sources == [] then []
    else
      var last := sources[|sources| - 1];
      FailuresOf(sources[..|sources| - 1]) + if last.FileReference? || last.Loaded? then [] else [FailureOf(last)]
  }

  /** Which error is among the errors when: a missing source or record, an unreadable selector, anything else. */
  lemma {:induction false} FailuresExactly(sources: seq<Source>)
    ensures NotFound in FailuresOf(sources) <==> SourceNotFound in sources || RecordNotFound in sources
    ensures InvalidSelector in FailuresOf(sources) <==> BadSelector in sources
    ensures Error in FailuresOf(sources) <==> LoadError in sources
    ensures |FailuresOf(sources)| <= |sources|
  {
    if sources != [] {
      var n := |sources| - 1;
      FailuresExactly(sources[..n]);
      assert sources == sources[..n] + [sources[n]];
    }
  }

  /** Slice i shows as much of its record as its own limit and the budget left by the earlier slices allow. */
  predicate Maximal(sources: seq<Source>, slices: seq<Slice>, i: nat, total: Option<nat>, record: Option<nat>)
    requires i < |slices|
  {
    var s := slices[i];
    && s.ref < |sources| && sources[s.ref].Loaded?
    && var size := |sources[s.ref].serialized|;
       s.chars == Allowed(size, Used(slices[..i]), total, record) && (s.full <==> s.chars == size)
  }

  /** The first n references were answered completely: with a slice, a failure or as file references. */
  ghost predicate Answered(sources: seq<Source>, slices: seq<Slice>, errors: seq<Failure>, refOnly: nat, n: nat,
                           total: Option<nat>, record: Option<nat>)
  {
    && n <= |sources|
    && refOnly == CountFileRefs(sources[..n]) && errors == FailuresOf(sources[..n])
    && (forall k :: 0 <= k < n && sources[k].Loaded? ==> exists i :: 0 <= i < |slices| && slices[i].ref == k)
    && (forall i :: 0 <= i < |slices| ==> slices[i].ref < n && Maximal(sources, slices, i, total, record))
  }

  /** The loop stops before reference n only when nothing is left to give it. */
  predicate Stopped(sources: seq<Source>, used: nat, n: nat, total: Option<nat>, record: Option<nat>) {
    n < |sources| ==>
      || (total.Some? && used >= total.value && !sources[n].FileReference?)
      || (sources[n].Loaded? && (record == Some(0) || sources[n].serialized == ""))
  }

  lemma AnswerMore(sources: seq<Source>, slices: seq<Slice>, errors: seq<Failure>, refOnly: nat, n: nat,
                   total: Option<nat>, record: Option<nat>)
    requires Answered(sources, slices, errors, refOnly, n, total, record) && n < |sources| && !sources[n].Loaded?
    ensures sources[n].FileReference? ==> Answered(sources, slices, errors, refOnly + 1, n + 1, total, record)
    ensures !sources[n].FileReference? ==> Answered(sources, slices, errors + [FailureOf(sources[n])], refOnly, n + 1, total, record)
  {
    CountStep(sources, n);
    assert sources[..n + 1][..n] == sources[..n];
  }

  lemma AnswerSlice(sources: seq<Source>, slices: seq<Slice>, errors: seq<Failure>, refOnly: nat, n: nat,
                    total: Option<nat>, record: Option<nat>, s: Slice)
    requires Answered(sources, slices, errors, refOnly, n, total, record) && n < |sources| && sources[n].Loaded? && s.ref == n
    requires var size := |sources[n].serialized|;
             s.chars == Allowed(size, Used(slices), total, record) && (s.full <==> s.chars == size)
    ensures Answered(sources, slices + [s], errors, refOnly, n + 1, total, record)
  {
    var longer := slices + [s];
    CountStep(sources, n);
    assert sources[..n + 1][..n] == sources[..n];
    forall k | 0 <= k < n + 1 && sources[k].Loaded? ensures exists i :: 0 <= i < |longer| && longer[i].ref == k {
      if k < n {
        var i :| 0 <= i < |slices| && slices[i].ref == k;
        assert longer[i].ref == k;
      } else {
        assert longer[|slices|].ref == k;
      }
    }
    forall i | 0 <= i < |longer| ensures longer[i].ref < n + 1 && Maximal(sources, longer, i, total, record) {
      if i < |slices| {
        assert Maximal(sources, slices, i, total, record) && longer[..i] == slices[..i];
      } else {
        assert longer[..i] == slices;
      }
    }
  }

  /** The slice of one loaded record under what is left of the budget; none when nothing is left. */
  method MakeSlice(sources: seq<Source>, i: nat, used: nat, total: Option<nat>, record: Option<nat>) returns (s: Option<Slice>)
    requires i < |sources| && sources[i].Loaded? && (total.Some? ==> used <= total.value)
    ensures s.Some? ==>
              && SliceOk(sources, s.value, record) && s.value.ref == i
              && (total.Some? ==> used + s.value.chars <= total.value)
    ensures s.Some? ==> var size := |sources[i].serialized|;
                        s.value.chars == Allowed(size, used, total, record) && (s.value.full <==> s.value.chars == size)
    ensures s.None? <==> Allowed(|sources[i].serialized|, used, total, record) == 0
  {
    var serialized := sources[i].serialized;
    var allowed := Allowed(|serialized|, used, total, record);
    if allowed == 0 {
      return None;
    }
    var full := |serialized| <= allowed;
    var content := if full then serialized else Cut(serialized, allowed);
    return Some(Slice(i, content, |content|, full));
  }

  lemma CountStep(sources: seq<Source>, i: nat)
    requires i < |sources|
    ensures CountFileRefs(sources[..i + 1]) == CountFileRefs(sources[..i]) + if sources[i].FileReference? then 1 else 0
    ensures CountLoadable(sources[..i + 1]) == CountLoadable(sources[..i]) + if sources[i].FileReference? then 0 else 1
  {
    assert sources[..i + 1][..i] == sources[..i];
  }

  lemma SlicesLater(sources: seq<Source>, slices: seq<Slice>, i: nat, n: nat, used: nat, total: Option<nat>, record: Option<nat>)
    requires SlicesOk(sources, slices, i, used, total, record) && i <= n
    ensures SlicesOk(sources, slices, n, used, total, record)
  {}

  lemma PassNeedsEnough(count: nat, slices: seq<Slice>, errors: seq<Failure>, refOnly: nat)
    requires StatusOf(count, slices, errors, refOnly) == Pass
    ensures errors == [] && |slices| >= count - refOnly
  {}

  ghost predicate Progress(sources: seq<Source>, slices: seq<Slice>, errors: seq<Failure>, refOnly: nat, used: nat, n: nat,
                           total: Option<nat>, record: Option<nat>)
  {
    && n <= |sources| && SlicesOk(sources, slices, n, used, total, record)
    && Answered(sources, slices, errors, refOnly, n, total, record)
    && |slices| + |errors| == CountLoadable(sources[..n])
  }

  lemma NoSliceStep(sources: seq<Source>, slices: seq<Slice>, errors: seq<Failure>, refOnly: nat, used: nat, n: nat,
                    total: Option<nat>, record: Option<nat>)
    requires Progress(sources, slices, errors, refOnly, used, n, total, record) && n < |sources| && !sources[n].Loaded?
    ensures if sources[n].FileReference?
            then Progress(sources, slices, errors, refOnly + 1, used, n + 1, total, record)
            else Progress(sources, slices, errors + [FailureOf(sources[n])], refOnly, used, n + 1, total, record)
  {
    CountStep(sources, n);
    AnswerMore(sources, slices, errors, refOnly, n, total, record);
    SlicesLater(sources, slices, n, n + 1, used, total, record);
  }

  /** The loop body for a loaded record: one more slice, or none when nothing is left. */
  method TakeLoaded(sources: seq<Source>, slices: seq<Slice>, ghost errors: seq<Failure>, ghost refOnly: nat, used: nat, n: nat,
                    total: Option<nat>, record: Option<nat>) returns (s: Option<Slice>)
    requires Progress(sources, slices, errors, refOnly, used, n, total, record) && n < |sources| && sources[n].Loaded?
    ensures s.None? ==> Stopped(sources, used, n, total, record)
    ensures s.Some? ==> Progress(sources, slices + [s.value], errors, refOnly, used + s.value.chars, n + 1, total, record)
  {
    s := MakeSlice(sources, n, used, total, record);
    if s.Some? {
      CountStep(sources, n);
      AppendSlice(sources, slices, n, used, total, record, s.value);
      AnswerSlice(sources, slices, errors, refOnly, n, total, record, s.value);
    }
  }

  /** One reference: a file reference, a failure or a slice, unless nothing is left to give. */
  method AnswerOne(sources: seq<Source>, slices: seq<Slice>, errors: seq<Failure>, refOnly: nat, used: nat, i: nat,
                   total: Option<nat>, record: Option<nat>)
    returns (stop: bool, slices': seq<Slice>, errors': seq<Failure>, refOnly': nat, used': nat)
    requires i < |sources| && Progress(sources, slices, errors, refOnly, used, i, total, record)
    ensures stop ==> Stopped(sources, used, i, total, record) && (slices', errors', refOnly', used') == (slices, errors, refOnly, used)
    ensures !stop ==> Progress(sources, slices', errors', refOnly', used', i + 1, total, record)
  {
    stop, slices', errors', refOnly', used' := false, slices, errors, refOnly, used;
    if sources[i].FileReference? {
      NoSliceStep(sources, slices, errors, refOnly, used, i, total, record);
      refOnly' := refOnly + 1;
    } else if total.Some? && slices != [] && used >= total.value {
      stop := true;
    } else if !sources[i].Loaded? {
      NoSliceStep(sources, slices, errors, refOnly, used, i, total, record);
      errors' := errors + [FailureOf(sources[i])];
    } else {
      var slice := TakeLoaded(sources, slices, errors, refOnly, used, i, total, record);
      if slice.None? {
        stop := true;
      } else {
        slices', used' := slices + [slice.value], used + slice.value.chars;
      }
    }
  }

  lemma StartProgress(sources: seq<Source>, total: Option<nat>, record: Option<nat>)
    ensures Progress(sources, [], [], 0, 0, 0, total, record)
  {}

  method ExpandAuthorityRefs(sources: seq<Source>, total: Option<nat>, record: Option<nat>) returns (e: Expansion, ghost n: nat)
    ensures Progress(sources, e.slices, e.errors, e.refOnly, e.used, n, total, record) && Stopped(sources, e.used, n, total, record)
    ensures e.status == StatusOf(|sources|, e.slices, e.errors, e.refOnly)
  {
    var used: nat, refOnly: nat := 0, 0;
    var slices: seq<Slice>, errors: seq<Failure> := [], [];
    n := 0;
    StartProgress(sources, total, record);
    for i := 0 to |sources|
      invariant n == i && Progress(sources, slices, errors, refOnly, used, i, total, record)
    {
      var stop;
      stop, slices, errors, refOnly, used := AnswerOne(sources, slices, errors, refOnly, used, i, total, record);
      if stop {
        break;
      }
      n := n + 1;
    }
    e := Expansion(StatusOf(|sources|, slices, errors, refOnly), slices, errors, refOnly, used);
  }

  /** However early the loop stops, as many slices as the still expected ones are exactly all loadable references. */
  lemma EarlyStop(sources: seq<Source>, i: nat, refOnly: nat, slices: nat)
    requires i <= |sources| && refOnly == CountFileRefs(sources[..i]) && slices <= CountLoadable(sources[..i])
    ensures refOnly <= CountFileRefs(sources)
    ensures slices >= |sources| - refOnly ==> slices == CountLoadable(sources)
  {
    CountsSplit(sources);
    CountLoadableGrows(sources, i);
    FileRefsGrow(sources, i);
  }

  lemma {:induction false} FileRefsGrow(sources: seq<Source>, n: nat)
    requires n <= |sources|
    ensures CountFileRefs(sources[..n]) <= CountFileRefs(sources)
    decreases |sources|
  {
    if n < |sources| {
      assert sources[..|sources| - 1][..n] == sources[..n];
      FileRefsGrow(sources[..|sources| - 1], n);
    } else {
      assert sources[..n] == sources;
    }
  }

  // ---- What PASS means ----

  predicate Increasing(slices: seq<Slice>) {
    forall i, j :: 0 <= i < j < |slices| ==> slices[i].ref < slices[j].ref
  }

  /** As many slices as there are loadable references, each for a loadable reference, in order: every one has its slice. */
  lemma {:induction false} EnoughSlicesCover(sources: seq<Source>, slices: seq<Slice>, k: nat)
    requires Increasing(slices) && forall i :: 0 <= i < |slices| ==> slices[i].ref < |sources| && sources[slices[i].ref].Loaded?
    requires k < |sources| && !sources[k].FileReference?
    requires |slices| == CountLoadable(sources)
    ensures exists i :: 0 <= i < |slices| && slices[i].ref == k
    decreases |sources|
  {
    var last := |sources| - 1;
    var shorter := sources[..last];
    if slices != [] && slices[|slices| - 1].ref == last {
      if k < last {
        EnoughSlicesCover(shorter, slices[..|slices| - 1], k);
      }
    } else {
      forall i | 0 <= i < |slices| ensures slices[i].ref < last {
        if i < |slices| - 1 { assert slices[i].ref < slices[|slices| - 1].ref; }
      }
      SlicesBounded(shorter, slices);
      EnoughSlicesCover(shorter, slices, k);
    }
  }

  /** There are never more slices than loadable references. */
  lemma {:induction false} SlicesBounded(sources: seq<Source>, slices: seq<Slice>)
    requires Increasing(slices) && forall i :: 0 <= i < |slices| ==> slices[i].ref < |sources| && sources[slices[i].ref].Loaded?
    ensures |slices| <= CountLoadable(sources)
    decreases |sources|
  {
    if slices != [] {
      var last := |sources| - 1;
      if slices[|slices| - 1].ref == last {
        SlicesBounded(sources[..last], slices[..|slices| - 1]);
      } else {
        forall i | 0 <= i < |slices| ensures slices[i].ref < last {
          if i < |slices| - 1 { assert slices[i].ref < slices[|slices| - 1].ref; }
        }
        SlicesBounded(sources[..last], slices);
      }
    }
  }

  lemma PassMeansEnough(sources: seq<Source>, e: Expansion, n: nat, total: Option<nat>, record: Option<nat>)
    requires Progress(sources, e.slices, e.errors, e.refOnly, e.used, n, total, record)
    requires StatusOf(|sources|, e.slices, e.errors, e.refOnly) == Pass
    ensures |e.slices| == CountLoadable(sources)
  {
    PassNeedsEnough(|sources|, e.slices, e.errors, e.refOnly);
    EarlyStop(sources, n, e.refOnly, |e.slices|);
  }

  /** PASS, however early the loop stopped: every reference that is not a file reference has exactly one slice, with its complete record. */
  lemma PassMeansComplete(sources: seq<Source>, e: Expansion, n: nat, total: Option<nat>, record: Option<nat>, k: nat)
    requires Progress(sources, e.slices, e.errors, e.refOnly, e.used, n, total, record)
    requires e.status == StatusOf(|sources|, e.slices, e.errors, e.refOnly) == Pass
    requires k < |sources| && !sources[k].FileReference?
    ensures exists i :: 0 <= i < |e.slices| && e.slices[i].ref == k && e.slices[i].full
                        && sources[k].Loaded? && e.slices[i].content == sources[k].serialized
                        && forall j :: 0 <= j < |e.slices| && e.slices[j].ref == k ==> j == i
  {
    PassMeansEnough(sources, e, n, total, record);
    EnoughSlicesCover(sources, e.slices, k);
    var i :| 0 <= i < |e.slices| && e.slices[i].ref == k;
    assert SliceOk(sources, e.slices[i], record);
    assert e.slices[i].full;
    assert forall a, b :: 0 <= a < b < |e.slices| ==> e.slices[a].ref != e.slices[b].ref;
  }

  lemma AllowedBinds(size: nat, used: nat, total: Option<nat>, record: Option<nat>)
    requires 0 < Allowed(size, used, total, record) < size
    ensures record == Some(Allowed(size, used, total, record)) || total == Some(used + Allowed(size, used, total, record))
  {}

  /** A cut record fills its own limit or the rest of the budget to the last character. */
  lemma CutOnlyAtALimit(sources: seq<Source>, slices: seq<Slice>, i: nat, total: Option<nat>, record: Option<nat>)
    requires i < |slices| && Maximal(sources, slices, i, total, record) && slices[i].chars > 0 && !slices[i].full
    ensures record == Some(slices[i].chars) || total == Some(Used(slices[..i + 1]))
  {
    AllowedBinds(|sources[slices[i].ref].serialized|, Used(slices[..i]), total, record);
    assert slices[..i + 1][..i] == slices[..i];
  }

  lemma {:induction false} NoFailures(sources: seq<Source>)
    requires forall s <- sources :: s.Loaded? || s.FileReference?
    ensures FailuresOf(sources) == []
  {
    if sources != [] {
      NoFailures(sources[..|sources| - 1]);
    }
  }

  /** Without limits nothing is held back: if every reference can be loaded, the answer is PASS. */
  lemma UnlimitedPasses(sources: seq<Source>, e: Expansion, n: nat, k: nat)
    requires Progress(sources, e.slices, e.errors, e.refOnly, e.used, n, None, None) && Stopped(sources, e.used, n, None, None)
    requires e.status == StatusOf(|sources|, e.slices, e.errors, e.refOnly)
    requires forall i :: 0 <= i < |sources| ==> sources[i].FileReference? || (sources[i].Loaded? && sources[i].serialized != "")
    requires k < |sources| && sources[k].Loaded?
    ensures e.status == Pass
  {
    assert n == |sources|;
    assert sources[..n] == sources;
    NoFailures(sources);
    CountsSplit(sources);
    forall i | 0 <= i < |e.slices| ensures e.slices[i].full {
      assert Maximal(sources, e.slices, i, None, None);
    }
  }
}
