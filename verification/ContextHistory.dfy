/** The deduplicating history of what a context consumer has read. */
module ContextHistory {
  import opened Basics

  const CAPACITY: nat := 500

  datatype Category = AuthorityRead | SourceCode | Tests | ToolOutputs | RepoIntelligence

  /** Consumer, locator, scope and content digest identify one read. */
  datatype Key = Key(consumer: string, locator: string, scope: string, digest: string)

  datatype IdentityKind = Canonical | Structural | LocatorOnly | OtherKind

  /** The record identity and fingerprint stored with a precise authority load. */
  datatype Evidence = Evidence(taskId: string, fullRecord: bool, kind: IdentityKind,
                               canonicalId: string, structuralId: string, fingerprint: string)

  datatype Entry = Entry(key: Key, expanded: bool, evidence: Option<Evidence>)

  datatype History = History(buckets: map<Category, seq<Entry>>, reused: nat, expanded: nat, loaded: nat) {
    function Bucket(category: Category): seq<Entry> {
      if category in buckets then buckets[category] else []
    }
  }

  datatype Call = Call(category: Category, key: Key, expand: bool, force: bool, evidence: Option<Evidence>)

  const EMPTY := History(map[], 0, 0, 0)

  /** The position of the first entry with a key, or the length. */
  function IndexOf(bucket: seq<Entry>, key: Key): (i: nat)
    ensures i <= |bucket|
    ensures i < |bucket| ==> bucket[i].key == key
    ensures forall j :: 0 <= j < i ==> bucket[j].key != key
  {
    if bucket == [] then 0
    else if bucket[0].key == key then 0
    else 1 + IndexOf(bucket[1..], key)
  }

  predicate Holds(bucket: seq<Entry>, key: Key) {
    IndexOf(bucket, key) < |bucket|
  }

  function LastN<T>(s: seq<T>, n: nat): seq<T> {
    if |s| <= n then s else s[|s| - n..]
  }

  function WithEvidence(e: Entry, evidence: Option<Evidence>): Entry {
    if evidence.Some? then e.(evidence := evidence) else e
  }

  /** The bucket after a call. */
  function Updated(bucket: seq<Entry>, c: Call): seq<Entry> {
    var i := IndexOf(bucket, c.key);
    if i < |bucket| then bucket[i := WithEvidence(bucket[i].(expanded := c.expand || bucket[i].expanded), c.evidence)]
    else LastN(bucket + [Entry(c.key, c.expand, c.evidence)], CAPACITY)
  }

  /** The content is withheld: it was read before and nothing more is asked for. */
  predicate Withheld(bucket: seq<Entry>, c: Call) {
    Holds(bucket, c.key) && !c.force && !(c.expand && !bucket[IndexOf(bucket, c.key)].expanded)
  }

  function Record(h: History, c: Call): History {
    var bucket := h.Bucket(c.category);
    var next := h.(buckets := h.buckets[c.category := Updated(bucket, c)]);
    if Withheld(bucket, c) then next.(reused := h.reused + 1)
    else if c.expand then next.(expanded := h.expanded + 1)
    else next.(loaded := h.loaded + 1)
  }

  class TaskHistory {
    var buckets: map<Category, seq<Entry>>
    var reused: nat
    var expanded: nat
    var loaded: nat

    function State(): History
      reads this
    {
      History(buckets, reused, expanded, loaded)
    }

    method RecordContextRead(category: Category, key: Key, expand: bool, force: bool, evidence: Option<Evidence>)
      returns (withheld: bool)
      modifies this
      ensures var c := Call(category, key, expand, force, evidence);
              State() == Record(old(State()), c) && withheld == Withheld(old(State()).Bucket(category), c)
    {
      if category !in buckets {
        buckets := buckets[category := []];
      }
      var bucket := buckets[category];
      var i := 0;
      while i < |bucket| && bucket[i].key != key
        invariant i <= |bucket| && forall j :: 0 <= j < i ==> bucket[j].key != key
      {
        i := i + 1;
      }
      if i < |bucket| && !force {
        var prior := bucket[i];
        if evidence.Some? {
          prior := prior.(evidence := evidence);
        }
        if expand && !prior.expanded {
          prior := prior.(expanded := true);
          buckets := buckets[category := bucket[i := prior]];
          expanded := expanded + 1;
          return false;
        }
        buckets := buckets[category := bucket[i := prior]];
        reused := reused + 1;
        return true;
      }
      if i < |bucket| {
        var prior := bucket[i].(expanded := expand || bucket[i].expanded);
        if evidence.Some? {
          prior := prior.(evidence := evidence);
        }
        buckets := buckets[category := bucket[i := prior]];
      } else {
        bucket := bucket + [Entry(key, expand, evidence)];
        if |bucket| > CAPACITY {
          bucket := bucket[|bucket| - CAPACITY..];
        }
        buckets := buckets[category := bucket];
      }
      if expand {
        expanded := expanded + 1;
      } else {
        loaded := loaded + 1;
      }
      return false;
    }
  }

  // ---- The history against the full log of calls ----

  function After(calls: seq<Call>): History {
    if calls == [] then EMPTY
    else Record(After(calls[..|calls| - 1]), calls[|calls| - 1])
  }

  /** Call i was answered with content. */
  predicate Delivered(calls: seq<Call>, i: nat)
    requires i < |calls|
  {
    !Withheld(After(calls[..i]).Bucket(calls[i].category), calls[i])
  }

  predicate SameRead(a: Call, b: Call) {
    a.category == b.category && a.key == b.key
  }

  /** The keys in the order in which entries were appended to one bucket. */
  function Insertions(calls: seq<Call>, category: Category): seq<Key> {
    if calls == [] then []
    else
      var before, c := calls[..|calls| - 1], calls[|calls| - 1];
      Insertions(before, category)
      + if c.category == category && !Holds(After(before).Bucket(category), c.key) then [c.key] else []
  }

  function Keys(bucket: seq<Entry>): seq<Key> {
    seq(|bucket|, i requires 0 <= i < |bucket| => bucket[i].key)
  }

  predicate UniqueKeys(bucket: seq<Entry>) {
    forall i, j :: 0 <= i < j < |bucket| ==> bucket[i].key != bucket[j].key
  }

  /** An earlier call delivered this read, with expansion if `expand`. */
  ghost predicate DeliveredBefore(calls: seq<Call>, n: nat, category: Category, key: Key, expand: bool)
    requires n <= |calls|
  {
    exists j :: 0 <= j < n && calls[j].category == category && calls[j].key == key
                && Delivered(calls, j) && (expand ==> calls[j].expand)
  }

  ghost predicate BucketOk(calls: seq<Call>, category: Category) {
    var bucket := After(calls).Bucket(category);
    && |bucket| <= CAPACITY && UniqueKeys(bucket)
    && Keys(bucket) == LastN(Insertions(calls, category), CAPACITY)
    && forall e <- bucket ::
         && DeliveredBefore(calls, |calls|, category, e.key, false)
         && (e.expanded ==> DeliveredBefore(calls, |calls|, category, e.key, true))
  }

  lemma LastNAppend<T>(s: seq<T>, x: T, n: nat)
    requires n > 0
    ensures LastN(LastN(s, n) + [x], n) == LastN(s + [x], n)
  {}

  lemma DeliveredPrefix(calls: seq<Call>, c: Call, j: nat)
    requires j < |calls|
    ensures Delivered(calls + [c], j) == Delivered(calls, j)
  {
    assert (calls + [c])[..j] == calls[..j];
  }

  lemma DeliveredBeforeGrows(calls: seq<Call>, c: Call, category: Category, key: Key, expand: bool)
    requires DeliveredBefore(calls, |calls|, category, key, expand)
    ensures DeliveredBefore(calls + [c], |calls| + 1, category, key, expand)
  {
    var j :| 0 <= j < |calls| && calls[j].category == category && calls[j].key == key
             && Delivered(calls, j) && (expand ==> calls[j].expand);
    DeliveredPrefix(calls, c, j);
    assert (calls + [c])[j] == calls[j];
  }

  lemma UpdatedKeys(bucket: seq<Entry>, c: Call)
    requires UniqueKeys(bucket) && |bucket| <= CAPACITY
    ensures UniqueKeys(Updated(bucket, c)) && |Updated(bucket, c)| <= CAPACITY
    ensures Keys(Updated(bucket, c)) == if Holds(bucket, c.key) then Keys(bucket) else LastN(Keys(bucket) + [c.key], CAPACITY)
  {}

  lemma {:induction false} HistoryInvariant(calls: seq<Call>, category: Category)
    ensures BucketOk(calls, category)
  {
    if calls == [] {
      assert After(calls).Bucket(category) == [];
    } else {
      var before, c := calls[..|calls| - 1], calls[|calls| - 1];
      assert calls == before + [c];
      HistoryInvariant(before, category);
      if c.category == category {
        SameBucketStep(before, c);
      } else {
        OtherBucketStep(before, c, category);
      }
    }
  }

  lemma {:induction false} OtherBucketStep(before: seq<Call>, c: Call, category: Category)
    requires BucketOk(before, category) && c.category != category
    ensures BucketOk(before + [c], category)
  {
    var calls := before + [c];
    assert calls[..|calls| - 1] == before;
    assert After(calls).Bucket(category) == After(before).Bucket(category);
    assert Insertions(calls, category) == Insertions(before, category);
    forall e <- After(before).Bucket(category)
      ensures DeliveredBefore(calls, |calls|, category, e.key, false)
      ensures e.expanded ==> DeliveredBefore(calls, |calls|, category, e.key, true)
    {
      DeliveredBeforeGrows(before, c, category, e.key, false);
      if e.expanded { DeliveredBeforeGrows(before, c, category, e.key, true); }
    }
  }

  lemma {:induction false} KeysAfter(bucket: seq<Entry>, inserted: seq<Key>, c: Call)
    requires |bucket| <= CAPACITY && UniqueKeys(bucket) && Keys(bucket) == LastN(inserted, CAPACITY)
    ensures |Updated(bucket, c)| <= CAPACITY && UniqueKeys(Updated(bucket, c))
    ensures Keys(Updated(bucket, c)) == LastN(inserted + if Holds(bucket, c.key) then [] else [c.key], CAPACITY)
  {
    UpdatedKeys(bucket, c);
    LastNAppend(inserted, c.key, CAPACITY);
    assert inserted + [] == inserted;
  }

  lemma {:induction false} InsertionsStep(before: seq<Call>, c: Call)
    ensures Insertions(before + [c], c.category)
         == Insertions(before, c.category) + if Holds(After(before).Bucket(c.category), c.key) then [] else [c.key]
  {
    assert (before + [c])[..|before|] == before;
  }

  lemma {:induction false} SameBucketStep(before: seq<Call>, c: Call)
    requires BucketOk(before, c.category)
    ensures BucketOk(before + [c], c.category)
  {
    var calls := before + [c];
    var bucket := After(before).Bucket(c.category);
    assert calls[..|calls| - 1] == before;
    assert After(calls).Bucket(c.category) == Updated(bucket, c);
    KeysAfter(bucket, Insertions(before, c.category), c);
    InsertionsStep(before, c);
    forall e <- Updated(bucket, c)
      ensures DeliveredBefore(calls, |calls|, c.category, e.key, false)
      ensures e.expanded ==> DeliveredBefore(calls, |calls|, c.category, e.key, true)
    {
      UpdatedEntryDelivered(before, c, e);
    }
  }

  lemma {:induction false} UpdatedEntryDelivered(before: seq<Call>, c: Call, e: Entry)
    requires BucketOk(before, c.category) && e in Updated(After(before).Bucket(c.category), c)
    ensures DeliveredBefore(before + [c], |before| + 1, c.category, e.key, false)
    ensures e.expanded ==> DeliveredBefore(before + [c], |before| + 1, c.category, e.key, true)
  {
    var calls := before + [c];
    var bucket := After(before).Bucket(c.category);
    assert calls[..|before|] == before && calls[|before|] == c;
    assert Delivered(calls, |before|) <==> !Withheld(bucket, c);
    if e in bucket {
      DeliveredBeforeGrows(before, c, c.category, e.key, false);
      if e.expanded { DeliveredBeforeGrows(before, c, c.category, e.key, true); }
    } else if Holds(bucket, c.key) {
      var prior := bucket[IndexOf(bucket, c.key)];
      assert e.key == prior.key && prior in bucket;
      DeliveredBeforeGrows(before, c, c.category, prior.key, false);
      if prior.expanded { DeliveredBeforeGrows(before, c, c.category, prior.key, true); }
    }
  }

  /** Per bucket: unique keys, at most 500 of them, and exactly the 500 most recently inserted. */
  lemma BucketsAreBounded(calls: seq<Call>, category: Category)
    ensures UniqueKeys(After(calls).Bucket(category))
    ensures |After(calls).Bucket(category)| <= CAPACITY
    ensures Keys(After(calls).Bucket(category)) == LastN(Insertions(calls, category), CAPACITY)
  {
    HistoryInvariant(calls, category);
  }

  /** Content is withheld only after the same read was delivered, and delivered expanded if expansion is asked for now. */
  lemma WithheldOnlyAfterDelivery(calls: seq<Call>, i: nat)
    requires i < |calls| && !Delivered(calls, i)
    ensures !calls[i].force
    ensures exists j :: 0 <= j < i && SameRead(calls[j], calls[i]) && Delivered(calls, j)
    ensures calls[i].expand ==> exists j :: 0 <= j < i && SameRead(calls[j], calls[i]) && Delivered(calls, j) && calls[j].expand
  {
    var before, c := calls[..i], calls[i];
    HistoryInvariant(before, c.category);
    var bucket := After(before).Bucket(c.category);
    var prior := bucket[IndexOf(bucket, c.key)];
    assert prior in bucket;
    forall j | 0 <= j < i ensures Delivered(before, j) == Delivered(calls, j) && before[j] == calls[j] {
      assert before[..j] == calls[..j];
    }
  }

  function CountWithheld(calls: seq<Call>): nat {
    if calls == [] then 0
    else
      CountWithheld(calls[..|calls| - 1])
      + if Delivered(calls, |calls| - 1) then 0 else 1
  }

  /** Every call raises exactly one counter, and the reuse counter counts exactly the withheld reads. */
  lemma {:induction false} CountersSum(calls: seq<Call>)
    ensures After(calls).reused + After(calls).expanded + After(calls).loaded == |calls|
    ensures After(calls).reused == CountWithheld(calls)
  {
    if calls != [] {
      CountersSum(calls[..|calls| - 1]);
    }
  }

  /** A full load is stored with its evidence, and while nothing is evicted every other entry stays as it is. */
  lemma LoadIsStored(h: History, c: Call)
    requires var bucket := h.Bucket(c.category);
             UniqueKeys(bucket) && (Holds(bucket, c.key) || |bucket| < CAPACITY)
    requires c.expand && c.evidence.Some?
    ensures var bucket, next := h.Bucket(c.category), Record(h, c).Bucket(c.category);
            && Entry(c.key, true, c.evidence) in next
            && (forall e <- bucket | e.key != c.key :: e in next)
            && (forall e <- next :: e in bucket || e == Entry(c.key, true, c.evidence))
            && UniqueKeys(next)
            && |next| == |bucket| + if Holds(bucket, c.key) then 0 else 1
  {
    var bucket := h.Bucket(c.category);
    var next := Record(h, c).Bucket(c.category);
    assert next == Updated(bucket, c);
    var i := IndexOf(bucket, c.key);
    assert next[i] == Entry(c.key, true, c.evidence);
    forall e <- bucket | e.key != c.key ensures e in next {
      var j :| 0 <= j < |bucket| && bucket[j] == e;
      assert next[j] == e;
    }
  }
}
