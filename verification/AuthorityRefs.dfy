/** References to authority records, as the locator index returns them. */
module AuthorityRefs {
  import opened Basics
  import opened TextOrder

  datatype RefKind = CanonicalRef | StructuralRef | LocatorRef | RoutedFileRef

  datatype Reason =
    | ExplicitId | ExplicitEndpoint | RequestTerm | DomainHit | SectionIntent
    | RelationshipSameId | RelationshipReference | CoreMinimum | RoutedFileMinimum | OtherReason(text: string)

  /** Missing ids are empty texts; `domains` are the upper-cased record and route domains. */
  datatype Ref = Ref(
    path: string, selector: string, kind: RefKind, canonicalId: string, structuralId: string,
    referenceIds: seq<string>, fingerprint: string, group: Option<string>, section: string,
    domains: set<string>, score: int, reasons: seq<Reason>)

  type Key = (string, string)

  function KeyOf(r: Ref): Key {
    (r.path, r.selector)
  }

  function KeysOf(refs: seq<Ref>): set<Key> {
    set r <- refs :: KeyOf(r)
  }

  predicate UniqueKeys(refs: seq<Ref>) {
    forall i, j :: 0 <= i < j < |refs| ==> KeyOf(refs[i]) != KeyOf(refs[j])
  }

  /** A copy may differ in score and reasons only. */
  predicate SameRecord(a: Ref, b: Ref) {
    a == b.(score := a.score, reasons := a.reasons)
  }

  predicate IsExplicit(r: Ref) {
    ExplicitId in r.reasons || ExplicitEndpoint in r.reasons
  }

  // ---- Sorting by (path, selector) ----

  predicate KeyLess(a: Key, b: Key) {
    TextLess(a.0, b.0) || (a.0 == b.0 && TextLess(a.1, b.1))
  }

  function Insert(r: Ref, sorted: seq<Ref>): seq<Ref> {
    if sorted == [] then [r]
    else if KeyLess(KeyOf(r), KeyOf(sorted[0])) then [r] + sorted
    else [sorted[0]] + Insert(r, sorted[1..])
  }

  function SortByKey(refs: seq<Ref>): seq<Ref> {
    if refs == [] then [] else Insert(refs[|refs| - 1], SortByKey(refs[..|refs| - 1]))
  }

  lemma {:induction false} InsertElements(r: Ref, sorted: seq<Ref>)
    ensures forall x :: x in Insert(r, sorted) <==> x == r || x in sorted
  {
    if sorted != [] {
      InsertElements(r, sorted[1..]);
      assert sorted == [sorted[0]] + sorted[1..];
    }
  }

  lemma {:induction false} SortElements(refs: seq<Ref>)
    ensures forall x :: x in SortByKey(refs) <==> x in refs
  {
    if refs != [] {
      SortElements(refs[..|refs| - 1]);
      InsertElements(refs[|refs| - 1], SortByKey(refs[..|refs| - 1]));
      assert refs == refs[..|refs| - 1] + [refs[|refs| - 1]];
    }
  }

  /** Smaller path first, and on one path the smaller selector. */
  lemma KeyLessOrder(a: Key, b: Key, c: Key)
    ensures KeyLess(a, b) || KeyLess(b, a) || a == b
    ensures !(KeyLess(a, b) && KeyLess(b, a)) && !KeyLess(a, a)
    ensures KeyLess(a, b) && KeyLess(b, c) ==> KeyLess(a, c)
    ensures TextLess(a.0, b.0) ==> KeyLess(a, b)
    ensures a.0 == b.0 ==> (KeyLess(a, b) <==> TextLess(a.1, b.1))
  {
    TextTotal(a.0, b.0);
    TextTotal(a.1, b.1);
    if TextLess(a.0, b.0) && TextLess(b.0, c.0) { TextTransitive(a.0, b.0, c.0); }
    if TextLess(a.1, b.1) && TextLess(b.1, c.1) { TextTransitive(a.1, b.1, c.1); }
  }

  /** No record comes before one with a smaller key. */
  predicate InKeyOrder(refs: seq<Ref>) {
    forall i, j :: 0 <= i < j < |refs| ==> !KeyLess(KeyOf(refs[j]), KeyOf(refs[i]))
  }

  lemma {:induction false} InsertOrdered(r: Ref, sorted: seq<Ref>)
    requires InKeyOrder(sorted)
    ensures InKeyOrder(Insert(r, sorted)) && |Insert(r, sorted)| == |sorted| + 1
  {
    if sorted != [] {
      var first, rest := sorted[0], sorted[1..];
      if KeyLess(KeyOf(r), KeyOf(first)) {
        forall j | 0 <= j < |sorted| ensures !KeyLess(KeyOf(sorted[j]), KeyOf(r)) {
          KeyLessOrder(KeyOf(sorted[j]), KeyOf(r), KeyOf(first));
        }
      } else {
        InsertOrdered(r, rest);
        InsertElements(r, rest);
        var tail := Insert(r, rest);
        forall j | 0 <= j < |tail| ensures !KeyLess(KeyOf(tail[j]), KeyOf(first)) {
          assert tail[j] in tail;
        }
      }
    }
  }

  /** Sorting by key really sorts, and keeps every record as often as it occurs. */
  lemma {:induction false} SortOrdered(refs: seq<Ref>)
    ensures InKeyOrder(SortByKey(refs)) && |SortByKey(refs)| == |refs|
  {
    if refs != [] {
      SortOrdered(refs[..|refs| - 1]);
      InsertOrdered(refs[|refs| - 1], SortByKey(refs[..|refs| - 1]));
    }
  }

  lemma {:induction false} InsertUnique(r: Ref, sorted: seq<Ref>)
    requires UniqueKeys(sorted) && forall q <- sorted :: KeyOf(q) != KeyOf(r)
    ensures UniqueKeys(Insert(r, sorted))
  {
    if sorted != [] && !KeyLess(KeyOf(r), KeyOf(sorted[0])) {
      var rest := sorted[1..];
      InsertUnique(r, rest);
      InsertElements(r, rest);
      var tail := Insert(r, rest);
      forall j | 0 <= j < |tail| ensures KeyOf(tail[j]) != KeyOf(sorted[0]) {
        assert tail[j] in tail;
      }
    }
  }

  lemma {:induction false} SortUnique(refs: seq<Ref>)
    requires UniqueKeys(refs)
    ensures UniqueKeys(SortByKey(refs))
  {
    if refs != [] {
      var rest, last := refs[..|refs| - 1], refs[|refs| - 1];
      SortUnique(rest);
      SortElements(rest);
      forall q <- SortByKey(rest) ensures KeyOf(q) != KeyOf(last) {
        var k :| 0 <= k < |rest| && rest[k] == q;
      }
      InsertUnique(last, SortByKey(rest));
    }
  }
}
