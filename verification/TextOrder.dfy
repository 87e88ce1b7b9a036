/** Lexicographic order of number sequences and of texts. */
module TextOrder {
  predicate LexLess(a: seq<int>, b: seq<int>) {
    if a == [] then b != []
    else b != [] && (a[0] < b[0] || (a[0] == b[0] && LexLess(a[1..], b[1..])))
  }

  function Codes(s: string): seq<int> {
    seq(|s|, i requires 0 <= i < |s| => s[i] as int)
  }

  /** Text order by code point. */
  predicate TextLess(a: string, b: string) {
    LexLess(Codes(a), Codes(b))
  }

  /** At the first difference the smaller element or the end of the sequence comes first. */
  predicate DiffersAt(a: seq<int>, b: seq<int>, i: int) {
    0 <= i <= |a| && i < |b| && a[..i] == b[..i] && (i == |a| || a[i] < b[i])
  }

  lemma {:induction false} LexLessExactly(a: seq<int>, b: seq<int>)
    ensures LexLess(a, b) <==> exists i :: DiffersAt(a, b, i)
    decreases |a|
  {
    if a == [] || b == [] {
      if b != [] { assert DiffersAt(a, b, 0); }
    } else if a[0] == b[0] {
      LexLessExactly(a[1..], b[1..]);
      if i :| DiffersAt(a[1..], b[1..], i) {
        assert a[..i + 1] == [a[0]] + a[1..][..i] && b[..i + 1] == [b[0]] + b[1..][..i];
        assert DiffersAt(a, b, i + 1);
      }
      if i :| DiffersAt(a, b, i) {
        assert i > 0 && a[1..][..i - 1] == a[..i][1..] && b[1..][..i - 1] == b[..i][1..];
        assert DiffersAt(a[1..], b[1..], i - 1);
      }
    } else {
      if a[0] < b[0] { assert DiffersAt(a, b, 0); }
      if i :| DiffersAt(a, b, i) {
        assert i > 0 ==> a[..i][0] == b[..i][0];
      }
    }
  }

  /** One text comes before another exactly if it is a proper beginning of it or has the smaller character where they first differ. */
  lemma TextLessExactly(a: string, b: string)
    ensures TextLess(a, b) <==>
              exists i :: 0 <= i <= |a| && i < |b| && a[..i] == b[..i] && (i == |a| || (a[i] as int) < (b[i] as int))
  {
    LexLessExactly(Codes(a), Codes(b));
    forall i: int ensures DiffersAt(Codes(a), Codes(b), i) <==>
        0 <= i <= |a| && i < |b| && a[..i] == b[..i] && (i == |a| || (a[i] as int) < (b[i] as int))
    {
      if 0 <= i <= |a| && i < |b| { CodesPrefix(a, b, i); }
    }
  }

  lemma CodesPrefix(a: string, b: string, i: nat)
    requires i <= |a| && i <= |b|
    ensures Codes(a)[..i] == Codes(b)[..i] <==> a[..i] == b[..i]
  {
    if Codes(a)[..i] == Codes(b)[..i] {
      forall k | 0 <= k < i ensures a[k] == b[k] {
        assert Codes(a)[..i][k] == a[k] as int && Codes(b)[..i][k] == b[k] as int;
      }
    }
    if a[..i] == b[..i] {
      forall k | 0 <= k < i ensures Codes(a)[..i][k] == Codes(b)[..i][k] {
        assert a[..i][k] == b[..i][k];
      }
    }
  }

  lemma {:induction false} LexTotal(a: seq<int>, b: seq<int>)
    ensures a == b || LexLess(a, b) || LexLess(b, a)
    ensures !(LexLess(a, b) && LexLess(b, a)) && !LexLess(a, a)
    decreases |a|
  {
    if a != [] {
      LexTotal(a[1..], a[1..]);
      if b != [] {
        LexTotal(a[1..], b[1..]);
        assert a == [a[0]] + a[1..] && b == [b[0]] + b[1..];
      }
    }
  }

  lemma {:induction false} LexTransitive(a: seq<int>, b: seq<int>, c: seq<int>)
    requires LexLess(a, b) && LexLess(b, c)
    ensures LexLess(a, c)
  {
    if a != [] && a[0] == b[0] == c[0] {
      LexTransitive(a[1..], b[1..], c[1..]);
    }
  }

  lemma TextTotal(a: string, b: string)
    ensures a == b || TextLess(a, b) || TextLess(b, a)
    ensures !(TextLess(a, b) && TextLess(b, a)) && !TextLess(a, a)
  {
    LexTotal(Codes(a), Codes(b));
    LexTotal(Codes(a), Codes(a));
    if Codes(a) == Codes(b) {
      assert |a| == |Codes(a)| == |Codes(b)| == |b|;
      forall i | 0 <= i < |a| ensures a[i] == b[i] {
        assert Codes(a)[i] == a[i] as int && Codes(b)[i] == b[i] as int;
      }
    }
  }

  lemma TextTransitive(a: string, b: string, c: string)
    requires TextLess(a, b) && TextLess(b, c)
    ensures TextLess(a, c)
  {
    LexTransitive(Codes(a), Codes(b), Codes(c));
  }

  /** The smallest text of a set, as the first element of its sorted listing. */
  predicate Least(x: string, s: set<string>) {
    x in s && forall y <- s :: y == x || TextLess(x, y)
  }

  method FindLeast(s: set<string>) returns (x: string)
    requires s != {}
    ensures Least(x, s)
  {
    x :| x in s;
    var rest := s - {x};
    while rest != {}
      invariant rest <= s && x in s && x !in rest
      invariant forall y <- s - rest :: y == x || TextLess(x, y)
      decreases rest
    {
      var y :| y in rest;
      TextTotal(x, y);
      if TextLess(y, x) {
        forall z | z in s - rest && TextLess(x, z) ensures TextLess(y, z) {
          TextTransitive(y, x, z);
        }
        x := y;
      }
      rest := rest - {y};
    }
  }

  /** Strictly increasing listing of a set: sorted(...) of its elements. */
  predicate IsSorted(list: seq<string>, s: set<string>) {
    && (forall x <- s :: x in list)
    && (forall x <- list :: x in s)
    && forall i, j :: 0 <= i < j < |list| ==> TextLess(list[i], list[j])
  }

  method SortedList(s: set<string>) returns (list: seq<string>)
    ensures IsSorted(list, s)
  {
    list := [];
    var rest := s;
    while rest != {}
      invariant rest <= s
      invariant forall x <- list :: x in s - rest
      invariant forall x <- s - rest :: x in list
      invariant forall x <- list, y <- rest :: TextLess(x, y)
      invariant forall i, j :: 0 <= i < j < |list| ==> TextLess(list[i], list[j])
      decreases rest
    {
      var x := FindLeast(rest);
      forall y <- rest - {x} ensures TextLess(x, y) {}
      list := list + [x];
      rest := rest - {x};
    }
  }

  /** A set has one sorted listing. */
  lemma {:induction false} SortedUnique(a: seq<string>, b: seq<string>, s: set<string>)
    requires IsSorted(a, s) && IsSorted(b, s)
    ensures a == b
  {
    if a == [] {
      assert forall i :: 0 <= i < |b| ==> b[i] in b;
    } else {
      assert a[0] in b && b[0] in a;
      TextTotal(a[0], b[0]);
      var i :| 0 <= i < |b| && b[i] == a[0];
      var j :| 0 <= j < |a| && a[j] == b[0];
      assert a[0] == b[0];
      assert forall k :: 0 < k < |a| ==> TextLess(a[0], a[k]) && a[k] in a;
      assert forall k :: 0 < k < |b| ==> TextLess(b[0], b[k]) && b[k] in b;
      assert IsSorted(a[1..], s - {a[0]}) by { TailSorted(a, s); }
      assert IsSorted(b[1..], s - {b[0]}) by { TailSorted(b, s); }
      SortedUnique(a[1..], b[1..], s - {a[0]});
      assert a == [a[0]] + a[1..] && b == [b[0]] + b[1..];
    }
  }

  lemma TailSorted(a: seq<string>, s: set<string>)
    requires a != [] && IsSorted(a, s)
    ensures IsSorted(a[1..], s - {a[0]})
  {
    forall x <- s - {a[0]} ensures x in a[1..] {
      var i :| 0 <= i < |a| && a[i] == x;
      assert a[1..][i - 1] == x;
    }
    forall x <- a[1..] ensures x in s - {a[0]} {
      var i :| 0 <= i < |a[1..]| && a[1..][i] == x;
      assert a[i + 1] == x && TextLess(a[0], a[i + 1]);
      TextTotal(a[0], a[0]);
    }
  }
}
