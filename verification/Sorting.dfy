/** Sorting under a total order, as Python's `sorted` and `list.sort` do it. */
module Sorting {

  ghost predicate TotalOrder<T(!new)>(lte: (T, T) -> bool) {
    && (forall x, y :: lte(x, y) || lte(y, x))
    && (forall x, y :: lte(x, y) && lte(y, x) ==> x == y)
    && (forall x, y, z :: lte(x, y) && lte(y, z) ==> lte(x, z))
  }

  ghost predicate Sorted<T>(s: seq<T>, lte: (T, T) -> bool) {
    forall i, j | 0 <= i < j < |s| :: lte(s[i], s[j])
  }

  function Insert<T>(x: T, s: seq<T>, lte: (T, T) -> bool): (r: seq<T>)
    ensures multiset(r) == multiset([x]) + multiset(s)
  {
    if s == [] || lte(x, s[0]) then [x] + s
    else
      assert s == [s[0]] + s[1..];
      [s[0]] + Insert(x, s[1..], lte)
  }

  lemma {:induction false} InsertSorted<T(!new)>(x: T, s: seq<T>, lte: (T, T) -> bool)
    requires TotalOrder(lte) && Sorted(s, lte)
    ensures Sorted(Insert(x, s, lte), lte)
  {
    if s != [] && !lte(x, s[0]) {
      InsertSorted(x, s[1..], lte);
      var rest := Insert(x, s[1..], lte);
      forall j | 0 <= j < |rest|
        ensures lte(s[0], rest[j])
      {
        assert rest[j] in multiset(rest);
        if rest[j] != x {
          assert rest[j] in multiset(s[1..]);
          var k :| 0 <= k < |s[1..]| && s[1..][k] == rest[j];
        }
      }
    }
  }

  function Sort<T>(s: seq<T>, lte: (T, T) -> bool): (r: seq<T>)
    ensures multiset(r) == multiset(s)
    ensures |r| == |s|
  {
    if s == [] then []
    else
      assert s == [s[0]] + s[1..];
      var r := Insert(s[0], Sort(s[1..], lte), lte);
      assert |multiset(r)| == |multiset(s)|;
      r
  }

  lemma {:induction false} SortSorted<T(!new)>(s: seq<T>, lte: (T, T) -> bool)
    requires TotalOrder(lte)
    ensures Sorted(Sort(s, lte), lte)
  {
    if s != [] {
      SortSorted(s[1..], lte);
      InsertSorted(s[0], Sort(s[1..], lte), lte);
    }
  }

  lemma LeastFirst<T(!new)>(a: seq<T>, b: seq<T>, lte: (T, T) -> bool)
    requires TotalOrder(lte) && Sorted(a, lte) && Sorted(b, lte)
    requires multiset(a) == multiset(b) && a != [] && b != []
    ensures a[0] == b[0]
  {
    assert a[0] in multiset(b) && b[0] in multiset(a);
    var i :| 0 <= i < |b| && b[i] == a[0];
    var j :| 0 <= j < |a| && a[j] == b[0];
    assert lte(a[0], a[j]) && lte(b[0], b[i]);
  }

  /** A sorted list is determined by what it contains. */
  lemma {:induction false} SortedUnique<T(!new)>(a: seq<T>, b: seq<T>, lte: (T, T) -> bool)
    requires TotalOrder(lte) && Sorted(a, lte) && Sorted(b, lte)
    requires multiset(a) == multiset(b)
    ensures a == b
  {
    assert |a| == |multiset(a)| == |multiset(b)| == |b|;
    if a != [] {
      LeastFirst(a, b, lte);
      assert a == [a[0]] + a[1..] && b == [b[0]] + b[1..];
      assert multiset(a[1..]) == multiset(a) - multiset([a[0]]);
      assert multiset(b[1..]) == multiset(b) - multiset([b[0]]);
      SortedUnique(a[1..], b[1..], lte);
    }
  }

  /** The order in which the elements arrive does not matter. */
  lemma SortIgnoresOrder<T(!new)>(a: seq<T>, b: seq<T>, lte: (T, T) -> bool)
    requires TotalOrder(lte)
    requires multiset(a) == multiset(b)
    ensures Sort(a, lte) == Sort(b, lte)
  {
    SortSorted(a, lte);
    SortSorted(b, lte);
    SortedUnique(Sort(a, lte), Sort(b, lte), lte);
  }

  // ---------------------------------------------------------------- Lexicographic order

  /** `a` is a prefix of `b`, or smaller where the two first differ. */
  ghost predicate Lexicographic(a: seq<int>, b: seq<int>) {
    a <= b || exists k: nat :: SmallerAt(a, b, k)
  }

  ghost predicate SmallerAt(a: seq<int>, b: seq<int>, k: nat) {
    k < |a| && k < |b| && a[..k] == b[..k] && a[k] < b[k]
  }

  lemma LexicographicNone(b: seq<int>)
    ensures Lexicographic([], b)
    ensures b != [] ==> !Lexicographic(b, [])
  {
  }

  /** One place at a time. */
  lemma LexicographicFirst(a: seq<int>, b: seq<int>)
    requires a != [] && b != []
    ensures Lexicographic(a, b) <==> a[0] < b[0] || (a[0] == b[0] && Lexicographic(a[1..], b[1..]))
  {
    if a[0] < b[0] {
      assert SmallerAt(a, b, 0);
    }
    if a[0] == b[0] && Lexicographic(a[1..], b[1..]) {
      if a[1..] <= b[1..] {
        assert a == [a[0]] + a[1..] && b == [b[0]] + b[1..];
      } else {
        var k: nat :| SmallerAt(a[1..], b[1..], k);
        assert a[..k + 1] == [a[0]] + a[1..][..k] && b[..k + 1] == [b[0]] + b[1..][..k];
        assert SmallerAt(a, b, k + 1);
      }
    }
    if Lexicographic(a, b) && !(a[0] < b[0]) {
      if a <= b {
        assert b[..|a|] == a;
        assert a[1..] == b[1..][..|a| - 1];
      } else {
        var k: nat :| SmallerAt(a, b, k);
        assert k > 0 && a[..k][0] == b[..k][0];
        assert a[1..][..k - 1] == a[..k][1..] && b[1..][..k - 1] == b[..k][1..];
        assert SmallerAt(a[1..], b[1..], k - 1);
      }
    }
  }
}
