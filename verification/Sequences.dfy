/** Concatenation of a list of strings. */
module Sequences {

  function Flatten<T>(parts: seq<seq<T>>): seq<T> {
    if parts == [] then [] else parts[0] + Flatten(parts[1..])
  }

  lemma {:induction false} FlattenConcat<T>(a: seq<seq<T>>, b: seq<seq<T>>)
    ensures Flatten(a + b) == Flatten(a) + Flatten(b)
  {
    if a == [] {
      assert a + b == b;
    } else {
      assert (a + b)[1..] == a[1..] + b;
      FlattenConcat(a[1..], b);
    }
  }

  lemma FlattenSnoc<T>(parts: seq<seq<T>>, last: seq<T>)
    ensures Flatten(parts + [last]) == Flatten(parts) + last
  {
    FlattenConcat(parts, [last]);
    assert [last][1..] == [];
  }

  /** Parts of 32 elements each are found at multiples of 32. */
  lemma {:induction false} FlattenAt<T>(parts: seq<seq<T>>, i: nat)
    requires forall p | p in parts :: |p| == 32
    requires i <= |parts|
    ensures |Flatten(parts)| == 32 * |parts|
    ensures i < |parts| ==> Flatten(parts)[32 * i..32 * i + 32] == parts[i]
  {
    if parts != [] {
      var rest := Flatten(parts[1..]);
      FlattenAt(parts[1..], if i > 0 then i - 1 else 0);
      if 0 < i < |parts| {
        assert Flatten(parts)[32 * i..32 * i + 32] == rest[32 * (i - 1)..32 * (i - 1) + 32];
      }
    }
  }

  /** The elements that satisfy `f`, in order. */
  function Filter<T>(s: seq<T>, f: T -> bool): seq<T> {
    if s == [] then [] else (if f(s[0]) then [s[0]] else []) + Filter(s[1..], f)
  }

  lemma {:induction false} FilterMembers<T>(s: seq<T>, f: T -> bool, x: T)
    ensures x in Filter(s, f) <==> x in s && f(x)
  {
    if s != [] {
      FilterMembers(s[1..], f, x);
      assert s == [s[0]] + s[1..];
    }
  }

  lemma {:induction false} FilterAll<T>(s: seq<T>, f: T -> bool)
    requires forall i | 0 <= i < |s| :: f(s[i])
    ensures Filter(s, f) == s
  {
    if s != [] {
      FilterAll(s[1..], f);
    }
  }

  ghost predicate NoRepeats<T>(s: seq<T>) {
    forall i, j | 0 <= i < j < |s| :: s[i] != s[j]
  }

  lemma {:induction false} NoRepeatsCount<T>(s: seq<T>, x: T)
    requires NoRepeats(s)
    ensures multiset(s)[x] <= 1
  {
    if s != [] {
      assert s == [s[0]] + s[1..];
      NoRepeatsCount(s[1..], x);
      assert s[0] !in s[1..];
    }
  }

  lemma NoRepeatsFollows<T>(a: seq<T>, b: seq<T>)
    requires multiset(a) == multiset(b) && NoRepeats(a)
    ensures NoRepeats(b)
  {
    forall i, j | 0 <= i < j < |b|
      ensures b[i] != b[j]
    {
      NoRepeatsCount(a, b[i]);
      assert b == b[..j] + b[j..];
      assert b[..j][i] in multiset(b[..j]) && b[j..][0] in multiset(b[j..]);
    }
  }

  /** Of as many elements as a list without repeats has, exactly those are a rearrangement that repeat nothing. */
  lemma RearrangementIff<T>(a: seq<T>, b: seq<T>)
    requires NoRepeats(a) && |a| == |b|
    ensures multiset(a) == multiset(b) <==> NoRepeats(b) && forall i | 0 <= i < |b| :: b[i] in a
  {
    if multiset(a) == multiset(b) {
      NoRepeatsFollows(a, b);
      forall i | 0 <= i < |b|
        ensures b[i] in a
      {
        assert b[i] in multiset(b);
      }
    } else if NoRepeats(b) && forall i | 0 <= i < |b| :: b[i] in a {
      forall x
        ensures multiset(b)[x] <= multiset(a)[x]
      {
        NoRepeatsCount(b, x);
        if x in multiset(b) {
          assert x in b && x in a;
          assert x in multiset(a);
        }
      }
      FullSubset(multiset(b), multiset(a));
    }
  }

  lemma FullSubset<T>(m: multiset<T>, n: multiset<T>)
    requires m <= n && |m| == |n|
    ensures m == n
  {
    assert n == m + (n - m);
    assert |n| == |m| + |n - m|;
  }

  lemma {:induction false} Elements<T>(s: seq<T>)
    requires NoRepeats(s)
    ensures |set x | x in s| == |s|
  {
    if s != [] {
      var (init, last) := (s[..|s| - 1], s[|s| - 1]);
      Elements(init);
      assert (set x | x in s) == (set x | x in init) + {last};
      assert last !in init;
    }
  }

  function Below(n: nat): (r: set<nat>)
    ensures |r| == n
    ensures forall k: nat :: k in r <==> k < n
  {
    if n == 0 then {} else Below(n - 1) + {n - 1}
  }

  lemma Subset<T>(a: set<T>, b: set<T>)
    requires a <= b
    ensures |a| <= |b|
  {
    assert b == a + (b - a);
  }

  /** Distinct numbers below `n` are at most `n`. */
  lemma Pigeonhole(s: seq<nat>, n: nat)
    requires NoRepeats(s) && forall i | 0 <= i < |s| :: s[i] < n
    ensures |s| <= n
  {
    var elements := set x | x in s;
    Elements(s);
    Subset(elements, Below(n));
  }
}
