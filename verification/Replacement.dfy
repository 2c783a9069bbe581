/**
 The sealed-set replacement that a compaction intent records between two Manifests, and what a
 chain of such replacements does to the segment set.
 */
module Replacement {
  import opened Manifest
  import opened Sequences
  import opened Sorting

  /** Python's order on segment tuples. */
  predicate Lte(a: Entry, b: Entry) {
    || a.id < b.id
    || (a.id == b.id && (
      || a.generation < b.generation
      || (a.generation == b.generation && (
        || a.owner < b.owner
        || (a.owner == b.owner && a.role <= b.role)))))
  }

  lemma LteIsTotal()
    ensures TotalOrder(Lte)
  {
  }

  /** A sealed segment of Worker 0, the only Worker an intent may name. */
  predicate IsSource(e: Entry) {
    e.owner == 0 && e.role == 2
  }

  function Sources(s: seq<Entry>): (r: seq<Entry>)
    ensures forall e | e in r :: IsSource(e) && e in s
    ensures |r| <= |s|
  {
    if s == [] then [] else (if IsSource(s[0]) then [s[0]] else []) + Sources(s[1..])
  }

  function Retained(s: seq<Entry>): (r: seq<Entry>)
    ensures forall e | e in r :: !IsSource(e) && e in s
    ensures |r| <= |s|
  {
    if s == [] then [] else (if IsSource(s[0]) then [] else [s[0]]) + Retained(s[1..])
  }

  function Aged(e: Entry, n: nat): Entry {
    e.(generation := e.generation + n)
  }

  /** The same segments `n` generations later. */
  function AgedAll(s: seq<Entry>, n: nat): (r: seq<Entry>)
    ensures |r| == |s|
    ensures forall i | 0 <= i < |s| :: r[i] == Aged(s[i], n)
  {
    seq(|s|, i requires 0 <= i < |s| => Aged(s[i], n))
  }

  function Replaced(s: seq<Entry>, k: nat): (r: seq<Entry>)
    requires k <= |Sources(s)|
    ensures |r| == |Retained(s)| + k
  {
    Retained(s) + AgedAll(Sources(s)[..k], 1)
  }

  /** The canonical next segment list with `k` outputs. */
  function NextSegments(s: seq<Entry>, k: nat): (r: seq<Entry>)
    requires k <= |Sources(s)|
    ensures |r| == |Retained(s)| + k
  {
    Sort(Replaced(s, k), Lte)
  }

  // ---------------------------------------------------------------- The same, written out

  /** A segment as the tuple the script reads. */
  function Tuple(e: Entry): seq<int> {
    [e.id, e.generation, e.owner, e.role]
  }

  lemma LteIsTupleOrder(a: Entry, b: Entry)
    ensures Lte(a, b) <==> Lexicographic(Tuple(a), Tuple(b))
  {
    var (s, t) := (Tuple(a), Tuple(b));
    assert s[1..][1..] == s[2..] && s[2..][1..] == s[3..] && s[3..][1..] == [];
    assert t[1..][1..] == t[2..] && t[2..][1..] == t[3..] && t[3..][1..] == [];
    LexicographicFirst(s, t);
    LexicographicFirst(s[1..], t[1..]);
    LexicographicFirst(s[2..], t[2..]);
    LexicographicFirst(s[3..], t[3..]);
    LexicographicNone([]);
  }

  /** The sources are the sealed segments of Worker 0: owner 0 and role 2. */
  lemma {:induction false} SourcesAre(s: seq<Entry>)
    ensures Sources(s) == Filter(s, (e: Entry) => e.owner == 0 && e.role == 2)
    ensures Retained(s) == Filter(s, (e: Entry) => e.owner != 0 || e.role != 2)
  {
    if s != [] {
      SourcesAre(s[1..]);
    }
  }

  /**
   The canonical next list: in tuple order, the segments that are not sealed ones of Worker 0 as they are,
   and the first `k` sealed ones a generation later.
   */
  lemma CanonicalIff(s: seq<Entry>, k: nat, t: seq<Entry>)
    requires k <= |Filter(s, (e: Entry) => e.owner == 0 && e.role == 2)|
    ensures var sealed := Filter(s, (e: Entry) => e.owner == 0 && e.role == 2);
            var others := Filter(s, (e: Entry) => e.owner != 0 || e.role != 2);
            var later := seq(k, i requires 0 <= i < k => Entry(sealed[i].id, sealed[i].generation + 1, 0, 2));
            && k <= |Sources(s)|
            && (t == NextSegments(s, k) <==>
                 && multiset(t) == multiset(others) + multiset(later)
                 && forall i, j | 0 <= i < j < |t| :: Lexicographic(Tuple(t[i]), Tuple(t[j])))
  {
    hide Sources, Retained, Filter, Sort, Lte, Tuple;
    var sealed := Filter(s, (e: Entry) => e.owner == 0 && e.role == 2);
    var others := Filter(s, (e: Entry) => e.owner != 0 || e.role != 2);
    SourcesAre(s);
    var later := seq(k, i requires 0 <= i < k => Entry(sealed[i].id, sealed[i].generation + 1, 0, 2));
    forall i | 0 <= i < k
      ensures AgedAll(sealed[..k], 1)[i] == later[i]
    {
      assert sealed[i] in Sources(s);
    }
    assert AgedAll(sealed[..k], 1) == later;
    LteIsTotal();
    SortSorted(Replaced(s, k), Lte);
    TupleOrder(t);
    TupleOrder(NextSegments(s, k));
    if multiset(t) == multiset(others) + multiset(later) && Sorted(t, Lte) {
      SortedUnique(t, NextSegments(s, k), Lte);
    }
  }

  lemma TupleOrder(t: seq<Entry>)
    ensures Sorted(t, Lte) <==> forall i, j | 0 <= i < j < |t| :: Lexicographic(Tuple(t[i]), Tuple(t[j]))
  {
    hide Lte, Tuple;
    forall i, j | 0 <= i < j < |t|
      ensures Lte(t[i], t[j]) <==> Lexicographic(Tuple(t[i]), Tuple(t[j]))
    {
      LteIsTupleOrder(t[i], t[j]);
    }
  }

  ghost predicate SameMetadata(a: View, b: View) {
    && a.storeId == b.storeId
    && (a.routing, a.workers, a.epoch) == (b.routing, b.workers, b.epoch)
    && (a.nextId, a.nextGeneration) == (b.nextId, b.nextGeneration)
  }

  /** One accepted step from `prior` to `next`. */
  ghost predicate SealedStep(prior: View, next: View) {
    && SameMetadata(prior, next)
    && next.generation == prior.generation + 1
    && 0 < prior.workers
    && Sources(prior.segments) != []
    && var k := |next.segments| - |Retained(prior.segments)|;
    && 0 <= k <= |Sources(prior.segments)|
    && next.segments == NextSegments(prior.segments, k)
  }

  // ---------------------------------------------------------------- Filters and multisets

  lemma {:induction false} Partition(s: seq<Entry>)
    ensures multiset(Sources(s)) + multiset(Retained(s)) == multiset(s)
    ensures |Sources(s)| + |Retained(s)| == |s|
  {
    if s != [] {
      Partition(s[1..]);
      assert s == [s[0]] + s[1..];
    }
  }

  lemma CountCons(e: Entry, s: seq<Entry>, x: Entry)
    ensures multiset([e] + s)[x] == (if e == x then 1 else 0) + multiset(s)[x]
  {
  }

  lemma FilterCons(s: seq<Entry>)
    requires s != []
    ensures IsSource(s[0]) ==> Sources(s) == [s[0]] + Sources(s[1..]) && Retained(s) == Retained(s[1..])
    ensures !IsSource(s[0]) ==> Sources(s) == Sources(s[1..]) && Retained(s) == [s[0]] + Retained(s[1..])
  {
    assert [] + Sources(s[1..]) == Sources(s[1..]) && [] + Retained(s[1..]) == Retained(s[1..]);
  }

  lemma FilterNone()
    ensures Sources([]) == [] && Retained([]) == []
  {
  }

  lemma {:induction false} SourcesCount(s: seq<Entry>, x: Entry)
    ensures multiset(Sources(s))[x] == if IsSource(x) then multiset(s)[x] else 0
    ensures multiset(Retained(s))[x] == if IsSource(x) then 0 else multiset(s)[x]
  {
    hide Sources, Retained;
    if s == [] {
      FilterNone();
    } else {
      var (e, t) := (s[0], s[1..]);
      SourcesCount(t, x);
      FilterCons(s);
      assert s == [e] + t;
      CountCons(e, t, x);
      CountCons(e, Sources(t), x);
      CountCons(e, Retained(t), x);
    }
  }

  lemma FiltersFollowMultiset(a: seq<Entry>, b: seq<Entry>)
    requires multiset(a) == multiset(b)
    ensures multiset(Sources(a)) == multiset(Sources(b))
    ensures multiset(Retained(a)) == multiset(Retained(b))
  {
    forall x
      ensures multiset(Sources(a))[x] == multiset(Sources(b))[x]
      ensures multiset(Retained(a))[x] == multiset(Retained(b))[x]
    {
      SourcesCount(a, x);
      SourcesCount(b, x);
    }
  }

  lemma {:induction false} SourcesConcat(a: seq<Entry>, b: seq<Entry>)
    ensures Sources(a + b) == Sources(a) + Sources(b)
  {
    if a == [] {
      assert a + b == b;
    } else {
      assert (a + b)[0] == a[0] && (a + b)[1..] == a[1..] + b;
      SourcesConcat(a[1..], b);
      var first := if IsSource(a[0]) then [a[0]] else [];
      assert first + (Sources(a[1..]) + Sources(b)) == first + Sources(a[1..]) + Sources(b);
    }
  }

  lemma {:induction false} RetainedConcat(a: seq<Entry>, b: seq<Entry>)
    ensures Retained(a + b) == Retained(a) + Retained(b)
  {
    if a == [] {
      assert a + b == b;
    } else {
      assert (a + b)[0] == a[0] && (a + b)[1..] == a[1..] + b;
      RetainedConcat(a[1..], b);
      var first := if IsSource(a[0]) then [] else [a[0]];
      assert first + (Retained(a[1..]) + Retained(b)) == first + Retained(a[1..]) + Retained(b);
    }
  }

  lemma {:induction false} FilterAll(s: seq<Entry>)
    ensures (forall e | e in s :: IsSource(e)) ==> Sources(s) == s && Retained(s) == []
    ensures (forall e | e in s :: !IsSource(e)) ==> Sources(s) == [] && Retained(s) == s
  {
    if s != [] {
      FilterAll(s[1..]);
      assert s == [s[0]] + s[1..];
    }
  }

  lemma SortedCons(e: Entry, s: seq<Entry>)
    requires Sorted(s, Lte) && forall j | 0 <= j < |s| :: Lte(e, s[j])
    ensures Sorted([e] + s, Lte)
  {
    hide Lte;
  }

  lemma {:induction false} FiltersSorted(s: seq<Entry>)
    requires Sorted(s, Lte)
    ensures Sorted(Sources(s), Lte)
    ensures Sorted(Retained(s), Lte)
  {
    hide Lte, Sources, Retained;
    if s == [] {
      FilterNone();
    } else {
      var (e, t) := (s[0], s[1..]);
      FiltersSorted(t);
      FilterCons(s);
      forall x | x in t
        ensures Lte(e, x)
      {
        var j :| 0 <= j < |t| && t[j] == x;
        assert x == s[j + 1];
      }
      var (a, b) := (Sources(t), Retained(t));
      assert forall j | 0 <= j < |a| :: a[j] in a;
      assert forall j | 0 <= j < |b| :: b[j] in b;
      if IsSource(e) {
        SortedCons(e, a);
      } else {
        SortedCons(e, b);
      }
    }
  }

  // ---------------------------------------------------------------- Distinct ids

  ghost predicate DistinctIds(s: seq<Entry>) {
    forall i, j | 0 <= i < j < |s| :: s[i].id != s[j].id
  }

  ghost predicate DistinctBag(m: multiset<Entry>) {
    && (forall x | x in m :: m[x] == 1)
    && (forall x, y | x in m && y in m && x.id == y.id :: x == y)
  }

  lemma TwiceIn(s: seq<Entry>, i: nat, j: nat)
    requires i < j < |s| && s[i] == s[j]
    ensures multiset(s)[s[i]] >= 2
  {
    assert s == s[..j] + s[j..];
    assert s[..j][i] in multiset(s[..j]);
    assert s[j..][0] in multiset(s[j..]);
  }

  lemma {:induction false} OnceIn(s: seq<Entry>, x: Entry)
    requires DistinctIds(s) && x in s
    ensures multiset(s)[x] == 1
  {
    assert s == [s[0]] + s[1..];
    if s[0] == x {
      assert x !in s[1..];
    } else {
      assert x in s[1..];
      OnceIn(s[1..], x);
    }
  }

  /** Distinctness of ids depends only on which entries are present. */
  lemma DistinctIff(s: seq<Entry>)
    ensures DistinctIds(s) <==> DistinctBag(multiset(s))
  {
    if DistinctIds(s) {
      forall x | x in multiset(s)
        ensures multiset(s)[x] == 1
      {
        OnceIn(s, x);
      }
    }
    if DistinctBag(multiset(s)) {
      forall i, j | 0 <= i < j < |s|
        ensures s[i].id != s[j].id
      {
        assert s[i] in multiset(s) && s[j] in multiset(s);
        if s[i].id == s[j].id {
          TwiceIn(s, i, j);
        }
      }
    }
  }

  /** Strictly increasing ids: the order in which a canonical Manifest lists its segments. */
  ghost predicate Ordered(s: seq<Entry>) {
    forall i, j | 0 <= i < j < |s| :: s[i].id < s[j].id
  }

  lemma OrderedIsSorted(s: seq<Entry>)
    requires Ordered(s)
    ensures Sorted(s, Lte) && DistinctIds(s)
  {
  }

  lemma SortedIsOrdered(s: seq<Entry>)
    requires Sorted(s, Lte) && DistinctIds(s)
    ensures Ordered(s)
  {
  }

  // ---------------------------------------------------------------- One step

  lemma ReplacedDistinct(s: seq<Entry>, k: nat)
    requires DistinctIds(s) && k <= |Sources(s)|
    ensures DistinctIds(Replaced(s, k))
  {
    hide Sources, Retained;
    var whole := Retained(s) + Sources(s);
    Partition(s);
    assert multiset(whole) == multiset(s);
    DistinctIff(s);
    DistinctIff(whole);
    var r := Replaced(s, k);
    assert forall i | 0 <= i < |r| :: r[i].id == whole[i].id;
  }

  lemma StepOrders(s: seq<Entry>, k: nat)
    requires DistinctIds(s) && k <= |Sources(s)|
    ensures Ordered(NextSegments(s, k))
  {
    LteIsTotal();
    ReplacedDistinct(s, k);
    SortSorted(Replaced(s, k), Lte);
    DistinctIff(Replaced(s, k));
    DistinctIff(NextSegments(s, k));
    SortedIsOrdered(NextSegments(s, k));
  }

  lemma StepFilters(s: seq<Entry>, k: nat)
    requires k <= |Sources(s)|
    ensures multiset(Retained(NextSegments(s, k))) == multiset(Retained(s))
    ensures multiset(Sources(NextSegments(s, k))) == multiset(AgedAll(Sources(s)[..k], 1))
  {
    hide Sources, Retained;
    var kept := Retained(s);
    var aged := AgedAll(Sources(s)[..k], 1);
    forall i | 0 <= i < |aged|
      ensures IsSource(aged[i])
    {
      assert Sources(s)[..k][i] in Sources(s);
    }
    SourcesConcat(kept, aged);
    RetainedConcat(kept, aged);
    FilterAll(kept);
    FilterAll(aged);
    assert kept + [] == kept && [] + aged == aged;
    FiltersFollowMultiset(NextSegments(s, k), Replaced(s, k));
  }

  lemma AgedOrdered(s: seq<Entry>, k: nat, n: nat)
    requires Ordered(s) && k <= |Sources(s)|
    ensures Ordered(AgedAll(Sources(s)[..k], n))
  {
    OrderedIsSorted(s);
    FiltersSorted(s);
    Partition(s);
    DistinctIff(s);
    var a := Sources(s);
    forall i, j | 0 <= i < j < |a|
      ensures a[i].id < a[j].id
    {
      assert Lte(a[i], a[j]);
      if a[i].id == a[j].id {
        SourcesDistinct(s);
        assert false;
      }
    }
  }

  lemma SourcesDistinct(s: seq<Entry>)
    requires DistinctIds(s)
    ensures DistinctIds(Sources(s))
  {
    ReplacedDistinct(s, |Sources(s)|);
    var (r, a) := (Replaced(s, |Sources(s)|), Sources(s));
    forall i, j | 0 <= i < j < |a|
      ensures a[i].id != a[j].id
    {
      var n := |Retained(s)|;
      assert r[n + i].id == a[i].id && r[n + j].id == a[j].id;
    }
  }

  /** From an ordered Manifest one step keeps the others in place and ages the first `k` sources. */
  lemma StepClosedForm(s: seq<Entry>, k: nat)
    requires Ordered(s) && k <= |Sources(s)|
    ensures Retained(NextSegments(s, k)) == Retained(s)
    ensures Sources(NextSegments(s, k)) == AgedAll(Sources(s)[..k], 1)
  {
    var next := NextSegments(s, k);
    LteIsTotal();
    OrderedIsSorted(s);
    StepOrders(s, k);
    OrderedIsSorted(next);
    FiltersSorted(s);
    FiltersSorted(next);
    StepFilters(s, k);
    AgedOrdered(s, k, 1);
    OrderedIsSorted(AgedAll(Sources(s)[..k], 1));
    SortedUnique(Retained(next), Retained(s), Lte);
    SortedUnique(Sources(next), AgedAll(Sources(s)[..k], 1), Lte);
  }

  // ---------------------------------------------------------------- Every chain of steps

  ghost predicate Chain(vs: seq<View>) {
    forall i | 0 <= i < |vs| - 1 :: SealedStep(vs[i], vs[i + 1])
  }

  /** What holds between any two Manifests of a chain, whatever the first one looks like. */
  lemma {:induction false} ChainInvariant(vs: seq<View>, i: nat, j: nat)
    requires Chain(vs) && i <= j < |vs|
    ensures vs[j].generation == vs[i].generation + (j - i)
    ensures SameMetadata(vs[i], vs[j])
    ensures multiset(Retained(vs[j].segments)) == multiset(Retained(vs[i].segments))
    ensures |vs[j].segments| <= |vs[i].segments|
    decreases j
  {
    hide Sources, Retained, NextSegments;
    if i < j {
      ChainInvariant(vs, i, j - 1);
      assert SealedStep(vs[j - 1], vs[j]);
      var s := vs[j - 1].segments;
      var k := |vs[j].segments| - |Retained(s)|;
      StepFilters(s, k);
      Partition(s);
    }
  }

  /** Ids stay distinct, and after one step the list is in id order. */
  lemma {:induction false} ChainOrdered(vs: seq<View>, j: nat)
    requires Chain(vs) && j < |vs|
    requires DistinctIds(vs[0].segments)
    ensures DistinctIds(vs[j].segments)
    ensures j > 0 ==> Ordered(vs[j].segments)
  {
    hide Sources, Retained, NextSegments;
    if j > 0 {
      ChainOrdered(vs, j - 1);
      assert SealedStep(vs[j - 1], vs[j]);
      var s := vs[j - 1].segments;
      StepOrders(s, |vs[j].segments| - |Retained(s)|);
      OrderedIsSorted(vs[j].segments);
    }
  }

  lemma AgedTwice(s: seq<Entry>, k: nat, k': nat, n: nat)
    requires k' <= k <= |s|
    ensures AgedAll(AgedAll(s[..k], n)[..k'], 1) == AgedAll(s[..k'], n + 1)
  {
  }

  /**
   From an ordered Manifest on, a chain has a closed form: the retained segments are untouched and
   the sources are a prefix of the original ones, aged by one generation per step.
   */
  lemma {:induction false} ChainClosedForm(vs: seq<View>, i: nat, j: nat)
    requires Chain(vs) && i <= j < |vs|
    requires Ordered(vs[i].segments)
    ensures Ordered(vs[j].segments)
    ensures Retained(vs[j].segments) == Retained(vs[i].segments)
    ensures |Sources(vs[j].segments)| <= |Sources(vs[i].segments)|
    ensures Sources(vs[j].segments)
         == AgedAll(Sources(vs[i].segments)[..|Sources(vs[j].segments)|], j - i)
    decreases j
  {
    hide Sources, Retained, NextSegments;
    var first := Sources(vs[i].segments);
    if i == j {
      assert AgedAll(first[..|first|], 0) == first;
    } else {
      ChainClosedForm(vs, i, j - 1);
      assert SealedStep(vs[j - 1], vs[j]);
      var s := vs[j - 1].segments;
      var k := |vs[j].segments| - |Retained(s)|;
      StepClosedForm(s, k);
      OrderedIsSorted(s);
      StepOrders(s, k);
      AgedTwice(first, |Sources(s)|, k, j - 1 - i);
    }
  }

  /** Where the entries of a next list come from. */
  lemma StepOrigin(s: seq<Entry>, k: nat, f: Entry)
    requires k <= |Sources(s)| && f in NextSegments(s, k)
    ensures f in Retained(s) || exists e | e in Sources(s) :: f == Aged(e, 1)
  {
    assert f in multiset(Replaced(s, k));
    if f !in Retained(s) {
      var a := AgedAll(Sources(s)[..k], 1);
      assert f in a;
      var i :| 0 <= i < |a| && a[i] == f;
      assert Sources(s)[..k][i] in Sources(s);
    }
  }

  lemma SameIdSameEntry(s: seq<Entry>, e: Entry, f: Entry)
    requires DistinctIds(s) && e in s && f in s && e.id == f.id
    ensures e == f
  {
    DistinctIff(s);
    assert e in multiset(s) && f in multiset(s);
  }

  /**
   A source is never seen again as it was: whatever later carries its id is the same segment, exactly
   as many generations older as there were steps.  An id that has left does not come back.
   */
  lemma {:induction false} NoReappearance(vs: seq<View>, i: nat, j: nat, f: Entry)
    requires Chain(vs) && i < j < |vs|
    requires DistinctIds(vs[0].segments)
    requires f in vs[j].segments
    ensures exists e | e in vs[i].segments :: e.id == f.id
    ensures forall e | e in Sources(vs[i].segments) && e.id == f.id :: f == Aged(e, j - i)
    decreases j
  {
    hide Sources, Retained, NextSegments;
    assert SealedStep(vs[j - 1], vs[j]);
    var s := vs[j - 1].segments;
    var k := |vs[j].segments| - |Retained(s)|;
    StepOrigin(s, k, f);
    ChainOrdered(vs, j - 1);
    var g: Entry :| g in s && g.id == f.id && f == (if IsSource(g) then Aged(g, 1) else g);
    if i < j - 1 {
      NoReappearance(vs, i, j - 1, g);
    } else {
      forall e | e in Sources(s) && e.id == f.id
        ensures f == Aged(e, 1)
      {
        SameIdSameEntry(s, e, g);
      }
    }
  }
}
