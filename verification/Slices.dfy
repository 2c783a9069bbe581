/** How the paired-reactor benchmark divides its operations among clients and into pipelined batches. */
module Slices {
  import opened Arithmetic

  /** The first operation of client `i` of `n`. */
  function Begin(ops: nat, n: nat, i: nat): nat
    requires n > 0
  {
    ops * i / n
  }

  /** One pipelined batch: `count` operations from `first` on. */
  datatype Batch = Batch(first: nat, count: nat)

  /** The batches follow one another from `lo` to `hi`, all full but possibly the last. */
  predicate Covers(batches: seq<Batch>, lo: nat, hi: nat, p: nat)
    decreases |batches|
  {
    if batches == [] then lo == hi
    else
      && batches[0].first == lo
      && 0 < batches[0].count <= p
      && lo + batches[0].count <= hi
      && (batches[0].count < p ==> lo + batches[0].count == hi)
      && Covers(batches[1..], lo + batches[0].count, hi, p)
  }

  lemma {:induction false} CoversSnoc(batches: seq<Batch>, lo: nat, mid: nat, hi: nat, p: nat, b: Batch)
    requires Covers(batches, lo, mid, p) && b.first == mid && 0 < b.count <= p && mid + b.count == hi
    requires forall i | 0 <= i < |batches| :: batches[i].count == p
    ensures Covers(batches + [b], lo, hi, p)
    decreases |batches|
  {
    if batches == [] {
      assert [b][1..] == [];
    } else {
      assert (batches + [b])[1..] == batches[1..] + [b];
      CoversSnoc(batches[1..], lo + batches[0].count, mid, hi, p, b);
      assert lo + batches[0].count <= mid by {
        CoversForward(batches[1..], lo + batches[0].count, mid, p);
      }
    }
  }

  lemma {:induction false} CoversForward(batches: seq<Batch>, lo: nat, hi: nat, p: nat)
    requires Covers(batches, lo, hi, p)
    ensures lo <= hi
    decreases |batches|
  {
    if batches != [] {
      CoversForward(batches[1..], lo + batches[0].count, hi, p);
    }
  }

  /** The batches of one client. */
  method ClientBatches(lo: nat, hi: nat, p: nat) returns (batches: seq<Batch>)
    requires p > 0 && lo <= hi
    ensures Covers(batches, lo, hi, p)
    ensures |batches| == BatchCount(hi - lo, p)
  {
    batches := [];
    var first := lo;
    while first < hi
      invariant lo <= first
      invariant first <= hi ==> Covers(batches, lo, first, p)
                                && (forall i | 0 <= i < |batches| :: batches[i].count == p)
                                && first - lo == p * |batches|
      invariant first > hi ==> Covers(batches, lo, hi, p) && |batches| == BatchCount(hi - lo, p)
      decreases hi - first
    {
      var count := if p < hi - first then p else hi - first;
      CoversSnoc(batches, lo, first, first + count, p, Batch(first, count));
      LastCount(first - lo, count, p, |batches|);
      batches := batches + [Batch(first, count)];
      first := first + p;
    }
    if first == hi {
      LastCount(hi - lo, 0, p, |batches|);
    }
  }

  /** ceil(n / p). */
  function BatchCount(n: nat, p: nat): nat
    requires p > 0
  {
    (n + p - 1) / p
  }

  lemma LastCount(done: nat, count: nat, p: nat, k: nat)
    requires p > 0 && done == p * k && count <= p
    ensures p * (k + 1) == done + p
    ensures BatchCount(done, p) == k
    ensures 0 < count ==> BatchCount(done + count, p) == k + 1
  {
    DivModIs(done + p - 1, p, k, p - 1);
    if count > 0 {
      assert done + count + p - 1 == p * (k + 1) + (count - 1);
      DivModIs(done + count + p - 1, p, k + 1, count - 1);
    }
  }

  // ---------------------------------------------------------------- The slices

  /** Consecutive slices share their bounds, from operation 0 to the last one. */
  lemma Ends(ops: nat, n: nat)
    requires n > 0
    ensures Begin(ops, n, 0) == 0
    ensures Begin(ops, n, n) == ops
  {
    assert ops * 0 == 0;
    DivModIs(ops * n, n, ops, 0);
  }

  /**
   A slice begins at floor(ops * i / n).  Each has floor(ops / n) operations or one more, so any two
   differ by at most one.
   */
  lemma Balanced(ops: nat, n: nat, i: nat)
    requires n > 0
    ensures n * Begin(ops, n, i) <= ops * i < n * (Begin(ops, n, i) + 1)
    ensures ops / n <= Begin(ops, n, i + 1) - Begin(ops, n, i) <= ops / n + 1
  {
    var (a, b, q) := (Begin(ops, n, i), Begin(ops, n, i + 1), ops / n);
    assert ops * (i + 1) == ops * i + ops;
    DivBounds(ops * i, n);
    DivBounds(ops * (i + 1), n);
    DivBounds(ops, n);
    BalancedBounds(ops * i, ops, n, a, b, q);
  }

  lemma BalancedBounds(before: nat, ops: nat, n: nat, a: nat, b: nat, q: nat)
    requires n * a <= before < n * a + n
    requires n * b <= before + ops < n * b + n
    requires n * q <= ops < n * q + n
    ensures q <= b - a <= q + 1
  {
    assert n * (a + q) == n * a + n * q && n * (b + 1) == n * b + n;
    Cancel(n, a + q, b + 1);
    assert n * (a + q + 2) == n * (a + q) + n + n;
    Cancel(n, b, a + q + 2);
  }

  lemma {:induction false} BeginMonotone(ops: nat, n: nat, i: nat, j: nat)
    requires n > 0 && i <= j
    ensures Begin(ops, n, i) <= Begin(ops, n, j)
    decreases j
  {
    hide Begin;
    if i < j {
      BeginMonotone(ops, n, i, j - 1);
      Balanced(ops, n, j - 1);
    }
  }

  /** Each operation lies in exactly one slice. */
  lemma {:induction false} OwnSlice(ops: nat, n: nat, k: nat, x: nat) returns (i: nat)
    requires n > 0 && x < Begin(ops, n, k)
    ensures i < k && Begin(ops, n, i) <= x < Begin(ops, n, i + 1)
    ensures forall j: nat | Begin(ops, n, j) <= x < Begin(ops, n, j + 1) :: j == i
    decreases k
  {
    Ends(ops, n);
    if Begin(ops, n, k - 1) <= x {
      i := k - 1;
      forall j: nat | Begin(ops, n, j) <= x < Begin(ops, n, j + 1)
        ensures j == i
      {
        if j < i {
          BeginMonotone(ops, n, j + 1, i);
        } else if j > i {
          BeginMonotone(ops, n, i + 1, j);
        }
      }
    } else {
      i := OwnSlice(ops, n, k - 1, x);
    }
  }

  function TotalBatches(ops: nat, n: nat, p: nat, k: nat): nat
    requires n > 0 && p > 0
  {
    if k == 0 then 0
    else
      BeginMonotone(ops, n, k - 1, k);
      TotalBatches(ops, n, p, k - 1) + BatchCount(Begin(ops, n, k) - Begin(ops, n, k - 1), p)
  }

  lemma BatchStep(a: nat, b: nat, p: nat)
    requires p > 0
    ensures a / p + BatchCount(b, p) <= (a + b) / p + 1
  {
    DivBounds(a, p);
    DivBounds(b + p - 1, p);
    DivBounds(a + b, p);
    var (x, y, z) := (a / p, BatchCount(b, p), (a + b) / p);
    assert p * (x + y) == p * x + p * y;
    assert p * (z + 2) == p * z + p + p;
    Cancel(p, x + y, z + 2);
  }

  lemma CeilAbove(n: nat, p: nat)
    requires p > 0
    ensures n / p <= BatchCount(n, p)
  {
    DivBounds(n, p);
    DivBounds(n + p - 1, p);
    assert p * (BatchCount(n, p) + 1) == p * BatchCount(n, p) + p;
    Cancel(p, n / p, BatchCount(n, p) + 1);
  }

  lemma {:induction false} BatchesSoFar(ops: nat, n: nat, p: nat, k: nat)
    requires n > 0 && p > 0
    ensures TotalBatches(ops, n, p, k) <= Begin(ops, n, k) / p + k
    decreases k
  {
    hide Begin, BatchCount;
    if k > 0 {
      BatchesSoFar(ops, n, p, k - 1);
      BeginMonotone(ops, n, k - 1, k);
      BatchStep(Begin(ops, n, k - 1), Begin(ops, n, k) - Begin(ops, n, k - 1), p);
    }
  }

  /** The latencies reserved for all clients, ceil(ops / p) + n, are never exceeded. */
  lemma ReservationSuffices(ops: nat, n: nat, p: nat)
    requires n > 0 && p > 0
    ensures TotalBatches(ops, n, p, n) <= BatchCount(ops, p) + n
  {
    BatchesSoFar(ops, n, p, n);
    Ends(ops, n);
    CeilAbove(ops, p);
  }
}
