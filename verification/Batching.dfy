/** The two other ways in which the server benchmark cuts a client's operations into batches. */
module Batching {
  import opened Bytes
  import opened Sequences

  // ---------------------------------------------------------------- Seeding

  const SEED_PIPELINE := 64
  const SEED_BATCH_BYTES := 0x20_0000

  function Size(frames: seq<seq<byte>>): nat {
    if frames == [] then 0 else Size(frames[..|frames| - 1]) + |frames[|frames| - 1]|
  }

  /** A batch that may be flushed: bounded in frames, and in bytes unless it is a single frame. */
  predicate Bounded(batch: seq<seq<byte>>) {
    && 0 < |batch| <= 64
    && (|batch| == 1 || Size(batch) <= 2_097_152)
  }

  /** `next` could not have been added to `batch`. */
  predicate Full(batch: seq<seq<byte>>, next: seq<byte>) {
    |batch| == 64 || Size(batch) + |next| > 2_097_152
  }

  /** Each batch is bounded and takes as many frames as it may. */
  ghost predicate Greedy(batches: seq<seq<seq<byte>>>) {
    && (forall i | 0 <= i < |batches| :: Bounded(batches[i]))
    && (forall i | 0 <= i < |batches| - 1 :: Full(batches[i], batches[i + 1][0]))
  }

  lemma GreedySnoc(batches: seq<seq<seq<byte>>>, batch: seq<seq<byte>>)
    requires Greedy(batches) && Bounded(batch)
    requires batches != [] ==> Full(batches[|batches| - 1], batch[0])
    ensures Greedy(batches + [batch])
    ensures Flatten(batches + [batch]) == Flatten(batches) + batch
  {
    hide Full, Size, Flatten;
    FlattenSnoc(batches, batch);
    var r := batches + [batch];
    assert forall i | 0 <= i < |r| :: Bounded(r[i]);
    forall i | 0 <= i < |r| - 1
      ensures Full(r[i], r[i + 1][0])
    {
      assert Bounded(r[i + 1]);
      assert r[i] == batches[i];
      assert i + 1 < |batches| ==> r[i + 1] == batches[i + 1];
    }
  }

  /** The batches that `seed_get_workload` flushes for one client. */
  method SeedBatches(frames: seq<seq<byte>>) returns (batches: seq<seq<seq<byte>>>)
    requires forall i | 0 <= i < |frames| :: frames[i] != []
    ensures Flatten(batches) == frames
    ensures Greedy(batches)
  {
    hide Size, Greedy, Flatten;
    batches := [];
    var batch: seq<seq<byte>> := [];
    var bytes := 0;
    NothingYet();
    for i := 0 to |frames|
      invariant Flatten(batches) + batch == frames[..i]
      invariant |batch| < SEED_PIPELINE
      invariant bytes == Size(batch) && (bytes == 0 <==> batch == [])
      invariant batch == [] || Bounded(batch)
      invariant Greedy(batches)
      invariant batches != [] && batch != [] ==> Full(batches[|batches| - 1], batch[0])
      invariant batches != [] && batch == [] ==> |batches[|batches| - 1]| == SEED_PIPELINE
    {
      var put := frames[i];
      var full := bytes >= SEED_BATCH_BYTES;
      var overflow := !full && |put| > SEED_BATCH_BYTES - bytes;
      if bytes != 0 && (full || overflow) {
        GreedySnoc(batches, batch);
        batches := batches + [batch];
        batch := [];
        bytes := 0;
      }
      SizeSnoc(batch, put);
      assert frames[..i + 1] == frames[..i] + [put];
      assert Flatten(batches) + (batch + [put]) == Flatten(batches) + batch + [put];
      batch := batch + [put];
      bytes := bytes + |put|;
      if |batch| == SEED_PIPELINE {
        GreedySnoc(batches, batch);
        batches := batches + [batch];
        batch := [];
        bytes := 0;
      }
    }
    assert frames[..|frames|] == frames;
    if |batch| != 0 {
      GreedySnoc(batches, batch);
      batches := batches + [batch];
    }
  }

  lemma NothingYet()
    ensures Size([]) == 0 && Flatten<seq<byte>>([]) == [] && Greedy([])
  {
  }

  lemma SizeSnoc(batch: seq<seq<byte>>, frame: seq<byte>)
    ensures Size(batch + [frame]) == Size(batch) + |frame|
  {
    assert (batch + [frame])[..|batch|] == batch;
  }

  lemma {:induction false} SizeMonotone(batch: seq<seq<byte>>, k: nat)
    requires k <= |batch|
    ensures Size(batch[..k]) <= Size(batch)
    decreases |batch|
  {
    if k < |batch| {
      var init := batch[..|batch| - 1];
      assert init[..k] == batch[..k];
      SizeMonotone(init, k);
    } else {
      assert batch[..k] == batch;
    }
  }

  lemma NonemptyBatches(a: seq<seq<seq<byte>>>)
    requires Greedy(a) && a != []
    ensures |Flatten(a)| >= |a[0]| > 0
    ensures Flatten(a)[..|a[0]|] == a[0] && Flatten(a)[|a[0]|..] == Flatten(a[1..])
  {
    hide Size;
    assert Bounded(a[0]);
  }

  lemma FirstNoLonger(a: seq<seq<seq<byte>>>, b: seq<seq<seq<byte>>>)
    requires Greedy(a) && Greedy(b) && a != [] && b != []
    requires Flatten(a) == Flatten(b)
    ensures |b[0]| <= |a[0]|
  {
    hide Size;
    NonemptyBatches(a);
    NonemptyBatches(b);
    if |a| == 1 {
      assert Flatten(a[1..]) == [];
    } else if |b[0]| > |a[0]| {
      GreedyTail(a);
      NonemptyBatches(a[1..]);
      var (n, next, all) := (|a[0]|, a[1][0], Flatten(a));
      assert Full(a[0], next) && Bounded(b[0]);
      assert all[n] == all[n..][0] == a[1..][0][0] == next by {
        assert all[n..][..|a[1]|] == a[1];
      }
      assert b[0][..n + 1] == all[..n + 1] == a[0] + [next];
      SizeSnoc(a[0], next);
      SizeMonotone(b[0], n + 1);
    }
  }

  /** Only one way of cutting the frames is greedy, so the loop's result is the greedy one. */
  lemma {:induction false} GreedyUnique(a: seq<seq<seq<byte>>>, b: seq<seq<seq<byte>>>)
    requires Greedy(a) && Greedy(b) && Flatten(a) == Flatten(b)
    ensures a == b
    decreases |a|
  {
    hide Size, Full, Greedy, Flatten;
    NothingYet();
    if a != [] {
      NonemptyBatches(a);
    }
    if b != [] {
      NonemptyBatches(b);
    }
    if a != [] && b != [] {
      FirstNoLonger(a, b);
      FirstNoLonger(b, a);
      GreedyTail(a);
      GreedyTail(b);
      GreedyUnique(a[1..], b[1..]);
      assert a == [a[0]] + a[1..] && b == [b[0]] + b[1..];
    }
  }

  lemma GreedyTail(a: seq<seq<seq<byte>>>)
    requires Greedy(a) && a != []
    ensures Greedy(a[1..])
  {
    hide Full, Bounded;
  }

  // ---------------------------------------------------------------- One pipeline per Worker

  /** A request of the client API, named by its operation. */
  datatype PipelineRequest = Put(op: nat) | Get(op: nat)

  /** Each operation as a PUT and the GET that checks it. */
  function Pairs(ops: seq<nat>): seq<PipelineRequest> {
    if ops == [] then [] else [Put(ops[0]), Get(ops[0])] + Pairs(ops[1..])
  }

  lemma {:induction false} PairsSnoc(ops: seq<nat>, op: nat)
    ensures Pairs(ops + [op]) == Pairs(ops) + [Put(op), Get(op)]
    ensures |Pairs(ops)| == 2 * |ops|
  {
    if ops == [] {
      assert [op][1..] == [];
    } else {
      assert (ops + [op])[1..] == ops[1..] + [op];
      PairsSnoc(ops[1..], op);
    }
  }

  /** The operations routed to one Worker, in order. */
  function Routed(ops: seq<nat>, route: nat -> nat, worker: nat): seq<nat> {
    if ops == [] then []
    else
      var (init, op) := (ops[..|ops| - 1], ops[|ops| - 1]);
      if route(op) == worker then Routed(init, route, worker) + [op] else Routed(init, route, worker)
  }

  lemma RoutedSnoc(ops: seq<nat>, op: nat, route: nat -> nat, worker: nat)
    ensures Routed(ops + [op], route, worker)
         == if route(op) == worker then Routed(ops, route, worker) + [op] else Routed(ops, route, worker)
  {
    assert (ops + [op])[..|ops|] == ops;
  }

  /** A batch for one Worker: whole PUT/GET pairs, at most `p` of them. */
  datatype WorkerBatch = WorkerBatch(worker: nat, requests: seq<PipelineRequest>)

  /** All that was emitted for one Worker, in emission order. */
  function EmittedFor(batches: seq<WorkerBatch>, worker: nat): seq<PipelineRequest> {
    if batches == [] then []
    else
      var (init, last) := (batches[..|batches| - 1], batches[|batches| - 1]);
      if last.worker == worker then EmittedFor(init, worker) + last.requests else EmittedFor(init, worker)
  }

  lemma EmittedSnoc(batches: seq<WorkerBatch>, b: WorkerBatch, worker: nat)
    ensures EmittedFor(batches + [b], worker)
         == if b.worker == worker then EmittedFor(batches, worker) + b.requests else EmittedFor(batches, worker)
  {
    assert (batches + [b])[..|batches|] == batches;
  }

  ghost predicate PipelineBatch(b: WorkerBatch, route: nat -> nat, p: nat) {
    && 0 < |b.requests| <= 2 * p
    && exists ops: seq<nat> :: b.requests == Pairs(ops) && forall i | 0 <= i < |ops| :: route(ops[i]) == b.worker
  }

  /** What is pending for a Worker is the tail of its operations, in whole pairs and less than a batch. */
  ghost predicate PendingFor(batches: seq<WorkerBatch>, pending: seq<PipelineRequest>, ops: seq<nat>,
                             done: seq<nat>, route: nat -> nat, worker: nat, p: nat) {
    && pending == Pairs(ops) && |ops| < p
    && (forall i | 0 <= i < |ops| :: route(ops[i]) == worker)
    && EmittedFor(batches, worker) + pending == Pairs(Routed(done, route, worker))
  }

  lemma PendingOther(batches: seq<WorkerBatch>, b: WorkerBatch, pending: seq<PipelineRequest>, ops: seq<nat>,
                     done: seq<nat>, op: nat, route: nat -> nat, worker: nat, p: nat)
    requires PendingFor(batches, pending, ops, done, route, worker, p)
    requires route(op) != worker && b.worker != worker
    ensures PendingFor(batches, pending, ops, done + [op], route, worker, p)
    ensures PendingFor(batches + [b], pending, ops, done + [op], route, worker, p)
  {
    hide Pairs, EmittedFor, Routed;
    RoutedSnoc(done, op, route, worker);
    EmittedSnoc(batches, b, worker);
  }

  lemma PendingGrows(batches: seq<WorkerBatch>, pending: seq<PipelineRequest>, ops: seq<nat>,
                     done: seq<nat>, op: nat, route: nat -> nat, worker: nat, p: nat)
    requires PendingFor(batches, pending, ops, done, route, worker, p)
    requires route(op) == worker
    ensures var grown := pending + [Put(op), Get(op)];
            && |pending| == 2 * |ops|
            && (|ops| + 1 < p ==> PendingFor(batches, grown, ops + [op], done + [op], route, worker, p))
            && (|ops| + 1 == p ==>
                  && PipelineBatch(WorkerBatch(worker, grown), route, p)
                  && PendingFor(batches + [WorkerBatch(worker, grown)], [], [], done + [op], route, worker, p))
  {
    hide EmittedFor, Routed, Pairs;
    var grown := pending + [Put(op), Get(op)];
    var b := WorkerBatch(worker, grown);
    RoutedSnoc(done, op, route, worker);
    EmittedSnoc(batches, b, worker);
    PairsSnoc(ops, op);
    PairsSnoc(Routed(done, route, worker), op);
    var e := EmittedFor(batches, worker);
    assert e + (pending + [Put(op), Get(op)]) == e + pending + [Put(op), Get(op)];
    PairsNone();
    assert e + grown + [] == e + grown;
    assert forall i | 0 <= i <= |ops| :: route((ops + [op])[i]) == worker;
    assert Pairs(ops + [op]) == grown;
  }

  lemma PairsNone()
    ensures Pairs([]) == []
  {
  }

  /**
   The grouping in `run_client_api_sample`: every batch goes to one Worker in whole pairs and within
   the pipeline depth, each Worker gets all its operations exactly once and in order, and of its batches
   only the last may be less than full.
   */
  method GroupByWorker(ops: seq<nat>, route: nat -> nat, workers: nat, p: nat) returns (batches: seq<WorkerBatch>)
    requires p > 0
    requires forall i | 0 <= i < |ops| :: route(ops[i]) < workers
    ensures forall i | 0 <= i < |batches| :: PipelineBatch(batches[i], route, p) && batches[i].worker < workers
    ensures forall w | 0 <= w < workers :: EmittedFor(batches, w) == Pairs(Routed(ops, route, w))
    ensures forall i, j | 0 <= i < j < |batches| && batches[i].worker == batches[j].worker ::
              |batches[i].requests| == 2 * p
  {
    hide EmittedFor, Routed, Pairs, PipelineBatch, PendingFor;
    batches := [];
    var pending: seq<seq<PipelineRequest>> := seq(workers, w => []);
    ghost var open: seq<seq<nat>> := seq(workers, w => []);
    forall w | 0 <= w < workers
      ensures PendingFor(batches, pending[w], open[w], [], route, w, p)
    {
      PendingStart(route, w, p);
    }
    assert ops[..0] == [];
    for i := 0 to |ops|
      invariant |pending| == |open| == workers
      invariant forall k | 0 <= k < |batches| :: PipelineBatch(batches[k], route, p) && batches[k].worker < workers
      invariant forall k | 0 <= k < |batches| :: |batches[k].requests| == 2 * p
      invariant forall w | 0 <= w < workers :: PendingFor(batches, pending[w], open[w], ops[..i], route, w, p)
    {
      var op := ops[i];
      var w := route(op);
      assert ops[..i + 1] == ops[..i] + [op];
      var batch := pending[w] + [Put(op), Get(op)];
      PendingGrows(batches, pending[w], open[w], ops[..i], op, route, w, p);
      forall v | 0 <= v < workers && v != w
        ensures PendingFor(batches, pending[v], open[v], ops[..i + 1], route, v, p)
        ensures PendingFor(batches + [WorkerBatch(w, batch)], pending[v], open[v], ops[..i + 1], route, v, p)
      {
        PendingOther(batches, WorkerBatch(w, batch), pending[v], open[v], ops[..i], op, route, v, p);
      }
      PendingBound(batches, pending[w], open[w], ops[..i], route, w, p);
      if |batch| == 2 * p {
        batches := batches + [WorkerBatch(w, batch)];
        pending := pending[w := []];
        open := open[w := []];
      } else {
        pending := pending[w := batch];
        open := open[w := open[w] + [op]];
      }
    }
    assert ops[..|ops|] == ops;
    for w := 0 to workers
      invariant forall k | 0 <= k < |batches| :: PipelineBatch(batches[k], route, p) && batches[k].worker < workers
      invariant forall k | 0 <= k < |batches| && batches[k].worker >= w :: |batches[k].requests| == 2 * p
      invariant forall k, l | 0 <= k < l < |batches| && batches[k].worker == batches[l].worker ::
                  |batches[k].requests| == 2 * p
      invariant forall v | 0 <= v < w :: EmittedFor(batches, v) == Pairs(Routed(ops, route, v))
      invariant forall v | w <= v < workers :: PendingFor(batches, pending[v], open[v], ops, route, v, p)
    {
      var b := WorkerBatch(w, pending[w]);
      PendingFlush(batches, pending[w], open[w], ops, route, w, p);
      forall v | 0 <= v < workers && v != w
        ensures EmittedFor(batches + [b], v) == EmittedFor(batches, v)
        ensures v > w ==> PendingFor(batches + [b], pending[v], open[v], ops, route, v, p)
      {
        EmittedSnoc(batches, b, v);
        if v > w {
          PendingKept(batches, b, pending[v], open[v], ops, route, v, p);
        }
      }
      if pending[w] != [] {
        batches := batches + [b];
      }
    }
  }

  lemma PendingStart(route: nat -> nat, worker: nat, p: nat)
    requires p > 0
    ensures PendingFor([], [], [], [], route, worker, p)
  {
  }

  lemma PendingBound(batches: seq<WorkerBatch>, pending: seq<PipelineRequest>, ops: seq<nat>,
                     done: seq<nat>, route: nat -> nat, worker: nat, p: nat)
    requires PendingFor(batches, pending, ops, done, route, worker, p)
    ensures |pending| == 2 * |ops| && |ops| < p
  {
    hide Pairs, EmittedFor, Routed;
    PairsSnoc(ops, 0);
  }

  lemma PendingFlush(batches: seq<WorkerBatch>, pending: seq<PipelineRequest>, ops: seq<nat>,
                     done: seq<nat>, route: nat -> nat, worker: nat, p: nat)
    requires PendingFor(batches, pending, ops, done, route, worker, p)
    ensures pending == [] ==> EmittedFor(batches, worker) == Pairs(Routed(done, route, worker))
    ensures pending != [] ==> PipelineBatch(WorkerBatch(worker, pending), route, p)
    ensures EmittedFor(batches + [WorkerBatch(worker, pending)], worker) == Pairs(Routed(done, route, worker))
  {
    hide Pairs, EmittedFor, Routed;
    EmittedSnoc(batches, WorkerBatch(worker, pending), worker);
    PairsSnoc(ops, 0);
    assert EmittedFor(batches, worker) + [] == EmittedFor(batches, worker);
  }

  lemma PendingKept(batches: seq<WorkerBatch>, b: WorkerBatch, pending: seq<PipelineRequest>, ops: seq<nat>,
                    done: seq<nat>, route: nat -> nat, worker: nat, p: nat)
    requires PendingFor(batches, pending, ops, done, route, worker, p) && b.worker != worker
    ensures PendingFor(batches + [b], pending, ops, done, route, worker, p)
  {
    hide Pairs, EmittedFor, Routed;
    EmittedSnoc(batches, b, worker);
  }
}
