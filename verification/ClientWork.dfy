/**
 The pipelined client of the server benchmark: what `prepare_work` sends in each batch and what
 `run_client` waits for after it.
 */
module ClientWork {
  import opened Arithmetic
  import opened Bytes
  import opened Sequences
  import opened Wire
  import opened ResponseReader

  datatype Workload = ReadAfterWrite | GetOnly | Read99Write1 | Read95Write5 | Read90Write10

  /** Every how many operations a mixed workload writes. */
  function WritePeriod(w: Workload): (p: Option<nat>)
    ensures p.Some? ==> p.value > 0
  {
    match w
    case Read99Write1 => Some(100)
    case Read95Write5 => Some(20)
    case Read90Write10 => Some(10)
    case _ => None
  }

  datatype Material = Material(keys: seq<seq<byte>>, values: seq<seq<byte>>)

  /** One more than the greatest `std::size_t`. */
  const SIZE_LIMIT := 0x1_0000_0000_0000_0000

  /** Keys and values for operations 0 to `n` - 1; 2 * `n` fits a `std::size_t`. */
  predicate Covers(m: Material, n: nat) {
    n <= |m.keys| == |m.values| && 2 * n < SIZE_LIMIT
  }

  function PutRequest(m: Material, op: nat): Request
    requires op < |m.keys| == |m.values|
  {
    Request(4, 2 * op, m.keys[op], m.values[op], 0, NO_WORKER)
  }

  function GetRequest(m: Material, op: nat): Request
    requires op < |m.keys|
  {
    Request(3, 2 * op + 1, m.keys[op], [], 0, NO_WORKER)
  }

  predicate Writes(w: Workload, op: nat) {
    WritePeriod(w).Some? && op % WritePeriod(w).value == 0
  }

  /** The requests of one operation. */
  function Requests(w: Workload, m: Material, op: nat): seq<Request>
    requires op < |m.keys| == |m.values|
  {
    (if w.ReadAfterWrite? then [PutRequest(m, op)] else [])
    + [if Writes(w, op) then PutRequest(m, op) else GetRequest(m, op)]
  }

  function FramesPerOperation(w: Workload): nat {
    if w.ReadAfterWrite? then 2 else 1
  }

  ghost predicate OpsBelow(ops: seq<nat>, n: nat) {
    forall i | 0 <= i < |ops| :: ops[i] < n
  }

  function AllRequests(w: Workload, m: Material, ops: seq<nat>): seq<Request>
    requires OpsBelow(ops, |m.keys|) && |m.keys| == |m.values|
  {
    if ops == [] then []
    else
      Requests(w, m, ops[0]) + AllRequests(w, m, ops[1..])
  }

  // ---------------------------------------------------------------- Which operations, in which batch

  /** The operations from `op` in steps of `stride`. */
  function OpsFrom(op: nat, stride: nat, n: nat): (r: seq<nat>)
    requires stride > 0
    ensures OpsBelow(r, n)
    decreases n - op
  {
    if op >= n then [] else [op] + OpsFrom(op + stride, stride, n)
  }

  /** Consecutive groups of `p`, the last one possibly smaller; without a limit, one group. */
  function Groups(ops: seq<nat>, p: nat): (r: seq<seq<nat>>)
    ensures ops != [] ==> r != []
    decreases |ops|
  {
    if ops == [] then []
    else if p == 0 || |ops| <= p then [ops]
    else [ops[..p]] + Groups(ops[p..], p)
  }

  lemma GroupClosed(cur: seq<nat>, rest: seq<nat>, p: nat)
    requires |cur| == p > 0
    ensures Groups(cur + rest, p) == [cur] + Groups(rest, p)
  {
    if rest == [] {
      assert cur + rest == cur;
    } else {
      assert (cur + rest)[..p] == cur && (cur + rest)[p..] == rest;
    }
  }

  ghost predicate GroupsBelow(groups: seq<seq<nat>>, n: nat) {
    forall i | 0 <= i < |groups| :: OpsBelow(groups[i], n)
  }

  lemma {:induction false} GroupsKeepBound(ops: seq<nat>, p: nat, n: nat)
    requires OpsBelow(ops, n)
    ensures GroupsBelow(Groups(ops, p), n)
    decreases |ops|
  {
    if ops != [] && p > 0 && |ops| > p {
      GroupsKeepBound(ops[p..], p, n);
    }
  }

  function BatchBytes(w: Workload, m: Material, group: seq<nat>): seq<byte>
    requires OpsBelow(group, |m.keys|) && |m.keys| == |m.values|
  {
    Flatten(RequestStream(AllRequests(w, m, group)))
  }

  function Batches(w: Workload, m: Material, groups: seq<seq<nat>>): (r: seq<seq<byte>>)
    requires GroupsBelow(groups, |m.keys|) && |m.keys| == |m.values|
    ensures |r| == |groups|
  {
    seq(|groups|, i requires 0 <= i < |groups| => BatchBytes(w, m, groups[i]))
  }

  datatype Work = Work(batches: seq<seq<byte>>, responseCount: nat)

  function ClientOps(client: nat, clients: nat, n: nat): seq<nat>
    requires client < clients
  {
    OpsFrom(client, clients, n)
  }

  /** What one client is given. */
  function WorkOf(w: Workload, m: Material, p: nat, ops: seq<nat>): Work
    requires OpsBelow(ops, |m.keys|) && |m.keys| == |m.values|
  {
    GroupsKeepBound(ops, p, |m.keys|);
    Work(Batches(w, m, Groups(ops, p)), |AllRequests(w, m, ops)|)
  }

  predicate AllSendable(rs: seq<Request>) {
    forall r | r in rs :: Sendable(r)
  }

  // ---------------------------------------------------------------- Preparing the work of one client

  lemma {:induction false} AllRequestsConcat(w: Workload, m: Material, a: seq<nat>, b: seq<nat>)
    requires OpsBelow(a, |m.keys|) && OpsBelow(b, |m.keys|) && |m.keys| == |m.values|
    ensures AllRequests(w, m, a + b) == AllRequests(w, m, a) + AllRequests(w, m, b)
    decreases |a|
  {
    hide Requests;
    if a == [] {
      assert a + b == b;
    } else {
      assert (a + b)[1..] == a[1..] + b;
      AllRequestsConcat(w, m, a[1..], b);
      var (x, y, z) := (Requests(w, m, a[0]), AllRequests(w, m, a[1..]), AllRequests(w, m, b));
      assert x + (y + z) == x + y + z;
    }
  }

  lemma StreamConcat(a: seq<Request>, b: seq<Request>)
    ensures Flatten(RequestStream(a + b)) == Flatten(RequestStream(a)) + Flatten(RequestStream(b))
  {
    hide RequestBytes;
    assert RequestStream(a + b) == RequestStream(a) + RequestStream(b);
    FlattenConcat(RequestStream(a), RequestStream(b));
  }

  lemma BatchSnoc(w: Workload, m: Material, cur: seq<nat>, op: nat)
    requires OpsBelow(cur, |m.keys|) && op < |m.keys| == |m.values|
    ensures OpsBelow(cur + [op], |m.keys|)
    ensures BatchBytes(w, m, cur + [op]) == BatchBytes(w, m, cur) + Flatten(RequestStream(Requests(w, m, op)))
    ensures AllRequests(w, m, [op]) == Requests(w, m, op)
  {
    hide RequestBytes, Requests;
    AllRequestsConcat(w, m, cur, [op]);
    var last := [op];
    assert AllRequests(w, m, last) == Requests(w, m, op) + AllRequests(w, m, last[1..]);
    assert AllRequests(w, m, last) == Requests(w, m, op);
    StreamConcat(AllRequests(w, m, cur), Requests(w, m, op));
  }

  /** `encode_request`: refuses what the protocol does not allow. */
  function Encode(r: Request): Option<seq<byte>> {
    if Sendable(r) then Some(RequestBytes(r)) else None
  }

  /** The frames of one operation appended to the batch, or `None` as soon as one is refused. */
  method AppendOperation(w: Workload, m: Material, op: nat, batch: seq<byte>)
      returns (r: Option<seq<byte>>, frames: nat)
    requires op < |m.keys| == |m.values|
    ensures r == if AllSendable(Requests(w, m, op))
                 then Some(batch + Flatten(RequestStream(Requests(w, m, op)))) else None
    ensures r.Some? ==> frames == |Requests(w, m, op)|
  {
    hide RequestBytes, Sendable;
    var out := batch;
    frames := 0;
    ghost var last := if Writes(w, op) then PutRequest(m, op) else GetRequest(m, op);
    FlattenOne(last);
    if w.ReadAfterWrite? {
      assert Requests(w, m, op) == [PutRequest(m, op)] + [last];
      FlattenOne(PutRequest(m, op));
      StreamConcat([PutRequest(m, op)], [last]);
      assert batch + (RequestBytes(PutRequest(m, op)) + RequestBytes(last))
          == batch + RequestBytes(PutRequest(m, op)) + RequestBytes(last);
      var put := Encode(PutRequest(m, op));
      if put.None? {
        assert PutRequest(m, op) in Requests(w, m, op);
        return None, 0;
      }
      out := out + put.value;
      frames := frames + 1;
    } else {
      assert Requests(w, m, op) == [last];
    }
    var period := WritePeriod(w);
    var one := Encode(if period.Some? && op % period.value == 0 then PutRequest(m, op) else GetRequest(m, op));
    if one.None? {
      assert last in Requests(w, m, op);
      return None, 0;
    }
    out := out + one.value;
    frames := frames + 1;
    r := Some(out);
  }

  lemma FlattenOne(r: Request)
    ensures Flatten(RequestStream([r])) == RequestBytes(r)
  {
    hide RequestBytes;
    assert RequestStream([r]) == [RequestBytes(r)];
    assert Flatten([RequestBytes(r)]) == RequestBytes(r) + [];
  }

  lemma BatchNonempty(w: Workload, m: Material, group: seq<nat>)
    requires OpsBelow(group, |m.keys|) && |m.keys| == |m.values|
    ensures BatchBytes(w, m, group) == [] <==> group == []
  {
    hide RequestBytes;
    if group != [] {
      var rs := AllRequests(w, m, group);
      assert rs != [];
      assert RequestStream(rs)[0] == RequestBytes(rs[0]);
      assert |RequestBytes(rs[0])| >= 40;
    }
  }

  /** The state of the loop over one client's operations. */
  datatype Cursor = Cursor(done: seq<nat>, groups: seq<seq<nat>>, cur: seq<nat>)

  /** Which operations the finished batches and the open one hold. */
  ghost predicate Tracks(c: Cursor, total: seq<nat>, rest: seq<nat>, p: nat, n: nat) {
    && total == c.done + rest
    && Groups(total, p) == c.groups + Groups(c.cur + rest, p)
    && (p > 0 ==> |c.cur| < p)
    && (p == 0 ==> c.groups == [])
    && OpsBelow(c.done, n) && OpsBelow(c.cur, n) && GroupsBelow(c.groups, n)
  }

  ghost function Advance(c: Cursor, op: nat, p: nat): Cursor {
    var cur := c.cur + [op];
    if |cur| == p then Cursor(c.done + [op], c.groups + [cur], []) else Cursor(c.done + [op], c.groups, cur)
  }

  lemma AdvanceTracks(c: Cursor, total: seq<nat>, op: nat, rest: seq<nat>, p: nat, n: nat)
    requires Tracks(c, total, [op] + rest, p, n) && op < n
    ensures Tracks(Advance(c, op, p), total, rest, p, n)
  {
    hide Groups;
    var cur := c.cur + [op];
    assert c.done + ([op] + rest) == c.done + [op] + rest;
    assert c.cur + ([op] + rest) == cur + rest;
    if |cur| == p {
      GroupClosed(cur, rest, p);
      assert c.groups + ([cur] + Groups(rest, p)) == c.groups + [cur] + Groups(rest, p);
      assert [] + rest == rest;
    }
  }

  lemma BatchesSnoc(w: Workload, m: Material, groups: seq<seq<nat>>, group: seq<nat>)
    requires GroupsBelow(groups, |m.keys|) && OpsBelow(group, |m.keys|) && |m.keys| == |m.values|
    ensures GroupsBelow(groups + [group], |m.keys|)
    ensures Batches(w, m, groups + [group]) == Batches(w, m, groups) + [BatchBytes(w, m, group)]
  {
    hide BatchBytes;
  }

  lemma RequestsSnoc(w: Workload, m: Material, done: seq<nat>, op: nat)
    requires OpsBelow(done, |m.keys|) && op < |m.keys| == |m.values|
    ensures OpsBelow(done + [op], |m.keys|)
    ensures AllRequests(w, m, done + [op]) == AllRequests(w, m, done) + Requests(w, m, op)
  {
    hide Requests;
    BatchSnoc(w, m, done, op);
    AllRequestsConcat(w, m, done, [op]);
  }

  lemma RefusedSomewhere(w: Workload, m: Material, done: seq<nat>, op: nat, rest: seq<nat>)
    requires OpsBelow(done, |m.keys|) && op < |m.keys| == |m.values| && OpsBelow(rest, |m.keys|)
    requires !AllSendable(Requests(w, m, op))
    ensures OpsBelow(done + ([op] + rest), |m.keys|)
    ensures !AllSendable(AllRequests(w, m, done + ([op] + rest)))
  {
    hide Requests, Sendable;
    RequestsSnoc(w, m, done, op);
    assert done + ([op] + rest) == done + [op] + rest;
    AllRequestsConcat(w, m, done + [op], rest);
    var all := AllRequests(w, m, done) + Requests(w, m, op) + AllRequests(w, m, rest);
    assert AllRequests(w, m, done + ([op] + rest)) == all;
    var r :| r in Requests(w, m, op) && !Sendable(r);
    assert r in all;
  }

  /** The loop of `prepare_work` for one client. */
  method PrepareClient(w: Workload, m: Material, p: nat, client: nat, clients: nat, n: nat)
      returns (r: Option<Work>)
    requires client < clients && Covers(m, n)
    ensures OpsBelow(ClientOps(client, clients, n), |m.keys|)
    ensures r == if AllSendable(AllRequests(w, m, ClientOps(client, clients, n)))
                 then Some(WorkOf(w, m, p, ClientOps(client, clients, n))) else None
  {
    hide AllRequests, Requests, BatchBytes, Batches, Groups, Sendable, AllSendable, Tracks, Advance;
    var batches: seq<seq<byte>> := [];
    var count := 0;
    var batch: seq<byte> := [];
    var keys := 0;
    var operation := client;
    ghost var total := ClientOps(client, clients, n);
    ghost var c := Cursor([], [], []);
    PrepareStart(w, m, p, total);
    while operation < n
      invariant Tracks(c, total, OpsFrom(operation, clients, n), p, |m.keys|)
      invariant OpsBelow(c.done, |m.keys|) && OpsBelow(c.cur, |m.keys|) && GroupsBelow(c.groups, |m.keys|)
      invariant keys == |c.cur|
      invariant batch == BatchBytes(w, m, c.cur)
      invariant batches == Batches(w, m, c.groups)
      invariant count == |AllRequests(w, m, c.done)|
      invariant AllSendable(AllRequests(w, m, c.done))
      decreases n - operation
    {
      ghost var rest := OpsFrom(operation + clients, clients, n);
      var appended, frames := AppendOperation(w, m, operation, batch);
      if appended.None? {
        PrepareRefused(w, m, c, total, operation, rest, p);
        return None;
      }
      PrepareTurn(w, m, c, total, operation, rest, p);
      batch := appended.value;
      count := count + frames;
      keys := keys + 1;
      if keys == p {
        batches := batches + [batch];
        batch := [];
        keys := 0;
      }
      c := Advance(c, operation, p);
      operation := operation + clients;
    }
    PrepareEnd(w, m, c, total, p);
    if batch != [] {
      batches := batches + [batch];
    }
    r := Some(Work(batches, count));
  }

  lemma PrepareStart(w: Workload, m: Material, p: nat, total: seq<nat>)
    requires OpsBelow(total, |m.keys|) && |m.keys| == |m.values|
    ensures Tracks(Cursor([], [], []), total, total, p, |m.keys|)
    ensures BatchBytes(w, m, []) == [] && Batches(w, m, []) == [] && AllRequests(w, m, []) == []
    ensures AllSendable([])
  {
    assert [] + total == total;
    assert [] + Groups([] + total, p) == Groups(total, p);
    BatchNonempty(w, m, []);
  }

  lemma PrepareRefused(w: Workload, m: Material, c: Cursor, total: seq<nat>, op: nat, rest: seq<nat>, p: nat)
    requires Tracks(c, total, [op] + rest, p, |m.keys|)
    requires op < |m.keys| == |m.values| && OpsBelow(rest, |m.keys|)
    requires !AllSendable(Requests(w, m, op))
    ensures OpsBelow(total, |m.keys|) && !AllSendable(AllRequests(w, m, total))
  {
    hide AllRequests, Requests, AllSendable, Groups;
    RefusedSomewhere(w, m, c.done, op, rest);
  }

  lemma PrepareTurn(w: Workload, m: Material, c: Cursor, total: seq<nat>, op: nat, rest: seq<nat>, p: nat)
    requires Tracks(c, total, [op] + rest, p, |m.keys|)
    requires op < |m.keys| == |m.values|
    requires OpsBelow(c.done, |m.keys|) && OpsBelow(c.cur, |m.keys|) && GroupsBelow(c.groups, |m.keys|)
    requires AllSendable(AllRequests(w, m, c.done)) && AllSendable(Requests(w, m, op))
    ensures var d := Advance(c, op, p);
            && Tracks(d, total, rest, p, |m.keys|)
            && OpsBelow(d.done, |m.keys|) && OpsBelow(d.cur, |m.keys|) && GroupsBelow(d.groups, |m.keys|)
            && AllRequests(w, m, d.done) == AllRequests(w, m, c.done) + Requests(w, m, op)
            && AllSendable(AllRequests(w, m, d.done))
            && var grown := BatchBytes(w, m, c.cur) + Flatten(RequestStream(Requests(w, m, op)));
            && |d.cur| == (if |c.cur| + 1 == p then 0 else |c.cur| + 1)
            && BatchBytes(w, m, d.cur) == (if |c.cur| + 1 == p then [] else grown)
            && Batches(w, m, d.groups)
            == if |c.cur| + 1 == p then Batches(w, m, c.groups) + [grown] else Batches(w, m, c.groups)
  {
    hide AllRequests, Requests, BatchBytes, Batches, Groups, Sendable;
    AdvanceTracks(c, total, op, rest, p, |m.keys|);
    RequestsSnoc(w, m, c.done, op);
    BatchSnoc(w, m, c.cur, op);
    BatchesSnoc(w, m, c.groups, c.cur + [op]);
    BatchNonempty(w, m, []);
  }

  lemma PrepareEnd(w: Workload, m: Material, c: Cursor, total: seq<nat>, p: nat)
    requires Tracks(c, total, [], p, |m.keys|) && |m.keys| == |m.values|
    ensures c.done == total
    ensures OpsBelow(c.cur, |m.keys|) && GroupsBelow(c.groups, |m.keys|) && GroupsBelow(Groups(total, p), |m.keys|)
    ensures BatchBytes(w, m, c.cur) == [] <==> c.cur == []
    ensures Batches(w, m, Groups(total, p))
         == if c.cur == [] then Batches(w, m, c.groups) else Batches(w, m, c.groups) + [BatchBytes(w, m, c.cur)]
  {
    hide AllRequests, BatchBytes, Batches;
    assert c.done + [] == c.done && c.cur + [] == c.cur;
    GroupsKeepBound(total, p, |m.keys|);
    BatchNonempty(w, m, c.cur);
    if c.cur == [] {
      assert c.groups + [] == c.groups;
    } else {
      BatchesSnoc(w, m, c.groups, c.cur);
    }
  }

  /** `prepare_work`: nothing at all when any request of any client is refused. */
  method PrepareWork(w: Workload, m: Material, p: nat, clients: nat, n: nat) returns (work: seq<Work>)
    requires Covers(m, n)
    ensures work != [] ==> |work| == clients
    ensures |work| == clients ==> forall c | 0 <= c < clients ::
              OpsBelow(ClientOps(c, clients, n), |m.keys|)
              && AllSendable(AllRequests(w, m, ClientOps(c, clients, n)))
              && work[c] == WorkOf(w, m, p, ClientOps(c, clients, n))
    ensures |work| < clients ==> exists c | 0 <= c < clients ::
              OpsBelow(ClientOps(c, clients, n), |m.keys|)
              && !AllSendable(AllRequests(w, m, ClientOps(c, clients, n)))
  {
    hide AllRequests, WorkOf, AllSendable, OpsFrom;
    work := [];
    for c := 0 to clients
      invariant |work| == c
      invariant forall i | 0 <= i < c ::
                  OpsBelow(ClientOps(i, clients, n), |m.keys|)
                  && AllSendable(AllRequests(w, m, ClientOps(i, clients, n)))
                  && work[i] == WorkOf(w, m, p, ClientOps(i, clients, n))
    {
      var one := PrepareClient(w, m, p, c, clients, n);
      if one.None? {
        return [];
      }
      work := work + [one.value];
    }
  }

  // ---------------------------------------------------------------- What the client waits for

  /** `run_client` waits for up to `quota` responses after each batch, while any remain. */
  function Awaited(batches: nat, remaining: nat, quota: nat): (r: seq<nat>)
    ensures |r| == batches
    decreases batches
  {
    if batches == 0 then []
    else
      var k := if quota < remaining then quota else remaining;
      [k] + Awaited(batches - 1, remaining - k, quota)
  }

  function Sum(s: seq<nat>): nat {
    if s == [] then 0 else s[0] + Sum(s[1..])
  }

  lemma {:induction false} RequestsPerOperation(w: Workload, m: Material, ops: seq<nat>)
    requires OpsBelow(ops, |m.keys|) && |m.keys| == |m.values|
    ensures |AllRequests(w, m, ops)| == FramesPerOperation(w) * |ops|
    decreases |ops|
  {
    if ops != [] {
      RequestsPerOperation(w, m, ops[1..]);
    }
  }

  function FrameCounts(groups: seq<seq<nat>>, f: nat): (r: seq<nat>)
    ensures |r| == |groups|
  {
    seq(|groups|, i requires 0 <= i < |groups| => f * |groups[i]|)
  }

  lemma Products(f: nat, p: nat, n: nat)
    ensures p * f == f * p
    ensures p <= n ==> f * p <= f * n && f * n - f * p == f * (n - p)
    ensures n <= p ==> f * n <= f * p
  {
    MulMono(f, p, n);
  }

  lemma FrameCountsCons(group: seq<nat>, rest: seq<seq<nat>>, f: nat)
    ensures FrameCounts([group] + rest, f) == [f * |group|] + FrameCounts(rest, f)
    ensures Sum(FrameCounts([group] + rest, f)) == f * |group| + Sum(FrameCounts(rest, f))
  {
    var counts := FrameCounts([group] + rest, f);
    assert counts == [f * |group|] + FrameCounts(rest, f);
    assert counts[1..] == FrameCounts(rest, f);
  }

  lemma {:induction false} AwaitedIsFrameCounts(ops: seq<nat>, p: nat, f: nat)
    requires p > 0
    ensures Awaited(|Groups(ops, p)|, f * |ops|, p * f) == FrameCounts(Groups(ops, p), f)
    ensures Sum(FrameCounts(Groups(ops, p), f)) == f * |ops|
    decreases |ops|
  {
    hide FrameCounts, Sum;
    Products(f, p, |ops|);
    if ops == [] {
      assert FrameCounts([], f) == [];
      SumOfNone();
    } else if |ops| <= p {
      FrameCountsCons(ops, [], f);
      assert [ops] + [] == [ops] && FrameCounts([], f) == [];
      SumOfNone();
    } else {
      AwaitedIsFrameCounts(ops[p..], p, f);
      FrameCountsCons(ops[..p], Groups(ops[p..], p), f);
    }
  }

  lemma SumOfNone()
    ensures Sum([]) == 0
  {
  }

  lemma MulMono(f: nat, a: nat, b: nat)
    ensures a <= b ==> f * a <= f * b
    ensures b <= a ==> f * b <= f * a
  {
  }

  /** The product of the depth and the frames per operation, as `std::size_t` has it. */
  function Quota(p: nat, w: Workload): nat {
    p * FramesPerOperation(w) % SIZE_LIMIT
  }

  /** How many responses follow each batch of `work`. */
  function AwaitedBy(work: Work, p: nat, w: Workload): seq<nat> {
    Awaited(|work.batches|, work.responseCount, Quota(p, w))
  }

  /** The quota did not wrap, or what is left of it still covers all frames of the client. */
  predicate QuotaCovers(p: nat, w: Workload, operations: nat) {
    p * FramesPerOperation(w) < SIZE_LIMIT || FramesPerOperation(w) * operations <= Quota(p, w)
  }

  /** When the quota wraps, the depth exceeds any number of operations and there is one batch at most. */
  lemma WrappedQuota(p: nat, w: Workload, ops: seq<nat>)
    requires 0 < p < SIZE_LIMIT && 2 * |ops| < SIZE_LIMIT && p * FramesPerOperation(w) >= SIZE_LIMIT
    ensures FramesPerOperation(w) == 2 && |ops| <= p
    ensures Groups(ops, p) == if ops == [] then [] else [ops]
  {
  }

  lemma AwaitedOnce(remaining: nat, quota: nat)
    ensures Awaited(1, remaining, quota) == [if quota < remaining then quota else remaining]
    ensures Sum(Awaited(1, remaining, quota)) == if quota < remaining then quota else remaining
  {
    assert Awaited(0, remaining - (if quota < remaining then quota else remaining), quota) == [];
    assert Awaited(1, remaining, quota)[1..] == [];
  }

  lemma QuotaCases(p: nat, w: Workload, operations: nat)
    ensures p * FramesPerOperation(w) < SIZE_LIMIT ==>
              Quota(p, w) == p * FramesPerOperation(w) && QuotaCovers(p, w, operations)
    ensures p * FramesPerOperation(w) >= SIZE_LIMIT ==>
              (QuotaCovers(p, w, operations) <==> FramesPerOperation(w) * operations <= Quota(p, w))
  {
  }

  /** One batch at most, and what is left of the quota. */
  lemma WrappedAwaited(remaining: nat, batches: nat, quota: nat, full: nat)
    requires batches == (if remaining == 0 then 0 else 1) && remaining <= full
    ensures Sum(Awaited(batches, remaining, quota)) <= remaining
    ensures Awaited(batches, remaining, quota) == Awaited(batches, remaining, full) <==> remaining <= quota
    ensures Sum(Awaited(batches, remaining, quota)) == remaining <==> remaining <= quota
  {
    hide Awaited, Sum;
    if remaining == 0 {
      EmptyAwaited(remaining, quota);
      EmptyAwaited(remaining, full);
      SumOfNone();
    } else {
      AwaitedOnce(remaining, quota);
      AwaitedOnce(remaining, full);
    }
  }

  /** The counts awaited are the frame counts of the batches exactly when the quota covers the client. */
  lemma AwaitedIff(w: Workload, p: nat, ops: seq<nat>)
    requires 0 < p < SIZE_LIMIT && 2 * |ops| < SIZE_LIMIT
    ensures var (f, groups) := (FramesPerOperation(w), Groups(ops, p));
            var awaited := Awaited(|groups|, f * |ops|, Quota(p, w));
            && Sum(FrameCounts(groups, f)) == f * |ops|
            && Sum(awaited) <= f * |ops|
            && (awaited == FrameCounts(groups, f) <==> QuotaCovers(p, w, |ops|))
            && (Sum(awaited) == f * |ops| <==> QuotaCovers(p, w, |ops|))
  {
    hide FrameCounts, Sum, Awaited, Groups, Quota, QuotaCovers, FramesPerOperation;
    var f := FramesPerOperation(w);
    AwaitedIsFrameCounts(ops, p, f);
    QuotaCases(p, w, |ops|);
    if p * f >= SIZE_LIMIT {
      WrappedQuota(p, w, ops);
      WrappedAwaited(2 * |ops|, |Groups(ops, p)|, Quota(p, w), p * f);
    }
  }

  lemma EmptyAwaited(remaining: nat, quota: nat)
    ensures Awaited(0, remaining, quota) == []
  {
  }

  /**
   The client waits after every batch for exactly the frames that the batch holds, and in the end for all
   of them, if and only if its quota covers it.
   */
  lemma AwaitedAgreesIff(w: Workload, m: Material, p: nat, ops: seq<nat>)
    requires 0 < p < SIZE_LIMIT && 2 * |ops| < SIZE_LIMIT
    requires OpsBelow(ops, |m.keys|) && |m.keys| == |m.values|
    requires AllSendable(AllRequests(w, m, ops))
    ensures var work := WorkOf(w, m, p, ops);
            && work.responseCount == FramesPerOperation(w) * |ops|
            && (forall i | 0 <= i < |work.batches| :: Split(work.batches[i], 40).Some?)
            && ((forall i | 0 <= i < |work.batches| ::
                   AwaitedBy(work, p, w)[i] == |Split(work.batches[i], 40).value|) <==> QuotaCovers(p, w, |ops|))
            && Sum(AwaitedBy(work, p, w)) <= work.responseCount
            && (Sum(AwaitedBy(work, p, w)) == work.responseCount <==> QuotaCovers(p, w, |ops|))
  {
    hide Split, AllRequests, Sendable, AllSendable, Groups, Awaited, FramesPerOperation, QuotaCovers, Quota;
    var work := WorkOf(w, m, p, ops);
    var groups := Groups(ops, p);
    RequestsPerOperation(w, m, ops);
    AwaitedIff(w, p, ops);
    GroupsKeepBound(ops, p, |m.keys|);
    forall i | 0 <= i < |groups|
      ensures Split(work.batches[i], 40).Some?
      ensures |Split(work.batches[i], 40).value| == FramesPerOperation(w) * |groups[i]|
    {
      GroupSendable(w, m, p, ops, i);
      BatchSplits(w, m, groups[i]);
    }
    CountsDiffer(AwaitedBy(work, p, w), FrameCounts(groups, FramesPerOperation(w)));
  }

  lemma CountsDiffer(a: seq<nat>, b: seq<nat>)
    requires |a| == |b|
    ensures a == b <==> forall i | 0 <= i < |a| :: a[i] == b[i]
  {
  }

  /** A depth of 2^63 is accepted by the command line, and then nothing is awaited for a PUT and its GET. */
  lemma QuotaWraps(op: nat)
    ensures var p := 0x8000_0000_0000_0000;
            && !QuotaCovers(p, ReadAfterWrite, 1)
            && Groups([op], p) == [[op]]
            && Awaited(1, 2, Quota(p, ReadAfterWrite)) == [0]
  {
    AwaitedOnce(2, 0);
  }

  lemma BatchSplits(w: Workload, m: Material, group: seq<nat>)
    requires OpsBelow(group, |m.keys|) && |m.keys| == |m.values|
    requires AllSendable(AllRequests(w, m, group))
    ensures Split(BatchBytes(w, m, group), 40) == Some(RequestStream(AllRequests(w, m, group)))
    ensures |AllRequests(w, m, group)| == FramesPerOperation(w) * |group|
  {
    hide Split, AllRequests, RequestBytes, RequestFits;
    RequestStreamSplits(AllRequests(w, m, group));
    RequestsPerOperation(w, m, group);
  }

  lemma {:induction false} GroupSendable(w: Workload, m: Material, p: nat, ops: seq<nat>, i: nat)
    requires OpsBelow(ops, |m.keys|) && |m.keys| == |m.values|
    requires AllSendable(AllRequests(w, m, ops)) && i < |Groups(ops, p)|
    ensures OpsBelow(Groups(ops, p)[i], |m.keys|)
    ensures AllSendable(AllRequests(w, m, Groups(ops, p)[i]))
    decreases |ops|
  {
    hide Sendable, AllRequests;
    if p > 0 && |ops| > p {
      var (a, b) := (ops[..p], ops[p..]);
      assert ops == a + b;
      AllRequestsConcat(w, m, a, b);
      assert forall r | r in AllRequests(w, m, a) :: r in AllRequests(w, m, ops);
      assert forall r | r in AllRequests(w, m, b) :: r in AllRequests(w, m, ops);
      if i > 0 {
        GroupSendable(w, m, p, b, i - 1);
        assert Groups(ops, p)[i] == Groups(b, p)[i - 1];
      }
    }
  }

  // ---------------------------------------------------------------- What every frame carries

  /** Batch `g` holds the `p` operations from number `g * p` on, the last batch what is left of them. */
  lemma {:induction false} GroupIs(ops: seq<nat>, p: nat, g: nat, lo: nat)
    requires g < |Groups(ops, p)| && lo == g * p
    ensures lo < |ops|
    ensures var size := if p > 0 && g < |Groups(ops, p)| - 1 then p else |ops| - lo;
            lo + size <= |ops| && Groups(ops, p)[g] == ops[lo..lo + size]
    decreases |ops|
  {
    if p == 0 || |ops| <= p {
      assert ops[0..|ops|] == ops;
    } else if g > 0 {
      var rest := ops[p..];
      assert (g - 1) * p == g * p - p;
      GroupIs(rest, p, g - 1, lo - p);
      assert Groups(ops, p)[g] == Groups(rest, p)[g - 1];
      var size := if g < |Groups(ops, p)| - 1 then p else |ops| - lo;
      assert rest[lo - p..lo - p + size] == ops[lo..lo + size];
    }
  }

  /** Which operations a workload writes: all, none, or every hundredth, twentieth or tenth. */
  ghost predicate Written(w: Workload, op: nat) {
    || w.ReadAfterWrite?
    || (w.Read99Write1? && op % 100 == 0)
    || (w.Read95Write5? && op % 20 == 0)
    || (w.Read90Write10? && op % 10 == 0)
  }

  /** One operation: its PUT, its GET or, reading after writing, both. */
  lemma RequestsAre(w: Workload, m: Material, op: nat)
    requires op < |m.keys| == |m.values|
    ensures var put := Request(4, 2 * op, m.keys[op], m.values[op], 0, 0xFFFF_FFFF);
            var get := Request(3, 2 * op + 1, m.keys[op], [], 0, 0xFFFF_FFFF);
            Requests(w, m, op)
            == if w.ReadAfterWrite? then [put, get] else if Written(w, op) then [put] else [get]
    ensures w.ReadAfterWrite? ==> Written(w, op)
  {
  }

  lemma {:induction false} RequestAt(w: Workload, m: Material, ops: seq<nat>, t: nat)
    requires OpsBelow(ops, |m.keys|) && |m.keys| == |m.values| && t < |AllRequests(w, m, ops)|
    ensures var f := if w.ReadAfterWrite? then 2 else 1;
            && t / f < |ops|
            && var op := ops[t / f];
            AllRequests(w, m, ops)[t]
            == if Written(w, op) && t % f == 0
               then Request(4, 2 * op, m.keys[op], m.values[op], 0, 0xFFFF_FFFF)
               else Request(3, 2 * op + 1, m.keys[op], [], 0, 0xFFFF_FFFF)
    decreases |ops|
  {
    hide Requests, Written;
    var f := if w.ReadAfterWrite? then 2 else 1;
    RequestsAre(w, m, ops[0]);
    if t >= f {
      RequestAt(w, m, ops[1..], t - f);
      assert (t - f) / f == t / f - 1 && (t - f) % f == t % f;
    }
  }

  lemma FrameDecodes(rs: seq<Request>, t: nat)
    requires AllSendable(rs) && t < |rs|
    ensures DecodeRequest(RequestStream(rs)[t]) == Some(rs[t])
  {
    hide Sendable, DecodeRequest, RequestBytes;
    assert rs[t] in rs;
    RequestDecodes(rs[t]);
  }

  lemma GroupFrames(w: Workload, m: Material, group: seq<nat>, t: nat)
    requires OpsBelow(group, |m.keys|) && |m.keys| == |m.values|
    requires AllSendable(AllRequests(w, m, group))
    ensures var frames := Split(BatchBytes(w, m, group), 40);
            && frames.Some?
            && (t < |frames.value| ==>
                  var f := if w.ReadAfterWrite? then 2 else 1;
                  && t / f < |group|
                  && var op := group[t / f];
                  DecodeRequest(frames.value[t])
                  == Some(if Written(w, op) && t % f == 0
                          then Request(4, 2 * op, m.keys[op], m.values[op], 0, 0xFFFF_FFFF)
                          else Request(3, 2 * op + 1, m.keys[op], [], 0, 0xFFFF_FFFF)))
  {
    hide AllRequests, BatchBytes, Sendable, Split, DecodeRequest, RequestBytes, Written, AllSendable;
    BatchSplits(w, m, group);
    var rs := AllRequests(w, m, group);
    if t < |rs| {
      RequestAt(w, m, group, t);
      FrameDecodes(rs, t);
    }
  }

  /**
   Every frame of every prepared batch, as the server decodes it.  Frame `t` of batch `g` belongs to the
   operation that many places along; it is a PUT of its key and value, or a GET of its key.
   */
  lemma BatchFrames(w: Workload, m: Material, p: nat, ops: seq<nat>, g: nat, t: nat)
    requires OpsBelow(ops, |m.keys|) && |m.keys| == |m.values|
    requires AllSendable(AllRequests(w, m, ops))
    requires g < |WorkOf(w, m, p, ops).batches|
    ensures var frames := Split(WorkOf(w, m, p, ops).batches[g], 40);
            && frames.Some?
            && (t < |frames.value| ==>
                  var f := if w.ReadAfterWrite? then 2 else 1;
                  && g * p + t / f < |ops|
                  && var op := ops[g * p + t / f];
                  DecodeRequest(frames.value[t])
                  == Some(if Written(w, op) && t % f == 0
                          then Request(4, 2 * op, m.keys[op], m.values[op], 0, 0xFFFF_FFFF)
                          else Request(3, 2 * op + 1, m.keys[op], [], 0, 0xFFFF_FFFF)))
  {
    hide AllRequests, Groups, BatchBytes, Sendable, Split, DecodeRequest, Written, AllSendable;
    GroupsKeepBound(ops, p, |m.keys|);
    var (group, lo) := (Groups(ops, p)[g], g * p);
    GroupSendable(w, m, p, ops, g);
    GroupFrames(w, m, group, t);
    GroupIs(ops, p, g, lo);
    var k := t / if w.ReadAfterWrite? then 2 else 1;
    assert k < |group| ==> group[k] == ops[lo + k];
  }

  /** Every batch but the last holds the frames of `p` operations; without a limit there is one batch. */
  lemma BatchSizes(w: Workload, m: Material, p: nat, ops: seq<nat>, g: nat)
    requires OpsBelow(ops, |m.keys|) && |m.keys| == |m.values|
    requires AllSendable(AllRequests(w, m, ops))
    requires g < |WorkOf(w, m, p, ops).batches|
    ensures var batches := WorkOf(w, m, p, ops).batches;
            var f := if w.ReadAfterWrite? then 2 else 1;
            && (p == 0 ==> g == 0)
            && Split(batches[g], 40).Some?
            && |Split(batches[g], 40).value| == f * if p > 0 && g < |batches| - 1 then p else |ops| - g * p
  {
    hide AllRequests, Groups, BatchBytes, Sendable, Split, RequestStream, AllSendable;
    GroupsKeepBound(ops, p, |m.keys|);
    GroupSendable(w, m, p, ops, g);
    BatchSplits(w, m, Groups(ops, p)[g]);
    GroupIs(ops, p, g, g * p);
    OneGroup(ops);
  }

  lemma OneGroup(ops: seq<nat>)
    ensures |Groups(ops, 0)| <= 1
  {
  }

  /** A request is refused for an empty key or a frame over 2 MiB, and for nothing else. */
  lemma SendableIff(m: Material, op: nat)
    requires op < |m.keys| == |m.values| && 2 * op + 1 < SIZE_LIMIT
    ensures Sendable(PutRequest(m, op)) <==>
              m.keys[op] != [] && 40 + |m.keys[op]| + |m.values[op]| <= 2_097_152
    ensures Sendable(GetRequest(m, op)) <==> m.keys[op] != [] && 40 + |m.keys[op]| <= 2_097_152
  {
    Limits();
  }

  lemma RequestsSendableIff(w: Workload, m: Material, op: nat)
    requires op < |m.keys| == |m.values| && 2 * op + 1 < SIZE_LIMIT
    ensures AllSendable(Requests(w, m, op)) <==>
              && m.keys[op] != []
              && 40 + |m.keys[op]| + (if Written(w, op) then |m.values[op]| else 0) <= 2_097_152
  {
    hide Sendable, PutRequest, GetRequest;
    SendableIff(m, op);
    var last := if Writes(w, op) then PutRequest(m, op) else GetRequest(m, op);
    assert w.ReadAfterWrite? ==> !Writes(w, op) && Requests(w, m, op) == [PutRequest(m, op), last];
    assert !w.ReadAfterWrite? ==> (Writes(w, op) <==> Written(w, op)) && Requests(w, m, op) == [last];
  }

  /** When `prepare_work` has work for a client: every key nonempty and every frame within 2 MiB. */
  lemma {:induction false} PreparedIff(w: Workload, m: Material, ops: seq<nat>)
    requires OpsBelow(ops, |m.keys|) && |m.keys| == |m.values|
    requires forall i | 0 <= i < |ops| :: 2 * ops[i] + 1 < SIZE_LIMIT
    ensures AllSendable(AllRequests(w, m, ops)) <==>
              forall i | 0 <= i < |ops| ::
                && m.keys[ops[i]] != []
                && 40 + |m.keys[ops[i]]| + (if Written(w, ops[i]) then |m.values[ops[i]]| else 0) <= 2_097_152
    decreases |ops|
  {
    hide Requests, Written, Sendable;
    if ops != [] {
      var rest := ops[1..];
      PreparedIff(w, m, rest);
      RequestsSendableIff(w, m, ops[0]);
      SendableConcat(Requests(w, m, ops[0]), AllRequests(w, m, rest));
      assert forall i | 0 <= i < |rest| :: rest[i] == ops[i + 1];
    }
  }

  lemma SendableConcat(a: seq<Request>, b: seq<Request>)
    ensures AllSendable(a + b) <==> AllSendable(a) && AllSendable(b)
  {
    hide Sendable;
    assert forall r | r in a || r in b :: r in a + b;
  }

  // ---------------------------------------------------------------- Running one client

  /** A response the client counts as a hit: odd request ids are GETs and must carry the right value. */
  predicate Good(r: Response, values: seq<seq<byte>>) {
    && r.status == 0
    && r.requestId / 2 < |values|
    && (r.requestId % 2 == 1 ==> r.value == values[r.requestId / 2])
  }

  /** The bytes left after `n` good responses, or `None` when something else comes first. */
  function Serve(bytes: seq<byte>, n: nat, values: seq<seq<byte>>): Option<seq<byte>>
    decreases n
  {
    if n == 0 then Some(bytes)
    else match Expected(bytes)
      case Got(r, k) => if Good(r, values) then Serve(bytes[k..], n - 1, values) else None
      case _ => None
  }

  lemma AwaitedStep(batches: nat, remaining: nat, quota: nat)
    requires batches > 0
    ensures var k := if quota < remaining then quota else remaining;
            Sum(Awaited(batches, remaining, quota)) == k + Sum(Awaited(batches - 1, remaining - k, quota))
  {
    var s := Awaited(batches, remaining, quota);
    var k := if quota < remaining then quota else remaining;
    assert s[1..] == Awaited(batches - 1, remaining - k, quota);
  }

  /**
   `run_client` without its clocks: all hits, or none when anything goes wrong.  `sends(b)` tells whether
   batch `b` can be sent.
   */
  method RunClient(socket: Socket, sends: nat -> bool, work: Work, values: seq<seq<byte>>, p: nat, w: Workload)
      returns (hits: nat)
    modifies socket
    ensures var n := Sum(AwaitedBy(work, p, w));
            hits == if && (forall b | 0 <= b < |work.batches| :: sends(b))
                       && Serve(old(Stream(socket.events)), n, values).Some?
                    then n else 0
  {
    hide Stream, AfterFailure, Expected, Awaited, Sum, Good;
    var reader := new Reader();
    var remaining: nat := work.responseCount;
    var quota: nat := Quota(p, w);
    ghost var all := Stream(socket.events);
    ghost var n := Sum(AwaitedBy(work, p, w));
    assert [] + all == all;
    hits := 0;
    for b := 0 to |work.batches|
      invariant reader.Valid() && fresh(reader)
      invariant forall j | 0 <= j < b :: sends(j)
      invariant hits <= n
      invariant n == hits + Sum(Awaited(|work.batches| - b, remaining, quota))
      invariant Serve(all, n, values) == Serve(reader.Pending() + Stream(socket.events), n - hits, values)
    {
      if !sends(b) {
        return 0;
      }
      AwaitedStep(|work.batches| - b, remaining, quota);
      var responses := if quota < remaining then quota else remaining;
      for i := 0 to responses
        invariant reader.Valid() && fresh(reader)
        invariant hits + (responses - i) <= n
        invariant n == hits + (responses - i) + Sum(Awaited(|work.batches| - b - 1, remaining - responses, quota))
        invariant Serve(all, n, values) == Serve(reader.Pending() + Stream(socket.events), n - hits, values)
      {
        var r := reader.Receive(socket);
        if !r.Got? || !Good(r.response, values) {
          return 0;
        }
        hits := hits + 1;
      }
      remaining := remaining - responses;
    }
    NothingAwaited(remaining, quota);
  }

  lemma NothingAwaited(remaining: nat, quota: nat)
    ensures Sum(Awaited(0, remaining, quota)) == 0
  {
  }

  lemma {:induction false} ServeStream(rs: seq<Response>, tail: seq<byte>, values: seq<seq<byte>>)
    requires forall r | r in rs :: Receivable(r) && Good(r, values)
    ensures Serve(Flatten(ResponseStream(rs)) + tail, |rs|, values) == Some(tail)
  {
    hide Expected, Receivable, Good;
    if rs == [] {
      assert Flatten(ResponseStream(rs)) + tail == tail;
    } else {
      NextInStream(rs, tail);
      assert rs[0] in rs;
      ServeStream(rs[1..], tail, values);
    }
  }

  /** What a hit takes, written out: an OK for a known operation and, for a GET, the operation's value. */
  lemma {:induction false} ServeIff(rs: seq<Response>, tail: seq<byte>, values: seq<seq<byte>>)
    requires forall r | r in rs :: Receivable(r)
    ensures Serve(Flatten(ResponseStream(rs)) + tail, |rs|, values).Some? <==>
              forall i | 0 <= i < |rs| ::
                && rs[i].status == 0
                && rs[i].requestId < 2 * |values|
                && (rs[i].requestId % 2 != 0 ==> rs[i].value == values[rs[i].requestId / 2])
  {
    hide Expected, Receivable;
    if rs != [] {
      NextInStream(rs, tail);
      assert rs[0] in rs;
      ServeIff(rs[1..], tail, values);
      assert forall i | 1 <= i < |rs| :: rs[i] == rs[1..][i - 1];
    }
  }

  /**
   A client run on prepared work finds all its responses when the server answers every request well, in
   whatever order the answers come and however the network cuts the stream.  It takes them all exactly when
   its quota covers them.
   */
  lemma AllAnswered(w: Workload, m: Material, p: nat, ops: seq<nat>, events: seq<Event>,
                    answers: seq<Response>, tail: seq<byte>)
    requires 0 < p < SIZE_LIMIT && 2 * |ops| < SIZE_LIMIT
    requires OpsBelow(ops, |m.keys|) && |m.keys| == |m.values|
    requires AllSendable(AllRequests(w, m, ops))
    requires |answers| == FramesPerOperation(w) * |ops|
    requires forall r | r in answers :: Receivable(r) && Good(r, m.values)
    requires Stream(events) == Flatten(ResponseStream(answers)) + tail
    ensures var n := Sum(AwaitedBy(WorkOf(w, m, p, ops), p, w));
            && n <= |answers|
            && Serve(Stream(events), n, m.values) == Some(Flatten(ResponseStream(answers[n..])) + tail)
            && (n == |answers| <==> QuotaCovers(p, w, |ops|))
  {
    hide AllRequests, Sendable, Receivable, Good, Stream, Awaited, WorkOf, FramesPerOperation, Split, Flatten,
      QuotaCovers, Quota;
    AwaitedAgreesIff(w, m, p, ops);
    ServeSome(answers, Sum(AwaitedBy(WorkOf(w, m, p, ops), p, w)), tail, m.values);
  }

  lemma ServeSome(rs: seq<Response>, n: nat, tail: seq<byte>, values: seq<seq<byte>>)
    requires n <= |rs| && forall r | r in rs :: Receivable(r) && Good(r, values)
    ensures Serve(Flatten(ResponseStream(rs)) + tail, n, values) == Some(Flatten(ResponseStream(rs[n..])) + tail)
  {
    hide Receivable, Good, Serve, Flatten, ResponseStream;
    var (first, rest) := (rs[..n], rs[n..]);
    assert rs == first + rest;
    var (x, y) := (Flatten(ResponseStream(first)), Flatten(ResponseStream(rest)));
    ResponsesConcat(first, rest);
    ServeStream(first, y + tail, values);
    assert x + y + tail == x + (y + tail);
  }

  lemma ResponsesConcat(a: seq<Response>, b: seq<Response>)
    ensures Flatten(ResponseStream(a + b)) == Flatten(ResponseStream(a)) + Flatten(ResponseStream(b))
  {
    hide ResponseBytes, Flatten;
    assert ResponseStream(a + b) == ResponseStream(a) + ResponseStream(b);
    FlattenConcat(ResponseStream(a), ResponseStream(b));
  }

  // ---------------------------------------------------------------- All clients together

  /** An operation is done by the client of its residue, and by no other. */
  lemma {:induction false} OpsFromMembers(op: nat, stride: nat, n: nat, x: nat)
    requires stride > 0
    ensures x in OpsFrom(op, stride, n) <==> op <= x < n && (x - op) % stride == 0
    decreases n - op
  {
    if op < n {
      OpsFromMembers(op + stride, stride, n, x);
      if op < x {
        ModStep(x - op, stride);
      }
    }
  }

  lemma ModStep(d: nat, stride: nat)
    requires stride > 0 && d > 0
    ensures d >= stride ==> (d - stride) % stride == d % stride
    ensures d < stride ==> d % stride == d
  {
    if d >= stride {
      var (q, r) := (d / stride, d % stride);
      assert d - stride == stride * (q - 1) + r;
      DivModIs(d - stride, stride, q - 1, r);
    } else {
      DivModIs(d, stride, 0, d);
    }
  }

  lemma OneOwner(clients: nat, n: nat, op: nat, c: nat)
    requires c < clients && op < n
    ensures op in ClientOps(c, clients, n) <==> c == op % clients
  {
    OpsFromMembers(c, clients, n, op);
    ResidueIs(op, clients, c);
  }

  lemma ResidueIs(op: nat, clients: nat, c: nat)
    requires c < clients
    ensures op >= c && (op - c) % clients == 0 <==> c == op % clients
  {
    if op >= c && (op - c) % clients == 0 {
      DivModIs(op, clients, (op - c) / clients, c);
    }
    if c == op % clients {
      DivModIs(op - c, clients, op / clients, 0);
    }
  }

  /** The operations come in increasing order, so none is done twice. */
  lemma {:induction false} OpsFromIncreasing(op: nat, stride: nat, n: nat, i: nat, j: nat)
    requires stride > 0 && i < j < |OpsFrom(op, stride, n)|
    ensures op <= OpsFrom(op, stride, n)[i] < OpsFrom(op, stride, n)[j]
    decreases n - op
  {
    var rest := OpsFrom(op + stride, stride, n);
    if i > 0 {
      OpsFromIncreasing(op + stride, stride, n, i - 1, j - 1);
    } else {
      assert OpsFrom(op, stride, n)[j] == rest[j - 1];
      OpsFromMembers(op + stride, stride, n, rest[j - 1]);
    }
  }

  lemma {:induction false} OpsFromSnoc(op: nat, stride: nat, n: nat)
    requires stride > 0
    ensures OpsFrom(op, stride, n + 1)
         == OpsFrom(op, stride, n) + (if op <= n && (n - op) % stride == 0 then [n] else [])
    decreases n - op
  {
    if op < n {
      OpsFromSnoc(op + stride, stride, n);
      ModStep(n - op, stride);
    } else if op == n {
      assert OpsFrom(op + stride, stride, n + 1) == [];
    }
  }

  /** How many operations the clients below `k` have in all. */
  ghost function Total(k: nat, clients: nat, n: nat): nat
    requires k <= clients
  {
    if k == 0 then 0 else Total(k - 1, clients, n) + |ClientOps(k - 1, clients, n)|
  }

  lemma {:induction false} TotalStep(k: nat, clients: nat, n: nat)
    requires k <= clients && clients > 0
    ensures Total(k, clients, n + 1) == Total(k, clients, n) + (if n % clients < k then 1 else 0)
    decreases k
  {
    if k > 0 {
      TotalStep(k - 1, clients, n);
      OpsFromSnoc(k - 1, clients, n);
      OneOwner(clients, n + 1, n, k - 1);
      OpsFromMembers(k - 1, clients, n + 1, n);
    }
  }

  lemma {:induction false} TotalOfNone(k: nat, clients: nat)
    requires k <= clients
    ensures Total(k, clients, 0) == 0
    decreases k
  {
    if k > 0 {
      TotalOfNone(k - 1, clients);
    }
  }

  /** All clients together do every operation once: the hits that `run_sample` expects. */
  lemma {:induction false} TotalOperations(clients: nat, n: nat)
    requires clients > 0
    ensures Total(clients, clients, n) == n
    decreases n
  {
    if n == 0 {
      TotalOfNone(clients, clients);
    } else {
      TotalOperations(clients, n - 1);
      TotalStep(clients, clients, n - 1);
      assert (n - 1) % clients < clients;
    }
  }

  // ---------------------------------------------------------------- What a sample expects

  lemma ClientOpsBelow(client: nat, clients: nat, m: Material, n: nat)
    requires client < clients && Covers(m, n)
    ensures OpsBelow(ClientOps(client, clients, n), |m.keys|)
  {
  }

  ghost predicate AllClientsSendable(w: Workload, m: Material, clients: nat, n: nat)
    requires Covers(m, n)
  {
    forall c: nat | c < clients ::
      ClientOpsBelow(c, clients, m, n); AllSendable(AllRequests(w, m, ClientOps(c, clients, n)))
  }

  /** How many responses one client awaits in all. */
  function ClientAwaits(w: Workload, m: Material, p: nat, client: nat, clients: nat, n: nat): nat
    requires client < clients && Covers(m, n)
  {
    ClientOpsBelow(client, clients, m, n);
    Sum(AwaitedBy(WorkOf(w, m, p, ClientOps(client, clients, n)), p, w))
  }

  function SumUpTo(hits: seq<nat>, k: nat): nat
    requires k <= |hits|
  {
    if k == 0 then 0 else SumUpTo(hits, k - 1) + hits[k - 1]
  }

  /** All requests of a client were answered, as far as the client counts. */
  predicate AllHit(w: Workload, m: Material, p: nat, n: nat, hits: seq<nat>, c: nat)
    requires c < |hits| && Covers(m, n)
  {
    && hits[c] == ClientAwaits(w, m, p, c, |hits|, n)
    && QuotaCovers(p, w, |ClientOps(c, |hits|, n)|)
  }

  lemma {:induction false} OpsFromFew(op: nat, stride: nat, n: nat)
    requires stride > 0
    ensures |OpsFrom(op, stride, n)| <= if op < n then n - op else 0
    decreases n - op
  {
    if op < n {
      OpsFromFew(op + stride, stride, n);
    }
  }

  lemma ClientOpsFew(client: nat, clients: nat, n: nat)
    requires client < clients
    ensures |ClientOps(client, clients, n)| <= n
  {
    OpsFromFew(client, clients, n);
  }

  /** Each client reports all it awaits or nothing, so a sum short of the total names a failed client. */
  lemma {:induction false} HitsUpTo(w: Workload, m: Material, p: nat, n: nat, hits: seq<nat>, k: nat)
    requires 0 < p < SIZE_LIMIT && Covers(m, n) && k <= |hits| && AllClientsSendable(w, m, |hits|, n)
    requires forall c: nat | c < |hits| :: hits[c] == ClientAwaits(w, m, p, c, |hits|, n) || hits[c] == 0
    ensures SumUpTo(hits, k) <= FramesPerOperation(w) * Total(k, |hits|, n)
    ensures SumUpTo(hits, k) == FramesPerOperation(w) * Total(k, |hits|, n) <==>
            forall c: nat | c < k :: AllHit(w, m, p, n, hits, c)
    decreases k
  {
    hide AwaitedBy, Sum, WorkOf, AllRequests, QuotaCovers, Split, ClientOps;
    if k > 0 {
      var c := k - 1;
      HitsUpTo(w, m, p, n, hits, c);
      ClientOpsBelow(c, |hits|, m, n);
      ClientOpsFew(c, |hits|, n);
      AwaitedAgreesIff(w, m, p, ClientOps(c, |hits|, n));
      assert FramesPerOperation(w) * Total(k, |hits|, n)
          == FramesPerOperation(w) * Total(c, |hits|, n) + FramesPerOperation(w) * |ClientOps(c, |hits|, n)|;
      NoFramesCovered(w, p, |ClientOps(c, |hits|, n)|);
      assert AllHit(w, m, p, n, hits, c) <==> hits[c] == FramesPerOperation(w) * |ClientOps(c, |hits|, n)|;
      assert (forall d: nat | d < k :: AllHit(w, m, p, n, hits, d)) <==>
             (forall d: nat | d < c :: AllHit(w, m, p, n, hits, d)) && AllHit(w, m, p, n, hits, c);
    }
  }

  lemma NoFramesCovered(w: Workload, p: nat, operations: nat)
    ensures FramesPerOperation(w) * operations == 0 ==> QuotaCovers(p, w, operations)
  {
  }

  /** `run_sample`: the server stopped cleanly and the hits are as many as there are frames. */
  predicate SampleValid(w: Workload, n: nat, hits: seq<nat>, stopped: bool) {
    stopped && SumUpTo(hits, |hits|) == n * FramesPerOperation(w)
  }

  /** A sample is valid exactly when the server stopped cleanly and every client hit all it was to hit. */
  lemma SampleValidIff(w: Workload, m: Material, p: nat, n: nat, hits: seq<nat>, stopped: bool)
    requires 0 < p < SIZE_LIMIT && hits != [] && Covers(m, n) && AllClientsSendable(w, m, |hits|, n)
    requires forall c: nat | c < |hits| :: hits[c] == ClientAwaits(w, m, p, c, |hits|, n) || hits[c] == 0
    ensures SampleValid(w, n, hits, stopped) <==> stopped && forall c: nat | c < |hits| :: AllHit(w, m, p, n, hits, c)
  {
    hide ClientAwaits, AllClientsSendable, AllHit;
    HitsUpTo(w, m, p, n, hits, |hits|);
    TotalOperations(|hits|, n);
    assert n * FramesPerOperation(w) == FramesPerOperation(w) * Total(|hits|, |hits|, n);
  }

  /** Request ids name the operation and, by parity, the opcode; no two frames of a run share one. */
  lemma RequestIds(w: Workload, m: Material, op: nat, op': nat, i: nat, j: nat)
    requires op < |m.keys| == |m.values| && op' < |m.keys|
    requires i < |Requests(w, m, op)| && j < |Requests(w, m, op')|
    ensures Requests(w, m, op)[i].requestId / 2 == op
    ensures Requests(w, m, op)[i].requestId % 2 == 1 <==> Requests(w, m, op)[i].opcode == 3
    ensures Requests(w, m, op)[i].requestId == Requests(w, m, op')[j].requestId <==> op == op' && i == j
  {
  }

  // ---------------------------------------------------------------- Hits are not answered requests

  function AskedIds(rs: seq<Request>): (r: seq<nat>)
    ensures |r| == |rs|
    ensures forall i | 0 <= i < |rs| :: r[i] == rs[i].requestId
  {
    seq(|rs|, i requires 0 <= i < |rs| => rs[i].requestId)
  }

  function AnswerIds(rs: seq<Response>): (r: seq<nat>)
    ensures |r| == |rs|
    ensures forall i | 0 <= i < |rs| :: r[i] == rs[i].requestId
  {
    seq(|rs|, i requires 0 <= i < |rs| => rs[i].requestId)
  }

  lemma {:induction false} IdsNameOps(w: Workload, m: Material, ops: seq<nat>, i: nat)
    requires OpsBelow(ops, |m.keys|) && |m.keys| == |m.values| && i < |AllRequests(w, m, ops)|
    ensures AllRequests(w, m, ops)[i].requestId / 2 in ops
    decreases |ops|
  {
    var first := Requests(w, m, ops[0]);
    if i < |first| {
      RequestIds(w, m, ops[0], ops[0], i, i);
    } else {
      IdsNameOps(w, m, ops[1..], i - |first|);
    }
  }

  /** No two requests of a client share an id. */
  lemma {:induction false} AskedOnce(w: Workload, m: Material, ops: seq<nat>)
    requires OpsBelow(ops, |m.keys|) && |m.keys| == |m.values| && NoRepeats(ops)
    ensures NoRepeats(AskedIds(AllRequests(w, m, ops)))
    decreases |ops|
  {
    hide Requests;
    if ops != [] {
      var (first, rest, all) := (Requests(w, m, ops[0]), AllRequests(w, m, ops[1..]), AllRequests(w, m, ops));
      AskedOnce(w, m, ops[1..]);
      forall i, j | 0 <= i < j < |all|
        ensures AskedIds(all)[i] != AskedIds(all)[j]
      {
        if j < |first| {
          RequestIds(w, m, ops[0], ops[0], i, j);
        } else if i < |first| {
          RequestIds(w, m, ops[0], ops[0], i, i);
          IdsNameOps(w, m, ops[1..], j - |first|);
        } else {
          assert AskedIds(rest)[i - |first|] != AskedIds(rest)[j - |first|];
        }
      }
    }
  }

  /**
   As many answers as requests answer each request once exactly when no response id is repeated and each
   was asked for.  The client checks neither.
   */
  lemma AnsweredOnceIff(w: Workload, m: Material, ops: seq<nat>, answers: seq<Response>)
    requires OpsBelow(ops, |m.keys|) && |m.keys| == |m.values| && NoRepeats(ops)
    requires |answers| == |AllRequests(w, m, ops)|
    ensures var asked := AskedIds(AllRequests(w, m, ops));
            multiset(asked) == multiset(AnswerIds(answers)) <==>
              && NoRepeats(AnswerIds(answers))
              && forall i | 0 <= i < |answers| :: answers[i].requestId in asked
  {
    hide AllRequests;
    AskedOnce(w, m, ops);
    var asked := AskedIds(AllRequests(w, m, ops));
    RearrangementIff(asked, AnswerIds(answers));
    assert (forall i | 0 <= i < |answers| :: AnswerIds(answers)[i] in asked) <==>
           (forall i | 0 <= i < |answers| :: answers[i].requestId in asked);
  }

  /** One good response, sent again and again, gives a client all its hits. */
  lemma RepeatedAnswer(r: Response, n: nat, values: seq<seq<byte>>, tail: seq<byte>)
    requires Receivable(r) && Good(r, values)
    ensures var answers := seq(n, i => r);
            && Serve(Flatten(ResponseStream(answers)) + tail, n, values) == Some(tail)
            && (n >= 2 ==> !NoRepeats(AnswerIds(answers)))
  {
    hide Receivable, Good, Serve;
    var answers := seq(n, i => r);
    ServeStream(answers, tail, values);
    if n >= 2 {
      assert AnswerIds(answers)[0] == AnswerIds(answers)[1];
    }
  }
}
