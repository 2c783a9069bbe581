/**
 The two-thread publication benchmark on top of the generation slot pool: one Writer publishes N
 generations while one Reader adopts the newest, and the two shut the pool down together.  A step makes
 at most one access that the other thread can observe or influence, the plain fields of one slot counting
 as one; accesses to what only the own thread uses join the step next to them.  A schedule interleaves the
 steps of the two threads in any order.
 */
module Publication {
  import opened Bytes

  /** A read generation of the benchmark's one key: its latest record, if any was put. */
  datatype Generation = Generation(epoch: nat, visible: nat, latest: Option<nat>)

  const EMPTY := Generation(0, 0, None)

  /** `publish_incremental` with one put of the record with this sequence number. */
  function PublishPut(g: Generation, sequence: nat): Generation {
    Generation(g.epoch + 1, if sequence > g.visible then sequence else g.visible, Some(sequence))
  }

  datatype SlotState = Free | Building | Published | Retired

  datatype Slot = Slot(state: SlotState, epoch: nat, generation: Option<Generation>)

  /** The Reader's raw pointer: into a slot, to the generation that was there. */
  datatype Pointer = Pointer(slot: nat, generation: Generation)

  datatype Pool = Pool(
    slots: seq<Slot>,
    publication: nat,
    safe: nat,
    writerSlot: nat,
    writerEpoch: nat,
    live: int,
    reserved: int,
    accepting: bool,
    quiescent: bool)

  datatype WriterPc =
    | WHead | WAdmit | WLoadSafe | WScan(i: nat, safe: nat) | WPick
    | WBuild(k: nat) | WInstall(k: nat) | WPublish(prev: nat) | WRetire(prev: nat) | WRelease
    | WStop | WAnnounce | WWait
    | WShutdown | WFinalLoad | WFinalScan(i: nat, safe: nat) | WCount | WExit

  datatype ReaderPc =
    | RTest
    | RQuiescent(last: bool) | RToken(last: bool) | RRead(last: bool, token: nat) | RSafe(last: bool, epoch: nat)
    | RUse | RGet | RLastUse
    | RQuiesce | RReserved | RTerminal | RSafeTerminal(epoch: nat) | RSetQuiescent | RDone | RExit

  datatype Writer = Writer(pc: WriterPc, index: nat, failed: bool, done: bool)

  /** `changes` counts how often the observed epoch changed; `fault` records a dangling dereference. */
  datatype Reader = Reader(
    pc: ReaderPc,
    held: Option<Pointer>,
    previous: nat,
    skips: nat,
    changes: nat,
    checksum: nat,
    failed: bool,
    done: bool,
    fault: bool)

  datatype Config = Config(capacity: nat, records: nat, readerGet: bool)

  datatype State = State(pool: Pool, w: Writer, r: Reader)

  // ---------------------------------------------------------------- Publication tokens

  const MAXIMUM_EPOCH := 0xFFFF_FFFF_FFFF

  /** `{epoch:48, slot + 1:16}` in one 64-bit word. */
  function Encode(epoch: nat, slot: nat): nat {
    epoch * 0x1_0000 + (slot + 1)
  }

  function DecodeEpoch(token: nat): nat {
    token / 0x1_0000
  }

  function DecodeSlot(token: nat): int {
    token % 0x1_0000 - 1
  }

  lemma TokenRoundTrip(epoch: nat, slot: nat)
    requires slot < 0xFFFF
    ensures DecodeEpoch(Encode(epoch, slot)) == epoch
    ensures DecodeSlot(Encode(epoch, slot)) == slot
    ensures epoch <= MAXIMUM_EPOCH ==> 0 < Encode(epoch, slot) < 0x1_0000_0000_0000_0000
  {
  }

  // ---------------------------------------------------------------- Initial state

  function Initial(c: Config): State
    requires 2 <= c.capacity
  {
    var first := Slot(Published, 0, Some(EMPTY));
    var slots := seq(c.capacity, i => if i == 0 then first else Slot(Free, 0, None));
    State(Pool(slots, Encode(0, 0), 0, 0, 0, 1, 0, true, false),
          Writer(WHead, 0, false, false),
          Reader(RTest, None, 0, 0, 0, 0, false, false, false))
  }

  // ---------------------------------------------------------------- Writer

  /** One slot of `reclaim`: a retired slot below the loaded safe epoch is emptied. */
  function Reclaim(pool: Pool, i: nat, safe: nat): Pool
    requires i < |pool.slots|
  {
    var s := pool.slots[i];
    if s.state == Retired && s.epoch < safe then
      pool.(slots := pool.slots[i := Slot(Free, 0, None)], live := pool.live - 1)
    else pool
  }

  /** The first free slot, or the number of slots. */
  function FirstFree(slots: seq<Slot>, from: nat): (k: nat)
    requires from <= |slots|
    ensures from <= k <= |slots|
    ensures k < |slots| ==> slots[k].state == Free
    ensures forall i | from <= i < k :: slots[i].state != Free
    decreases |slots| - from
  {
    if from == |slots| || slots[from].state == Free then from else FirstFree(slots, from + 1)
  }

  /** One step of the Writer; `fails` decides whether building the next generation fails. */
  function WriterStep(c: Config, s: State, fails: bool): State {
    var (p, w) := (s.pool, s.w);
    match w.pc
    case WHead => s.(w := w.(pc := if w.index < c.records then WAdmit else WStop))
    case WAdmit => s.(w := w.(pc := if p.accepting then WLoadSafe else WAdmit))
    case WLoadSafe => s.(w := w.(pc := if p.safe == 0 then WPick else WScan(0, p.safe)))
    case WScan(i, safe) =>
      if i < |p.slots| then s.(pool := Reclaim(p, i, safe), w := w.(pc := WScan(i + 1, safe)))
      else s.(w := w.(pc := WPick))
    case WPick =>
      var k := FirstFree(p.slots, 0);
      if k < |p.slots| then
        s.(pool := p.(slots := p.slots[k := p.slots[k].(state := Building)], reserved := p.reserved + 1),
           w := w.(pc := WBuild(k)))
      else s.(w := w.(pc := WAdmit))
    case WBuild(k) =>
      if k >= |p.slots| then s
      else if fails || p.writerSlot >= |p.slots| || p.slots[p.writerSlot].generation.None?
              || p.slots[p.writerSlot].generation.value.epoch >= MAXIMUM_EPOCH then
        s.(pool := p.(slots := p.slots[k := p.slots[k].(state := Free)], reserved := p.reserved - 1),
           w := w.(pc := WStop, failed := true))
      else
        var g := PublishPut(p.slots[p.writerSlot].generation.value, w.index + 1);
        s.(pool := p.(slots := p.slots[k := Slot(Building, g.epoch, Some(g))]), w := w.(pc := WInstall(k)))
    case WInstall(k) =>
      if k >= |p.slots| then s
      else
        s.(pool := p.(slots := p.slots[k := p.slots[k].(state := Published)], live := p.live + 1,
                      writerSlot := k, writerEpoch := p.slots[k].epoch),
           w := w.(pc := WPublish(p.writerSlot)))
    case WPublish(prev) =>
      s.(pool := p.(publication := Encode(p.writerEpoch, p.writerSlot)), w := w.(pc := WRetire(prev)))
    case WRetire(prev) =>
      if prev >= |p.slots| then s
      else
        s.(pool := p.(slots := p.slots[prev := p.slots[prev].(state := Retired)]), w := w.(pc := WRelease))
    case WRelease =>
      s.(pool := p.(reserved := p.reserved - 1), w := w.(pc := WHead, index := w.index + 1))
    case WStop => s.(pool := p.(accepting := false), w := w.(pc := WAnnounce))
    case WAnnounce => s.(w := w.(pc := WWait, done := true))
    case WWait => s.(w := w.(pc := if s.r.done then WShutdown else WWait))
    case WShutdown =>
      if p.accepting || p.reserved != 0 || !p.quiescent then s.(w := w.(pc := WExit, failed := true))
      else s.(w := w.(pc := WFinalLoad))
    case WFinalLoad => s.(w := w.(pc := if p.safe == 0 then WCount else WFinalScan(0, p.safe)))
    case WFinalScan(i, safe) =>
      if i < |p.slots| then s.(pool := Reclaim(p, i, safe), w := w.(pc := WFinalScan(i + 1, safe)))
      else s.(w := w.(pc := WCount))
    case WCount => s.(w := w.(pc := WExit, failed := w.failed || p.live != 1))
    case WExit => s
  }

  // ---------------------------------------------------------------- Reader

  /** The pointed-to generation still exists. */
  predicate Alive(p: Pool, held: Option<Pointer>) {
    && held.Some?
    && held.value.slot < |p.slots|
    && p.slots[held.value.slot].generation == Some(held.value.generation)
  }

  /** `get` of the benchmark's key. */
  predicate Found(g: Generation) {
    g.latest.Some?
  }

  /** `adopt` returned null: the loop breaks to the last adoption, the last one goes on to quiesce. */
  function Null(r: Reader, last: bool): Reader {
    r.(failed := true, pc := if last then RQuiesce else RQuiescent(true))
  }

  /** One step of the Reader. */
  function ReaderStep(c: Config, s: State): State {
    var (p, r) := (s.pool, s.r);
    match r.pc
    case RTest => s.(r := r.(pc := RQuiescent(s.w.done && r.previous >= c.records)))
    case RQuiescent(last) => s.(r := if p.quiescent then Null(r, last) else r.(pc := RToken(last)))
    case RToken(last) => s.(r := if p.publication == 0 then Null(r, last) else r.(pc := RRead(last, p.publication)))
    case RRead(last, token) =>
      var (i, e) := (DecodeSlot(token), DecodeEpoch(token));
      if !(0 <= i < |p.slots|) || p.slots[i].epoch != e || p.slots[i].generation.None? || e < p.safe then
        s.(r := Null(r, last))
      else
        s.(r := r.(held := Some(Pointer(i, p.slots[i].generation.value)), pc := RSafe(last, e)))
    case RSafe(last, e) =>
      s.(pool := p.(safe := e), r := r.(pc := if last then RLastUse else RUse))
    case RUse =>
      if !Alive(p, r.held) then s.(r := r.(fault := true))
      else
        var g := r.held.value.generation;
        if g.visible != g.epoch || g.epoch < r.previous then s.(r := r.(failed := true, pc := RQuiescent(true)))
        else
          var after := if c.readerGet then RGet else RTest;
          if g.epoch != r.previous then
            s.(r := r.(skips := r.skips + (g.epoch - r.previous - 1), changes := r.changes + 1,
                       previous := g.epoch, pc := after))
          else s.(r := r.(pc := after))
    case RGet =>
      if !Alive(p, r.held) then s.(r := r.(fault := true))
      else
        var g := r.held.value.generation;
        if !Found(g) && g.epoch != 0 then s.(r := r.(failed := true, pc := RQuiescent(true)))
        else s.(r := r.(pc := RTest))
    case RLastUse =>
      if !Alive(p, r.held) then s.(r := r.(fault := true))
      else
        var g := r.held.value.generation;
        if g.epoch != c.records || !Found(g) then s.(r := r.(failed := true, pc := RQuiesce))
        else s.(r := r.(checksum := g.epoch + g.visible, pc := RQuiesce))
    case RQuiesce => s.(r := if p.accepting then r.(failed := true, pc := RDone) else r.(pc := RReserved))
    case RReserved => s.(r := if p.reserved != 0 then r.(failed := true, pc := RDone) else r.(pc := RTerminal))
    case RTerminal =>
      if p.quiescent then s.(r := r.(pc := RDone))
      else s.(r := r.(held := None, pc := RSafeTerminal(p.writerEpoch)))
    case RSafeTerminal(e) => s.(pool := p.(safe := e + 1), r := r.(pc := RSetQuiescent))
    case RSetQuiescent => s.(pool := p.(quiescent := true), r := r.(pc := RDone))
    case RDone => s.(r := r.(done := true, pc := RExit))
    case RExit => s
  }

  // ---------------------------------------------------------------- Schedules

  datatype Choice = WriterGoes | WriterFails | ReaderGoes

  function Next(c: Config, s: State, choice: Choice): State {
    match choice
    case WriterGoes => WriterStep(c, s, false)
    case WriterFails => WriterStep(c, s, true)
    case ReaderGoes => ReaderStep(c, s)
  }

  /** The state after a schedule. */
  function Run(c: Config, schedule: seq<Choice>): State
    requires 2 <= c.capacity
  {
    if schedule == [] then Initial(c)
    else Next(c, Run(c, schedule[..|schedule| - 1]), schedule[|schedule| - 1])
  }
}
