/** What holds in every state that any schedule of the publication benchmark can reach. */
module PublicationSafety {
  import opened Bytes
  import opened Publication

  // ---------------------------------------------------------------- The invariant, part by part

  predicate Working(pc: WriterPc) {
    pc.WHead? || pc.WAdmit? || pc.WLoadSafe? || pc.WScan? || pc.WPick? || Reserving(pc)
  }

  predicate Reserving(pc: WriterPc) {
    pc.WBuild? || pc.WInstall? || Ahead(pc)
  }

  /** The next epoch is installed but not yet counted. */
  predicate Ahead(pc: WriterPc) {
    pc.WPublish? || pc.WRetire? || pc.WRelease?
  }

  predicate Announced(pc: WriterPc) {
    pc.WWait? || ShuttingDown(pc)
  }

  predicate ShuttingDown(pc: WriterPc) {
    pc.WShutdown? || pc.WFinalLoad? || pc.WFinalScan? || pc.WCount? || pc.WExit?
  }

  /** The Reader has left its loop. */
  predicate Last(pc: ReaderPc) {
    match pc
    case RQuiescent(last) => last
    case RToken(last) => last
    case RRead(last, _) => last
    case RSafe(last, _) => last
    case RTest => false
    case RUse => false
    case RGet => false
    case _ => true
  }

  /** The Reader has given up its pointer for good. */
  predicate Terminal(pc: ReaderPc) {
    pc.RSafeTerminal? || Closed(pc)
  }

  predicate Closed(pc: ReaderPc) {
    pc.RSetQuiescent? || pc.RDone? || pc.RExit?
  }

  predicate Occupied(s: Slot) {
    s.state == Published || s.state == Retired
  }

  /** The generation of epoch `e`: the first `e` records are visible and the key maps to the last of them. */
  function GenerationOf(e: nat): Generation {
    Generation(e, e, if e == 0 then None else Some(e))
  }

  predicate Carries(s: Slot) {
    s.generation == Some(GenerationOf(s.epoch))
  }

  ghost predicate SlotInv(s: Slot, i: nat, writerSlot: nat, writerEpoch: nat, pc: WriterPc) {
    match s.state
    case Free => s.generation == None
    case Building =>
      || (pc == WBuild(i) && s.generation == None)
      || (pc == WInstall(i) && s.epoch == writerEpoch + 1 && Carries(s))
    case Published =>
      && Carries(s) && s.epoch <= writerEpoch
      && (i == writerSlot || pc == WPublish(i) || pc == WRetire(i))
    case Retired => Carries(s) && s.epoch < writerEpoch
  }

  ghost predicate SlotsInv(slots: seq<Slot>, writerSlot: nat, writerEpoch: nat, pc: WriterPc) {
    && 2 <= |slots| <= 0xFFFF
    && (forall i | 0 <= i < |slots| :: SlotInv(slots[i], i, writerSlot, writerEpoch, pc))
    && writerSlot < |slots| && slots[writerSlot].state == Published && slots[writerSlot].epoch == writerEpoch
    && (forall i, j | 0 <= i < j < |slots| && Occupied(slots[i]) && Occupied(slots[j]) ::
          slots[i].epoch != slots[j].epoch)
    && (pc.WBuild? || pc.WInstall? ==> pc.k < |slots| && slots[pc.k].state == Building)
    && (pc.WPublish? || pc.WRetire? ==> pc.prev < |slots| && pc.prev != writerSlot && slots[pc.prev].state == Published)
  }

  /** The token names a published slot: the Writer's, except just before the next token is stored. */
  ghost predicate TokenInv(slots: seq<Slot>, publication: nat, writerSlot: nat, writerEpoch: nat, pc: WriterPc) {
    var (i, e) := (DecodeSlot(publication), DecodeEpoch(publication));
    && publication > 0
    && 0 <= i < |slots| && slots[i].state == Published && slots[i].epoch == e
    && (if pc.WPublish? then i == pc.prev && e + 1 == writerEpoch else i == writerSlot && e == writerEpoch)
  }

  ghost predicate WriterInv(c: Config, w: Writer, p: Pool) {
    && w.index <= c.records
    && p.writerEpoch == w.index + (if Ahead(w.pc) then 1 else 0)
    && p.reserved == (if Reserving(w.pc) then 1 else 0)
    && p.accepting == (Working(w.pc) || w.pc.WStop?)
    && w.done == Announced(w.pc)
    && (Working(w.pc) ==> !w.failed)
    && (Working(w.pc) && !w.pc.WHead? ==> w.index < c.records)
    && (!Working(w.pc) ==> (w.failed <==> w.index < c.records))
  }

  /** A slot that holds the generation of epoch `e`, which is not below the safe epoch. */
  predicate Protects(slots: seq<Slot>, i: int, e: nat, safe: nat) {
    && 0 <= i < |slots|
    && Occupied(slots[i])
    && Carries(slots[i])
    && slots[i].epoch == e
    && safe <= e
  }

  ghost predicate HeldInv(slots: seq<Slot>, safe: nat, held: Option<Pointer>) {
    held.Some? ==>
      && Protects(slots, held.value.slot, held.value.generation.epoch, safe)
      && held.value.generation == GenerationOf(held.value.generation.epoch)
  }

  ghost predicate AdoptInv(c: Config, slots: seq<Slot>, safe: nat, published: nat, r: Reader) {
    match r.pc
    case RRead(last, token) =>
      && Protects(slots, DecodeSlot(token), DecodeEpoch(token), safe)
      && r.previous <= DecodeEpoch(token) <= published
      && (last ==> DecodeEpoch(token) == c.records)
    case RSafe(last, e) =>
      && r.held.Some? && r.held.value.generation.epoch == e
      && r.previous <= e <= published && safe <= e
      && (last ==> e == c.records)
    case RUse => r.held.Some? && r.previous <= r.held.value.generation.epoch <= published
    case RGet => r.held.Some?
    case RLastUse => r.held.Some? && r.held.value.generation.epoch == c.records
    case _ => true
  }

  ghost predicate SafeInv(p: Pool, w: Writer, r: Reader) {
    && (w.pc.WScan? ==> w.pc.safe <= p.safe)
    && (if Closed(r.pc) then p.safe == p.writerEpoch + 1 else p.safe <= DecodeEpoch(p.publication))
    && HeldInv(p.slots, p.safe, r.held)
  }

  ghost predicate ReaderInv(c: Config, p: Pool, w: Writer, r: Reader) {
    && !r.failed && !r.fault
    && r.skips + r.changes == r.previous <= DecodeEpoch(p.publication)
    && (Last(r.pc) ==> w.done && !w.failed && r.previous == c.records)
    && p.quiescent == (r.pc.RDone? || r.pc.RExit?)
    && r.done == r.pc.RExit?
    && (r.pc.RSafeTerminal? ==> r.pc.epoch == p.writerEpoch)
    && (Terminal(r.pc) ==> r.held == None)
    && (r.pc.RQuiesce? || r.pc.RReserved? || r.pc.RTerminal? || Terminal(r.pc) ==> r.checksum == 2 * c.records)
  }

  ghost predicate NoneRetired(slots: seq<Slot>, n: nat) {
    forall j | 0 <= j < n && j < |slots| :: slots[j].state != Retired
  }

  ghost predicate ShutdownInv(p: Pool, w: Writer, r: Reader) {
    && (ShuttingDown(w.pc) ==> r.pc.RExit?)
    && (w.pc.WFinalScan? ==> w.pc.safe == p.writerEpoch + 1 && NoneRetired(p.slots, w.pc.i))
    && (w.pc.WCount? || w.pc.WExit? ==> NoneRetired(p.slots, |p.slots|))
  }

  function LiveCount(slots: seq<Slot>): nat {
    if slots == [] then 0
    else LiveCount(slots[..|slots| - 1]) + (if Occupied(slots[|slots| - 1]) then 1 else 0)
  }

  ghost predicate Inv(c: Config, s: State) {
    && SlotsInv(s.pool.slots, s.pool.writerSlot, s.pool.writerEpoch, s.w.pc)
    && TokenInv(s.pool.slots, s.pool.publication, s.pool.writerSlot, s.pool.writerEpoch, s.w.pc)
    && s.pool.live == LiveCount(s.pool.slots)
    && WriterInv(c, s.w, s.pool)
    && SafeInv(s.pool, s.w, s.r)
    && AdoptInv(c, s.pool.slots, s.pool.safe, DecodeEpoch(s.pool.publication), s.r)
    && ReaderInv(c, s.pool, s.w, s.r)
    && ShutdownInv(s.pool, s.w, s.r)
  }

  /** The configurations the program can be started with. */
  predicate ValidConfig(c: Config) {
    2 <= c.capacity <= 0xFFFF && 1 <= c.records
  }

  // ---------------------------------------------------------------- Counting live slots

  lemma {:induction false} LiveUpdate(slots: seq<Slot>, i: nat, s: Slot)
    requires i < |slots|
    ensures LiveCount(slots[i := s])
         == LiveCount(slots) - (if Occupied(slots[i]) then 1 else 0) + (if Occupied(s) then 1 else 0)
    decreases |slots|
  {
    var (n, u) := (|slots| - 1, slots[i := s]);
    if i == n {
      assert u[..n] == slots[..n];
    } else {
      LiveUpdate(slots[..n], i, s);
      assert u[..n] == slots[..n][i := s];
    }
  }

  lemma {:induction false} LiveOne(slots: seq<Slot>, k: nat)
    requires forall i | 0 <= i < |slots| :: Occupied(slots[i]) <==> i == k
    ensures LiveCount(slots) == if k < |slots| then 1 else 0
    decreases |slots|
  {
    if slots != [] {
      var n := |slots| - 1;
      assert Occupied(slots[n]) <==> n == k;
      LiveOne(slots[..n], k);
    }
  }

  lemma InitialSlots(c: Config)
    requires ValidConfig(c)
    ensures SlotsInv(Initial(c).pool.slots, 0, 0, WHead)
    ensures LiveCount(Initial(c).pool.slots) == 1
  {
    hide LiveCount, Encode;
    LiveOne(Initial(c).pool.slots, 0);
  }

  lemma InitialInv(c: Config)
    requires ValidConfig(c)
    ensures Inv(c, Initial(c))
  {
    hide LiveCount, Encode, DecodeEpoch, DecodeSlot, SlotsInv;
    InitialSlots(c);
    TokenRoundTrip(0, 0);
  }

  // ---------------------------------------------------------------- Writer steps

  /** Steps of the Writer that leave the slots and the token alone. */
  predicate Plain(pc: WriterPc) {
    || pc.WHead? || pc.WAdmit? || pc.WLoadSafe? || pc.WRelease? || pc.WStop? || pc.WAnnounce? || pc.WWait?
    || pc.WShutdown? || pc.WFinalLoad? || pc.WExit?
  }

  lemma PlainStep(c: Config, s: State, fails: bool)
    requires Inv(c, s) && Plain(s.w.pc)
    ensures Inv(c, WriterStep(c, s, fails))
  {
    hide LiveCount, Encode, DecodeEpoch, DecodeSlot, FirstFree, AdoptInv, HeldInv, SlotsInv, TokenInv, NoneRetired;
    var t := WriterStep(c, s, fails);
    NoneRetiredYet(s.pool.slots);
    PlainSlots(s.pool, s.w.pc, t.w.pc);
  }

  lemma NoneRetiredYet(slots: seq<Slot>)
    ensures NoneRetired(slots, 0)
  {
  }

  lemma PlainSlots(p: Pool, pc: WriterPc, pc': WriterPc)
    requires SlotsInv(p.slots, p.writerSlot, p.writerEpoch, pc)
    requires TokenInv(p.slots, p.publication, p.writerSlot, p.writerEpoch, pc)
    requires Plain(pc) || pc.WScan? || pc.WFinalScan? || pc.WCount? || pc.WPick?
    requires !Reserving(pc') || pc'.WRelease?
    ensures SlotsInv(p.slots, p.writerSlot, p.writerEpoch, pc')
    ensures TokenInv(p.slots, p.publication, p.writerSlot, p.writerEpoch, pc')
  {
    hide Encode, DecodeEpoch, DecodeSlot;
    forall i | 0 <= i < |p.slots|
      ensures SlotInv(p.slots[i], i, p.writerSlot, p.writerEpoch, pc')
    {
      assert SlotInv(p.slots[i], i, p.writerSlot, p.writerEpoch, pc);
    }
  }

  /** A protected slot survives any change to another slot, and any reclaim below the safe epoch. */
  lemma StillProtected(slots: seq<Slot>, i: nat, s: Slot, j: int, e: nat, safe: nat)
    requires i < |slots| && Protects(slots, j, e, safe)
    requires !Occupied(slots[i]) || slots[i].epoch < safe
    ensures Protects(slots[i := s], j, e, safe)
  {
  }

  lemma StillHeld(c: Config, slots: seq<Slot>, i: nat, s: Slot, safe: nat, published: nat, r: Reader)
    requires i < |slots| && (!Occupied(slots[i]) || slots[i].epoch < safe)
    requires HeldInv(slots, safe, r.held) && AdoptInv(c, slots, safe, published, r)
    ensures HeldInv(slots[i := s], safe, r.held) && AdoptInv(c, slots[i := s], safe, published, r)
  {
    hide Protects, DecodeEpoch, DecodeSlot;
    if r.held.Some? {
      StillProtected(slots, i, s, r.held.value.slot, r.held.value.generation.epoch, safe);
    }
    if r.pc.RRead? {
      StillProtected(slots, i, s, DecodeSlot(r.pc.token), DecodeEpoch(r.pc.token), safe);
    }
  }

  lemma ReclaimSlots(p: Pool, i: nat, safe: nat, pc: WriterPc, pc': WriterPc)
    requires SlotsInv(p.slots, p.writerSlot, p.writerEpoch, pc)
    requires TokenInv(p.slots, p.publication, p.writerSlot, p.writerEpoch, pc)
    requires p.live == LiveCount(p.slots) && i < |p.slots|
    requires (pc.WScan? && pc'.WScan?) || (pc.WFinalScan? && pc'.WFinalScan?)
    ensures var q := Reclaim(p, i, safe);
            && SlotsInv(q.slots, q.writerSlot, q.writerEpoch, pc')
            && TokenInv(q.slots, q.publication, q.writerSlot, q.writerEpoch, pc')
            && q.live == LiveCount(q.slots)
  {
    hide LiveCount, Encode, DecodeEpoch, DecodeSlot;
    PlainSlots(p, pc, pc');
    LiveUpdate(p.slots, i, Slot(Free, 0, None));
    var slots := Reclaim(p, i, safe).slots;
    forall j | 0 <= j < |slots|
      ensures SlotInv(slots[j], j, p.writerSlot, p.writerEpoch, pc')
    {
      assert SlotInv(p.slots[j], j, p.writerSlot, p.writerEpoch, pc');
    }
  }

  lemma ScanStep(c: Config, s: State, fails: bool)
    requires Inv(c, s) && s.w.pc.WScan?
    ensures Inv(c, WriterStep(c, s, fails))
  {
    hide LiveCount, Encode, DecodeEpoch, DecodeSlot, FirstFree, SlotsInv, TokenInv, AdoptInv, HeldInv;
    var (p, pc, t) := (s.pool, s.w.pc, WriterStep(c, s, fails));
    if pc.i < |p.slots| {
      ReclaimSlots(p, pc.i, pc.safe, pc, t.w.pc);
      if p.slots[pc.i].state == Retired && p.slots[pc.i].epoch < pc.safe {
        StillHeld(c, p.slots, pc.i, Slot(Free, 0, None), p.safe, DecodeEpoch(p.publication), s.r);
      }
    } else {
      PlainSlots(p, pc, t.w.pc);
    }
  }

  lemma FinalScanStep(c: Config, s: State, fails: bool)
    requires Inv(c, s) && s.w.pc.WFinalScan?
    ensures Inv(c, WriterStep(c, s, fails))
  {
    hide LiveCount, Encode, DecodeEpoch, DecodeSlot, FirstFree, TokenInv;
    var (p, pc, t) := (s.pool, s.w.pc, WriterStep(c, s, fails));
    if pc.i < |p.slots| {
      ReclaimSlots(p, pc.i, pc.safe, pc, t.w.pc);
      assert SlotInv(p.slots[pc.i], pc.i, p.writerSlot, p.writerEpoch, pc);
    } else {
      PlainSlots(p, pc, t.w.pc);
    }
  }

  /** When no slot is retired, the Writer's slot is the only live one. */
  lemma CountStep(c: Config, s: State, fails: bool)
    requires Inv(c, s) && s.w.pc.WCount?
    ensures Inv(c, WriterStep(c, s, fails))
    ensures s.pool.live == 1
  {
    hide LiveCount, Encode, DecodeEpoch, DecodeSlot, FirstFree, TokenInv;
    var p := s.pool;
    forall i | 0 <= i < |p.slots|
      ensures Occupied(p.slots[i]) <==> i == p.writerSlot
    {
      assert SlotInv(p.slots[i], i, p.writerSlot, p.writerEpoch, s.w.pc);
    }
    LiveOne(p.slots, p.writerSlot);
    PlainSlots(p, s.w.pc, WExit);
  }

  /** The slot invariant after slot `k`, not occupied before or after, changes with the Writer's position. */
  lemma IdleSlotChanges(p: Pool, k: nat, v: Slot, pc: WriterPc, pc': WriterPc)
    requires SlotsInv(p.slots, p.writerSlot, p.writerEpoch, pc)
    requires TokenInv(p.slots, p.publication, p.writerSlot, p.writerEpoch, pc)
    requires p.live == LiveCount(p.slots)
    requires k < |p.slots| && !Occupied(p.slots[k]) && !Occupied(v)
    requires pc.WPick? || pc == WBuild(k)
    requires pc' == WBuild(k) || pc' == WInstall(k) || pc' == WStop
    requires pc' == WStop ==> v.state == Free
    requires pc' != WStop ==> v.state == Building
    requires SlotInv(v, k, p.writerSlot, p.writerEpoch, pc')
    ensures var slots := p.slots[k := v];
            && SlotsInv(slots, p.writerSlot, p.writerEpoch, pc')
            && TokenInv(slots, p.publication, p.writerSlot, p.writerEpoch, pc')
            && p.live == LiveCount(slots)
  {
    hide LiveCount, Encode, DecodeEpoch, DecodeSlot;
    LiveUpdate(p.slots, k, v);
    var slots := p.slots[k := v];
    forall i | 0 <= i < |slots|
      ensures SlotInv(slots[i], i, p.writerSlot, p.writerEpoch, pc')
    {
      assert SlotInv(p.slots[i], i, p.writerSlot, p.writerEpoch, pc);
    }
  }

  lemma PickStep(c: Config, s: State, fails: bool)
    requires Inv(c, s) && s.w.pc.WPick?
    ensures Inv(c, WriterStep(c, s, fails))
  {
    hide LiveCount, Encode, DecodeEpoch, DecodeSlot, FirstFree, TokenInv, AdoptInv, HeldInv;
    var p := s.pool;
    var k := FirstFree(p.slots, 0);
    if k < |p.slots| {
      var v := p.slots[k].(state := Building);
      assert SlotInv(p.slots[k], k, p.writerSlot, p.writerEpoch, s.w.pc);
      IdleSlotChanges(p, k, v, s.w.pc, WBuild(k));
      StillHeld(c, p.slots, k, v, p.safe, DecodeEpoch(p.publication), s.r);
    } else {
      PlainSlots(p, s.w.pc, WAdmit);
    }
  }

  lemma BuildStep(c: Config, s: State, fails: bool)
    requires Inv(c, s) && s.w.pc.WBuild?
    ensures Inv(c, WriterStep(c, s, fails))
  {
    hide LiveCount, Encode, DecodeEpoch, DecodeSlot, FirstFree, TokenInv, AdoptInv, HeldInv;
    var (p, k, t) := (s.pool, s.w.pc.k, WriterStep(c, s, fails));
    assert SlotInv(p.slots[k], k, p.writerSlot, p.writerEpoch, s.w.pc);
    IdleSlotChanges(p, k, t.pool.slots[k], s.w.pc, t.w.pc);
    StillHeld(c, p.slots, k, t.pool.slots[k], p.safe, DecodeEpoch(p.publication), s.r);
  }

  lemma InstallSlots(p: Pool, k: nat)
    requires SlotsInv(p.slots, p.writerSlot, p.writerEpoch, WInstall(k))
    requires TokenInv(p.slots, p.publication, p.writerSlot, p.writerEpoch, WInstall(k))
    requires p.live == LiveCount(p.slots)
    ensures var slots := p.slots[k := p.slots[k].(state := Published)];
            && p.slots[k].epoch == p.writerEpoch + 1
            && SlotsInv(slots, k, p.writerEpoch + 1, WPublish(p.writerSlot))
            && TokenInv(slots, p.publication, k, p.writerEpoch + 1, WPublish(p.writerSlot))
            && p.live + 1 == LiveCount(slots)
  {
    hide LiveCount, Encode, DecodeEpoch, DecodeSlot;
    assert SlotInv(p.slots[k], k, p.writerSlot, p.writerEpoch, WInstall(k));
    var v := p.slots[k].(state := Published);
    LiveUpdate(p.slots, k, v);
    var slots := p.slots[k := v];
    forall i | 0 <= i < |slots|
      ensures SlotInv(slots[i], i, k, p.writerEpoch + 1, WPublish(p.writerSlot))
      ensures i != k && Occupied(slots[i]) ==> slots[i].epoch <= p.writerEpoch
    {
      assert SlotInv(p.slots[i], i, p.writerSlot, p.writerEpoch, WInstall(k));
    }
  }

  lemma InstallStep(c: Config, s: State, fails: bool)
    requires Inv(c, s) && s.w.pc.WInstall?
    ensures Inv(c, WriterStep(c, s, fails))
  {
    hide LiveCount, Encode, DecodeEpoch, DecodeSlot, FirstFree, TokenInv, AdoptInv, HeldInv;
    var (p, k) := (s.pool, s.w.pc.k);
    InstallSlots(p, k);
    StillHeld(c, p.slots, k, p.slots[k].(state := Published), p.safe, DecodeEpoch(p.publication), s.r);
  }

  lemma PublishSlots(p: Pool, prev: nat)
    requires SlotsInv(p.slots, p.writerSlot, p.writerEpoch, WPublish(prev))
    ensures SlotsInv(p.slots, p.writerSlot, p.writerEpoch, WRetire(prev))
    ensures TokenInv(p.slots, Encode(p.writerEpoch, p.writerSlot), p.writerSlot, p.writerEpoch, WRetire(prev))
    ensures DecodeEpoch(Encode(p.writerEpoch, p.writerSlot)) == p.writerEpoch
  {
    hide DecodeEpoch, DecodeSlot;
    TokenRoundTrip(p.writerEpoch, p.writerSlot);
    forall i | 0 <= i < |p.slots|
      ensures SlotInv(p.slots[i], i, p.writerSlot, p.writerEpoch, WRetire(prev))
    {
      assert SlotInv(p.slots[i], i, p.writerSlot, p.writerEpoch, WPublish(prev));
    }
  }

  lemma PublishStep(c: Config, s: State, fails: bool)
    requires Inv(c, s) && s.w.pc.WPublish?
    ensures Inv(c, WriterStep(c, s, fails))
  {
    hide LiveCount, Encode, DecodeEpoch, DecodeSlot, FirstFree, SlotsInv, HeldInv;
    PublishSlots(s.pool, s.w.pc.prev);
  }

  lemma RetireSlots(p: Pool, prev: nat)
    requires SlotsInv(p.slots, p.writerSlot, p.writerEpoch, WRetire(prev))
    requires TokenInv(p.slots, p.publication, p.writerSlot, p.writerEpoch, WRetire(prev))
    requires p.live == LiveCount(p.slots)
    ensures var slots := p.slots[prev := p.slots[prev].(state := Retired)];
            && SlotsInv(slots, p.writerSlot, p.writerEpoch, WRelease)
            && TokenInv(slots, p.publication, p.writerSlot, p.writerEpoch, WRelease)
            && p.live == LiveCount(slots)
  {
    hide LiveCount, Encode, DecodeEpoch, DecodeSlot;
    var v := p.slots[prev].(state := Retired);
    LiveUpdate(p.slots, prev, v);
    assert p.slots[prev].epoch != p.slots[p.writerSlot].epoch by {
      assert Occupied(p.slots[prev]) && Occupied(p.slots[p.writerSlot]);
    }
    var slots := p.slots[prev := v];
    forall i | 0 <= i < |slots|
      ensures SlotInv(slots[i], i, p.writerSlot, p.writerEpoch, WRelease)
    {
      assert SlotInv(p.slots[i], i, p.writerSlot, p.writerEpoch, WRetire(prev));
    }
  }

  lemma RetireStep(c: Config, s: State, fails: bool)
    requires Inv(c, s) && s.w.pc.WRetire?
    ensures Inv(c, WriterStep(c, s, fails))
  {
    hide LiveCount, Encode, DecodeEpoch, DecodeSlot, FirstFree, SlotsInv, TokenInv;
    RetireIndex(s.pool, s.w.pc.prev);
    RetireSlots(s.pool, s.w.pc.prev);
  }

  lemma RetireIndex(p: Pool, prev: nat)
    requires SlotsInv(p.slots, p.writerSlot, p.writerEpoch, WRetire(prev))
    ensures prev < |p.slots| && p.slots[prev].state == Published
  {
  }

  lemma WriterStepInv(c: Config, s: State, fails: bool)
    requires Inv(c, s)
    ensures Inv(c, WriterStep(c, s, fails))
  {
    hide Inv, WriterStep;
    match s.w.pc {
      case WScan(_, _) => ScanStep(c, s, fails);
      case WFinalScan(_, _) => FinalScanStep(c, s, fails);
      case WCount => CountStep(c, s, fails);
      case WPick => PickStep(c, s, fails);
      case WBuild(_) => BuildStep(c, s, fails);
      case WInstall(_) => InstallStep(c, s, fails);
      case WPublish(_) => PublishStep(c, s, fails);
      case WRetire(_) => RetireStep(c, s, fails);
      case _ => PlainStep(c, s, fails);
    }
  }

  // ---------------------------------------------------------------- Reader steps

  /** The Reader's loop ends only when the Writer has announced that all epochs are published. */
  lemma TestStep(c: Config, s: State)
    requires Inv(c, s) && (s.r.pc.RTest? || s.r.pc.RQuiescent?)
    ensures Inv(c, ReaderStep(c, s))
  {
    hide LiveCount, Encode, DecodeEpoch, DecodeSlot, SlotsInv;
  }

  /** The loaded token is protected from the moment it is loaded. */
  lemma TokenStep(c: Config, s: State)
    requires Inv(c, s) && s.r.pc.RToken?
    ensures Inv(c, ReaderStep(c, s))
  {
    hide LiveCount, Encode, DecodeEpoch, DecodeSlot, HeldInv;
    var (p, i) := (s.pool, DecodeSlot(s.pool.publication));
    assert SlotInv(p.slots[i], i, p.writerSlot, p.writerEpoch, s.w.pc);
  }

  lemma ReadStep(c: Config, s: State)
    requires Inv(c, s) && s.r.pc.RRead?
    ensures Inv(c, ReaderStep(c, s))
  {
    hide LiveCount, Encode, DecodeEpoch, DecodeSlot, SlotsInv, TokenInv;
  }

  lemma SafeStep(c: Config, s: State)
    requires Inv(c, s) && s.r.pc.RSafe?
    ensures Inv(c, ReaderStep(c, s))
  {
    hide LiveCount, Encode, DecodeEpoch, DecodeSlot, SlotsInv, TokenInv;
  }

  lemma UseStep(c: Config, s: State)
    requires Inv(c, s) && (s.r.pc.RUse? || s.r.pc.RGet? || s.r.pc.RLastUse?) && 1 <= c.records
    ensures Inv(c, ReaderStep(c, s))
    ensures Alive(s.pool, s.r.held)
  {
    hide LiveCount, Encode, DecodeEpoch, DecodeSlot, SlotsInv, TokenInv;
  }

  lemma CloseStep(c: Config, s: State)
    requires Inv(c, s) && Last(s.r.pc)
    requires s.r.pc.RQuiesce? || s.r.pc.RReserved? || s.r.pc.RTerminal? || Terminal(s.r.pc)
    ensures Inv(c, ReaderStep(c, s))
  {
    hide LiveCount, Encode, DecodeEpoch, DecodeSlot, SlotsInv;
  }

  lemma ReaderStepInv(c: Config, s: State)
    requires Inv(c, s) && 1 <= c.records
    ensures Inv(c, ReaderStep(c, s))
  {
    hide Inv, ReaderStep;
    match s.r.pc {
      case RTest => TestStep(c, s);
      case RQuiescent(_) => TestStep(c, s);
      case RToken(_) => TokenStep(c, s);
      case RRead(_, _) => ReadStep(c, s);
      case RSafe(_, _) => SafeStep(c, s);
      case RUse => UseStep(c, s);
      case RGet => UseStep(c, s);
      case RLastUse => UseStep(c, s);
      case _ => CloseStep(c, s);
    }
  }

  // ---------------------------------------------------------------- Every schedule

  lemma NextInv(c: Config, s: State, choice: Choice)
    requires Inv(c, s) && 1 <= c.records
    ensures Inv(c, Next(c, s, choice))
  {
    hide Inv, WriterStep, ReaderStep;
    match choice {
      case WriterGoes => WriterStepInv(c, s, false);
      case WriterFails => WriterStepInv(c, s, true);
      case ReaderGoes => ReaderStepInv(c, s);
    }
  }

  lemma {:induction false} AlwaysInv(c: Config, schedule: seq<Choice>)
    requires ValidConfig(c)
    ensures Inv(c, Run(c, schedule))
  {
    hide Inv, Next, Initial;
    if schedule == [] {
      InitialInv(c);
    } else {
      AlwaysInv(c, schedule[..|schedule| - 1]);
      NextInv(c, Run(c, schedule[..|schedule| - 1]), schedule[|schedule| - 1]);
    }
  }

  /** No schedule makes the Reader follow a dangling pointer or observe a protocol failure. */
  lemma MemorySafety(c: Config, schedule: seq<Choice>)
    requires ValidConfig(c)
    ensures var s := Run(c, schedule);
            && !s.r.fault && !s.r.failed
            && (s.r.held.Some? ==> Alive(s.pool, s.r.held))
            && (s.r.pc.RUse? || s.r.pc.RGet? || s.r.pc.RLastUse? ==> s.r.held.Some?)
  {
    hide Run, LiveCount, DecodeEpoch, DecodeSlot, SlotsInv, TokenInv;
    AlwaysInv(c, schedule);
  }

  /** Reclaim never empties a slot whose epoch is at or above the Reader's safe epoch. */
  lemma ReclaimBelowSafe(c: Config, schedule: seq<Choice>, choice: Choice, i: nat)
    requires ValidConfig(c)
    requires i < |Run(c, schedule).pool.slots|
    requires Occupied(Run(c, schedule).pool.slots[i])
    ensures var (s, t) := (Run(c, schedule), Next(c, Run(c, schedule), choice));
            && |t.pool.slots| == |s.pool.slots|
            && (t.pool.slots[i].generation == s.pool.slots[i].generation || s.pool.slots[i].epoch < s.pool.safe)
  {
    hide Run, Inv, WriterStep, ReaderStep;
    AlwaysInv(c, schedule);
    var s := Run(c, schedule);
    match choice {
      case WriterGoes => WriterReclaims(c, s, false, i);
      case WriterFails => WriterReclaims(c, s, true, i);
      case ReaderGoes => ReaderKeepsSlots(c, s);
    }
  }

  lemma ReaderKeepsSlots(c: Config, s: State)
    ensures ReaderStep(c, s).pool.slots == s.pool.slots
  {
  }

  lemma WriterReclaims(c: Config, s: State, fails: bool, i: nat)
    requires Inv(c, s) && i < |s.pool.slots| && Occupied(s.pool.slots[i])
    ensures var t := WriterStep(c, s, fails);
            && |t.pool.slots| == |s.pool.slots|
            && (t.pool.slots[i].generation == s.pool.slots[i].generation || s.pool.slots[i].epoch < s.pool.safe)
  {
    hide LiveCount, Encode, DecodeEpoch, DecodeSlot, TokenInv, AdoptInv, HeldInv, NoneRetired;
    assert SlotInv(s.pool.slots[i], i, s.pool.writerSlot, s.pool.writerEpoch, s.w.pc);
  }

  /** Recorded skips and observed changes add up to the epoch the Reader has reached. */
  lemma EpochAccounting(c: Config, schedule: seq<Choice>)
    requires ValidConfig(c)
    ensures var s := Run(c, schedule);
            && s.r.skips + s.r.changes == s.r.previous
            && s.r.previous <= s.pool.writerEpoch <= c.records
            && (s.r.pc.RExit? ==> s.r.previous == c.records && s.r.checksum == 2 * c.records)
  {
    hide Run, LiveCount, DecodeSlot, SlotsInv;
    AlwaysInv(c, schedule);
  }

  /** A turn of the Reader's loop ends with the GET when one is asked for, and with the epoch checks otherwise. */
  lemma {:induction false} GetsWhenAsked(c: Config, schedule: seq<Choice>, choice: Choice)
    requires 2 <= c.capacity
    ensures var (s, t) := (Run(c, schedule), Next(c, Run(c, schedule), choice));
            && (s.r.pc.RGet? ==> c.readerGet)
            && (t.r.pc.RTest? && !s.r.pc.RTest? ==> s.r.pc == if c.readerGet then RGet else RUse)
    decreases |schedule|
  {
    hide WriterStep, ReaderStep;
    var s := Run(c, schedule);
    if schedule != [] {
      var (init, last) := (schedule[..|schedule| - 1], schedule[|schedule| - 1]);
      GetsWhenAsked(c, init, last);
      ReaderTurn(c, Run(c, init));
      WriterKeeps(c, Run(c, init), last.WriterFails?);
    }
    ReaderTurn(c, s);
    WriterKeeps(c, s, choice.WriterFails?);
  }

  lemma ReaderTurn(c: Config, s: State)
    requires s.r.pc.RGet? ==> c.readerGet
    ensures var t := ReaderStep(c, s);
            && (t.r.pc.RGet? ==> c.readerGet)
            && (t.r.pc.RTest? && !s.r.pc.RTest? ==> s.r.pc == if c.readerGet then RGet else RUse)
  {
    hide ReaderStep;
    if s.r.pc.RUse? || s.r.pc.RGet? {
      TurnEnds(c, s);
    } else if s.r.pc.RTest? || s.r.pc.RQuiescent? || s.r.pc.RToken? || s.r.pc.RRead? || s.r.pc.RSafe? {
      TurnGoesOn(c, s);
    } else {
      LoopLeft(c, s);
    }
  }

  lemma TurnEnds(c: Config, s: State)
    requires s.r.pc.RUse? || s.r.pc.RGet?
    ensures var t := ReaderStep(c, s);
            && (t.r.pc.RGet? ==> s.r.pc.RGet? || c.readerGet)
            && (t.r.pc.RTest? && s.r.pc.RUse? ==> !c.readerGet)
  {
    hide Alive;
  }

  lemma TurnGoesOn(c: Config, s: State)
    requires s.r.pc.RTest? || s.r.pc.RQuiescent? || s.r.pc.RToken? || s.r.pc.RRead? || s.r.pc.RSafe?
    ensures !ReaderStep(c, s).r.pc.RGet? && !ReaderStep(c, s).r.pc.RTest?
  {
    hide Alive, DecodeSlot, DecodeEpoch, Found;
  }

  lemma LoopLeft(c: Config, s: State)
    requires s.r.pc.RLastUse? || s.r.pc.RQuiesce? || s.r.pc.RReserved? || s.r.pc.RTerminal?
          || s.r.pc.RSafeTerminal? || s.r.pc.RSetQuiescent? || s.r.pc.RDone? || s.r.pc.RExit?
    ensures !ReaderStep(c, s).r.pc.RGet? && !ReaderStep(c, s).r.pc.RTest?
  {
    hide Alive, DecodeSlot, DecodeEpoch, Found;
  }

  lemma {:induction false} RunContinues(c: Config, a: seq<Choice>, b: seq<Choice>, choice: Choice)
    requires 2 <= c.capacity
    ensures Run(c, a + b + [choice]) == Next(c, Run(c, a + b), choice)
  {
    hide Next, Initial;
    assert (a + b + [choice])[..|a + b|] == a + b;
  }

  /** The epochs the Reader adopts never decrease, and neither does the safe epoch. */
  lemma {:induction false} EpochsNeverDecrease(c: Config, a: seq<Choice>, b: seq<Choice>)
    requires ValidConfig(c)
    ensures Run(c, a).r.previous <= Run(c, a + b).r.previous
    ensures Run(c, a).pool.safe <= Run(c, a + b).pool.safe
    ensures Run(c, a).w.failed ==> Run(c, a + b).w.failed
    decreases |b|
  {
    hide Run;
    if b == [] {
      assert a + b == a;
    } else {
      var (init, choice) := (b[..|b| - 1], b[|b| - 1]);
      EpochsNeverDecrease(c, a, init);
      assert a + b == a + init + [choice];
      RunContinues(c, a, init, choice);
      AlwaysInv(c, a + init);
      StepMonotone(c, Run(c, a + init), choice);
    }
  }

  lemma StepMonotone(c: Config, s: State, choice: Choice)
    requires Inv(c, s)
    ensures s.r.previous <= Next(c, s, choice).r.previous
    ensures s.pool.safe <= Next(c, s, choice).pool.safe
    ensures s.w.failed ==> Next(c, s, choice).w.failed
  {
    hide Inv, WriterStep, ReaderStep;
    match choice {
      case WriterGoes => WriterKeeps(c, s, false);
      case WriterFails => WriterKeeps(c, s, true);
      case ReaderGoes => ReaderMonotone(c, s);
    }
  }

  lemma WriterKeeps(c: Config, s: State, fails: bool)
    ensures var t := WriterStep(c, s, fails);
            t.r == s.r && t.pool.safe == s.pool.safe && (s.w.failed ==> t.w.failed)
  {
    hide FirstFree, Encode;
  }

  lemma ReaderMonotone(c: Config, s: State)
    requires Inv(c, s)
    ensures s.r.previous <= ReaderStep(c, s).r.previous
    ensures s.pool.safe <= ReaderStep(c, s).pool.safe
    ensures ReaderStep(c, s).w == s.w
  {
    hide LiveCount, Encode, SlotsInv, DecodeSlot, DecodeEpoch, ShutdownInv, HeldInv, WriterInv;
  }

  /** Once the Writer announces the end without a failure, all epochs are published and adoptable. */
  lemma DoneMeansPublished(c: Config, schedule: seq<Choice>)
    requires ValidConfig(c)
    ensures var s := Run(c, schedule);
            s.w.done && !s.w.failed ==>
              && s.pool.writerEpoch == DecodeEpoch(s.pool.publication) == c.records
              && !s.pool.accepting && s.pool.reserved == 0
  {
    hide Run, LiveCount, DecodeSlot, SlotsInv;
    AlwaysInv(c, schedule);
  }

  /** Shutdown is attempted only when nothing can be admitted and the Reader has left for good. */
  lemma ShutdownOrder(c: Config, schedule: seq<Choice>)
    requires ValidConfig(c)
    ensures var s := Run(c, schedule);
            ShuttingDown(s.w.pc) ==>
              && !s.pool.accepting && s.pool.reserved == 0 && s.pool.quiescent
              && s.r.held == None && s.r.pc == RExit && ReaderStep(c, s) == s
  {
    hide Run, LiveCount, DecodeEpoch, DecodeSlot, SlotsInv, TokenInv;
    AlwaysInv(c, schedule);
  }

  /** When both threads have returned, nothing has failed and only the last generation is left. */
  lemma Outcome(c: Config, schedule: seq<Choice>)
    requires ValidConfig(c)
    ensures var s := Run(c, schedule);
            s.w.pc.WExit? ==>
              && s.r.pc.RExit? && !s.w.failed && !s.r.failed
              && s.pool.live == 1
              && s.pool.writerSlot < |s.pool.slots|
              && s.pool.slots[s.pool.writerSlot].generation == Some(GenerationOf(c.records))
              && (forall i | 0 <= i < |s.pool.slots| && i != s.pool.writerSlot :: s.pool.slots[i].generation == None)
              && s.r.skips + s.r.changes == c.records && s.r.checksum == 2 * c.records
  {
    hide Run, LiveCount, DecodeEpoch, DecodeSlot, TokenInv;
    AlwaysInv(c, schedule);
    var s := Run(c, schedule);
    if s.w.pc.WExit? {
      forall i | 0 <= i < |s.pool.slots|
        ensures Occupied(s.pool.slots[i]) <==> i == s.pool.writerSlot
        ensures i != s.pool.writerSlot ==> s.pool.slots[i].generation == None
      {
        assert SlotInv(s.pool.slots[i], i, s.pool.writerSlot, s.pool.writerEpoch, s.w.pc);
      }
      LiveOne(s.pool.slots, s.pool.writerSlot);
      assert SlotInv(s.pool.slots[s.pool.writerSlot], s.pool.writerSlot, s.pool.writerSlot, s.pool.writerEpoch, s.w.pc);
    }
  }

  /** A failed publication is never reported: from then on neither thread ever returns. */
  lemma FailureNeverReturns(c: Config, a: seq<Choice>, b: seq<Choice>)
    requires ValidConfig(c)
    requires Run(c, a).w.failed
    ensures var s := Run(c, a + b);
            s.w.failed && !s.r.done && !ShuttingDown(s.w.pc) && s.r.previous < c.records
  {
    hide Run, LiveCount, DecodeSlot, SlotsInv;
    EpochsNeverDecrease(c, a, b);
    AlwaysInv(c, a + b);
  }
}
