/**
 Progress of the publication benchmark: without a failed publication every fair schedule ends both
 threads, within a bound that depends only on the pool capacity and the number of records.

 At any time one thread is helpful: each of its steps lowers a rank, and no step of the other thread
 raises the rank or changes which thread is helpful without lowering it.
 */
module PublicationProgress {
  import opened Bytes
  import opened Publication
  import opened PublicationSafety
  import opened Sequences

  /** The states considered: reachable, no failure yet, and an end that the epochs can count to. */
  ghost predicate Live(c: Config, s: State) {
    Inv(c, s) && !s.w.failed && ValidConfig(c) && c.records <= MAXIMUM_EPOCH
  }

  predicate Finished(s: State) {
    s.w.pc.WExit? && s.r.pc.RExit?
  }

  function Published(s: State): nat {
    DecodeEpoch(s.pool.publication)
  }

  // ---------------------------------------------------------------- The rank

  /** Reader steps until the published epoch is advertised as safe. */
  function CatchUp(s: State): nat {
    if s.pool.safe == Published(s) then 0
    else match s.r.pc
      case RTest => 5
      case RQuiescent(_) => 4
      case RToken(_) => 3
      case RRead(_, token) => if DecodeEpoch(token) == Published(s) then 2 else 9
      case RSafe(_, e) => if e == Published(s) then 1 else 8
      case RUse => 7
      case _ => 6
  }

  /** A scan that leaves no retired slot behind. */
  ghost predicate Clean(p: Pool, i: nat, safe: nat) {
    safe == p.writerEpoch && NoneRetired(p.slots, i)
  }

  /** Writer steps until the next token is stored, once the published epoch is safe. */
  ghost function ToPublish(s: State): nat {
    var (p, n) := (s.pool, |s.pool.slots|);
    match s.w.pc
    case WPublish(_) => 1
    case WInstall(_) => 2
    case WBuild(_) => 3
    case WPick => if FirstFree(p.slots, 0) < n then 4 else n + 8
    case WScan(i, safe) => (if i < n then n - i else 0) + (if Clean(p, i, safe) then 5 else n + 9)
    case WLoadSafe => n + 6
    case WAdmit => n + 7
    case WHead => n + 8
    case WRelease => n + 9
    case _ => n + 10
  }

  /** k * w, by repeated addition. */
  function Times(k: nat, w: nat): nat {
    if k == 0 then 0 else w + Times(k - 1, w)
  }

  function Width(n: nat): nat {
    2 * n + 13
  }

  /** The part of the rank that a new token resets. */
  ghost function Turn(s: State): nat {
    var w := Width(|s.pool.slots|);
    Times(CatchUp(s), w) + (if CatchUp(s) == 0 then ToPublish(s) else w - 1)
  }

  /** Writer steps until `writer_done`, all epochs being published. */
  function ToAnnounce(pc: WriterPc): nat {
    match pc
    case WAnnounce => 1
    case WStop => 2
    case WHead => 3
    case WRelease => 4
    case _ => 5
  }

  /** Reader steps until it returns, `writer_done` being set. */
  function ToExit(c: Config, r: Reader): nat {
    match r.pc
    case RExit => 0
    case RDone => 1
    case RSetQuiescent => 2
    case RSafeTerminal(_) => 3
    case RTerminal => 4
    case RReserved => 5
    case RQuiesce => 6
    case RLastUse => 7
    case RSafe(last, e) => if last then 8 else if e == c.records then 15 else 22
    case RRead(last, token) => if last then 9 else if DecodeEpoch(token) == c.records then 16 else 23
    case RToken(last) => if last then 10 else 17
    case RQuiescent(last) => if last then 11 else 18
    case RTest => if r.previous >= c.records then 12 else 19
    case RGet => if r.previous >= c.records then 13 else 20
    case RUse => if r.held.Some? && r.held.value.generation.epoch == c.records then 14 else 21
  }

  /** Writer steps until it returns, the Reader having returned. */
  function ToEnd(pc: WriterPc, n: nat): nat {
    match pc
    case WExit => 0
    case WCount => 1
    case WFinalScan(i, _) => (if i < n then n - i else 0) + 2
    case WFinalLoad => n + 3
    case WShutdown => n + 4
    case _ => n + 5
  }

  ghost function Rank(c: Config, s: State): nat {
    var n := |s.pool.slots|;
    if Published(s) < c.records then n + 38 + Times(c.records - Published(s), Times(10, Width(n))) + Turn(s)
    else if !s.w.done then n + 30 + ToAnnounce(s.w.pc)
    else if !s.r.pc.RExit? then n + 6 + ToExit(c, s.r)
    else ToEnd(s.w.pc, n)
  }

  /** The thread whose next step lowers the rank. */
  function Helpful(c: Config, s: State): Choice {
    if Published(s) < c.records then (if CatchUp(s) > 0 then ReaderGoes else WriterGoes)
    else if !s.w.done then WriterGoes
    else if !s.r.pc.RExit? then ReaderGoes
    else WriterGoes
  }

  /** What a step by `choice` does to the rank. */
  ghost predicate Advances(c: Config, s: State, t: State, choice: Choice) {
    || Rank(c, t) < Rank(c, s)
    || (Rank(c, t) == Rank(c, s) && Helpful(c, t) == Helpful(c, s) != choice)
  }

  // ---------------------------------------------------------------- While epochs are outstanding

  lemma {:induction false} TimesMonotone(j: nat, k: nat, w: nat)
    requires j < k
    ensures Times(j, w) + w <= Times(k, w)
    decreases k
  {
    if j < k - 1 {
      TimesMonotone(j, k - 1, w);
    }
  }

  lemma TurnBound(s: State)
    requires 2 <= |s.pool.slots|
    ensures Turn(s) < Times(10, Width(|s.pool.slots|))
  {
    hide Times;
    TimesMonotone(CatchUp(s), 10, Width(|s.pool.slots|));
  }

  /** Only the Writer's shape matters here: it is still publishing. */
  lemma StillPublishing(c: Config, s: State)
    requires Live(c, s) && Published(s) < c.records
    ensures Working(s.w.pc) && !s.w.done && !Last(s.r.pc) && 2 <= |s.pool.slots|
    ensures s.w.pc.WPublish? <==> Published(s) + 1 == s.pool.writerEpoch
    ensures !s.w.pc.WPublish? ==> Published(s) == s.pool.writerEpoch
  {
    hide LiveCount, DecodeEpoch, DecodeSlot, AdoptInv, HeldInv, SlotInv;
  }

  /** A new token lowers the rank, whatever else it changes. */
  lemma TokenLowers(c: Config, s: State, t: State)
    requires Published(s) < c.records && Published(t) == Published(s) + 1
    requires |s.pool.slots| == |t.pool.slots| >= 2
    requires !t.w.done && !t.r.pc.RExit?
    ensures Rank(c, t) < Rank(c, s)
  {
    hide Turn, Times, Published, ToAnnounce;
    TurnBound(t);
    TimesMonotone(c.records - Published(t), c.records - Published(s), Times(10, Width(|s.pool.slots|)));
    AnnounceBound(t.w.pc);
  }

  lemma AnnounceBound(pc: WriterPc)
    ensures ToAnnounce(pc) <= 5
  {
  }

  /** While the Reader catches up, the Writer may try again and again but cannot undo anything. */
  lemma WriterTries(c: Config, s: State, t: State)
    requires Live(c, s) && Published(s) < c.records && CatchUp(s) > 0
    requires t == WriterStep(c, s, false)
    ensures Advances(c, s, t, WriterGoes)
  {
    hide Inv, Turn, Times, CatchUp, Encode, DecodeEpoch, ToPublish;
    StillPublishing(c, s);
    WriterFrame(c, s, t);
    if s.w.pc.WPublish? {
      TokenLowers(c, s, t);
    } else {
      SameCatchUp(s, t);
    }
  }

  lemma WriterFrame(c: Config, s: State, t: State)
    requires Live(c, s) && Working(s.w.pc) && t == WriterStep(c, s, false)
    ensures t.r == s.r && t.pool.safe == s.pool.safe && |t.pool.slots| == |s.pool.slots| && !t.w.done
    ensures !s.w.pc.WPublish? ==> t.pool.publication == s.pool.publication
    ensures s.w.pc.WPublish? ==> Published(t) == s.pool.writerEpoch
  {
    hide LiveCount, DecodeEpoch, DecodeSlot, AdoptInv, HeldInv, SlotInv, Encode;
    if s.w.pc.WPublish? {
      PublishSlots(s.pool, s.w.pc.prev);
    }
  }

  lemma SameCatchUp(s: State, t: State)
    requires t.r == s.r && t.pool.safe == s.pool.safe && t.pool.publication == s.pool.publication
    requires |t.pool.slots| == |s.pool.slots|
    ensures CatchUp(t) == CatchUp(s)
    ensures CatchUp(s) > 0 ==> Turn(t) == Turn(s)
  {
  }

  /** Each step of a Reader behind the published epoch brings it closer. */
  lemma ReaderCatchesUp(c: Config, s: State, t: State)
    requires Live(c, s) && Published(s) < c.records && CatchUp(s) > 0
    requires t == ReaderStep(c, s)
    ensures Advances(c, s, t, ReaderGoes)
  {
    hide Inv, Times, CatchUp, ToPublish;
    StillPublishing(c, s);
    ReaderCloser(c, s, t);
    TimesMonotone(CatchUp(t), CatchUp(s), Width(|s.pool.slots|));
    ToPublishBound(t);
  }

  lemma ToPublishBound(s: State)
    ensures ToPublish(s) < Width(|s.pool.slots|)
  {
  }

  lemma ReaderCloser(c: Config, s: State, t: State)
    requires Live(c, s) && Published(s) < c.records && CatchUp(s) > 0 && !Last(s.r.pc) && !s.w.done
    requires t == ReaderStep(c, s)
    ensures t.w == s.w && t.pool == s.pool.(safe := t.pool.safe) && CatchUp(t) < CatchUp(s)
  {
    hide LiveCount, DecodeSlot, SlotsInv, Encode, DecodeEpoch;
  }

  /** A Reader that has caught up stays there until the next token. */
  lemma ReaderWaits(c: Config, s: State, t: State)
    requires Live(c, s) && Published(s) < c.records && CatchUp(s) == 0
    requires t == ReaderStep(c, s)
    ensures Advances(c, s, t, ReaderGoes)
  {
    hide Inv, Times, ToPublish;
    StillPublishing(c, s);
    ReaderKeeps(c, s, t);
  }

  lemma ReaderKeeps(c: Config, s: State, t: State)
    requires Live(c, s) && s.pool.safe == Published(s) && !Last(s.r.pc) && !s.w.done
    requires t == ReaderStep(c, s)
    ensures t.w == s.w && t.pool == s.pool && ToPublish(t) == ToPublish(s)
  {
    hide LiveCount, DecodeSlot, SlotsInv, Encode, DecodeEpoch, HeldInv;
  }

  /** Once the published epoch is safe, the Writer reclaims, reserves and publishes without a detour. */
  lemma WriterPublishes(c: Config, s: State, t: State)
    requires Live(c, s) && Published(s) < c.records && CatchUp(s) == 0
    requires t == WriterStep(c, s, false)
    ensures Advances(c, s, t, WriterGoes)
  {
    hide Inv, Times, Encode, DecodeEpoch, ToPublish;
    StillPublishing(c, s);
    WriterFrame(c, s, t);
    if s.w.pc.WPublish? {
      TokenLowers(c, s, t);
    } else {
      WriterCloser(c, s, t);
    }
  }

  lemma WriterCloser(c: Config, s: State, t: State)
    requires Live(c, s) && Working(s.w.pc) && !s.w.pc.WPublish? && s.pool.safe == s.pool.writerEpoch < c.records
    requires t == WriterStep(c, s, false)
    ensures ToPublish(t) < ToPublish(s)
  {
    hide Live, WriterStep, ToPublish;
    match s.w.pc {
      case WLoadSafe => LoadCloser(c, s, t);
      case WScan(_, _) => ScanCloser(c, s, t);
      case _ => PlainCloser(c, s, t);
    }
  }

  lemma PlainCloser(c: Config, s: State, t: State)
    requires Live(c, s) && Working(s.w.pc) && !s.w.pc.WPublish? && s.pool.writerEpoch < c.records
    requires !s.w.pc.WLoadSafe? && !s.w.pc.WScan? && t == WriterStep(c, s, false)
    ensures ToPublish(t) < ToPublish(s)
  {
    hide Inv, Encode, DecodeEpoch, DecodeSlot, LiveCount, NoneRetired, Reclaim;
    StartsRight(c, s);
  }

  lemma LoadCloser(c: Config, s: State, t: State)
    requires Live(c, s) && s.w.pc.WLoadSafe? && s.pool.safe == s.pool.writerEpoch
    requires t == WriterStep(c, s, false)
    ensures ToPublish(t) < ToPublish(s)
  {
    hide Inv, FirstFree, NoneRetired;
    if s.pool.safe == 0 {
      NothingRetired(c, s);
      FreeSlotExists(c, s);
    } else {
      NoneRetiredYet(s.pool.slots);
    }
  }

  lemma ScanCloser(c: Config, s: State, t: State)
    requires Live(c, s) && s.w.pc.WScan? && t == WriterStep(c, s, false)
    ensures ToPublish(t) < ToPublish(s)
  {
    hide Inv, FirstFree, NoneRetired;
    if Clean(s.pool, s.w.pc.i, s.w.pc.safe) {
      if s.w.pc.i < |s.pool.slots| {
        ScanStaysClean(c, s, t);
      } else {
        AllScanned(s.pool.slots, s.w.pc.i);
        FreeSlotExists(c, s);
      }
    }
  }

  lemma StartsRight(c: Config, s: State)
    requires Live(c, s) && Working(s.w.pc)
    ensures s.pool.accepting
    ensures s.pool.writerSlot < |s.pool.slots|
    ensures s.pool.slots[s.pool.writerSlot].generation == Some(GenerationOf(s.pool.writerEpoch))
    ensures s.w.pc.WHead? ==> s.w.index == s.pool.writerEpoch
    ensures s.w.pc.WBuild? || s.w.pc.WInstall? ==> s.w.pc.k < |s.pool.slots|
    ensures s.w.pc.WRetire? ==> s.w.pc.prev < |s.pool.slots|
  {
    hide LiveCount, DecodeEpoch, DecodeSlot, AdoptInv, HeldInv;
    var k := s.pool.writerSlot;
    assert SlotInv(s.pool.slots[k], k, k, s.pool.writerEpoch, s.w.pc);
  }

  lemma AllScanned(slots: seq<Slot>, i: nat)
    requires NoneRetired(slots, i) && i >= |slots|
    ensures NoneRetired(slots, |slots|)
  {
  }

  lemma NothingRetired(c: Config, s: State)
    requires Live(c, s) && s.pool.writerEpoch == 0
    ensures NoneRetired(s.pool.slots, |s.pool.slots|)
  {
    hide LiveCount, DecodeEpoch, DecodeSlot, Encode, TokenInv, AdoptInv, HeldInv;
    forall j | 0 <= j < |s.pool.slots|
      ensures s.pool.slots[j].state != Retired
    {
      assert SlotInv(s.pool.slots[j], j, s.pool.writerSlot, s.pool.writerEpoch, s.w.pc);
    }
  }

  /** With no retired slot and at least two slots, one is free. */
  lemma FreeSlotExists(c: Config, s: State)
    requires Live(c, s) && NoneRetired(s.pool.slots, |s.pool.slots|)
    requires s.w.pc.WLoadSafe? || s.w.pc.WScan?
    ensures FirstFree(s.pool.slots, 0) < |s.pool.slots|
  {
    hide LiveCount, DecodeEpoch, DecodeSlot, Encode, TokenInv, AdoptInv, HeldInv;
    var p := s.pool;
    var j := if p.writerSlot == 0 then 1 else 0;
    assert SlotInv(p.slots[j], j, p.writerSlot, p.writerEpoch, s.w.pc);
    assert p.slots[j].state == Free;
  }

  lemma ScanStaysClean(c: Config, s: State, t: State)
    requires Live(c, s) && s.w.pc.WScan? && s.w.pc.i < |s.pool.slots|
    requires Clean(s.pool, s.w.pc.i, s.w.pc.safe) && t == WriterStep(c, s, false)
    ensures t.w.pc == WScan(s.w.pc.i + 1, s.w.pc.safe) && |t.pool.slots| == |s.pool.slots|
    ensures Clean(t.pool, t.w.pc.i, t.w.pc.safe)
  {
    hide LiveCount, DecodeEpoch, DecodeSlot, Encode, TokenInv, AdoptInv, HeldInv, FirstFree;
    var (p, i) := (s.pool, s.w.pc.i);
    assert SlotInv(p.slots[i], i, p.writerSlot, p.writerEpoch, s.w.pc);
  }

  // ---------------------------------------------------------------- After the last epoch

  lemma AllPublished(c: Config, s: State)
    requires Live(c, s) && Published(s) >= c.records
    ensures Published(s) == s.pool.writerEpoch == c.records
    ensures !s.w.done ==> ToAnnounce(s.w.pc) < 5 || s.w.pc.WRetire?
    ensures !s.w.done ==> !Last(s.r.pc)
    ensures s.w.done && !s.r.pc.RExit? ==> s.w.pc.WWait? && !s.r.done
    ensures s.w.done && s.r.pc.RExit? ==> s.w.pc.WWait? || ShuttingDown(s.w.pc)
    ensures s.r.pc.RExit? ==> s.r.done
    ensures s.w.pc.WRetire? ==> s.w.pc.prev < |s.pool.slots|
    ensures s.w.pc.WHead? ==> s.w.index == c.records
  {
    hide LiveCount, DecodeEpoch, DecodeSlot, AdoptInv, HeldInv, SlotInv;
  }

  lemma Announcing(c: Config, s: State, choice: Choice, t: State)
    requires Live(c, s) && Published(s) >= c.records && !s.w.done
    requires choice != WriterFails && t == Next(c, s, choice)
    ensures Advances(c, s, t, choice)
  {
    hide Inv, Times, Turn, DecodeEpoch, Encode, CatchUp;
    AllPublished(c, s);
    ExitBound(c, t.r);
    if choice == ReaderGoes {
      ReaderFrame(c, s, t);
    }
  }

  lemma ExitBound(c: Config, r: Reader)
    ensures ToExit(c, r) <= 23
  {
  }

  lemma ReaderFrame(c: Config, s: State, t: State)
    requires t == ReaderStep(c, s)
    ensures t.w == s.w && t.pool.publication == s.pool.publication && t.pool.slots == s.pool.slots
  {
  }

  lemma Leaving(c: Config, s: State, choice: Choice, t: State)
    requires Live(c, s) && Published(s) >= c.records && s.w.done && !s.r.pc.RExit?
    requires choice != WriterFails && t == Next(c, s, choice)
    ensures Advances(c, s, t, choice)
  {
    hide Inv, Times, Turn, DecodeEpoch, Encode, CatchUp, ToExit;
    AllPublished(c, s);
    if choice == ReaderGoes {
      ReaderFrame(c, s, t);
      ReaderLeaves(c, s, t);
    }
  }

  lemma ReaderLeaves(c: Config, s: State, t: State)
    requires Live(c, s) && Published(s) == c.records && s.w.done && !s.r.pc.RExit?
    requires t == ReaderStep(c, s)
    ensures ToExit(c, t.r) < ToExit(c, s.r)
  {
    hide LiveCount, DecodeSlot, SlotsInv, Encode, DecodeEpoch;
  }

  lemma Ending(c: Config, s: State, choice: Choice, t: State)
    requires Live(c, s) && Published(s) >= c.records && s.w.done && s.r.pc.RExit? && !Finished(s)
    requires choice != WriterFails && t == Next(c, s, choice)
    ensures Advances(c, s, t, choice)
  {
    hide Inv, Times, Turn, DecodeEpoch, Encode, CatchUp, FirstFree;
    AllPublished(c, s);
  }

  // ---------------------------------------------------------------- Fair schedules

  lemma StepAdvances(c: Config, s: State, choice: Choice)
    requires Live(c, s) && !Finished(s) && choice != WriterFails
    ensures Live(c, Next(c, s, choice)) && Advances(c, s, Next(c, s, choice), choice)
  {
    hide Inv, WriterStep, ReaderStep, Advances, Published, CatchUp;
    var t := Next(c, s, choice);
    NextInv(c, s, choice);
    NoNewFailure(c, s, choice);
    if Published(s) >= c.records {
      if !s.w.done {
        Announcing(c, s, choice, t);
      } else if !s.r.pc.RExit? {
        Leaving(c, s, choice, t);
      } else {
        Ending(c, s, choice, t);
      }
    } else if choice == WriterGoes {
      if CatchUp(s) > 0 {
        WriterTries(c, s, t);
      } else {
        WriterPublishes(c, s, t);
      }
    } else if CatchUp(s) > 0 {
      ReaderCatchesUp(c, s, t);
    } else {
      ReaderWaits(c, s, t);
    }
  }

  lemma NoNewFailure(c: Config, s: State, choice: Choice)
    requires Live(c, s) && choice != WriterFails
    ensures !Next(c, s, choice).w.failed
  {
    hide LiveCount, DecodeEpoch, DecodeSlot, Encode, TokenInv, AdoptInv, HeldInv, FirstFree;
    var k := s.pool.writerSlot;
    assert SlotInv(s.pool.slots[k], k, k, s.pool.writerEpoch, s.w.pc);
    if s.w.pc.WCount? {
      CountStep(c, s, false);
    }
  }

  function RunFrom(c: Config, s: State, schedule: seq<Choice>): State
    decreases |schedule|
  {
    if schedule == [] then s else RunFrom(c, Next(c, s, schedule[0]), schedule[1..])
  }

  lemma {:induction false} RunFromConcat(c: Config, s: State, a: seq<Choice>, b: seq<Choice>)
    ensures RunFrom(c, s, a + b) == RunFrom(c, RunFrom(c, s, a), b)
    decreases |a|
  {
    hide Next;
    if a == [] {
      assert a + b == b;
    } else {
      assert (a + b)[1..] == a[1..] + b;
      RunFromConcat(c, Next(c, s, a[0]), a[1..], b);
    }
  }

  lemma {:induction false} RunIsRunFrom(c: Config, a: seq<Choice>, b: seq<Choice>)
    requires 2 <= c.capacity
    ensures Run(c, a + b) == RunFrom(c, Run(c, a), b)
    decreases |b|
  {
    hide Next, Initial, Run;
    if b == [] {
      assert a + b == a;
    } else {
      var x := b[0];
      RunContinues(c, a, [], x);
      assert a + [] == a && a + [] + [x] == a + [x];
      RunIsRunFrom(c, a + [x], b[1..]);
      assert a + [x] + b[1..] == a + b;
    }
  }

  predicate NoFailure(schedule: seq<Choice>) {
    forall i | 0 <= i < |schedule| :: schedule[i] != WriterFails
  }

  /** Both threads get at least one step, in any number and order, and no publication fails. */
  predicate FairRound(round: seq<Choice>) {
    WriterGoes in round && ReaderGoes in round && NoFailure(round)
  }

  lemma FinishedStays(c: Config, s: State, choice: Choice)
    requires Finished(s)
    ensures Next(c, s, choice) == s
  {
  }

  /** Along any schedule the rank does not rise, and it falls when the helpful thread gets a step. */
  lemma {:induction false} ScheduleAdvances(c: Config, s: State, schedule: seq<Choice>)
    requires Live(c, s) && NoFailure(schedule)
    ensures var t := RunFrom(c, s, schedule);
            && Live(c, t)
            && (Finished(t) || Rank(c, t) <= Rank(c, s))
            && (Finished(s) ==> Finished(t))
            && (Helpful(c, s) in schedule ==> Finished(t) || Rank(c, t) < Rank(c, s))
    decreases |schedule|
  {
    hide Live, Next, Rank, Helpful;
    if schedule != [] {
      var (x, rest) := (schedule[0], schedule[1..]);
      var u := Next(c, s, x);
      assert Helpful(c, s) in schedule ==> Helpful(c, s) == x || Helpful(c, s) in rest;
      if Finished(s) {
        FinishedStays(c, s, x);
      } else {
        StepAdvances(c, s, x);
      }
      ScheduleAdvances(c, u, rest);
    }
  }

  lemma HelpfulGetsStep(c: Config, s: State, round: seq<Choice>)
    requires FairRound(round)
    ensures Helpful(c, s) in round
  {
  }

  lemma RankPositive(c: Config, s: State)
    requires Live(c, s) && !Finished(s)
    ensures Rank(c, s) > 0
  {
    hide Inv, Times, Turn, DecodeEpoch;
    if Published(s) >= c.records {
      AllPublished(c, s);
    }
  }

  /** As many fair rounds as the rank end both threads. */
  lemma {:induction false} RoundsFinish(c: Config, s: State, rounds: seq<seq<Choice>>)
    requires Live(c, s) && Rank(c, s) <= |rounds|
    requires forall i | 0 <= i < |rounds| :: FairRound(rounds[i])
    ensures Finished(RunFrom(c, s, Flatten(rounds)))
    decreases |rounds|
  {
    hide Live, Rank, Helpful, RunFrom;
    if rounds == [] {
      if !Finished(s) {
        RankPositive(c, s);
      }
      RunNothing(c, s);
    } else {
      var t := RunFrom(c, s, rounds[0]);
      HelpfulGetsStep(c, s, rounds[0]);
      ScheduleAdvances(c, s, rounds[0]);
      RunFromConcat(c, s, rounds[0], Flatten(rounds[1..]));
      if Finished(t) {
        RoundsKeep(rounds[1..]);
        ScheduleAdvances(c, t, Flatten(rounds[1..]));
      } else {
        RoundsFinish(c, t, rounds[1..]);
      }
    }
  }

  lemma RunNothing(c: Config, s: State)
    ensures RunFrom(c, s, []) == s
  {
  }

  lemma {:induction false} RoundsKeep(rounds: seq<seq<Choice>>)
    requires forall i | 0 <= i < |rounds| :: FairRound(rounds[i])
    ensures NoFailure(Flatten(rounds))
  {
    if rounds != [] {
      RoundsKeep(rounds[1..]);
    }
  }

  /** How many fair rounds are always enough. */
  function Bound(c: Config): nat {
    c.capacity + 38 + (c.records + 1) * (20 * c.capacity + 130)
  }

  lemma {:induction false} TimesIsProduct(k: nat, w: nat)
    ensures Times(k, w) == k * w
  {
    if k > 0 {
      TimesIsProduct(k - 1, w);
    }
  }

  lemma InitialRank(c: Config)
    requires ValidConfig(c)
    ensures Rank(c, Initial(c)) <= Bound(c)
  {
    hide Turn, Times, Encode, DecodeEpoch;
    var (s, w) := (Initial(c), Times(10, Width(c.capacity)));
    TokenRoundTrip(0, 0);
    TurnBound(s);
    TimesIsProduct(10, Width(c.capacity));
    TimesIsProduct(c.records, w);
    assert (c.records + 1) * w == c.records * w + w;
  }

  /** Every failure-free schedule of enough fair rounds ends both threads. */
  lemma FairRunFinishes(c: Config, rounds: seq<seq<Choice>>)
    requires ValidConfig(c) && c.records <= MAXIMUM_EPOCH
    requires |rounds| >= Bound(c)
    requires forall i | 0 <= i < |rounds| :: FairRound(rounds[i])
    ensures Finished(Run(c, Flatten(rounds)))
  {
    hide Inv, Rank, Bound, RunFrom;
    InitialInv(c);
    InitialRank(c);
    RoundsFinish(c, Initial(c), rounds);
    RunIsRunFrom(c, [], Flatten(rounds));
    assert [] + Flatten(rounds) == Flatten(rounds);
  }

  // ---------------------------------------------------------------- The exact condition

  /** From every live state some continuation ends both threads. */
  lemma CanFinish(c: Config, s: State) returns (more: seq<Choice>)
    requires Live(c, s)
    ensures Finished(RunFrom(c, s, more))
  {
    hide Live, RunFrom;
    var round := [WriterGoes, ReaderGoes];
    assert round[0] == WriterGoes && round[1] == ReaderGoes;
    assert FairRound(round);
    var rounds := seq(Rank(c, s), i => round);
    RoundsFinish(c, s, rounds);
    more := Flatten(rounds);
  }

  /** Both threads can still return exactly when no publication has failed so far. */
  lemma FinishIffNoFailure(c: Config, schedule: seq<Choice>)
    requires ValidConfig(c) && c.records <= MAXIMUM_EPOCH
    ensures (exists more :: Finished(Run(c, schedule + more))) <==> !Run(c, schedule).w.failed
  {
    hide Run, RunFrom, Inv;
    var s := Run(c, schedule);
    AlwaysInv(c, schedule);
    if s.w.failed {
      forall more
        ensures !Finished(Run(c, schedule + more))
      {
        FailureNeverReturns(c, schedule, more);
      }
    } else {
      var more := CanFinish(c, s);
      RunIsRunFrom(c, schedule, more);
    }
  }

  lemma AtSearch(c: Config)
    requires ValidConfig(c)
    ensures Run(c, [WriterGoes, WriterGoes, WriterGoes]) == Initial(c).(w := Initial(c).w.(pc := WPick))
  {
    hide Encode, FirstFree, ReaderStep;
    var (a, b, d) := ([WriterGoes], [WriterGoes, WriterGoes], [WriterGoes, WriterGoes, WriterGoes]);
    assert a[..0] == [] && b[..1] == a && d[..2] == b;
    var s := Initial(c);
    assert Run(c, a) == s.(w := s.w.(pc := WAdmit));
    assert Run(c, b) == s.(w := s.w.(pc := WLoadSafe));
  }

  lemma SearchThenFail(c: Config, s: State)
    requires ValidConfig(c) && s == Initial(c).(w := Initial(c).w.(pc := WPick))
    ensures WriterStep(c, WriterStep(c, s, false), true).w.failed
  {
    hide Encode, ReaderStep;
    var k := FirstFree(s.pool.slots, 0);
    assert s.pool.slots[1].state == Free;
    assert k < |s.pool.slots|;
  }

  /** The failure is reachable: the very first publication may fail. */
  lemma FailureReachable(c: Config)
    requires ValidConfig(c)
    ensures Run(c, [WriterGoes, WriterGoes, WriterGoes] + [WriterGoes] + [WriterFails]).w.failed
  {
    hide Run, WriterStep, ReaderStep;
    var d := [WriterGoes, WriterGoes, WriterGoes];
    AtSearch(c);
    RunContinues(c, d, [], WriterGoes);
    assert d + [] == d;
    RunContinues(c, d, [WriterGoes], WriterFails);
    SearchThenFail(c, Run(c, d));
  }
}
