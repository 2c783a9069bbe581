/** The Segment header: an immutable identity block followed by two independently sealed commit slots. */
module SegmentHeader {
  import opened Bytes
  import opened Crc32c
  import opened Checksummed
  import opened Layout

  const HEADER_MAGIC := 0x4859_4C47
  const COMMIT_MAGIC := 0x4359_4C47
  const IDENTITY_CHECKSUM_OFFSET := 52
  const COMMIT_CHECKSUM_OFFSET := 48

  datatype Identity = Identity(storeId: seq<byte>, segmentId: nat, generation: nat, owner: nat)

  datatype Commit = Commit(generation: nat, committedEnd: nat, state: nat, records: nat, first: nat, last: nat)

  predicate IdentityFits(d: Identity) {
    && |d.storeId| == 16
    && d.segmentId < Limit(8) && d.generation < Limit(4) && d.owner < Limit(4)
  }

  predicate CommitFits(c: Commit) {
    && c.generation < Limit(8) && c.committedEnd < Limit(4) && c.state < Limit(2)
    && c.records < Limit(8) && c.first < Limit(8) && c.last < Limit(8)
  }

  // ---------------------------------------------------------------- Layout

  function IdentityField(d: Identity, i: nat): Slot
    requires |d.storeId| == 16 && i < 10
  {
    if i == 0 then U(0, 4, HEADER_MAGIC)
    else if i == 1 then U(4, 2, 1)
    else if i == 2 then U(6, 2, 128)
    else if i == 3 then U(8, 2, 1)
    else if i == 4 then U(10, 2, 1)
    else if i == 5 then U(12, 4, 4096)
    else if i == 6 then Raw(16, d.storeId)
    else if i == 7 then U(32, 8, d.segmentId)
    else if i == 8 then U(40, 4, d.generation)
    else U(44, 4, d.owner)
  }

  function IdentityFields(d: Identity): seq<Slot>
    requires |d.storeId| == 16
  {
    seq(10, i requires 0 <= i < 10 => IdentityField(d, i))
  }

  function CommitField(c: Commit, i: nat): Slot
    requires i < 10
  {
    if i == 0 then U(0, 4, COMMIT_MAGIC)
    else if i == 1 then U(4, 2, 1)
    else if i == 2 then U(6, 2, 128)
    else if i == 3 then U(8, 8, c.generation)
    else if i == 4 then U(16, 4, c.committedEnd)
    else if i == 5 then U(20, 2, c.state)
    else if i == 6 then U(22, 2, 0)
    else if i == 7 then U(24, 8, c.records)
    else if i == 8 then U(32, 8, c.first)
    else U(40, 8, c.last)
  }

  function CommitFields(c: Commit): seq<Slot> {
    seq(10, i requires 0 <= i < 10 => CommitField(c, i))
  }

  lemma BlocksFit(d: Identity, c: Commit)
    ensures |d.storeId| == 16 ==> Fits(IdentityFields(d), 128)
    ensures Fits(CommitFields(c), 128)
  {
    hide LE, Limit;
  }

  function IdentityBytes(d: Identity): (r: seq<byte>)
    requires |d.storeId| == 16
    ensures |r| == 128
  {
    BlocksFit(d, Commit(0, 0, 0, 0, 0, 0));
    Seal(Image(IdentityFields(d), ZeroBytes(128)), IDENTITY_CHECKSUM_OFFSET)
  }

  function CommitBytes(c: Commit): (r: seq<byte>)
    ensures |r| == 128
  {
    BlocksFit(Identity([], 0, 0, 0), c);
    Seal(Image(CommitFields(c), ZeroBytes(128)), COMMIT_CHECKSUM_OFFSET)
  }

  lemma CommitRoom(c: Commit)
    ensures AllRoom(CommitFields(c)) <==> CommitFits(c)
  {
    hide LE, Limit;
    Limits();
    var f := CommitFields(c);
    if CommitFits(c) {
      forall k | 0 <= k < 10
        ensures f[k].room
      {
      }
    } else {
      assert f[3].room == (c.generation < Limit(8)) && f[4].room == (c.committedEnd < Limit(4));
      assert f[5].room == (c.state < Limit(2)) && f[7].room == (c.records < Limit(8));
      assert f[8].room == (c.first < Limit(8)) && f[9].room == (c.last < Limit(8));
    }
  }

  /** The script's `segment_commit_slot`. */
  method BuildCommitSlot(c: Commit) returns (r: Option<seq<byte>>)
    ensures r == if CommitFits(c) then Some(CommitBytes(c)) else None
  {
    hide CommitFits, CommitFields, Image, Checksum;
    var slot := new byte[128](_ => 0);
    assert slot[..] == ZeroBytes(128);
    BlocksFit(Identity([], 0, 0, 0), c);
    CommitRoom(c);
    var ok := Pack(slot, CommitFields(c));
    if !ok {
      return None;
    }
    var crc := TableChecksum(ZeroedField(slot[..], COMMIT_CHECKSUM_OFFSET));
    r := Some(slot[..COMMIT_CHECKSUM_OFFSET] + WordBytes(crc) + slot[COMMIT_CHECKSUM_OFFSET + 4..]);
  }

  // ---------------------------------------------------------------- Verifier

  datatype SegmentVerdict =
    | GoodHeader | WrongLength | PrefixMismatch | FormatMismatch | IdentityChecksum | SlotMagic | SlotChecksum

  /** A slot that starts with four zero bytes counts as never written. */
  predicate Unwritten(slot: seq<byte>)
    requires |slot| == 128
  {
    slot[..4] == ZeroBytes(4)
  }

  function VerifySlot(slot: seq<byte>): SegmentVerdict
    requires |slot| == 128
  {
    if Unwritten(slot) then GoodHeader
    else if Field(slot, 0, 4) != COMMIT_MAGIC then SlotMagic
    else if !Sealed(slot, COMMIT_CHECKSUM_OFFSET) then SlotChecksum
    else GoodHeader
  }

  function VerifyIdentity(block: seq<byte>): SegmentVerdict
    requires |block| == 128
  {
    if (Field(block, 0, 4), Field(block, 4, 2), Field(block, 6, 2)) != (HEADER_MAGIC, 1, 128) then PrefixMismatch
    else if (Field(block, 8, 2), Field(block, 10, 2), Field(block, 12, 4)) != (1, 1, 4096) then FormatMismatch
    else if !Sealed(block, IDENTITY_CHECKSUM_OFFSET) then IdentityChecksum
    else GoodHeader
  }

  function VerifySegmentHeader(data: seq<byte>): SegmentVerdict {
    if |data| != 384 then WrongLength
    else if VerifyIdentity(data[..128]) != GoodHeader then VerifyIdentity(data[..128])
    else if VerifySlot(data[128..256]) != GoodHeader then VerifySlot(data[128..256])
    else VerifySlot(data[256..])
  }

  // ---------------------------------------------------------------- Built headers are accepted

  lemma IdentityAccepted(d: Identity)
    requires IdentityFits(d)
    ensures VerifyIdentity(IdentityBytes(d)) == GoodHeader
  {
    hide Image, Seal, Sealed, IdentityFields;
    var (f, z) := (IdentityFields(d), ZeroBytes(128));
    BlocksFit(d, Commit(0, 0, 0, 0, 0, 0));
    SealIsSealed(Image(f, z), IDENTITY_CHECKSUM_OFFSET);
    IdentityFormat(d, IdentityBytes(d));
  }

  lemma IdentityFormat(d: Identity, data: seq<byte>)
    requires IdentityFits(d)
    requires Carries(data, IdentityFields(d), ZeroBytes(128), 52, 56)
    ensures Field(data, 0, 4) == HEADER_MAGIC && Field(data, 4, 2) == 1 && Field(data, 6, 2) == 128
    ensures Field(data, 8, 2) == 1 && Field(data, 10, 2) == 1 && Field(data, 12, 4) == 4096
  {
    hide LE, Value, Limit, ZeroBytes, Carries;
    var (f, z) := (IdentityFields(d), ZeroBytes(128));
    Limits();
    CarriedNumber(data, f, z, 52, 56, 0, 0, 4, HEADER_MAGIC);
    CarriedNumber(data, f, z, 52, 56, 1, 4, 2, 1);
    CarriedNumber(data, f, z, 52, 56, 2, 6, 2, 128);
    CarriedNumber(data, f, z, 52, 56, 3, 8, 2, 1);
    CarriedNumber(data, f, z, 52, 56, 4, 10, 2, 1);
    CarriedNumber(data, f, z, 52, 56, 5, 12, 4, 4096);
  }

  lemma SlotMagicNumber(c: Commit, data: seq<byte>)
    requires Carries(data, CommitFields(c), ZeroBytes(128), 48, 52)
    ensures Field(data, 0, 4) == COMMIT_MAGIC
  {
    hide LE, Value, Limit, ZeroBytes, Carries;
    Limits();
    CarriedNumber(data, CommitFields(c), ZeroBytes(128), 48, 52, 0, 0, 4, COMMIT_MAGIC);
  }

  lemma SlotAccepted(c: Commit)
    ensures VerifySlot(CommitBytes(c)) == GoodHeader
  {
    hide Image, Seal, Sealed, CommitFields, Value;
    BlocksFit(Identity([], 0, 0, 0), c);
    SealIsSealed(Image(CommitFields(c), ZeroBytes(128)), COMMIT_CHECKSUM_OFFSET);
    SlotMagicNumber(c, CommitBytes(c));
  }

  /** A header built from an identity and two commits is accepted. */
  lemma HeaderAccepted(d: Identity, c: Commit, c': Commit)
    requires IdentityFits(d)
    ensures VerifySegmentHeader(IdentityBytes(d) + CommitBytes(c) + CommitBytes(c')) == GoodHeader
  {
    hide IdentityBytes, CommitBytes, VerifyIdentity, VerifySlot;
    var data := IdentityBytes(d) + CommitBytes(c) + CommitBytes(c');
    assert data[..128] == IdentityBytes(d);
    assert data[128..256] == CommitBytes(c);
    assert data[256..] == CommitBytes(c');
    IdentityAccepted(d);
    SlotAccepted(c);
    SlotAccepted(c');
  }
}
