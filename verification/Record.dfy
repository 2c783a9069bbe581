/** The Record block: header, key, value and padding to a multiple of eight. */
module Record {
  import opened Bytes
  import opened Crc32c
  import opened Checksummed
  import opened Layout

  const RECORD_MAGIC := 0x5259_4C47
  const RECORD_CHECKSUM_OFFSET := 20

  datatype Record = Record(
    sequence: nat,
    keyHash: nat,
    expireAt: nat,
    opcode: nat,
    kind: nat,
    flags: nat,
    key: seq<byte>,
    value: seq<byte>)

  /** The header and payload, rounded up to a multiple of eight. */
  function Extent(r: Record): nat {
    (56 + |r.key| + |r.value| + 7) / 8 * 8
  }

  predicate RecordFits(r: Record) {
    && r.sequence < Limit(8) && r.keyHash < Limit(8) && r.expireAt < Limit(8)
    && r.opcode < Limit(2) && r.kind < Limit(2) && r.flags < Limit(4)
    && Extent(r) < Limit(4)
  }

  function RecordField(r: Record, i: nat): Slot
    requires i < 13
  {
    if i == 0 then U(0, 4, RECORD_MAGIC)
    else if i == 1 then U(4, 2, 1)
    else if i == 2 then U(6, 2, 56)
    else if i == 3 then U(8, 4, Extent(r))
    else if i == 4 then U(12, 4, |r.key|)
    else if i == 5 then U(16, 4, |r.value|)
    else if i == 6 then U(20, 4, 0)
    else if i == 7 then U(24, 8, r.sequence)
    else if i == 8 then U(32, 8, r.keyHash)
    else if i == 9 then U(40, 8, r.expireAt)
    else if i == 10 then U(48, 2, r.opcode)
    else if i == 11 then U(50, 2, r.kind)
    else U(52, 4, r.flags)
  }

  function RecordFields(r: Record): seq<Slot> {
    seq(13, i requires 0 <= i < 13 => RecordField(r, i))
  }

  lemma RecordHeaderFits(r: Record)
    ensures Fits(RecordFields(r), 56)
  {
    hide LE, Limit;
  }

  function RecordHeader(r: Record): (h: seq<byte>)
    ensures |h| == 56
  {
    RecordHeaderFits(r);
    Image(RecordFields(r), ZeroBytes(56))
  }

  function Padding(r: Record): seq<byte> {
    ZeroBytes(Extent(r) - 56 - |r.key| - |r.value|)
  }

  function RecordBytes(r: Record): (b: seq<byte>)
    ensures |b| == Extent(r)
  {
    Seal(RecordHeader(r) + r.key + r.value + Padding(r), RECORD_CHECKSUM_OFFSET)
  }

  lemma RecordRoom(r: Record)
    ensures AllRoom(RecordFields(r)) <==> RecordFits(r)
  {
    hide LE, Limit;
    Limits();
    var f := RecordFields(r);
    if RecordFits(r) {
      forall k | 0 <= k < 13
        ensures f[k].room
      {
      }
    } else {
      assert f[3].room == (Extent(r) < Limit(4));
      assert f[7].room == (r.sequence < Limit(8)) && f[8].room == (r.keyHash < Limit(8));
      assert f[9].room == (r.expireAt < Limit(8)) && f[10].room == (r.opcode < Limit(2));
      assert f[11].room == (r.kind < Limit(2)) && f[12].room == (r.flags < Limit(4));
    }
  }

  /** Fills a zeroed buffer in place, as the script does, and seals it. */
  method BuildRecord(r: Record) returns (b: Option<seq<byte>>)
    ensures b == if RecordFits(r) then Some(RecordBytes(r)) else None
  {
    hide Image, RecordFields, RecordFits, Limit, Checksum;
    var header := new byte[56](_ => 0);
    assert header[..] == ZeroBytes(56);
    RecordHeaderFits(r);
    RecordRoom(r);
    var ok := Pack(header, RecordFields(r));
    if !ok {
      return None;
    }
    var payload := new byte[Extent(r)](_ => 0);
    PackInto(payload, 0, header[..]);
    PackInto(payload, 56, r.key);
    PackInto(payload, 56 + |r.key|, r.value);
    assert payload[..] == RecordHeader(r) + r.key + r.value + Padding(r);
    var crc := TableChecksum(ZeroedField(payload[..], RECORD_CHECKSUM_OFFSET));
    b := Some(payload[..RECORD_CHECKSUM_OFFSET] + WordBytes(crc) + payload[RECORD_CHECKSUM_OFFSET + 4..]);
  }

  datatype RecordVerdict = GoodRecord | Truncated | HeaderMismatch | ExtentMismatch | ChecksumMismatch

  function VerifyRecord(data: seq<byte>): RecordVerdict {
    if |data| < 12 then Truncated
    else if (Field(data, 0, 4), Field(data, 4, 2), Field(data, 6, 2)) != (RECORD_MAGIC, 1, 56) then HeaderMismatch
    else if |data| != Field(data, 8, 4) || |data| % 8 != 0 then ExtentMismatch
    else if |data| < 24 then Truncated
    else if !Sealed(data, RECORD_CHECKSUM_OFFSET) then ChecksumMismatch
    else GoodRecord
  }

  /** The extent is the least multiple of eight that holds the header, the key and the value. */
  lemma ExtentIsLeast(r: Record, n: nat)
    ensures Extent(r) % 8 == 0 && Extent(r) >= 56 + |r.key| + |r.value|
    ensures n % 8 == 0 && n >= 56 + |r.key| + |r.value| ==> Extent(r) <= n
  {
  }

  lemma CarriedRecord(r: Record, data: seq<byte>)
    requires data == RecordBytes(r)
    ensures Carries(data, RecordFields(r), ZeroBytes(56), 20, 24)
    ensures data[56..56 + |r.key|] == r.key
    ensures data[56 + |r.key|..56 + |r.key| + |r.value|] == r.value
    ensures forall i | 56 + |r.key| + |r.value| <= i < |data| :: data[i] == 0
    ensures Sealed(data, RECORD_CHECKSUM_OFFSET)
  {
    hide RecordFields, Image, Seal, Sealed;
    RecordHeaderFits(r);
    var payload := RecordHeader(r) + r.key + r.value + Padding(r);
    SealIsSealed(payload, RECORD_CHECKSUM_OFFSET);
    assert data[56..56 + |r.key|] == payload[56..56 + |r.key|];
    assert data[56 + |r.key|..56 + |r.key| + |r.value|] == payload[56 + |r.key|..56 + |r.key| + |r.value|];
  }

  /** Every built Record is accepted and gives back its sizes, its key, its value and zero padding. */
  lemma RecordRoundTrip(r: Record)
    requires RecordFits(r)
    ensures var data := RecordBytes(r);
            && VerifyRecord(data) == GoodRecord
            && Field(data, 12, 4) == |r.key| && Field(data, 16, 4) == |r.value|
            && (Field(data, 24, 8), Field(data, 32, 8), Field(data, 40, 8)) == (r.sequence, r.keyHash, r.expireAt)
            && (Field(data, 48, 2), Field(data, 50, 2), Field(data, 52, 4)) == (r.opcode, r.kind, r.flags)
            && data[56..56 + |r.key|] == r.key
            && data[56 + |r.key|..56 + |r.key| + |r.value|] == r.value
            && forall i | 56 + |r.key| + |r.value| <= i < |data| :: data[i] == 0
  {
    hide RecordBytes, Carries, Value, Sealed, Limit, RecordFields;
    var data := RecordBytes(r);
    CarriedRecord(r, data);
    RecordFormat(r, data);
    RecordMetadata(r, data);
  }

  lemma RecordFormat(r: Record, data: seq<byte>)
    requires RecordFits(r)
    requires Carries(data, RecordFields(r), ZeroBytes(56), 20, 24)
    ensures Field(data, 0, 4) == RECORD_MAGIC
    ensures Field(data, 4, 2) == 1
    ensures Field(data, 6, 2) == 56
    ensures Field(data, 8, 4) == Extent(r)
    ensures Field(data, 12, 4) == |r.key|
    ensures Field(data, 16, 4) == |r.value|
  {
    hide LE, Value, Limit, ZeroBytes, Carries;
    var (f, z) := (RecordFields(r), ZeroBytes(56));
    Limits();
    CarriedNumber(data, f, z, 20, 24, 0, 0, 4, RECORD_MAGIC);
    CarriedNumber(data, f, z, 20, 24, 1, 4, 2, 1);
    CarriedNumber(data, f, z, 20, 24, 2, 6, 2, 56);
    CarriedNumber(data, f, z, 20, 24, 3, 8, 4, Extent(r));
    CarriedNumber(data, f, z, 20, 24, 4, 12, 4, |r.key|);
    CarriedNumber(data, f, z, 20, 24, 5, 16, 4, |r.value|);
  }

  lemma RecordMetadata(r: Record, data: seq<byte>)
    requires RecordFits(r)
    requires Carries(data, RecordFields(r), ZeroBytes(56), 20, 24)
    ensures Field(data, 24, 8) == r.sequence
    ensures Field(data, 32, 8) == r.keyHash
    ensures Field(data, 40, 8) == r.expireAt
    ensures Field(data, 48, 2) == r.opcode
    ensures Field(data, 50, 2) == r.kind
    ensures Field(data, 52, 4) == r.flags
  {
    hide LE, Value, Limit, ZeroBytes, Carries;
    var (f, z) := (RecordFields(r), ZeroBytes(56));
    CarriedNumber(data, f, z, 20, 24, 7, 24, 8, r.sequence);
    CarriedNumber(data, f, z, 20, 24, 8, 32, 8, r.keyHash);
    CarriedNumber(data, f, z, 20, 24, 9, 40, 8, r.expireAt);
    CarriedNumber(data, f, z, 20, 24, 10, 48, 2, r.opcode);
    CarriedNumber(data, f, z, 20, 24, 11, 50, 2, r.kind);
    CarriedNumber(data, f, z, 20, 24, 12, 52, 4, r.flags);
  }
}
