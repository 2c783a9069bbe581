/** The Store Manifest: header layout, encoder, verifier and the reader used on accepted Manifests. */
module Manifest {
  import opened Bytes
  import opened Crc32c
  import opened Checksummed
  import opened Layout
  import opened Sequences

  const MAGIC := 0x4D59_4C47
  const CHECKSUM_OFFSET := 80

  type StoreId = s: seq<byte> | |s| == 16
    witness ZeroBytes(16)

  datatype Entry = Entry(id: nat, generation: nat, owner: nat, role: nat)

  datatype Manifest = Manifest(
    storeId: StoreId,
    generation: nat,
    workers: nat,
    epoch: nat,
    nextId: nat,
    nextGeneration: nat,
    segments: seq<Entry>)

  predicate EntryFits(e: Entry) {
    && e.id < Limit(8)
    && e.generation < Limit(4)
    && e.owner < Limit(4)
    && e.role < Limit(2)
  }

  function TotalSize(m: Manifest): nat {
    128 + 32 * |m.segments|
  }

  /** Every value fits the field it is packed into; otherwise `struct.pack_into` raises. */
  predicate Encodable(m: Manifest) {
    && m.generation < Limit(8)
    && m.workers < Limit(4)
    && m.epoch < Limit(8)
    && m.nextId < Limit(8)
    && m.nextGeneration < Limit(4)
    && TotalSize(m) < Limit(4)
    && forall e | e in m.segments :: EntryFits(e)
  }

  // ---------------------------------------------------------------- Layout

  function HeaderField(m: Manifest, k: nat): Slot
    requires k < 17
  {
    if k == 0 then U(0, 4, MAGIC)
    else if k == 1 then U(4, 2, 1)
    else if k == 2 then U(6, 2, 128)
    else if k == 3 then U(8, 4, TotalSize(m))
    else if k == 4 then U(12, 4, 32)
    else if k == 5 then Raw(16, m.storeId)
    else if k == 6 then U(32, 8, m.generation)
    else if k == 7 then U(40, 4, 1)
    else if k == 8 then U(44, 4, m.workers)
    else if k == 9 then U(48, 8, m.epoch)
    else if k == 10 then U(56, 4, |m.segments|)
    else if k == 11 then U(60, 2, 1)
    else if k == 12 then U(62, 2, 1)
    else if k == 13 then U(64, 2, 1)
    else if k == 14 then U(66, 2, 1)
    else if k == 15 then U(68, 8, m.nextId)
    else U(76, 4, m.nextGeneration)
  }

  function HeaderFields(m: Manifest): seq<Slot> {
    seq(17, k requires 0 <= k < 17 => HeaderField(m, k))
  }

  function EntryFields(e: Entry): seq<Slot> {
    [ U(0, 8, e.id), U(8, 4, e.generation), U(12, 4, e.owner), U(16, 2, e.role) ]
  }

  lemma HeaderFits(m: Manifest)
    ensures Fits(HeaderFields(m), 128)
  {
    hide LE, Limit;
  }

  function EntryBytes(e: Entry): (r: seq<byte>)
    ensures |r| == 32
  {
    Image(EntryFields(e), ZeroBytes(32))
  }

  function EntryList(segments: seq<Entry>): (r: seq<seq<byte>>)
    ensures |r| == |segments|
    ensures forall p | p in r :: |p| == 32
  {
    seq(|segments|, i requires 0 <= i < |segments| => EntryBytes(segments[i]))
  }

  function Body(segments: seq<Entry>): (r: seq<byte>)
    ensures |r| == 32 * |segments|
  {
    FlattenAt(EntryList(segments), 0);
    Flatten(EntryList(segments))
  }

  function ManifestBytes(m: Manifest): (r: seq<byte>)
    ensures |r| == TotalSize(m)
  {
    HeaderFits(m);
    Seal(Image(HeaderFields(m), ZeroBytes(128)) + Body(m.segments), CHECKSUM_OFFSET)
  }

  // ---------------------------------------------------------------- Encoder

  lemma EntryRoom(e: Entry)
    ensures AllRoom(EntryFields(e)) <==> EntryFits(e)
  {
    hide LE, Limit;
    var f := EntryFields(e);
    assert AllRoom(f) <==> f[0].room && f[1].room && f[2].room && f[3].room;
  }

  method PackEntry(e: Entry) returns (r: Option<seq<byte>>)
    ensures r == if EntryFits(e) then Some(EntryBytes(e)) else None
  {
    var entry := new byte[32](_ => 0);
    assert entry[..] == ZeroBytes(32);
    EntryRoom(e);
    var ok := Pack(entry, EntryFields(e));
    r := if ok then Some(entry[..]) else None;
  }

  method PackBody(segments: seq<Entry>) returns (body: Option<seq<byte>>)
    ensures body == if forall e | e in segments :: EntryFits(e) then Some(Body(segments)) else None
  {
    hide EntryBytes, EntryFits;
    var packed: seq<byte> := [];
    ghost var parts := EntryList(segments);
    for i := 0 to |segments|
      invariant forall k | 0 <= k < i :: EntryFits(segments[k])
      invariant packed == Flatten(parts[..i])
    {
      var entry := PackEntry(segments[i]);
      if entry.None? {
        assert segments[i] in segments;
        return None;
      }
      assert parts[..i + 1] == parts[..i] + [parts[i]];
      FlattenSnoc(parts[..i], parts[i]);
      packed := packed + entry.value;
    }
    assert parts[..|segments|] == parts;
    body := Some(packed);
  }

  /** The values of the header have room exactly when they are in range. */
  lemma HeaderRoom(m: Manifest)
    ensures AllRoom(HeaderFields(m)) && (forall e | e in m.segments :: EntryFits(e)) <==> Encodable(m)
  {
    hide LE, Limit, EntryFits;
    Limits();
    var f := HeaderFields(m);
    if Encodable(m) {
      forall k | 0 <= k < 17
        ensures f[k].room
      {
      }
    } else {
      assert f[3].room == (TotalSize(m) < Limit(4));
      assert f[6].room == (m.generation < Limit(8)) && f[8].room == (m.workers < Limit(4));
      assert f[9].room == (m.epoch < Limit(8)) && f[15].room == (m.nextId < Limit(8));
      assert f[16].room == (m.nextGeneration < Limit(4));
    }
  }

  method EncodeManifest(m: Manifest) returns (r: Option<seq<byte>>)
    ensures r == if Encodable(m) then Some(ManifestBytes(m)) else None
  {
    hide Encodable, HeaderFields, EntryFits, Image, Checksum, Body;
    var header := new byte[128](_ => 0);
    assert header[..] == ZeroBytes(128);
    HeaderFits(m);
    HeaderRoom(m);
    var ok := Pack(header, HeaderFields(m));
    if !ok {
      return None;
    }
    var body := PackBody(m.segments);
    if body.None? {
      return None;
    }
    var payload := header[..] + body.value;
    var crc := TableChecksum(ZeroedField(payload, CHECKSUM_OFFSET));
    r := Some(payload[..CHECKSUM_OFFSET] + WordBytes(crc) + payload[CHECKSUM_OFFSET + 4..]);
  }

  // ---------------------------------------------------------------- Verifier

  datatype Fault = TooShort | HeaderMismatch | SizeMismatch | ChecksumMismatch

  datatype Verdict = Accepted | Rejected(fault: Fault)

  function VerifyManifest(data: seq<byte>): Verdict {
    if |data| < 128 then Rejected(TooShort)
    else if (Field(data, 0, 4), Field(data, 4, 2), Field(data, 6, 2), Field(data, 12, 4)) != (MAGIC, 1, 128, 32) then
      Rejected(HeaderMismatch)
    else if |data| != Field(data, 8, 4) then Rejected(SizeMismatch)
    else if !Sealed(data, CHECKSUM_OFFSET) then Rejected(ChecksumMismatch)
    else Accepted
  }

  predicate Accepts(data: seq<byte>) {
    VerifyManifest(data) == Accepted
  }

  // ---------------------------------------------------------------- Reader

  /** What the intent verifier reads from an accepted Manifest. */
  datatype View = View(
    storeId: seq<byte>,
    generation: nat,
    routing: nat,
    workers: nat,
    epoch: nat,
    nextId: nat,
    nextGeneration: nat,
    segments: seq<Entry>)

  function ReadEntry(data: seq<byte>, offset: nat): Entry
    requires offset + 18 <= |data|
  {
    Entry(Field(data, offset, 8), Field(data, offset + 8, 4), Field(data, offset + 12, 4), Field(data, offset + 16, 2))
  }

  /** The last entry needs only its 18 meaningful bytes. */
  predicate EntriesReadable(data: seq<byte>, count: nat) {
    count == 0 || 128 + 32 * (count - 1) + 18 <= |data|
  }

  function ReadSegments(data: seq<byte>, count: nat): (r: seq<Entry>)
    requires EntriesReadable(data, count)
    ensures |r| == count
  {
    seq(count, i requires 0 <= i < count => ReadEntry(data, 128 + 32 * i))
  }

  /** `None` when the segment count runs past the end of the data and `struct.unpack_from` raises. */
  function ReadView(data: seq<byte>): Option<View>
    requires |data| >= 128
  {
    var count := Field(data, 56, 4);
    if !EntriesReadable(data, count) then None
    else Some(View(data[16..32], Field(data, 32, 8), Field(data, 40, 4), Field(data, 44, 4), Field(data, 48, 8),
                   Field(data, 68, 8), Field(data, 76, 4), ReadSegments(data, count)))
  }

  function ViewOf(m: Manifest): View {
    View(m.storeId, m.generation, 1, m.workers, m.epoch, m.nextId, m.nextGeneration, m.segments)
  }

  // ---------------------------------------------------------------- Encoder, verifier and reader agree

  lemma Format(m: Manifest, data: seq<byte>)
    requires Encodable(m)
    requires Carries(data, HeaderFields(m), ZeroBytes(128), 80, 84)
    ensures Field(data, 0, 4) == MAGIC
    ensures Field(data, 4, 2) == 1
    ensures Field(data, 6, 2) == 128
    ensures Field(data, 8, 4) == TotalSize(m)
    ensures Field(data, 12, 4) == 32
    ensures data[16..32] == m.storeId
  {
    hide LE, Value, Limit, ZeroBytes, Carries;
    var (f, z) := (HeaderFields(m), ZeroBytes(128));
    Limits();
    CarriedNumber(data, f, z, 80, 84, 0, 0, 4, MAGIC);
    CarriedNumber(data, f, z, 80, 84, 1, 4, 2, 1);
    CarriedNumber(data, f, z, 80, 84, 2, 6, 2, 128);
    CarriedNumber(data, f, z, 80, 84, 3, 8, 4, TotalSize(m));
    CarriedNumber(data, f, z, 80, 84, 4, 12, 4, 32);
    CarriedBytes(data, f, z, 80, 84, 5);
  }

  lemma Counters(m: Manifest, data: seq<byte>)
    requires Encodable(m)
    requires Carries(data, HeaderFields(m), ZeroBytes(128), 80, 84)
    ensures Field(data, 32, 8) == m.generation
    ensures Field(data, 40, 4) == 1
    ensures Field(data, 44, 4) == m.workers
    ensures Field(data, 48, 8) == m.epoch
    ensures Field(data, 56, 4) == |m.segments|
    ensures Field(data, 68, 8) == m.nextId
    ensures Field(data, 76, 4) == m.nextGeneration
  {
    hide LE, Value, Limit, ZeroBytes, Carries;
    var (f, z) := (HeaderFields(m), ZeroBytes(128));
    Limits();
    CarriedNumber(data, f, z, 80, 84, 6, 32, 8, m.generation);
    CarriedNumber(data, f, z, 80, 84, 7, 40, 4, 1);
    CarriedNumber(data, f, z, 80, 84, 8, 44, 4, m.workers);
    CarriedNumber(data, f, z, 80, 84, 9, 48, 8, m.epoch);
    CarriedNumber(data, f, z, 80, 84, 10, 56, 4, |m.segments|);
    CarriedNumber(data, f, z, 80, 84, 15, 68, 8, m.nextId);
    CarriedNumber(data, f, z, 80, 84, 16, 76, 4, m.nextGeneration);
  }

  lemma EntryRoundTrip(e: Entry, data: seq<byte>)
    requires EntryFits(e)
    requires data == EntryBytes(e)
    ensures ReadEntry(data, 0) == e
  {
    var (f, z) := (EntryFields(e), ZeroBytes(32));
    CarriedNumber(data, f, z, 32, 32, 0, 0, 8, e.id);
    CarriedNumber(data, f, z, 32, 32, 1, 8, 4, e.generation);
    CarriedNumber(data, f, z, 32, 32, 2, 12, 4, e.owner);
    CarriedNumber(data, f, z, 32, 32, 3, 16, 2, e.role);
  }

  /** An entry reads the same inside a longer string. */
  lemma EntryAt(data: seq<byte>, offset: nat, entry: seq<byte>)
    requires |entry| == 32 && offset + 32 <= |data|
    requires data[offset..offset + 32] == entry
    ensures ReadEntry(data, offset) == ReadEntry(entry, 0)
  {
    hide Value;
    SliceOfSlice(data, offset, offset + 32, 0, 8);
    SliceOfSlice(data, offset, offset + 32, 8, 12);
    SliceOfSlice(data, offset, offset + 32, 12, 16);
    SliceOfSlice(data, offset, offset + 32, 16, 18);
  }

  lemma SegmentRoundTrip(segments: seq<Entry>, data: seq<byte>, i: nat)
    requires i < |segments| && EntryFits(segments[i])
    requires |data| == 128 + 32 * |segments| && data[128..] == Body(segments)
    ensures ReadEntry(data, 128 + 32 * i) == segments[i]
  {
    hide EntryBytes, ReadEntry;
    var parts := EntryList(segments);
    FlattenAt(parts, i);
    assert data[128..][32 * i..32 * i + 32] == data[128 + 32 * i..128 + 32 * i + 32];
    assert parts[i] == EntryBytes(segments[i]);
    EntryAt(data, 128 + 32 * i, parts[i]);
    EntryRoundTrip(segments[i], parts[i]);
  }

  lemma Carried(m: Manifest, data: seq<byte>)
    requires data == ManifestBytes(m)
    ensures Carries(data, HeaderFields(m), ZeroBytes(128), 80, 84)
    ensures data[128..] == Body(m.segments)
    ensures Sealed(data, CHECKSUM_OFFSET)
  {
    hide HeaderFields, Image, Body, Seal, Sealed;
    HeaderFits(m);
    var payload := Image(HeaderFields(m), ZeroBytes(128)) + Body(m.segments);
    SealIsSealed(payload, CHECKSUM_OFFSET);
    assert data[128..] == payload[128..];
  }

  /** The verifier accepts every encoded Manifest and the reader gives back what was encoded. */
  lemma ManifestRoundTrip(m: Manifest)
    requires Encodable(m)
    ensures Accepts(ManifestBytes(m))
    ensures ReadView(ManifestBytes(m)) == Some(ViewOf(m))
  {
    hide ManifestBytes, HeaderFields, Body, Value, Limit, Sealed, ReadEntry;
    var data := ManifestBytes(m);
    Carried(m, data);
    Format(m, data);
    Counters(m, data);
    forall i | 0 <= i < |m.segments|
      ensures ReadEntry(data, 128 + 32 * i) == m.segments[i]
    {
      SegmentRoundTrip(m.segments, data, i);
    }
    assert ReadSegments(data, |m.segments|) == m.segments;
  }
}
