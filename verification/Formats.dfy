/**
 The on-disk formats written out, byte by byte and number by number: what each builder puts where, and
 exactly which bytes each verifier accepts.
 */
module Formats {
  import opened Bytes
  import opened Checksummed
  import opened CompactionIntent
  import opened Layout
  import opened Manifest
  import opened Record
  import opened SegmentHeader
  import opened Replacement
  import opened Sequences
  import opened Sorting

  /** Behind its last field a block is zero. */
  lemma ZeroTail(data: seq<byte>, fields: seq<Slot>, n: nat, lo: nat, hi: nat, end: nat)
    requires Carries(data, fields, ZeroBytes(n), lo, hi)
    requires fields != [] && End(fields[|fields| - 1]) <= end
    ensures forall i | end <= i < n && !(lo <= i < hi) :: data[i] == 0
  {
    hide Image, ZeroBytes;
    forall i | end <= i < n && !(lo <= i < hi)
      ensures data[i] == 0
    {
      forall s | s in fields
        ensures i < s.offset || End(s) <= i
      {
        var k :| 0 <= k < |fields| && fields[k] == s;
        if k < |fields| - 1 {
          FitsOrder(fields, n, k, |fields| - 1);
        }
      }
      ImageGap(fields, ZeroBytes(n), i);
    }
  }

  // ---------------------------------------------------------------- Manifests

  /** GLYM, version 1, the sizes, the store id, the counters, four format versions, and zeros. */
  lemma ManifestLayout(m: Manifest)
    requires Encodable(m)
    ensures var d := ManifestBytes(m);
            && |d| == 128 + 32 * |m.segments|
            && d[..4] == [0x47, 0x4C, 0x59, 0x4D]
            && (Field(d, 4, 2), Field(d, 6, 2), Field(d, 8, 4), Field(d, 12, 4)) == (1, 128, |d|, 32)
            && d[16..32] == m.storeId
            && (Field(d, 32, 8), Field(d, 40, 4)) == (m.generation, 1)
            && (Field(d, 44, 4), Field(d, 48, 8)) == (m.workers, m.epoch)
            && (Field(d, 56, 4), Field(d, 68, 8), Field(d, 76, 4)) == (|m.segments|, m.nextId, m.nextGeneration)
            && (Field(d, 60, 2), Field(d, 62, 2), Field(d, 64, 2), Field(d, 66, 2)) == (1, 1, 1, 1)
            && (forall i | 84 <= i < 128 :: d[i] == 0)
            && Sealed(d, 80)
  {
    hide ManifestBytes, Value, Sealed, HeaderFields, Carries, Limit, Encodable, ZeroBytes, Body;
    var d := ManifestBytes(m);
    Carried(m, d);
    Format(m, d);
    Counters(m, d);
    Versions(m, d);
    MagicIs(d, 0x47, 0x4C, 0x59, 0x4D);
    HeaderEnd(m);
    ZeroTail(d, HeaderFields(m), 128, 80, 84, 80);
  }

  lemma HeaderEnd(m: Manifest)
    ensures var f := HeaderFields(m); f != [] && End(f[|f| - 1]) == 80
  {
    hide LE, Limit;
  }

  lemma Versions(m: Manifest, d: seq<byte>)
    requires Carries(d, HeaderFields(m), ZeroBytes(128), 80, 84)
    ensures (Field(d, 60, 2), Field(d, 62, 2), Field(d, 64, 2), Field(d, 66, 2)) == (1, 1, 1, 1)
  {
    hide LE, Value, Limit, ZeroBytes, Carries;
    var (f, z) := (HeaderFields(m), ZeroBytes(128));
    Limits();
    CarriedNumber(d, f, z, 80, 84, 11, 60, 2, 1);
    CarriedNumber(d, f, z, 80, 84, 12, 62, 2, 1);
    CarriedNumber(d, f, z, 80, 84, 13, 64, 2, 1);
    CarriedNumber(d, f, z, 80, 84, 14, 66, 2, 1);
  }

  /** Each entry: id, generation, owner and role, then zeros. */
  lemma EntryLayout(m: Manifest, i: nat)
    requires Encodable(m) && i < |m.segments|
    ensures var (d, o, e) := (ManifestBytes(m), 128 + 32 * i, m.segments[i]);
            && o + 32 <= |d|
            && (Field(d, o, 8), Field(d, o + 8, 4), Field(d, o + 12, 4), Field(d, o + 16, 2))
            == (e.id, e.generation, e.owner, e.role)
            && forall k | o + 18 <= k < o + 32 :: d[k] == 0
  {
    hide ManifestBytes, Value, Sealed, HeaderFields, EntryBytes, Limit, ZeroBytes, Carries;
    var (d, o, e) := (ManifestBytes(m), 128 + 32 * i, m.segments[i]);
    assert e in m.segments;
    Carried(m, d);
    SegmentRoundTrip(m.segments, d, i);
    FlattenedEntry(m.segments, d, i);
    EntryTail(e);
    forall k | o + 18 <= k < o + 32
      ensures d[k] == 0
    {
      assert d[k] == d[o..o + 32][k - o];
    }
  }

  lemma FlattenedEntry(segments: seq<Entry>, d: seq<byte>, i: nat)
    requires i < |segments| && |d| == 128 + 32 * |segments| && d[128..] == Body(segments)
    ensures d[128 + 32 * i..128 + 32 * i + 32] == EntryBytes(segments[i])
  {
    hide EntryBytes;
    FlattenAt(EntryList(segments), i);
    assert d[128 + 32 * i..128 + 32 * i + 32] == d[128..][32 * i..32 * i + 32];
  }

  lemma EntryTail(e: Entry)
    ensures forall k | 18 <= k < 32 :: EntryBytes(e)[k] == 0
  {
    hide LE, Limit, Image, ZeroBytes;
    var f := EntryFields(e);
    assert Carries(EntryBytes(e), f, ZeroBytes(32), 32, 32);
    ZeroTail(EntryBytes(e), f, 32, 32, 32, 18);
  }

  /** What `verify_manifest` accepts, and nothing else; of other bytes it names a fault they have. */
  lemma ManifestAcceptedIff(d: seq<byte>)
    ensures Accepts(d) <==>
            && |d| >= 128
            && d[..4] == [0x47, 0x4C, 0x59, 0x4D]
            && (Field(d, 4, 2), Field(d, 6, 2), Field(d, 12, 4)) == (1, 128, 32)
            && Field(d, 8, 4) == |d|
            && Sealed(d, 80)
    ensures VerifyManifest(d).Rejected? ==>
              match VerifyManifest(d).fault
              case TooShort => |d| < 128
              case HeaderMismatch =>
                |d| >= 128 && !(d[..4] == [0x47, 0x4C, 0x59, 0x4D]
                                && (Field(d, 4, 2), Field(d, 6, 2), Field(d, 12, 4)) == (1, 128, 32))
              case SizeMismatch => |d| >= 128 && Field(d, 8, 4) != |d|
              case ChecksumMismatch => |d| >= 128 && !Sealed(d, 80)
  {
    hide Value, Sealed;
    if |d| >= 128 {
      MagicIs(d, 0x47, 0x4C, 0x59, 0x4D);
    }
  }

  // ---------------------------------------------------------------- Records

  /** GLYR, version 1 and the sizes; the other fields are in `RecordRoundTrip`. */
  lemma RecordLayout(r: Record)
    requires RecordFits(r)
    ensures var d := RecordBytes(r);
            && |d| >= 56 && d[..4] == [0x47, 0x4C, 0x59, 0x52]
            && (Field(d, 4, 2), Field(d, 6, 2), Field(d, 8, 4)) == (1, 56, |d|)
            && Sealed(d, 20)
  {
    hide RecordBytes, Value, Sealed, RecordFields, Carries, Limit;
    var d := RecordBytes(r);
    CarriedRecord(r, d);
    RecordFormat(r, d);
    MagicIs(d, 0x47, 0x4C, 0x59, 0x52);
  }

  /** What `verify_record` accepts, and nothing else; of other bytes it names a fault they have. */
  lemma RecordAcceptedIff(d: seq<byte>)
    ensures VerifyRecord(d) == GoodRecord <==>
            && |d| >= 24 && |d| % 8 == 0
            && d[..4] == [0x47, 0x4C, 0x59, 0x52]
            && (Field(d, 4, 2), Field(d, 6, 2)) == (1, 56)
            && Field(d, 8, 4) == |d|
            && Sealed(d, 20)
    ensures match VerifyRecord(d)
            case GoodRecord => true
            case Truncated => |d| < 24
            case HeaderMismatch =>
              |d| >= 12 && !(d[..4] == [0x47, 0x4C, 0x59, 0x52] && (Field(d, 4, 2), Field(d, 6, 2)) == (1, 56))
            case ExtentMismatch => |d| >= 12 && (Field(d, 8, 4) != |d| || |d| % 8 != 0)
            case ChecksumMismatch => |d| >= 24 && !Sealed(d, 20)
  {
    hide Value, Sealed;
    if |d| >= 12 {
      MagicIs(d, 0x47, 0x4C, 0x59, 0x52);
    }
  }

  // ---------------------------------------------------------------- Segment headers

  lemma CarriedCommit(c: Commit)
    ensures Carries(CommitBytes(c), CommitFields(c), ZeroBytes(128), 48, 52)
    ensures Sealed(CommitBytes(c), 48)
  {
    hide Image, Seal, Sealed, CommitFields;
    BlocksFit(Identity([], 0, 0, 0), c);
    SealIsSealed(Image(CommitFields(c), ZeroBytes(128)), COMMIT_CHECKSUM_OFFSET);
  }

  /** GLYC, version 1, then the six values in order, and zeros. */
  lemma CommitLayout(c: Commit)
    requires CommitFits(c)
    ensures var d := CommitBytes(c);
            && d[..4] == [0x47, 0x4C, 0x59, 0x43]
            && (Field(d, 4, 2), Field(d, 6, 2), Field(d, 22, 2)) == (1, 128, 0)
            && (Field(d, 8, 8), Field(d, 16, 4), Field(d, 20, 2)) == (c.generation, c.committedEnd, c.state)
            && (Field(d, 24, 8), Field(d, 32, 8), Field(d, 40, 8)) == (c.records, c.first, c.last)
            && (forall i | 52 <= i < 128 :: d[i] == 0)
            && Sealed(d, 48)
  {
    hide CommitBytes, Value, Sealed, CommitFields, Carries, Limit;
    var d := CommitBytes(c);
    CarriedCommit(c);
    CommitNumbers(c, d);
    MagicIs(d, 0x47, 0x4C, 0x59, 0x43);
    CommitEnd(c);
    ZeroTail(d, CommitFields(c), 128, 48, 52, 48);
  }

  lemma CommitEnd(c: Commit)
    ensures var f := CommitFields(c); f != [] && End(f[|f| - 1]) == 48
  {
    hide LE, Limit;
  }

  lemma CommitNumbers(c: Commit, d: seq<byte>)
    requires CommitFits(c) && Carries(d, CommitFields(c), ZeroBytes(128), 48, 52)
    ensures Field(d, 0, 4) == COMMIT_MAGIC
    ensures (Field(d, 4, 2), Field(d, 6, 2), Field(d, 22, 2)) == (1, 128, 0)
    ensures (Field(d, 8, 8), Field(d, 16, 4), Field(d, 20, 2)) == (c.generation, c.committedEnd, c.state)
    ensures (Field(d, 24, 8), Field(d, 32, 8), Field(d, 40, 8)) == (c.records, c.first, c.last)
  {
    hide LE, Value, Limit, ZeroBytes, Carries;
    var (f, z) := (CommitFields(c), ZeroBytes(128));
    Limits();
    CarriedNumber(d, f, z, 48, 52, 0, 0, 4, COMMIT_MAGIC);
    CarriedNumber(d, f, z, 48, 52, 1, 4, 2, 1);
    CarriedNumber(d, f, z, 48, 52, 2, 6, 2, 128);
    CarriedNumber(d, f, z, 48, 52, 3, 8, 8, c.generation);
    CarriedNumber(d, f, z, 48, 52, 4, 16, 4, c.committedEnd);
    CarriedNumber(d, f, z, 48, 52, 5, 20, 2, c.state);
    CarriedNumber(d, f, z, 48, 52, 6, 22, 2, 0);
    CarriedNumber(d, f, z, 48, 52, 7, 24, 8, c.records);
    CarriedNumber(d, f, z, 48, 52, 8, 32, 8, c.first);
    CarriedNumber(d, f, z, 48, 52, 9, 40, 8, c.last);
  }

  lemma CarriedIdentity(d: Identity)
    requires |d.storeId| == 16
    ensures Carries(IdentityBytes(d), IdentityFields(d), ZeroBytes(128), 52, 56)
    ensures Sealed(IdentityBytes(d), 52)
  {
    hide Image, Seal, Sealed, IdentityFields;
    BlocksFit(d, Commit(0, 0, 0, 0, 0, 0));
    SealIsSealed(Image(IdentityFields(d), ZeroBytes(128)), IDENTITY_CHECKSUM_OFFSET);
  }

  /** GLYH, the format numbers, the store id and the three values, and zeros. */
  lemma IdentityLayout(d: Identity)
    requires IdentityFits(d)
    ensures var b := IdentityBytes(d);
            && b[..4] == [0x47, 0x4C, 0x59, 0x48]
            && (Field(b, 4, 2), Field(b, 6, 2)) == (1, 128)
            && (Field(b, 8, 2), Field(b, 10, 2), Field(b, 12, 4)) == (1, 1, 4096)
            && b[16..32] == d.storeId
            && (Field(b, 32, 8), Field(b, 40, 4), Field(b, 44, 4)) == (d.segmentId, d.generation, d.owner)
            && (forall i | 48 <= i < 128 && !(52 <= i < 56) :: b[i] == 0)
            && Sealed(b, 52)
  {
    hide IdentityBytes, Value, Sealed, IdentityFields, Carries, Limit;
    var b := IdentityBytes(d);
    CarriedIdentity(d);
    IdentityFormat(d, b);
    IdentityNumbers(d, b);
    MagicIs(b, 0x47, 0x4C, 0x59, 0x48);
    IdentityEnd(d);
    ZeroTail(b, IdentityFields(d), 128, 52, 56, 48);
  }

  lemma IdentityEnd(d: Identity)
    requires |d.storeId| == 16
    ensures var f := IdentityFields(d); f != [] && End(f[|f| - 1]) == 48
  {
    hide LE, Limit;
  }

  lemma IdentityNumbers(d: Identity, b: seq<byte>)
    requires IdentityFits(d) && Carries(b, IdentityFields(d), ZeroBytes(128), 52, 56)
    ensures b[16..32] == d.storeId
    ensures (Field(b, 32, 8), Field(b, 40, 4), Field(b, 44, 4)) == (d.segmentId, d.generation, d.owner)
  {
    hide LE, Value, Limit, ZeroBytes, Carries;
    var (f, z) := (IdentityFields(d), ZeroBytes(128));
    Limits();
    CarriedBytes(b, f, z, 52, 56, 6);
    CarriedNumber(b, f, z, 52, 56, 7, 32, 8, d.segmentId);
    CarriedNumber(b, f, z, 52, 56, 8, 40, 4, d.generation);
    CarriedNumber(b, f, z, 52, 56, 9, 44, 4, d.owner);
  }

  /** A commit slot is accepted when it starts with four zeros, or with GLYC and is sealed. */
  lemma SlotAcceptedIff(s: seq<byte>)
    requires |s| == 128
    ensures VerifySlot(s) == GoodHeader <==>
            s[..4] == [0, 0, 0, 0] || (s[..4] == [0x47, 0x4C, 0x59, 0x43] && Sealed(s, 48))
    ensures VerifySlot(s) == SlotMagic ==> s[..4] != [0x47, 0x4C, 0x59, 0x43]
    ensures VerifySlot(s) == SlotChecksum ==> !Sealed(s, 48)
    ensures VerifySlot(s) in {GoodHeader, SlotMagic, SlotChecksum}
  {
    hide Value, Sealed;
    MagicIs(s, 0x47, 0x4C, 0x59, 0x43);
    assert ZeroBytes(4) == [0, 0, 0, 0];
  }

  /** What `verify_segment_header` accepts, and nothing else; of other bytes it names a fault they have. */
  lemma HeaderAcceptedIff(d: seq<byte>)
    ensures VerifySegmentHeader(d) == GoodHeader <==>
            && |d| == 384
            && d[..4] == [0x47, 0x4C, 0x59, 0x48]
            && (Field(d, 4, 2), Field(d, 6, 2)) == (1, 128)
            && (Field(d, 8, 2), Field(d, 10, 2), Field(d, 12, 4)) == (1, 1, 4096)
            && Sealed(d[..128], 52)
            && VerifySlot(d[128..256]) == GoodHeader
            && VerifySlot(d[256..]) == GoodHeader
    ensures match VerifySegmentHeader(d)
            case GoodHeader => true
            case WrongLength => |d| != 384
            case PrefixMismatch =>
              |d| == 384 && !(d[..4] == [0x47, 0x4C, 0x59, 0x48] && (Field(d, 4, 2), Field(d, 6, 2)) == (1, 128))
            case FormatMismatch => |d| == 384 && (Field(d, 8, 2), Field(d, 10, 2), Field(d, 12, 4)) != (1, 1, 4096)
            case IdentityChecksum => |d| == 384 && !Sealed(d[..128], 52)
            case bad => |d| == 384 && (bad == VerifySlot(d[128..256]) || bad == VerifySlot(d[256..]))
  {
    hide Value, Sealed, VerifySlot;
    if |d| == 384 {
      SlotAcceptedIff(d[128..256]);
      SlotAcceptedIff(d[256..]);
      MagicIs(d, 0x47, 0x4C, 0x59, 0x48);
      var b := d[..128];
      assert b[0..4] == d[0..4] && b[4..6] == d[4..6] && b[6..8] == d[6..8];
      assert b[8..10] == d[8..10] && b[10..12] == d[10..12] && b[12..16] == d[12..16];
    }
  }

  // ---------------------------------------------------------------- Compaction intents

  /** The header: GLYC, version 1, Worker 0, its own size, zeros, a seal, and two whole Manifests behind it. */
  lemma EnvelopeAcceptedIff(d: seq<byte>)
    ensures CheckEnvelope(d) == Admit <==>
            && |d| >= 128
            && d[..4] == [0x47, 0x4C, 0x59, 0x43]
            && (Field(d, 4, 2), Field(d, 6, 2), Field(d, 8, 4), Field(d, 12, 4)) == (1, 128, |d|, 0)
            && (forall i | 60 <= i < 128 :: d[i] == 0)
            && Sealed(d, 56)
            && 128 + Field(d, 48, 4) + Field(d, 52, 4) == |d|
            && Accepts(d[128..128 + Field(d, 48, 4)])
            && Accepts(d[128 + Field(d, 48, 4)..])
  {
    hide Value, Sealed, VerifyManifest;
    if |d| >= 128 {
      MagicIs(d, 0x47, 0x4C, 0x59, 0x43);
      ReservedIff(d);
    }
  }

  lemma ReservedIff(d: seq<byte>)
    requires |d| >= 128
    ensures d[60..128] == ZeroBytes(68) <==> forall i | 60 <= i < 128 :: d[i] == 0
  {
    if d[60..128] == ZeroBytes(68) {
      forall i | 60 <= i < 128
        ensures d[i] == 0
      {
        assert d[i] == d[60..128][i - 60];
      }
    }
  }

  lemma SlicesJoin(a: seq<byte>, b: seq<byte>, i: nat, j: nat, k: nat)
    requires i <= j <= k <= |a| && k <= |b|
    ensures a[i..k] == b[i..k] <==> a[i..j] == b[i..j] && a[j..k] == b[j..k]
  {
    assert a[i..k] == a[i..j] + a[j..k] && b[i..k] == b[i..j] + b[j..k];
    assert a[i..k][..j - i] == a[i..j] && a[i..k][j - i..] == a[j..k];
    assert b[i..k][..j - i] == b[i..j] && b[i..k][j - i..] == b[j..k];
  }

  /** The two Manifests share the store id and all metadata, and the generation goes up by one. */
  lemma BindingAcceptedIff(id: seq<byte>, g: nat, g': nat, prior: seq<byte>, next: seq<byte>)
    requires |prior| >= 128 && |next| >= 128
    ensures CheckBinding(id, g, g', prior, next) == Admit <==>
            && id == prior[16..32] == next[16..32]
            && g == Field(prior, 32, 8) && g' == Field(next, 32, 8) == g + 1
            && Field(prior, 44, 4) > 0
            && prior[40..56] == next[40..56] && prior[68..80] == next[68..80]
    ensures CheckBinding(id, g, g', prior, next).Refuse? ==>
              match CheckBinding(id, g, g', prior, next).reason
              case StoreIdMismatch => !(id == prior[16..32] == next[16..32])
              case OldGeneration => g != Field(prior, 32, 8)
              case NextGeneration => !(g' == Field(next, 32, 8) == g + 1)
              case WorkerOutside => Field(prior, 44, 4) == 0
              case MetadataChanged => !(prior[40..56] == next[40..56] && prior[68..80] == next[68..80])
              case _ => false
  {
    hide Value;
    SameField(prior, next, 40, 4);
    SameField(prior, next, 44, 4);
    SameField(prior, next, 48, 8);
    SameField(prior, next, 68, 8);
    SameField(prior, next, 76, 4);
    SlicesJoin(prior, next, 40, 44, 56);
    SlicesJoin(prior, next, 44, 48, 56);
    SlicesJoin(prior, next, 68, 76, 80);
  }

  /** The entry count of a Manifest does not run past its bytes; the last entry needs 18 of its 32. */
  predicate Countable(d: seq<byte>) {
    |d| >= 128 && (Field(d, 56, 4) == 0 || 128 + 32 * (Field(d, 56, 4) - 1) + 18 <= |d|)
  }

  lemma CountableIff(d: seq<byte>)
    requires |d| >= 128
    ensures Countable(d) <==> EntriesReadable(d, Field(d, 56, 4))
  {
    hide Value;
  }

  /** The entries, each read at its place. */
  function Entries(d: seq<byte>): (r: seq<Entry>)
    requires Countable(d)
  {
    CountableIff(d);
    seq(Field(d, 56, 4), i requires 0 <= i < Field(d, 56, 4) =>
      assert 128 + 32 * i + 18 <= |d|;
      Entry(Field(d, 128 + 32 * i, 8), Field(d, 136 + 32 * i, 4), Field(d, 140 + 32 * i, 4), Field(d, 144 + 32 * i, 2)))
  }

  lemma EntriesAreRead(d: seq<byte>)
    requires Countable(d)
    ensures EntriesReadable(d, Field(d, 56, 4)) && ReadSegments(d, Field(d, 56, 4)) == Entries(d)
  {
    hide Value;
    CountableIff(d);
  }

  /** There are sealed Worker-0 segments, and `t` has as many of them as `s` at most, and all the others. */
  ghost predicate CountAllowed(s: seq<Entry>, t: seq<Entry>) {
    var sealed := Filter(s, (e: Entry) => e.owner == 0 && e.role == 2);
    var others := Filter(s, (e: Entry) => e.owner != 0 || e.role != 2);
    sealed != [] && |others| <= |t| <= |others| + |sealed|
  }

  /** `t` is `s` with some of its sealed Worker-0 segments dropped and the first of them a generation later. */
  ghost predicate Compacted(s: seq<Entry>, t: seq<Entry>) {
    var sealed := Filter(s, (e: Entry) => e.owner == 0 && e.role == 2);
    var others := Filter(s, (e: Entry) => e.owner != 0 || e.role != 2);
    var k := |t| - |others|;
    && CountAllowed(s, t)
    && multiset(t) == multiset(others)
                    + multiset(seq(k, i requires 0 <= i < k => Entry(sealed[i].id, sealed[i].generation + 1, 0, 2)))
    && forall i, j | 0 <= i < j < |t| :: Lexicographic(Tuple(t[i]), Tuple(t[j]))
  }

  lemma SegmentsAcceptedIff(prior: seq<byte>, next: seq<byte>)
    requires |prior| >= 128 && |next| >= 128
    ensures CheckSegments(prior, next) == Admit <==>
            Countable(prior) && Countable(next) && Compacted(Entries(prior), Entries(next))
    ensures CheckSegments(prior, next) == Refuse(EntriesTruncated) <==> !Countable(prior) || !Countable(next)
    ensures CheckSegments(prior, next) == Refuse(CountInvalid) <==>
            Countable(prior) && Countable(next) && !CountAllowed(Entries(prior), Entries(next))
    ensures CheckSegments(prior, next) in {Admit, Refuse(EntriesTruncated), Refuse(CountInvalid), Refuse(NotCanonical)}
  {
    hide Value, Countable, EntriesReadable, Sources, Retained, NextSegments, ReadSegments, Filter, Tuple, Entries;
    CountableIff(prior);
    CountableIff(next);
    if Countable(prior) && Countable(next) {
      EntriesAreRead(prior);
      EntriesAreRead(next);
      var (s, t) := (Entries(prior), Entries(next));
      SourcesAre(s);
      var k := |t| - |Retained(s)|;
      if 0 <= k <= |Sources(s)| {
        CanonicalIff(s, k, t);
      }
    }
  }

  /** What `verify_compaction_intent` accepts, and nothing else. */
  lemma IntentAcceptedIff(d: seq<byte>)
    ensures VerifyIntent(d) == Admit <==>
            && CheckEnvelope(d) == Admit
            && var (prior, next) := (d[128..128 + Field(d, 48, 4)], d[128 + Field(d, 48, 4)..]);
            && d[16..32] == prior[16..32] == next[16..32]
            && Field(d, 32, 8) == Field(prior, 32, 8)
            && Field(d, 40, 8) == Field(next, 32, 8) == Field(d, 32, 8) + 1
            && Field(prior, 44, 4) > 0
            && prior[40..56] == next[40..56] && prior[68..80] == next[68..80]
            && Countable(prior) && Countable(next)
            && Compacted(Entries(prior), Entries(next))
  {
    hide Value, CheckEnvelope, CheckBinding, CheckSegments, Countable, Compacted, Entries, Accepts, Sealed;
    EnvelopeAcceptedIff(d);
    if CheckEnvelope(d) == Admit {
      var (prior, next) := (d[128..128 + Field(d, 48, 4)], d[128 + Field(d, 48, 4)..]);
      AcceptedSize(prior);
      AcceptedSize(next);
      BindingAcceptedIff(d[16..32], Field(d, 32, 8), Field(d, 40, 8), prior, next);
      SegmentsAcceptedIff(prior, next);
    }
  }

  /** A refused intent has the fault that is named. */
  lemma ReasonIsTrue(d: seq<byte>)
    requires VerifyIntent(d).Refuse? && |d| >= 128
    ensures match VerifyIntent(d).reason
            case IntentTooShort => false
            case IntentHeader =>
              !(d[..4] == [0x47, 0x4C, 0x59, 0x43] && (Field(d, 4, 2), Field(d, 6, 2), Field(d, 12, 4)) == (1, 128, 0))
            case IntentSize => Field(d, 8, 4) != |d|
            case ReservedNonzero => exists i :: 60 <= i < 128 && d[i] != 0
            case IntentChecksum => !Sealed(d, 56)
            case ManifestExtents => 128 + Field(d, 48, 4) + Field(d, 52, 4) != |d|
            case _ => 128 + Field(d, 48, 4) + Field(d, 52, 4) == |d|
    ensures 128 + Field(d, 48, 4) + Field(d, 52, 4) == |d| ==>
              var (prior, next) := (d[128..128 + Field(d, 48, 4)], d[128 + Field(d, 48, 4)..]);
              match VerifyIntent(d).reason
              case BadManifest(f) => Rejected(f) in {VerifyManifest(prior), VerifyManifest(next)}
              case StoreIdMismatch => Accepts(prior) && Accepts(next) && !(d[16..32] == prior[16..32] == next[16..32])
              case OldGeneration => Accepts(prior) && Field(d, 32, 8) != Field(prior, 32, 8)
              case NextGeneration => Accepts(next) && !(Field(d, 40, 8) == Field(next, 32, 8) == Field(d, 32, 8) + 1)
              case WorkerOutside => Accepts(prior) && Field(prior, 44, 4) == 0
              case MetadataChanged =>
                Accepts(prior) && Accepts(next) && !(prior[40..56] == next[40..56] && prior[68..80] == next[68..80])
              case EntriesTruncated => !Countable(prior) || !Countable(next)
              case CountInvalid => Countable(prior) && Countable(next) && !CountAllowed(Entries(prior), Entries(next))
              case NotCanonical => Countable(prior) && Countable(next) && !Compacted(Entries(prior), Entries(next))
              case _ => true
  {
    hide Value, VerifyManifest, CheckBinding, CheckSegments, Sealed, Countable, CountAllowed, Compacted, Entries;
    MagicIs(d, 0x47, 0x4C, 0x59, 0x43);
    ReservedIff(d);
    if CheckEnvelope(d) == Admit {
      var (prior, next) := (d[128..128 + Field(d, 48, 4)], d[128 + Field(d, 48, 4)..]);
      AcceptedSize(prior);
      AcceptedSize(next);
      BindingAcceptedIff(d[16..32], Field(d, 32, 8), Field(d, 40, 8), prior, next);
      SegmentsAcceptedIff(prior, next);
    }
  }

  lemma AcceptedSize(d: seq<byte>)
    requires Accepts(d)
    ensures |d| >= 128
  {
  }
}
