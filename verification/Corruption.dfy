/** Exactly which corruptions of an accepted block its verifier accepts again. */
module Corruption {
  import opened Bytes
  import opened BitStrings
  import opened Checksummed
  import opened Unnoticed
  import opened SilentPatterns
  import Manifest
  import Record
  import opened CompactionIntent
  import opened SegmentHeader
  import opened FewFlips

  /** `b` differs from `a` within four adjacent bytes, wherever they lie. */
  predicate Burst(a: seq<byte>, b: seq<byte>, lo: nat, hi: nat) {
    a != b && AgreeOutside(a, b, lo, hi) && hi <= lo + 4
  }

  // ---------------------------------------------------------------- Manifests

  lemma ManifestPrefix(a: seq<byte>, b: seq<byte>)
    requires |a| == |b| >= 128
    ensures a[..16] == b[..16] <==>
            && (Field(a, 0, 4), Field(a, 4, 2), Field(a, 6, 2)) == (Field(b, 0, 4), Field(b, 4, 2), Field(b, 6, 2))
            && (Field(a, 8, 4), Field(a, 12, 4)) == (Field(b, 8, 4), Field(b, 12, 4))
  {
    hide Value;
    SameField(a, b, 0, 4);
    SameField(a, b, 4, 2);
    SameField(a, b, 6, 2);
    SameField(a, b, 8, 4);
    SameField(a, b, 12, 4);
    Sixteen(a);
    Sixteen(b);
    assert a[..16] == b[..16] ==> forall i | 0 <= i < 16 :: a[i] == a[..16][i] == b[..16][i] == b[i];
  }

  lemma Sixteen(a: seq<byte>)
    requires |a| >= 16
    ensures a[..16] == a[0..4] + a[4..6] + a[6..8] + a[8..12] + a[12..16]
  {
  }

  /** Of all changes that keep the length, an accepted Manifest survives exactly the silent ones behind its prefix. */
  lemma ManifestUnnoticedIff(a: seq<byte>, b: seq<byte>)
    requires Manifest.Accepts(a) && |a| == |b|
    ensures Manifest.Accepts(b) <==> a[..16] == b[..16] && Silent(XorBytes(a, b), 80)
  {
    hide Sealed, Value, Silent, XorBytes;
    UnnoticedIff(a, b, 80);
    ManifestPrefix(a, b);
  }

  /** A burst is accepted exactly when it crosses an edge of the stored word and its pattern is silent. */
  lemma ManifestBurstIff(a: seq<byte>, b: seq<byte>, lo: nat, hi: nat)
    requires Manifest.Accepts(a) && Burst(a, b, lo, hi)
    ensures Manifest.Accepts(b) <==> Straddles(lo, hi, 80) && Silent(XorBytes(a, b), 80)
  {
    hide Sealed, Value, Silent, XorBytes;
    BurstUnnoticedIff(a, b, 80, lo, hi);
    ManifestUnnoticedIff(a, b);
    assert Straddles(lo, hi, 80) ==> a[..16] == a[..lo][..16] == b[..lo][..16] == b[..16];
  }

  lemma ManifestOddFlips(a: seq<byte>, b: seq<byte>)
    requires Manifest.Accepts(a) && |a| == |b| && Parity(FlippedBits(a, b))
    ensures !Manifest.Accepts(b)
  {
    hide Sealed, Value, Parity, FlippedBits;
    OddFlipsDetected(a, b, 80);
  }

  /** One, two or three flipped bits of an accepted Manifest below 2^28 - 4 bytes are noticed. */
  lemma ManifestFewFlips(a: seq<byte>, b: seq<byte>)
    requires Manifest.Accepts(a) && |a| == |b| && |a| < HIDING_SIZE
    requires 1 <= Count(FlippedBits(a, b)) <= 3
    ensures !Manifest.Accepts(b)
  {
    hide Sealed, Value, Count, FlippedBits;
    FewFlipsNoticed(a, b, 80);
  }

  lemma PatternIsBurst(a: seq<byte>, lo: nat, bytes: seq<byte>)
    requires lo + 4 <= |a| && |bytes| == 4 && bytes[0] != 0
    ensures Burst(a, XorBytes(a, Pattern(|a|, lo, bytes)), lo, lo + 4)
    ensures XorBytes(a, XorBytes(a, Pattern(|a|, lo, bytes))) == Pattern(|a|, lo, bytes)
  {
    hide XorByte, Pattern, ZeroBytes;
    var m := Pattern(|a|, lo, bytes);
    var b := XorBytes(a, m);
    XorBytesTwice(a, m);
    PatternAt(|a|, lo, bytes);
    forall i | 0 <= i < |a| && !(lo <= i < lo + 4)
      ensures b[i] == a[i]
    {
      XorByteNone(a[i]);
    }
    XorByteTwice(a[lo], bytes[0]);
    XorByteNone(a[lo]);
  }

  lemma PatternAt(n: nat, lo: nat, bytes: seq<byte>)
    requires lo + 4 <= n && |bytes| == 4
    ensures Pattern(n, lo, bytes)[lo] == bytes[0]
    ensures forall i | 0 <= i < n && !(lo <= i < lo + 4) :: Pattern(n, lo, bytes)[i] == 0
  {
  }

  /** The burst property fails: this one survives in every accepted Manifest without entries. */
  lemma ManifestBlindSpot(a: seq<byte>)
    requires Manifest.Accepts(a) && |a| == 128
    ensures var b := XorBytes(a, Pattern(128, 78, [0x84, 0x1A, 0x99, 0x5D]));
            Burst(a, b, 78, 82) && Manifest.Accepts(b)
  {
    hide Manifest.Accepts, Silent, XorBytes, Pattern;
    PatternIsBurst(a, 78, [0x84, 0x1A, 0x99, 0x5D]);
    ManifestPattern();
    ManifestBurstIff(a, XorBytes(a, Pattern(128, 78, [0x84, 0x1A, 0x99, 0x5D])), 78, 82);
  }

  // ---------------------------------------------------------------- Records

  lemma Twelve(a: seq<byte>)
    requires |a| >= 12
    ensures a[..12] == a[0..4] + a[4..6] + a[6..8] + a[8..12]
  {
  }

  lemma RecordPrefix(a: seq<byte>, b: seq<byte>)
    requires |a| == |b| >= 12
    ensures a[..12] == b[..12] <==>
            && (Field(a, 0, 4), Field(a, 4, 2), Field(a, 6, 2)) == (Field(b, 0, 4), Field(b, 4, 2), Field(b, 6, 2))
            && Field(a, 8, 4) == Field(b, 8, 4)
  {
    hide Value;
    SameField(a, b, 0, 4);
    SameField(a, b, 4, 2);
    SameField(a, b, 6, 2);
    SameField(a, b, 8, 4);
    Twelve(a);
    Twelve(b);
    assert a[..12] == b[..12] ==> forall i | 0 <= i < 12 :: a[i] == a[..12][i] == b[..12][i] == b[i];
  }

  predicate GoodRecord(data: seq<byte>) {
    Record.VerifyRecord(data) == Record.GoodRecord
  }

  lemma RecordUnnoticedIff(a: seq<byte>, b: seq<byte>)
    requires GoodRecord(a) && |a| == |b|
    ensures GoodRecord(b) <==> a[..12] == b[..12] && Silent(XorBytes(a, b), 20)
  {
    hide Sealed, Value, Silent, XorBytes;
    UnnoticedIff(a, b, 20);
    RecordPrefix(a, b);
  }

  lemma RecordBurstIff(a: seq<byte>, b: seq<byte>, lo: nat, hi: nat)
    requires GoodRecord(a) && Burst(a, b, lo, hi)
    ensures GoodRecord(b) <==> Straddles(lo, hi, 20) && Silent(XorBytes(a, b), 20)
  {
    hide Sealed, Value, Silent, XorBytes;
    BurstUnnoticedIff(a, b, 20, lo, hi);
    RecordUnnoticedIff(a, b);
    assert Straddles(lo, hi, 20) ==> a[..12] == a[..lo][..12] == b[..lo][..12] == b[..12];
  }

  lemma RecordOddFlips(a: seq<byte>, b: seq<byte>)
    requires GoodRecord(a) && |a| == |b| && Parity(FlippedBits(a, b))
    ensures !GoodRecord(b)
  {
    hide Sealed, Value, Parity, FlippedBits;
    OddFlipsDetected(a, b, 20);
  }

  /** One, two or three flipped bits of an accepted record below 2^28 - 4 bytes are noticed. */
  lemma RecordFewFlips(a: seq<byte>, b: seq<byte>)
    requires GoodRecord(a) && |a| == |b| && |a| < HIDING_SIZE
    requires 1 <= Count(FlippedBits(a, b)) <= 3
    ensures !GoodRecord(b)
  {
    hide Sealed, Value, Count, FlippedBits;
    FewFlipsNoticed(a, b, 20);
  }

  /** The burst property fails: this one survives in every accepted record of the least size. */
  lemma RecordBlindSpot(a: seq<byte>)
    requires GoodRecord(a) && |a| == 56
    ensures var b := XorBytes(a, Pattern(56, 22, [0x1C, 0x42, 0x11, 0x23]));
            Burst(a, b, 22, 26) && GoodRecord(b)
  {
    hide GoodRecord, Silent, XorBytes, Pattern;
    PatternIsBurst(a, 22, [0x1C, 0x42, 0x11, 0x23]);
    RecordPattern();
    RecordBurstIff(a, XorBytes(a, Pattern(56, 22, [0x1C, 0x42, 0x11, 0x23])), 22, 26);
  }

  // ---------------------------------------------------------------- Intents

  /** Both neighbours of the stored word are fixed by other checks: the next size and the reserved zeros. */
  lemma IntentNeighbours(a: seq<byte>, b: seq<byte>)
    requires |a| == |b| && CheckEnvelope(a) == Admit && CheckEnvelope(b) == Admit
    ensures Field(a, 48, 4) == Field(b, 48, 4) ==> a[52..56] == b[52..56]
    ensures a[60..128] == b[60..128]
  {
    hide Sealed, Value, Manifest.VerifyManifest;
    SameField(a, b, 52, 4);
  }

  /** A window can be cut down to the part in which the blocks differ. */
  lemma Narrow(a: seq<byte>, b: seq<byte>, lo: nat, hi: nat, lo': nat, hi': nat)
    requires AgreeOutside(a, b, lo, hi) && lo <= lo' <= hi' <= hi
    requires a[lo..lo'] == b[lo..lo'] && a[hi'..hi] == b[hi'..hi]
    ensures AgreeOutside(a, b, lo', hi')
  {
    assert a[..lo'] == a[..lo] + a[lo..lo'] && b[..lo'] == b[..lo] + b[lo..lo'];
    assert a[hi'..] == a[hi'..hi] + a[hi..] && b[hi'..] == b[hi'..hi] + b[hi..];
  }

  /** Every burst of up to four bytes, wherever it lies, makes an accepted intent refused. */
  lemma IntentBurst(a: seq<byte>, b: seq<byte>, lo: nat, hi: nat)
    requires VerifyIntent(a) == Admit && Burst(a, b, lo, hi)
    ensures VerifyIntent(b).Refuse?
  {
    hide Sealed, Value, CheckBinding, CheckSegments, Manifest.VerifyManifest;
    if CheckEnvelope(b) == Admit {
      assert Sealed(a, 56) && Sealed(b, 56);
      IntentNeighbours(a, b);
      if lo < 56 < hi {
        assert a[48..52] == a[..lo][48..52] == b[..lo][48..52] == b[48..52];
        SliceOfSlice(a, 52, 56, lo - 52, 4);
        SliceOfSlice(b, 52, 56, lo - 52, 4);
        Narrow(a, b, lo, hi, 56, hi);
        BurstDetected(a, b, 56, 56, hi);
      } else if lo < 60 < hi {
        SliceOfSlice(a, 60, 128, 0, hi - 60);
        SliceOfSlice(b, 60, 128, 0, hi - 60);
        Narrow(a, b, lo, hi, lo, 60);
        BurstDetected(a, b, 56, lo, 60);
      } else {
        BurstDetected(a, b, 56, lo, hi);
      }
    }
  }

  lemma IntentOddFlips(a: seq<byte>, b: seq<byte>)
    requires VerifyIntent(a) == Admit && |a| == |b| && Parity(FlippedBits(a, b))
    ensures VerifyIntent(b).Refuse?
  {
    hide Sealed, Value, CheckBinding, CheckSegments, Manifest.VerifyManifest, Parity, FlippedBits;
    OddFlipsDetected(a, b, 56);
  }

  /** One, two or three flipped bits of an accepted intent below 2^28 - 4 bytes are noticed. */
  lemma IntentFewFlips(a: seq<byte>, b: seq<byte>)
    requires VerifyIntent(a) == Admit && |a| == |b| && |a| < HIDING_SIZE
    requires 1 <= Count(FlippedBits(a, b)) <= 3
    ensures VerifyIntent(b).Refuse?
  {
    hide Sealed, Value, CheckBinding, CheckSegments, Manifest.VerifyManifest, Count, FlippedBits;
    FewFlipsNoticed(a, b, 56);
  }

  // ---------------------------------------------------------------- Segment headers

  lemma IdentityPrefix(a: seq<byte>, b: seq<byte>)
    requires |a| == |b| == 128
    ensures a[..16] == b[..16] <==>
            && (Field(a, 0, 4), Field(a, 4, 2), Field(a, 6, 2)) == (Field(b, 0, 4), Field(b, 4, 2), Field(b, 6, 2))
            && (Field(a, 8, 2), Field(a, 10, 2), Field(a, 12, 4)) == (Field(b, 8, 2), Field(b, 10, 2), Field(b, 12, 4))
  {
    hide Value;
    SameField(a, b, 8, 2);
    SameField(a, b, 10, 2);
    SameField(a, b, 8, 4);
    ManifestPrefix(a, b);
    assert a[8..12] == a[8..10] + a[10..12] && b[8..12] == b[8..10] + b[10..12];
    assert a[8..12] == b[8..12] ==> a[8..10] == a[8..12][..2] == b[8..12][..2] == b[8..10];
    assert a[8..12] == b[8..12] ==> a[10..12] == a[8..12][2..] == b[8..12][2..] == b[10..12];
  }

  /** What an accepted identity block survives. */
  predicate IdentityUnnoticed(a: seq<byte>, b: seq<byte>) {
    |a| == |b| == 128 && a[..16] == b[..16] && Silent(XorBytes(a, b), IDENTITY_CHECKSUM_OFFSET)
  }

  lemma IdentityUnnoticedIff(a: seq<byte>, b: seq<byte>)
    requires |a| == |b| == 128 && VerifyIdentity(a) == GoodHeader
    ensures VerifyIdentity(b) == GoodHeader <==> IdentityUnnoticed(a, b)
  {
    hide Sealed, Value, Silent, XorBytes;
    UnnoticedIff(a, b, IDENTITY_CHECKSUM_OFFSET);
    IdentityPrefix(a, b);
  }

  /** What an accepted commit slot survives: being wiped, and otherwise what its check does not cover. */
  predicate SlotUnnoticed(a: seq<byte>, b: seq<byte>) {
    && |a| == |b| == 128
    && (|| Unwritten(b)
        || (!Unwritten(a) && a[..4] == b[..4] && Silent(XorBytes(a, b), COMMIT_CHECKSUM_OFFSET))
        || (Unwritten(a) && Field(b, 0, 4) == COMMIT_MAGIC && Sealed(b, COMMIT_CHECKSUM_OFFSET)))
  }

  lemma SlotUnnoticedIff(a: seq<byte>, b: seq<byte>)
    requires |a| == |b| == 128 && VerifySlot(a) == GoodHeader
    ensures VerifySlot(b) == GoodHeader <==> SlotUnnoticed(a, b)
  {
    hide Sealed, Value, Silent, XorBytes, Unwritten;
    if !Unwritten(a) {
      UnnoticedIff(a, b, COMMIT_CHECKSUM_OFFSET);
      SameField(a, b, 0, 4);
      FirstFour(a);
      FirstFour(b);
    }
  }

  lemma FirstFour(a: seq<byte>)
    requires |a| == 128
    ensures a[0..4] == a[..4]
  {
  }

  /** Of all changes that keep the length, an accepted Segment header survives exactly these. */
  lemma HeaderUnnoticedIff(a: seq<byte>, b: seq<byte>)
    requires VerifySegmentHeader(a) == GoodHeader && |a| == |b|
    ensures VerifySegmentHeader(b) == GoodHeader <==>
            && IdentityUnnoticed(a[..128], b[..128])
            && SlotUnnoticed(a[128..256], b[128..256])
            && SlotUnnoticed(a[256..], b[256..])
  {
    hide VerifyIdentity, VerifySlot, IdentityUnnoticed, SlotUnnoticed;
    IdentityUnnoticedIff(a[..128], b[..128]);
    SlotUnnoticedIff(a[128..256], b[128..256]);
    SlotUnnoticedIff(a[256..], b[256..]);
  }

  /** The burst property fails for slots too: this one survives in every accepted written slot. */
  lemma SlotBlindSpot(a: seq<byte>)
    requires |a| == 128 && VerifySlot(a) == GoodHeader && !Unwritten(a)
    ensures var b := XorBytes(a, Pattern(128, 51, [0x4B, 0xA1, 0xB6, 0x63]));
            Burst(a, b, 51, 55) && VerifySlot(b) == GoodHeader && !Unwritten(b)
  {
    hide VerifySlot, Silent, XorBytes, Pattern, Sealed;
    var b := XorBytes(a, Pattern(128, 51, [0x4B, 0xA1, 0xB6, 0x63]));
    PatternIsBurst(a, 51, [0x4B, 0xA1, 0xB6, 0x63]);
    SlotPattern();
    assert a[..4] == a[..51][..4] == b[..51][..4] == b[..4];
    SlotUnnoticedIff(a, b);
  }

  lemma MagicBytes(a: seq<byte>)
    requires |a| == 128 && Field(a, 0, 4) == COMMIT_MAGIC
    ensures a[0] == 0x47 && a[1] == 0x4C
  {
    hide Value;
    FourBytesValue(a[0..4]);
    assert a[0..4][0] == a[0] && a[0..4][1] == a[1];
  }

  lemma UnwrittenBytes(b: seq<byte>)
    requires |b| == 128 && Unwritten(b)
    ensures b[0] == 0 && b[1] == 0
  {
    assert b[..4][0] == b[0] && b[..4][1] == b[1];
  }

  /** One changed byte cannot make a slot look unwritten, or written: no byte of the magic is zero. */
  lemma MagicStays(a: seq<byte>, b: seq<byte>, k: nat)
    requires |a| == |b| == 128 && AgreeOutside(a, b, k, k + 1)
    requires Unwritten(a)
    ensures Field(b, 0, 4) != COMMIT_MAGIC
  {
    hide Value, Unwritten;
    UnwrittenBytes(a);
    assert k > 0 ==> a[0] == a[..k][0] == b[..k][0] == b[0];
    assert k == 0 ==> a[1] == a[1..][0] == b[1..][0] == b[1];
    if Field(b, 0, 4) == COMMIT_MAGIC {
      MagicBytes(b);
    }
  }

  lemma ReverseWindow(a: seq<byte>, b: seq<byte>, lo: nat, hi: nat)
    requires AgreeOutside(a, b, lo, hi)
    ensures AgreeOutside(b, a, lo, hi)
  {
  }

  /** A changed byte of an accepted slot is noticed, except behind the zeros of an unwritten one. */
  lemma SlotByteIff(a: seq<byte>, b: seq<byte>, k: nat)
    requires |a| == |b| == 128 && VerifySlot(a) == GoodHeader
    requires a != b && AgreeOutside(a, b, k, k + 1)
    ensures VerifySlot(b) == GoodHeader <==> Unwritten(a) && k >= 4
  {
    hide Sealed, Value;
    if Unwritten(a) {
      if k >= 4 {
        assert b[..4] == b[..k][..4] == a[..k][..4] == a[..4];
      } else {
        FirstBytesDiffer(a, b, k);
        MagicStays(a, b, k);
      }
    } else {
      BurstDetected(a, b, COMMIT_CHECKSUM_OFFSET, k, k + 1);
      if Unwritten(b) {
        ReverseWindow(a, b, k, k + 1);
        MagicStays(b, a, k);
      }
    }
  }

  lemma FirstBytesDiffer(a: seq<byte>, b: seq<byte>, k: nat)
    requires a != b && AgreeOutside(a, b, k, k + 1) && k < 4 <= |a|
    ensures a[..4] != b[..4]
  {
    BlockOf(a, b, k, 0, 4);
    assert a[0..4] == a[..4] && b[0..4] == b[..4];
  }

  lemma IdentityByte(a: seq<byte>, b: seq<byte>, k: nat)
    requires |a| == |b| == 128
    requires VerifyIdentity(a) == GoodHeader
    requires a != b && AgreeOutside(a, b, k, k + 1)
    ensures VerifyIdentity(b) != GoodHeader
  {
    hide Sealed, Value;
    BurstDetected(a, b, IDENTITY_CHECKSUM_OFFSET, k, k + 1);
  }

  lemma BlockOf(a: seq<byte>, b: seq<byte>, k: nat, lo: nat, hi: nat)
    requires |a| == |b| && lo <= k < hi <= |a|
    requires a != b && AgreeOutside(a, b, k, k + 1)
    ensures a[lo..hi] != b[lo..hi] && AgreeOutside(a[lo..hi], b[lo..hi], k - lo, k - lo + 1)
  {
    assert a[k] != b[k] by {
      ReplacedWindow(a, k, k + 1);
      ReplacedWindow(b, k, k + 1);
    }
    assert a[lo..hi][k - lo] == a[k] && b[lo..hi][k - lo] == b[k];
    assert a[lo..hi][..k - lo] == a[..k][lo..] && b[lo..hi][..k - lo] == b[..k][lo..];
    assert a[lo..hi][k - lo + 1..] == a[k + 1..][..hi - k - 1];
    assert b[lo..hi][k - lo + 1..] == b[k + 1..][..hi - k - 1];
  }

  lemma BlockAgrees(a: seq<byte>, b: seq<byte>, k: nat, lo: nat, hi: nat)
    requires |a| == |b| && lo <= hi <= |a| && !(lo <= k < hi)
    requires AgreeOutside(a, b, k, k + 1)
    ensures a[lo..hi] == b[lo..hi]
  {
    if k < lo {
      SliceOfSlice(a, k + 1, |a|, lo - k - 1, hi - k - 1);
      SliceOfSlice(b, k + 1, |b|, lo - k - 1, hi - k - 1);
    } else {
      assert a[lo..hi] == a[..k][lo..hi] && b[lo..hi] == b[..k][lo..hi];
    }
  }

  /** A changed byte of an accepted header goes unnoticed exactly behind the zeros of an unwritten slot. */
  lemma SegmentByteIff(a: seq<byte>, b: seq<byte>, k: nat)
    requires VerifySegmentHeader(a) == GoodHeader
    requires a != b && AgreeOutside(a, b, k, k + 1)
    ensures VerifySegmentHeader(b) == GoodHeader <==>
            (132 <= k < 256 && Unwritten(a[128..256])) || (260 <= k && Unwritten(a[256..]))
  {
    hide VerifyIdentity, VerifySlot, Unwritten;
    assert a[0..128] == a[..128] && b[0..128] == b[..128] && a[256..384] == a[256..] && b[256..384] == b[256..];
    if k < 128 {
      BlockOf(a, b, k, 0, 128);
      IdentityByte(a[..128], b[..128], k);
    } else {
      BlockAgrees(a, b, k, 0, 128);
      if k < 256 {
        BlockOf(a, b, k, 128, 256);
        BlockAgrees(a, b, k, 256, 384);
        SlotByteIff(a[128..256], b[128..256], k - 128);
      } else {
        BlockAgrees(a, b, k, 128, 256);
        BlockOf(a, b, k, 256, 384);
        SlotByteIff(a[256..], b[256..], k - 256);
      }
    }
  }

  /** Wiping the four magic bytes of either slot of any accepted header is accepted. */
  lemma SlotErasure(a: seq<byte>, slot: nat)
    requires VerifySegmentHeader(a) == GoodHeader && (slot == 128 || slot == 256)
    ensures VerifySegmentHeader(a[..slot] + ZeroBytes(4) + a[slot + 4..]) == GoodHeader
  {
    hide VerifyIdentity, Sealed, Value;
    var b := a[..slot] + ZeroBytes(4) + a[slot + 4..];
    assert b[..128] == a[..128];
    assert b[slot..slot + 4] == ZeroBytes(4);
    SliceOfSlice(b, slot, slot + 128, 0, 4);
    FirstFour(b[slot..slot + 128]);
    if slot == 128 {
      assert b[256..] == a[256..];
    } else {
      assert b[128..256] == a[128..256] && b[256..384] == b[256..];
    }
  }
}
