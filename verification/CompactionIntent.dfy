/** The compaction intent: a sealed block that binds an old Manifest to the next one. */
module CompactionIntent {
  import opened Bytes
  import opened Crc32c
  import opened Checksummed
  import opened Layout
  import opened Manifest
  import opened Replacement
  import opened Sorting

  const INTENT_MAGIC := 0x4359_4C47
  const INTENT_CHECKSUM_OFFSET := 56

  datatype Reason =
    | IntentTooShort
    | IntentHeader
    | IntentSize
    | ReservedNonzero
    | IntentChecksum
    | ManifestExtents
    | BadManifest(fault: Fault)
    | StoreIdMismatch
    | OldGeneration
    | NextGeneration
    | WorkerOutside
    | MetadataChanged
    | EntriesTruncated
    | CountInvalid
    | NotCanonical

  datatype Decision = Admit | Refuse(reason: Reason)

  function OldSize(data: seq<byte>): nat
    requires |data| >= 128
  {
    Field(data, 48, 4)
  }

  function OldPart(data: seq<byte>): seq<byte>
    requires |data| >= 128 && 128 + OldSize(data) <= |data|
  {
    data[128..128 + OldSize(data)]
  }

  function NextPart(data: seq<byte>): seq<byte>
    requires |data| >= 128 && 128 + OldSize(data) <= |data|
  {
    data[128 + OldSize(data)..]
  }

  /** The checks on the intent block itself. */
  function CheckEnvelope(data: seq<byte>): Decision {
    if |data| < 128 then Refuse(IntentTooShort)
    else if (Field(data, 0, 4), Field(data, 4, 2), Field(data, 6, 2), Field(data, 12, 4))
         != (INTENT_MAGIC, 1, 128, 0) then
      Refuse(IntentHeader)
    else if |data| != Field(data, 8, 4) then Refuse(IntentSize)
    else if data[60..128] != ZeroBytes(68) then Refuse(ReservedNonzero)
    else if !Sealed(data, INTENT_CHECKSUM_OFFSET) then Refuse(IntentChecksum)
    else if |data| != 128 + OldSize(data) + Field(data, 52, 4) then Refuse(ManifestExtents)
    else if VerifyManifest(OldPart(data)).Rejected? then Refuse(BadManifest(VerifyManifest(OldPart(data)).fault))
    else if VerifyManifest(NextPart(data)).Rejected? then Refuse(BadManifest(VerifyManifest(NextPart(data)).fault))
    else Admit
  }

  /** The checks on the headers of the two Manifests, given the two generations the intent names. */
  function CheckBinding(storeId: seq<byte>, oldGeneration: nat, nextGeneration: nat,
                        prior: seq<byte>, next: seq<byte>): Decision
    requires |prior| >= 128 && |next| >= 128
  {
    if storeId != prior[16..32] || storeId != next[16..32] then Refuse(StoreIdMismatch)
    else if oldGeneration != Field(prior, 32, 8) then Refuse(OldGeneration)
    else if nextGeneration != Field(next, 32, 8) || nextGeneration != oldGeneration + 1 then Refuse(NextGeneration)
    else if 0 >= Field(prior, 44, 4) then Refuse(WorkerOutside)
    else if (Field(prior, 40, 4), Field(prior, 44, 4), Field(prior, 48, 8), Field(prior, 68, 8), Field(prior, 76, 4))
         != (Field(next, 40, 4), Field(next, 44, 4), Field(next, 48, 8), Field(next, 68, 8), Field(next, 76, 4)) then
      Refuse(MetadataChanged)
    else Admit
  }

  /** The checks on the two segment lists. */
  function CheckSegments(prior: seq<byte>, next: seq<byte>): Decision
    requires |prior| >= 128 && |next| >= 128
  {
    var (n, n') := (Field(prior, 56, 4), Field(next, 56, 4));
    if !EntriesReadable(prior, n) || !EntriesReadable(next, n') then Refuse(EntriesTruncated)
    else
      var (s, s') := (ReadSegments(prior, n), ReadSegments(next, n'));
      var outputs := |s'| - |Retained(s)|;
      if Sources(s) == [] || outputs < 0 || outputs > |Sources(s)| then Refuse(CountInvalid)
      else if s' != NextSegments(s, outputs) then Refuse(NotCanonical)
      else Admit
  }

  function VerifyIntent(data: seq<byte>): Decision {
    var envelope := CheckEnvelope(data);
    if envelope.Refuse? then envelope
    else
      var (prior, next) := (OldPart(data), NextPart(data));
      var binding := CheckBinding(data[16..32], Field(data, 32, 8), Field(data, 40, 8), prior, next);
      if binding.Refuse? then binding else CheckSegments(prior, next)
  }

  // ---------------------------------------------------------------- Accepted intents are steps

  /** The bytes `intent` are accepted and bind `prior` to `next`. */
  ghost predicate Binds(intent: seq<byte>, prior: seq<byte>, next: seq<byte>) {
    && VerifyIntent(intent) == Admit
    && prior == OldPart(intent)
    && next == NextPart(intent)
  }

  lemma BoundManifests(intent: seq<byte>, prior: seq<byte>, next: seq<byte>)
    requires Binds(intent, prior, next)
    ensures Accepts(prior) && Accepts(next)
    ensures |prior| >= 128 && |next| >= 128
    ensures CheckBinding(intent[16..32], Field(intent, 32, 8), Field(intent, 40, 8), prior, next) == Admit
    ensures CheckSegments(prior, next) == Admit
  {
    hide CheckBinding, CheckSegments, Sealed, Value;
  }

  lemma AcceptedIsStep(intent: seq<byte>, prior: seq<byte>, next: seq<byte>)
    requires Binds(intent, prior, next)
    ensures |prior| >= 128 && |next| >= 128
    ensures ReadView(prior).Some? && ReadView(next).Some?
    ensures SealedStep(ReadView(prior).value, ReadView(next).value)
  {
    hide Value, Sources, Retained, NextSegments, ReadSegments, Binds, Accepts, VerifyIntent, OldPart, NextPart;
    BoundManifests(intent, prior, next);
  }

  /** Manifests joined one to the next by accepted intents. */
  ghost predicate IntentChain(manifests: seq<seq<byte>>, intents: seq<seq<byte>>) {
    && |manifests| == |intents| + 1
    && forall i | 0 <= i < |intents| :: Binds(intents[i], manifests[i], manifests[i + 1])
  }

  predicate Readable(manifest: seq<byte>) {
    |manifest| >= 128 && ReadView(manifest).Some?
  }

  function ViewAt(manifest: seq<byte>): View
    requires Readable(manifest)
  {
    ReadView(manifest).value
  }

  function Views(manifests: seq<seq<byte>>): (r: seq<View>)
    requires forall i | 0 <= i < |manifests| :: Readable(manifests[i])
    ensures |r| == |manifests|
    ensures forall i | 0 <= i < |r| :: r[i] == ViewAt(manifests[i])
  {
    seq(|manifests|, i requires 0 <= i < |manifests| => ViewAt(manifests[i]))
  }

  /** A chain of accepted intents is a chain of canonical replacements. */
  lemma ChainOfIntents(manifests: seq<seq<byte>>, intents: seq<seq<byte>>)
    requires IntentChain(manifests, intents) && intents != []
    ensures forall i | 0 <= i < |manifests| :: Readable(manifests[i])
    ensures Chain(Views(manifests))
  {
    hide ReadView, Binds, SealedStep;
    forall i | 0 <= i < |manifests|
      ensures Readable(manifests[i])
    {
      var j := if i < |intents| then i else i - 1;
      AcceptedIsStep(intents[j], manifests[j], manifests[j + 1]);
    }
    var vs := Views(manifests);
    forall i | 0 <= i < |vs| - 1
      ensures SealedStep(vs[i], vs[i + 1])
    {
      AcceptedIsStep(intents[i], manifests[i], manifests[i + 1]);
    }
  }

  /**
   Safety of every chain of accepted intents that starts from distinct segment ids: the generation
   counts the steps, metadata and foreign segments never change, the set only shrinks, the list is in
   id order, and no (id, generation) of a replaced or dropped source is ever seen again.
   */
  lemma IntentChainSafety(manifests: seq<seq<byte>>, intents: seq<seq<byte>>, i: nat, j: nat)
    requires IntentChain(manifests, intents) && i < j < |manifests|
    requires Readable(manifests[0]) ==> DistinctIds(ViewAt(manifests[0]).segments)
    ensures Readable(manifests[i]) && Readable(manifests[j])
    ensures var (v, w) := (ViewAt(manifests[i]), ViewAt(manifests[j]));
            && w.generation == v.generation + (j - i)
            && SameMetadata(v, w)
            && multiset(Retained(w.segments)) == multiset(Retained(v.segments))
            && |w.segments| <= |v.segments|
            && Ordered(w.segments)
            && (forall e | e in v.segments && (e.owner != 0 || e.role != 2) :: e in w.segments)
            && (forall f | f in w.segments && (f.owner != 0 || f.role != 2) :: f in v.segments)
            && (forall e, f | e in v.segments && f in w.segments && e.id == f.id && e.owner == 0 && e.role == 2 ::
                  f == Entry(e.id, e.generation + (j - i), 0, 2))
            && (forall f | f in w.segments :: exists e :: e in v.segments && e.id == f.id)
  {
    hide ViewAt, Readable, SameMetadata, Binds, Chain, Sources, Retained, IsSource;
    ChainOfIntents(manifests, intents);
    var vs := Views(manifests);
    assert vs[0] == ViewAt(manifests[0]) && vs[i] == ViewAt(manifests[i]) && vs[j] == ViewAt(manifests[j]);
    ChainInvariant(vs, i, j);
    ChainOrdered(vs, j);
    forall f | f in vs[j].segments
      ensures forall e | e in Sources(vs[i].segments) && e.id == f.id :: f == Aged(e, j - i)
      ensures exists e :: e in vs[i].segments && e.id == f.id
    {
      NoReappearance(vs, i, j, f);
    }
    OthersStay(vs[i].segments, vs[j].segments);
    OthersStay(vs[j].segments, vs[i].segments);
    SourceMembers(vs[i].segments);
  }

  lemma OthersStay(s: seq<Entry>, t: seq<Entry>)
    requires multiset(Retained(s)) == multiset(Retained(t))
    ensures forall e | e in s && (e.owner != 0 || e.role != 2) :: e in t
  {
    hide Retained, Sources;
    forall e | e in s && (e.owner != 0 || e.role != 2)
      ensures e in t
    {
      SourcesCount(s, e);
      assert e in multiset(s);
      assert e in multiset(Retained(t));
      assert e in Retained(t);
    }
  }

  lemma SourceMembers(s: seq<Entry>)
    ensures forall e | e in s && e.owner == 0 && e.role == 2 :: e in Sources(s)
  {
    hide Retained, Sources;
    forall e | e in s && e.owner == 0 && e.role == 2
      ensures e in Sources(s)
    {
      SourcesCount(s, e);
      assert e in multiset(s);
      assert e in multiset(Sources(s));
    }
  }

  // ---------------------------------------------------------------- Building an intent

  function NextOf(m: Manifest, k: nat): Manifest
    requires k <= |Sources(m.segments)|
  {
    m.(generation := m.generation + 1, segments := NextSegments(m.segments, k))
  }

  function IntentSizeOf(m: Manifest, k: nat): nat
    requires k <= |Sources(m.segments)|
  {
    128 + TotalSize(m) + TotalSize(NextOf(m, k))
  }

  function EnvelopeField(m: Manifest, next: Manifest, i: nat): Slot
    requires i < 10
  {
    if i == 0 then U(0, 4, INTENT_MAGIC)
    else if i == 1 then U(4, 2, 1)
    else if i == 2 then U(6, 2, 128)
    else if i == 3 then U(8, 4, 128 + TotalSize(m) + TotalSize(next))
    else if i == 4 then U(12, 4, 0)
    else if i == 5 then Raw(16, m.storeId)
    else if i == 6 then U(32, 8, m.generation)
    else if i == 7 then U(40, 8, next.generation)
    else if i == 8 then U(48, 4, TotalSize(m))
    else U(52, 4, TotalSize(next))
  }

  function EnvelopeFields(m: Manifest, next: Manifest): seq<Slot> {
    seq(10, i requires 0 <= i < 10 => EnvelopeField(m, next, i))
  }

  lemma EnvelopeFits(m: Manifest, next: Manifest)
    ensures Fits(EnvelopeFields(m, next), 128)
  {
    hide LE, Limit;
  }

  function Envelope(m: Manifest, next: Manifest): (r: seq<byte>)
    ensures |r| == 128
  {
    EnvelopeFits(m, next);
    Image(EnvelopeFields(m, next), ZeroBytes(128))
  }

  function IntentBytes(m: Manifest, next: Manifest): (r: seq<byte>)
    ensures |r| == 128 + TotalSize(m) + TotalSize(next)
  {
    Seal(Envelope(m, next) + ManifestBytes(m) + ManifestBytes(next), INTENT_CHECKSUM_OFFSET)
  }

  /** Both Manifests and the intent header can be packed. */
  predicate Buildable(m: Manifest, next: Manifest) {
    && Encodable(m)
    && Encodable(next)
    && 128 + TotalSize(m) + TotalSize(next) < Limit(4)
  }

  lemma EnvelopeRoom(m: Manifest, next: Manifest)
    requires Encodable(m) && Encodable(next)
    ensures AllRoom(EnvelopeFields(m, next)) <==> Buildable(m, next)
  {
    hide LE, Limit;
    Limits();
    var f := EnvelopeFields(m, next);
    if Buildable(m, next) {
      forall k | 0 <= k < 10
        ensures f[k].room
      {
      }
    } else {
      assert f[3].room == (128 + TotalSize(m) + TotalSize(next) < Limit(4));
    }
  }

  /** Records the replacement of the sources of `m` by `k` outputs. */
  method BuildIntent(m: Manifest, k: nat) returns (r: Option<seq<byte>>)
    requires k <= |Sources(m.segments)|
    ensures r == if Buildable(m, NextOf(m, k)) then Some(IntentBytes(m, NextOf(m, k))) else None
  {
    hide ManifestBytes, Encodable, Limit, EnvelopeFields, Image, Checksum;
    var next := NextOf(m, k);
    var oldBytes := EncodeManifest(m);
    var nextBytes := EncodeManifest(next);
    if oldBytes.None? || nextBytes.None? {
      return None;
    }
    var header := new byte[128](_ => 0);
    assert header[..] == ZeroBytes(128);
    EnvelopeFits(m, next);
    EnvelopeRoom(m, next);
    var ok := Pack(header, EnvelopeFields(m, next));
    if !ok {
      return None;
    }
    var payload := header[..] + oldBytes.value + nextBytes.value;
    var crc := TableChecksum(ZeroedField(payload, INTENT_CHECKSUM_OFFSET));
    r := Some(payload[..INTENT_CHECKSUM_OFFSET] + WordBytes(crc) + payload[INTENT_CHECKSUM_OFFSET + 4..]);
  }

  lemma EnvelopeFormat(m: Manifest, next: Manifest, data: seq<byte>)
    requires Buildable(m, next)
    requires Carries(data, EnvelopeFields(m, next), ZeroBytes(128), 56, 60)
    ensures Field(data, 0, 4) == INTENT_MAGIC
    ensures Field(data, 4, 2) == 1
    ensures Field(data, 6, 2) == 128
    ensures Field(data, 8, 4) == 128 + TotalSize(m) + TotalSize(next)
    ensures Field(data, 12, 4) == 0
    ensures data[16..32] == m.storeId
  {
    hide LE, Value, Limit, ZeroBytes, Carries;
    var (f, z) := (EnvelopeFields(m, next), ZeroBytes(128));
    Limits();
    CarriedNumber(data, f, z, 56, 60, 0, 0, 4, INTENT_MAGIC);
    CarriedNumber(data, f, z, 56, 60, 1, 4, 2, 1);
    CarriedNumber(data, f, z, 56, 60, 2, 6, 2, 128);
    CarriedNumber(data, f, z, 56, 60, 3, 8, 4, 128 + TotalSize(m) + TotalSize(next));
    CarriedNumber(data, f, z, 56, 60, 4, 12, 4, 0);
    CarriedBytes(data, f, z, 56, 60, 5);
  }

  lemma EnvelopeExtents(m: Manifest, next: Manifest, data: seq<byte>)
    requires Buildable(m, next)
    requires Carries(data, EnvelopeFields(m, next), ZeroBytes(128), 56, 60)
    ensures Field(data, 32, 8) == m.generation
    ensures Field(data, 40, 8) == next.generation
    ensures Field(data, 48, 4) == TotalSize(m)
    ensures Field(data, 52, 4) == TotalSize(next)
  {
    hide LE, Value, Limit, ZeroBytes, Carries;
    var (f, z) := (EnvelopeFields(m, next), ZeroBytes(128));
    CarriedNumber(data, f, z, 56, 60, 6, 32, 8, m.generation);
    CarriedNumber(data, f, z, 56, 60, 7, 40, 8, next.generation);
    CarriedNumber(data, f, z, 56, 60, 8, 48, 4, TotalSize(m));
    CarriedNumber(data, f, z, 56, 60, 9, 52, 4, TotalSize(next));
  }

  lemma EnvelopeGap(m: Manifest, next: Manifest, data: seq<byte>)
    requires Carries(data, EnvelopeFields(m, next), ZeroBytes(128), 56, 60)
    ensures data[60..128] == ZeroBytes(68)
  {
    hide LE, Image, EnvelopeField;
    var f := EnvelopeFields(m, next);
    forall i: nat | 60 <= i < 128
      ensures data[i] == 0
    {
      forall s | s in f
        ensures End(s) <= 56
      {
        EnvelopeEnd(m, next, s);
      }
      ImageGap(f, ZeroBytes(128), i);
    }
  }

  lemma EnvelopeEnd(m: Manifest, next: Manifest, s: Slot)
    requires s in EnvelopeFields(m, next)
    ensures End(s) <= 56
  {
    hide LE;
    var i :| 0 <= i < 10 && EnvelopeFields(m, next)[i] == s;
  }

  lemma CarriedIntent(m: Manifest, next: Manifest, data: seq<byte>)
    requires data == IntentBytes(m, next)
    ensures Carries(data, EnvelopeFields(m, next), ZeroBytes(128), 56, 60)
    ensures data[128..128 + TotalSize(m)] == ManifestBytes(m)
    ensures data[128 + TotalSize(m)..] == ManifestBytes(next)
    ensures Sealed(data, INTENT_CHECKSUM_OFFSET)
  {
    hide EnvelopeFields, Image, ManifestBytes, Seal, Sealed;
    EnvelopeFits(m, next);
    var payload := Envelope(m, next) + ManifestBytes(m) + ManifestBytes(next);
    SealIsSealed(payload, INTENT_CHECKSUM_OFFSET);
    assert data[128..128 + TotalSize(m)] == payload[128..128 + TotalSize(m)];
    assert data[128 + TotalSize(m)..] == payload[128 + TotalSize(m)..];
  }

  lemma BuiltEnvelope(m: Manifest, next: Manifest, data: seq<byte>)
    requires Buildable(m, next)
    requires |data| == 128 + TotalSize(m) + TotalSize(next)
    requires Carries(data, EnvelopeFields(m, next), ZeroBytes(128), 56, 60)
    requires data[128..128 + TotalSize(m)] == ManifestBytes(m)
    requires data[128 + TotalSize(m)..] == ManifestBytes(next)
    requires Sealed(data, INTENT_CHECKSUM_OFFSET)
    ensures CheckEnvelope(data) == Admit
    ensures OldSize(data) == TotalSize(m)
    ensures OldPart(data) == ManifestBytes(m) && NextPart(data) == ManifestBytes(next)
    ensures data[16..32] == m.storeId
    ensures Field(data, 32, 8) == m.generation && Field(data, 40, 8) == next.generation
  {
    hide ManifestBytes, Sealed, Value, VerifyManifest, Carries, ZeroBytes, Limit, Encodable;
    EnvelopeFormat(m, next, data);
    EnvelopeExtents(m, next, data);
    EnvelopeGap(m, next, data);
    BuiltManifests(m, next);
  }

  lemma BuiltManifests(m: Manifest, next: Manifest)
    requires Encodable(m) && Encodable(next)
    ensures VerifyManifest(ManifestBytes(m)) == Accepted
    ensures VerifyManifest(ManifestBytes(next)) == Accepted
    ensures ReadView(ManifestBytes(m)) == Some(ViewOf(m))
    ensures ReadView(ManifestBytes(next)) == Some(ViewOf(next))
  {
    hide ManifestBytes, VerifyManifest, ReadView, Encodable;
    ManifestRoundTrip(m);
    ManifestRoundTrip(next);
  }

  lemma BuiltBinding(m: Manifest, next: Manifest)
    requires Encodable(m) && Encodable(next)
    requires next == m.(generation := m.generation + 1, segments := next.segments)
    ensures CheckBinding(m.storeId, m.generation, next.generation, ManifestBytes(m), ManifestBytes(next))
         == if m.workers == 0 then Refuse(WorkerOutside) else Admit
  {
    hide ManifestBytes, Value, VerifyManifest, ReadSegments, Encodable;
    BuiltManifests(m, next);
  }

  lemma BuiltSegments(m: Manifest, k: nat)
    requires k <= |Sources(m.segments)|
    requires Encodable(m) && Encodable(NextOf(m, k))
    ensures CheckSegments(ManifestBytes(m), ManifestBytes(NextOf(m, k)))
         == if Sources(m.segments) == [] then Refuse(CountInvalid) else Admit
  {
    hide ManifestBytes, Value, VerifyManifest, ReadSegments, Encodable, Sources, Retained, NextSegments;
    BuiltManifests(m, NextOf(m, k));
  }

  /** Every built intent is accepted, except for a Manifest without Workers or without sources. */
  lemma BuiltIsAccepted(m: Manifest, k: nat)
    requires k <= |Sources(m.segments)|
    requires Buildable(m, NextOf(m, k))
    ensures VerifyIntent(IntentBytes(m, NextOf(m, k)))
         == if m.workers == 0 then Refuse(WorkerOutside)
            else if Sources(m.segments) == [] then Refuse(CountInvalid)
            else Admit
  {
    hide IntentBytes, CheckEnvelope, CheckBinding, CheckSegments, ManifestBytes, Encodable, Sources, NextSegments;
    hide Carries, Sealed, Value;
    var data := IntentBytes(m, NextOf(m, k));
    CarriedIntent(m, NextOf(m, k), data);
    BuiltEnvelope(m, NextOf(m, k), data);
    BuiltBinding(m, NextOf(m, k));
    BuiltSegments(m, k);
  }

  // ---------------------------------------------------------------- When an intent exists, and only one

  lemma ValueBound(s: seq<byte>)
    ensures Value(s) < Limit(|s|)
  {
    LEOfValue(s);
  }

  /** What is read fits its field. */
  lemma ReadEntryFits(data: seq<byte>, offset: nat)
    requires offset + 18 <= |data|
    ensures EntryFits(ReadEntry(data, offset))
  {
    hide Value, Limit;
    ValueBound(data[offset..offset + 8]);
    ValueBound(data[offset + 8..offset + 12]);
    ValueBound(data[offset + 12..offset + 16]);
    ValueBound(data[offset + 16..offset + 18]);
  }

  lemma NextEncodable(m: Manifest, k: nat)
    requires Encodable(m) && k <= |Sources(m.segments)|
    ensures Encodable(NextOf(m, k)) <==>
            && m.generation + 1 < Limit(8)
            && forall e | e in Sources(m.segments)[..k] :: e.generation + 1 < Limit(4)
  {
    hide Sources, Retained, Limit, Sort;
    var (s, next) := (m.segments, NextOf(m, k));
    var aged := AgedAll(Sources(s)[..k], 1);
    Partition(s);
    assert multiset(next.segments) == multiset(Replaced(s, k));
    forall e | e in next.segments
      ensures e in Retained(s) || e in aged
    {
      assert e in multiset(Replaced(s, k));
    }
    forall e | e in Retained(s) || e in aged
      ensures e in next.segments
    {
      assert e in multiset(next.segments);
    }
    forall i | 0 <= i < k
      ensures EntryFits(aged[i]) <==> Sources(s)[..k][i].generation + 1 < Limit(4)
    {
      assert Sources(s)[..k][i] in Sources(s);
    }
  }

  /**
   The intent that replaces the sources by the first `k` of them, laid out as the fixture lays it out,
   is accepted exactly when there is a Worker and a source, the counters that must advance can, and the
   block fits its size field.
   */
  lemma IntentExistsIff(m: Manifest, k: nat)
    requires Encodable(m) && k <= |Sources(m.segments)|
    ensures (Buildable(m, NextOf(m, k)) && VerifyIntent(IntentBytes(m, NextOf(m, k))) == Admit) <==>
            && m.workers > 0
            && Sources(m.segments) != []
            && m.generation + 1 < Limit(8)
            && (forall e | e in Sources(m.segments)[..k] :: e.generation + 1 < Limit(4))
            && IntentSizeOf(m, k) < Limit(4)
  {
    hide IntentBytes, VerifyIntent, Encodable, Limit, Sources, NextSegments;
    NextEncodable(m, k);
    if Buildable(m, NextOf(m, k)) {
      BuiltIsAccepted(m, k);
    }
  }

  /** Whatever the intent and the next Manifest look like: an old Manifest needs a Worker and a source. */
  lemma NeedsWorkerAndSource(intent: seq<byte>, prior: seq<byte>, next: seq<byte>)
    requires Binds(intent, prior, next)
    ensures Readable(prior) && ViewAt(prior).workers > 0
    ensures exists e :: e in ViewAt(prior).segments && e.owner == 0 && e.role == 2
  {
    hide Binds, ReadView, Sources;
    AcceptedIsStep(intent, prior, next);
    var sources := Sources(ViewAt(prior).segments);
    assert sources[0] in sources;
  }

  /** The old Manifest and the number of entries determine all that is read from the next Manifest. */
  lemma NextIsDetermined(intent: seq<byte>, intent': seq<byte>, prior: seq<byte>, next: seq<byte>, next': seq<byte>)
    requires Binds(intent, prior, next) && Binds(intent', prior, next')
    requires |next| >= 128 && |next'| >= 128 && Field(next, 56, 4) == Field(next', 56, 4)
    ensures ReadView(next).Some? && ReadView(next) == ReadView(next')
  {
    hide Value, Sources, Retained, NextSegments, Binds, ReadEntry;
    AcceptedIsStep(intent, prior, next);
    AcceptedIsStep(intent', prior, next');
  }

  /** A source whose generation is exhausted can be dropped but never replaced. */
  lemma ExhaustedSource(intent: seq<byte>, prior: seq<byte>, next: seq<byte>, i: nat)
    requires Binds(intent, prior, next)
    requires Readable(prior) && Readable(next)
    requires i < |ViewAt(next).segments| - |Retained(ViewAt(prior).segments)|
    ensures i < |Sources(ViewAt(prior).segments)|
    ensures Sources(ViewAt(prior).segments)[i].generation + 1 < Limit(4)
  {
    hide Value, Sources, Retained, Binds, ReadEntry, Limit, Sort;
    AcceptedIsStep(intent, prior, next);
    var (s, s') := (ViewAt(prior).segments, ViewAt(next).segments);
    var k := |s'| - |Retained(s)|;
    var e := Aged(Sources(s)[..k][i], 1);
    assert AgedAll(Sources(s)[..k], 1)[i] == e;
    assert Replaced(s, k)[|Retained(s)| + i] == e;
    assert e in multiset(Replaced(s, k));
    assert e in multiset(s');
    var j :| 0 <= j < |s'| && s'[j] == e;
    ReadEntryFits(next, 128 + 32 * j);
  }
}
