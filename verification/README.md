# GlifiStore, verified models

GlifiStore is a worker-partitioned key-value store.  This project models the parts of it whose
correctness rests on arithmetic over bytes, on loops over streams and on two threads sharing a slot
pool, and proves in Dafny what those parts are meant to guarantee.  `dafny verify dfyconfig.toml` checks
everything.

**On-disk formats** (`BitStrings`, `Bytes`, `Crc32c`, `Checksummed`, `Layout`, `Sorting`, `Manifest`,
`Replacement`, `CompactionIntent`, `Record`, `SegmentHeader`, `Formats`, `MachineWord`, `Unnoticed`, `Residue`,
`MachineProduct`, `Mersenne`, `Period`, `FewFlips`, `SilentPatterns`, `Corruption`).  The table-driven CRC-32C
loop is proved equal to polynomial long division.  Encoders, which fill their buffers in place, are proved
against byte images, and the verifiers and readers against the encoders; `Formats` writes both out in literal
bytes and offsets.  Over whole chains of accepted
compaction intents no replaced segment ever reappears.  The changes that accepted Manifests, records
and Segment headers survive are characterised exactly.  A checksum notices every odd number of flipped bits
and every change within four adjacent bytes that does not cross an edge of the stored word; compaction intents
notice those that do as well.  The order of x modulo the polynomial is proved to be 2^31 - 1, so no one, two or
three flipped bits go unnoticed in a block of less than 2^28 - 4 bytes.

**Wire protocol and its clients** (`Wire`, `ResponseReader`, `ClientWork`, `Batching`, `Slices`).  Frames
decode uniquely and canonically.  The buffered reader is a class over `buffer` and `offset`; its result
does not depend on how the network cuts the stream.  What a client awaits is what its
batches hold, unless its quota wraps.

**Publication** (`Publication`, `PublicationSafety`, `PublicationProgress`).  The generation slot pool and
the two threads of the publication benchmark form a state machine in which a step makes at most one access
that the other thread can observe or influence.  The theorems, safety as well as bounded termination under
fair scheduling, hold for every schedule, every pool capacity from 2 to 65535 and every number of records
from one on; termination needs the records to fit the 48-bit epochs of the tokens.

**Tools** (`Gzip`, `SubjectDigest`, `JsonEscape`, `Lifecycle`).  The canonical gzip writer, the
benchmark-subject digest, JSON escaping and the BSD package lifecycle decision.

`Arithmetic` and `Sequences` hold what several of them share.

Bytes are integers from 0 to 255 and 32-bit words are sequences of bits, lowest first; `MachineWord` ties these
to machine words.  A Python exception or a C++ error result is `None` or an error constructor.

## What the proofs found

- A publication that fails is never reported.  The Writer stops admission, sets `writer_done` and waits for
  the Reader.  The Reader loops until it has seen epoch N, which will never be published.
  `FinishIffNoFailure` gives the exact condition and `FailureReachable` a schedule that gets there.
- A burst of up to four bytes across an edge of the stored checksum can survive.  `ManifestBlindSpot`,
  `RecordBlindSpot` and `SlotBlindSpot` give patterns that survive in every block of their size;
  `ManifestBurstIff`, `RecordBurstIff` and `SlotUnnoticedIff` give the exact condition.  Intents are free of this
  (`IntentBurst`).
- A commit slot of a Segment header counts as never written when its first four bytes are zero.  Clearing them
  goes unnoticed (`SlotErasure`), and so does any change behind them in a slot that was never written.
  `HeaderUnnoticedIff` states all that a header survives, `SegmentByteIff` the case of one byte.
- A Worker-0 sealed segment whose generation is at its maximum can be dropped by a compaction intent but
  never replaced (`ExhaustedSource`), and a Manifest with no Worker or no source has no intent at all
  (`NeedsWorkerAndSource`).
- The quota of responses a client awaits is a `std::size_t` product, and the command line accepts any positive
  pipeline depth.  From 2^63 on the product wraps for the read-after-write workload; `QuotaWraps` gives the
  smallest such depth and `AwaitedAgreesIff` the exact condition.
- A client counts good responses, not answered requests: a server that answers one request twice and drops
  another still yields a valid sample (`RepeatedAnswer`, `AnsweredOnceIff`).
- The Manifest verifier compares neither the entry count with the extent nor the ids with each other.
  Distinct ids are therefore a hypothesis about the first Manifest of a chain only.

## Model

| member | source | states |
|---|---|---|
| `Crc32c.TableChecksum` | scripts/generate_format_fixtures.py:38-50 | the 256-entry table loop returns the remainder of schoolbook long division by x^32 + x^28 + ... + 1, for every byte string |
| `Crc32c.BuildTable` | scripts/generate_format_fixtures.py:39-46 | entry i of the table is what eight single shifts make of i, for all 256 entries |
| `Crc32c.ShiftEight` | scripts/generate_format_fixtures.py:42-46 | the inner conditional-XOR loop is eight steps of polynomial division by 1 followed by the word |
| `Crc32c.ChecksumIsLongDivision` | scripts/generate_format_fixtures.py:38-50 | the bit-serial register equals the long-division remainder, so no 32 zero bits have to be appended |
| `Crc32c.FeedIsRemainder` | scripts/generate_format_fixtures.py:43-50 | the register after any bits, from any start value, is the remainder of those bits times x^32 with the start value added in front, for any generator |
| `Crc32c.FeedSplits` | scripts/generate_format_fixtures.py:43-49 | linearity of the n-step shift: leading register bits and the rest do not interact while zeros are shifted in |
| `Crc32c.TableStep` | scripts/generate_format_fixtures.py:48-49 | one table lookup does the work of feeding eight message bits |
| `Crc32c.PolynomialConstant` | scripts/generate_format_fixtures.py:39 | the terms of the Castagnoli polynomial, read as a reflected word, are the constant 0x82F63B78 |
| `Crc32c.FeedBackwards` | scripts/generate_format_fixtures.py:43-49 | the register map is a bijection: equal registers after up to 32 fed bits tie each fed bit to the register bit it met |
| `Crc32c.BurstChangesChecksum` | scripts/generate_format_fixtures.py:38-50 | two messages that differ only within four adjacent bytes have different checksums |
| `Crc32c.ChecksumParity` | scripts/generate_format_fixtures.py:38-50 | the checksum has the bit parity of the data, because x + 1 divides the polynomial |
| `Checksummed.SealIsSealed` | scripts/generate_format_fixtures.py:53-54 | storing the checksum of a block with its checksum field zeroed makes the block pass its own check, whatever the field held |
| `Checksummed.SealedParity` | scripts/generate_format_fixtures.py:53-54 | every sealed block has an even number of one bits |
| `Checksummed.OddFlipsDetected` | scripts/generate_format_fixtures.py:53-54 | no odd number of flipped bits, anywhere in the block, leaves it sealed |
| `Unnoticed.FeedLinear` | scripts/generate_format_fixtures.py:43-50 | the register is linear in start value and data, for any generator |
| `Unnoticed.ChecksumXor` | scripts/generate_format_fixtures.py:38-50 | an error pattern changes the checksum by its own remainder, whatever the data |
| `Unnoticed.UnnoticedIff` | scripts/generate_format_fixtures.py:53-54 | a changed block still passes its check if and only if the error pattern is silent, a condition on the pattern and the length alone |
| `Unnoticed.BurstUnnoticedIff` | scripts/generate_format_fixtures.py:53-54 | a change within four adjacent bytes passes if and only if it crosses an edge of the stored word and its pattern is silent |
| `MachineWord.ShiftIsStep` | scripts/generate_format_fixtures.py:42-46 | one turn of the inner loop on a 32-bit machine word is one division step of the register |
| `Residue.PowerIsProduct` | scripts/generate_format_fixtures.py:43-50 | shifting the register n times multiplies by x^n in the ring of residues modulo the generator, for any generator |
| `Period.OrderIff` | scripts/generate_format_fixtures.py:39-50 | x^n is 1 modulo the Castagnoli polynomial if and only if 2^31 - 1 divides n |
| `FewFlips.TwoFlipsUnnoticedIff` | scripts/generate_format_fixtures.py:53-54 | two flipped bits of a block, in the data or in the stored word, go unnoticed if and only if 2^31 - 1 divides the difference of their weights |
| `FewFlips.WeightDistance` | scripts/generate_format_fixtures.py:53-54 | between two data bits that difference is their distance |
| `FewFlips.FewFlipsNoticed` | scripts/generate_format_fixtures.py:53-54 | no one, two or three flipped bits go unnoticed in a block of less than 2^28 - 4 bytes |
| `SilentPatterns.ManifestPattern` | scripts/generate_format_fixtures.py:53-54 | 84 1A 99 5D at bytes 78 to 81 of 128 is silent for the word at 80 |
| `SilentPatterns.RecordPattern` | scripts/generate_format_fixtures.py:53-54 | 1C 42 11 23 at bytes 22 to 25 of 56 is silent for the word at 20 |
| `SilentPatterns.SlotPattern` | scripts/generate_format_fixtures.py:53-54 | 4B A1 B6 63 at bytes 51 to 54 of 128 is silent for the word at 48 |
| `Bytes.PackInto` | scripts/generate_format_fixtures.py:82-106 | `struct.pack_into` writes its bytes into the buffer in place and leaves every other byte alone |
| `Layout.Pack` | scripts/generate_format_fixtures.py:82-106 | a run of `pack_into` calls fails at the first value that has no room in its field, and otherwise leaves the image of the listed fields over the old contents of the buffer |
| `Layout.ImageField` | scripts/generate_format_fixtures.py:82-106 | in such an image every field reads back as written |
| `Manifest.EncodeManifest` | scripts/generate_format_fixtures.py:72-107 | the in-place encoder yields the sealed Manifest exactly when every value fits its field, and raises otherwise |
| `Manifest.PackBody` | scripts/generate_format_fixtures.py:100-104 | the entry loop lays the 32-byte entries one after the other, or fails exactly when a value of some entry has no room |
| `Manifest.ManifestRoundTrip` | scripts/generate_format_fixtures.py:72-107 | `verify_manifest` accepts every encoded Manifest, and the offsets the intent verifier uses read back store id, generation, routing, counters and all entries |
| `Manifest.SegmentRoundTrip` | scripts/generate_format_fixtures.py:292-299 | entry i read at offset 128 + 32 i is the i-th encoded segment |
| `Replacement.StepClosedForm` | scripts/generate_format_fixtures.py:300-308 | from an id-ordered list, an accepted step leaves the retained segments and ages the first k sources by one generation |
| `Replacement.StepOrders` | scripts/generate_format_fixtures.py:300-308 | the canonical next list is in strictly increasing id order whenever the old ids are distinct |
| `Replacement.ChainInvariant` | scripts/generate_format_fixtures.py:284-308 | between any two Manifests of a chain: one generation per step, unchanged metadata, the same retained segments, never more segments |
| `Replacement.ChainOrdered` | scripts/generate_format_fixtures.py:300-308 | ids stay distinct along a chain, and after one step the list is in id order |
| `Replacement.ChainClosedForm` | scripts/generate_format_fixtures.py:300-308 | after any number of steps the sources are a prefix of the original ones, aged by exactly that number |
| `Replacement.NoReappearance` | scripts/generate_format_fixtures.py:300-308 | no (id, generation) of a replaced or dropped source is seen again: what later carries its id is older by exactly the steps between, and an id that left does not return |
| `Replacement.SourcesAre` | scripts/generate_format_fixtures.py:300-301 | the sources are the entries with owner 0 and role 2, the retained ones all others, both in order |
| `Replacement.CanonicalIff` | scripts/generate_format_fixtures.py:300-308 | a list is the canonical next one if and only if it is in tuple order and holds the retained entries and the first k sources a generation later |
| `Sorting.SortedUnique` | scripts/generate_format_fixtures.py:306 | a list sorted by a total order is determined by its multiset, so the canonical order is unique |
| `CompactionIntent.AcceptedIsStep` | scripts/generate_format_fixtures.py:248-308 | an accepted intent binds two readable Manifests that stand in the canonical replacement relation |
| `CompactionIntent.IntentChainSafety` | scripts/generate_format_fixtures.py:248-308 | over every chain of accepted intent byte strings from distinct ids: the generation counts the steps, metadata and all segments but those of owner 0 and role 2 never change, the set only shrinks, ids are distinct and ordered, and what carries a source id later is that source aged by the steps between |
| `CompactionIntent.BuildIntent` | scripts/generate_format_fixtures.py:126-176 | the generalised builder packs the old Manifest, the canonical next one and the sealed envelope, or raises when a value does not fit |
| `CompactionIntent.BuiltIsAccepted` | scripts/generate_format_fixtures.py:248-308 | every built intent is accepted, except that no Workers and no sources are refused with their own reasons |
| `CompactionIntent.IntentExistsIff` | scripts/generate_format_fixtures.py:267-308 | the built intent is accepted if and only if there is a Worker and a source, the generations that must advance fit their fields and the block fits its size field |
| `CompactionIntent.NeedsWorkerAndSource` | scripts/generate_format_fixtures.py:284-304 | whatever the bytes of the intent and of the next Manifest: an accepted intent has an old Manifest with a Worker and a source |
| `CompactionIntent.NextIsDetermined` | scripts/generate_format_fixtures.py:300-308 | two accepted intents from the same old Manifest with the same entry count carry the same next Manifest contents |
| `CompactionIntent.ExhaustedSource` | scripts/generate_format_fixtures.py:300-308 | an accepted intent never replaces a source whose generation is at its 32-bit maximum |
| `Record.BuildRecord` | scripts/generate_format_fixtures.py:205-232 | filling a zeroed buffer in place yields the sealed record for every key and value that fits |
| `Record.ExtentIsLeast` | scripts/generate_format_fixtures.py:208-209 | the extent is the least multiple of 8 that holds header, key and value |
| `Record.RecordRoundTrip` | scripts/generate_format_fixtures.py:311-319 | every built record passes `verify_record` and gives back sizes, metadata, key, value and zero padding |
| `SegmentHeader.BuildCommitSlot` | scripts/generate_format_fixtures.py:179-183 | the commit slot is the sealed 128-byte image of its six values, or an error when one does not fit |
| `SegmentHeader.HeaderAccepted` | scripts/generate_format_fixtures.py:322-342 | `verify_segment_header` accepts every identity block followed by two commit slots |
| `Formats.ManifestLayout` | scripts/generate_format_fixtures.py:72-107 | an encoded Manifest byte by byte: GLYM, versions, every number at its offset and little-endian, zeros to 128, entries behind |
| `Formats.EntryLayout` | scripts/generate_format_fixtures.py:100-104 | a 32-byte entry: id, generation, owner and role at 0, 8, 12 and 16, zeros behind |
| `Formats.ManifestAcceptedIff` | scripts/generate_format_fixtures.py:235-245 | `verify_manifest` accepts exactly GLYM with the stated versions and sizes, its own length and a seal at 80, and the fault it names is one the bytes have |
| `Formats.RecordLayout` | scripts/generate_format_fixtures.py:205-232 | a built record starts with GLYR, version 1, header size 56 and its own length, and is sealed at 20 |
| `Formats.RecordAcceptedIff` | scripts/generate_format_fixtures.py:311-319 | `verify_record` accepts exactly 8-aligned GLYR bytes of their own stated length with a seal at 20, and the fault it names is one the bytes have |
| `Formats.CommitLayout` | scripts/generate_format_fixtures.py:179-183 | a commit slot byte by byte: GLYC, generation, committed end, state, record count, first and last sequence at their offsets, zeros behind |
| `Formats.IdentityLayout` | scripts/generate_format_fixtures.py:186-202 | an identity block byte by byte: GLYH, its versions, page size 4096, store id, segment id, generation and owner, zeros behind |
| `Formats.SlotAcceptedIff` | scripts/generate_format_fixtures.py:333-342 | a slot is accepted if and only if it starts with four zeros, or with GLYC and is sealed at 48 |
| `Formats.HeaderAcceptedIff` | scripts/generate_format_fixtures.py:322-342 | `verify_segment_header` accepts exactly 384 bytes of GLYH with the stated numbers, a seal at 52 and two accepted slots, and the fault it names is one the bytes have |
| `Formats.EnvelopeAcceptedIff` | scripts/generate_format_fixtures.py:248-273 | the checks on the intent block, written out: GLYC, version 1, Worker 0, its own length, reserved zeros, a seal at 56 and two accepted Manifests that fill the rest |
| `Formats.BindingAcceptedIff` | scripts/generate_format_fixtures.py:274-290 | the checks on the two Manifest headers: one store id, the two generations named, one apart, a Worker, and equal bytes 40 to 55 and 68 to 79 |
| `Formats.SegmentsAcceptedIff` | scripts/generate_format_fixtures.py:292-308 | the checks on the two segment lists: the next one holds, in tuple order, what is not sealed by Worker 0 and the first of the sealed ones a generation later |
| `Formats.IntentAcceptedIff` | scripts/generate_format_fixtures.py:248-308 | `verify_compaction_intent` accepts exactly the byte strings for which all of these hold |
| `Formats.ReasonIsTrue` | scripts/generate_format_fixtures.py:248-308 | a refused intent has the fault that is named |
| `Corruption.ManifestUnnoticedIff` | scripts/generate_format_fixtures.py:235-245 | of all changes that keep the length, an accepted Manifest survives exactly those with an unchanged 16-byte prefix and a silent pattern |
| `Corruption.ManifestBurstIff` | scripts/generate_format_fixtures.py:235-245 | a change within four adjacent bytes of an accepted Manifest is accepted if and only if it crosses an edge of the checksum at 80 and is silent |
| `Corruption.ManifestOddFlips` | scripts/generate_format_fixtures.py:235-245 | no odd number of flipped bits of an accepted Manifest is accepted |
| `Corruption.ManifestFewFlips` | scripts/generate_format_fixtures.py:235-245 | one, two or three flipped bits of an accepted Manifest below 2^28 - 4 bytes are rejected |
| `Corruption.ManifestBlindSpot` | scripts/generate_format_fixtures.py:235-245 | rejection of every burst is false: every accepted 128-byte Manifest survives 84 1A 99 5D at byte 78 |
| `Corruption.RecordUnnoticedIff` | scripts/generate_format_fixtures.py:311-319 | of all changes that keep the length, an accepted record survives exactly those with an unchanged 12-byte prefix and a silent pattern |
| `Corruption.RecordBurstIff` | scripts/generate_format_fixtures.py:311-319 | a change within four adjacent bytes of an accepted record is accepted if and only if it crosses an edge of the checksum at 20 and is silent |
| `Corruption.RecordOddFlips` | scripts/generate_format_fixtures.py:311-319 | no odd number of flipped bits of an accepted record is accepted |
| `Corruption.RecordFewFlips` | scripts/generate_format_fixtures.py:311-319 | one, two or three flipped bits of an accepted record below 2^28 - 4 bytes are rejected |
| `Corruption.RecordBlindSpot` | scripts/generate_format_fixtures.py:311-319 | rejection of every burst is false: every accepted 56-byte record survives 1C 42 11 23 at byte 22 |
| `Corruption.IntentBurst` | scripts/generate_format_fixtures.py:248-271 | every change within four adjacent bytes of an accepted intent is refused, wherever it lies: the neighbours of the checksum are fixed by the extents and the reserved zeros |
| `Corruption.IntentOddFlips` | scripts/generate_format_fixtures.py:248-265 | every odd number of flipped bits of an accepted intent is refused |
| `Corruption.IntentFewFlips` | scripts/generate_format_fixtures.py:248-265 | one, two or three flipped bits of an accepted intent below 2^28 - 4 bytes are refused |
| `Corruption.HeaderUnnoticedIff` | scripts/generate_format_fixtures.py:322-342 | of all changes that keep the length, exactly those survive that are silent in the identity block and, in each slot, wipe the magic, are silent, or write a sealed slot over an unwritten one |
| `Corruption.SlotUnnoticedIff` | scripts/generate_format_fixtures.py:333-342 | the condition for one slot: an accepted slot, written or not, stays accepted if and only if it holds |
| `Corruption.SlotBlindSpot` | scripts/generate_format_fixtures.py:333-342 | every accepted written slot survives 4B A1 B6 63 at byte 51 and stays written |
| `Corruption.SlotByteIff` | scripts/generate_format_fixtures.py:333-342 | one changed byte of an accepted slot is accepted if and only if the slot is unwritten and the byte lies behind its four zeros |
| `Corruption.SegmentByteIff` | scripts/generate_format_fixtures.py:322-342 | one changed byte of any accepted Segment header is accepted if and only if it lies behind the four zeros of an unwritten slot |
| `Corruption.SlotErasure` | scripts/generate_format_fixtures.py:333-342 | zeroing the four magic bytes of either slot of any accepted header is accepted |
| `Wire.RequestDecodes` | src/server/protocol.cpp:173-217 | the server decoder returns every sendable request from its encoding |
| `Wire.ResponseDecodes` | src/server/protocol.cpp:219-255 | the client decoder returns every valid response from its encoding |
| `Wire.RequestAcceptedIff` | src/server/protocol.cpp:111-217 | of all requests that can be packed the decoder returns exactly those within 2 MiB whose opcode is 1 to 10, that have a key only and always for opcodes 3, 4, 5 and 10, a value only for 2 and 4, an expiry only for 4, and a target only and always for 6 |
| `Wire.ResponseAcceptedIff` | src/server/protocol.cpp:219-255 | of all responses that can be packed the decoder returns exactly those with a status up to 8 within 2 MiB |
| `Wire.RequestCanonical` | src/server/protocol.cpp:111-217 | the request decoder accepts no bytes but the encoding of what it returns |
| `Wire.ResponseCanonical` | src/server/protocol.cpp:219-255 | the response decoder accepts no bytes but the encoding of what it returns |
| `Wire.RequestInjective` | scripts/generate_wire_fixtures.py:27-50 | different request field tuples give different frames |
| `Wire.ResponseInjective` | scripts/generate_wire_fixtures.py:53-74 | different response field tuples give different frames |
| `Wire.SplitFrames` | scripts/generate_wire_fixtures.py:101-112 | the offset loop computes the recursive split, and fails exactly when that does |
| `Wire.SplitSound` | scripts/generate_wire_fixtures.py:101-112 | whenever splitting succeeds, the frames concatenate to the input and each announces its own length |
| `Wire.SplitComplete` | scripts/generate_wire_fixtures.py:101-112 | concatenated frames split into exactly those frames |
| `Wire.FramesUnique` | scripts/generate_wire_fixtures.py:101-112 | a stream is a concatenation of frames in at most one way |
| `Wire.PrefixFree` | scripts/generate_wire_fixtures.py:27-74 | no frame is a proper prefix of another |
| `Wire.RequestStreamSplits` | scripts/generate_wire_fixtures.py:101-112 | a stream of encoded requests splits into exactly those frames |
| `Wire.ResponseStreamSplits` | scripts/generate_wire_fixtures.py:101-112 | a stream of encoded responses splits into exactly those frames |
| `ResponseReader.Reader.Receive` | benchmarks/server_benchmark.cpp:747-784 | the result depends only on unread buffer plus stream, not on how `recv` cuts it; buffer plus stream afterwards is what follows the consumed frame, and every error leaves it intact |
| `ResponseReader.Reader.ReceiveMany` | benchmarks/server_benchmark.cpp:741-789 | successive calls return the first responses of buffer plus stream, in order |
| `ResponseReader.TakeStream` | benchmarks/server_benchmark.cpp:741-789 | a stream of encoded responses is taken apart into exactly those responses |
| `ResponseReader.HeadStable` | benchmarks/server_benchmark.cpp:749-766 | bytes that arrive later never change a decision already possible |
| `ClientWork.PrepareClient` | benchmarks/server_benchmark.cpp:812-863 | the pending/flush loop gives one client its operations in consecutive batches of the pipeline depth, or nothing when a request cannot be encoded |
| `ClientWork.PrepareWork` | benchmarks/server_benchmark.cpp:808-865 | every client gets its work, or all work is withheld because some request of some client cannot be encoded |
| `ClientWork.BatchFrames` | benchmarks/server_benchmark.cpp:808-865 | every frame of every prepared batch, split and decoded: a PUT of the key and value of its operation or a GET of its key, without expiry or target, where read-after-write writes every operation, GET-only none and the mixed workloads every 100th, 20th or 10th |
| `ClientWork.BatchSizes` | benchmarks/server_benchmark.cpp:852-861 | every batch but the last holds the frames of as many operations as the depth, and depth 0 gives one batch |
| `ClientWork.PreparedIff` | benchmarks/server_benchmark.cpp:816-850 | a client gets its work if and only if no key is empty and no frame exceeds 2 MiB |
| `ClientWork.AwaitedAgreesIff` | benchmarks/server_benchmark.cpp:887-934 | the responses awaited after each batch are exactly the frames in that batch, and together all of them, if and only if the quota, a `std::size_t` product, does not wrap or still covers the client |
| `ClientWork.QuotaWraps` | benchmarks/server_benchmark.cpp:896-897 | a depth of 2^63 fails: one PUT and its GET are sent and nothing is awaited |
| `ClientWork.RunClient` | benchmarks/server_benchmark.cpp:867-936 | the client reports all awaited hits, up to the wrapped quota, if every batch can be sent and the stream serves that many good responses, and none otherwise, however `recv` cuts the stream |
| `ClientWork.ServeIff` | benchmarks/server_benchmark.cpp:898-932 | a stream of responses is served if and only if each has status 0 and names an operation and each odd id carries the value of its operation |
| `ClientWork.AllAnswered` | benchmarks/server_benchmark.cpp:867-936 | prepared work answered well is served as far as it is awaited, in whatever order the answers come, and completely if and only if the quota covers it |
| `ClientWork.OneOwner` | benchmarks/server_benchmark.cpp:812-815 | an operation belongs to the client of its residue and to no other |
| `ClientWork.OpsFromIncreasing` | benchmarks/server_benchmark.cpp:815 | no client does an operation twice |
| `ClientWork.TotalOperations` | benchmarks/server_benchmark.cpp:812-815 | the clients together do every operation once |
| `ClientWork.SampleValidIff` | benchmarks/server_benchmark.cpp:1106-1143 | a sample is valid if and only if the server stopped cleanly and every client hit all its frames, its quota covering them |
| `ClientWork.AnsweredOnceIff` | benchmarks/server_benchmark.cpp:898-932 | as many answers as requests answer each request once if and only if no response id is repeated and each was asked for |
| `ClientWork.RepeatedAnswer` | benchmarks/server_benchmark.cpp:898-932 | the client checks neither: one good response sent again and again gives all hits |
| `ClientWork.RequestIds` | benchmarks/server_benchmark.cpp:816-850 | request ids are globally distinct, name their operation, and are odd exactly for GET |
| `Batching.SeedBatches` | benchmarks/server_benchmark.cpp:938-993 | all frames are sent once and in order, in batches of at most 64 frames and at most 2 MiB or a single frame, each as full as it may be |
| `Batching.GreedyUnique` | benchmarks/server_benchmark.cpp:943-990 | only one way of cutting the frames has that property, so the loop computes it |
| `Batching.GroupByWorker` | benchmarks/server_benchmark.cpp:1198-1222 | every batch goes to one Worker in whole PUT/GET pairs within the depth, each Worker gets all its operations exactly once and in order, and all its batches but the last are full |
| `Gzip.CanonicalGzip` | scripts/normalize-ruby-gem.py:105-123 | the growing-buffer loop yields header, stored blocks and trailer |
| `Gzip.GunzipMember` | scripts/normalize-ruby-gem.py:105-123 | a gzip reader with a stored-block decoder (section 3.2.4 of RFC 1951) returns every payload, empty and exact multiples of 65535 included |
| `Gzip.InflateStored` | scripts/normalize-ruby-gem.py:109-120 | the decoder stops behind the last block: only that one is final and every NLEN complements its LEN |
| `Gzip.ComplementIs` | scripts/normalize-ruby-gem.py:117 | `length ^ 0xFFFF` is 65535 - length |
| `Gzip.MemberLength` | scripts/normalize-ruby-gem.py:105-123 | the member takes 18 + n + 5 max(1, ceil(n / 65535)) bytes and starts with the ten fixed header bytes |
| `Gzip.BlockAt` | scripts/normalize-ruby-gem.py:109-120 | block k starts at 65540 k: 1 for the last block and 0 for others, its length, the complement, and bytes 65535 k on of the payload |
| `SubjectDigest.SubjectStream` | engineering/tools/benchmark_subject_digest.py:51-84 | the loops hash exactly the files in path order, and raise exactly when a path is invalid, missing or repeated |
| `SubjectDigest.StreamReads` | engineering/tools/benchmark_subject_digest.py:51-84 | read back, the stream is the domain string, a zero byte and every named file once, in strictly increasing byte order of the normal paths, with 1 exactly for an executable one and its contents |
| `SubjectDigest.LteIs` | engineering/tools/benchmark_subject_digest.py:71 | the order of paths is that of byte strings: a prefix first, otherwise the first differing byte decides |
| `SubjectDigest.NormalizeIs` | engineering/tools/benchmark_subject_digest.py:55-61 | a path is refused if and only if it begins with a slash, has a component `..` or has nothing but empty components and single dots; otherwise the remaining components are joined by single slashes |
| `SubjectDigest.PathIsJoined` | engineering/tools/benchmark_subject_digest.py:55 | every path is such a list of slash-free components |
| `SubjectDigest.NormalizeStable` | engineering/tools/benchmark_subject_digest.py:55-61 | a normal path is its own normal form |
| `SubjectDigest.SortPaths` | engineering/tools/benchmark_subject_digest.py:71 | the array of paths is rearranged in place into byte-string order |
| `SubjectDigest.OrderIrrelevant` | engineering/tools/benchmark_subject_digest.py:51-84 | any permutation of the paths is accepted alike and hashes the same stream |
| `SubjectDigest.FilePrefix` | engineering/tools/benchmark_subject_digest.py:76-83 | length prefixes make one file record decodable whatever follows it |
| `SubjectDigest.StreamDetermines` | engineering/tools/benchmark_subject_digest.py:51-84 | equal streams mean equal paths, executable bits and payloads |
| `Publication.TokenRoundTrip` | src/experimental/generation_slot_pool.hpp:403-414 | a publication token gives back its epoch and slot, is never zero and fits 64 bits |
| `PublicationSafety.AlwaysInv` | benchmarks/generation_publication_benchmark.cpp:160-260 | the pool, Writer and Reader invariant holds after every schedule |
| `PublicationSafety.MemorySafety` | src/experimental/generation_slot_pool.hpp:232-274 | in no schedule does the Reader use a reclaimed generation, see its epoch checks fail or miss the key in a generation that had it put |
| `PublicationSafety.ReclaimBelowSafe` | src/experimental/generation_slot_pool.hpp:321-339 | no step empties a slot at or above the Reader's safe epoch |
| `PublicationSafety.EpochAccounting` | benchmarks/generation_publication_benchmark.cpp:174-218 | recorded skips plus observed changes equal the epoch reached, N at exit |
| `PublicationSafety.GetsWhenAsked` | benchmarks/generation_publication_benchmark.cpp:191-207 | in every schedule a turn of the Reader loop ends with the GET if one is asked for, and with the epoch checks otherwise |
| `PublicationSafety.EpochsNeverDecrease` | benchmarks/generation_publication_benchmark.cpp:178-190 | adopted epochs and the safe epoch never decrease along a run |
| `PublicationSafety.DoneMeansPublished` | benchmarks/generation_publication_benchmark.cpp:220-251 | without a failed publication `writer_done` implies that all N epochs are published and admission is closed |
| `PublicationSafety.ShutdownOrder` | benchmarks/generation_publication_benchmark.cpp:249-259 | shutdown is attempted only after admission stopped, with the Reader quiescent and never adopting again |
| `PublicationSafety.Outcome` | src/experimental/generation_slot_pool.hpp:309-319 | a Writer that returns has succeeded: exactly the last generation is left, every other slot is empty |
| `PublicationSafety.FailureNeverReturns` | benchmarks/generation_publication_benchmark.cpp:236-255 | after a failed publication neither thread ever returns |
| `PublicationProgress.FairRunFinishes` | benchmarks/generation_publication_benchmark.cpp:160-260 | every failure-free schedule of capacity + 38 + (N + 1)(20 capacity + 130) rounds, each with a step of either thread in any number and order, ends both threads |
| `PublicationProgress.StepAdvances` | benchmarks/generation_publication_benchmark.cpp:174-260 | at any time one thread is helpful: its step lowers a rank, and a step of the other thread neither raises the rank nor changes which one is helpful without lowering it |
| `PublicationProgress.CanFinish` | benchmarks/generation_publication_benchmark.cpp:160-260 | from every live state some continuation ends both threads |
| `PublicationProgress.FinishIffNoFailure` | benchmarks/generation_publication_benchmark.cpp:160-260 | both threads can still return if and only if no publication has failed so far |
| `PublicationProgress.FailureReachable` | benchmarks/generation_publication_benchmark.cpp:236-243 | a concrete five-step schedule in which the first publication fails |
| `Slices.Ends` | benchmarks/paired_reactor_benchmark.cpp:264-265 | the first slice starts at 0 and the last one ends at the number of operations |
| `Slices.Balanced` | benchmarks/paired_reactor_benchmark.cpp:264-265 | slice i begins at floor(ops i / n), and every slice has floor(ops / n) operations or one more |
| `Slices.OwnSlice` | benchmarks/paired_reactor_benchmark.cpp:264-265 | each operation lies in exactly one slice |
| `Slices.ClientBatches` | benchmarks/paired_reactor_benchmark.cpp:271-273 | the batch loop covers the slice contiguously with full batches, the last one possibly shorter, in ceil(size / pipeline) batches |
| `Slices.ReservationSuffices` | benchmarks/paired_reactor_benchmark.cpp:312 | all clients together make at most ceil(ops / pipeline) + n batches |
| `JsonEscape.JsonEscapeText` | tools/verify_store.cpp:98-131 | the character loop computes the byte-wise escaping |
| `JsonEscape.EscapedAnywhere` | tools/verify_store.cpp:98-131 | in any text each byte is written as itself, as one of the five two-character escapes, or as \u00 and two lower-case hex digits |
| `JsonEscape.EscapeRoundTrip` | tools/verify_store.cpp:98-131 | a reader of JSON strings (section 7 of RFC 8259) undoes the escaping of every byte string |
| `JsonEscape.QuoteIsIntended` | tools/verify_store.cpp:98-131 | a reader takes the quote written after the escaped text, and no earlier one, as the end of the field |
| `JsonEscape.NoControlBytes` | tools/verify_store.cpp:98-131 | no control byte is left in the output |
| `Lifecycle.NativeStatuses` | engineering/tools/bsd_package_lifecycle.py:180-230 | for every step table: in a run that was not skipped PASS goes exactly to checks whose steps all retained their marker, FAIL exactly to the first unproven one, NOT_RUN to the others; in a skipped run all are BLOCKED |
| `Lifecycle.Decide` | engineering/tools/bsd_package_lifecycle.py:255-411 | every check gets a status, and the verdict is OPEN_GATE if no evidence speaks against the run and FAIL otherwise, so never PASS; the upgrade and the seal admission get each status exactly in the stated cases |
| `Lifecycle.FailedIff` | engineering/tools/bsd_package_lifecycle.py:411 | some status is FAIL if and only if a log, the port, the seal, the upgrade or a native marker is missing or bad |
| `Lifecycle.StateIsProven` | engineering/tools/bsd_package_lifecycle.py:232-252 | a state is reached if and only if every marker it stands for, named one by one, was retained by a native run, so a skipped run never exceeds STRUCTURAL |
| `Lifecycle.NativeIff` | engineering/tools/bsd_package_lifecycle.py:72-82 | which step counts for which check and in which order: PASS if and only if all markers of the check were retained, FAIL if and only if it is the first in order that lacks one |
| `Lifecycle.PassMonotone` | engineering/tools/bsd_package_lifecycle.py:232-252 | more passed checks never lower the state |
| `Lifecycle.StateMonotone` | engineering/tools/bsd_package_lifecycle.py:180-252 | more retained markers never lower the state of the whole decision |

## Left out

- The Store, Index, cold I/O, Segment files, Worker lanes, client library and server event loops.
- C++ memory orders: atomic accesses are sequentially consistent steps; statistics counters and the
  high-water mark are not part of the state.
- `minimum_borrowed_epoch` of `adopt` (the benchmark never passes it), the move operations of a reservation,
  the fail-closed hook and the directly built generation pool.
- The generation graph behind a slot: a generation is its epoch, the sequence it is visible through and the
  record of the benchmark's one key.
- Sockets, files, clocks, threads and latency samples: `recv` is a sequence of chunks, interruptions and
  failures, and the file tree of the subject digest is a map.
- SHA-256, and CRC-32 of the gzip trailer: both are parameters or left to the caller.
- Store ids of another length than 16 bytes: `StoreId` is a 16-byte type, while Python's slice assignment would
  change the length of the header.
- Python's sorting algorithm: the paths are sorted in place by insertion, with the same result.
- `size_t` wrap-around in `ops * (i + 1)` of the slices, and in request ids and frame totals, which `Covers` excludes:
  no vector holds 2^63 keys.
- JSON readers are modelled on the basic plane; surrogate pairs in `\u` escapes, which the writer never emits,
  are refused.
- The detail texts, log references and matrix checks of the BSD lifecycle, and its preflight.
- Canonical tar layout, gem metadata, hex files, the fixed fixture corpora, command lines, reports and git.
