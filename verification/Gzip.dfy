/**
 The canonical gzip member: stored DEFLATE blocks only, so that the bytes depend on nothing but the
 payload.  The decoder is the reading side of section 3.2.4 of RFC 1951 and section 2.3 of RFC 1952.
 */
module Gzip {
  import opened Bytes
  import opened BitStrings

  const BLOCK_BYTES := 65535

  /** `length ^ 0xFFFF` on 16 bits. */
  function Complement(n: nat): nat {
    BitsNat(Xor(NatBits(n, 16), Ones(16)))
  }

  lemma {:induction false} ComplementBits(s: seq<bool>)
    ensures BitsNat(Xor(s, Ones(|s|))) + BitsNat(s) == Pow2(|s|) - 1
  {
    if s != [] {
      assert Xor(s, Ones(|s|))[1..] == Xor(s[1..], Ones(|s| - 1));
      ComplementBits(s[1..]);
    }
  }

  /** The complement of a length is what is missing to 65535. */
  lemma ComplementIs(n: nat)
    requires n <= 65535
    ensures Complement(n) == 65535 - n
  {
    Pow2Sixteen();
    BitsOfNat(n, 16);
    ComplementBits(NatBits(n, 16));
  }

  lemma Pow2Sixteen()
    ensures Pow2(16) == 65536
  {
    assert Pow2(4) == 16;
    assert Pow2(8) == 256;
    assert Pow2(12) == 4096;
  }

  // ---------------------------------------------------------------- Writer

  function Block(final: bool, chunk: seq<byte>): seq<byte> {
    [if final then 1 else 0] + LE(|chunk|, 2) + LE(Complement(|chunk|), 2) + chunk
  }

  function StoredBlocks(payload: seq<byte>): seq<byte>
    decreases |payload|
  {
    if |payload| <= BLOCK_BYTES then Block(true, payload)
    else Block(false, payload[..BLOCK_BYTES]) + StoredBlocks(payload[BLOCK_BYTES..])
  }

  const MEMBER_HEADER: seq<byte> := [0x1F, 0x8B, 0x08, 0, 0, 0, 0, 0, 0, 0xFF]

  /** The gzip member, for a given CRC-32 function. */
  function Member(payload: seq<byte>, crc32: seq<byte> -> nat): seq<byte> {
    MEMBER_HEADER + StoredBlocks(payload) + LE(crc32(payload) % Limit(4), 4) + LE(|payload| % Limit(4), 4)
  }

  /** The script's loop, which grows the output block by block. */
  method CanonicalGzip(payload: seq<byte>, crc32: seq<byte> -> nat) returns (output: seq<byte>)
    ensures output == Member(payload, crc32)
  {
    hide Block, LE, Limit, MEMBER_HEADER;
    output := MEMBER_HEADER;
    var offset := 0;
    var final := false;
    assert payload[0..] == payload;
    while !final
      invariant 0 <= offset <= |payload|
      invariant !final ==> MEMBER_HEADER + StoredBlocks(payload) == output + StoredBlocks(payload[offset..])
      invariant final ==> MEMBER_HEADER + StoredBlocks(payload) == output
      decreases !final, |payload| - offset
    {
      var rest := payload[offset..];
      var chunk := if |rest| <= BLOCK_BYTES then rest else rest[..BLOCK_BYTES];
      offset := offset + |chunk|;
      final := offset >= |payload|;
      ghost var block := Block(final, chunk);
      if !final {
        assert rest[BLOCK_BYTES..] == payload[offset..];
        assert output + (block + StoredBlocks(payload[offset..])) == output + block + StoredBlocks(payload[offset..]);
      }
      output := output + Block(final, chunk);
    }
    output := output + LE(crc32(payload) % Limit(4), 4) + LE(|payload| % Limit(4), 4);
  }

  // ---------------------------------------------------------------- Reader

  /** One stored block: whether it is the last, its data, and what follows it. */
  datatype Stored = Stored(final: bool, data: seq<byte>, rest: seq<byte>)

  /** The first byte's lowest bit is BFINAL and the next two are BTYPE, which must be 00. */
  function ReadBlock(input: seq<byte>): (r: Option<Stored>)
    ensures r.Some? ==> |r.value.rest| < |input|
  {
    if |input| < 5 then None
    else if input[0] / 2 % 4 != 0 then None
    else
      var length := Field(input, 1, 2);
      if Field(input, 3, 2) != Complement(length) || |input| < 5 + length then None
      else Some(Stored(input[0] % 2 == 1, input[5..5 + length], input[5 + length..]))
  }

  /** The data of all blocks up to the first final one, and what follows it. */
  function Inflate(input: seq<byte>): Option<(seq<byte>, seq<byte>)>
    decreases |input|
  {
    match ReadBlock(input)
    case None => None
    case Some(b) =>
      if b.final then Some((b.data, b.rest))
      else match Inflate(b.rest)
        case None => None
        case Some((data, rest)) => Some((b.data + data, rest))
  }

  /** A member without optional header fields, its checksum and its length verified. */
  function Gunzip(input: seq<byte>, crc32: seq<byte> -> nat): Option<seq<byte>> {
    if |input| < 18 || input[0] != 0x1F || input[1] != 0x8B || input[2] != 8 || input[3] != 0 then None
    else match Inflate(input[10..])
      case None => None
      case Some((data, trailer)) =>
        if |trailer| != 8 || Field(trailer, 0, 4) != crc32(data) % Limit(4) || Field(trailer, 4, 4) != |data| % Limit(4)
        then None
        else Some(data)
  }

  // ---------------------------------------------------------------- Round trip

  lemma BlockRead(final: bool, chunk: seq<byte>, rest: seq<byte>)
    requires |chunk| <= BLOCK_BYTES
    ensures ReadBlock(Block(final, chunk) + rest) == Some(Stored(final, chunk, rest))
  {
    hide LE, Value, Limit, Complement;
    var input := Block(final, chunk) + rest;
    Limits();
    ComplementIs(|chunk|);
    ValueOfLE(|chunk|, 2);
    ValueOfLE(Complement(|chunk|), 2);
    assert input[1..3] == LE(|chunk|, 2);
    assert input[3..5] == LE(Complement(|chunk|), 2);
    assert input[5..5 + |chunk|] == chunk;
    assert input[5 + |chunk|..] == rest;
  }

  lemma {:induction false} InflateStored(payload: seq<byte>, rest: seq<byte>)
    ensures Inflate(StoredBlocks(payload) + rest) == Some((payload, rest))
    decreases |payload|
  {
    hide ReadBlock, Block;
    if |payload| <= BLOCK_BYTES {
      BlockRead(true, payload, rest);
    } else {
      var (a, b) := (payload[..BLOCK_BYTES], payload[BLOCK_BYTES..]);
      var later := StoredBlocks(b) + rest;
      assert Block(false, a) + StoredBlocks(b) + rest == Block(false, a) + later;
      BlockRead(false, a, later);
      InflateStored(b, rest);
      assert payload == a + b;
    }
  }

  /** Every payload, empty or of any length, comes back from its member. */
  lemma GunzipMember(payload: seq<byte>, crc32: seq<byte> -> nat)
    ensures Gunzip(Member(payload, crc32), crc32) == Some(payload)
  {
    hide LE, Value, Limit, StoredBlocks, Inflate;
    var (c, n) := (crc32(payload) % Limit(4), |payload| % Limit(4));
    var trailer := LE(c, 4) + LE(n, 4);
    var m := Member(payload, crc32);
    StoredLength(payload);
    assert m == MEMBER_HEADER + (StoredBlocks(payload) + trailer);
    assert m[10..] == StoredBlocks(payload) + trailer;
    InflateStored(payload, trailer);
    ValueOfLE(c, 4);
    ValueOfLE(n, 4);
    assert trailer[0..4] == LE(c, 4) && trailer[4..8] == LE(n, 4);
  }

  /** How many blocks a payload takes: one even when it is empty. */
  function BlockCount(n: nat): nat {
    if n == 0 then 1 else (n + BLOCK_BYTES - 1) / BLOCK_BYTES
  }

  lemma {:induction false} StoredLength(payload: seq<byte>)
    ensures |StoredBlocks(payload)| == |payload| + 5 * BlockCount(|payload|)
    decreases |payload|
  {
    hide LE, Complement;
    if |payload| > BLOCK_BYTES {
      StoredLength(payload[BLOCK_BYTES..]);
    }
  }

  /** The header has no name, no time and no system; the length depends on that of the payload alone. */
  lemma MemberLength(payload: seq<byte>, crc32: seq<byte> -> nat)
    ensures |Member(payload, crc32)|
         == 18 + |payload| + 5 * if payload == [] then 1 else (|payload| + 65534) / 65535
    ensures Member(payload, crc32)[..10] == [0x1F, 0x8B, 8, 0, 0, 0, 0, 0, 0, 0xFF]
  {
    hide LE, StoredBlocks;
    StoredLength(payload);
  }

  /** A stored block at `o`: its final mark, its length, the complement of its length, and its data. */
  predicate HoldsBlock(s: seq<byte>, o: nat, final: bool, chunk: seq<byte>) {
    && o + 5 + |chunk| <= |s|
    && s[o] == (if final then 1 else 0)
    && Field(s, o + 1, 2) == |chunk|
    && Field(s, o + 3, 2) == 65535 - |chunk|
    && s[o + 5..o + 5 + |chunk|] == chunk
  }

  lemma BlockHeld(final: bool, chunk: seq<byte>, rest: seq<byte>)
    requires |chunk| <= 65535
    ensures |Block(final, chunk)| == 5 + |chunk|
    ensures HoldsBlock(Block(final, chunk) + rest, 0, final, chunk)
  {
    hide LE, Value, Limit, Complement;
    var s := Block(final, chunk) + rest;
    Limits();
    ComplementIs(|chunk|);
    ValueOfLE(|chunk|, 2);
    ValueOfLE(Complement(|chunk|), 2);
    assert s[1..3] == LE(|chunk|, 2);
    assert s[3..5] == LE(Complement(|chunk|), 2);
    assert s[5..5 + |chunk|] == chunk;
  }

  lemma HeldBehind(a: seq<byte>, t: seq<byte>, o: nat, final: bool, chunk: seq<byte>)
    requires HoldsBlock(t, o, final, chunk)
    ensures HoldsBlock(a + t, |a| + o, final, chunk)
  {
    hide Value;
    var (s, p) := (a + t, |a| + o);
    assert s[p + 1..p + 3] == t[o + 1..o + 3] && s[p + 3..p + 5] == t[o + 3..o + 5];
    assert s[p + 5..p + 5 + |chunk|] == t[o + 5..o + 5 + |chunk|];
  }

  lemma SliceOfTail(s: seq<byte>, m: nat, i: nat, n: nat)
    requires m + i + n <= |s|
    ensures s[m..][i..i + n] == s[m + i..m + i + n]
  {
  }

  /** Block `k` of a payload: full unless it is the last, and only the last is marked final. */
  lemma {:induction false} BlockAt(payload: seq<byte>, k: nat)
    requires k == 0 || 65535 * k < |payload|
    ensures var lo := 65535 * k;
            var n := if |payload| - lo < 65535 then |payload| - lo else 65535;
            HoldsBlock(StoredBlocks(payload), 65540 * k, lo + n == |payload|, payload[lo..lo + n])
    decreases k
  {
    hide HoldsBlock, Block;
    if |payload| <= 65535 {
      BlockHeld(true, payload, []);
      assert Block(true, payload) + [] == Block(true, payload) && payload[0..|payload|] == payload;
    } else {
      var (a, b) := (payload[..65535], payload[65535..]);
      BlockHeld(false, a, StoredBlocks(b));
      if k > 0 {
        BlockAt(b, k - 1);
        var lo := 65535 * k;
        var n := if |payload| - lo < 65535 then |payload| - lo else 65535;
        SliceOfTail(payload, 65535, lo - 65535, n);
        HeldBehind(Block(false, a), StoredBlocks(b), 65540 * (k - 1), lo + n == |payload|, payload[lo..lo + n]);
      }
    }
  }
}
