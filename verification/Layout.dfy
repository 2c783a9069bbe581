/**
 Fixed layouts: the fields that `struct.pack_into` writes into a zeroed buffer, in offset order, and
 how they are read back.
 */
module Layout {
  import opened Bytes

  /** The bytes of a field, and whether its value has room in them. */
  datatype Slot = Slot(offset: nat, bytes: seq<byte>, room: bool)

  function End(s: Slot): nat {
    s.offset + |s.bytes|
  }

  /** An unsigned little-endian field. */
  function U(offset: nat, width: nat, n: nat): (s: Slot)
    ensures s.offset == offset && |s.bytes| == width && s.bytes == LE(n, width)
    ensures End(s) == offset + width
    ensures s.room <==> n < Limit(width)
  {
    Slot(offset, LE(n, width), n < Limit(width))
  }

  function Raw(offset: nat, bytes: seq<byte>): Slot {
    Slot(offset, bytes, true)
  }

  predicate AllRoom(fields: seq<Slot>) {
    forall i | 0 <= i < |fields| :: fields[i].room
  }

  /** The fields do not overlap, are listed in order and stay inside the buffer. */
  predicate Fits(fields: seq<Slot>, size: nat) {
    && (forall i | 0 <= i < |fields| - 1 :: End(fields[i]) <= fields[i + 1].offset)
    && (fields != [] ==> End(fields[|fields| - 1]) <= size)
  }

  lemma {:induction false} FitsOrder(fields: seq<Slot>, size: nat, i: nat, j: nat)
    requires Fits(fields, size)
    requires i < j < |fields|
    ensures End(fields[i]) <= fields[j].offset
  {
    if i + 1 < j {
      FitsOrder(fields, size, i, j - 1);
    }
  }

  lemma FitsSize(fields: seq<Slot>, size: nat, i: nat)
    requires Fits(fields, size)
    requires i < |fields|
    ensures End(fields[i]) <= size
  {
    if i < |fields| - 1 {
      FitsOrder(fields, size, i, |fields| - 1);
    }
  }

  lemma FitsPrefix(fields: seq<Slot>, size: nat, n: nat)
    requires Fits(fields, size)
    requires n <= |fields|
    ensures Fits(fields[..n], size)
  {
    if n > 0 {
      FitsSize(fields, size, n - 1);
    }
  }

  function Put(data: seq<byte>, s: Slot): (r: seq<byte>)
    requires End(s) <= |data|
    ensures |r| == |data|
    ensures forall i | 0 <= i < |data| ::
              r[i] == if s.offset <= i < End(s) then s.bytes[i - s.offset] else data[i]
  {
    data[..s.offset] + s.bytes + data[End(s)..]
  }

  /** The buffer after all fields are written. */
  function Image(fields: seq<Slot>, base: seq<byte>): (r: seq<byte>)
    requires Fits(fields, |base|)
    ensures |r| == |base|
  {
    if fields == [] then base
    else
      FitsPrefix(fields, |base|, |fields| - 1);
      Put(Image(fields[..|fields| - 1], base), fields[|fields| - 1])
  }

  lemma PutSame(data: seq<byte>, s: Slot)
    requires End(s) <= |data|
    ensures Put(data, s)[s.offset..End(s)] == s.bytes
  {
  }

  lemma PutOther(data: seq<byte>, s: Slot, lo: nat, hi: nat)
    requires End(s) <= |data|
    requires lo <= hi <= |data| && (hi <= s.offset || End(s) <= lo)
    ensures Put(data, s)[lo..hi] == data[lo..hi]
  {
  }

  lemma ImageNone(base: seq<byte>)
    ensures Image([], base) == base
  {
  }

  lemma ImageLast(fields: seq<Slot>, base: seq<byte>)
    requires Fits(fields, |base|) && fields != []
    ensures Fits(fields[..|fields| - 1], |base|)
    ensures End(fields[|fields| - 1]) <= |base|
    ensures Image(fields, base) == Put(Image(fields[..|fields| - 1], base), fields[|fields| - 1])
  {
    FitsPrefix(fields, |base|, |fields| - 1);
  }

  lemma ImageStep(fields: seq<Slot>, base: seq<byte>, k: nat)
    requires Fits(fields, |base|)
    requires k < |fields|
    ensures Fits(fields[..k], |base|) && Fits(fields[..k + 1], |base|) && End(fields[k]) <= |base|
    ensures Image(fields[..k + 1], base) == Put(Image(fields[..k], base), fields[k])
  {
    hide Image, Put, Fits;
    FitsPrefix(fields, |base|, k);
    FitsPrefix(fields, |base|, k + 1);
    FitsSize(fields, |base|, k);
    ImageLast(fields[..k + 1], base);
    assert fields[..k + 1][..k] == fields[..k];
  }

  /** Each field is found where it was written. */
  lemma {:induction false} ImageField(fields: seq<Slot>, base: seq<byte>, k: nat)
    requires Fits(fields, |base|)
    requires k < |fields|
    ensures End(fields[k]) <= |base|
    ensures Image(fields, base)[fields[k].offset..End(fields[k])] == fields[k].bytes
  {
    hide Image, Put, Fits;
    var init := fields[..|fields| - 1];
    FitsSize(fields, |base|, k);
    ImageLast(fields, base);
    if k < |fields| - 1 {
      ImageField(init, base, k);
      FitsOrder(fields, |base|, k, |fields| - 1);
      PutOther(Image(init, base), fields[|fields| - 1], fields[k].offset, End(fields[k]));
    } else {
      PutSame(Image(init, base), fields[k]);
    }
  }

  /** Bytes that no field covers keep their base value. */
  lemma {:induction false} ImageGap(fields: seq<Slot>, base: seq<byte>, i: nat)
    requires Fits(fields, |base|)
    requires i < |base|
    requires forall s | s in fields :: !(s.offset <= i < End(s))
    ensures Image(fields, base)[i] == base[i]
  {
    if fields != [] {
      FitsPrefix(fields, |base|, |fields| - 1);
      ImageGap(fields[..|fields| - 1], base, i);
    }
  }

  /** `data` carries the image of `fields`, except possibly in [lo, hi). */
  ghost predicate Carries(data: seq<byte>, fields: seq<Slot>, base: seq<byte>, lo: nat, hi: nat) {
    && Fits(fields, |base|)
    && |base| <= |data|
    && forall i | 0 <= i < |base| && !(lo <= i < hi) :: data[i] == Image(fields, base)[i]
  }

  lemma CarriedBytes(data: seq<byte>, fields: seq<Slot>, base: seq<byte>, lo: nat, hi: nat, k: nat)
    requires Carries(data, fields, base, lo, hi)
    requires k < |fields|
    requires End(fields[k]) <= lo || hi <= fields[k].offset
    ensures End(fields[k]) <= |base|
    ensures data[fields[k].offset..End(fields[k])] == fields[k].bytes
  {
    ImageField(fields, base, k);
    assert data[fields[k].offset..End(fields[k])] == Image(fields, base)[fields[k].offset..End(fields[k])];
  }

  /** Reading a carried number gives back the number. */
  lemma CarriedNumber(data: seq<byte>, fields: seq<Slot>, base: seq<byte>, lo: nat, hi: nat, k: nat,
                      offset: nat, width: nat, n: nat)
    requires Carries(data, fields, base, lo, hi)
    requires k < |fields|
    requires fields[k] == U(offset, width, n) && n < Limit(width)
    requires offset + width <= lo || hi <= offset
    ensures offset + width <= |base|
    ensures Field(data, offset, width) == n
  {
    CarriedBytes(data, fields, base, lo, hi, k);
    ValueOfLE(n, width);
  }

  /** The fields leave no gap. */
  predicate Tiles(fields: seq<Slot>, size: nat) {
    && fields != []
    && fields[0].offset == 0
    && (forall i | 0 <= i < |fields| - 1 :: End(fields[i]) == fields[i + 1].offset)
    && End(fields[|fields| - 1]) == size
  }

  lemma {:induction false} TileAt(fields: seq<Slot>, size: nat, i: nat, n: nat) returns (k: nat)
    requires Tiles(fields, size)
    requires n < |fields| && i < End(fields[n])
    ensures k < |fields| && fields[k].offset <= i < End(fields[k])
    decreases n
  {
    if fields[n].offset <= i {
      k := n;
    } else {
      k := TileAt(fields, size, i, n - 1);
    }
  }

  /** A gapless layout is determined by its fields. */
  lemma TiledImage(fields: seq<Slot>, base: seq<byte>, data: seq<byte>)
    requires Fits(fields, |base|) && Tiles(fields, |base|)
    requires |data| == |base|
    requires forall k | 0 <= k < |fields| ::
               End(fields[k]) <= |data| && data[fields[k].offset..End(fields[k])] == fields[k].bytes
    ensures Image(fields, base) == data
  {
    hide Image, Fits, Tiles;
    var image := Image(fields, base);
    forall i | 0 <= i < |data|
      ensures image[i] == data[i]
    {
      assert Tiles(fields, |base|) && End(fields[|fields| - 1]) == |base| by {
        TilesEnd(fields, |base|);
      }
      var k := TileAt(fields, |base|, i, |fields| - 1);
      ImageField(fields, base, k);
      var (lo, hi) := (fields[k].offset, End(fields[k]));
      assert image[lo..hi][i - lo] == data[lo..hi][i - lo];
    }
  }

  lemma TilesEnd(fields: seq<Slot>, size: nat)
    requires Tiles(fields, size)
    ensures fields != [] && End(fields[|fields| - 1]) == size
  {
  }

  /** The sequence of `pack_into` writes, which stops at the first value that has no room. */
  method Pack(buffer: array<byte>, fields: seq<Slot>) returns (ok: bool)
    requires Fits(fields, buffer.Length)
    modifies buffer
    ensures ok <==> AllRoom(fields)
    ensures ok ==> buffer[..] == Image(fields, old(buffer[..]))
  {
    hide Image;
    ImageNone(old(buffer[..]));
    assert fields[..0] == [];
    for k := 0 to |fields|
      invariant Fits(fields[..k], buffer.Length)
      invariant forall i | 0 <= i < k :: fields[i].room
      invariant buffer[..] == Image(fields[..k], old(buffer[..]))
    {
      if !fields[k].room {
        return false;
      }
      ghost var before := buffer[..];
      ImageStep(fields, old(buffer[..]), k);
      PackInto(buffer, fields[k].offset, fields[k].bytes);
      assert buffer[..] == Put(before, fields[k]);
    }
    assert fields[..|fields|] == fields;
    ok := true;
  }
}
