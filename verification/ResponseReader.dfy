/** The buffered reader that cuts response frames out of a socket's byte stream. */
module ResponseReader {
  import opened Bytes
  import opened Sequences
  import opened Wire

  /** What one `recv` of at most 64 KiB delivers. */
  type Chunk = c: seq<byte> | 0 < |c| <= 0x1_0000
    witness [0]

  datatype Event = Data(chunk: Chunk) | Interrupted | Failed

  /** A connected socket, as the sequence of results its `recv` calls will have. */
  class Socket {
    var events: seq<Event>

    constructor (events: seq<Event>)
      ensures this.events == events
    {
      this.events := events;
    }

    /** A closed connection keeps failing. */
    method Recv() returns (e: Event)
      modifies this
      ensures old(events) == [] ==> e == Failed && events == []
      ensures old(events) != [] ==> e == old(events)[0] && events == old(events)[1..]
    {
      if events == [] {
        e := Failed;
      } else {
        e := events[0];
        events := events[1..];
      }
    }
  }

  /** The bytes delivered before the next failure. */
  function Stream(events: seq<Event>): seq<byte> {
    if events == [] then []
    else match events[0]
      case Data(c) => c + Stream(events[1..])
      case Interrupted => Stream(events[1..])
      case Failed => []
  }

  function AfterFailure(events: seq<Event>): seq<Event> {
    if events == [] then []
    else if events[0].Failed? then events[1..]
    else AfterFailure(events[1..])
  }

  datatype Receipt = Got(response: Response, consumed: nat) | InvalidSize | Undecodable | IoError

  /** What the bytes to come begin with. */
  datatype Head = Incomplete | Invalid | Complete(size: nat)

  function HeadOf(bytes: seq<byte>): (h: Head)
    ensures h.Complete? ==> 40 <= h.size <= |bytes|
  {
    if |bytes| < 4 then Incomplete
    else
      var size := Field(bytes, 0, 4);
      if size < 40 || size > MAX_FRAME_BYTES then Invalid
      else if |bytes| < size then Incomplete
      else Complete(size)
  }

  /** The receipt depends on the bytes to come and on nothing else. */
  function Expected(bytes: seq<byte>): Receipt {
    match HeadOf(bytes)
    case Incomplete => IoError
    case Invalid => InvalidSize
    case Complete(n) =>
      match DecodeResponse(bytes[..n])
      case None => Undecodable
      case Some(r) => Got(r, n)
  }

  /** More bytes do not change a head that is already decided. */
  lemma HeadStable(p: seq<byte>, rest: seq<byte>)
    requires HeadOf(p) != Incomplete
    ensures HeadOf(p + rest) == HeadOf(p)
    ensures HeadOf(p).Complete? ==> (p + rest)[..HeadOf(p).size] == p[..HeadOf(p).size]
  {
    hide Value;
    assert (p + rest)[0..4] == p[0..4];
  }

  class Reader {
    var buffer: seq<byte>
    var offset: nat

    ghost predicate Valid()
      reads this
    {
      offset <= |buffer|
    }

    /** Bytes received and not yet consumed. */
    ghost function Pending(): seq<byte>
      reads this
      requires Valid()
    {
      buffer[offset..]
    }

    constructor ()
      ensures Valid() && Pending() == []
    {
      buffer := [];
      offset := 0;
    }

    method Receive(socket: Socket) returns (r: Receipt)
      requires Valid()
      modifies this, socket
      ensures Valid()
      ensures r == Expected(old(Pending() + Stream(socket.events)))
      ensures r.Got? ==> r.consumed <= |old(Pending() + Stream(socket.events))|
                         && Pending() + Stream(socket.events) == old(Pending() + Stream(socket.events))[r.consumed..]
                         && AfterFailure(socket.events) == old(AfterFailure(socket.events))
      ensures r.InvalidSize? || r.Undecodable? ==>
                Pending() + Stream(socket.events) == old(Pending() + Stream(socket.events))
                && AfterFailure(socket.events) == old(AfterFailure(socket.events))
      ensures r.IoError? ==> Pending() == old(Pending() + Stream(socket.events))
                             && socket.events == old(AfterFailure(socket.events))
    {
      hide DecodeResponse, Value;
      ghost var all := Pending() + Stream(socket.events);
      while true
        invariant Valid()
        invariant Pending() + Stream(socket.events) == all
        invariant AfterFailure(socket.events) == old(AfterFailure(socket.events))
        decreases |socket.events|
      {
        var available := |buffer| - offset;
        ghost var p := buffer[offset..];
        if available >= 4 {
          var size := Field(buffer, offset, 4);
          assert p[0..4] == buffer[offset..offset + 4];
          if size < 40 || size > MAX_FRAME_BYTES {
            HeadStable(p, Stream(socket.events));
            return InvalidSize;
          }
          if available >= size {
            HeadStable(p, Stream(socket.events));
            assert p[..size] == buffer[offset..offset + size];
            var decoded := DecodeResponse(buffer[offset..offset + size]);
            if decoded.None? {
              return Undecodable;
            }
            offset := offset + size;
            assert buffer[offset..] + Stream(socket.events) == all[size..];
            return Got(decoded.value, size);
          }
        }
        assert HeadOf(p) == Incomplete;
        if offset > 0 {
          buffer := buffer[offset..];
          offset := 0;
        }
        assert Pending() == p;
        ghost var before := socket.events;
        var e := socket.Recv();
        match e {
          case Data(chunk) =>
            assert p + (chunk + Stream(socket.events)) == p + chunk + Stream(socket.events);
            buffer := buffer + chunk;
            assert Pending() == p + chunk;
          case Interrupted =>
          case Failed =>
            assert Stream(before) == [] && p + [] == p;
            return IoError;
        }
      }
    }

    /** As the client loops do: take `n` responses, giving up at the first that does not arrive. */
    method ReceiveMany(socket: Socket, n: nat) returns (got: seq<Response>)
      requires Valid()
      modifies this, socket
      ensures Valid()
      ensures |got| <= n
      ensures got == Take(old(Pending() + Stream(socket.events)), n).0
      ensures |got| == n ==> Pending() + Stream(socket.events) == Take(old(Pending() + Stream(socket.events)), n).1
    {
      hide Expected, Stream, AfterFailure;
      ghost var all := Pending() + Stream(socket.events);
      got := [];
      for i := 0 to n
        invariant Valid()
        invariant |got| == i
        invariant Take(all, n).0 == got + Take(Pending() + Stream(socket.events), n - i).0
        invariant Take(all, n).1 == Take(Pending() + Stream(socket.events), n - i).1
      {
        ghost var now := Pending() + Stream(socket.events);
        var r := Receive(socket);
        if !r.Got? {
          return;
        }
        ghost var later := Take(now[r.consumed..], n - i - 1).0;
        assert got + ([r.response] + later) == got + [r.response] + later;
        got := got + [r.response];
      }
    }
  }

  /** The first responses of a byte stream, at most `n`, and the bytes after them. */
  function Take(bytes: seq<byte>, n: nat): (t: (seq<Response>, seq<byte>))
    ensures |t.0| <= n
    decreases n
  {
    if n == 0 then ([], bytes)
    else match Expected(bytes)
      case Got(r, k) =>
        var (rs, rest) := Take(bytes[k..], n - 1);
        ([r] + rs, rest)
      case _ => ([], bytes)
  }

  /** Any stream of encoded responses is taken apart into exactly those responses, in order. */
  lemma {:induction false} TakeStream(rs: seq<Response>, tail: seq<byte>)
    requires forall r | r in rs :: Receivable(r)
    ensures Take(Flatten(ResponseStream(rs)) + tail, |rs|) == (rs, tail)
  {
    hide Expected, Receivable, ResponseBytes, ResponseSize;
    if rs == [] {
      assert Flatten(ResponseStream(rs)) + tail == tail;
    } else {
      NextInStream(rs, tail);
      TakeStream(rs[1..], tail);
      assert rs == [rs[0]] + rs[1..];
    }
  }

  /** A stream of encoded responses yields its first response and leaves the others. */
  lemma NextInStream(rs: seq<Response>, tail: seq<byte>)
    requires rs != [] && forall r | r in rs :: Receivable(r)
    ensures var bytes := Flatten(ResponseStream(rs)) + tail;
            && Expected(bytes) == Got(rs[0], ResponseSize(rs[0]))
            && ResponseSize(rs[0]) <= |bytes|
            && bytes[ResponseSize(rs[0])..] == Flatten(ResponseStream(rs[1..])) + tail
  {
    hide ResponseBytes, DecodeResponse, Value, Limit, MAX_FRAME_BYTES;
    var f := ResponseBytes(rs[0]);
    var rest := Flatten(ResponseStream(rs[1..])) + tail;
    assert rs[0] in rs;
    assert ResponseStream(rs)[1..] == ResponseStream(rs[1..]);
    assert Flatten(ResponseStream(rs)) + tail == f + rest;
    ResponseIsFrame(rs[0]);
    ResponseDecodes(rs[0]);
    HeadStable(f, rest);
    assert f[..|f|] == f;
  }
}
