/** Wire protocol v2: request and response frames, their decoders, and splitting a stream into frames. */
module Wire {
  import opened Bytes
  import opened Layout
  import opened Sequences

  const NO_WORKER := 0xFFFF_FFFF
  const MAX_FRAME_BYTES := 0x20_0000

  datatype Request = Request(
    opcode: nat,
    requestId: nat,
    key: seq<byte>,
    value: seq<byte>,
    expireAt: nat,
    target: nat)

  datatype Response = Response(
    status: nat,
    requestId: nat,
    value: seq<byte>,
    owner: nat,
    workers: nat,
    epoch: nat)

  // ---------------------------------------------------------------- Encoders

  function RequestSize(r: Request): nat {
    40 + |r.key| + |r.value|
  }

  predicate RequestFits(r: Request) {
    && r.opcode < Limit(1) && r.requestId < Limit(8) && r.expireAt < Limit(8) && r.target < Limit(4)
    && RequestSize(r) < Limit(4)
  }

  function RequestField(r: Request, i: nat): Slot
    requires i < 10
  {
    if i == 0 then U(0, 4, RequestSize(r))
    else if i == 1 then U(4, 2, 2)
    else if i == 2 then U(6, 1, r.opcode)
    else if i == 3 then U(7, 1, 0)
    else if i == 4 then U(8, 8, r.requestId)
    else if i == 5 then U(16, 4, |r.key|)
    else if i == 6 then U(20, 4, |r.value|)
    else if i == 7 then U(24, 8, r.expireAt)
    else if i == 8 then U(32, 4, r.target)
    else U(36, 4, 0)
  }

  function RequestFields(r: Request): seq<Slot> {
    seq(10, i requires 0 <= i < 10 => RequestField(r, i))
  }

  function ResponseSize(r: Response): nat {
    40 + |r.value|
  }

  predicate ResponseFits(r: Response) {
    && r.status < Limit(2) && r.requestId < Limit(8) && r.owner < Limit(4) && r.workers < Limit(4) && r.epoch < Limit(8)
    && ResponseSize(r) < Limit(4)
  }

  function ResponseField(r: Response, i: nat): Slot
    requires i < 9
  {
    if i == 0 then U(0, 4, ResponseSize(r))
    else if i == 1 then U(4, 2, 2)
    else if i == 2 then U(6, 2, r.status)
    else if i == 3 then U(8, 8, r.requestId)
    else if i == 4 then U(16, 4, |r.value|)
    else if i == 5 then U(20, 4, r.owner)
    else if i == 6 then U(24, 4, r.workers)
    else if i == 7 then U(28, 4, 0)
    else U(32, 8, r.epoch)
  }

  function ResponseFields(r: Response): seq<Slot> {
    seq(9, i requires 0 <= i < 9 => ResponseField(r, i))
  }

  lemma RequestTiles(r: Request)
    ensures Fits(RequestFields(r), 40) && Tiles(RequestFields(r), 40)
  {
    hide LE, Limit;
  }

  lemma ResponseTiles(r: Response)
    ensures Fits(ResponseFields(r), 40) && Tiles(ResponseFields(r), 40)
  {
    hide LE, Limit;
  }

  function RequestBytes(r: Request): (b: seq<byte>)
    ensures |b| == RequestSize(r)
  {
    RequestTiles(r);
    Image(RequestFields(r), ZeroBytes(40)) + r.key + r.value
  }

  function ResponseBytes(r: Response): (b: seq<byte>)
    ensures |b| == ResponseSize(r)
  {
    ResponseTiles(r);
    Image(ResponseFields(r), ZeroBytes(40)) + r.value
  }

  // ---------------------------------------------------------------- Decoders

  /** Which fields each opcode may carry. */
  predicate ValidFields(r: Request) {
    match r.opcode
    case 1 => r.key == [] && r.value == [] && r.expireAt == 0 && r.target == NO_WORKER
    case 2 => r.key == [] && r.expireAt == 0 && r.target == NO_WORKER
    case 3 => r.key != [] && r.value == [] && r.expireAt == 0 && r.target == NO_WORKER
    case 4 => r.key != [] && r.target == NO_WORKER
    case 5 => r.key != [] && r.value == [] && r.expireAt == 0 && r.target == NO_WORKER
    case 6 => r.key == [] && r.value == [] && r.expireAt == 0 && r.target != NO_WORKER
    case 7 => r.key == [] && r.value == [] && r.expireAt == 0 && r.target == NO_WORKER
    case 8 => r.key == [] && r.value == [] && r.expireAt == 0 && r.target == NO_WORKER
    case 9 => r.key == [] && r.value == [] && r.expireAt == 0 && r.target == NO_WORKER
    case 10 => r.key != [] && r.value == [] && r.expireAt == 0 && r.target == NO_WORKER
    case _ => false
  }

  /** The server's decoder, on one whole frame. */
  function DecodeRequest(frame: seq<byte>): Option<Request> {
    if |frame| < 40 || |frame| > MAX_FRAME_BYTES || Field(frame, 0, 4) != |frame| then None
    else if Field(frame, 4, 2) != 2 then None
    else if Field(frame, 7, 1) != 0 || Field(frame, 36, 4) != 0 then None
    else
      var (k, v) := (Field(frame, 16, 4), Field(frame, 20, 4));
      if 40 + k + v != |frame| then None
      else
        var r := Request(Field(frame, 6, 1), Field(frame, 8, 8), frame[40..40 + k], frame[40 + k..],
                         Field(frame, 24, 8), Field(frame, 32, 4));
        if ValidFields(r) then Some(r) else None
  }

  /** The client's decoder, on one whole frame. */
  function DecodeResponse(frame: seq<byte>): Option<Response> {
    if |frame| < 40 || |frame| > MAX_FRAME_BYTES || Field(frame, 0, 4) != |frame| then None
    else if Field(frame, 4, 2) != 2 || Field(frame, 28, 4) != 0 then None
    else if Field(frame, 6, 2) > 8 then None
    else if 40 + Field(frame, 16, 4) != |frame| then None
    else Some(Response(Field(frame, 6, 2), Field(frame, 8, 8), frame[40..], Field(frame, 20, 4),
                       Field(frame, 24, 4), Field(frame, 32, 8)))
  }

  predicate Sendable(r: Request) {
    RequestFits(r) && ValidFields(r) && RequestSize(r) <= MAX_FRAME_BYTES
  }

  predicate Receivable(r: Response) {
    ResponseFits(r) && r.status <= 8 && ResponseSize(r) <= MAX_FRAME_BYTES
  }

  // ---------------------------------------------------------------- Encoded frames decode

  lemma RequestRead(r: Request, frame: seq<byte>)
    requires RequestFits(r)
    requires Carries(frame, RequestFields(r), ZeroBytes(40), 40, 40)
    ensures Field(frame, 0, 4) == RequestSize(r) && Field(frame, 4, 2) == 2
    ensures Field(frame, 6, 1) == r.opcode && Field(frame, 7, 1) == 0 && Field(frame, 8, 8) == r.requestId
    ensures Field(frame, 16, 4) == |r.key| && Field(frame, 20, 4) == |r.value|
    ensures Field(frame, 24, 8) == r.expireAt && Field(frame, 32, 4) == r.target && Field(frame, 36, 4) == 0
  {
    hide LE, Value, Limit, ZeroBytes, Carries;
    var (f, z) := (RequestFields(r), ZeroBytes(40));
    Limits();
    CarriedNumber(frame, f, z, 40, 40, 0, 0, 4, RequestSize(r));
    CarriedNumber(frame, f, z, 40, 40, 1, 4, 2, 2);
    CarriedNumber(frame, f, z, 40, 40, 2, 6, 1, r.opcode);
    CarriedNumber(frame, f, z, 40, 40, 3, 7, 1, 0);
    CarriedNumber(frame, f, z, 40, 40, 4, 8, 8, r.requestId);
    CarriedNumber(frame, f, z, 40, 40, 5, 16, 4, |r.key|);
    CarriedNumber(frame, f, z, 40, 40, 6, 20, 4, |r.value|);
    CarriedNumber(frame, f, z, 40, 40, 7, 24, 8, r.expireAt);
    CarriedNumber(frame, f, z, 40, 40, 8, 32, 4, r.target);
    CarriedNumber(frame, f, z, 40, 40, 9, 36, 4, 0);
  }

  lemma ResponseRead(r: Response, frame: seq<byte>)
    requires ResponseFits(r)
    requires Carries(frame, ResponseFields(r), ZeroBytes(40), 40, 40)
    ensures Field(frame, 0, 4) == ResponseSize(r) && Field(frame, 4, 2) == 2 && Field(frame, 6, 2) == r.status
    ensures Field(frame, 8, 8) == r.requestId && Field(frame, 16, 4) == |r.value| && Field(frame, 20, 4) == r.owner
    ensures Field(frame, 24, 4) == r.workers && Field(frame, 28, 4) == 0 && Field(frame, 32, 8) == r.epoch
  {
    hide LE, Value, Limit, ZeroBytes, Carries;
    var (f, z) := (ResponseFields(r), ZeroBytes(40));
    Limits();
    CarriedNumber(frame, f, z, 40, 40, 0, 0, 4, ResponseSize(r));
    CarriedNumber(frame, f, z, 40, 40, 1, 4, 2, 2);
    CarriedNumber(frame, f, z, 40, 40, 2, 6, 2, r.status);
    CarriedNumber(frame, f, z, 40, 40, 3, 8, 8, r.requestId);
    CarriedNumber(frame, f, z, 40, 40, 4, 16, 4, |r.value|);
    CarriedNumber(frame, f, z, 40, 40, 5, 20, 4, r.owner);
    CarriedNumber(frame, f, z, 40, 40, 6, 24, 4, r.workers);
    CarriedNumber(frame, f, z, 40, 40, 7, 28, 4, 0);
    CarriedNumber(frame, f, z, 40, 40, 8, 32, 8, r.epoch);
  }

  lemma RequestCarried(r: Request)
    ensures Carries(RequestBytes(r), RequestFields(r), ZeroBytes(40), 40, 40)
    ensures RequestBytes(r)[40..40 + |r.key|] == r.key
    ensures RequestBytes(r)[40 + |r.key|..] == r.value
  {
    hide RequestFields, Image;
    RequestTiles(r);
  }

  lemma ResponseCarried(r: Response)
    ensures Carries(ResponseBytes(r), ResponseFields(r), ZeroBytes(40), 40, 40)
    ensures ResponseBytes(r)[40..] == r.value
  {
    hide ResponseFields, Image;
    ResponseTiles(r);
  }

  lemma RequestDecodes(r: Request)
    requires Sendable(r)
    ensures DecodeRequest(RequestBytes(r)) == Some(r)
  {
    hide RequestBytes, Value, Limit, Carries, ValidFields;
    RequestCarried(r);
    RequestRead(r, RequestBytes(r));
  }

  lemma ResponseDecodes(r: Response)
    requires Receivable(r)
    ensures DecodeResponse(ResponseBytes(r)) == Some(r)
  {
    hide ResponseBytes, Value, Limit, Carries;
    ResponseCarried(r);
    ResponseRead(r, ResponseBytes(r));
  }

  // ---------------------------------------------------------------- The rules, written out

  /** Which opcodes there are, and which of them carry a key, a value, an expiry or a target. */
  predicate ObeysRules(r: Request) {
    && 1 <= r.opcode <= 10
    && (r.key != [] <==> r.opcode in {3, 4, 5, 10})
    && (r.value != [] ==> r.opcode in {2, 4})
    && (r.expireAt != 0 ==> r.opcode == 4)
    && (r.target != 0xFFFF_FFFF <==> r.opcode == 6)
  }

  lemma FieldsObeyRules(r: Request)
    ensures ValidFields(r) <==> ObeysRules(r)
  {
  }

  /** Of all requests that can be packed, the decoder gives back those that obey the rules and fit 2 MiB. */
  lemma RequestAcceptedIff(r: Request)
    requires RequestFits(r)
    ensures DecodeRequest(RequestBytes(r))
         == if ObeysRules(r) && 40 + |r.key| + |r.value| <= 2_097_152 then Some(r) else None
  {
    hide Value, LE, Limit, Image, ZeroBytes, Carries, RequestFields, ValidFields, ObeysRules;
    var frame := RequestBytes(r);
    RequestCarried(r);
    RequestRead(r, frame);
    FieldsObeyRules(r);
  }

  /** The same for responses: nine status codes and 2 MiB. */
  lemma ResponseAcceptedIff(r: Response)
    requires ResponseFits(r)
    ensures DecodeResponse(ResponseBytes(r))
         == if r.status <= 8 && 40 + |r.value| <= 2_097_152 then Some(r) else None
  {
    hide Value, LE, Limit, Image, ZeroBytes, Carries, ResponseFields;
    var frame := ResponseBytes(r);
    ResponseCarried(r);
    ResponseRead(r, frame);
  }

  // ---------------------------------------------------------------- Only encoded frames decode

  lemma FieldBytes(frame: seq<byte>, offset: nat, width: nat)
    requires offset + width <= |frame|
    ensures Field(frame, offset, width) < Limit(width)
    ensures frame[offset..offset + width] == LE(Field(frame, offset, width), width)
  {
    hide Value, LE, Limit;
    LEOfValue(frame[offset..offset + width]);
  }

  /** The decoder accepts no frame but the encoding of what it returns. */
  lemma RequestCanonical(frame: seq<byte>)
    requires DecodeRequest(frame).Some?
    ensures Sendable(DecodeRequest(frame).value)
    ensures frame == RequestBytes(DecodeRequest(frame).value)
  {
    hide Value, LE, Limit, Image, ValidFields, ZeroBytes;
    var r := DecodeRequest(frame).value;
    var f := RequestFields(r);
    Limits();
    FieldBytes(frame, 0, 4);
    FieldBytes(frame, 4, 2);
    FieldBytes(frame, 6, 1);
    FieldBytes(frame, 7, 1);
    FieldBytes(frame, 8, 8);
    FieldBytes(frame, 16, 4);
    FieldBytes(frame, 20, 4);
    FieldBytes(frame, 24, 8);
    FieldBytes(frame, 32, 4);
    FieldBytes(frame, 36, 4);
    RequestTiles(r);
    assert frame[0..40] == frame[..40];
    forall k | 0 <= k < |f|
      ensures End(f[k]) <= 40 && frame[..40][f[k].offset..End(f[k])] == f[k].bytes
    {
      SliceOfSlice(frame, 0, 40, f[k].offset, End(f[k]));
    }
    TiledImage(f, ZeroBytes(40), frame[..40]);
    assert frame == frame[..40] + r.key + r.value;
  }

  lemma ResponseCanonical(frame: seq<byte>)
    requires DecodeResponse(frame).Some?
    ensures Receivable(DecodeResponse(frame).value)
    ensures frame == ResponseBytes(DecodeResponse(frame).value)
  {
    hide Value, LE, Limit, Image, ZeroBytes;
    var r := DecodeResponse(frame).value;
    var f := ResponseFields(r);
    Limits();
    FieldBytes(frame, 0, 4);
    FieldBytes(frame, 4, 2);
    FieldBytes(frame, 6, 2);
    FieldBytes(frame, 8, 8);
    FieldBytes(frame, 16, 4);
    FieldBytes(frame, 20, 4);
    FieldBytes(frame, 24, 4);
    FieldBytes(frame, 28, 4);
    FieldBytes(frame, 32, 8);
    ResponseTiles(r);
    assert frame[0..40] == frame[..40];
    forall k | 0 <= k < |f|
      ensures End(f[k]) <= 40 && frame[..40][f[k].offset..End(f[k])] == f[k].bytes
    {
      SliceOfSlice(frame, 0, 40, f[k].offset, End(f[k]));
    }
    TiledImage(f, ZeroBytes(40), frame[..40]);
    assert frame == frame[..40] + r.value;
  }

  /** Different field values give different frames, also for values the decoders would refuse. */
  lemma RequestInjective(r: Request, q: Request)
    requires RequestFits(r) && RequestFits(q) && RequestBytes(r) == RequestBytes(q)
    ensures r == q
  {
    hide RequestBytes, Value, Limit, Carries;
    RequestCarried(r);
    RequestRead(r, RequestBytes(r));
    RequestCarried(q);
    RequestRead(q, RequestBytes(q));
  }

  lemma ResponseInjective(r: Response, q: Response)
    requires ResponseFits(r) && ResponseFits(q) && ResponseBytes(r) == ResponseBytes(q)
    ensures r == q
  {
    hide ResponseBytes, Value, Limit, Carries;
    ResponseCarried(r);
    ResponseRead(r, ResponseBytes(r));
    ResponseCarried(q);
    ResponseRead(q, ResponseBytes(q));
  }

  // ---------------------------------------------------------------- Splitting a stream

  /** A frame announces its own length. */
  predicate IsFrame(f: seq<byte>, header: nat) {
    |f| >= header && |f| >= 4 && Field(f, 0, 4) == |f|
  }

  /** The leading frame of a stream, if there is one. */
  predicate LeadingFrame(data: seq<byte>, header: nat) {
    && |data| >= header && |data| >= 4
    && header <= Field(data, 0, 4) <= |data|
  }

  function Split(data: seq<byte>, header: nat): Option<seq<seq<byte>>>
    requires header > 0
    decreases |data|
  {
    if data == [] then Some([])
    else if !LeadingFrame(data, header) then None
    else
      var n := Field(data, 0, 4);
      var rest := Split(data[n..], header);
      if rest.None? then None else Some([data[..n]] + rest.value)
  }

  ghost function After(done: seq<seq<byte>>, rest: Option<seq<seq<byte>>>): Option<seq<seq<byte>>> {
    if rest.None? then None else Some(done + rest.value)
  }

  /** One turn of the loop, seen from offset `o` of the stream. */
  lemma SplitTurn(data: seq<byte>, header: nat, o: nat, done: seq<seq<byte>>)
    requires header > 0 && o < |data|
    ensures LeadingFrame(data[o..], header) <==>
            |data| - o >= header && |data| - o >= 4 && header <= Field(data, o, 4) <= |data| - o
    ensures !LeadingFrame(data[o..], header) ==> Split(data[o..], header).None?
    ensures LeadingFrame(data[o..], header) ==>
              var n := Field(data, o, 4);
              After(done, Split(data[o..], header)) == After(done + [data[o..o + n]], Split(data[o + n..], header))
  {
    hide Value;
    if |data| - o >= 4 {
      assert data[o..][0..4] == data[o..o + 4];
    }
    if LeadingFrame(data[o..], header) {
      var n := Field(data, o, 4);
      assert data[o..][..n] == data[o..o + n] && data[o..][n..] == data[o + n..];
      var rest := Split(data[o + n..], header);
      if rest.Some? {
        assert done + ([data[o..o + n]] + rest.value) == done + [data[o..o + n]] + rest.value;
      }
    }
  }

  lemma SplitNothing(header: nat)
    requires header > 0
    ensures Split([], header) == Some([])
  {
  }

  /** The script's loop over the stream. */
  method SplitFrames(data: seq<byte>, header: nat) returns (frames: Option<seq<seq<byte>>>)
    requires header > 0
    ensures frames == Split(data, header)
  {
    hide Split, Value, LeadingFrame;
    var done: seq<seq<byte>> := [];
    var offset := 0;
    SplitNothing(header);
    assert data[0..] == data;
    assert Split(data, header).Some? ==> done + Split(data, header).value == Split(data, header).value;
    while offset < |data|
      invariant 0 <= offset <= |data|
      invariant Split(data, header) == After(done, Split(data[offset..], header))
      decreases |data| - offset
    {
      SplitTurn(data, header, offset, done);
      if |data| - offset < header || |data| - offset < 4 {
        return None;
      }
      var size := Field(data, offset, 4);
      if size < header || size > |data| - offset {
        return None;
      }
      done := done + [data[offset..offset + size]];
      offset := offset + size;
    }
    assert data[offset..] == [] && done + [] == done;
    frames := Some(done);
  }

  lemma LeadingIsFrame(data: seq<byte>, header: nat)
    requires LeadingFrame(data, header)
    ensures IsFrame(data[..Field(data, 0, 4)], header) || Field(data, 0, 4) < 4
  {
    hide Value;
    var n := Field(data, 0, 4);
    if n >= 4 {
      assert data[..n][0..4] == data[0..4];
    }
  }

  /** Whatever splits is put together again from frames of the announced lengths. */
  lemma {:induction false} SplitSound(data: seq<byte>, header: nat)
    requires header >= 4 && Split(data, header).Some?
    ensures Flatten(Split(data, header).value) == data
    ensures forall f | f in Split(data, header).value :: IsFrame(f, header)
    decreases |data|
  {
    if data != [] {
      var n := Field(data, 0, 4);
      SplitSound(data[n..], header);
      LeadingIsFrame(data, header);
      assert data == data[..n] + data[n..];
      var rest := Split(data[n..], header).value;
      assert ([data[..n]] + rest)[1..] == rest;
    }
  }

  /** Frames put one after the other split into the same frames. */
  lemma {:induction false} SplitComplete(frames: seq<seq<byte>>, header: nat)
    requires header > 0 && forall f | f in frames :: IsFrame(f, header)
    ensures Split(Flatten(frames), header) == Some(frames)
  {
    if frames != [] {
      var (f, rest) := (frames[0], Flatten(frames[1..]));
      var data := Flatten(frames);
      assert f in frames;
      assert data[0..4] == f[0..4];
      assert data[..|f|] == f && data[|f|..] == rest;
      SplitComplete(frames[1..], header);
      assert frames == [f] + frames[1..];
    }
  }

  /** A stream is a concatenation of frames in at most one way. */
  lemma FramesUnique(a: seq<seq<byte>>, b: seq<seq<byte>>, header: nat)
    requires header > 0
    requires (forall f | f in a :: IsFrame(f, header)) && (forall f | f in b :: IsFrame(f, header))
    requires Flatten(a) == Flatten(b)
    ensures a == b
  {
    hide Split, Flatten, IsFrame;
    SplitComplete(a, header);
    SplitComplete(b, header);
  }

  /** No frame is a proper prefix of another frame, however the stream goes on. */
  lemma PrefixFree(f: seq<byte>, g: seq<byte>, x: seq<byte>, y: seq<byte>, header: nat)
    requires IsFrame(f, header) && IsFrame(g, header)
    requires f + x == g + y
    ensures f == g && x == y
  {
    hide Value;
    assert f[0..4] == (f + x)[0..4] == (g + y)[0..4] == g[0..4];
    assert f == (f + x)[..|f|] && g == (g + y)[..|g|];
    assert x == (f + x)[|f|..] && y == (g + y)[|g|..];
  }

  function RequestStream(rs: seq<Request>): (r: seq<seq<byte>>)
    ensures |r| == |rs|
    ensures forall i | 0 <= i < |rs| :: r[i] == RequestBytes(rs[i])
  {
    seq(|rs|, i requires 0 <= i < |rs| => RequestBytes(rs[i]))
  }

  function ResponseStream(rs: seq<Response>): (r: seq<seq<byte>>)
    ensures |r| == |rs|
    ensures forall i | 0 <= i < |rs| :: r[i] == ResponseBytes(rs[i])
  {
    seq(|rs|, i requires 0 <= i < |rs| => ResponseBytes(rs[i]))
  }

  lemma RequestIsFrame(r: Request)
    requires RequestFits(r)
    ensures IsFrame(RequestBytes(r), 40)
  {
    hide RequestBytes, Value, Limit, Carries;
    RequestCarried(r);
    RequestRead(r, RequestBytes(r));
  }

  lemma ResponseIsFrame(r: Response)
    requires ResponseFits(r)
    ensures IsFrame(ResponseBytes(r), 40)
  {
    hide ResponseBytes, Value, Limit, Carries;
    ResponseCarried(r);
    ResponseRead(r, ResponseBytes(r));
  }

  /** A stream of encoded requests splits back into exactly those requests. */
  lemma RequestStreamSplits(rs: seq<Request>)
    requires forall r | r in rs :: RequestFits(r)
    ensures Split(Flatten(RequestStream(rs)), 40) == Some(RequestStream(rs))
  {
    hide RequestBytes, RequestFits, IsFrame, Split, Flatten;
    forall i | 0 <= i < |rs|
      ensures IsFrame(RequestStream(rs)[i], 40)
    {
      RequestIsFrame(rs[i]);
    }
    SplitComplete(RequestStream(rs), 40);
  }

  lemma ResponseStreamSplits(rs: seq<Response>)
    requires forall r | r in rs :: ResponseFits(r)
    ensures Split(Flatten(ResponseStream(rs)), 40) == Some(ResponseStream(rs))
  {
    hide ResponseBytes, ResponseFits, IsFrame, Split, Flatten;
    forall i | 0 <= i < |rs|
      ensures IsFrame(ResponseStream(rs)[i], 40)
    {
      ResponseIsFrame(rs[i]);
    }
    SplitComplete(ResponseStream(rs), 40);
  }
}
