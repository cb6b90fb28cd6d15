/** The XenStore transport: a sender that feeds segmented requests into a byte ring whenever there
    is room, and a receiver that puts replies together from whatever has arrived. */
module Store {
  import opened Basics
  import opened Words
  import Rings = ByteRing

  const HEADER_BYTES: nat := 16     // sizeof (struct xsd_sockmsg)
  const MAX_SEGMENTS: nat := 8      // REQUEST_SEGMENT_COUNT
  const PAYLOAD_MAX: nat := 4096    // XENSTORE_PAYLOAD_MAX
  const WATCH_EVENT: int := 15      // XS_WATCH_EVENT

  // ---------------------------------------------------------------- messages on the wire

  datatype Header = Header(kind: Word, reqId: Word, txId: Word, len: Word)
  datatype Message = Message(header: Header, payload: seq<Byte>)

  /** A word in memory, the low byte first. */
  function EncodeWord(x: Word): (r: seq<Byte>)
    ensures |r| == 4
  {
    [x % 0x100, x / 0x100 % 0x100, x / 0x1_0000 % 0x100, x / 0x100_0000]
  }

  function DecodeWord(b: seq<Byte>): Word
    requires |b| == 4
  {
    var b0: int, b1: int, b2: int, b3: int := b[0], b[1], b[2], b[3];
    b0 + b1 * 0x100 + b2 * 0x1_0000 + b3 * 0x100_0000
  }

  function Encode(h: Header): (r: seq<Byte>)
    ensures |r| == HEADER_BYTES
  {
    EncodeWord(h.kind) + EncodeWord(h.reqId) + EncodeWord(h.txId) + EncodeWord(h.len)
  }

  function Decode(b: seq<Byte>): Header
    requires |b| == HEADER_BYTES
  {
    Header(DecodeWord(b[0..4]), DecodeWord(b[4..8]), DecodeWord(b[8..12]), DecodeWord(b[12..16]))
  }

  lemma WordRoundTrip(x: Word)
    ensures DecodeWord(EncodeWord(x)) == x
  {
    var a := x / 0x100;
    var b := a / 0x100;
    var c := b / 0x100;
    assert x / 0x1_0000 == b && x / 0x100_0000 == c;
    assert x == a * 0x100 + x % 0x100 && a == b * 0x100 + a % 0x100 && b == c * 0x100 + b % 0x100;
  }

  lemma BytesRoundTrip(b: seq<Byte>)
    requires |b| == 4
    ensures EncodeWord(DecodeWord(b)) == b
  {
    var x, b1: int, b2: int, b3: int := DecodeWord(b), b[1], b[2], b[3];
    assert x / 0x100 == b1 + b2 * 0x100 + b3 * 0x1_0000;
    assert x / 0x1_0000 == b2 + b3 * 0x100;
    assert x / 0x100_0000 == b3;
  }

  /** Every 16 bytes are the encoding of exactly one header. */
  lemma HeaderRoundTrip(h: Header)
    ensures Decode(Encode(h)) == h
  {
    hide EncodeWord, DecodeWord;
    var b := Encode(h);
    assert b[0..4] == EncodeWord(h.kind) && b[4..8] == EncodeWord(h.reqId);
    assert b[8..12] == EncodeWord(h.txId) && b[12..16] == EncodeWord(h.len);
    WordRoundTrip(h.kind);
    WordRoundTrip(h.reqId);
    WordRoundTrip(h.txId);
    WordRoundTrip(h.len);
  }

  lemma HeaderBytes(b: seq<Byte>)
    requires |b| == HEADER_BYTES
    ensures Encode(Decode(b)) == b
  {
    hide EncodeWord, DecodeWord;
    BytesRoundTrip(b[0..4]);
    BytesRoundTrip(b[4..8]);
    BytesRoundTrip(b[8..12]);
    BytesRoundTrip(b[12..16]);
    assert b == b[0..4] + b[4..8] + b[8..12] + b[12..16];
  }

  /** Where each byte of a header is: type, request, transaction and length, in this order, the low byte
      of each first. */
  lemma HeaderLayout(h: Header)
    ensures var b := Encode(h);
      && b[0] == h.kind % 256 && b[1] == h.kind / 256 % 256
      && b[2] == h.kind / 65536 % 256 && b[3] == h.kind / 16777216
      && b[4] == h.reqId % 256 && b[5] == h.reqId / 256 % 256
      && b[6] == h.reqId / 65536 % 256 && b[7] == h.reqId / 16777216
      && b[8] == h.txId % 256 && b[9] == h.txId / 256 % 256
      && b[10] == h.txId / 65536 % 256 && b[11] == h.txId / 16777216
      && b[12] == h.len % 256 && b[13] == h.len / 256 % 256
      && b[14] == h.len / 65536 % 256 && b[15] == h.len / 16777216
  {
  }

  /** The types and lengths that the receiver accepts. */
  predicate VerifyHeader(h: Header) {
    && h.kind in {1, 2, 4, 5, 6, 7, 11, 13, 15, 16}
    && 0 <= h.len < PAYLOAD_MAX
  }

  ghost predicate WellFormed(m: Message) {
    VerifyHeader(m.header) && m.header.len == |m.payload|
  }

  function Wire(m: Message): seq<Byte> {
    Encode(m.header) + m.payload
  }

  function Wires(ms: seq<Message>): seq<Byte> {
    if ms == [] then [] else Wires(ms[..|ms| - 1]) + Wire(ms[|ms| - 1])
  }

  lemma {:induction false} WiresConcat(a: seq<Message>, b: seq<Message>)
    ensures Wires(a + b) == Wires(a) + Wires(b)
  {
    if b == [] {
      assert a + b == a;
    } else {
      assert (a + b)[..|a + b| - 1] == a + b[..|b| - 1];
      WiresConcat(a, b[..|b| - 1]);
    }
  }

  // ---------------------------------------------------------------- requests in segments

  datatype Segment = Segment(data: seq<Byte>, offset: nat)

  datatype Request = Request(header: Header, segments: seq<Segment>, index: nat)

  ghost predicate ValidRequest(r: Request) {
    && r.index <= |r.segments|
    && forall i :: 0 <= i < |r.segments| ==> r.segments[i].offset <= |r.segments[i].data|
  }

  function Rest(segs: seq<Segment>): seq<Byte> {
    if segs == [] then []
    else (if segs[0].offset <= |segs[0].data| then segs[0].data[segs[0].offset..] else []) + Rest(segs[1..])
  }

  /** The bytes of a request that are still to be sent. */
  function Unsent(r: Request): seq<Byte> {
    if r.index <= |r.segments| then Rest(r.segments[r.index..]) else []
  }

  function UnsentAll(rs: seq<Request>): seq<Byte> {
    if rs == [] then [] else Unsent(rs[0]) + UnsentAll(rs[1..])
  }

  function Concat(parts: seq<seq<Byte>>): seq<Byte> {
    if parts == [] then [] else Concat(parts[..|parts| - 1]) + parts[|parts| - 1]
  }

  lemma {:induction false} RestConcat(a: seq<Segment>, b: seq<Segment>)
    ensures Rest(a + b) == Rest(a) + Rest(b)
  {
    if a == [] {
      assert a + b == b;
    } else {
      assert (a + b)[1..] == a[1..] + b;
      RestConcat(a[1..], b);
    }
  }

  lemma {:induction false} UnsentConcat(a: seq<Request>, b: seq<Request>)
    ensures UnsentAll(a + b) == UnsentAll(a) + UnsentAll(b)
  {
    if a == [] {
      assert a + b == b;
    } else {
      assert (a + b)[1..] == a[1..] + b;
      UnsentConcat(a[1..], b);
    }
  }

  /** Builds a request from a header and up to six pieces of payload; the header announces the
      total number of payload bytes, as a word. */
  method PrepareRequest(kind: Word, reqId: Word, txId: Word, args: seq<seq<Byte>>) returns (r: Request)
    requires |args| + 1 < MAX_SEGMENTS
    ensures ValidRequest(r) && r.index == 0
    ensures r.header == Header(kind, reqId, txId, W(|Concat(args)|))
    ensures Unsent(r) == Wire(Message(r.header, Concat(args)))
  {
    var header := Header(kind, reqId, txId, 0);
    var segs: seq<Segment> := [];
    assert args[..0] == [];
    for i := 0 to |args|
      invariant |segs| == i
      invariant forall j :: 0 <= j < i ==> segs[j].offset == 0
      invariant Rest(segs) == Concat(args[..i])
      invariant header == Header(kind, reqId, txId, W(|Concat(args[..i])|))
    {
      assert args[..i + 1][..i] == args[..i];
      var one := Segment(args[i], 0);
      RestConcat(segs, [one]);
      assert Rest([one]) == args[i];
      segs := segs + [one];
      Increment(|Concat(args[..i])|, |args[i]|);
      header := header.(len := W(header.len + |args[i]|));
    }
    assert args[..|args|] == args;
    var first := Segment(Encode(header), 0);
    r := Request(header, [first] + segs, 0);
    assert r.segments[0..] == r.segments && r.segments[1..] == segs;
  }

  /** A completed request and the message that completed it. */
  datatype Completion = Completion(request: Request, reply: Message)

  function Replies(cs: seq<Completion>): seq<Message> {
    if cs == [] then [] else Replies(cs[..|cs| - 1]) + [cs[|cs| - 1].reply]
  }

  /** The messages that answer a request. */
  function Answers(ms: seq<Message>): seq<Message> {
    if ms == [] then []
    else Answers(ms[..|ms| - 1]) + if ms[|ms| - 1].header.kind == WATCH_EVENT then [] else [ms[|ms| - 1]]
  }

  function HeadersOf(rs: seq<Request>): seq<Header> {
    seq(|rs|, i requires 0 <= i < |rs| => rs[i].header)
  }

  ghost predicate DistinctIds(hs: seq<Header>) {
    forall i, j :: 0 <= i < j < |hs| ==> hs[i].reqId != hs[j].reqId
  }

  /** What a peer that keeps to the protocol may still say: each reply answers a different
      request that is waiting for one. */
  ghost predicate Answerable(ms: seq<Message>, pending: seq<Header>) {
    && (forall m :: m in ms ==> WellFormed(m))
    && (forall i :: 0 <= i < |ms| && ms[i].header.kind != WATCH_EVENT ==>
        exists j :: 0 <= j < |pending| && pending[j].reqId == ms[i].header.reqId)
    && (forall i, j :: 0 <= i < j < |ms| && ms[i].header.kind != WATCH_EVENT && ms[j].header.kind != WATCH_EVENT ==>
          ms[i].header.reqId != ms[j].header.reqId)
  }

  /** The reply that is being put together: header bytes so far and, once the header is complete
      and announces a payload, the payload bytes so far. */
  datatype Partial = Partial(header: seq<Byte>, payload: Option<seq<Byte>>) {
    function Bytes(): seq<Byte> {
      header + if payload.Some? then payload.value else []
    }

    /** Either the header is incomplete, or the payload is. */
    ghost predicate Incomplete() {
      if payload.None? then |header| < HEADER_BYTES
      else |header| == HEADER_BYTES && |payload.value| < Decode(header).len
    }
  }

  const NOTHING := Partial([], None)

  class Store {
    const req: Rings.ByteRing
    const rsp: Rings.ByteRing
    var submitted: seq<Request>
    var pending: seq<Request>
    var completed: seq<Completion>
    var response: Partial
    ghost var outgoing: seq<Byte>     // bytes of all requests submitted, in order
    ghost var peer: seq<Message>     // messages of the peer, in order
    ghost var processed: nat         // how many of them have been put together

    ghost predicate Separate()
      reads this
    {
      req != rsp && req.buffer != rsp.buffer
    }

    /** Everything holds, except that the reply in progress may be complete. */
    ghost predicate Core()
      reads this, req, req.buffer, rsp, rsp.buffer
    {
      && Separate() && req.Valid() && rsp.Valid()
      && SendState(req.stream, submitted, outgoing)
      && DistinctIds(HeadersOf(pending + submitted))
      && Received(rsp.stream, rsp.taken, peer, processed, response.Bytes())
      && Answerable(peer[processed..], HeadersOf(pending))
      && Answered(completed, peer[..processed])
    }

    ghost predicate Valid()
      reads this, req, req.buffer, rsp, rsp.buffer
    {
      Core() && response.Incomplete()
    }

    /** The reply in progress is the next message of the peer, all of it. */
    ghost predicate Complete()
      reads this
    {
      && processed < |peer|
      && |response.header| == HEADER_BYTES
      && Decode(response.header) == peer[processed].header
      && (if response.payload.Some? then response.payload.value else []) == peer[processed].payload
      && response.Bytes() == Wire(peer[processed])
    }

    constructor ()
      ensures Valid() && submitted == [] && pending == [] && completed == [] && peer == []
      ensures fresh(req) && fresh(req.buffer) && fresh(rsp) && fresh(rsp.buffer)
    {
      req := new Rings.ByteRing();
      rsp := new Rings.ByteRing();
      submitted, pending, completed, response := [], [], [], NOTHING;
      outgoing, peer, processed := [], [], 0;
    }

    /** Sends as much of one request as there is room for. */
    method SendRequest(r0: Request) returns (r: Request, written: nat)
      requires req.Valid() && ValidRequest(r0)
      modifies req, req.buffer
      ensures req.Valid() && req.taken == old(req.taken)
      ensures ValidRequest(r) && r.header == r0.header
      ensures req.stream + Unsent(r) == old(req.stream) + Unsent(r0)
      ensures |req.stream| == |old(req.stream)| + written
      ensures if r.index == |r.segments| then Unsent(r) == [] else req.Room() == 0
    {
      hide Unsent;
      r, written := r0, 0;
      while r.index < |r.segments|
        invariant req.Valid() && req.taken == old(req.taken)
        invariant ValidRequest(r) && r.header == r0.header
        invariant req.stream + Unsent(r) == old(req.stream) + Unsent(r0)
        invariant |req.stream| == |old(req.stream)| + written
        decreases |r.segments| - r.index
      {
        var seg := r.segments[r.index];
        var copied := req.CopyIn(seg.data[seg.offset..]);
        written := written + copied;
        UnsentStep(r, copied);
        var sent := seg.data[seg.offset..][..copied];
        r := r.(segments := r.segments[r.index := seg.(offset := seg.offset + copied)]);
        if seg.offset + copied != |seg.data| {
          return;
        }
        UnsentNext(r);
        r := r.(index := r.index + 1);
      }
      UnsentDone(r);
    }

    ghost predicate SendSide()
      reads this, req, req.buffer
    {
      req.Valid() && SendState(req.stream, submitted, outgoing)
    }

    /** Queues a request for sending. */
    method SubmitRequest(r: Request)
      requires Valid() && ValidRequest(r)
      requires forall q :: q in pending + submitted ==> q.header.reqId != r.header.reqId
      modifies `submitted, `outgoing
      ensures Valid() && submitted == old(submitted) + [r] && outgoing == old(outgoing) + Unsent(r)
    {
      hide SendState, Answerable, Answered, Received, Partial.Incomplete, Rings.ByteRing.Valid;
      SubmitState(req.stream, submitted, outgoing, r);
      assert pending + (submitted + [r]) == pending + submitted + [r];
      DistinctWith(pending + submitted, r);
      submitted := submitted + [r];
      outgoing := outgoing + Unsent(r);
    }

    /** Feeds the submitted requests into the ring, in order, until all are sent or it is full. */
    method SendRequests() returns (written: nat)
      requires SendSide()
      modifies `submitted, `pending, req, req.buffer
      ensures SendSide() && req.taken == old(req.taken)
      ensures |req.stream| == |old(req.stream)| + written
      ensures submitted == [] || req.Room() == 0
      ensures HeadersOf(pending + submitted) == HeadersOf(old(pending + submitted))
      ensures HeadersOf(old(pending)) <= HeadersOf(pending)
    {
      hide SendState, HeadersOf, Unsent, Rings.ByteRing.Valid;
      written := 0;
      ghost var headers := HeadersOf(pending + submitted);
      while submitted != []
        invariant SendSide() && req.taken == old(req.taken)
        invariant |req.stream| == |old(req.stream)| + written
        invariant HeadersOf(pending + submitted) == headers
        invariant HeadersOf(old(pending)) <= HeadersOf(pending)
        decreases |submitted|
      {
        FirstIsValid(req.stream, submitted, outgoing);
        ghost var stream, r0, rest := req.stream, submitted[0], submitted[1..];
        assert submitted == [r0] + rest && ([r0] + rest)[1..] == rest;
        var r, n := SendRequest(submitted[0]);
        written := written + n;
        SentSome(stream, req.stream, submitted, outgoing, r);
        SameHeaders(pending, r0, r, rest);
        submitted := [r] + submitted[1..];
        assert submitted == [r] + rest && submitted[1..] == rest;
        if r.index < |r.segments| {
          break;
        }
        MoveHeader(pending, r, rest);
        SentAll(req.stream, submitted, outgoing);
        submitted := submitted[1..];
        pending := pending + [r];
      }
    }

    /** Reads on with the reply in progress; success means that it is now complete. */
    method ReceiveResponse() returns (success: bool, read: nat)
      requires Valid()
      modifies `response, rsp`cons, rsp`taken
      ensures Core() && rsp.taken == old(rsp.taken) + read
      ensures if success then Complete() else response.Incomplete()
      ensures read == 0 ==> !success && rsp.taken == |rsp.stream|
    {
      hide SendState, Answerable, Answered, Received, DistinctIds, HeadersOf, Wires, Decode, VerifyHeader, Rings.Holds,
           W;
      read := 0;
      if response.payload == None {
        read := ReceiveHeader();
        if |response.header| < HEADER_BYTES {
          return false, read;
        }
        HeaderArrived(rsp.stream, rsp.taken, peer, processed, response.header, HeadersOf(pending));
        var header := Decode(response.header);
        assert VerifyHeader(header);   // asserted by the driver
        if header.len == 0 {
          return true, read;
        }
        VerifiedLength(header);
        response := response.(payload := Some([]));
        assert response.Bytes() == response.header;
      }
      var more;
      success, more := ReceivePayload();
      read := read + more;
    }

    method ReceiveHeader() returns (read: nat)
      requires Valid() && response.payload == None
      modifies `response, rsp`cons, rsp`taken
      ensures Core() && response.payload == None && rsp.taken == old(rsp.taken) + read
      ensures |response.header| <= HEADER_BYTES && response.Bytes() == response.header
      ensures |response.header| < HEADER_BYTES ==> rsp.taken == |rsp.stream|
      ensures |response.header| == HEADER_BYTES ==> read > 0
    {
      hide SendState, Answerable, Answered, Received, DistinctIds, HeadersOf, Wires, Decode, Rings.Holds, W;
      ghost var bytes := response.Bytes();
      var got := rsp.CopyOut(HEADER_BYTES - |response.header|);
      TakeMore(rsp.stream, old(rsp.taken), |got|, peer, processed, bytes);
      response := response.(header := response.header + got);
      assert response.Bytes() == response.header == bytes + got;
      read := |got|;
    }

    method ReceivePayload() returns (success: bool, read: nat)
      requires Valid() && response.payload.Some?
      modifies `response, rsp`cons, rsp`taken
      ensures Core() && rsp.taken == old(rsp.taken) + read
      ensures if success then Complete() else response.Incomplete()
      ensures !success ==> rsp.taken == |rsp.stream|
      ensures read == 0 ==> !success
    {
      hide SendState, Answerable, Answered, Received, DistinctIds, HeadersOf, Wires, Decode, Rings.Holds, W;
      ghost var bytes := response.Bytes();
      var length := Decode(response.header).len;
      var got := rsp.CopyOut(length - |response.payload.value|);
      TakeMore(rsp.stream, old(rsp.taken), |got|, peer, processed, bytes);
      response := response.(payload := Some(response.payload.value + got));
      assert response.Bytes() == bytes + got == response.header + response.payload.value;
      read := |got|;
      PayloadArrived(rsp.stream, rsp.taken, peer, processed, response.header, response.payload.value,
                     HeadersOf(pending));
      success := got != [] && |response.payload.value| == length;
    }

    /** The pending request with this id. */
    method FindRequest(reqId: Word) returns (index: nat)
      requires exists j :: 0 <= j < |pending| && pending[j].header.reqId == reqId
      ensures index < |pending| && pending[index].header.reqId == reqId
    {
      index := 0;
      while index < |pending|
        invariant 0 <= index <= |pending|
        invariant forall j :: 0 <= j < index ==> pending[j].header.reqId != reqId
      {
        if pending[index].header.reqId == reqId {
          return;
        }
        index := index + 1;
      }
    }

    /** Hands a complete reply to the request it answers; a watch event answers none. */
    method ProcessResponse()
      requires Core() && Complete()
      modifies `pending, `completed, `response, `processed
      ensures Valid() && processed == old(processed) + 1 && response == NOTHING
      ensures var m := peer[old(processed)];
              if m.header.kind == WATCH_EVENT then
                completed == old(completed) && pending == old(pending)
              else
                exists i :: 0 <= i < |old(pending)| && old(pending)[i].header.reqId == m.header.reqId
                  && completed == old(completed) + [Completion(old(pending)[i], m)]
                  && pending == old(pending)[..i] + old(pending)[i + 1..]
    {
      hide SendState, Answerable, Answered, Received, DistinctIds, HeadersOf, Wires, Decode, Encode,
           Rings.ByteRing.Valid, Partial.Bytes;
      ghost var m := peer[processed];
      FinishMessage(rsp.stream, rsp.taken, peer, processed, response.Bytes());
      if Decode(response.header).kind != WATCH_EVENT {
        IsAnswerable(peer[processed..], pending);
        var index := FindRequest(Decode(response.header).reqId);
        RemovePending(peer[processed..], pending, submitted, index);
        var reply := Message(Decode(response.header), if response.payload.Some? then response.payload.value else []);
        assert reply == m;
        AnswerNext(completed, peer[..processed], Completion(pending[index], reply));
        completed := completed + [Completion(pending[index], reply)];
        pending := pending[..index] + pending[index + 1..];
      } else {
        WatchNext(completed, peer[..processed], m);
        SkipWatch(peer[processed..], pending);
      }
      assert peer[processed..][1..] == peer[processed + 1..];
      assert peer[..processed + 1] == peer[..processed] + [m];
      response := NOTHING;
      NothingYet();
      processed := processed + 1;
    }

    /** Bytes that can still be moved while the peer is quiet. */
    ghost function Left(): int
      reads this, req, rsp
    {
      |outgoing| - |req.stream| + |rsp.stream| - rsp.taken
    }

    /** The sending half of one turn of the poll loop. */
    method Send() returns (written: nat)
      requires Valid()
      modifies `submitted, `pending, req, req.buffer
      ensures Valid() && 0 <= Left() == old(Left()) - written
      ensures submitted == [] || req.Room() == 0
    {
      hide SendState, Answerable, Answered, Received, HeadersOf, DistinctIds, Partial.Incomplete, Rings.ByteRing.Valid;
      ghost var waiting := HeadersOf(pending);
      written := SendRequests();
      TakenLength(rsp.stream, rsp.taken, peer, processed, response.Bytes());
      AnswerableGrows(peer[processed..], waiting, HeadersOf(pending));
      StreamLength(req.stream, submitted, outgoing);
    }

    /** Sends and receives until neither makes progress. */
    method StorePoll()
      requires Valid()
      modifies `submitted, `pending, `completed, `response, `processed, req, req.buffer, rsp`cons, rsp`taken
      ensures Valid()
      ensures rsp.taken == |rsp.stream|
      ensures submitted == [] || req.Room() == 0
      ensures old(processed) <= processed
    {
      hide SendState, Answerable, Answered, Received, DistinctIds, HeadersOf, Partial.Incomplete, Rings.ByteRing.Valid;
      while true
        invariant Valid() && old(processed) <= processed
        decreases Left()
      {
        var written := Send();
        var success, read := ReceiveResponse();
        if success {
          ProcessResponse();
        }
        if written == 0 && read == 0 {
          break;
        }
      }
    }

    // What the peer may do between any two of the methods above.

    /** The peer takes requests off the ring. */
    method PeerReads(n: nat) returns (data: seq<Byte>)
      requires Valid()
      modifies req`cons, req`taken
      ensures Valid() && req.taken == old(req.taken) + |data|
    {
      data := req.CopyOut(n);
    }

    /** The peer decides on its next message: a watch event, or the reply to a pending request that
        it has not replied to yet. */
    ghost method PeerSays(m: Message)
      requires Valid() && Answerable(peer[processed..] + [m], HeadersOf(pending))
      modifies `peer
      ensures Valid() && peer == old(peer) + [m]
    {
      hide SendState, Answerable, Answered, Partial.Incomplete, Rings.ByteRing.Valid, HeadersOf;
      assert (peer + [m])[processed..] == peer[processed..] + [m];
      assert (peer + [m])[..processed] == peer[..processed];
      WiresConcat(peer, [m]);
      peer := peer + [m];
    }

    /** The peer puts up to n more bytes of its messages on the ring. */
    method PeerWrites(more: seq<Byte>)
      requires Valid() && rsp.stream + more <= Wires(peer)
      modifies rsp, rsp.buffer
      ensures Valid() && rsp.taken == old(rsp.taken) && old(rsp.stream) <= rsp.stream
    {
      hide SendState, Answerable, Answered, Partial.Incomplete, HeadersOf, Wires, DistinctIds;
      ghost var stream := rsp.stream;
      var n := rsp.CopyIn(more);
      assert rsp.stream[..rsp.taken] == stream[..rsp.taken];
      assert rsp.stream <= stream + more;
    }
  }

  /** What is on the request ring, and has ever been, is a prefix of the submitted messages. */
  lemma SentIsPrefix(store: Store)
    requires store.Valid()
    ensures store.req.stream <= store.outgoing
    ensures store.submitted == [] ==> store.req.stream == store.outgoing
    ensures |store.req.stream| - store.req.taken <= Rings.RING_BYTES
  {
  }

  /** Receiving inverts sending: once every byte of the peer's messages has been taken off the ring,
      however it was chopped up, exactly these messages have been processed, and the completions
      are the replies among them, in order, each with a request of the same id. */
  lemma ReceivedAll(store: Store)
    requires store.Valid()
    requires store.rsp.stream == Wires(store.peer) && store.rsp.taken == |store.rsp.stream|
    ensures store.processed == |store.peer| && store.response.Bytes() == []
    ensures Replies(store.completed) == Answers(store.peer)
    ensures forall i :: 0 <= i < |store.completed| ==>
              store.completed[i].request.header.reqId == store.completed[i].reply.header.reqId
  {
    hide Wires, Decode, Encode, SendState, DistinctIds, HeadersOf, Rings.ByteRing.Valid;
    var peer, processed, bytes := store.peer, store.processed, store.response.Bytes();
    WiresConcat(peer[..processed], peer[processed..]);
    assert peer == peer[..processed] + peer[processed..];
    assert store.rsp.stream[..store.rsp.taken] == store.rsp.stream;
    var all, before := store.rsp.stream, Wires(peer[..processed]);
    assert bytes == (before + bytes)[|before|..] == all[|before|..];
    assert Wires(peer[processed..]) == (before + Wires(peer[processed..]))[|before|..] == all[|before|..];
    if processed < |peer| {
      FirstWire(peer[processed..]);
      WholeMessage(peer[processed], store.response);
    }
    NoWire();
    assert peer[processed..] == [] && peer[..processed] == peer;
  }

  /** A reply whose bytes include all of a message is not incomplete. */
  lemma WholeMessage(m: Message, response: Partial)
    requires WellFormed(m) && Wire(m) <= response.Bytes()
    ensures !response.Incomplete()
  {
    hide Encode, Decode, VerifyHeader;
    HeaderRoundTrip(m.header);
    assert Encode(m.header) == Wire(m)[..HEADER_BYTES] == response.Bytes()[..HEADER_BYTES];
    if |response.header| == HEADER_BYTES {
      assert response.header == response.Bytes()[..HEADER_BYTES];
    }
  }

  lemma FirstWire(ms: seq<Message>)
    requires ms != []
    ensures Wire(ms[0]) <= Wires(ms)
  {
    assert ms == [ms[0]] + ms[1..];
    WiresConcat([ms[0]], ms[1..]);
    assert [ms[0]][..0] == [];
    assert Wires([ms[0]]) == Wire(ms[0]);
  }

  lemma NoWire()
    ensures Wires([]) == []
  {
  }

  lemma StreamLength(stream: seq<Byte>, submitted: seq<Request>, outgoing: seq<Byte>)
    requires SendState(stream, submitted, outgoing)
    ensures |stream| <= |outgoing|
  {
  }

  lemma TakenLength(stream: seq<Byte>, taken: nat, peer: seq<Message>, processed: nat, bytes: seq<Byte>)
    requires Received(stream, taken, peer, processed, bytes)
    ensures taken <= |stream| && processed <= |peer|
  {
  }

  lemma AnswerableGrows(ms: seq<Message>, before: seq<Header>, after: seq<Header>)
    requires Answerable(ms, before) && before <= after
    ensures Answerable(ms, after)
  {
    forall i | 0 <= i < |ms| && ms[i].header.kind != WATCH_EVENT
      ensures exists j :: 0 <= j < |after| && after[j].reqId == ms[i].header.reqId
    {
      var j :| 0 <= j < |before| && before[j].reqId == ms[i].header.reqId;
      assert after[j] == before[j];
    }
  }

  lemma FinishMessage(stream: seq<Byte>, taken: nat, peer: seq<Message>, processed: nat, bytes: seq<Byte>)
    requires Received(stream, taken, peer, processed, bytes) && processed < |peer| && bytes == Wire(peer[processed])
    ensures Received(stream, taken, peer, processed + 1, [])
  {
    assert peer[..processed + 1][..processed] == peer[..processed];
    assert Wires(peer[..processed + 1]) == Wires(peer[..processed]) + bytes;
  }

  lemma IsAnswerable(ms: seq<Message>, pending: seq<Request>)
    requires ms != [] && Answerable(ms, HeadersOf(pending)) && ms[0].header.kind != WATCH_EVENT
    ensures exists j :: 0 <= j < |pending| && pending[j].header.reqId == ms[0].header.reqId
  {
    var j :| 0 <= j < |HeadersOf(pending)| && HeadersOf(pending)[j].reqId == ms[0].header.reqId;
    assert pending[j].header == HeadersOf(pending)[j];
  }

  lemma RemovePending(ms: seq<Message>, pending: seq<Request>, submitted: seq<Request>, index: nat)
    requires ms != [] && Answerable(ms, HeadersOf(pending)) && ms[0].header.kind != WATCH_EVENT
    requires index < |pending| && pending[index].header.reqId == ms[0].header.reqId
    requires DistinctIds(HeadersOf(pending + submitted))
    ensures var rest := pending[..index] + pending[index + 1..];
            Answerable(ms[1..], HeadersOf(rest)) && DistinctIds(HeadersOf(rest + submitted))
  {
    var rest := pending[..index] + pending[index + 1..];
    var hs, hs1 := HeadersOf(pending), HeadersOf(rest);
    forall i | 0 <= i < |ms[1..]| && ms[1..][i].header.kind != WATCH_EVENT
      ensures exists j :: 0 <= j < |hs1| && hs1[j].reqId == ms[1..][i].header.reqId
    {
      assert ms[1..][i] == ms[i + 1];
      var j :| 0 <= j < |hs| && hs[j].reqId == ms[i + 1].header.reqId;
      assert j != index;
      assert hs1[if j < index then j else j - 1] == hs[j];
    }
    DistinctWithout(pending, submitted, index);
  }

  lemma DistinctWithout(pending: seq<Request>, submitted: seq<Request>, index: nat)
    requires index < |pending| && DistinctIds(HeadersOf(pending + submitted))
    ensures DistinctIds(HeadersOf(pending[..index] + pending[index + 1..] + submitted))
  {
    var hs, hs1 := HeadersOf(pending + submitted), HeadersOf(pending[..index] + pending[index + 1..] + submitted);
    forall i | 0 <= i < |hs1| ensures hs1[i] == hs[if i < index then i else i + 1] {
    }
  }

  lemma SkipWatch(ms: seq<Message>, pending: seq<Request>)
    requires ms != [] && Answerable(ms, HeadersOf(pending))
    ensures Answerable(ms[1..], HeadersOf(pending))
  {
    forall i | 0 <= i < |ms[1..]| ensures ms[1..][i] == ms[i + 1] && ms[i + 1] in ms {
    }
  }

  lemma AnswerNext(completed: seq<Completion>, ms: seq<Message>, c: Completion)
    requires Answered(completed, ms) && c.request.header.reqId == c.reply.header.reqId
             && c.reply.header.kind != WATCH_EVENT
    ensures Answered(completed + [c], ms + [c.reply])
  {
    assert (completed + [c])[..|completed|] == completed;
    assert (ms + [c.reply])[..|ms|] == ms;
  }

  lemma WatchNext(completed: seq<Completion>, ms: seq<Message>, m: Message)
    requires Answered(completed, ms) && m.header.kind == WATCH_EVENT
    ensures Answered(completed, ms + [m])
  {
    assert (ms + [m])[..|ms|] == ms;
  }

  lemma NothingYet()
    ensures NOTHING.Bytes() == [] && NOTHING.Incomplete()
  {
  }

  lemma VerifiedLength(h: Header)
    requires VerifyHeader(h)
    ensures 0 <= h.len < PAYLOAD_MAX
  {
  }

  lemma TakeMore(stream: seq<Byte>, taken: nat, n: nat, peer: seq<Message>, processed: nat, bytes: seq<Byte>)
    requires Received(stream, taken, peer, processed, bytes) && taken + n <= |stream|
    ensures Received(stream, taken + n, peer, processed, bytes + stream[taken..taken + n])
  {
    assert stream[..taken + n] == stream[..taken] + stream[taken..taken + n];
    assert Wires(peer[..processed]) + (bytes + stream[taken..taken + n])
           == (Wires(peer[..processed]) + bytes) + stream[taken..taken + n];
  }

  /** The bytes of the reply in progress are the beginning of the next message. */
  lemma NextMessage(stream: seq<Byte>, taken: nat, peer: seq<Message>, processed: nat, bytes: seq<Byte>)
    requires Received(stream, taken, peer, processed, bytes) && bytes != []
    ensures processed < |peer|
    ensures var w := Wire(peer[processed]);
            var n := if |bytes| < |w| then |bytes| else |w|;
            bytes[..n] == w[..n]
  {
    hide Wires, Wire;
    var before, after := peer[..processed], peer[processed..];
    assert peer == before + after;
    WiresConcat(before, after);
    NoWire();
    Drop(Wires(before), bytes, Wires(after), stream[..taken], Wires(peer));
    if processed < |peer| {
      FirstWire(after);
      Common(bytes, Wire(peer[processed]), Wires(after));
    }
  }

  lemma Drop(a: seq<Byte>, b: seq<Byte>, c: seq<Byte>, ab: seq<Byte>, ac: seq<Byte>)
    requires ab == a + b && ac == a + c && ab <= ac
    ensures b <= c
  {
    assert b == ab[|a|..] && c == ac[|a|..];
  }

  lemma Common(b: seq<Byte>, w: seq<Byte>, c: seq<Byte>)
    requires b <= c && w <= c
    ensures var n := if |b| < |w| then |b| else |w|;
            b[..n] == w[..n]
  {
  }

  lemma HeaderArrived(stream: seq<Byte>, taken: nat, peer: seq<Message>, processed: nat, header: seq<Byte>,
                      pending: seq<Header>)
    requires Received(stream, taken, peer, processed, header) && |header| == HEADER_BYTES
    requires Answerable(peer[processed..], pending)
    ensures processed < |peer| && Decode(header) == peer[processed].header && header == Encode(peer[processed].header)
    ensures VerifyHeader(Decode(header)) && Decode(header).len == |peer[processed].payload|
    ensures Decode(header).len == 0 ==> header == Wire(peer[processed]) && peer[processed].payload == []
  {
    hide Decode, Encode, Received, VerifyHeader;
    NextMessage(stream, taken, peer, processed, header);
    var m := peer[processed];
    assert m in peer[processed..];
    HeaderRoundTrip(m.header);
    assert header == Wire(m)[..HEADER_BYTES];
  }

  lemma PayloadArrived(stream: seq<Byte>, taken: nat, peer: seq<Message>, processed: nat, header: seq<Byte>,
                       payload: seq<Byte>,
                       pending: seq<Header>)
    requires Received(stream, taken, peer, processed, header + payload) && |header| == HEADER_BYTES
    requires |payload| <= Decode(header).len && Answerable(peer[processed..], pending)
    ensures processed < |peer| && Decode(header) == peer[processed].header
    ensures |payload| == Decode(header).len ==>
            payload == peer[processed].payload && header + payload == Wire(peer[processed])
  {
    hide Decode, Encode, Received, VerifyHeader;
    NextMessage(stream, taken, peer, processed, header + payload);
    var m := peer[processed];
    assert m in peer[processed..];
    HeaderRoundTrip(m.header);
    assert header == (header + payload)[..HEADER_BYTES] == Wire(m)[..HEADER_BYTES];
    assert Wire(m) == header + m.payload;
  }

  lemma DistinctWith(rs: seq<Request>, r: Request)
    requires DistinctIds(HeadersOf(rs)) && forall q :: q in rs ==> q.header.reqId != r.header.reqId
    ensures DistinctIds(HeadersOf(rs + [r]))
  {
    var hs, hs1 := HeadersOf(rs), HeadersOf(rs + [r]);
    assert forall i :: 0 <= i < |rs| ==> hs1[i] == hs[i] && rs[i] in rs;
  }

  lemma SubmitState(stream: seq<Byte>, submitted: seq<Request>, outgoing: seq<Byte>, r: Request)
    requires SendState(stream, submitted, outgoing) && ValidRequest(r)
    ensures SendState(stream, submitted + [r], outgoing + Unsent(r))
  {
    hide Unsent;
    UnsentConcat(submitted, [r]);
    assert [r][1..] == [];
    assert UnsentAll([r]) == Unsent(r);
  }

  lemma FirstIsValid(stream: seq<Byte>, submitted: seq<Request>, outgoing: seq<Byte>)
    requires SendState(stream, submitted, outgoing) && submitted != []
    ensures ValidRequest(submitted[0])
  {
  }

  lemma SentSome(stream0: seq<Byte>, stream: seq<Byte>, submitted: seq<Request>, outgoing: seq<Byte>, r: Request)
    requires SendState(stream0, submitted, outgoing) && submitted != [] && ValidRequest(r)
    requires stream + Unsent(r) == stream0 + Unsent(submitted[0])
    ensures SendState(stream, [r] + submitted[1..], outgoing)
  {
    hide Unsent;
    var rest := UnsentAll(submitted[1..]);
    assert ([r] + submitted[1..])[1..] == submitted[1..];
    assert stream + (Unsent(r) + rest) == (stream + Unsent(r)) + rest;
    assert stream0 + (Unsent(submitted[0]) + rest) == (stream0 + Unsent(submitted[0])) + rest;
  }

  lemma SentAll(stream: seq<Byte>, submitted: seq<Request>, outgoing: seq<Byte>)
    requires SendState(stream, submitted, outgoing) && submitted != [] && Unsent(submitted[0]) == []
    ensures SendState(stream, submitted[1..], outgoing)
  {
  }

  lemma SameHeaders(pending: seq<Request>, r0: Request, r: Request, rest: seq<Request>)
    requires r.header == r0.header
    ensures HeadersOf(pending + ([r] + rest)) == HeadersOf(pending + ([r0] + rest))
  {
  }

  lemma MoveHeader(pending: seq<Request>, r: Request, rest: seq<Request>)
    ensures pending + ([r] + rest) == (pending + [r]) + rest
    ensures HeadersOf(pending) <= HeadersOf(pending + [r])
  {
  }

  lemma RestHead(seg: Segment, rest: seq<Segment>)
    requires seg.offset <= |seg.data|
    ensures Rest([seg] + rest) == seg.data[seg.offset..] + Rest(rest)
  {
    assert ([seg] + rest)[1..] == rest;
  }

  lemma UnsentStep(r: Request, copied: nat)
    requires ValidRequest(r) && r.index < |r.segments|
    requires r.segments[r.index].offset + copied <= |r.segments[r.index].data|
    ensures var seg := r.segments[r.index];
            var r1 := r.(segments := r.segments[r.index := seg.(offset := seg.offset + copied)]);
            ValidRequest(r1) && Unsent(r) == seg.data[seg.offset..][..copied] + Unsent(r1)
  {
    hide Rest, ValidRequest, Unsent;
    ValidStep(r, copied);
    var seg, rest := r.segments[r.index], r.segments[r.index + 1..];
    var seg1 := seg.(offset := seg.offset + copied);
    UnsentIs(r);
    UnsentIs(r.(segments := r.segments[r.index := seg1]));
    Tails(r.segments, r.index, seg1);
    RestHead(seg, rest);
    RestHead(seg1, rest);
    Cut(seg.data, seg.offset, copied);
    Attach(seg.data[seg.offset..][..copied], seg.data[seg1.offset..], Rest(rest));
  }

  lemma UnsentIs(r: Request)
    requires r.index <= |r.segments|
    ensures Unsent(r) == Rest(r.segments[r.index..])
  {
  }

  lemma ValidStep(r: Request, copied: nat)
    requires ValidRequest(r) && r.index < |r.segments|
    requires r.segments[r.index].offset + copied <= |r.segments[r.index].data|
    ensures r.segments[r.index].offset <= |r.segments[r.index].data|
    ensures var seg := r.segments[r.index];
            ValidRequest(r.(segments := r.segments[r.index := seg.(offset := seg.offset + copied)]))
  {
  }

  lemma Tails<T>(s: seq<T>, i: nat, x: T)
    requires i < |s|
    ensures s[i..] == [s[i]] + s[i + 1..] && s[i := x][i..] == [x] + s[i + 1..]
  {
  }

  lemma Cut<T>(s: seq<T>, at: nat, n: nat)
    requires at + n <= |s|
    ensures s[at..] == s[at..][..n] + s[at + n..]
  {
  }

  lemma Attach<T>(a: seq<T>, b: seq<T>, c: seq<T>)
    ensures (a + b) + c == a + (b + c)
  {
  }

  lemma UnsentNext(r: Request)
    requires r.index < |r.segments| && r.segments[r.index].offset == |r.segments[r.index].data|
    ensures Unsent(r.(index := r.index + 1)) == Unsent(r)
  {
    assert r.segments[r.index..][1..] == r.segments[r.index + 1..];
  }

  lemma UnsentDone(r: Request)
    requires r.index == |r.segments|
    ensures Unsent(r) == []
  {
  }

  /** The bytes taken off the ring are the processed messages and the reply in progress, and the
      whole stream is a prefix of what the peer has to say. */
  ghost predicate Received(stream: seq<Byte>, taken: nat, peer: seq<Message>, processed: nat, bytes: seq<Byte>) {
    && processed <= |peer| && taken <= |stream|
    && stream <= Wires(peer)
    && Wires(peer[..processed]) + bytes == stream[..taken]
  }

  /** The completions are the replies among the processed messages, each with its request. */
  ghost predicate Answered(completed: seq<Completion>, processed: seq<Message>) {
    && Replies(completed) == Answers(processed)
    && forall i :: 0 <= i < |completed| ==> completed[i].request.header.reqId == completed[i].reply.header.reqId
  }

  /** The bytes on the ring and the bytes still to be sent are together the bytes submitted. */
  ghost predicate SendState(stream: seq<Byte>, submitted: seq<Request>, outgoing: seq<Byte>) {
    && stream + UnsentAll(submitted) == outgoing
    && forall i :: 0 <= i < |submitted| ==> ValidRequest(submitted[i])
  }
}
