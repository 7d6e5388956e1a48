/**
 Requests and responses on a connection: the bytes of a request arrive in whatever pieces the
 network makes of them, and a response leaves in whatever pieces it takes.
 */
module Framing {
  import opened Codec
  import opened RwBuffers

  const REQ_HDR_SIZE: nat := 5
  const RSP_HDR_SIZE: nat := 6

  /** The server id and the fid of a write request. */
  const INNER_HDR_SIZE: nat := 10

  datatype ConnState = ReceiveHdr | ReceiveBody | ProcessRequest | SendRsp

  /** How a step on a connection ends: it has to wait, it can go on, a request is handed on, a
      response is finished, the connection is given up, or nothing is done although there is something
      to send. */
  datatype Status = Waiting | Progressed | Dispatched | Finished | Freed | Stalled

  function BodyLength(r: seq<byte>): nat
    requires |r| >= REQ_HDR_SIZE
  {
    FromBigEndian(r[1..REQ_HDR_SIZE])
  }

  /** All of a request has been received. */
  predicate Complete(r: seq<byte>) { |r| >= REQ_HDR_SIZE && |r| >= REQ_HDR_SIZE + BodyLength(r) }

  lemma BodyLengthStays(r: seq<byte>, s: seq<byte>)
    requires |r| >= REQ_HDR_SIZE && r <= s
    ensures BodyLength(s) == BodyLength(r) && s[0] == r[0]
  {
    assert s[1..REQ_HDR_SIZE] == r[1..REQ_HDR_SIZE];
  }

  /** What a socket answers to a write: it takes up to so many bytes, and one at least, it has no room,
      or the peer is gone. */
  datatype Answer = Takes(most: nat) | Full | Gone

  /** The far end of a connection: what it answers, one write after the other, and what it has got. */
  class Socket {
    const answers: nat -> Answer
    var calls: nat
    var wire: seq<byte>

    constructor (answers: nat -> Answer)
      ensures this.answers == answers && calls == 0 && wire == []
    {
      this.answers, calls, wire := answers, 0, [];
    }

    /** All writes from the `i`-th up to the `j`-th were taken. */
    ghost predicate Took(i: nat, j: nat) { forall k :: i <= k < j ==> answers(k).Takes? }

    /** write(2): some of the bytes, or none because there is no room (-1) or the peer is gone (-2). */
    method Write(buf: seq<byte>) returns (n: int)
      requires buf != []
      modifies this
      ensures calls == old(calls) + 1
      ensures n == match answers(old(calls))
                   case Takes(most) => if most == 0 then 1 else Min(most, |buf|)
                   case Full => -1
                   case Gone => -2
      ensures wire == if n < 0 then old(wire) else old(wire) + buf[..n]
    {
      match answers(calls) {
        case Takes(most) =>
          n := if most == 0 then 1 else Min(most, |buf|);
          wire := wire + buf[..n];
        case Full => n := -1;
        case Gone => n := -2;
      }
      calls := calls + 1;
    }
  }

  class Connection {
    const request: RwBuffer
    const rspBody: RwBuffer
    const rspHeader: array<byte>
    var state: ConnState
    var opcode: nat
    var error: nat
    var bodyLen: nat
    var sentLen: nat

    constructor ()
      ensures state == ReceiveHdr && sentLen == 0 && fresh(request) && fresh(rspBody) && request != rspBody
      ensures request.Valid() && rspBody.Valid() && request.blocks == rspBody.blocks == []
      ensures rspHeader.Length == RSP_HDR_SIZE && fresh(rspHeader)
    {
      request := new RwBuffer();
      rspBody := new RwBuffer();
      rspHeader := new byte[RSP_HDR_SIZE](_ => 0);
      state, opcode, error, bodyLen, sentLen := ReceiveHdr, 0, 0, 0, 0;
    }

    // -------------------------------------------------------------------------
    // Receiving.

    /** What has been taken from the request so far belongs to the state. */
    ghost predicate Parsed()
      reads this, request, request.blocks
    {
      var r := request.Written();
      match state
      case ReceiveHdr => request.readPos == 0
      case ReceiveBody => Opened(r)
      case _ => false
    }

    ghost predicate Opened(r: seq<byte>)
      reads this, request
    {
      request.readPos == REQ_HDR_SIZE <= |r| && opcode == r[0] as int && bodyLen == BodyLength(r)
    }

    /** Looks at what has been received, and hands a request on when it is all there. */
    method ProcessReceiveBuffer() returns (status: Status)
      requires request.Valid() && Parsed()
      modifies this`state, this`opcode, this`bodyLen, request`readPos, request`readBlock, request`readBase
      ensures request.Valid()
      ensures status == if Complete(request.Written()) then Dispatched else Waiting
      ensures status.Waiting? ==> Parsed()
      ensures status.Dispatched? ==> state == ProcessRequest && Opened(request.Written())
    {
      hide RwBuffer.Valid, RwBuffer.Written, BodyLength;
      ghost var r := request.Written();
      assert |r| == request.writePos by { WrittenLength(request); }
      if state == ReceiveHdr && request.writePos - request.readPos >= REQ_HDR_SIZE {
        var header := request.ReadN(REQ_HDR_SIZE);
        opcode := ReadFrom1(header, 0);
        bodyLen := ReadFrom4(header, 1);
        HeaderFields(r, header);
        state := ReceiveBody;
      }
      if state == ReceiveBody && request.writePos - request.readPos >= bodyLen {
        state := ProcessRequest;
      }
      status := if state == ProcessRequest then Dispatched else Waiting;
    }

    /** The request buffer and the pool go together. */
    ghost predicate Fed(pool: MemPool)
      reads this, request, pool
    {
      request.Valid() && pool.Valid() && request.DrawsOn(pool)
    }

    /** The blocks a request can be put into without a new one. */
    ghost function Memory(pool: MemPool): set<array<byte>>
      reads this, request, pool
    {
      (set b | b in request.blocks) + (set b | b in pool.free)
    }

    /** What the request buffer can hold with the free blocks there are. */
    ghost function Space(pool: MemPool): nat
      reads this, request, pool
    {
      request.cap + |pool.free| * BLOCK_SIZE
    }

    /** The buffer is full and no block is left for it. */
    ghost predicate Exhausted(pool: MemPool)
      reads this, request, pool
    {
      request.writePos == request.cap && pool.free == []
    }

    /** Makes sure there is room in the request buffer. One block is always enough. */
    method MakeRoom(pool: MemPool, calloc: bool) returns (ok: bool, block: nat, off: nat, len: nat)
      requires Fed(pool)
      modifies request, pool
      ensures Fed(pool) && request.Written() == old(request.Written()) && request.readPos == old(request.readPos)
      ensures forall b :: b in Memory(pool) ==> fresh(b) || b in old(Memory(pool))
      ensures ok ==> Room(request, block, off, len)
      ensures !ok ==> Exhausted(pool)
      ensures Space(pool) >= old(Space(pool)) && request.writePos == old(request.writePos)
    {
      hide RwBuffer.Valid, RwBuffer.Written, MemPool.Valid;
      ok, block, off, len := request.NextWriteable();
      if !ok {
        assert request.writePos == request.cap by { WrittenLength(request); }
        var expanded := request.Expand(pool, calloc);
        if expanded {
          ok, block, off, len := request.NextWriteable();
        }
      }
    }

    /** Takes some of the bytes that have arrived. */
    method ReadHandler(pool: MemPool, calloc: bool, arrived: seq<byte>) returns (status: Status, n: nat)
      requires Fed(pool) && Parsed()
      modifies this`state, this`opcode, this`bodyLen, request, pool, Memory(pool)
      ensures forall b :: b in Memory(pool) ==> fresh(b) || b in old(Memory(pool))
      ensures status.Freed? ==> arrived == [] || (Exhausted(pool) && request.writePos == old(request.writePos))
      ensures Space(pool) >= old(Space(pool))
      ensures !status.Freed? ==>
                && Fed(pool) && 0 < n <= |arrived| && request.Written() == old(request.Written()) + arrived[..n]
                && status == (if Complete(request.Written()) then Dispatched else Waiting)
                && (if status.Waiting? then Parsed() else state == ProcessRequest && Opened(request.Written()))
    {
      hide RwBuffer.Valid, RwBuffer.Written, MemPool.Valid, BodyLength, Complete;
      var ok, block, off, len := MakeRoom(pool, calloc);
      if !ok || arrived == [] {
        return Freed, 0;
      }
      var most := Min(len, |arrived|);
      n :| 0 < n <= most;
      assert request.blocks[block] in request.blocks;
      ghost var before := request.Written();
      assert |before| == request.writePos by { WrittenLength(request); }
      request.Append(block, off, arrived[..n]);
      if state == ReceiveBody { BodyLengthStays(before, request.Written()); }
      status := ProcessReceiveBuffer();
    }

    /** A request that arrives in any pieces, with allocations that succeed or fail, is handed on
        exactly once, with its opcode and body, when the last of its bytes is in. It is given up only
        with a full buffer and no block left, and never if the free blocks have room for it; then it
        has not been handed on. */
    method ReceiveRequest(pool: MemPool, msg: seq<byte>) returns (ok: bool, dispatches: nat)
      requires Fed(pool) && state == ReceiveHdr && request.readPos == request.writePos == 0
      requires |msg| >= REQ_HDR_SIZE && |msg| == REQ_HDR_SIZE + BodyLength(msg)
      modifies this`state, this`opcode, this`bodyLen, request, pool, Memory(pool)
      ensures ok ==> dispatches == 1 && state == ProcessRequest && Fed(pool)
                     && opcode == msg[0] as int && bodyLen == |msg| - REQ_HDR_SIZE
                     && request.readPos == REQ_HDR_SIZE && request.Written() == msg
      ensures !ok ==> dispatches == 0 && Exhausted(pool) && request.writePos < |msg|
      ensures |msg| <= old(Space(pool)) ==> ok
    {
      hide RwBuffer.Valid, RwBuffer.Written, MemPool.Valid, BodyLength, Complete;
      var got := 0;
      dispatches := 0;
      assert request.Written() == msg[..0] by { WrittenLength(request); }
      while got < |msg|
        invariant 0 <= got <= |msg| && Fed(pool) && request.Written() == msg[..got]
        invariant forall b :: b in Memory(pool) ==> fresh(b) || b in old(Memory(pool))
        invariant Space(pool) >= old(Space(pool))
        invariant if got < |msg| then dispatches == 0 && Parsed() else dispatches == 1 && state == ProcessRequest && Opened(msg)
      {
        assert request.writePos == got by { WrittenLength(request); }
        var calloc := *;
        var status, n;
        status, n := ReadHandler(pool, calloc, msg[got..]);
        if status.Freed? {
          return false, dispatches;
        }
        assert msg[..got] + msg[got..][..n] == msg[..got + n];
        got := got + n;
        CompleteExactly(msg, got);
        if status.Dispatched? {
          dispatches := dispatches + 1;
        }
      }
      ok := true;
    }

    /** A write request that has been received has a size that its buffer bounds: what the storage
        engine is asked of a request that arrives. */
    lemma RequestReceivable(pool: MemPool)
      requires Fed(pool) && Opened(request.Written()) && Complete(request.Written()) && bodyLen >= INNER_HDR_SIZE
      ensures Receivable(bodyLen - INNER_HDR_SIZE, pool.Most())
    {
      hide RwBuffer.Valid, RwBuffer.Written, MemPool.Valid;
      WrittenLength(request);
      request.CapBounded(pool);
      BigEndianOfFromBigEndian(request.Written()[1..REQ_HDR_SIZE]);
      Pow256Values();
    }

    // -------------------------------------------------------------------------
    // Sending.

    /** The header of a response: opcode, error, length of the body. */
    method ReplyHeader()
      requires rspHeader.Length == RSP_HDR_SIZE && opcode < 0x100 && error < 0x100 && bodyLen < 0x1_0000_0000
      modifies rspHeader
      ensures rspHeader[..] == BigEndian(opcode, 1) + BigEndian(error, 1) + BigEndian(bodyLen, 4)
    {
      hide BigEndian;
      ghost var s0 := rspHeader[..];
      WriteTo1(rspHeader, 0, opcode);
      SplicePrefix(s0, 0, BigEndian(opcode, 1));
      ghost var s1 := rspHeader[..];
      WriteTo1(rspHeader, 1, error);
      SplicePrefix(s1, 1, BigEndian(error, 1));
      ghost var s2 := rspHeader[..];
      WriteTo4(rspHeader, 2, bodyLen);
      SplicePrefix(s2, 2, BigEndian(bodyLen, 4));
      assert rspHeader[..] == rspHeader[..][..6];
    }

    /** The whole response, whose body is in the buffer from `base` on. */
    ghost function Response(base: nat): seq<byte>
      reads this, rspHeader, rspBody, rspBody.blocks
    {
      rspHeader[..] + Stretch(rspBody.Written(), base, bodyLen)
    }

    /** What has left so far is the front of the response. */
    ghost predicate Sending(base: nat, wire: seq<byte>, before: seq<byte>)
      reads this, rspHeader, rspBody, rspBody.blocks
    {
      && rspBody.Valid() && rspHeader.Length == RSP_HDR_SIZE && base + bodyLen <= rspBody.writePos
      && rspBody.readPos == base + Beyond(sentLen)
      && |Response(base)| == RSP_HDR_SIZE + bodyLen && sentLen <= |Response(base)|
      && wire == before + Response(base)[..sentLen]
    }

    /** The bytes to send next: the rest of the header, or what the body's current block holds. */
    method NextPart(ghost base: nat, ghost wire: seq<byte>, ghost before: seq<byte>) returns (buf: seq<byte>)
      requires Sending(base, wire, before) && sentLen < RSP_HDR_SIZE + bodyLen
      modifies rspBody`readBlock, rspBody`readBase
      ensures Sending(base, wire, before) && Response(base) == old(Response(base))
      ensures buf != [] && sentLen + |buf| <= |Response(base)|
      ensures buf == Response(base)[sentLen..sentLen + |buf|]
      ensures if sentLen < RSP_HDR_SIZE then sentLen + |buf| == RSP_HDR_SIZE else rspBody.CanSkip(|buf|)
    {
      hide RwBuffer.Valid, RwBuffer.Written, RwBuffer.CanSkip, Stretch;
      if sentLen < RSP_HDR_SIZE {
        var len := RSP_HDR_SIZE - sentLen;
        buf := rspHeader[sentLen..sentLen + len];
        HeaderPart(rspHeader[..], rspBody.Written(), base, bodyLen, sentLen, len);
      } else {
        assert |rspBody.Written()| == rspBody.writePos by { WrittenLength(rspBody); }
        var ok;
        ok, buf := rspBody.Peek(RSP_HDR_SIZE + bodyLen - sentLen);
        assert ok;   // the body lies in the buffer
        BodyPart(rspHeader[..], rspBody.Written(), base, bodyLen, sentLen, |buf|);
      }
    }

    /** Sends what comes next, as far as the socket takes it. */
    method SendSome(socket: Socket, ghost base: nat, ghost before: seq<byte>) returns (status: Status)
      requires Sending(base, socket.wire, before) && sentLen < RSP_HDR_SIZE + bodyLen
      modifies socket, this`sentLen, rspBody`readPos, rspBody`readBlock, rspBody`readBase
      ensures status.Progressed? || status.Waiting? ==> Sending(base, socket.wire, before)
      ensures Response(base) == old(Response(base))
      ensures status.Progressed? ==> sentLen > old(sentLen)
      ensures status.Waiting? ==> sentLen == old(sentLen)
      ensures socket.calls == old(socket.calls) + 1
      ensures status == Verdict(socket.answers(old(socket.calls)))
    {
      hide RwBuffer.Valid, RwBuffer.Written, RwBuffer.CanSkip, Stretch;
      var buf := NextPart(base, socket.wire, before);
      var nwritten := socket.Write(buf);
      if nwritten == -1 {
        return Waiting;
      }
      if nwritten < 0 {
        return Freed;
      }
      SentMore(Response(base), before, sentLen, |buf|, nwritten);
      if sentLen >= RSP_HDR_SIZE {
        assert rspBody.CanSkip(nwritten) by { SkipLess(rspBody, |buf|, nwritten); }
        rspBody.Skip(nwritten);
      }
      sentLen := sentLen + nwritten;
      status := Progressed;
    }

    /** Called whenever the socket takes more. What is left to send is kept in an int: with 2^31 bytes or
        more nothing is done. Otherwise it goes on until the socket is full or gone, or all is sent:
        over all calls exactly the response leaves, and the connection is reset once, when all of it
        has left. A response is to a stored file of at most 2^32 - 11 bytes, or short. */
    method WriteHandler(socket: Socket, pool: MemPool, ghost base: nat, ghost before: seq<byte>) returns (status: Status)
      requires Sending(base, socket.wire, before) && Owns(pool) && bodyLen + INNER_HDR_SIZE < 0x1_0000_0000
      modifies socket, this`sentLen, this`error, this`bodyLen, this`state, request, rspBody, pool
      ensures status.Stalled? <==> old(RSP_HDR_SIZE + bodyLen - sentLen) >= 0x8000_0000
      ensures status.Stalled? ==> Sending(base, socket.wire, before) && socket.calls == old(socket.calls) && Owns(pool)
      ensures status.Waiting? ==> Sending(base, socket.wire, before) && old(sentLen) <= sentLen && Owns(pool)
      ensures status.Finished? ==> socket.wire == before + old(Response(base))
      ensures status.Finished? ==>
                && state == ReceiveHdr && sentLen == 0 && pool.Valid()
                && request.Valid() && rspBody.Valid() && request.blocks == rspBody.blocks == []
                && request.readPos == request.writePos == 0
                && |pool.free| == old(|pool.free| + |request.blocks| + |rspBody.blocks|)
      ensures socket.calls >= old(socket.calls)
      ensures status.Finished? ==> socket.Took(old(socket.calls), socket.calls)
      ensures !status.Finished? && !status.Stalled? ==>
                && socket.calls > old(socket.calls) && socket.Took(old(socket.calls), socket.calls - 1)
                && status == Verdict(socket.answers(socket.calls - 1)) && !status.Progressed?
    {
      hide RwBuffer.Valid, RwBuffer.Written, RwBuffer.CanSkip, Stretch, MemPool.Valid, SetOf, Int32;
      ghost var whole := Response(base);
      SmallInt(RSP_HDR_SIZE + bodyLen - sentLen);
      var remaining := Int32(RSP_HDR_SIZE + bodyLen - sentLen);
      if remaining < 0 {
        return Stalled;
      }
      while remaining > 0
        invariant Sending(base, socket.wire, before) && Response(base) == whole && Owns(pool)
        invariant bodyLen == old(bodyLen) && sentLen >= old(sentLen) && 0 <= remaining == RSP_HDR_SIZE + bodyLen - sentLen
        invariant rspBody.blocks == old(rspBody.blocks) && request.blocks == old(request.blocks) && pool.free == old(pool.free)
        invariant socket.calls >= old(socket.calls) && socket.Took(old(socket.calls), socket.calls)
        decreases RSP_HDR_SIZE + bodyLen - sentLen
      {
        var step := SendSome(socket, base, before);
        if !step.Progressed? {
          return step;
        }
        SmallInt(RSP_HDR_SIZE + bodyLen - sentLen);
        remaining := Int32(RSP_HDR_SIZE + bodyLen - sentLen);
      }
      assert whole[..|whole|] == whole;
      ResetClientConnection(pool);
      status := Finished;
    }

    /** The two buffers have their blocks from the pool, and none in common. */
    ghost predicate Owns(pool: MemPool)
      reads this, request, rspBody, pool
    {
      && request != rspBody && request.Valid() && rspBody.Valid() && pool.Valid()
      && request.DrawsOn(pool) && rspBody.DrawsOn(pool)
      && SetOf(request.blocks) !! SetOf(rspBody.blocks)
    }

    method ResetClientConnection(pool: MemPool)
      requires Owns(pool)
      modifies this`sentLen, this`error, this`bodyLen, this`state, request, rspBody, pool
      ensures pool.Valid() && request.Valid() && rspBody.Valid() && request.blocks == rspBody.blocks == []
      ensures request.readPos == request.writePos == 0 && rspBody.readPos == rspBody.writePos == 0
      ensures |pool.free| == old(|pool.free| + |request.blocks| + |rspBody.blocks|)
      ensures state == ReceiveHdr && sentLen == error == bodyLen == 0
    {
      hide RwBuffer.Valid, MemPool.Valid;
      request.Reset(pool);
      rspBody.Reset(pool);
      sentLen, error, bodyLen, state := 0, 0, 0, ReceiveHdr;
    }
  }

  function Verdict(a: Answer): Status {
    match a
    case Takes(_) => Progressed
    case Full => Waiting
    case Gone => Freed
  }

  /** As an int, a count below 2^32 is what it is, or negative. */
  lemma SmallInt(n: nat)
    requires n < 0x1_0000_0000
    ensures if n < 0x8000_0000 then Int32(n) == n else Int32(n) < 0
  {
  }

  function Beyond(sent: nat): nat { if sent <= RSP_HDR_SIZE then 0 else sent - RSP_HDR_SIZE }

  ghost function Stretch(s: seq<byte>, from: nat, n: nat): seq<byte> {
    if from + n <= |s| then s[from..from + n] else []
  }

  lemma HeaderPart(header: seq<byte>, body: seq<byte>, base: nat, n: nat, sent: nat, len: nat)
    requires |header| == RSP_HDR_SIZE && sent + len <= RSP_HDR_SIZE
    ensures sent + len <= |header + Stretch(body, base, n)|
    ensures header[sent..sent + len] == (header + Stretch(body, base, n))[sent..sent + len]
  {
  }

  lemma BodyPart(header: seq<byte>, body: seq<byte>, base: nat, n: nat, sent: nat, len: nat)
    requires |header| == RSP_HDR_SIZE <= sent && base + n <= |body| && sent + len <= RSP_HDR_SIZE + n
    ensures sent + len <= |header + Stretch(body, base, n)|
    ensures base + Beyond(sent) + len <= |body|
    ensures body[base + Beyond(sent)..base + Beyond(sent) + len] == (header + Stretch(body, base, n))[sent..sent + len]
  {
    var k := sent - RSP_HDR_SIZE;
    SliceSlice(body, base, base + n, k, k + len);
    assert (header + body[base..base + n])[sent..sent + len] == body[base..base + n][k..k + len];
  }

  lemma SentMore(whole: seq<byte>, before: seq<byte>, sent: nat, len: nat, k: nat)
    requires sent + len <= |whole| && k <= len
    ensures before + whole[..sent] + whole[sent..sent + len][..k] == before + whole[..sent + k]
  {
  }

  lemma SkipLess(b: RwBuffer, n: nat, k: nat)
    requires b.CanSkip(n) && k <= n
    ensures b.CanSkip(k)
  {
  }

  /** A request is complete when all of it has come, and not before. */
  lemma CompleteExactly(msg: seq<byte>, n: nat)
    requires |msg| >= REQ_HDR_SIZE && |msg| == REQ_HDR_SIZE + BodyLength(msg) && n <= |msg|
    ensures Complete(msg[..n]) <==> n == |msg|
    ensures n == |msg| ==> msg[..n] == msg
  {
    hide BodyLength;
    if n >= REQ_HDR_SIZE { BodyLengthStays(msg[..n], msg); }
  }

  /** There is room for `len` bytes at the write cursor. */
  ghost predicate Room(b: RwBuffer, block: nat, off: nat, len: nat)
    reads b
  {
    && block < |b.blocks| && 0 < len && off + len <= b.blocks[block].Length
    && block == b.writeBlock && b.writeBase + off == b.writePos
  }

  lemma HeaderFields(r: seq<byte>, header: seq<byte>)
    requires |r| >= REQ_HDR_SIZE && header == r[0..REQ_HDR_SIZE]
    ensures ReadFrom1(header, 0) == r[0] as int && ReadFrom4(header, 1) == BodyLength(r)
  {
    assert header[1..5] == r[1..5];
  }
}
