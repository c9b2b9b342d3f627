/**
 rtc::AsyncTCPSocket: packets over a stream socket. Writes may be cut short, reads may
 return any chunk; the operating system's choices are data, so that every statement
 quantifies over all of them.
 */
module AsyncTcp {
  import opened Words
  import opened Framing

  const MINIMUM_RECV_SIZE := 128

  datatype Errno = NoError | EWouldBlock | EMsgSize | OtherError(code: int)

  /** One answer of the operating system: the returned count, and what GetError() says afterwards. */
  datatype Reply = Reply(res: int, error: Errno)

  /** A connected stream socket. `replies` are its answers to the coming calls; when they run out it would block. */
  class Socket {
    var replies: seq<Reply>
    var error: Errno
    // Written by this end and not yet moved to the peer.
    var outgoing: seq<Byte>
    // Moved here from the peer and not yet received.
    var incoming: seq<Byte>

    constructor ()
      ensures outgoing == [] && incoming == []
    {
      replies, error, outgoing, incoming := [], NoError, [], [];
    }

    /** Takes some of `data`, and reports at most what was offered. */
    method Send(data: seq<Byte>) returns (res: int)
      requires |data| > 0
      modifies this`replies, this`error, this`outgoing
      ensures res <= |data|
      ensures outgoing == old(outgoing) + data[..if res > 0 then res else 0]
      ensures old(replies) == [] ==> res == -1 && error == EWouldBlock && replies == []
      ensures old(replies) != [] ==> replies == old(replies)[1..] && error == old(replies)[0].error
      ensures old(replies) != [] ==> res == Min(old(replies)[0].res, |data|)
    {
      if replies == [] {
        error := EWouldBlock;
        return -1;
      }
      res := Min(replies[0].res, |data|);
      error, replies := replies[0].error, replies[1..];
      if res > 0 {
        outgoing := outgoing + data[..res];
      }
    }

    /** Hands over at most `size` of the bytes that have arrived; a negative count reports an error. */
    method Recv(size: nat) returns (len: int, bytes: seq<Byte>)
      modifies this`replies, this`error, this`incoming
      ensures len <= size && |bytes| == if len > 0 then len else 0
      ensures |bytes| <= |old(incoming)| && bytes == old(incoming)[..|bytes|] && incoming == old(incoming)[|bytes|..]
      ensures old(replies) == [] ==> len < 0 && replies == []
      ensures old(replies) != [] ==> replies == old(replies)[1..]
      ensures old(replies) != [] ==> len == Min(old(replies)[0].res, Min(size, |old(incoming)|))
    {
      if replies == [] {
        error := EWouldBlock;
        return -1, [];
      }
      len := Min(replies[0].res, Min(size, |incoming|));
      error, replies := replies[0].error, replies[1..];
      if len <= 0 {
        return len, [];
      }
      bytes, incoming := incoming[..len], incoming[len..];
    }
  }

  function Min(a: int, b: int): int {
    if a < b then a else b
  }

  // ---------- what the socket's answers decide ----------

  /** The socket takes at least one byte of the first write. */
  predicate Takes(replies: seq<Reply>) {
    replies != [] && replies[0].res > 0
  }

  /** How many of `n` bytes are left when repeated writes get these answers. */
  function Left(n: nat, replies: seq<Reply>): (left: nat)
    ensures left <= n
    decreases |replies|
  {
    if n == 0 || !Takes(replies) then n else Left(n - Min(replies[0].res, n), replies[1..])
  }

  /** Repeated writes of `n` bytes stop after some progress for another reason than that the socket would block. */
  predicate CutOff(n: nat, replies: seq<Reply>, started: bool)
    decreases |replies|
  {
    && n > 0 && replies != []
    && if replies[0].res <= 0 then started && replies[0].error != EWouldBlock
       else CutOff(n - Min(replies[0].res, n), replies[1..], true)
  }

  /** The answer at which repeated writes of `n` bytes stop before the end. */
  function Stopped(n: nat, replies: seq<Reply>): Reply
    requires Left(n, replies) > 0
    decreases |replies|
  {
    if replies == [] then Reply(-1, EWouldBlock)
    else if replies[0].res <= 0 then replies[0]
    else Stopped(n - Min(replies[0].res, n), replies[1..])
  }

  function Sum(replies: seq<Reply>): int {
    if replies == [] then 0 else replies[0].res + Sum(replies[1..])
  }

  /** The first `k` answers, and not the one after them, take bytes. */
  ghost predicate Leading(replies: seq<Reply>, k: nat) {
    && k <= |replies|
    && (forall i :: 0 <= i < k ==> replies[i].res > 0)
    && (k < |replies| ==> replies[k].res <= 0)
  }

  lemma {:induction false} LeadingExists(replies: seq<Reply>) returns (k: nat)
    ensures Leading(replies, k)
    decreases |replies|
  {
    if Takes(replies) {
      k := LeadingExists(replies[1..]);
      k := k + 1;
      assert forall i :: 1 <= i < |replies| ==> replies[i] == replies[1..][i - 1];
    } else {
      k := 0;
    }
  }

  lemma {:induction false} SumNext(replies: seq<Reply>, k: nat)
    requires Leading(replies, k) && k > 0
    ensures Leading(replies[1..], k - 1) && Sum(replies[..k]) == replies[0].res + Sum(replies[1..][..k - 1])
    ensures Sum(replies[1..][..k - 1]) >= 0
    decreases k
  {
    assert replies[..k][1..] == replies[1..][..k - 1];
    if k > 1 { SumNext(replies[1..], k - 1); }
  }

  /** Over any number of writes: what is left is what the answers before the first refusal do not sum up to. */
  lemma {:induction false} LeftExact(n: nat, replies: seq<Reply>, k: nat)
    requires Leading(replies, k)
    ensures Left(n, replies) == if Sum(replies[..k]) < n then n - Sum(replies[..k]) else 0
    decreases k
  {
    if k > 0 {
      SumNext(replies, k);
      LeftExact(n - Min(replies[0].res, n), replies[1..], k - 1);
    }
  }

  /** And where they stop is that refusal, or the end of the answers. */
  lemma {:induction false} StoppedExact(n: nat, replies: seq<Reply>, k: nat)
    requires Leading(replies, k) && Left(n, replies) > 0
    ensures Stopped(n, replies) == if k < |replies| then replies[k] else Reply(-1, EWouldBlock)
    decreases k
  {
    if k > 0 {
      SumNext(replies, k);
      StoppedExact(n - Min(replies[0].res, n), replies[1..], k - 1);
      assert k < |replies| ==> replies[k] == replies[1..][k - 1];
    }
  }

  lemma {:induction false} CutOffLeading(n: nat, replies: seq<Reply>, started: bool, k: nat)
    requires Leading(replies, k)
    ensures CutOff(n, replies, started) <==>
      k < |replies| && (started || k > 0) && Sum(replies[..k]) < n && replies[k].error != EWouldBlock
    decreases k
  {
    if k > 0 {
      SumNext(replies, k);
      CutOffLeading(n - Min(replies[0].res, n), replies[1..], true, k - 1);
      assert k < |replies| ==> replies[k] == replies[1..][k - 1];
    }
  }

  /** Answer `k` is the first refusal, after some progress and before the end, and not that the socket would block. */
  ghost predicate CutAt(n: nat, replies: seq<Reply>, k: nat) {
    && 0 < k < |replies| && (forall i :: 0 <= i < k ==> replies[i].res > 0)
    && Sum(replies[..k]) < n && replies[k].res <= 0 && replies[k].error != EWouldBlock
  }

  lemma {:induction false} CutOffExact(n: nat, replies: seq<Reply>)
    ensures CutOff(n, replies, false) <==> exists k: nat :: CutAt(n, replies, k)
  {
    hide CutOff, Sum;
    var k := LeadingExists(replies);
    CutOffLeading(n, replies, false, k);
    if CutOff(n, replies, false) {
      assert CutAt(n, replies, k);
    }
    if k': nat :| CutAt(n, replies, k') {
      CutOffLeading(n, replies, false, k');
    }
  }

  lemma {:induction false} LeftProgress(n: nat, replies: seq<Reply>)
    ensures Left(n, replies) < n <==> n > 0 && Takes(replies)
  {
  }

  lemma {:induction false} CutOffLeaves(n: nat, replies: seq<Reply>, started: bool)
    ensures CutOff(n, replies, started) ==> Left(n, replies) > 0 && (started || Left(n, replies) < n)
    decreases |replies|
  {
    if n > 0 && Takes(replies) {
      CutOffLeaves(n - Min(replies[0].res, n), replies[1..], true);
    }
  }

  /** The capacity of the input buffer once there is room for another read. */
  function Grown(held: nat, capacity: nat): nat {
    if capacity < held + MINIMUM_RECV_SIZE && capacity < BUF_SIZE then Min(BUF_SIZE, capacity * 2) else capacity
  }

  /** What a read event takes from the socket, and how large it leaves the input buffer. */
  datatype Intake = Intake(taken: nat, capacity: nat)
  {
    function After(before: nat): Intake {
      Intake(before + taken, capacity)
    }
  }

  /** A read event on a buffer that holds `held` bytes, when `arrived` bytes are there to be read. */
  function Intakes(held: nat, capacity: nat, arrived: nat, replies: seq<Reply>): (r: Intake)
    ensures r.taken <= arrived
    decreases |replies|
  {
    var room := Grown(held, capacity);
    var free := if held < room then room - held else 0;
    if replies == [] || replies[0].res < 0 then Intake(0, room)
    else
      var len := Min(replies[0].res, Min(free, arrived));
      if len == 0 || len < free then Intake(len, room)
      else Intakes(held + len, room, arrived - len, replies[1..]).After(len)
  }

  class AsyncTcpSocket {
    const socket: Socket
    var inbuf: seq<Byte>
    var inCapacity: nat
    var outbuf: seq<Byte>
    const maxInsize: nat := BUF_SIZE
    const maxOutsize: nat := BUF_SIZE
    // Packets handed to the application so far.
    var delivered: seq<Packet>

    ghost predicate Valid()
      reads this
    {
      && MINIMUM_RECV_SIZE <= inCapacity <= maxInsize
      && |inbuf| <= inCapacity
      && !HasPacket(inbuf)
    }

    constructor (socket: Socket)
      ensures Valid() && this.socket == socket && inbuf == [] && outbuf == [] && delivered == []
      ensures inCapacity == MINIMUM_RECV_SIZE
    {
      this.socket := socket;
      inbuf, inCapacity, outbuf, delivered := [], MINIMUM_RECV_SIZE, [], [];
    }

    // ---------- sending ----------

    /**
     Bytes are conserved whatever the socket does: what goes out followed by what is kept is
     what was buffered. The result is the whole size when all went out, the progress made when
     the socket would block, and not positive on any other error.
     */
    method FlushOutBuffer() returns (res: int)
      requires outbuf != []
      modifies this`outbuf, socket`replies, socket`error, socket`outgoing
      ensures |outbuf| <= |old(outbuf)|
      ensures socket.outgoing + outbuf == old(socket.outgoing) + old(outbuf)
      ensures outbuf == [] ==> res == |old(outbuf)|
      ensures |outbuf| == Left(|old(outbuf)|, old(socket.replies))
      ensures outbuf != [] ==>
        var stop := Stopped(|old(outbuf)|, old(socket.replies));
        && socket.error == stop.error && stop.res <= 0
        && res == if stop.error == EWouldBlock then |old(outbuf)| - |outbuf| else stop.res
      ensures outbuf != [] && |outbuf| < |old(outbuf)| && socket.error != EWouldBlock
              <==> CutOff(|old(outbuf)|, old(socket.replies), false)
    {
      var view := outbuf;
      res := 0;
      while |view| > 0
        invariant outbuf == old(outbuf) && |view| <= |outbuf|
        invariant socket.outgoing + view == old(socket.outgoing) + outbuf
        invariant |view| < |outbuf| <==> res > 0
        invariant Left(|outbuf|, old(socket.replies)) == Left(|view|, socket.replies)
        invariant Left(|view|, socket.replies) > 0 ==>
          Stopped(|outbuf|, old(socket.replies)) == Stopped(|view|, socket.replies)
        invariant CutOff(|outbuf|, old(socket.replies), false) == CutOff(|view|, socket.replies, |view| < |outbuf|)
        decreases |view|
      {
        label before:
        res := socket.Send(view);
        if res <= 0 {
          break;
        }
        assert old@before(socket.outgoing) + view == socket.outgoing + view[res..];
        view := view[res..];
      }
      if res > 0 {
        res := |outbuf|;
        outbuf := [];
      } else {
        if socket.error == EWouldBlock {
          res := |outbuf| - |view|;
        }
        if |view| < |outbuf| {
          outbuf := view;
        }
      }
    }

    /** `checked`: the bytes fit, which a debug check demands. */
    method AppendToOutBuffer(bytes: seq<Byte>) returns (checked: bool)
      modifies this`outbuf
      ensures outbuf == old(outbuf) + bytes
      ensures checked <==> |outbuf| <= maxOutsize
    {
      checked := |outbuf| + |bytes| <= maxOutsize;
      outbuf := outbuf + bytes;
    }

    /**
     A packet is refused when too large, dropped without a trace while an earlier one is still
     buffered, and otherwise framed. What did not go out is kept, unless nothing did or the writes
     were cut off: then the frame is thrown away where it stopped. The debug check on the size of
     the output buffer holds exactly for the packets that, with their header, fit into it.
     */
    method Send(p: Packet) returns (res: int, checked: bool)
      modifies this`outbuf, socket`replies, socket`error, socket`outgoing
      ensures |p| > 65538 ==> res == -1 && socket.error == EMsgSize
      ensures |p| > 65538 || old(outbuf) != [] ==> outbuf == old(outbuf) && socket.outgoing == old(socket.outgoing)
      ensures |p| <= 65538 && old(outbuf) != [] ==> res == |p| && socket.error == old(socket.error)
      ensures |p| <= 65538 && old(outbuf) == [] ==>
        var frame, replies := Frame(p), old(socket.replies);
        var sent := |frame| - Left(|frame|, replies);
        var dropped := !Takes(replies) || CutOff(|frame|, replies, false);
        && socket.outgoing == old(socket.outgoing) + frame[..sent]
        && outbuf == (if dropped then [] else frame[sent..])
        && (!dropped ==> res == |p|)
        && (dropped ==>
              Left(|frame|, replies) > 0 &&
              var stop := Stopped(|frame|, replies); res == if stop.error == EWouldBlock then 0 else stop.res)
      ensures checked <==> |p| > 65538 || old(outbuf) != [] || |p| <= 65536
    {
      if |p| > BUF_SIZE {
        socket.error := EMsgSize;
        return -1, true;
      }
      if outbuf != [] {
        return |p|, true;
      }
      var header := AppendToOutBuffer(Header(|p|));
      var payload := AppendToOutBuffer(p);
      checked := header && payload;
      assert outbuf == Frame(p);
      CutOffLeaves(|Frame(p)|, socket.replies, false);
      res := FlushOutBuffer();
      FlushSplits(old(socket.outgoing), Frame(p), socket.outgoing, outbuf);
      LeftProgress(|Frame(p)|, old(socket.replies));
      if res <= 0 {
        outbuf := [];
        return;
      }
      res := |p|;
    }

    /** Returns whether SignalReadyToSend fires. */
    method OnWriteEvent() returns (ready: bool)
      modifies this`outbuf, socket`replies, socket`error, socket`outgoing
      ensures |outbuf| == Left(|old(outbuf)|, old(socket.replies))
      ensures |outbuf| < |old(outbuf)| <==> old(outbuf) != [] && Takes(old(socket.replies))
      ensures socket.outgoing + outbuf == old(socket.outgoing) + old(outbuf)
      ensures ready <==> outbuf == []
    {
      LeftProgress(|outbuf|, socket.replies);
      if |outbuf| > 0 {
        var _ := FlushOutBuffer();
      }
      ready := |outbuf| == 0;
    }

    // ---------- receiving ----------

    /** Delivers the complete packets of `data` and returns how many bytes they took. */
    method ProcessInput(data: seq<Byte>) returns (processed: nat)
      modifies this`delivered
      ensures processed <= |data|
      ensures delivered == old(delivered) + Unframe(data).packets
      ensures data[processed..] == Unframe(data).tail
    {
      hide Unframe, GetBE16;
      processed := 0;
      ghost var packets := [];
      ParsedSoFar(data);
      while true
        invariant processed <= |data| && delivered == old(delivered) + packets
        invariant Parsed(data, packets, processed)
        decreases |data| - processed
      {
        var bytesLeft := |data| - processed;
        if bytesLeft < PACKET_LEN_SIZE {
          ParsedAll(data, packets, processed);
          return;
        }
        var pktLen := GetBE16(data[processed..]);
        if bytesLeft < PACKET_LEN_SIZE + pktLen {
          ParsedAll(data, packets, processed);
          return;
        }
        ParsedNext(data, packets, processed);
        var packet := data[processed + PACKET_LEN_SIZE..processed + PACKET_LEN_SIZE + pktLen];
        delivered := delivered + [packet];
        packets := packets + [packet];
        processed := processed + PACKET_LEN_SIZE + pktLen;
      }
    }

    /** Grows the buffer when it is nearly full; a buffer that holds no complete packet always gets room. */
    method EnsureRoom() returns (freeSize: nat)
      requires MINIMUM_RECV_SIZE <= inCapacity <= maxInsize && |inbuf| <= inCapacity
      modifies this`inCapacity
      ensures inCapacity == Grown(|inbuf|, old(inCapacity))
      ensures inCapacity in {old(inCapacity), 2 * old(inCapacity), 65538} && inCapacity <= 2 * old(inCapacity)
      ensures inCapacity > old(inCapacity) <==> old(inCapacity) - |inbuf| < 128 && old(inCapacity) < 65538
      ensures old(inCapacity) <= inCapacity <= maxInsize && freeSize == inCapacity - |inbuf|
      ensures !HasPacket(inbuf) ==> freeSize > 0
    {
      TailIsShort(inbuf);
      freeSize := inCapacity - |inbuf|;
      if freeSize < MINIMUM_RECV_SIZE && inCapacity < maxInsize {
        inCapacity := if maxInsize < inCapacity * 2 then maxInsize else inCapacity * 2;
        freeSize := inCapacity - |inbuf|;
      }
    }

    /** Receives until the socket has no more to give; returns how much arrived. */
    method ReceiveAll() returns (totalRecv: nat)
      requires Valid()
      modifies this`inbuf, this`inCapacity, socket`replies, socket`error, socket`incoming
      ensures MINIMUM_RECV_SIZE <= inCapacity <= maxInsize && |inbuf| <= inCapacity
      ensures totalRecv <= |old(socket.incoming)|
      ensures inbuf == old(inbuf) + old(socket.incoming)[..totalRecv]
      ensures socket.incoming == old(socket.incoming)[totalRecv..]
      ensures Intake(totalRecv, inCapacity)
              == Intakes(|old(inbuf)|, old(inCapacity), |old(socket.incoming)|, old(socket.replies))
    {
      hide HasPacket, Intakes, Grown;
      ghost var coming := socket.incoming;
      totalRecv := 0;
      while true
        invariant MINIMUM_RECV_SIZE <= inCapacity <= maxInsize && |inbuf| <= inCapacity
        invariant totalRecv <= |coming|
        invariant inbuf == old(inbuf) + coming[..totalRecv] && socket.incoming == coming[totalRecv..]
        invariant Intakes(|old(inbuf)|, old(inCapacity), |coming|, old(socket.replies))
                  == Intakes(|inbuf|, inCapacity, |socket.incoming|, socket.replies).After(totalRecv)
        decreases maxInsize - |inbuf|
      {
        IntakesRead(|inbuf|, inCapacity, |socket.incoming|, socket.replies);
        var freeSize := EnsureRoom();
        var len, bytes := socket.Recv(freeSize);
        if len < 0 {
          break;
        }
        SliceOn(coming, totalRecv, len);
        totalRecv := totalRecv + len;
        inbuf := inbuf + bytes;
        if len == 0 || len < freeSize {
          break;
        }
      }
    }

    /**
     After any read event the application has got exactly the packets that the framing parse of
     the old tail and the newly received bytes yields, and the tail is what that parse left.
     */
    method OnReadEvent()
      requires Valid()
      modifies this`inbuf, this`inCapacity, this`delivered, socket`replies, socket`error, socket`incoming
      ensures Valid()
      ensures |socket.incoming| <= |old(socket.incoming)|
      ensures var received := old(socket.incoming)[..|old(socket.incoming)| - |socket.incoming|];
        && old(socket.incoming) == received + socket.incoming
        && Unframed(delivered, inbuf)
           == Unframed(old(delivered) + Unframe(old(inbuf) + received).packets, Unframe(old(inbuf) + received).tail)
      ensures Intake(|old(socket.incoming)| - |socket.incoming|, inCapacity)
              == Intakes(|old(inbuf)|, old(inCapacity), |old(socket.incoming)|, old(socket.replies))
      ensures Takes(old(socket.replies)) && old(socket.incoming) != []
              ==> |socket.incoming| < |old(socket.incoming)|
    {
      TailIsShort(inbuf);
      IntakesProgress(|inbuf|, inCapacity, |socket.incoming|, socket.replies);
      ghost var tail := inbuf;
      var totalRecv := ReceiveAll();
      if totalRecv == 0 {
        assert tail + [] == tail && delivered + [] == delivered;
        return;
      }
      var processed := ProcessInput(inbuf);
      UnframeTail(inbuf);
      inbuf := inbuf[processed..];
    }
  }

  /** One round of a read event: it goes on only when the buffer was filled. */
  lemma {:induction false} IntakesRead(held: nat, capacity: nat, arrived: nat, replies: seq<Reply>)
    requires held <= capacity <= BUF_SIZE
    ensures var r, room := Intakes(held, capacity, arrived, replies), Grown(held, capacity);
      if replies == [] || replies[0].res < 0 then r == Intake(0, room)
      else
        var len := Min(replies[0].res, Min(room - held, arrived));
        if len == 0 || len < room - held then r == Intake(len, room)
        else r == Intakes(held + len, room, arrived - len, replies[1..]).After(len)
  {
  }

  /** A buffer that holds no complete packet has room, so a read that can take a byte does. */
  lemma {:induction false} IntakesProgress(held: nat, capacity: nat, arrived: nat, replies: seq<Reply>)
    requires MINIMUM_RECV_SIZE <= capacity <= BUF_SIZE && held <= capacity && held <= MAX_PACKET_SIZE
    ensures Takes(replies) && arrived > 0 ==> Intakes(held, capacity, arrived, replies).taken > 0
  {
  }

  /** A socket that gives all it can is read until it is empty or the buffer, at its limit, is full. */
  lemma {:induction false} IntakesAll(held: nat, capacity: nat, arrived: nat, replies: seq<Reply>)
    requires 128 <= capacity <= 65538 && held <= capacity && arrived < |replies|
    requires forall i :: 0 <= i < |replies| ==> replies[i].res >= 65538
    ensures Intakes(held, capacity, arrived, replies).taken == Min(arrived, 65538 - held)
    decreases |replies|
  {
    hide Intakes;
    IntakesRead(held, capacity, arrived, replies);
    var room := Grown(held, capacity);
    var len := Min(replies[0].res, Min(room - held, arrived));
    if len != 0 && len == room - held {
      IntakesAll(held + len, room, arrived - len, replies[1..]);
    }
  }

  lemma {:induction false} TailIsShort(tail: seq<Byte>)
    ensures !HasPacket(tail) ==> |tail| <= MAX_PACKET_SIZE
  {
    UnframeTail(tail);
  }

  lemma {:induction false} FlushSplits(before: seq<Byte>, frame: seq<Byte>, after: seq<Byte>, kept: seq<Byte>)
    requires after + kept == before + frame && |kept| <= |frame|
    ensures |after| >= |before|
    ensures var sent := |after| - |before|; sent <= |frame| && after == before + frame[..sent] && kept == frame[sent..]
  {
    var sent := |after| - |before|;
    assert after == (after + kept)[..|after|] == before + frame[..sent];
    assert kept == (after + kept)[|after|..] == frame[sent..];
  }

  lemma {:induction false} SliceOn(s: seq<Byte>, i: nat, n: nat)
    requires i + n <= |s|
    ensures s[..i + n] == s[..i] + s[i..][..n] && s[i + n..] == s[i..][n..]
  {
  }

  /** The parse of `data` is `packets` followed by the parse from `at` on. */
  ghost predicate Parsed(data: seq<Byte>, packets: seq<Packet>, at: nat) {
    && at <= |data|
    && Unframe(data) == Unframed(packets + Unframe(data[at..]).packets, Unframe(data[at..]).tail)
  }

  lemma {:induction false} ParsedSoFar(data: seq<Byte>)
    ensures Parsed(data, [], 0)
  {
    assert data[0..] == data;
    assert [] + Unframe(data).packets == Unframe(data).packets;
  }

  lemma {:induction false} ParsedAll(data: seq<Byte>, packets: seq<Packet>, at: nat)
    requires Parsed(data, packets, at) && !HasPacket(data[at..])
    ensures Unframe(data) == Unframed(packets, data[at..])
  {
    assert packets + [] == packets;
  }

  lemma {:induction false} ParsedNext(data: seq<Byte>, packets: seq<Packet>, at: nat)
    requires Parsed(data, packets, at) && HasPacket(data[at..])
    ensures var size := PACKET_LEN_SIZE + GetBE16(data[at..]);
      at + size <= |data| && Parsed(data, packets + [data[at + PACKET_LEN_SIZE..at + size]], at + size)
  {
    var size := PACKET_LEN_SIZE + GetBE16(data[at..]);
    var packet, u := data[at + PACKET_LEN_SIZE..at + size], Unframe(data[at + size..]);
    assert data[at..][size..] == data[at + size..];
    assert data[at..][PACKET_LEN_SIZE..size] == packet;
    assert packets + ([packet] + u.packets) == (packets + [packet]) + u.packets;
  }

  /** A frame that takes two writes goes out whole. */
  method TwoWritesExample() returns (res: int, wire: seq<Byte>)
    ensures res == 1 && wire == [0, 1, 7]
  {
    hide Left, CutOff;
    var socket := new Socket();
    var a := new AsyncTcpSocket(socket);
    var checked: bool;
    var replies := [Reply(1, NoError), Reply(2, NoError)];
    socket.replies := replies;
    assert replies[..2] == replies && replies[1..] == [Reply(2, NoError)] && replies[1..][1..] == [];
    assert Sum(replies) == 3;
    LeftExact(3, replies, 2);
    CutOffLeading(3, replies, false, 2);
    res, checked := a.Send([7]);
    wire := socket.outgoing;
    assert Frame([7]) == [0, 1, 7] == Frame([7])[..3];
  }

  /**
   A connection reset after the first byte of a frame: Send reports the failure and throws the rest
   away, and the packet sent next reaches no receiver.
   */
  method CutFrameExample() returns (first: int, second: int, wire: seq<Byte>)
    ensures first <= 0 && second == 1
    ensures Unframe(wire) == Unframed([[]], [1, 9])
  {
    hide Unframe, Left, CutOff, HasPacket;
    var socket := new Socket();
    var a := new AsyncTcpSocket(socket);
    var checked: bool;
    socket.replies := [Reply(1, NoError), Reply(-1, OtherError(104))];
    CutFrameReplies();
    first, checked := a.Send([7]);
    assert socket.outgoing == Frame([7])[..1];
    socket.replies := [Reply(3, NoError)];
    second, checked := a.Send([9]);
    wire := socket.outgoing;
    assert Frame([9])[..3] == Frame([9]);
    CutFrameParse();
  }

  /** The smallest packet that Send lets through although, with its header, it exceeds the output buffer. */
  method OverfullExample(p: Packet) returns (res: int, checked: bool)
    requires |p| == MAX_PACKET_SIZE + 1
    ensures res == |p| && !checked
  {
    hide Left, CutOff, Header;
    var socket := new Socket();
    var a := new AsyncTcpSocket(socket);
    socket.replies := [Reply(|p| + PACKET_LEN_SIZE, NoError)];
    WholeReply(|p| + PACKET_LEN_SIZE);
    res, checked := a.Send(p);
  }

  lemma {:induction false} WholeReply(n: nat)
    requires n > 0
    ensures var replies := [Reply(n, NoError)]; !CutOff(n, replies, false) && Left(n, replies) == 0
  {
  }

  lemma {:induction false} CutFrameReplies()
    ensures var replies := [Reply(1, NoError), Reply(-1, OtherError(104))];
      CutOff(3, replies, false) && Left(3, replies) == 2
    ensures var replies := [Reply(3, NoError)]; !CutOff(3, replies, false) && Left(3, replies) == 0
  {
    var replies := [Reply(1, NoError), Reply(-1, OtherError(104))];
    assert replies[1..] == [Reply(-1, OtherError(104))];
    assert [Reply(3, NoError)][1..] == [];
  }
}
