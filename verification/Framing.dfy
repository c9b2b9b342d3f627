/**
 Packets on a byte stream: a 16-bit big-endian length, then the payload, as in section 2
 of RFC 4571. The length field is the low 16 bits of the payload size.
 */
module Framing {
  import opened Words

  type Packet = seq<Byte>

  const MAX_PACKET_SIZE := 64 * 1024
  const PACKET_LEN_SIZE := 2
  const BUF_SIZE := MAX_PACKET_SIZE + PACKET_LEN_SIZE
  const LENGTH_LIMIT := 0x1_0000

  lemma {:induction false} HighLow(n: nat)
    requires n < LENGTH_LIMIT
    ensures 256 * (n / 256) + n % 256 == n && n / 256 < 256
  {
  }

  /** HostToNetwork16 of the size cast to 16 bits. */
  function Header(size: nat): (h: seq<Byte>)
    ensures |h| == PACKET_LEN_SIZE
    ensures 256 * h[0] as int + h[1] as int == size % 0x1_0000
  {
    HighLow(size % LENGTH_LIMIT);
    [size % LENGTH_LIMIT / 256, size % LENGTH_LIMIT % 256]
  }

  function GetBE16(h: seq<Byte>): nat
    requires |h| >= PACKET_LEN_SIZE
  {
    h[0] as int * 256 + h[1] as int
  }

  function Frame(p: Packet): seq<Byte> {
    Header(|p|) + p
  }

  function Frames(ps: seq<Packet>): seq<Byte> {
    if ps == [] then [] else Frame(ps[0]) + Frames(ps[1..])
  }

  /** The length field at the front of `data` and the payload after it are complete. */
  predicate HasPacket(data: seq<Byte>) {
    |data| >= PACKET_LEN_SIZE && |data| >= PACKET_LEN_SIZE + GetBE16(data)
  }

  datatype Unframed = Unframed(packets: seq<Packet>, tail: seq<Byte>)

  /** All complete packets at the front of `data`, and what follows them. */
  function Unframe(data: seq<Byte>): Unframed
    decreases |data|
  {
    if !HasPacket(data) then Unframed([], data)
    else
      var size := PACKET_LEN_SIZE + GetBE16(data);
      var u := Unframe(data[size..]);
      Unframed([data[PACKET_LEN_SIZE..size]] + u.packets, u.tail)
  }

  // ---------- the length field ----------

  lemma {:induction false} HeaderValue(size: nat)
    ensures GetBE16(Header(size)) == size % LENGTH_LIMIT
  {
    var n := size % LENGTH_LIMIT;
    assert n == n / 256 * 256 + n % 256;
  }

  lemma {:induction false} LengthFieldBound(data: seq<Byte>)
    requires |data| >= PACKET_LEN_SIZE
    ensures GetBE16(data) < LENGTH_LIMIT
  {
  }

  // ---------- parsing does not depend on chunking ----------

  lemma {:induction false} SamePacket(a: seq<Byte>, b: seq<Byte>)
    requires HasPacket(a)
    ensures HasPacket(a + b) && GetBE16(a + b) == GetBE16(a)
    ensures var size := PACKET_LEN_SIZE + GetBE16(a);
      (a + b)[PACKET_LEN_SIZE..size] == a[PACKET_LEN_SIZE..size] && (a + b)[size..] == a[size..] + b
  {
  }

  /** Bytes that arrive later are parsed together with the tail left so far. */
  lemma {:induction false} UnframeConcat(a: seq<Byte>, b: seq<Byte>)
    ensures var u := Unframe(a);
      var v := Unframe(u.tail + b);
      Unframe(a + b) == Unframed(u.packets + v.packets, v.tail)
    decreases |a|
  {
    if HasPacket(a) {
      hide GetBE16;
      var size := PACKET_LEN_SIZE + GetBE16(a);
      SamePacket(a, b);
      UnframeConcat(a[size..], b);
      var u := Unframe(a[size..]);
      var v := Unframe(u.tail + b);
      var first := [a[PACKET_LEN_SIZE..size]];
      assert first + (u.packets + v.packets) == (first + u.packets) + v.packets;
    } else {
      assert [] + Unframe(a + b).packets == Unframe(a + b).packets;
    }
  }

  /** A tail is never a whole packet, so it is shorter than the longest frame. */
  lemma {:induction false} UnframeTail(data: seq<Byte>)
    ensures !HasPacket(Unframe(data).tail) && |Unframe(data).tail| <= MAX_PACKET_SIZE
    decreases |data|
  {
    if HasPacket(data) {
      UnframeTail(data[PACKET_LEN_SIZE + GetBE16(data)..]);
    } else if |data| >= PACKET_LEN_SIZE {
      LengthFieldBound(data);
    }
  }

  // ---------- frames parse back ----------

  lemma {:induction false} UnframeFrame(p: Packet, rest: seq<Byte>)
    requires |p| < LENGTH_LIMIT
    ensures Unframe(Frame(p) + rest) == Unframed([p] + Unframe(rest).packets, Unframe(rest).tail)
  {
    HeaderValue(|p|);
    var data := Frame(p) + rest;
    assert GetBE16(data) == GetBE16(Header(|p|)) == |p|;
    assert data[PACKET_LEN_SIZE..PACKET_LEN_SIZE + |p|] == p;
    assert data[PACKET_LEN_SIZE + |p|..] == rest;
  }

  ghost predicate Framable(ps: seq<Packet>) {
    forall i :: 0 <= i < |ps| ==> |ps[i]| < LENGTH_LIMIT
  }

  lemma {:induction false} UnframeFrames(ps: seq<Packet>, rest: seq<Byte>)
    requires Framable(ps)
    ensures Unframe(Frames(ps) + rest) == Unframed(ps + Unframe(rest).packets, Unframe(rest).tail)
    decreases |ps|
  {
    hide Unframe, Frame;
    if ps == [] {
      assert Frames(ps) + rest == rest;
      assert ps + Unframe(rest).packets == Unframe(rest).packets;
    } else {
      assert Frames(ps) + rest == Frame(ps[0]) + (Frames(ps[1..]) + rest);
      UnframeFrame(ps[0], Frames(ps[1..]) + rest);
      UnframeFrames(ps[1..], rest);
      assert [ps[0]] + (ps[1..] + Unframe(rest).packets) == ps + Unframe(rest).packets;
    }
  }

  lemma {:induction false} FramesSnoc(ps: seq<Packet>, p: Packet)
    ensures Frames(ps + [p]) == Frames(ps) + Frame(p)
    decreases |ps|
  {
    if ps == [] {
      assert [] + [p] == [p];
      assert [p][1..] == [];
    } else {
      assert (ps + [p])[1..] == ps[1..] + [p];
      FramesSnoc(ps[1..], p);
    }
  }

  lemma {:induction false} HeaderOf(data: seq<Byte>)
    requires |data| >= PACKET_LEN_SIZE
    ensures Header(GetBE16(data)) == data[..PACKET_LEN_SIZE]
  {
    var high, low := data[0] as int, data[1] as int;
    assert (high * 256 + low) / 256 == high && (high * 256 + low) % 256 == low;
  }

  lemma {:induction false} FrameAt(data: seq<Byte>)
    requires HasPacket(data)
    ensures var size := PACKET_LEN_SIZE + GetBE16(data);
      size <= |data| && Frame(data[PACKET_LEN_SIZE..size]) == data[..size] && size < PACKET_LEN_SIZE + LENGTH_LIMIT
  {
    hide GetBE16, Header;
    HeaderOf(data);
    LengthFieldBound(data);
  }

  /** Whatever the bytes, they are the frames of the packets parsed and the tail left. */
  lemma {:induction false} UnframeInverse(data: seq<Byte>)
    ensures var u := Unframe(data); data == Frames(u.packets) + u.tail && Framable(u.packets)
    decreases |data|
  {
    hide GetBE16, Frame, Frames, Unframe, HasPacket, Framable;
    if HasPacket(data) {
      FrameAt(data);
      UnframeFirst(data);
      var size := PACKET_LEN_SIZE + GetBE16(data);
      var u := Unframe(data[size..]);
      UnframeInverse(data[size..]);
      FramesJoin(data, size, data[PACKET_LEN_SIZE..size], u.packets, u.tail);
    } else {
      UnframeRest(data);
    }
  }

  lemma {:induction false} UnframeRest(data: seq<Byte>)
    requires !HasPacket(data)
    ensures Unframe(data) == Unframed([], data) && data == Frames([]) + data && Framable([])
  {
  }

  lemma {:induction false} FramesJoin(data: seq<Byte>, size: nat, p: Packet, ps: seq<Packet>, tail: seq<Byte>)
    requires size <= |data| && Frame(p) == data[..size] && data[size..] == Frames(ps) + tail
    requires |p| < LENGTH_LIMIT && Framable(ps)
    ensures data == Frames([p] + ps) + tail && Framable([p] + ps)
  {
    hide Frame, Frames;
    FramesFirst(p, ps);
    assert data == data[..size] + data[size..];
  }

  lemma {:induction false} UnframeFirst(data: seq<Byte>)
    requires HasPacket(data)
    ensures var size := PACKET_LEN_SIZE + GetBE16(data);
      size <= |data| &&
      var u := Unframe(data[size..]);
      Unframe(data) == Unframed([data[PACKET_LEN_SIZE..size]] + u.packets, u.tail)
  {
    hide GetBE16;
  }

  lemma {:induction false} FramesFirst(p: Packet, ps: seq<Packet>)
    ensures Frames([p] + ps) == Frame(p) + Frames(ps)
  {
    assert ([p] + ps)[1..] == ps;
  }

  /** A byte stream parses into exactly these packets, with nothing left, only if it is their frames and they fit. */
  lemma {:induction false} UnframeExact(data: seq<Byte>, ps: seq<Packet>)
    ensures Unframe(data) == Unframed(ps, []) <==> data == Frames(ps) && Framable(ps)
  {
    hide Unframe, Frames;
    if data == Frames(ps) && Framable(ps) {
      UnframeFrames(ps, []);
      UnframeNothing();
      assert data + [] == data && ps + [] == ps;
    }
    UnframeInverse(data);
    assert Frames(Unframe(data).packets) + [] == Frames(Unframe(data).packets);
  }

  /** An oversized packet is announced 2^16 bytes too short. */
  lemma {:induction false} OversizedFrame(p: Packet)
    requires LENGTH_LIMIT <= |p| <= BUF_SIZE
    ensures var u := Unframe(Frame(p)); u.packets != [] && |u.packets[0]| == |p| - LENGTH_LIMIT
  {
    HeaderValue(|p|);
    assert GetBE16(Frame(p)) == GetBE16(Header(|p|));
  }

  /**
   Of the sizes that Send lets through, exactly those below 2^16 are framed so that the
   receiver gets the packet back: beyond, the length field has wrapped.
   */
  lemma {:induction false} FrameExact(ps: seq<Packet>, p: Packet)
    requires Framable(ps) && |p| <= BUF_SIZE
    ensures Unframe(Frames(ps) + Frame(p)) == Unframed(ps + [p], []) <==> |p| < LENGTH_LIMIT
  {
    hide Frame, Frames, Unframe;
    UnframeFrames(ps, Frame(p));
    if |p| < LENGTH_LIMIT {
      UnframeFrame(p, []);
      UnframeNothing();
      assert Frame(p) + [] == Frame(p);
    } else {
      OversizedFrame(p);
      var packets := Unframe(Frame(p)).packets;
      assert (ps + packets)[|ps|] == packets[0] && (ps + [p])[|ps|] == p;
    }
  }

  lemma {:induction false} UnframeNothing()
    ensures Unframe([]) == Unframed([], [])
  {
  }

  lemma {:induction false} CutIsNoPacket(p: Packet, sent: nat)
    requires |p| < LENGTH_LIMIT && sent < |Frame(p)|
    ensures !HasPacket(Frame(p)[..sent])
  {
    HeaderValue(|p|);
    if sent >= PACKET_LEN_SIZE { assert GetBE16(Frame(p)[..sent]) == GetBE16(Header(|p|)); }
  }

  /** A frame that was cut off leaves the stream without packet boundary: the receiver is stuck inside it. */
  lemma {:induction false} CutFrame(ps: seq<Packet>, p: Packet, sent: nat)
    requires Framable(ps) && |p| < LENGTH_LIMIT && 0 < sent < |Frame(p)|
    ensures Unframe(Frames(ps) + Frame(p)[..sent]) == Unframed(ps, Frame(p)[..sent])
  {
    hide Frame, Frames, HasPacket;
    CutIsNoPacket(p, sent);
    UnframeFrames(ps, Frame(p)[..sent]);
    assert ps + [] == ps;
  }

  /** The packets parsed from any prefix of a framed stream are a prefix of the packets framed. */
  lemma {:induction false} PrefixDelivers(ps: seq<Packet>, received: seq<Byte>, inFlight: seq<Byte>)
    requires Framable(ps) && Frames(ps) == received + inFlight
    ensures Unframe(received).packets <= ps
    ensures inFlight == [] ==> Unframe(received) == Unframed(ps, [])
  {
    UnframeConcat(received, inFlight);
    UnframeFrames(ps, []);
    assert Frames(ps) + [] == Frames(ps) && ps + [] == ps;
    if inFlight == [] { assert received + [] == received; }
  }

  /** The smallest packet that Send lets through and the length field cannot hold. */
  lemma {:induction false} OversizedExample(p: Packet)
    requires |p| == LENGTH_LIMIT
    ensures |p| <= BUF_SIZE && Unframe(Frame(p)) != Unframed([p], [])
  {
    FrameExact([], p);
    assert Frames([]) + Frame(p) == Frame(p) && [] + [p] == [p];
  }

  /** One byte of a frame, and then another frame: the second packet is not found, and an empty one is invented. */
  lemma {:induction false} CutFrameParse()
    ensures Unframe(Frame([7])[..1] + Frame([9])) == Unframed([[]], [1, 9])
  {
    var data := Frame([7])[..1] + Frame([9]);
    assert data == [0, 0, 1, 9];
    assert GetBE16(data) == 0 && data[2..2] == [] && data[2..] == [1, 9];
    assert GetBE16([1, 9]) == 265;
    assert Unframe([1, 9]) == Unframed([], [1, 9]);
  }
}
