/**
 A sending and a receiving AsyncTCPSocket joined by the network, driven by an arbitrary
 sequence of events.
 */
module TcpSession {
  import opened Words
  import opened Framing
  import opened AsyncTcp

  datatype Event =
    | SendPacket(packet: Packet, replies: seq<Reply>)  // the application sends
    | WriteReady(replies: seq<Reply>)                  // the sender's socket becomes writable
    | Transfer(count: nat)                             // the network moves bytes across
    | ReadReady(replies: seq<Reply>)                   // the receiver's socket becomes readable

  /**
   Where the bytes are: read by the receiver, in its socket, in the sender's socket, kept by the
   sender. `accepted` are the packets of which at least one byte was written.
   */
  datatype Link = Link(
    accepted: seq<Packet>,
    received: seq<Byte>,
    arrived: seq<Byte>,
    flying: seq<Byte>,
    kept: seq<Byte>,
    capacity: nat
  ) {
    /** All bytes that were written or are going to be. */
    function Wire(): seq<Byte> {
      received + (arrived + flying + kept)
    }

    predicate Idle() {
      arrived == [] && flying == [] && kept == []
    }

    /** A packet is accepted when its size passes, no earlier packet is kept and the socket takes a first byte. */
    predicate Accepts(event: Event) {
      event.SendPacket? && |event.packet| <= BUF_SIZE && kept == [] && Takes(event.replies)
    }

    /** It is spoilt when its size exceeds the length field, or the socket cuts the frame off. */
    predicate Spoils(event: Event) {
      && Accepts(event)
      && (|event.packet| >= LENGTH_LIMIT || CutOff(PACKET_LEN_SIZE + |event.packet|, event.replies, false))
    }

    function After(event: Event): Link {
      match event
      case SendPacket(p, replies) =>
        if Accepts(event) then AfterSend(p, replies) else this
      case WriteReady(replies) =>
        var sent := |kept| - Left(|kept|, replies);
        this.(flying := flying + kept[..sent], kept := kept[sent..])
      case Transfer(count) =>
        var n := Min(count, |flying|);
        this.(arrived := arrived + flying[..n], flying := flying[n..])
      case ReadReady(replies) =>
        var r := Intakes(|Unframe(received).tail|, capacity, |arrived|, replies);
        this.(received := received + arrived[..r.taken], arrived := arrived[r.taken..], capacity := r.capacity)
    }

    function AfterSend(p: Packet, replies: seq<Reply>): Link {
      var frame := Frame(p);
      var sent := |frame| - Left(|frame|, replies);
      this.(
        accepted := accepted + [p],
        flying := flying + frame[..sent],
        kept := if CutOff(|frame|, replies, false) then [] else frame[sent..])
    }
  }

  const START := Link([], [], [], [], [], MINIMUM_RECV_SIZE)

  function Replay(events: seq<Event>): Link {
    if events == [] then START else Replay(events[..|events| - 1]).After(events[|events| - 1])
  }

  /** No event of the run spoils a packet. */
  ghost predicate Whole(events: seq<Event>) {
    forall i :: 0 <= i < |events| ==> !Replay(events[..i]).Spoils(events[i])
  }

  // ---------- what the bytes on the wire are ----------

  /** Only an accepted packet adds bytes: its frame, or less than its frame when it is cut off. */
  ghost predicate Grew(before: seq<Byte>, wire: seq<Byte>, frame: seq<Byte>, cut: bool) {
    if !cut then wire == before + frame
    else exists sent :: 0 < sent < |frame| && wire == before + frame[..sent]
  }

  lemma {:induction false} SendGrows(link: Link, p: Packet, replies: seq<Reply>)
    requires link.Accepts(SendPacket(p, replies))
    ensures Grew(link.Wire(), link.AfterSend(p, replies).Wire(), Frame(p), CutOff(|Frame(p)|, replies, false))
  {
    hide Frame, Left, CutOff;
    var link', frame := link.AfterSend(p, replies), Frame(p);
    var sent := |frame| - Left(|frame|, replies);
    FrameSize(p);
    LeftProgress(|frame|, replies);
    CutOffLeaves(|frame|, replies, false);
    assert link'.Wire() == link.Wire() + (frame[..sent] + link'.kept);
    assert frame[..sent] + frame[sent..] == frame;
  }

  lemma {:induction false} WireStays(link: Link, event: Event)
    requires !link.Accepts(event)
    ensures link.After(event).Wire() == link.Wire()
  {
    hide Unframe, Left, Intakes;
    var link' := link.After(event);
    match event
    case SendPacket(_, _) =>
    case WriteReady(_) =>
      assert link'.flying + link'.kept == link.flying + link.kept;
      assert link'.arrived + link'.flying + link'.kept == link.arrived + (link'.flying + link'.kept);
    case Transfer(_) =>
      assert link'.arrived + link'.flying == link.arrived + link.flying;
    case ReadReady(_) =>
      assert link'.received + link'.arrived == link.received + link.arrived;
      assert link'.Wire() == (link'.received + link'.arrived) + (link.flying + link.kept);
      assert link.Wire() == (link.received + link.arrived) + (link.flying + link.kept);
  }

  lemma {:induction false} WireGrows(link: Link, event: Event)
    ensures !link.Accepts(event) ==> link.After(event).Wire() == link.Wire()
    ensures link.Accepts(event) ==> event.SendPacket?
    ensures link.Accepts(event) ==>
      var frame := Frame(event.packet);
      Grew(link.Wire(), link.After(event).Wire(), frame, CutOff(|frame|, event.replies, false))
  {
    hide Unframe, Frame, Left, CutOff, Intakes, Grew, Link.Wire;
    if link.Accepts(event) {
      SendGrows(link, event.packet, event.replies);
    } else {
      WireStays(link, event);
    }
  }

  lemma {:induction false} AcceptedGrows(link: Link, event: Event)
    ensures link.Accepts(event) ==> event.SendPacket?
    ensures link.After(event).accepted
            == if link.Accepts(event) then link.accepted + [event.packet] else link.accepted
  {
    hide Unframe, Frame, Left, CutOff, Intakes;
  }

  lemma {:induction false} FrameSize(p: Packet)
    ensures |Frame(p)| == PACKET_LEN_SIZE + |p|
  {
  }

  /**
   From a stream of whole frames, and whatever the socket answers, Send leaves a stream of whole
   frames exactly when it drops the packet behind a blocked one, or its writes are not cut off.
   */
  lemma {:induction false} SendKeepsFraming(link: Link, ps: seq<Packet>, p: Packet, replies: seq<Reply>)
    requires Framable(ps) && link.Wire() == Frames(ps) && |p| < LENGTH_LIMIT
    ensures (exists qs :: Framable(qs) && link.After(SendPacket(p, replies)).Wire() == Frames(qs))
            <==> link.kept != [] || !CutOff(|Frame(p)|, replies, false)
  {
    hide Frame, Frames, Unframe, CutOff, Link.After;
    var event := SendPacket(p, replies);
    var wire := link.After(event).Wire();
    FrameSize(p);
    WireGrows(link, event);
    CutOffTakes(|Frame(p)|, replies);
    if !link.Accepts(event) {
      assert wire == Frames(ps);
    } else if !CutOff(|Frame(p)|, replies, false) {
      FramesSnoc(ps, p);
      assert Framable(ps + [p]) && wire == Frames(ps + [p]);
    } else {
      var sent :| 0 < sent < |Frame(p)| && wire == link.Wire() + Frame(p)[..sent];
      CutFrame(ps, p, sent);
      forall qs | Framable(qs) ensures wire != Frames(qs) {
        UnframeExact(wire, qs);
      }
    }
  }

  /**
   The stream that parses into exactly the accepted packets goes on doing so exactly when the event
   does not spoil a packet, whatever its size and whatever the sender still keeps.
   */
  lemma {:induction false} EventExact(link: Link, event: Event)
    requires Unframe(link.Wire()) == Unframed(link.accepted, [])
    ensures Unframe(link.After(event).Wire()) == Unframed(link.After(event).accepted, []) <==> !link.Spoils(event)
  {
    hide Frame, Frames, Unframe, CutOff, Link.After, Link.Wire, Framable;
    var link' := link.After(event);
    UnframeExact(link.Wire(), link.accepted);
    UnframeExact(link'.Wire(), link'.accepted);
    WireGrows(link, event);
    AcceptedGrows(link, event);
    if link.Accepts(event) {
      FrameSize(event.packet);
      FramesSnoc(link.accepted, event.packet);
      FramableSnoc(link.accepted, event.packet);
    }
  }

  lemma {:induction false} CutOffTakes(n: nat, replies: seq<Reply>)
    ensures CutOff(n, replies, false) ==> Takes(replies)
  {
  }

  ghost predicate NoCut(events: seq<Event>) {
    forall i :: 0 <= i < |events| && Replay(events[..i]).Accepts(events[i]) ==>
      !CutOff(|Frame(events[i].packet)|, events[i].replies, false)
  }

  /** All bytes of the accepted packets' frames are on the wire when no send was cut off; otherwise some are missing. */
  lemma {:induction false} WireExact(events: seq<Event>)
    ensures var link := Replay(events);
      if NoCut(events) then link.Wire() == Frames(link.accepted) else |link.Wire()| < |Frames(link.accepted)|
    decreases |events|
  {
    hide Frame, Frames, CutOff, NoCut, Link.After, Link.Wire, Link.Accepts;
    if events == [] {
      EmptyWire();
      NoCutNothing();
    } else {
      var n := |events| - 1;
      var before, event := Replay(events[..n]), events[n];
      WireExact(events[..n]);
      NoCutSnoc(events);
      WireGrows(before, event);
      AcceptedGrows(before, event);
      if before.Accepts(event) {
        FramesSnoc(before.accepted, event.packet);
      }
    }
  }

  lemma {:induction false} NoCutNothing()
    ensures NoCut([])
  {
  }

  lemma {:induction false} EmptyWire()
    ensures START.Wire() == [] && Frames(START.accepted) == [] && Unframe([]) == Unframed([], [])
  {
  }

  lemma {:induction false} NoCutSnoc(events: seq<Event>)
    requires events != []
    ensures var n := |events| - 1;
      NoCut(events) <==>
        && NoCut(events[..n])
        && (Replay(events[..n]).Accepts(events[n]) ==>
              !CutOff(|Frame(events[n].packet)|, events[n].replies, false))
  {
    hide Replay, Frame, CutOff, Link.Accepts;
    var n := |events| - 1;
    assert forall i :: 0 <= i < n ==> events[..n][..i] == events[..i] && events[..n][i] == events[i];
  }

  ghost predicate NoneTooLong(events: seq<Event>) {
    forall i :: 0 <= i < |events| && Replay(events[..i]).Accepts(events[i]) ==> |events[i].packet| < LENGTH_LIMIT
  }

  lemma {:induction false} NoneTooLongSnoc(events: seq<Event>)
    requires events != []
    ensures var n := |events| - 1;
      NoneTooLong(events) <==>
        NoneTooLong(events[..n]) && (Replay(events[..n]).Accepts(events[n]) ==> |events[n].packet| < LENGTH_LIMIT)
  {
    hide Replay, Link.Accepts;
    var n := |events| - 1;
    assert forall i :: 0 <= i < n ==> events[..n][..i] == events[..i] && events[..n][i] == events[i];
  }

  lemma {:induction false} AcceptedFramable(events: seq<Event>)
    ensures Framable(Replay(events).accepted) <==> NoneTooLong(events)
    decreases |events|
  {
    hide Frame, Frames, CutOff, Link.After, Link.Accepts, Link.Wire;
    if events != [] {
      var n := |events| - 1;
      var before, event := Replay(events[..n]), events[n];
      AcceptedFramable(events[..n]);
      NoneTooLongSnoc(events);
      AcceptedGrows(before, event);
      if before.Accepts(event) {
        FramableSnoc(before.accepted, event.packet);
      }
    }
  }

  lemma {:induction false} FramableSnoc(ps: seq<Packet>, p: Packet)
    ensures Framable(ps + [p]) <==> Framable(ps) && |p| < LENGTH_LIMIT
  {
    if Framable(ps + [p]) {
      assert forall i :: 0 <= i < |ps| ==> (ps + [p])[i] == ps[i];
      assert (ps + [p])[|ps|] == p;
    }
  }

  lemma {:induction false} WholeIsBoth(events: seq<Event>)
    ensures Whole(events) <==> NoCut(events) && NoneTooLong(events)
  {
    hide Replay, CutOff, Link.Accepts;
    forall i | 0 <= i < |events| && events[i].SendPacket?
      ensures |Frame(events[i].packet)| == PACKET_LEN_SIZE + |events[i].packet|
    {
      FrameSize(events[i].packet);
    }
  }

  // ---------- what the receiver gets ----------

  /** The bytes on the wire parse into exactly the accepted packets if and only if no packet was spoilt. */
  lemma {:induction false} WireDelivers(events: seq<Event>)
    ensures Unframe(Replay(events).Wire()) == Unframed(Replay(events).accepted, []) <==> Whole(events)
  {
    hide Unframe, Frames, Replay, Whole, NoCut, NoneTooLong, Link.Wire;
    var link := Replay(events);
    WireExact(events);
    AcceptedFramable(events);
    WholeIsBoth(events);
    UnframeExact(link.Wire(), link.accepted);
  }

  lemma {:induction false} IdleWire(link: Link)
    requires link.Idle()
    ensures link.Wire() == link.received
  {
  }

  /**
   Once nothing is under way, the receiver has exactly the accepted packets, and no byte besides, if
   and only if no packet was spoilt: each size fits the length field and no frame was cut off.
   */
  lemma {:induction false} DeliveryExact(events: seq<Event>)
    requires Replay(events).Idle()
    ensures Unframe(Replay(events).received) == Unframed(Replay(events).accepted, []) <==> Whole(events)
  {
    IdleWire(Replay(events));
    WireDelivers(events);
  }

  /** If no packet was spoilt, the receiver always has the first of the accepted packets, in order and unchanged. */
  lemma {:induction false} DeliveredPrefix(events: seq<Event>)
    requires Whole(events)
    ensures Unframe(Replay(events).received).packets <= Replay(events).accepted
  {
    hide Unframe, Frames, Replay, Whole, NoCut, NoneTooLong;
    var link := Replay(events);
    WireExact(events);
    AcceptedFramable(events);
    WholeIsBoth(events);
    PrefixDelivers(link.accepted, link.received, link.arrived + link.flying + link.kept);
  }

  // ---------- nothing gets stuck ----------

  ghost predicate CapacityOk(link: Link) {
    MINIMUM_RECV_SIZE <= link.capacity <= BUF_SIZE && |Unframe(link.received).tail| <= link.capacity
  }

  lemma {:induction false} CapacityStays(held: nat, capacity: nat, arrived: nat, replies: seq<Reply>)
    requires MINIMUM_RECV_SIZE <= capacity <= BUF_SIZE && held <= capacity
    ensures var r := Intakes(held, capacity, arrived, replies);
      MINIMUM_RECV_SIZE <= r.capacity <= BUF_SIZE && held + r.taken <= r.capacity
    decreases |replies|
  {
    hide Intakes;
    IntakesRead(held, capacity, arrived, replies);
    var room := Grown(held, capacity);
    if replies != [] && replies[0].res >= 0 {
      var len := Min(replies[0].res, Min(room - held, arrived));
      CapacityStays(held + len, room, arrived - len, replies[1..]);
    }
  }

  lemma {:induction false} TailShrinks(received: seq<Byte>, chunk: seq<Byte>)
    ensures |Unframe(received + chunk).tail| <= |Unframe(received).tail| + |chunk|
  {
    UnframeConcat(received, chunk);
    UnframeInverse(Unframe(received).tail + chunk);
  }

  lemma {:induction false} CapacityKept(link: Link, event: Event)
    requires CapacityOk(link)
    ensures CapacityOk(link.After(event))
  {
    hide Unframe, Frame, Left, CutOff, Intakes;
    if event.ReadReady? {
      var held := |Unframe(link.received).tail|;
      var r := Intakes(held, link.capacity, |link.arrived|, event.replies);
      CapacityStays(held, link.capacity, |link.arrived|, event.replies);
      TailShrinks(link.received, link.arrived[..r.taken]);
    }
  }

  lemma {:induction false} CapacityAlways(events: seq<Event>)
    ensures CapacityOk(Replay(events))
    decreases |events|
  {
    hide Unframe, Link.After;
    if events == [] {
      EmptyWire();
    } else {
      CapacityAlways(events[..|events| - 1]);
      CapacityKept(Replay(events[..|events| - 1]), events[|events| - 1]);
    }
  }

  lemma {:induction false} ReplayOneMore(events: seq<Event>, event: Event)
    ensures Replay(events + [event]) == Replay(events).After(event)
  {
    assert (events + [event])[..|events|] == events;
  }

  /** A read event on a socket that gives what it has takes at least a byte. */
  lemma {:induction false} ReadProgress(link: Link)
    requires CapacityOk(link) && link.arrived != []
    ensures var link' := link.After(ReadReady([Reply(|link.arrived|, NoError)]));
      && |link'.arrived| < |link.arrived| && link'.Wire() == link.Wire()
      && link' == link.(received := link'.received, arrived := link'.arrived, capacity := link'.capacity)
  {
    hide Unframe, Intakes, Link.Wire;
    WireStays(link, ReadReady([Reply(|link.arrived|, NoError)]));
    UnframeTail(link.received);
    IntakesProgress(|Unframe(link.received).tail|, link.capacity, |link.arrived|, [Reply(|link.arrived|, NoError)]);
  }

  lemma {:induction false} ReadOut(events: seq<Event>) returns (more: seq<Event>)
    requires Replay(events).flying == [] && Replay(events).kept == []
    ensures Replay(events + more).Idle() && Replay(events + more).accepted == Replay(events).accepted
    ensures Replay(events + more).Wire() == Replay(events).Wire()
    ensures forall i :: 0 <= i < |more| ==> !more[i].SendPacket?
    decreases |Replay(events).arrived|
  {
    hide Replay, Link.After, Link.Wire;
    var link := Replay(events);
    if link.arrived == [] {
      assert events + [] == events;
      return [];
    }
    var event := ReadReady([Reply(|link.arrived|, NoError)]);
    CapacityAlways(events);
    ReadProgress(link);
    ReplayOneMore(events, event);
    var rest := ReadOut(events + [event]);
    more := [event] + rest;
    assert events + more == events + [event] + rest;
  }

  /** A socket that takes all it is offered, and a network that moves it. */
  lemma {:induction false} SendOut(link: Link)
    ensures var out := link.After(WriteReady([Reply(|link.kept|, NoError)]));
      var over := out.After(Transfer(|out.flying|));
      over.flying == [] && over.kept == [] && over.accepted == link.accepted && over.Wire() == link.Wire()
  {
    hide Unframe, Intakes, Link.Wire;
    var write := WriteReady([Reply(|link.kept|, NoError)]);
    WireStays(link, write);
    WireStays(link.After(write), Transfer(|link.After(write).flying|));
  }

  /**
   Whatever has happened, some further events without a send bring everything under way to the
   receiver; and then it has the accepted packets exactly when none was spoilt.
   */
  lemma {:induction false} CanDrain(events: seq<Event>) returns (more: seq<Event>)
    ensures forall i :: 0 <= i < |more| ==> !more[i].SendPacket?
    ensures Replay(events + more).Idle() && Replay(events + more).accepted == Replay(events).accepted
    ensures Unframe(Replay(events + more).received) == Unframed(Replay(events).accepted, []) <==> Whole(events)
  {
    hide Replay, Link.After, Link.Wire, Unframe, Frames, Whole, NoCut, NoneTooLong;
    var link := Replay(events);
    var write := WriteReady([Reply(|link.kept|, NoError)]);
    var out := link.After(write);
    var move := Transfer(|out.flying|);
    SendOut(link);
    ReplayOneMore(events, write);
    ReplayOneMore(events + [write], move);
    var rest := ReadOut(events + [write] + [move]);
    more := [write] + [move] + rest;
    assert events + more == events + [write] + [move] + rest;
    IdleWire(Replay(events + more));
    WireDelivers(events);
  }

  // ---------- every fair continuation drains ----------

  /** How far the bytes under way still have to go. */
  function Distance(link: Link): nat {
    3 * |link.kept| + 2 * |link.flying| + |link.arrived|
  }

  /** The event can move a byte, if there is one where it looks. */
  predicate Willing(event: Event) {
    match event
    case SendPacket(_, _) => false
    case WriteReady(replies) => Takes(replies)
    case Transfer(count) => count > 0
    case ReadReady(replies) => Takes(replies)
  }

  /** There is a byte where the event looks for one. */
  predicate Waiting(link: Link, event: Event) {
    match event
    case SendPacket(_, _) => false
    case WriteReady(_) => link.kept != []
    case Transfer(_) => link.flying != []
    case ReadReady(_) => link.arrived != []
  }

  /** No byte has moved back, and some byte nearer when `moves`; if none moved, all are where they were. */
  ghost predicate Nearer(link: Link, link': Link, moves: bool) {
    && Distance(link') <= Distance(link)
    && (moves ==> Distance(link') < Distance(link))
    && (Distance(link') == Distance(link) ==>
          link'.kept == link.kept && link'.flying == link.flying && link'.arrived == link.arrived)
  }

  lemma {:induction false} WriteNearer(link: Link, replies: seq<Reply>)
    requires CapacityOk(link)
    ensures var event := WriteReady(replies); Nearer(link, link.After(event), Willing(event) && Waiting(link, event))
  {
    hide Left, CapacityOk;
    LeftProgress(|link.kept|, replies);
    var sent := |link.kept| - Left(|link.kept|, replies);
    if sent == 0 {
      assert link.flying + link.kept[..sent] == link.flying && link.kept[sent..] == link.kept;
    }
  }

  lemma {:induction false} TransferNearer(link: Link, count: nat)
    requires CapacityOk(link)
    ensures var event := Transfer(count); Nearer(link, link.After(event), Willing(event) && Waiting(link, event))
  {
    hide CapacityOk;
    var n := Min(count, |link.flying|);
    if n == 0 {
      assert link.arrived + link.flying[..n] == link.arrived && link.flying[n..] == link.flying;
    }
  }

  lemma {:induction false} ReadNearer(link: Link, replies: seq<Reply>)
    requires CapacityOk(link)
    ensures var event := ReadReady(replies); Nearer(link, link.After(event), Willing(event) && Waiting(link, event))
  {
    hide Unframe, Intakes;
    UnframeTail(link.received);
    IntakesProgress(|Unframe(link.received).tail|, link.capacity, |link.arrived|, replies);
    var taken := Intakes(|Unframe(link.received).tail|, link.capacity, |link.arrived|, replies).taken;
    if taken == 0 {
      assert link.arrived[taken..] == link.arrived;
    }
  }

  /** A willing event with a byte to move brings it nearer, and no event but an accepted send moves one back. */
  lemma {:induction false} DistanceFalls(link: Link, event: Event)
    requires CapacityOk(link) && !link.Accepts(event)
    ensures Nearer(link, link.After(event), Willing(event) && Waiting(link, event))
  {
    hide Unframe, Left, Intakes, Frame, CutOff, CapacityOk, Distance;
    match event
    case SendPacket(_, _) =>
    case WriteReady(replies) => hide Link.After; WriteNearer(link, replies);
    case Transfer(count) => hide Link.After; TransferNearer(link, count);
    case ReadReady(replies) => hide Link.After; ReadNearer(link, replies);
  }

  /** A stretch of events in which the sender can write, the network can move and the receiver can read. */
  ghost predicate Round(events: seq<Event>) {
    && (exists i :: 0 <= i < |events| && events[i].WriteReady? && Willing(events[i]))
    && (exists i :: 0 <= i < |events| && events[i].Transfer? && Willing(events[i]))
    && (exists i :: 0 <= i < |events| && events[i].ReadReady? && Willing(events[i]))
  }

  /** No send among `more` is accepted when they follow `events`. */
  ghost predicate Quiet(events: seq<Event>, more: seq<Event>) {
    forall i :: 0 <= i < |more| ==> !Replay(events + more[..i]).Accepts(more[i])
  }

  lemma {:induction false} QuietSplit(events: seq<Event>, a: seq<Event>, b: seq<Event>)
    requires Quiet(events, a + b)
    ensures Quiet(events, a) && Quiet(events + a, b)
  {
    hide Replay, Link.Accepts;
    forall i | 0 <= i < |a| ensures !Replay(events + a[..i]).Accepts(a[i]) {
      assert (a + b)[..i] == a[..i] && (a + b)[i] == a[i];
    }
    forall i | 0 <= i < |b| ensures !Replay(events + a + b[..i]).Accepts(b[i]) {
      assert (a + b)[..|a| + i] == a + b[..i] && (a + b)[|a| + i] == b[i];
      assert events + (a + b[..i]) == events + a + b[..i];
    }
  }

  /** What a quiet stretch keeps; and if it brings nothing nearer, none of its willing events had a byte to move. */
  lemma {:induction false} QuietStretch(events: seq<Event>, more: seq<Event>)
    requires Quiet(events, more)
    ensures var link, link' := Replay(events), Replay(events + more);
      && link'.accepted == link.accepted && link'.Wire() == link.Wire()
      && Distance(link') <= Distance(link)
      && (Distance(link') == Distance(link) ==>
            forall i :: 0 <= i < |more| && Willing(more[i]) ==> !Waiting(link, more[i]))
    decreases |more|
  {
    hide Replay, Link.After, Link.Wire, Link.Accepts, Distance, Willing, CapacityOk, Quiet;
    if more == [] {
      assert events + more == events;
    } else {
      var event, rest := more[0], more[1..];
      assert more == [event] + rest && events + more == events + [event] + rest;
      QuietSplit(events, [event], rest);
      QuietOne(events, event);
      ReplayOneMore(events, event);
      CapacityAlways(events);
      DistanceFalls(Replay(events), event);
      WireStays(Replay(events), event);
      AcceptedGrows(Replay(events), event);
      QuietStretch(events + [event], rest);
    }
  }

  lemma {:induction false} QuietOne(events: seq<Event>, event: Event)
    requires Quiet(events, [event])
    ensures !Replay(events).Accepts(event)
  {
    assert [event][..0] == [] && events + [] == events && [event][0] == event;
  }

  lemma {:induction false} RoundFalls(events: seq<Event>, round: seq<Event>)
    requires Quiet(events, round) && Round(round) && !Replay(events).Idle()
    ensures Distance(Replay(events + round)) < Distance(Replay(events))
  {
    hide Replay, Quiet, Distance, Willing;
    QuietStretch(events, round);
  }

  lemma {:induction false} StaysIdle(link: Link)
    ensures Distance(link) == 0 <==> link.Idle()
  {
  }

  function Flatten(rounds: seq<seq<Event>>): seq<Event> {
    if rounds == [] then [] else rounds[0] + Flatten(rounds[1..])
  }

  lemma {:induction false} RoundsFall(events: seq<Event>, rounds: seq<seq<Event>>)
    requires forall k :: 0 <= k < |rounds| ==> Round(rounds[k])
    requires Quiet(events, Flatten(rounds)) && |rounds| >= Distance(Replay(events))
    ensures Replay(events + Flatten(rounds)).Idle()
    decreases |rounds|
  {
    hide Replay, Quiet, Distance, Round, Link.Idle;
    StaysIdle(Replay(events));
    if Replay(events).Idle() {
      QuietStretch(events, Flatten(rounds));
      StaysIdle(Replay(events + Flatten(rounds)));
    } else {
      var round, rest := rounds[0], Flatten(rounds[1..]);
      QuietSplit(events, round, rest);
      RoundFalls(events, round);
      RoundsFall(events + round, rounds[1..]);
      assert events + (round + rest) == events + round + rest;
    }
  }

  /**
   Every continuation without an accepted send, whatever its events and in whatever order, in which
   writer, network and reader keep getting their turn, brings everything under way to the receiver;
   and then it has the accepted packets exactly when none was spoilt.
   */
  lemma {:induction false} AlwaysDrains(events: seq<Event>, rounds: seq<seq<Event>>)
    requires forall k :: 0 <= k < |rounds| ==> Round(rounds[k])
    requires Quiet(events, Flatten(rounds)) && |rounds| >= Distance(Replay(events))
    ensures var link := Replay(events + Flatten(rounds));
      && link.Idle() && link.accepted == Replay(events).accepted
      && (Unframe(link.received) == Unframed(link.accepted, []) <==> Whole(events))
  {
    hide Replay, Quiet, Distance, Round, Whole, Unframe, Link.Wire;
    RoundsFall(events, rounds);
    QuietStretch(events, Flatten(rounds));
    IdleWire(Replay(events + Flatten(rounds)));
    WireDelivers(events);
  }

  lemma {:induction false} AfterWrite(link: Link, replies: seq<Reply>)
    ensures var sent, link' := |link.kept| - Left(|link.kept|, replies), link.After(WriteReady(replies));
      && link'.flying == link.flying + link.kept[..sent] && link'.kept == link.kept[sent..]
      && link' == link.(flying := link'.flying, kept := link'.kept)
  {
    hide Left;
  }

  // ---------- the two sockets ----------

  class Session {
    const near: Socket
    const far: Socket
    const sender: AsyncTcpSocket
    const receiver: AsyncTcpSocket
    // Packets of which at least one byte was written to the socket.
    var accepted: seq<Packet>

    ghost predicate Wired() {
      && near != far && sender != receiver && sender.socket == near && receiver.socket == far
    }

    /** The bytes are where `link` says, and the receiver has parsed what it has read. */
    ghost predicate Shows(link: Link)
      reads this, near, far, sender, receiver
    {
      && Wired()
      && receiver.Valid()
      && accepted == link.accepted
      && far.incoming == link.arrived && near.outgoing == link.flying && sender.outbuf == link.kept
      && Unframe(link.received) == Unframed(receiver.delivered, receiver.inbuf)
      && receiver.inCapacity == link.capacity
    }

    constructor ()
      ensures Shows(START) && fresh(near) && fresh(far) && fresh(sender) && fresh(receiver)
    {
      hide Unframe, Frames;
      var s := new Socket();
      var t := new Socket();
      var a := new AsyncTcpSocket(s);
      var b := new AsyncTcpSocket(t);
      near, far, sender, receiver := s, t, a, b;
      accepted := [];
      new;
      EmptyWire();
    }

    method SendStep(packet: Packet, replies: seq<Reply>, ghost link: Link) returns (took: bool)
      requires Shows(link)
      modifies this, near, sender
      ensures Shows(link.After(SendPacket(packet, replies)))
      ensures took <==> link.Accepts(SendPacket(packet, replies))
    {
      hide Unframe, Frame, Left, CutOff, Intakes;
      near.replies := replies;
      var before := |near.outgoing|;
      var _, _ := sender.Send(packet);
      took := |near.outgoing| > before;
      FrameSize(packet);
      LeftProgress(|Frame(packet)|, replies);
      if took {
        accepted := accepted + [packet];
      }
    }

    method WriteStep(replies: seq<Reply>, ghost link: Link)
      requires Shows(link)
      modifies near, sender
      ensures Shows(link.After(WriteReady(replies)))
    {
      hide Unframe, Left, Intakes, Link.After;
      AfterWrite(link, replies);
      near.replies := replies;
      var _ := sender.OnWriteEvent();
      FlushSplits(link.flying, link.kept, near.outgoing, sender.outbuf);
    }

    /** The network delivers in order and loses nothing, but as little at a time as it likes. */
    method TransferStep(count: nat, ghost link: Link)
      requires Shows(link)
      modifies near, far
      ensures Shows(link.After(Transfer(count)))
    {
      hide Unframe, Intakes;
      var n := Min(count, |near.outgoing|);
      far.incoming := far.incoming + near.outgoing[..n];
      near.outgoing := near.outgoing[n..];
    }

    method ReadStep(replies: seq<Reply>, ghost link: Link)
      requires Shows(link)
      modifies far, receiver
      ensures Shows(link.After(ReadReady(replies)))
    {
      hide Unframe, Intakes;
      far.replies := replies;
      receiver.OnReadEvent();
      UnframeConcat(link.received, link.arrived[..|link.arrived| - |far.incoming|]);
    }
  }

  /** The packets of the send events that were taken, in order. */
  function Accepted(events: seq<Event>, took: seq<bool>): seq<Packet>
    requires |took| == |events|
  {
    if events == [] then []
    else
      var n := |events| - 1;
      Accepted(events[..n], took[..n]) + if events[n].SendPacket? && took[n] then [events[n].packet] else []
  }

  lemma {:induction false} AcceptedReplay(events: seq<Event>, took: seq<bool>)
    requires |took| == |events|
    requires forall i :: 0 <= i < |events| ==> took[i] == Replay(events[..i]).Accepts(events[i])
    ensures Accepted(events, took) == Replay(events).accepted
    decreases |events|
  {
    hide Link.After, Link.Accepts, Frame, CutOff, Link.Wire;
    if events != [] {
      var n := |events| - 1;
      forall i | 0 <= i < n ensures took[..n][i] == Replay(events[..n][..i]).Accepts(events[..n][i]) {
        assert events[..n][..i] == events[..i];
      }
      AcceptedReplay(events[..n], took[..n]);
      AcceptedGrows(Replay(events[..n]), events[n]);
      assert Accepted(events[..n], took[..n]) + [] == Accepted(events[..n], took[..n]);
    }
  }

  /**
   Whatever the order of sends, partial and failed writes, write events, network transfers and
   chunked reads. A packet is taken exactly when its size passes, no earlier packet is kept and the
   socket takes a byte. Unless some packet is spoilt, the packets delivered are the packets taken, in
   order and unchanged, up to what is still under way; and once nothing is under way, they are all of
   them, with no byte left over, exactly when none was spoilt.
   */
  method Run(events: seq<Event>) returns (took: seq<bool>, delivered: seq<Packet>, tail: seq<Byte>, underWay: nat)
    ensures |took| == |events|
    ensures forall i :: 0 <= i < |events| ==> took[i] == Replay(events[..i]).Accepts(events[i])
    ensures Unframed(delivered, tail) == Unframe(Replay(events).received)
    ensures underWay == |Replay(events).arrived| + |Replay(events).flying| + |Replay(events).kept|
    ensures Whole(events) ==> delivered <= Accepted(events, took)
    ensures underWay == 0 ==> (delivered == Accepted(events, took) && tail == [] <==> Whole(events))
  {
    hide Unframe, Frames, Replay, Whole, Link.After, Link.Accepts;
    var s := new Session();
    took := [];
    ReplayNothing(events);
    for k := 0 to |events|
      invariant fresh(s) && fresh(s.near) && fresh(s.far) && fresh(s.sender) && fresh(s.receiver)
      invariant s.Shows(Replay(events[..k]))
      invariant |took| == k
      invariant forall i :: 0 <= i < k ==> took[i] == Replay(events[..i]).Accepts(events[i])
    {
      ghost var link := Replay(events[..k]);
      ReplayOneMore(events[..k], events[k]);
      assert events[..k] + [events[k]] == events[..k + 1];
      var ok := false;
      match events[k] {
        case SendPacket(packet, replies) => ok := s.SendStep(packet, replies, link);
        case WriteReady(replies) => s.WriteStep(replies, link);
        case Transfer(count) => s.TransferStep(count, link);
        case ReadReady(replies) => s.ReadStep(replies, link);
      }
      AcceptedGrows(link, events[k]);
      took := took + [ok];
    }
    assert events[..|events|] == events;
    delivered, tail := s.receiver.delivered, s.receiver.inbuf;
    underWay := |s.far.incoming| + |s.near.outgoing| + |s.sender.outbuf|;
    AcceptedReplay(events, took);
    if Whole(events) {
      DeliveredPrefix(events);
    }
    if underWay == 0 {
      DeliveryExact(events);
    }
  }

  lemma {:induction false} ReplayNothing(events: seq<Event>)
    ensures Replay(events[..0]) == START
  {
  }
}
