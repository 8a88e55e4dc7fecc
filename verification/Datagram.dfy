/**
 Datagrams (LCC/lcc-datagram.c): up to 72 bytes, cut into CAN frames of at most eight and put together again
 in the one buffer that a node has.
 */
module Datagram {
  import opened CanId

  const MAX_DATAGRAM := 72
  const ONLY_FRAME := 2
  const FIRST_FRAME := 3
  const MIDDLE_FRAME := 4
  const LAST_FRAME := 5
  const BUFFER_UNAVAILABLE := 0x2020

  datatype Status = Ok | InvalidArg | TxError

  function Word(high: nat, low: nat): nat { high * 0x100 + low }

  // ---------------------------------------------------------------- sending

  /** Continuation frames for what is left after the first one. */
  function Rest(source: nat, dest: nat, left: seq<Byte>): seq<Frame>
    decreases |left|
  {
    if |left| <= 8 then [Frame(MessageId(LAST_FRAME, dest, source), left)]
    else [Frame(MessageId(MIDDLE_FRAME, dest, source), left[..8])] + Rest(source, dest, left[8..])
  }

  /** The frames of one datagram. */
  function Frames(source: nat, dest: nat, data: seq<Byte>): seq<Frame>
  {
    if |data| <= 8 then [Frame(MessageId(ONLY_FRAME, dest, source), data)]
    else [Frame(MessageId(FIRST_FRAME, dest, source), data[..8])] + Rest(source, dest, data[8..])
  }

  /** The reply frame with the given MTI: the destination alias, then the given bytes. */
  function ReplyFrame(mti: nat, source: nat, dest: nat, data: seq<Byte>): Frame
  {
    Frame(MessageId(1, mti, source), [dest / 0x100 % 0x10, dest % 0x100] + data)
  }

  function OkFrame(source: nat, dest: nat, flags: Byte): Frame
  {
    ReplyFrame(MTI_DATAGRAM_RECEIVED_OK, source, dest, [flags])
  }

  function RejectedFrame(source: nat, dest: nat, code: nat): Frame
  {
    ReplyFrame(MTI_DATAGRAM_REJECTED, source, dest, [code / 0x100 % 0x100, code % 0x100])
  }

  /** Both replies say who sends them, who they are for and what they are about. */
  lemma ReplyFramesReadBack(source: nat, dest: nat, flags: Byte, code: nat)
    requires source < ALIAS_LIMIT && dest < ALIAS_LIMIT && code < 0x1_0000
    ensures var ok, rejected := OkFrame(source, dest, flags), RejectedFrame(source, dest, code);
            && (forall f :: f in {ok, rejected} ==>
                  && IsMessage(f.id) && FrameTypeOf(f.id) == 1 && AliasOf(f.id) == source
                  && |f.data| >= 3 && f.data[0] as int * 0x100 + f.data[1] as int == dest)
            && FieldOf(ok.id) == 0xA28 && ok.data[2..] == [flags]
            && FieldOf(rejected.id) == 0xA48 && |rejected.data| == 4
            && rejected.data[2] as int * 0x100 + rejected.data[3] as int == code
  {
    MessageIdFields(1, MTI_DATAGRAM_RECEIVED_OK, source);
    MessageIdFields(1, MTI_DATAGRAM_REJECTED, source);
    assert dest / 0x100 % 0x10 == dest / 0x100;
  }

  datatype Transmission = Transmission(status: Status, frames: seq<Frame>)

  /**
   What goes out when the bus has room for so many frames.  If it can take some but not all of a datagram, the
   destination is sent a rejection instead, as if it had sent a datagram itself, and that counts as success.
   */
  function Transmit(source: nat, dest: nat, data: seq<Byte>, room: nat): Transmission
  {
    if |data| > MAX_DATAGRAM then Transmission(InvalidArg, [])
    else if room == 0 then Transmission(TxError, [])
    else if room < |Frames(source, dest, data)| then
      Transmission(Ok, [RejectedFrame(source, dest, BUFFER_UNAVAILABLE)])
    else Transmission(Ok, Frames(source, dest, data))
  }

  method LoadAndSend(source: nat, dest: nat, data: seq<Byte>, room: nat) returns (status: Status, sent: seq<Frame>)
    ensures Transmission(status, sent) == Transmit(source, dest, data, room)
  {
    sent := [];
    FrameCount(source, dest, data);
    if |data| > MAX_DATAGRAM {
      return InvalidArg, sent;
    }
    if room == 0 {
      return TxError, sent;
    }
    if |data| <= 8 {
      sent := [Frame(MessageId(ONLY_FRAME, dest, source), data)];
      return Ok, sent;
    }
    var numPackets := |data| / 8;
    if |data| % 8 != 0 {
      numPackets := numPackets + 1;
    }
    if room < numPackets {
      sent := [RejectedFrame(source, dest, BUFFER_UNAVAILABLE)];
      return Ok, sent;
    }
    sent := SendParts(source, dest, data, numPackets);
    status := Ok;
  }

  /** The loop of the above, for a datagram that needs more than one frame. */
  method SendParts(source: nat, dest: nat, data: seq<Byte>, numPackets: nat) returns (sent: seq<Frame>)
    requires |data| > 8 && numPackets == (|data| + 7) / 8
    ensures sent == Frames(source, dest, data)
  {
    hide Rest;
    sent := [];
    var offset := 0;
    assert data[8..] == data[8 * 1..];
    for x := 0 to numPackets
      invariant offset == if x == numPackets then |data| else 8 * x
      invariant x == 0 ==> sent == []
      invariant 0 < x < numPackets ==> sent + Rest(source, dest, data[offset..]) == Frames(source, dest, data)
      invariant x == numPackets ==> sent == Frames(source, dest, data)
    {
      var frameType := if x == 0 then FIRST_FRAME else if x == numPackets - 1 then LAST_FRAME else MIDDLE_FRAME;
      var count := if |data| - offset >= 8 then 8 else |data| - offset;
      RestStep(source, dest, data, offset);
      assert offset + count == |data| ==> data[offset..offset + count] == data[offset..];
      sent := sent + [Frame(MessageId(frameType, dest, source), data[offset..offset + count])];
      offset := offset + count;
    }
  }

  /** What the remaining frames are, in terms of an offset into the whole datagram. */
  lemma RestStep(source: nat, dest: nat, data: seq<Byte>, offset: nat)
    requires offset < |data|
    ensures Rest(source, dest, data[offset..])
            == if |data| - offset <= 8 then [Frame(MessageId(LAST_FRAME, dest, source), data[offset..])]
               else [Frame(MessageId(MIDDLE_FRAME, dest, source), data[offset..offset + 8])]
                    + Rest(source, dest, data[offset + 8..])
  {
    var left := data[offset..];
    if |left| > 8 {
      assert left[..8] == data[offset..offset + 8] && left[8..] == data[offset + 8..];
    }
  }

  lemma {:induction false} RestCount(source: nat, dest: nat, left: seq<Byte>)
    requires left != []
    ensures |Rest(source, dest, left)| == (|left| + 7) / 8
    decreases |left|
  {
    if |left| > 8 {
      RestCount(source, dest, left[8..]);
    }
  }

  /** A datagram takes as many frames as its length in eights, rounded up, and at least one. */
  lemma FrameCount(source: nat, dest: nat, data: seq<Byte>)
    ensures |Frames(source, dest, data)| == if data == [] then 1 else (|data| + 7) / 8
  {
    if |data| > 8 {
      RestCount(source, dest, data[8..]);
    }
  }

  // ---------------------------------------------------------------- receiving

  /** The receive buffer.  Bytes beyond the offset are left over from earlier datagrams. */
  datatype Rx = Rx(handling: bool, buffer: seq<Byte>, offset: nat)

  ghost predicate RxOk(rx: Rx)
  {
    |rx.buffer| == MAX_DATAGRAM && rx.offset <= MAX_DATAGRAM
  }

  predicate Idle(rx: Rx)
  {
    |rx.buffer| == MAX_DATAGRAM && !rx.handling && rx.offset == 0
  }

  function Cleared(rx: Rx): Rx { Rx(rx.handling, seq(MAX_DATAGRAM, _ => 0), 0) }

  datatype RxEvent =
    | Delivered(source: nat, buffer: seq<Byte>, len: nat)
    | RejectSent(dest: nat, code: nat)
    | GotOk(source: nat, flags: Byte)
    | GotRejected(source: nat, code: nat)

  datatype Received = Received(rx: Rx, events: seq<RxEvent>)

  /** Data that does not fit is dropped as a whole. */
  function Append(rx: Rx, data: seq<Byte>): (r: Rx)
    requires RxOk(rx)
    ensures RxOk(r)
  {
    if rx.offset + |data| > MAX_DATAGRAM then rx
    else Rx(rx.handling, rx.buffer[..rx.offset] + data + rx.buffer[rx.offset + |data|..], rx.offset + |data|)
  }

  predicate IsDatagramType(frameType: nat) { ONLY_FRAME <= frameType <= LAST_FRAME }

  predicate Starts(frameType: nat) { frameType == ONLY_FRAME || frameType == FIRST_FRAME }

  predicate Ends(frameType: nat) { frameType == ONLY_FRAME || frameType == LAST_FRAME }

  /** A datagram frame for this node. */
  function ReceivePart(rx: Rx, f: Frame): (r: Received)
    requires RxOk(rx) && IsDatagramType(FrameTypeOf(f.id))
    ensures RxOk(r.rx)
  {
    if rx.handling && Starts(FrameTypeOf(f.id)) then Received(rx, [RejectSent(AliasOf(f.id), BUFFER_UNAVAILABLE)])
    else
      var filled := Append(rx.(handling := true), f.data);
      if !Ends(FrameTypeOf(f.id)) then Received(filled, [])
      else Received(filled.(handling := false, offset := 0), [Delivered(AliasOf(f.id), filled.buffer, filled.offset)])
  }

  /** An addressed Datagram Received OK or Datagram Rejected message. */
  function ReceiveReply(rx: Rx, alias: nat, f: Frame): (r: Received)
    requires RxOk(rx)
    ensures RxOk(r.rx)
  {
    var mti := FieldOf(f.id);
    if (mti != MTI_DATAGRAM_RECEIVED_OK && mti != MTI_DATAGRAM_REJECTED) || |f.data| < 2
       || Word(f.data[0] % 0x10, f.data[1]) != alias then Received(rx, [])
    else if mti == MTI_DATAGRAM_RECEIVED_OK then
      Received(rx.(handling := false), [GotOk(AliasOf(f.id), if |f.data| > 2 then f.data[2] else 0)])
    else
      Received(rx.(handling := false),
               [GotRejected(AliasOf(f.id), if |f.data| >= 4 then Word(f.data[2], f.data[3]) else 0)])
  }

  /** A datagram frame for this node is also looked at as a reply, since its variable field is not an MTI. */
  function Receive(rx: Rx, alias: nat, f: Frame): (r: Received)
    requires RxOk(rx)
    ensures RxOk(r.rx)
  {
    if IsDatagramType(FrameTypeOf(f.id)) then
      if FieldOf(f.id) != alias then Received(rx, [])
      else
        var part := ReceivePart(rx, f);
        if rx.handling && Starts(FrameTypeOf(f.id)) then part
        else
          var reply := ReceiveReply(part.rx, alias, f);
          Received(reply.rx, part.events + reply.events)
    else ReceiveReply(rx, alias, f)
  }

  /**
   A datagram frame is taken for a reply as well if and only if the node has one of two aliases, the bytes of the frame
   begin with it, and the frame does not start a datagram while another is coming in.
   */
  lemma TakenForReplyExactly(rx: Rx, alias: nat, f: Frame)
    requires RxOk(rx) && IsDatagramType(FrameTypeOf(f.id))
    ensures (exists e :: e in Receive(rx, alias, f).events && (e.GotOk? || e.GotRejected?))
            <==> FieldOf(f.id) == alias && (alias == 0xA28 || alias == 0xA48) && |f.data| >= 2
                 && f.data[0] as int % 0x10 * 0x100 + f.data[1] as int == alias
                 && !(rx.handling && Starts(FrameTypeOf(f.id)))
  {
    var part := ReceivePart(rx, f);
    var reply := ReceiveReply(part.rx, alias, f);
    assert forall e :: e in part.events ==> !e.GotOk? && !e.GotRejected?;
    var heard := Receive(rx, alias, f).events;
    if FieldOf(f.id) == alias && !(rx.handling && Starts(FrameTypeOf(f.id))) {
      assert heard == part.events + reply.events;
      assert |reply.events| <= 1;
      if reply.events != [] {
        assert heard[|part.events|] == reply.events[0];
      } else {
        assert heard == part.events;
      }
    } else {
      assert heard == [] || heard == part.events;
    }
  }

  /** A frame from the bus.  Control frames have a handler of their own. */
  function ReceiveFrame(rx: Rx, alias: nat, f: Frame): (r: Received)
    requires RxOk(rx)
    ensures RxOk(r.rx)
  {
    if IsMessage(f.id) then Receive(rx, alias, f) else Received(rx, [])
  }

  function ReceiveAll(rx: Rx, alias: nat, frames: seq<Frame>): (r: Received)
    requires RxOk(rx)
    ensures RxOk(r.rx)
    decreases |frames|
  {
    if frames == [] then Received(rx, [])
    else
      var first := ReceiveFrame(rx, alias, frames[0]);
      var rest := ReceiveAll(first.rx, alias, frames[1..]);
      Received(rest.rx, first.events + rest.events)
  }

  /** struct lcc_datagram_context, as the receiver of a node with the given alias. */
  class DatagramContext {
    var buffer: array<Byte>
    var offset: nat
    var handling: bool

    ghost predicate Valid()
      reads this
    {
      buffer.Length == MAX_DATAGRAM && offset <= MAX_DATAGRAM
    }

    ghost function State(): (rx: Rx)
      requires Valid()
      reads this, buffer
      ensures RxOk(rx)
    {
      Rx(handling, buffer[..], offset)
    }

    constructor ()
      ensures Valid() && fresh(buffer) && Idle(State())
    {
      buffer := new Byte[MAX_DATAGRAM](_ => 0);
      offset, handling := 0, false;
    }

    /** What a read request does to the buffer before it is sent. */
    method Clear()
      requires Valid()
      modifies this`offset, buffer
      ensures Valid() && State() == Cleared(old(State()))
    {
      forall i | 0 <= i < buffer.Length {
        buffer[i] := 0;
      }
      offset := 0;
    }

    method AppendBytes(data: seq<Byte>)
      requires Valid()
      modifies this`offset, buffer
      ensures Valid() && State() == Append(old(State()), data)
    {
      if offset + |data| > buffer.Length {
        return;
      }
      forall i | 0 <= i < |data| {
        buffer[offset + i] := data[i];
      }
      ghost var before := old(buffer[..]);
      assert buffer[..] == before[..offset] + data + before[offset + |data|..];
      offset := offset + |data|;
    }

    /** What the frame makes this node do is reported as events, in order. */
    method HandleDatagram(alias: nat, f: Frame) returns (events: seq<RxEvent>)
      requires Valid()
      modifies this`offset, this`handling, buffer
      ensures Valid()
      ensures var r := Receive(old(State()), alias, f); State() == r.rx && events == r.events
    {
      events := [];
      var frameType, mti, source := FrameTypeOf(f.id), FieldOf(f.id), AliasOf(f.id);
      if IsDatagramType(frameType) {
        if mti != alias {
          return;
        }
        if handling && Starts(frameType) {
          events := [RejectSent(source, BUFFER_UNAVAILABLE)];
          handling := true;
          return;
        }
        handling := true;
        AppendBytes(f.data);
        if Ends(frameType) {
          handling := false;
          events := [Delivered(source, buffer[..], offset)];
          offset := 0;
        }
      }
      if (mti != MTI_DATAGRAM_RECEIVED_OK && mti != MTI_DATAGRAM_REJECTED) || |f.data| < 2 {
        return;
      }
      var dest := Word(f.data[0] % 0x10, f.data[1]);
      if dest != alias {
        return;
      }
      handling := false;
      if mti == MTI_DATAGRAM_RECEIVED_OK {
        events := events + [GotOk(source, if |f.data| > 2 then f.data[2] else 0)];
      } else {
        events := events + [GotRejected(source, if |f.data| >= 4 then Word(f.data[2], f.data[3]) else 0)];
      }
    }
  }

  // ---------------------------------------------------------------- segmentation and reassembly are inverse

  /** An alias that cannot be mistaken for the MTI of a reply. */
  predicate PlainAlias(alias: nat)
  {
    0 < alias < 0xFFF && alias != MTI_DATAGRAM_RECEIVED_OK && alias != MTI_DATAGRAM_REJECTED
  }

  lemma ReceiveOwn(rx: Rx, source: nat, dest: nat, frameType: nat, data: seq<Byte>)
    requires RxOk(rx) && PlainAlias(dest) && source < ALIAS_LIMIT && IsDatagramType(frameType)
    ensures ReceiveFrame(rx, dest, Frame(MessageId(frameType, dest, source), data))
            == ReceivePart(rx, Frame(MessageId(frameType, dest, source), data))
    ensures FrameTypeOf(MessageId(frameType, dest, source)) == frameType
    ensures AliasOf(MessageId(frameType, dest, source)) == source
  {
    MessageIdFields(frameType, dest, source);
  }

  /** The receiver holds exactly these bytes and waits for more. */
  ghost predicate Holds(rx: Rx, data: seq<Byte>)
  {
    RxOk(rx) && rx.handling && rx.offset == |data| && rx.buffer[..rx.offset] == data
  }

  /** A delivery of these bytes from this node. */
  ghost predicate Carries(e: RxEvent, source: nat, data: seq<Byte>)
  {
    && e.Delivered? && e.source == source && e.len == |data| <= MAX_DATAGRAM
    && |e.buffer| == MAX_DATAGRAM && e.buffer[..e.len] == data
  }

  /** The answers, then one delivery, and nothing else. */
  ghost predicate AnswersThenDelivery(events: seq<RxEvent>, answers: seq<RxEvent>, source: nat, data: seq<Byte>)
  {
    && |events| == |answers| + 1 && events[..|answers|] == answers
    && Carries(events[|answers|], source, data)
  }

  /** A datagram frame for this node, and an addressed reply for it. */
  predicate ForUs(alias: nat, f: Frame)
  {
    IsMessage(f.id) && IsDatagramType(FrameTypeOf(f.id)) && FieldOf(f.id) == alias
  }

  predicate ReplyForUs(alias: nat, f: Frame)
  {
    && IsMessage(f.id) && !IsDatagramType(FrameTypeOf(f.id))
    && (FieldOf(f.id) == MTI_DATAGRAM_RECEIVED_OK || FieldOf(f.id) == MTI_DATAGRAM_REJECTED) && |f.data| >= 2
    && Word(f.data[0] % 0x10, f.data[1]) == alias
  }

  /** Nothing of the frame gets into the buffer: there is nothing in it, or it does not fit. */
  predicate NotStored(offset: nat, f: Frame) { f.data == [] || offset + |f.data| > MAX_DATAGRAM }

  /**
   A frame that does not get into a datagram that is being received, and does not end it: any frame that is not part
   of a datagram for this node; one that starts a datagram, as long as the receiver knows that it is busy; and
   otherwise a first or middle frame of which nothing is stored.
   */
  predicate Passes(busy: bool, offset: nat, alias: nat, f: Frame)
  {
    ForUs(alias, f) ==>
      if Starts(FrameTypeOf(f.id)) then busy || (FrameTypeOf(f.id) == FIRST_FRAME && NotStored(offset, f))
      else FrameTypeOf(f.id) == MIDDLE_FRAME && NotStored(offset, f)
  }

  /** Whether the receiver knows that it is busy: a reply makes it forget. */
  function BusyAfter(busy: bool, alias: nat, f: Frame): bool
  {
    if ForUs(alias, f) then true else busy && !ReplyForUs(alias, f)
  }

  /** What comes of a frame that passes: a rejection of whoever wants to start a datagram, or a reply. */
  function PassingEvents(busy: bool, alias: nat, f: Frame): seq<RxEvent>
  {
    if ForUs(alias, f) && Starts(FrameTypeOf(f.id)) && busy then [RejectSent(AliasOf(f.id), BUFFER_UNAVAILABLE)]
    else if !ReplyForUs(alias, f) then []
    else if FieldOf(f.id) == MTI_DATAGRAM_RECEIVED_OK then
      [GotOk(AliasOf(f.id), if |f.data| > 2 then f.data[2] else 0)]
    else [GotRejected(AliasOf(f.id), if |f.data| >= 4 then Word(f.data[2], f.data[3]) else 0)]
  }

  predicate AllPass(busy: bool, offset: nat, alias: nat, frames: seq<Frame>)
    decreases |frames|
  {
    frames == []
    || (&& Passes(busy, offset, alias, frames[0])
        && AllPass(BusyAfter(busy, alias, frames[0]), offset, alias, frames[1..]))
  }

  function BusyAfterAll(busy: bool, alias: nat, frames: seq<Frame>): bool
    decreases |frames|
  {
    if frames == [] then busy else BusyAfterAll(BusyAfter(busy, alias, frames[0]), alias, frames[1..])
  }

  function Answers(busy: bool, alias: nat, frames: seq<Frame>): seq<RxEvent>
    decreases |frames|
  {
    if frames == [] then []
    else PassingEvents(busy, alias, frames[0]) + Answers(BusyAfter(busy, alias, frames[0]), alias, frames[1..])
  }

  /** The frames in front of each of the later frames of a datagram, whose bytes so far are counted by the offset. */
  predicate GapsPass(offset: nat, alias: nat, gaps: seq<seq<Frame>>)
    decreases |gaps|
  {
    gaps == [] || (AllPass(true, offset, alias, gaps[0]) && GapsPass(offset + 8, alias, gaps[1..]))
  }

  function AllAnswers(alias: nat, gaps: seq<seq<Frame>>): seq<RxEvent>
  {
    if gaps == [] then [] else Answers(true, alias, gaps[0]) + AllAnswers(alias, gaps[1..])
  }

  /** The frames of one datagram with other frames in front of each of them. */
  function Interleave(gaps: seq<seq<Frame>>, own: seq<Frame>): seq<Frame>
    requires |gaps| == |own|
  {
    if own == [] then [] else gaps[0] + [own[0]] + Interleave(gaps[1..], own[1..])
  }

  /** The same from the first frame on, which has nothing in front of it. */
  function Woven(gaps: seq<seq<Frame>>, frames: seq<Frame>): seq<Frame>
    requires |gaps| + 1 == |frames|
  {
    [frames[0]] + Interleave(gaps, frames[1..])
  }

  lemma {:induction false} ReceiveAppend(rx: Rx, alias: nat, a: seq<Frame>, b: seq<Frame>)
    requires RxOk(rx)
    ensures var first := ReceiveAll(rx, alias, a);
            var rest := ReceiveAll(first.rx, alias, b);
            ReceiveAll(rx, alias, a + b) == Received(rest.rx, first.events + rest.events)
    decreases |a|
  {
    if a == [] {
      assert a + b == b;
    } else {
      assert (a + b)[1..] == a[1..] + b;
      hide ReceiveFrame;
      var next := ReceiveFrame(rx, alias, a[0]);
      ReceiveAppend(next.rx, alias, a[1..], b);
      var middle := ReceiveAll(next.rx, alias, a[1..]);
      var rest := ReceiveAll(middle.rx, alias, b);
      assert next.events + middle.events + rest.events == next.events + (middle.events + rest.events);
    }
  }

  lemma ReceiveOne(rx: Rx, alias: nat, f: Frame)
    requires RxOk(rx)
    ensures ReceiveAll(rx, alias, [f]) == ReceiveFrame(rx, alias, f)
  {
    assert [f][1..] == [];
  }

  ghost predicate NoDelivery(events: seq<RxEvent>)
  {
    forall i :: 0 <= i < |events| ==> !events[i].Delivered?
  }

  /** Passing is exactly what leaves the bytes that have been received alone and delivers nothing. */
  lemma PassesExactly(rx: Rx, alias: nat, f: Frame)
    requires RxOk(rx) && PlainAlias(alias)
    ensures var r := ReceiveFrame(rx, alias, f);
            && (r.rx.buffer == rx.buffer && r.rx.offset == rx.offset && NoDelivery(r.events)
                <==> Passes(rx.handling, rx.offset, alias, f))
            && (Passes(rx.handling, rx.offset, alias, f) ==>
                  r == Received(rx.(handling := BusyAfter(rx.handling, alias, f)),
                                PassingEvents(rx.handling, alias, f)))
  {
    var r := ReceiveFrame(rx, alias, f);
    if !Passes(rx.handling, rx.offset, alias, f) {
      if Ends(FrameTypeOf(f.id)) {
        assert r.events[0].Delivered?;
      }
    }
  }

  /** For a busy receiver: which frames leave it exactly as it was. */
  lemma BusyUnchangedExactly(rx: Rx, alias: nat, f: Frame)
    requires RxOk(rx) && PlainAlias(alias) && rx.handling
    ensures ReceiveFrame(rx, alias, f).rx == rx <==> Passes(true, rx.offset, alias, f) && !ReplyForUs(alias, f)
  {
    PassesExactly(rx, alias, f);
    if Ends(FrameTypeOf(f.id)) && ForUs(alias, f) && !Starts(FrameTypeOf(f.id)) {
      assert !ReceiveFrame(rx, alias, f).rx.handling;
    }
  }

  /** Frames that pass, however many, do not touch the bytes that have been received. */
  lemma {:induction false} GapPasses(rx: Rx, alias: nat, frames: seq<Frame>)
    requires RxOk(rx) && PlainAlias(alias) && AllPass(rx.handling, rx.offset, alias, frames)
    ensures ReceiveAll(rx, alias, frames)
            == Received(rx.(handling := BusyAfterAll(rx.handling, alias, frames)),
                        Answers(rx.handling, alias, frames))
    decreases |frames|
  {
    hide ReceiveFrame;
    hide Passes;
    hide PassingEvents;
    if frames != [] {
      PassesExactly(rx, alias, frames[0]);
      GapPasses(rx.(handling := BusyAfter(rx.handling, alias, frames[0])), alias, frames[1..]);
    }
  }

  lemma AppendHolds(rx: Rx, data: seq<Byte>, more: seq<Byte>)
    requires RxOk(rx) && rx.offset == |data| && rx.buffer[..rx.offset] == data && |data| + |more| <= MAX_DATAGRAM
    ensures Holds(Append(rx.(handling := true), more), data + more)
  {
    var r := Append(rx.(handling := true), more);
    assert r.buffer[..r.offset] == data + more;
  }

  /** A first or middle frame adds its bytes. */
  lemma ReceiveMore(rx: Rx, source: nat, dest: nat, frameType: nat, data: seq<Byte>, more: seq<Byte>)
    requires RxOk(rx) && rx.offset == |data| && rx.buffer[..rx.offset] == data && |data| + |more| <= MAX_DATAGRAM
    requires frameType == MIDDLE_FRAME || (frameType == FIRST_FRAME && !rx.handling)
    requires PlainAlias(dest) && source < ALIAS_LIMIT
    ensures var r := ReceiveFrame(rx, dest, Frame(MessageId(frameType, dest, source), more));
            Holds(r.rx, data + more) && r.events == []
  {
    ReceiveOwn(rx, source, dest, frameType, more);
    AppendHolds(rx, data, more);
  }

  /** An only or last frame adds its bytes and delivers the datagram. */
  lemma ReceiveEnd(rx: Rx, source: nat, dest: nat, frameType: nat, data: seq<Byte>, more: seq<Byte>)
    requires RxOk(rx) && rx.offset == |data| && rx.buffer[..rx.offset] == data && |data| + |more| <= MAX_DATAGRAM
    requires frameType == LAST_FRAME || (frameType == ONLY_FRAME && !rx.handling)
    requires PlainAlias(dest) && source < ALIAS_LIMIT
    ensures var r := ReceiveFrame(rx, dest, Frame(MessageId(frameType, dest, source), more));
            Idle(r.rx) && |r.events| == 1 && Carries(r.events[0], source, data + more)
  {
    ReceiveOwn(rx, source, dest, frameType, more);
    AppendHolds(rx, data, more);
  }

  /** From the middle of a datagram on, with any passing frames in between. */
  lemma {:induction false} ReassembleRest(rx: Rx, source: nat, dest: nat, data: seq<Byte>, left: seq<Byte>,
                                          gaps: seq<seq<Frame>>)
    requires Holds(rx, data) && |data| + |left| <= MAX_DATAGRAM && PlainAlias(dest) && source < ALIAS_LIMIT
    requires |gaps| == |Rest(source, dest, left)| && GapsPass(|data|, dest, gaps)
    ensures var r := ReceiveAll(rx, dest, Interleave(gaps, Rest(source, dest, left)));
            Idle(r.rx) && AnswersThenDelivery(r.events, AllAnswers(dest, gaps), source, data + left)
    decreases |left|
  {
    hide ReceiveFrame;
    hide Answers;
    hide AllPass;
    var own := Rest(source, dest, left);
    var later := Interleave(gaps[1..], own[1..]);
    var answers, laterAnswers := Answers(true, dest, gaps[0]), AllAnswers(dest, gaps[1..]);
    AfterGap(rx, dest, gaps[0], own[0], later);
    var ready := rx.(handling := BusyAfterAll(true, dest, gaps[0]));
    var next := ReceiveFrame(ready, dest, own[0]);
    if |left| <= 8 {
      ReceiveEnd(ready, source, dest, LAST_FRAME, data, left);
      assert later == [] && laterAnswers == [];
    } else {
      ReceiveMore(ready, source, dest, MIDDLE_FRAME, data, left[..8]);
      assert own[1..] == Rest(source, dest, left[8..]);
      ReassembleRest(next.rx, source, dest, data + left[..8], left[8..], gaps[1..]);
      assert data + left[..8] + left[8..] == data + left;
      DeliveryAfter(answers, ReceiveAll(next.rx, dest, later).events, laterAnswers, source, data + left);
    }
  }

  lemma AfterGap(rx: Rx, dest: nat, gap: seq<Frame>, f: Frame, later: seq<Frame>)
    requires RxOk(rx) && PlainAlias(dest) && AllPass(rx.handling, rx.offset, dest, gap)
    ensures var ready := rx.(handling := BusyAfterAll(rx.handling, dest, gap));
            var next := ReceiveFrame(ready, dest, f);
            var rest := ReceiveAll(next.rx, dest, later);
            ReceiveAll(rx, dest, gap + [f] + later)
            == Received(rest.rx, Answers(rx.handling, dest, gap) + next.events + rest.events)
  {
    hide ReceiveFrame;
    GapPasses(rx, dest, gap);
    ReceiveAppend(rx, dest, gap + [f], later);
    ReceiveAppend(rx, dest, gap, [f]);
    ReceiveOne(rx.(handling := BusyAfterAll(rx.handling, dest, gap)), dest, f);
  }

  lemma DeliveryAfter(answers: seq<RxEvent>, events: seq<RxEvent>, more: seq<RxEvent>, source: nat, data: seq<Byte>)
    requires AnswersThenDelivery(events, more, source, data)
    ensures AnswersThenDelivery(answers + [] + events, answers + more, source, data)
  {
    var all := answers + [] + events;
    assert all[..|answers + more|] == answers + events[..|more|];
  }

  /**
   The frames of any datagram, with any passing frames in between, give exactly that datagram, after a rejection to
   every other node that wanted to start one and the replies that came in; and leave the receiver as it was before.
   */
  lemma ReassemblyInvertsSegmentation(rx: Rx, source: nat, dest: nat, data: seq<Byte>, gaps: seq<seq<Frame>>)
    requires Idle(rx) && |data| <= 72 && PlainAlias(dest) && source < ALIAS_LIMIT
    requires |gaps| == |Frames(source, dest, data)| - 1 && GapsPass(8, dest, gaps)
    ensures var r := ReceiveAll(rx, dest, Woven(gaps, Frames(source, dest, data)));
            Idle(r.rx) && AnswersThenDelivery(r.events, AllAnswers(dest, gaps), source, data)
  {
    if |data| <= 8 {
      OneFrameArrives(rx, source, dest, data, gaps);
    } else {
      FramesArrive(rx, source, dest, data, gaps);
    }
  }

  lemma OneFrameArrives(rx: Rx, source: nat, dest: nat, data: seq<Byte>, gaps: seq<seq<Frame>>)
    requires Idle(rx) && |data| <= 8 && PlainAlias(dest) && source < ALIAS_LIMIT && gaps == []
    ensures var r := ReceiveAll(rx, dest, Woven(gaps, Frames(source, dest, data)));
            Idle(r.rx) && AnswersThenDelivery(r.events, AllAnswers(dest, gaps), source, data)
  {
    hide ReceiveFrame;
    var frames := Frames(source, dest, data);
    ReceiveOne(rx, dest, frames[0]);
    assert [] + data == data && rx.buffer[..0] == [];
    ReceiveEnd(rx, source, dest, ONLY_FRAME, [], data);
    assert Interleave(gaps, frames[1..]) == [] && AllAnswers(dest, gaps) == [] && [frames[0]] + [] == [frames[0]];
  }

  lemma FramesArrive(rx: Rx, source: nat, dest: nat, data: seq<Byte>, gaps: seq<seq<Frame>>)
    requires Idle(rx) && 8 < |data| <= MAX_DATAGRAM && PlainAlias(dest) && source < ALIAS_LIMIT
    requires |gaps| == |Frames(source, dest, data)| - 1 && GapsPass(8, dest, gaps)
    ensures var r := ReceiveAll(rx, dest, Woven(gaps, Frames(source, dest, data)));
            Idle(r.rx) && AnswersThenDelivery(r.events, AllAnswers(dest, gaps), source, data)
  {
    hide GapsPass;
    hide ReceiveFrame;
    hide AnswersThenDelivery;
    hide AllAnswers;
    hide Interleave;
    var frames := Frames(source, dest, data);
    assert frames[1..] == Rest(source, dest, data[8..]);
    ReceiveAppend(rx, dest, [frames[0]], Interleave(gaps, frames[1..]));
    ReceiveOne(rx, dest, frames[0]);
    assert rx.buffer[..0] == [] && [] + data[..8] == data[..8];
    ReceiveMore(rx, source, dest, FIRST_FRAME, [], data[..8]);
    hide ReceiveAll;
    var next := ReceiveFrame(rx, dest, frames[0]).rx;
    ReassembleRest(next, source, dest, data[..8], data[8..], gaps);
    assert data[..8] + data[8..] == data;
    var events := ReceiveAll(next, dest, Interleave(gaps, frames[1..])).events;
    assert [] + events == events;
  }

  lemma {:induction false} NoGaps(gaps: seq<seq<Frame>>, own: seq<Frame>, alias: nat, offset: nat)
    requires |gaps| == |own| && forall i :: 0 <= i < |gaps| ==> gaps[i] == []
    ensures Interleave(gaps, own) == own && AllAnswers(alias, gaps) == [] && GapsPass(offset, alias, gaps)
    decreases |own|
  {
    if own != [] {
      NoGaps(gaps[1..], own[1..], alias, offset + 8);
      assert gaps[0] == [];
      assert [] + [own[0]] + own[1..] == own;
    }
  }

  // ---------------------------------------------------------------- and only if the frames in between pass

  /** One delivery, of these bytes from this node, and nothing after it. */
  ghost predicate OneDelivery(events: seq<RxEvent>, source: nat, data: seq<Byte>)
  {
    events != [] && Carries(events[|events| - 1], source, data) && NoDelivery(events[..|events| - 1])
  }

  /** The receiver holds a byte at a place, and will deliver it there. */
  ghost predicate Stuck(rx: Rx, p: nat, b: Byte)
  {
    RxOk(rx) && p < rx.offset && rx.buffer[p] == b
  }

  /** If these events are one delivery, then it has this byte at this place; 256 stands for no byte at all. */
  ghost predicate Spoiled(events: seq<RxEvent>, p: nat, b: nat)
  {
    forall source, data :: OneDelivery(events, source, data) ==> p < |data| && data[p] == b
  }

  lemma StuckByteStays(rx: Rx, alias: nat, f: Frame, p: nat, b: Byte)
    requires Stuck(rx, p, b) && PlainAlias(alias)
    ensures var r := ReceiveFrame(rx, alias, f);
            if NoDelivery(r.events) then Stuck(r.rx, p, b)
            else
              && |r.events| == 1 && r.events[0].Delivered?
              && p < r.events[0].len <= MAX_DATAGRAM == |r.events[0].buffer|
                 && r.events[0].buffer[p] == b
  {
    var r := ReceiveFrame(rx, alias, f);
    if |r.events| == 1 {
      assert r.events[0] in r.events;
    }
  }

  lemma {:induction false} StuckByteIsDelivered(rx: Rx, alias: nat, frames: seq<Frame>, p: nat, b: Byte)
    requires Stuck(rx, p, b) && PlainAlias(alias)
    ensures Spoiled(ReceiveAll(rx, alias, frames).events, p, b)
    decreases |frames|
  {
    hide ReceiveFrame;
    if frames != [] {
      var first := ReceiveFrame(rx, alias, frames[0]);
      var rest := ReceiveAll(first.rx, alias, frames[1..]).events;
      StuckByteStays(rx, alias, frames[0], p, b);
      if NoDelivery(first.events) {
        StuckByteIsDelivered(first.rx, alias, frames[1..], p, b);
        LaterDelivery(first.events, rest, p, b);
      } else {
        DeliveredByte(first.events, rest, p, b);
      }
    }
  }

  /** Events without a delivery in front do not matter. */
  lemma DeliveryIsLater(first: seq<RxEvent>, rest: seq<RxEvent>, source: nat, data: seq<Byte>)
    requires NoDelivery(first)
    ensures OneDelivery(first + rest, source, data) <==> OneDelivery(rest, source, data)
  {
    var all := first + rest;
    if rest == [] {
      assert all == first;
    } else {
      assert all[|all| - 1] == rest[|rest| - 1];
      assert all[..|all| - 1] == first + rest[..|rest| - 1];
      PassOver(first, rest[..|rest| - 1]);
    }
  }

  lemma PassOver(first: seq<RxEvent>, rest: seq<RxEvent>)
    requires NoDelivery(first)
    ensures NoDelivery(first + rest) <==> NoDelivery(rest)
  {
    if !NoDelivery(rest) {
      var i :| 0 <= i < |rest| && rest[i].Delivered?;
      assert (first + rest)[|first| + i].Delivered?;
    }
  }

  lemma LaterDelivery(first: seq<RxEvent>, rest: seq<RxEvent>, p: nat, b: nat)
    requires NoDelivery(first) && Spoiled(rest, p, b)
    ensures Spoiled(first + rest, p, b)
  {
    forall source, data
      ensures OneDelivery(first + rest, source, data) ==> p < |data| && data[p] == b
    {
      DeliveryIsLater(first, rest, source, data);
    }
  }

  lemma DeliveredByte(first: seq<RxEvent>, rest: seq<RxEvent>, p: nat, b: nat)
    requires |first| == 1 && first[0].Delivered? && p < first[0].len <= MAX_DATAGRAM == |first[0].buffer|
    requires first[0].buffer[p] == b
    ensures Spoiled(first + rest, p, b)
  {
    var all := first + rest;
    assert all[0] == first[0] && first[0].buffer[..first[0].len][p] == b;
    if rest != [] {
      assert all[..|all| - 1][0] == first[0];
    }
  }

  lemma TwoDeliveries(first: seq<RxEvent>, rest: seq<RxEvent>, p: nat)
    requires !NoDelivery(first) && rest != []
    ensures Spoiled(first + rest, p, 0x100)
  {
    var all := first + rest;
    var i :| 0 <= i < |first| && first[i].Delivered?;
    assert all[..|all| - 1][i] == first[i];
  }

  /** The byte that the first frame that does not pass puts into the buffer; 256 if it ends the datagram instead. */
  function SpoilingByte(busy: bool, offset: nat, alias: nat, frames: seq<Frame>): nat
    decreases |frames|
  {
    if frames == [] then 0x100
    else if Passes(busy, offset, alias, frames[0]) then
      SpoilingByte(BusyAfter(busy, alias, frames[0]), offset, alias, frames[1..])
    else if Ends(FrameTypeOf(frames[0].id)) || frames[0].data == [] then 0x100
    else frames[0].data[0]
  }

  lemma SpoilingFrame(rx: Rx, alias: nat, f: Frame)
    requires RxOk(rx) && PlainAlias(alias) && !Passes(rx.handling, rx.offset, alias, f)
    ensures var r := ReceiveFrame(rx, alias, f);
            if Ends(FrameTypeOf(f.id)) then !NoDelivery(r.events)
            else NoDelivery(r.events) && f.data != [] && Stuck(r.rx, rx.offset, f.data[0])
  {
    var r := ReceiveFrame(rx, alias, f);
    if Ends(FrameTypeOf(f.id)) {
      assert r.events[0].Delivered?;
    }
  }

  /** The first frame that does not pass spoils the datagram, if a delivery is still to come. */
  lemma {:induction false} GapSpoils(rx: Rx, alias: nat, gap: seq<Frame>, more: seq<Frame>)
    requires RxOk(rx) && PlainAlias(alias) && !AllPass(rx.handling, rx.offset, alias, gap)
    requires more != [] && ForUs(alias, more[|more| - 1]) && FrameTypeOf(more[|more| - 1].id) == LAST_FRAME
    ensures Spoiled(ReceiveAll(rx, alias, gap + more).events, rx.offset,
                    SpoilingByte(rx.handling, rx.offset, alias, gap))
    decreases |gap|
  {
    hide ReceiveFrame;
    hide Passes;
    hide Spoiled;
    hide OneDelivery;
    var f, tail := gap[0], gap[1..] + more;
    assert (gap + more)[1..] == tail && (gap + more)[0] == f;
    var first := ReceiveFrame(rx, alias, f);
    var rest := ReceiveAll(first.rx, alias, tail).events;
    if Passes(rx.handling, rx.offset, alias, f) {
      PassesExactly(rx, alias, f);
      GapSpoils(first.rx, alias, gap[1..], more);
      LaterDelivery(first.events, rest, rx.offset, SpoilingByte(rx.handling, rx.offset, alias, gap));
    } else {
      SpoilingFrame(rx, alias, f);
      if Ends(FrameTypeOf(f.id)) {
        LastFrameDelivers(first.rx, alias, tail);
        TwoDeliveries(first.events, rest, rx.offset);
      } else {
        StuckByteIsDelivered(first.rx, alias, tail, rx.offset, f.data[0]);
        LaterDelivery(first.events, rest, rx.offset, f.data[0]);
      }
    }
  }

  /** A last frame always delivers something. */
  lemma LastFrameDelivers(rx: Rx, alias: nat, frames: seq<Frame>)
    requires RxOk(rx) && PlainAlias(alias)
    requires frames != [] && ForUs(alias, frames[|frames| - 1]) && FrameTypeOf(frames[|frames| - 1].id) == LAST_FRAME
    ensures var events := ReceiveAll(rx, alias, frames).events; events != [] && events[|events| - 1].Delivered?
  {
    var n := |frames| - 1;
    assert frames == frames[..n] + [frames[n]];
    ReceiveAppend(rx, alias, frames[..n], [frames[n]]);
    var before := ReceiveAll(rx, alias, frames[..n]).rx;
    ReceiveOne(before, alias, frames[n]);
    assert |ReceiveFrame(before, alias, frames[n]).events| == 1;
  }

  lemma {:induction false} EndsWithLast(gaps: seq<seq<Frame>>, source: nat, dest: nat, left: seq<Byte>)
    requires |gaps| == |Rest(source, dest, left)| && source < ALIAS_LIMIT && PlainAlias(dest)
    ensures var all := Interleave(gaps, Rest(source, dest, left));
            all != [] && ForUs(dest, all[|all| - 1]) && FrameTypeOf(all[|all| - 1].id) == LAST_FRAME
    decreases |left|
  {
    var own := Rest(source, dest, left);
    MessageIdFields(LAST_FRAME, dest, source);
    if |left| > 8 {
      assert own[1..] == Rest(source, dest, left[8..]);
      EndsWithLast(gaps[1..], source, dest, left[8..]);
    } else {
      assert Interleave(gaps[1..], own[1..]) == [];
    }
  }

  lemma NotDelivered(events: seq<RxEvent>, p: nat, b: nat, source: nat, data: seq<Byte>)
    requires Spoiled(events, p, b) && p < |data| && data[p] != b
    ensures !OneDelivery(events, source, data)
  {
  }

  function SpoilingByteOf(offset: nat, alias: nat, gaps: seq<seq<Frame>>): nat
    decreases |gaps|
  {
    if gaps == [] then 0x100
    else if AllPass(true, offset, alias, gaps[0]) then SpoilingByteOf(offset + 8, alias, gaps[1..])
    else SpoilingByte(true, offset, alias, gaps[0])
  }

  /** Unless its own bytes happen to be the ones that got in, a datagram with a spoiling frame is not delivered. */
  lemma {:induction false} RestIsSpoiled(rx: Rx, source: nat, dest: nat, data: seq<Byte>, left: seq<Byte>,
                                         gaps: seq<seq<Frame>>)
    requires Holds(rx, data) && |data| + |left| <= MAX_DATAGRAM && PlainAlias(dest) && source < ALIAS_LIMIT
    requires left != [] && |gaps| == |Rest(source, dest, left)| && !GapsPass(|data|, dest, gaps)
    requires forall i :: 0 <= i < |left| ==> left[i] != SpoilingByteOf(|data|, dest, gaps)
    ensures !OneDelivery(ReceiveAll(rx, dest, Interleave(gaps, Rest(source, dest, left))).events, source, data + left)
    decreases |left|
  {
    hide ReceiveFrame;
    hide AllPass;
    hide Answers;
    hide OneDelivery;
    hide Spoiled;
    var own := Rest(source, dest, left);
    var later := Interleave(gaps[1..], own[1..]);
    var whole := data + left;
    assert whole[|data|] == left[0];
    EndsWithLast(gaps, source, dest, left);
    assert |gaps| == 1 ==> gaps[1..] == [];
    if AllPass(true, |data|, dest, gaps[0]) {
      AfterGap(rx, dest, gaps[0], own[0], later);
      var ready := rx.(handling := BusyAfterAll(true, dest, gaps[0]));
      if |left| > 8 {
        ReceiveMore(ready, source, dest, MIDDLE_FRAME, data, left[..8]);
        var next := ReceiveFrame(ready, dest, own[0]);
        assert own[1..] == Rest(source, dest, left[8..]);
        RestIsSpoiled(next.rx, source, dest, data + left[..8], left[8..], gaps[1..]);
        assert data + left[..8] + left[8..] == whole;
        AnswersDeliverNothing(true, dest, gaps[0]);
        var answers, rest := Answers(true, dest, gaps[0]), ReceiveAll(next.rx, dest, later).events;
        assert answers + [] + rest == answers + rest;
        DeliveryIsLater(answers, rest, source, whole);
      }
    } else {
      var all := gaps[0] + ([own[0]] + later);
      assert all == gaps[0] + [own[0]] + later;
      assert ([own[0]] + later)[|later|] == all[|all| - 1];
      GapSpoils(rx, dest, gaps[0], [own[0]] + later);
      NotDelivered(ReceiveAll(rx, dest, all).events, |data|, SpoilingByteOf(|data|, dest, gaps), source, whole);
    }
  }

  lemma {:induction false} AnswersDeliverNothing(busy: bool, alias: nat, frames: seq<Frame>)
    ensures NoDelivery(Answers(busy, alias, frames))
    decreases |frames|
  {
    if frames != [] {
      AnswersDeliverNothing(BusyAfter(busy, alias, frames[0]), alias, frames[1..]);
    }
  }

  /** The datagram arrives in spite of the frames in between: it is delivered, once and exactly. */
  ghost predicate Arrives(rx: Rx, source: nat, dest: nat, data: seq<Byte>, gaps: seq<seq<Frame>>)
    requires RxOk(rx)
  {
    && |gaps| + 1 == |Frames(source, dest, data)|
    && OneDelivery(ReceiveAll(rx, dest, Woven(gaps, Frames(source, dest, data))).events, source, data)
  }

  /**
   Frames in between leave every datagram of a length intact if and only if all of them pass, at the places where
   they are.
   */
  lemma ArrivesExactlyIf(rx: Rx, source: nat, dest: nat, len: nat, gaps: seq<seq<Frame>>)
    requires Idle(rx) && len <= 72 && PlainAlias(dest) && source < ALIAS_LIMIT
    requires |gaps| == if len == 0 then 0 else (len + 7) / 8 - 1
    ensures (forall data: seq<Byte> :: |data| == len ==> Arrives(rx, source, dest, data, gaps))
            <==> GapsPass(8, dest, gaps)
  {
    hide GapsPass;
    hide ReceiveFrame;
    if GapsPass(8, dest, gaps) {
      forall data: seq<Byte> | |data| == len
        ensures Arrives(rx, source, dest, data, gaps)
      {
        FrameCount(source, dest, data);
        ReassemblyInvertsSegmentation(rx, source, dest, data, gaps);
        AllAnswersDeliverNothing(dest, gaps);
        var r := ReceiveAll(rx, dest, Woven(gaps, Frames(source, dest, data)));
        assert r.events[..|r.events| - 1] == AllAnswers(dest, gaps);
      }
    } else {
      var bad := SpoilingByteOf(8, dest, gaps);
      var data: seq<Byte> := seq(len, _ => if bad == 0 then 1 else 0);
      SpoiledDatagram(rx, source, dest, data, gaps);
    }
  }

  lemma {:induction false} AllAnswersDeliverNothing(alias: nat, gaps: seq<seq<Frame>>)
    ensures NoDelivery(AllAnswers(alias, gaps))
    decreases |gaps|
  {
    if gaps != [] {
      AnswersDeliverNothing(true, alias, gaps[0]);
      AllAnswersDeliverNothing(alias, gaps[1..]);
    }
  }

  /** Any datagram that does not hold the byte that gets in fails to arrive. */
  lemma SpoiledDatagram(rx: Rx, source: nat, dest: nat, data: seq<Byte>, gaps: seq<seq<Frame>>)
    requires Idle(rx) && |data| <= MAX_DATAGRAM && PlainAlias(dest) && source < ALIAS_LIMIT
    requires |gaps| == (if data == [] then 0 else (|data| + 7) / 8 - 1) && !GapsPass(8, dest, gaps)
    requires forall i :: 0 <= i < |data| ==> data[i] != SpoilingByteOf(8, dest, gaps)
    ensures !Arrives(rx, source, dest, data, gaps)
  {
    hide ReceiveFrame;
    FrameCount(source, dest, data);
    var frames := Frames(source, dest, data);
    ReceiveMore(rx, source, dest, FIRST_FRAME, [], data[..8]);
    assert [] + data[..8] == data[..8] && rx.buffer[..0] == [];
    ReceiveAppend(rx, dest, [frames[0]], Interleave(gaps, frames[1..]));
    ReceiveOne(rx, dest, frames[0]);
    assert frames[1..] == Rest(source, dest, data[8..]);
    var next := ReceiveFrame(rx, dest, frames[0]);
    RestIsSpoiled(next.rx, source, dest, data[..8], data[8..], gaps);
    assert data[..8] + data[8..] == data;
    var rest := ReceiveAll(next.rx, dest, Interleave(gaps, frames[1..])).events;
    assert [] + rest == rest;
  }

  /**
   What is delivered instead, for one: a node that keeps sending after it has been rejected ends the datagram of
   another.  The receiver delivers what it held, with the intruder's later frames added, as the intruder's.
   */
  lemma IntruderThatGoesOnWins(rx: Rx, held: seq<Byte>, intruder: nat, dest: nat, data: seq<Byte>)
    requires Holds(rx, held) && PlainAlias(dest) && intruder < ALIAS_LIMIT
    requires |data| > 8 && |held| + |data| - 8 <= MAX_DATAGRAM
    ensures var r := ReceiveAll(rx, dest, Frames(intruder, dest, data));
            Idle(r.rx)
            && AnswersThenDelivery(r.events, [RejectSent(intruder, BUFFER_UNAVAILABLE)], intruder, held + data[8..])
  {
    var frames := Frames(intruder, dest, data);
    var rest := Rest(intruder, dest, data[8..]);
    var gaps: seq<seq<Frame>> := seq(|rest|, _ => []);
    NoGaps(gaps, rest, dest, |held|);
    ReceiveAppend(rx, dest, [frames[0]], rest);
    ReceiveOne(rx, dest, frames[0]);
    ReceiveOwn(rx, intruder, dest, FIRST_FRAME, data[..8]);
    ReassembleRest(rx, intruder, dest, held, data[8..], gaps);
  }
}
