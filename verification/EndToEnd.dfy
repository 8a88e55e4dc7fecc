/**
 Whole conversations between two nodes on a bus that carries every frame: a request of the client, the answer of
 the other node, and the client's acknowledgement of it.
 */
module EndToEnd {
  import opened Basics
  import opened CanId
  import opened Datagram
  import opened MemoryMap
  import opened MemoryProtocol
  import opened MemoryServer
  import opened RemoteMemory
  import opened CdiText
  import opened Node

  /** Enough room for the longest datagram. */
  const ROOM := 9

  ghost predicate Ready(n: Node)
  {
    NodeOk(n) && Idle(n.rx) && PlainAlias(n.alias)
  }

  datatype Conversation = Conversation(client: Node, server: Node, clientEvents: seq<NodeEvent>,
                                       serverEvents: seq<NodeEvent>, left: seq<Frame>)

  function Converse(client: Node, server: Node, r: Request, room: nat): (c: Conversation)
    requires NodeOk(client) && NodeOk(server) && RequestOk(r)
    ensures NodeOk(c.client) && NodeOk(c.server)
  {
    var asked := Ask(client.remote, client.rx, client.alias, server.alias, r, room);
    var served := HandleFrames(server, asked.sent);
    var answered := HandleFrames(client.(remote := asked.remote, rx := asked.rx), served.frames);
    var closed := HandleFrames(served.node, answered.frames);
    Conversation(answered.node, closed.node, answered.events, served.events + closed.events, closed.frames)
  }

  // ---------------------------------------------------------------- from frames to whole datagrams

  lemma {:induction false} HandleFramesAppend(n: Node, a: seq<Frame>, b: seq<Frame>)
    requires NodeOk(n)
    ensures var first := HandleFrames(n, a);
            var rest := HandleFrames(first.node, b);
            HandleFrames(n, a + b) == Step(rest.node, first.frames + rest.frames, first.events + rest.events)
    decreases |a|
  {
    hide HandleFrame;
    if a == [] {
      assert a + b == b;
    } else {
      assert (a + b)[1..] == a[1..] + b;
      var next := HandleFrame(n, a[0]);
      HandleFramesAppend(next.node, a[1..], b);
      var middle := HandleFrames(next.node, a[1..]);
      AddStep(next.frames, middle.frames, next.events, middle.events, HandleFrames(middle.node, b));
    }
  }

  lemma {:induction false} HandleAllAppend(n: Node, a: seq<RxEvent>, b: seq<RxEvent>)
    requires NodeOk(n) && (forall i :: 0 <= i < |a| ==> EventOk(a[i])) && forall i :: 0 <= i < |b| ==> EventOk(b[i])
    ensures forall i :: 0 <= i < |a + b| ==> EventOk((a + b)[i])
    ensures var first := HandleAll(n, a);
            var rest := HandleAll(first.node, b);
            HandleAll(n, a + b) == Step(rest.node, first.frames + rest.frames, first.events + rest.events)
    decreases |a|
  {
    hide Handle;
    if a == [] {
      assert a + b == b;
    } else {
      assert (a + b)[1..] == a[1..] + b && (a + b)[0] == a[0];
      var next := Handle(n, a[0]);
      HandleAllAppend(next.node, a[1..], b);
      var middle := HandleAll(next.node, a[1..]);
      AddStep(next.frames, middle.frames, next.events, middle.events, HandleAll(middle.node, b));
    }
  }

  /** The layers above do not look at the receive buffer, nor change it. */
  lemma HandleKeepsRx(n: Node, e: RxEvent, rx: Rx)
    requires NodeOk(n) && EventOk(e) && RxOk(rx)
    ensures var s := Handle(n, e);
            s.node.rx == n.rx && s.node.alias == n.alias
            && Handle(n.(rx := rx), e) == Step(s.node.(rx := rx), s.frames, s.events)
  {
    hide Serve;
    hide OnDatagram;
  }

  lemma {:induction false} HandleAllKeepsRx(n: Node, events: seq<RxEvent>, rx: Rx)
    requires NodeOk(n) && RxOk(rx) && forall i :: 0 <= i < |events| ==> EventOk(events[i])
    ensures var s := HandleAll(n, events);
            s.node.rx == n.rx && s.node.alias == n.alias
            && HandleAll(n.(rx := rx), events) == Step(s.node.(rx := rx), s.frames, s.events)
    decreases |events|
  {
    hide Handle;
    if events != [] {
      HandleKeepsRx(n, events[0], rx);
      HandleAllKeepsRx(Handle(n, events[0]).node, events[1..], rx);
    }
  }

  /** Handling frames one by one is the same as putting them together first. */
  lemma {:induction false} FramesThenEvents(n: Node, frames: seq<Frame>)
    requires NodeOk(n)
    ensures forall i :: 0 <= i < |ReceiveAll(n.rx, n.alias, frames).events| ==>
              EventOk(ReceiveAll(n.rx, n.alias, frames).events[i])
    ensures var r := ReceiveAll(n.rx, n.alias, frames);
            HandleFrames(n, frames) == HandleAll(n.(rx := r.rx), r.events)
    decreases |frames|
  {
    hide ReceiveFrame;
    if frames != [] {
      var one := ReceiveFrame(n.rx, n.alias, frames[0]);
      EventsOk(n.rx, n.alias, frames[0]);
      var first := HandleFrame(n, frames[0]);
      var rest := ReceiveAll(one.rx, n.alias, frames[1..]);
      HandleAllKeepsRx(n.(rx := one.rx), one.events, rest.rx);
      FramesThenEvents(first.node, frames[1..]);
      HandleAllAppend(n.(rx := rest.rx), one.events, rest.events);
    }
  }

  lemma HandleAllOne(n: Node, e: RxEvent)
    requires NodeOk(n) && EventOk(e)
    ensures HandleAll(n, [e]) == Handle(n, e)
  {
    hide Handle;
    var s := Handle(n, e);
    assert [e][1..] == [];
    assert HandleAll(s.node, []) == Step(s.node, [], []);
    assert s.frames + [] == s.frames && s.events + [] == s.events;
  }

  /** Not a reply to a node from the one that it waits for. */
  predicate NotAwaited(alias: nat, awaited: nat, f: Frame) { ReplyForUs(alias, f) ==> AliasOf(f.id) != awaited }

  /** Other traffic between the frames of a datagram for a node: it passes, and is not what the node waits for. */
  ghost predicate Bystanders(alias: nat, awaited: nat, gaps: seq<seq<Frame>>)
  {
    && GapsPass(8, alias, gaps)
    && forall i, k :: 0 <= i < |gaps| && 0 <= k < |gaps[i]| ==> NotAwaited(alias, awaited, gaps[i][k])
  }

  /** Rejections of those who wanted to send a datagram, and replies from others than the awaited node. */
  ghost predicate Strays(awaited: nat, events: seq<RxEvent>)
  {
    forall i :: 0 <= i < |events| ==>
      match events[i]
      case Delivered(_, _, _) => false
      case RejectSent(_, _) => true
      case GotOk(source, _) => source != awaited
      case GotRejected(source, _) => source != awaited
  }

  /** The frames that reject those who wanted to send a datagram in between. */
  function RejectionFrames(alias: nat, events: seq<RxEvent>): seq<Frame>
  {
    if events == [] then []
    else
      (if events[0].RejectSent? then [RejectedFrame(alias, events[0].dest, events[0].code)] else [])
      + RejectionFrames(alias, events[1..])
  }

  /** What the application hears of replies that the library has no use for. */
  function StrayCalls(c: Callbacks, events: seq<RxEvent>): seq<NodeEvent>
  {
    if events == [] then []
    else
      (match events[0]
       case GotOk(source, flags) => CallIf(c.ok, DatagramOk(source, flags))
       case GotRejected(source, code) => CallIf(c.rejected, DatagramRejected(source, code))
       case _ => [])
      + StrayCalls(c, events[1..])
  }

  function Rejections(alias: nat, gaps: seq<seq<Frame>>): seq<Frame>
  {
    RejectionFrames(alias, AllAnswers(alias, gaps))
  }

  function OverheardAmong(n: Node, gaps: seq<seq<Frame>>): seq<NodeEvent>
  {
    StrayCalls(n.callbacks, AllAnswers(n.alias, gaps))
  }

  lemma {:induction false} AnswersAreStrays(busy: bool, alias: nat, awaited: nat, frames: seq<Frame>)
    requires forall k :: 0 <= k < |frames| ==> NotAwaited(alias, awaited, frames[k])
    ensures Strays(awaited, Answers(busy, alias, frames))
    decreases |frames|
  {
    if frames != [] {
      assert NotAwaited(alias, awaited, frames[0]);
      AnswersAreStrays(BusyAfter(busy, alias, frames[0]), alias, awaited, frames[1..]);
    }
  }

  lemma {:induction false} AllAnswersAreStrays(alias: nat, awaited: nat, gaps: seq<seq<Frame>>)
    requires forall i, k :: 0 <= i < |gaps| && 0 <= k < |gaps[i]| ==> NotAwaited(alias, awaited, gaps[i][k])
    ensures Strays(awaited, AllAnswers(alias, gaps))
    decreases |gaps|
  {
    hide NotAwaited;
    hide Answers;
    if gaps != [] {
      assert forall k :: 0 <= k < |gaps[0]| ==> NotAwaited(alias, awaited, gaps[0][k]);
      AnswersAreStrays(true, alias, awaited, gaps[0]);
      forall i, k | 0 <= i < |gaps| - 1 && 0 <= k < |gaps[1..][i]|
        ensures NotAwaited(alias, awaited, gaps[1..][i][k])
      {
        assert gaps[1..][i] == gaps[i + 1];
      }
      AllAnswersAreStrays(alias, awaited, gaps[1..]);
    }
  }

  lemma {:induction false} StraysOnly(n: Node, events: seq<RxEvent>)
    requires NodeOk(n) && Strays(n.remote.alias, events)
    ensures forall i :: 0 <= i < |events| ==> EventOk(events[i])
    ensures HandleAll(n, events) == Step(n, RejectionFrames(n.alias, events), StrayCalls(n.callbacks, events))
    decreases |events|
  {
    hide Handle;
    hide RejectedFrame;
    hide CallIf;
    if events != [] {
      assert Strays(n.remote.alias, [events[0]]) && Strays(n.remote.alias, events[1..]);
      StrayIsHandled(n, events[0]);
      StraysOnly(n, events[1..]);
    }
  }

  lemma StrayIsHandled(n: Node, e: RxEvent)
    requires NodeOk(n) && Strays(n.remote.alias, [e])
    ensures EventOk(e)
    ensures Handle(n, e) == Step(n, RejectionFrames(n.alias, [e]), StrayCalls(n.callbacks, [e]))
  {
    var all := [e];
    assert all[0] == e && all[1..] == [];
    assert ClientEvents([]) == [] && StrayCalls(n.callbacks, []) == [] && RejectionFrames(n.alias, []) == [];
  }

  /** The frames of a datagram with other traffic in between, on a node that is not receiving another one. */
  lemma DatagramArrives(n: Node, source: nat, data: seq<Byte>, gaps: seq<seq<Frame>>)
    returns (rx: Rx, buffer: seq<Byte>)
    requires Ready(n) && |data| <= MAX_DATAGRAM && source < ALIAS_LIMIT
    requires |gaps| + 1 == |Frames(source, n.alias, data)| && Bystanders(n.alias, n.remote.alias, gaps)
    ensures Idle(rx) && Filled(buffer, |data|) && buffer[..|data|] == data
    ensures var d := HandleDelivery(n.(rx := rx), source, buffer, |data|);
            HandleFrames(n, Woven(gaps, Frames(source, n.alias, data)))
            == Step(d.node, Rejections(n.alias, gaps) + d.frames, OverheardAmong(n, gaps) + d.events)
  {
    hide HandleFrames;
    hide HandleDelivery;
    hide ReceiveAll;
    hide Frames;
    hide AllAnswers;
    hide GapsPass;
    hide RejectionFrames;
    hide StrayCalls;
    hide Woven;
    var frames := Woven(gaps, Frames(source, n.alias, data));
    ReassemblyInvertsSegmentation(n.rx, source, n.alias, data, gaps);
    FramesThenEvents(n, frames);
    var r := ReceiveAll(n.rx, n.alias, frames);
    var answers := AllAnswers(n.alias, gaps);
    var e := r.events[|answers|];
    rx, buffer := r.rx, e.buffer;
    assert r.events == answers + [Delivered(source, buffer, |data|)];
    AllAnswersAreStrays(n.alias, n.remote.alias, gaps);
    StraysOnly(n.(rx := rx), answers);
    HandleAllAppend(n.(rx := rx), answers, [Delivered(source, buffer, |data|)]);
    HandleAllOne(n.(rx := rx), Delivered(source, buffer, |data|));
  }

  /** On a quiet bus. */
  function Quiet(frames: seq<Frame>): (gaps: seq<seq<Frame>>)
    requires frames != []
    ensures |gaps| + 1 == |frames|
  {
    seq(|frames| - 1, _ => [])
  }

  lemma QuietBus(n: Node, awaited: nat, frames: seq<Frame>)
    requires frames != []
    ensures Woven(Quiet(frames), frames) == frames && Bystanders(n.alias, awaited, Quiet(frames))
    ensures Rejections(n.alias, Quiet(frames)) == [] && OverheardAmong(n, Quiet(frames)) == []
  {
    NoGaps(Quiet(frames), frames[1..], n.alias, 8);
    assert [frames[0]] + frames[1..] == frames;
  }

  lemma ReplyFrameReadBack(mti: nat, source: nat, dest: nat, data: seq<Byte>)
    requires mti == MTI_DATAGRAM_RECEIVED_OK || mti == MTI_DATAGRAM_REJECTED
    requires source < ALIAS_LIMIT && dest < ALIAS_LIMIT
    ensures var f := ReplyFrame(mti, source, dest, data);
            && FrameTypeOf(f.id) == 1 && FieldOf(f.id) == mti && AliasOf(f.id) == source
            && |f.data| == |data| + 2 && Word(f.data[0] % 0x10, f.data[1]) == dest && f.data[2..] == data
  {
    MessageIdFields(1, mti, source);
    assert dest / 0x100 < 0x10;
    assert dest / 0x100 % 0x10 % 0x10 == dest / 0x100;
    assert dest == dest / 0x100 * 0x100 + dest % 0x100;
  }

  lemma OkArrives(n: Node, source: nat, flags: Byte)
    requires Ready(n) && source < ALIAS_LIMIT
    ensures HandleFrames(n, [OkFrame(source, n.alias, flags)]) == Handle(n, GotOk(source, flags))
  {
    var f := OkFrame(source, n.alias, flags);
    ReplyFrameReadBack(MTI_DATAGRAM_RECEIVED_OK, source, n.alias, [flags]);
    assert f.data[2] == f.data[2..][0] == flags;
    ReplyArrives(n, f, GotOk(source, flags));
  }

  lemma RejectionArrives(n: Node, source: nat, code: nat)
    requires Ready(n) && source < ALIAS_LIMIT && code < 0x1_0000
    ensures HandleFrames(n, [RejectedFrame(source, n.alias, code)]) == Handle(n, GotRejected(source, code))
  {
    var f := RejectedFrame(source, n.alias, code);
    var bytes: seq<Byte> := [code / 0x100 % 0x100, code % 0x100];
    ReplyFrameReadBack(MTI_DATAGRAM_REJECTED, source, n.alias, bytes);
    assert f.data[2] == f.data[2..][0] == bytes[0] && f.data[3] == f.data[2..][1] == bytes[1];
    ReplyArrives(n, f, GotRejected(source, code));
  }

  lemma ReplyArrives(n: Node, f: Frame, e: RxEvent)
    requires Ready(n) && EventOk(e) && ReceiveFrame(n.rx, n.alias, f) == Received(n.rx, [e])
    ensures HandleFrames(n, [f]) == Handle(n, e)
  {
    hide Handle;
    hide ReceiveFrame;
    FramesThenEvents(n, [f]);
    ReceiveOne(n.rx, n.alias, f);
    HandleAllOne(n, e);
  }

  // ---------------------------------------------------------------- requests and answers

  /** The server of a node does not take a reply for a command. */
  lemma ReplyIsNoCommand(r: Reply, buffer: seq<Byte>, len: nat)
    requires ReplyOk(r) && Filled(buffer, len) && buffer[..len] == EncodeReply(r)
    ensures DecodeCommand(buffer, len) == None
  {
    assert buffer[1] == buffer[..len][1] == EncodeReply(r)[1];
  }

  /** Nor does the client take a command for a reply. */
  lemma RequestIsNoReply(r: Request, buffer: seq<Byte>, len: nat)
    requires RequestOk(r) && Filled(buffer, len) && buffer[..len] == EncodeRequest(r)
    ensures DecodeReply(buffer, len) == None
  {
    assert buffer[1] == buffer[..len][1] == EncodeRequest(r)[1];
  }

  /**
   A request reaches the server of the other node, and nothing else in there unless the server reports it as not
   handled.
   */
  lemma RequestArrives(n: Node, source: nat, r: Request, gaps: seq<seq<Frame>>) returns (rx: Rx)
    requires Ready(n) && RequestOk(r) && source < ALIAS_LIMIT
    requires |gaps| + 1 == |Frames(source, n.alias, EncodeRequest(r))| && Bystanders(n.alias, n.remote.alias, gaps)
    ensures Idle(rx)
    ensures var p := Perform(n.server, CommandFor(r));
            HandleFrames(n, Woven(gaps, Frames(source, n.alias, EncodeRequest(r))))
            == Step(n.(rx := rx, server := n.server.(store := p.store)),
                    Rejections(n.alias, gaps) + AllFrames(n.alias, source, p.sent) + RefusalOf(n, source, p.handled),
                    OverheardAmong(n, gaps) + (ServerEvents(p.notes) + CallOf(n, source, p.handled, EncodeRequest(r))))
  {
    hide Perform;
    hide DecodeCommand;
    hide DecodeReply;
    hide EncodeRequest;
    hide Frames;
    hide HandleFrames;
    hide AllFrames;
    hide CommandFor;
    hide Bystanders;
    hide Rejections;
    hide OverheardAmong;
    hide Woven;
    var data, buffer := EncodeRequest(r), [];
    rx, buffer := DatagramArrives(n, source, data, gaps);
    RequestReadBack(r, buffer, |data|);
    RequestIsNoReply(r, buffer, |data|);
    var p := Perform(n.server, CommandFor(r));
    var sent, refusal := AllFrames(n.alias, source, p.sent), RefusalOf(n, source, p.handled);
    var d := HandleDelivery(n.(rx := rx), source, buffer, |data|);
    assert d.frames == sent + refusal;
    assert d.events == ServerEvents(p.notes) + CallOf(n, source, p.handled, data);
    assert Rejections(n.alias, gaps) + (sent + refusal) == Rejections(n.alias, gaps) + sent + refusal;
  }

  /** What happens to a datagram that is reported as not handled: it is for the application, or rejected. */
  function RefusalOf(n: Node, source: nat, handled: bool): seq<Frame>
  {
    if handled || n.callbacks.received then [] else [RejectedFrame(n.alias, source, 0)]
  }

  function CallOf(n: Node, source: nat, handled: bool, data: seq<Byte>): seq<NodeEvent>
  {
    CallIf(!handled && n.callbacks.received, DatagramReceived(source, data))
  }

  /** A reply that a client waits for reaches it, is acknowledged, and leaves nothing outstanding. */
  lemma ReplyComesIn(n: Node, source: nat, r: Reply, gaps: seq<seq<Frame>>) returns (rx: Rx)
    requires Ready(n) && ReplyOk(r) && source < ALIAS_LIMIT && n.remote.alias == source
    requires |gaps| + 1 == |Frames(source, n.alias, EncodeReply(r))| && Bystanders(n.alias, source, gaps)
    ensures Idle(rx)
    ensures HandleFrames(n, Woven(gaps, Frames(source, n.alias, EncodeReply(r))))
            == Step(n.(rx := rx, remote := Idling(n.remote)), Rejections(n.alias, gaps) + [OkFrame(n.alias, source, 0)],
                    OverheardAmong(n, gaps) + [OfClient(Answered(source, r))])
  {
    hide DecodeCommand;
    hide DecodeReply;
    hide EncodeReply;
    hide Frames;
    hide HandleFrames;
    hide Bystanders;
    hide Rejections;
    hide OverheardAmong;
    hide Woven;
    var data, buffer := EncodeReply(r), [];
    rx, buffer := DatagramArrives(n, source, data, gaps);
    ReplyReadBack(r, buffer, |data|);
    ReplyIsNoCommand(r, buffer, |data|);
    ClientEventsOne(Answered(source, r));
  }

  lemma ClientEventsOne(e: Event)
    ensures ClientEvents([e]) == [OfClient(e)]
  {
    assert [e][1..] == [];
    assert ClientEvents([]) == [];
  }

  lemma OutgoingPair(source: nat, dest: nat, flags: Byte, data: seq<Byte>)
    ensures AllFrames(source, dest, [SendOk(flags), SendDatagram(data)])
            == [OkFrame(source, dest, flags)] + Frames(source, dest, data)
    ensures AllFrames(source, dest, [SendOk(flags)]) == [OkFrame(source, dest, flags)]
    ensures AllFrames(source, dest, [SendDatagram(data)]) == Frames(source, dest, data)
  {
    hide Frames;
    assert [SendOk(flags), SendDatagram(data)][1..] == [SendDatagram(data)];
    assert [SendDatagram(data)][1..] == [] && [SendOk(flags)][1..] == [];
    assert AllFrames(source, dest, []) == [];
  }

  /** Two nodes that can talk: the client waits for no answer.  The other node may, from anyone. */
  ghost predicate CanTalk(client: Node, server: Node)
  {
    Ready(client) && Ready(server) && client.remote.alias == 0
  }

  /** What the acknowledgement of a reply is to the node that sent the reply. */
  function Acknowledged(n: Node, source: nat): Step
    requires NodeOk(n)
  {
    Handle(n, GotOk(source, 0))
  }

  /**
   After the conversation they can talk again.  The store of the server is as the request made it; what the server
   itself waits for may be different because of the acknowledgement.
   */
  ghost predicate Afterwards(c: Conversation, client: Node, server: Node, r: Request)
    requires CanTalk(client, server) && RequestOk(r)
  {
    && CanTalk(c.client, c.server) && c.left == []
    && c.client.alias == client.alias && c.server.alias == server.alias
    && c.client.server == client.server && c.server.remote == Acknowledged(server, client.alias).node.remote
    && c.server.server == server.server.(store := Perform(server.server, CommandFor(r)).store)
  }

  lemma RequestFits(client: Node, server: Node, r: Request, room: nat)
    requires CanTalk(client, server) && RequestOk(r) && room >= ROOM
    ensures var a := Ask(client.remote, client.rx, client.alias, server.alias, r, room);
            && a.sent == Frames(client.alias, server.alias, EncodeRequest(r)) != []
            && a.remote == Outstanding(client.remote, server.alias, r) && a.remote.alias == server.alias
            && Ready(client.(remote := a.remote, rx := a.rx))
  {
    hide EncodeRequest;
    hide Frames;
    FrameCount(client.alias, server.alias, EncodeRequest(r));
  }

  /** What the client is told: the request has been accepted, and later the answer. */
  function AcceptedThen(alias: nat, reply: Reply): seq<NodeEvent>
  {
    [OfClient(Accepted(alias, REPLY_PENDING)), OfClient(Answered(alias, reply))]
  }

  /** Frames that mean nothing to the library of a node that is not receiving a datagram. */
  ghost predicate NotFor(alias: nat, awaited: nat, frames: seq<Frame>)
  {
    forall k :: 0 <= k < |frames| ==> !ForUs(alias, frames[k]) && NotAwaited(alias, awaited, frames[k])
  }

  function Overheard(n: Node, frames: seq<Frame>): seq<NodeEvent>
  {
    StrayCalls(n.callbacks, Answers(false, n.alias, frames))
  }

  lemma IgnoredFrames(n: Node, frames: seq<Frame>)
    requires Ready(n) && NotFor(n.alias, n.remote.alias, frames)
    ensures HandleFrames(n, frames) == Step(n, [], Overheard(n, frames))
  {
    hide HandleFrames;
    hide StrayCalls;
    hide RejectionFrames;
    hide NotAwaited;
    AllPassBy(n.alias, frames);
    GapPasses(n.rx, n.alias, frames);
    FramesThenEvents(n, frames);
    AnswersAreStrays(false, n.alias, n.remote.alias, frames);
    StraysOnly(n, Answers(false, n.alias, frames));
  }

  lemma {:induction false} AllPassBy(alias: nat, frames: seq<Frame>)
    requires forall k :: 0 <= k < |frames| ==> !ForUs(alias, frames[k])
    ensures AllPass(false, 0, alias, frames) && !BusyAfterAll(false, alias, frames)
    ensures RejectionFrames(alias, Answers(false, alias, frames)) == []
    decreases |frames|
  {
    if frames != [] {
      assert !ForUs(alias, frames[0]);
      AllPassBy(alias, frames[1..]);
      NoRejection(alias, frames[0], Answers(false, alias, frames[1..]));
    }
  }

  lemma NoRejection(alias: nat, f: Frame, later: seq<RxEvent>)
    requires !ForUs(alias, f) && RejectionFrames(alias, later) == []
    ensures RejectionFrames(alias, PassingEvents(false, alias, f) + later) == []
  {
    var events := PassingEvents(false, alias, f);
    if events == [] {
      assert events + later == later;
    } else {
      assert (events + later)[1..] == later;
    }
  }

  /**
   A command that is accepted with an answer to follow, on a bus that carries other traffic all the while: in between
   the frames of the request, before and after the acknowledgement of it, in between the frames of the answer, and
   before the acknowledgement of that.
   */
  lemma AnswerFollowsAmidTraffic(client: Node, server: Node, r: Request, room: nat, reply: Reply, t: Traffic)
    requires CanTalk(client, server) && RequestOk(r) && room >= ROOM && ReplyOk(reply) && !r.UpdateComplete?
    requires var p := Perform(server.server, CommandFor(r));
             p.handled && p.sent == [SendOk(REPLY_PENDING), SendDatagram(EncodeReply(reply))]
    requires TrafficOk(client, server, r, reply, t)
    ensures var e := Exchanged(client, server, r, room, reply, t);
            && e.served.frames == Rejections(server.alias, t.toServer) + Answer(server.alias, client.alias, reply)
            && e.served.events == OverheardAmong(server, t.toServer)
                                  + ServerEvents(Perform(server.server, CommandFor(r)).notes)
            && e.answered.frames == Rejections(client.alias, t.toClient) + [OkFrame(client.alias, server.alias, 0)]
            && e.answered.events == HeardAmidTraffic(client, server.alias, reply, t)
            && e.closed.frames == []
            && e.closed.events == Overheard(server, t.after) + Acknowledged(server, client.alias).events
            && AfterExchange(e, client, server, r)
  {
    hide Perform;
    hide CommandFor;
    hide HandleFrames;
    hide EncodeReply;
    hide EncodeRequest;
    hide Frames;
    hide AllFrames;
    hide OkFrame;
    hide ServerEvents;
    hide Ask;
    hide Woven;
    hide Bystanders;
    hide Rejections;
    hide NotFor;
    hide Answers;
    hide AllAnswers;
    hide StrayCalls;
    hide Handle;
    RequestFits(client, server, r, room);
    var waiting := Waiting(client, server, r, room);
    var serverRx := RequestArrives(server, client.alias, r, t.toServer);
    OutgoingPair(server.alias, client.alias, REPLY_PENDING, EncodeReply(reply));
    var served := HandleFrames(server, Woven(t.toServer, Frames(client.alias, server.alias, EncodeRequest(r))));
    NothingMore(served, Rejections(server.alias, t.toServer), Answer(server.alias, client.alias, reply),
                OverheardAmong(server, t.toServer), ServerEvents(Perform(server.server, CommandFor(r)).notes));
    AnswerIsHeard(waiting, server.alias, r, client.remote, reply, t);
    AcknowledgementIsHeard(served.node, server, client.alias, t.after);
  }

  lemma NothingMore(s: Step, a: seq<Frame>, b: seq<Frame>, c: seq<NodeEvent>, d: seq<NodeEvent>)
    requires s.frames == a + b + [] && s.events == c + (d + [])
    ensures s.frames == a + b && s.events == c + d
  {
    assert a + b + [] == a + b && d + [] == d;
  }

  /** The client's part. */
  lemma AnswerIsHeard(n: Node, source: nat, r: Request, before: Remote, reply: Reply, t: Traffic)
    requires Ready(n) && 0 < source < ALIAS_LIMIT && !r.UpdateComplete? && ReplyOk(reply)
    requires n.remote == Outstanding(before, source, r)
    requires NotFor(n.alias, source, t.before) && NotFor(n.alias, source, t.between)
    requires |t.toClient| + 1 == |Frames(source, n.alias, EncodeReply(reply))|
    requires Bystanders(n.alias, source, t.toClient)
    ensures var s := HandleFrames(n, t.before + [OkFrame(source, n.alias, REPLY_PENDING)] + t.between
                                     + Woven(t.toClient, Frames(source, n.alias, EncodeReply(reply))));
            && s.frames == Rejections(n.alias, t.toClient) + [OkFrame(n.alias, source, 0)]
            && s.events == HeardAmidTraffic(n, source, reply, t)
            && Idle(s.node.rx) && s.node == n.(rx := s.node.rx, remote := Idling(n.remote))
  {
    hide HandleFrames;
    hide EncodeReply;
    hide Frames;
    hide OkFrame;
    hide Woven;
    hide Bystanders;
    hide Rejections;
    hide NotFor;
    hide Overheard;
    hide OverheardAmong;
    var ok, woven := [OkFrame(source, n.alias, REPLY_PENDING)],
                     Woven(t.toClient, Frames(source, n.alias, EncodeReply(reply)));
    IgnoredFrames(n, t.before);
    PendingIsHeard(n, source, r, before);
    IgnoredFrames(n, t.between);
    var rx := ReplyComesIn(n, source, reply, t.toClient);
    FourParts(n, t.before, ok, t.between, woven);
    var a, b, c, d := Overheard(n, t.before), [OfClient(Accepted(source, REPLY_PENDING))], Overheard(n, t.between),
                      OverheardAmong(n, t.toClient);
    assert a + b + c + (d + [OfClient(Answered(source, reply))]) == a + b + c + d + [OfClient(Answered(source, reply))];
  }

  /** The end of it at the server, which may have served in between. */
  lemma AcknowledgementIsHeard(n: Node, before: Node, source: nat, after: seq<Frame>)
    requires Ready(n) && NodeOk(before) && source < ALIAS_LIMIT && NotFor(n.alias, n.remote.alias, after)
    requires n.remote == before.remote && n.callbacks == before.callbacks && n.alias == before.alias
    ensures var s := HandleFrames(n, after + [OkFrame(source, n.alias, 0)]);
            && s.frames == []
            && s.events == Overheard(before, after) + Acknowledged(before, source).events
            && s.node == n.(remote := Acknowledged(before, source).node.remote)
  {
    hide HandleFrames;
    hide OkFrame;
    hide NotFor;
    hide Handle;
    IgnoredFrames(n, after);
    HandleFramesAppend(n, after, [OkFrame(source, n.alias, 0)]);
    AcknowledgementArrives(n, source);
    SameAcknowledgement(n, before, source);
  }

  /** Frames that are handled one part after the other; the first three parts leave the node as it is. */
  lemma FourParts(n: Node, a: seq<Frame>, b: seq<Frame>, c: seq<Frame>, d: seq<Frame>)
    requires NodeOk(n)
    requires HandleFrames(n, a) == Step(n, [], HandleFrames(n, a).events)
    requires HandleFrames(n, b) == Step(n, [], HandleFrames(n, b).events)
    requires HandleFrames(n, c) == Step(n, [], HandleFrames(n, c).events)
    ensures HandleFrames(n, a + b + c + d)
            == Step(HandleFrames(n, d).node, HandleFrames(n, d).frames,
                    HandleFrames(n, a).events + HandleFrames(n, b).events + HandleFrames(n, c).events
                    + HandleFrames(n, d).events)
  {
    hide HandleFrames;
    HandleFramesAppend(n, a, b);
    HandleFramesAppend(n, a + b, c);
    HandleFramesAppend(n, a + b + c, d);
    var frames := HandleFrames(n, d).frames;
    assert [] + frames == frames;
  }

  /**
   Other traffic: to the server, before and after the acknowledgement of the request, to the client, and before the
   acknowledgement of the answer.
   */
  datatype Traffic = Traffic(toServer: seq<seq<Frame>>, before: seq<Frame>, between: seq<Frame>,
                             toClient: seq<seq<Frame>>, after: seq<Frame>)

  /** The client waits for the server, and the server for whatever it waits for. */
  ghost predicate TrafficOk(client: Node, server: Node, r: Request, reply: Reply, t: Traffic)
    requires RequestOk(r) && ReplyOk(reply)
  {
    && |t.toServer| + 1 == |Frames(client.alias, server.alias, EncodeRequest(r))|
    && Bystanders(server.alias, server.remote.alias, t.toServer)
    && NotFor(client.alias, server.alias, t.before) && NotFor(client.alias, server.alias, t.between)
    && |t.toClient| + 1 == |Frames(server.alias, client.alias, EncodeReply(reply))|
    && Bystanders(client.alias, server.alias, t.toClient)
    && NotFor(server.alias, server.remote.alias, t.after)
  }

  /** What the server sends for the client, and the client then waiting for it. */
  function Answer(server: nat, client: nat, reply: Reply): seq<Frame>
    requires ReplyOk(reply)
  {
    [OkFrame(server, client, REPLY_PENDING)] + Frames(server, client, EncodeReply(reply))
  }

  function Waiting(client: Node, server: Node, r: Request, room: nat): Node
    requires RequestOk(r)
  {
    var asked := Ask(client.remote, client.rx, client.alias, server.alias, r, room);
    client.(remote := asked.remote, rx := asked.rx)
  }

  /** What the client is told: of the request and its answer, and in between of replies that it has no use for. */
  function HeardAmidTraffic(client: Node, server: nat, reply: Reply, t: Traffic): seq<NodeEvent>
  {
    Overheard(client, t.before) + [OfClient(Accepted(server, REPLY_PENDING))] + Overheard(client, t.between)
    + OverheardAmong(client, t.toClient) + [OfClient(Answered(server, reply))]
  }

  datatype Exchange = Exchange(served: Step, answered: Step, closed: Step)

  ghost function Exchanged(client: Node, server: Node, r: Request, room: nat, reply: Reply, t: Traffic): Exchange
    requires CanTalk(client, server) && RequestOk(r) && room >= ROOM && ReplyOk(reply)
    requires TrafficOk(client, server, r, reply, t)
  {
    RequestFits(client, server, r, room);
    var served := HandleFrames(server, Woven(t.toServer, Frames(client.alias, server.alias, EncodeRequest(r))));
    Exchange(served,
             HandleFrames(Waiting(client, server, r, room),
                          t.before + [OkFrame(server.alias, client.alias, REPLY_PENDING)] + t.between
                          + Woven(t.toClient, Frames(server.alias, client.alias, EncodeReply(reply)))),
             HandleFrames(served.node, t.after + [OkFrame(client.alias, server.alias, 0)]))
  }

  ghost predicate AfterExchange(e: Exchange, client: Node, server: Node, r: Request)
    requires CanTalk(client, server) && RequestOk(r)
  {
    && CanTalk(e.answered.node, e.closed.node)
    && e.answered.node.server == client.server && e.answered.node.alias == client.alias
    && e.closed.node == server.(rx := e.closed.node.rx, remote := Acknowledged(server, client.alias).node.remote,
                                server := server.server.(store := Perform(server.server, CommandFor(r)).store))
  }

  /** The same on a quiet bus, with the acknowledgement of the answer. */
  lemma AnswerFollows(client: Node, server: Node, r: Request, room: nat, reply: Reply)
    requires CanTalk(client, server) && RequestOk(r) && room >= ROOM && ReplyOk(reply) && !r.UpdateComplete?
    requires var p := Perform(server.server, CommandFor(r));
             p.handled && p.sent == [SendOk(REPLY_PENDING), SendDatagram(EncodeReply(reply))]
    ensures var c := Converse(client, server, r, room);
            && Afterwards(c, client, server, r)
            && c.clientEvents == AcceptedThen(server.alias, reply)
            && c.serverEvents == ServerEvents(Perform(server.server, CommandFor(r)).notes)
                                 + Acknowledged(server, client.alias).events
  {
    hide Perform;
    hide CommandFor;
    hide HandleFrames;
    hide EncodeReply;
    hide EncodeRequest;
    hide Frames;
    hide OkFrame;
    hide ServerEvents;
    hide Ask;
    hide Woven;
    hide Quiet;
    hide Bystanders;
    hide Rejections;
    hide Handle;
    hide Overheard;
    hide OverheardAmong;
    hide HeardAmidTraffic;
    hide NotAwaited;
    RequestFits(client, server, r, room);
    var question := Frames(client.alias, server.alias, EncodeRequest(r));
    var datagram := Frames(server.alias, client.alias, EncodeReply(reply));
    FrameCount(server.alias, client.alias, EncodeReply(reply));
    QuietBus(server, server.remote.alias, question);
    QuietBus(client, server.alias, datagram);
    var t := Traffic(Quiet(question), [], [], Quiet(datagram), []);
    AnswerFollowsAmidTraffic(client, server, r, room, reply, t);
    var e := Exchanged(client, server, r, room, reply, t);
    var ok, ack := [OkFrame(server.alias, client.alias, REPLY_PENDING)], [OkFrame(client.alias, server.alias, 0)];
    assert [] + ok + [] + datagram == ok + datagram && [] + (ok + datagram) == ok + datagram && [] + ack == ack;
    NothingOverheard(client);
    NothingOverheard(server);
    QuietHearing(client, server.alias, reply, t);
  }

  lemma NothingOverheard(n: Node)
    ensures Overheard(n, []) == []
  {
  }

  lemma QuietHearing(client: Node, server: nat, reply: Reply, t: Traffic)
    requires t.before == [] && t.between == [] && OverheardAmong(client, t.toClient) == []
    ensures HeardAmidTraffic(client, server, reply, t) == AcceptedThen(server, reply)
  {
    NothingOverheard(client);
  }

  lemma PendingIsHeard(n: Node, source: nat, r: Request, before: Remote)
    requires Ready(n) && 0 < source < ALIAS_LIMIT && !r.UpdateComplete?
    requires n.remote == Outstanding(before, source, r)
    ensures HandleFrames(n, [OkFrame(source, n.alias, REPLY_PENDING)])
            == Step(n, [], [OfClient(Accepted(source, REPLY_PENDING))])
  {
    hide HandleFrames;
    OkArrives(n, source, REPLY_PENDING);
    ClientEventsOne(Accepted(source, REPLY_PENDING));
    assert [OfClient(Accepted(source, REPLY_PENDING))] + [] == [OfClient(Accepted(source, REPLY_PENDING))];
  }

  lemma AcknowledgementArrives(n: Node, source: nat)
    requires Ready(n) && source < ALIAS_LIMIT
    ensures HandleFrames(n, [OkFrame(source, n.alias, 0)]) == Acknowledged(n, source)
    ensures Acknowledged(n, source).frames == []
    ensures Acknowledged(n, source).node == n.(remote := Acknowledged(n, source).node.remote)
  {
    hide HandleFrames;
    OkArrives(n, source, 0);
  }

  /** It does not depend on what the node has in its buffer and its store. */
  lemma SameAcknowledgement(n: Node, m: Node, source: nat)
    requires NodeOk(n) && NodeOk(m) && n.remote == m.remote && n.callbacks == m.callbacks
    ensures Acknowledged(n, source).events == Acknowledged(m, source).events
    ensures Acknowledged(n, source).node.remote == Acknowledged(m, source).node.remote
  {
  }

  /** Whether an acknowledgement from there ends what a node waits for itself. */
  predicate EndedByAcknowledgement(remote: Remote, source: nat)
  {
    source == remote.alias && (remote.isWrite || remote.isUpdate)
  }

  /**
   The acknowledgement of a reply looks like that of a request.  It ends the other node's own request exactly if that
   went to the same client and is a write or an Update Complete, and then it is taken for its success.
   */
  lemma AcknowledgementEndsExactly(n: Node, source: nat)
    requires Ready(n) && 0 < source < ALIAS_LIMIT
    ensures var s := HandleFrames(n, [OkFrame(source, n.alias, 0)]);
            && (s.node.remote != n.remote <==> EndedByAcknowledgement(n.remote, source))
            && (EndedByAcknowledgement(n.remote, source) ==>
                  s.node.remote.alias == 0
                  && s.events == [OfClient(Accepted(source, 0)),
                                  OfClient(if n.remote.isWrite
                                           then Answered(source, WriteOk(n.remote.writeSpace, n.remote.writeAddress))
                                           else Updated(source))])
            && (!EndedByAcknowledgement(n.remote, source) ==>
                  s.events == if source == n.remote.alias then [OfClient(Accepted(source, 0))]
                              else CallIf(n.callbacks.ok, DatagramOk(source, 0)))
  {
    hide HandleFrames;
    OkArrives(n, source, 0);
    var heard := OnOk(n.remote, source, 0);
    ClientEventsOne(Accepted(source, 0));
    if |heard.events| == 2 {
      assert heard.events[1..] == [heard.events[1]];
      ClientEventsOne(heard.events[1]);
    }
    assert ClientEvents([]) == [];
  }

  // ---------------------------------------------------------------- reading

  /** The one reply to a read of a space of the memory map. */
  function ReadReply(store: Store, space: Byte, address: nat, count: nat): (r: Reply)
    requires address < WORD_LIMIT && count <= BLOCK && !ReadAccess(store, space, address, count).access.Outside?
    ensures ReplyOk(r)
  {
    ReadLengths(store, space, address, count);
    var r := ReadAccess(store, space, address, count);
    if r.access.Done? then ReadOk(space, address, r.data)
    else ReadFailed(space, address, if r.access.Missing? then NOT_IMPLEMENTED else INVALID_ARG, [])
  }

  lemma ReadIsPerformed(server: Node, space: Byte, address: nat, count: nat)
    requires NodeOk(server) && address < WORD_LIMIT && count <= BLOCK && space != SPACE_CDI
    requires !ReadAccess(server.server.store, space, address, count).access.Outside?
    ensures var p := Perform(server.server, CommandFor(ReadRequest(space, address, count)));
            var reply := ReadReply(server.server.store, space, address, count);
            p.handled && p.sent == [SendOk(REPLY_PENDING), SendDatagram(EncodeReply(reply))]
            && p.notes == [] && p.store == server.server.store
  {
    hide EncodeReply;
    var reply := ReadReply(server.server.store, space, address, count);
    var p := Perform(server.server, CommandFor(ReadRequest(space, address, count)));
    assert p.sent == [SendOk(REPLY_PENDING), SendDatagram(EncodeReply(reply))];
  }

  /** A reply to a read has the stored bytes exactly if all of them exist, and otherwise the code that says why. */
  ghost predicate ReadExactly(reply: Reply, store: Store, space: Byte, address: nat, count: nat)
  {
    if AllThere(store, space, address, count) then
      && reply.ReadOk? && reply.space == space && reply.address == address && |reply.data| == count
      && forall k :: 0 <= k < count ==> ByteAt(store, space, address + k) == Some(reply.data[k])
    else
      reply == ReadFailed(space, address, if HasSpace(store, space) then 0x1080 else 0x1040, [])
  }

  lemma ReadReplyIsExact(store: Store, space: Byte, address: nat, count: nat)
    requires Low(store, address, count) && 0 < count <= BLOCK
    ensures !ReadAccess(store, space, address, count).access.Outside?
    ensures ReadExactly(ReadReply(store, space, address, count), store, space, address, count)
  {
    hide ByteAt;
    hide HasSpace;
    ReadDoneExactly(store, space, address, count);
    if AllThere(store, space, address, count) {
      forall k | 0 <= k < count
        ensures ByteAt(store, space, address + k) == Some(ReadReply(store, space, address, count).data[k])
      {
        ReadGivesBytes(store, space, address, count, k);
      }
    }
  }

  lemma ReadIsAnswered(client: Node, server: Node, space: Byte, address: nat, count: nat, room: nat)
    requires CanTalk(client, server) && room >= ROOM && address < WORD_LIMIT && count <= BLOCK && space != SPACE_CDI
    requires !ReadAccess(server.server.store, space, address, count).access.Outside?
    ensures var c := Converse(client, server, ReadRequest(space, address, count), room);
            && Afterwards(c, client, server, ReadRequest(space, address, count))
            && c.server.server == server.server && c.serverEvents == Acknowledged(server, client.alias).events
            && c.clientEvents == AcceptedThen(server.alias, ReadReply(server.server.store, space, address, count))
  {
    hide EncodeReply;
    hide Converse;
    hide Perform;
    hide CommandFor;
    hide Handle;
    var reply := ReadReply(server.server.store, space, address, count);
    ReadIsPerformed(server, space, address, count);
    AnswerFollows(client, server, ReadRequest(space, address, count), room, reply);
    var events := Acknowledged(server, client.alias).events;
    assert ServerEvents([]) + events == events;
  }

  /**
   A remote read delivers the stored bytes, exactly when all of them exist; otherwise it is rejected with the code
   that says why.  Nothing changes in the memory of the other node.
   */
  lemma RemoteRead(client: Node, server: Node, space: Byte, address: nat, count: nat, room: nat)
    returns (reply: Reply)
    requires CanTalk(client, server) && room >= ROOM && address < WORD_LIMIT && 0 < count <= BLOCK
    requires space != SPACE_CDI && Low(server.server.store, address, count)
    ensures var c := Converse(client, server, ReadRequest(space, address, count), room);
            && CanTalk(c.client, c.server) && c.left == []
            && c.server.server == server.server && c.client.server == client.server
            && c.serverEvents == Acknowledged(server, client.alias).events
            && c.clientEvents == AcceptedThen(server.alias, reply)
    ensures ReadExactly(reply, server.server.store, space, address, count)
  {
    hide Converse;
    hide Perform;
    hide ReadExactly;
    hide Handle;
    ReadReplyIsExact(server.server.store, space, address, count);
    ReadIsAnswered(client, server, space, address, count, room);
    reply := ReadReply(server.server.store, space, address, count);
  }

  /** The same, whatever other traffic the bus carries in between. */
  lemma RemoteReadAmidTraffic(client: Node, server: Node, space: Byte, address: nat, count: nat, room: nat, t: Traffic)
    returns (reply: Reply)
    requires CanTalk(client, server) && room >= ROOM && address < WORD_LIMIT && 0 < count <= BLOCK
    requires space != SPACE_CDI && Low(server.server.store, address, count)
    requires !ReadAccess(server.server.store, space, address, count).access.Outside?
    requires TrafficOk(client, server, ReadRequest(space, address, count),
                       ReadReply(server.server.store, space, address, count), t)
    ensures ReplyOk(reply) && TrafficOk(client, server, ReadRequest(space, address, count), reply, t)
    ensures var e := Exchanged(client, server, ReadRequest(space, address, count), room, reply, t);
            && CanTalk(e.answered.node, e.closed.node) && e.closed.node.server == server.server
            && e.served.frames == Rejections(server.alias, t.toServer) + Answer(server.alias, client.alias, reply)
            && e.served.events == OverheardAmong(server, t.toServer)
            && e.answered.frames == Rejections(client.alias, t.toClient) + [OkFrame(client.alias, server.alias, 0)]
            && e.answered.events == HeardAmidTraffic(client, server.alias, reply, t)
            && e.closed.frames == []
            && e.closed.events == Overheard(server, t.after) + Acknowledged(server, client.alias).events
    ensures ReadExactly(reply, server.server.store, space, address, count)
  {
    hide Perform;
    hide CommandFor;
    hide ReadExactly;
    hide EncodeReply;
    hide TrafficOk;
    hide Exchanged;
    hide Rejections;
    hide CanTalk;
    hide OverheardAmong;
    hide Overheard;
    hide HeardAmidTraffic;
    hide Acknowledged;
    ReadReplyIsExact(server.server.store, space, address, count);
    reply := ReadReply(server.server.store, space, address, count);
    TalkersAreOk(client, server);
    ReadIsPerformed(server, space, address, count);
    AnswerFollowsAmidTraffic(client, server, ReadRequest(space, address, count), room, reply, t);
    var heard := OverheardAmong(server, t.toServer);
    assert ServerEvents([]) == [] && heard + [] == heard;
  }

  lemma TalkersAreOk(client: Node, server: Node)
    requires CanTalk(client, server)
    ensures NodeOk(client) && NodeOk(server)
  {
  }

  // ---------------------------------------------------------------- writing

  function WriteReply(access: Access, space: Byte, address: nat): (r: Reply)
    requires address < WORD_LIMIT && !access.Outside?
    ensures ReplyOk(r)
  {
    if access.Done? then WriteOk(space, address)
    else WriteFailed(space, address, if access.Missing? then NOT_IMPLEMENTED else INVALID_ARG, [])
  }

  lemma WriteIsPerformed(server: Node, space: Byte, address: nat, data: seq<Byte>)
    requires NodeOk(server) && address < WORD_LIMIT && 0 < |data| <= BLOCK
    requires !WriteAccess(server.server.store, space, address, data, |data|).access.Outside?
    ensures var p := Perform(server.server, CommandFor(WriteRequest(space, address, data)));
            var r := WriteAccess(server.server.store, space, address, data, |data|);
            && p.handled
            && p.sent == [SendOk(REPLY_PENDING), SendDatagram(EncodeReply(WriteReply(r.access, space, address)))]
            && p.store == r.store
            && ServerEvents(p.notes) == if r.access.Done? then [OfServer(MemoryWritten(space, address, |data|))] else []
  {
    hide EncodeReply;
    hide WriteAccess;
    var access := WriteAccess(server.server.store, space, address, data, |data|).access;
    var p := Perform(server.server, CommandFor(WriteRequest(space, address, data)));
    assert p.sent == [SendOk(REPLY_PENDING), SendDatagram(EncodeReply(WriteReply(access, space, address)))];
    assert ServerEvents([]) == [];
    assert [MemoryWritten(space, address, |data|)][1..] == [];
  }

  lemma WriteIsAnswered(client: Node, server: Node, space: Byte, address: nat, data: seq<Byte>, room: nat)
    requires CanTalk(client, server) && room >= ROOM && address < WORD_LIMIT && 0 < |data| <= BLOCK
    requires !WriteAccess(server.server.store, space, address, data, |data|).access.Outside?
    ensures var c := Converse(client, server, WriteRequest(space, address, data), room);
            var r := WriteAccess(server.server.store, space, address, data, |data|);
            && Afterwards(c, client, server, WriteRequest(space, address, data))
            && c.server.server.store == r.store
            && c.serverEvents == (if r.access.Done? then [OfServer(MemoryWritten(space, address, |data|))] else [])
                                 + Acknowledged(server, client.alias).events
            && c.clientEvents == AcceptedThen(server.alias, WriteReply(r.access, space, address))
  {
    hide EncodeReply;
    hide Converse;
    hide WriteAccess;
    hide Perform;
    hide CommandFor;
    hide Handle;
    var access := WriteAccess(server.server.store, space, address, data, |data|).access;
    WriteIsPerformed(server, space, address, data);
    AnswerFollows(client, server, WriteRequest(space, address, data), room, WriteReply(access, space, address));
  }

  /** Whether a write is accepted: the segment may be written, and all of the bytes exist. */
  ghost predicate Acceptable(store: Store, space: Byte, address: nat, len: nat)
  {
    Writable(store, space) && AllThere(store, space, address, len)
  }

  /** An accepted write changes exactly its bytes, a rejected one nothing; and the reply says which it was. */
  ghost predicate WriteExactly(reply: Reply, after: Store, store: Store, space: Byte, address: nat, data: seq<Byte>)
  {
    if Acceptable(store, space, address, |data|) then
      && reply == WriteOk(space, address)
      && forall other: Byte, at: nat ::
           ByteAt(after, other, at)
           == if other == space && address <= at < address + |data| then Some(data[at - address])
              else ByteAt(store, other, at)
    else
      && after == store
      && reply == WriteFailed(space, address, if HasSpace(store, space) then 0x1080 else 0x1040, [])
  }

  lemma WriteReplyIsExact(store: Store, space: Byte, address: nat, data: seq<Byte>)
    requires Low(store, address, |data|) && 0 < |data| <= BLOCK
    ensures var r := WriteAccess(store, space, address, data, |data|);
            && !r.access.Outside? && (r.access.Done? <==> Acceptable(store, space, address, |data|))
            && WriteExactly(WriteReply(r.access, space, address), r.store, store, space, address, data)
  {
    hide ByteAt;
    hide Find;
    hide AllThere;
    hide HasSpace;
    WriteDoneExactly(store, space, address, data);
    if WriteAccess(store, space, address, data, |data|).access.Done? {
      forall other: Byte, at: nat
        ensures ByteAt(WriteAccess(store, space, address, data, |data|).store, other, at)
                == if other == space && address <= at < address + |data| then Some(data[at - address])
                   else ByteAt(store, other, at)
      {
        WriteChangesExactly(store, space, address, data, other, at);
      }
    }
  }

  /**
   A remote write is accepted exactly when the segment may be written and all of the bytes exist.  Then it changes
   exactly those bytes, and is reported once on each side; otherwise it is rejected and nothing changes.
   */
  lemma RemoteWrite(client: Node, server: Node, space: Byte, address: nat, data: seq<Byte>, room: nat)
    returns (reply: Reply)
    requires CanTalk(client, server) && room >= ROOM && address < WORD_LIMIT && 0 < |data| <= BLOCK
    requires Low(server.server.store, address, |data|)
    ensures var store := server.server.store;
            var c := Converse(client, server, WriteRequest(space, address, data), room);
            && CanTalk(c.client, c.server) && c.left == [] && c.client.server == client.server
            && c.clientEvents == AcceptedThen(server.alias, reply)
            && c.serverEvents == (if Acceptable(store, space, address, |data|)
                                  then [OfServer(MemoryWritten(space, address, |data|))] else [])
                                 + Acknowledged(server, client.alias).events
            && c.server.server == server.server.(store := c.server.server.store)
            && WriteExactly(reply, c.server.server.store, store, space, address, data)
  {
    hide Converse;
    hide WriteExactly;
    hide WriteAccess;
    hide Acceptable;
    hide Handle;
    WriteReplyIsExact(server.server.store, space, address, data);
    WriteIsAnswered(client, server, space, address, data, room);
    reply := WriteReply(WriteAccess(server.server.store, space, address, data, |data|).access, space, address);
  }

  /** The same, whatever other traffic the bus carries in between. */
  lemma RemoteWriteAmidTraffic(client: Node, server: Node, space: Byte, address: nat, data: seq<Byte>, room: nat,
                               t: Traffic) returns (reply: Reply)
    requires CanTalk(client, server) && room >= ROOM && address < WORD_LIMIT && 0 < |data| <= BLOCK
    requires Low(server.server.store, address, |data|)
    requires var access := WriteAccess(server.server.store, space, address, data, |data|).access;
             !access.Outside?
             && TrafficOk(client, server, WriteRequest(space, address, data), WriteReply(access, space, address), t)
    ensures ReplyOk(reply) && TrafficOk(client, server, WriteRequest(space, address, data), reply, t)
    ensures var store := server.server.store;
            var e := Exchanged(client, server, WriteRequest(space, address, data), room, reply, t);
            && CanTalk(e.answered.node, e.closed.node)
            && e.closed.node.server == server.server.(store := e.closed.node.server.store)
            && e.served.frames == Rejections(server.alias, t.toServer) + Answer(server.alias, client.alias, reply)
            && e.served.events == OverheardAmong(server, t.toServer)
                                  + (if Acceptable(store, space, address, |data|)
                                     then [OfServer(MemoryWritten(space, address, |data|))] else [])
            && e.answered.frames == Rejections(client.alias, t.toClient) + [OkFrame(client.alias, server.alias, 0)]
            && e.answered.events == HeardAmidTraffic(client, server.alias, reply, t)
            && e.closed.frames == []
            && e.closed.events == Overheard(server, t.after) + Acknowledged(server, client.alias).events
            && WriteExactly(reply, e.closed.node.server.store, store, space, address, data)
  {
    hide Perform;
    hide CommandFor;
    hide WriteExactly;
    hide WriteAccess;
    hide Acceptable;
    hide EncodeReply;
    hide TrafficOk;
    hide Exchanged;
    hide Rejections;
    hide CanTalk;
    hide OverheardAmong;
    hide Overheard;
    hide HeardAmidTraffic;
    hide Acknowledged;
    TalkersAreOk(client, server);
    WriteReplyIsExact(server.server.store, space, address, data);
    WriteIsPerformed(server, space, address, data);
    reply := WriteReply(WriteAccess(server.server.store, space, address, data, |data|).access, space, address);
    AnswerFollowsAmidTraffic(client, server, WriteRequest(space, address, data), room, reply, t);
  }

  /** What was written is what a later read delivers. */
  lemma RemoteWriteThenRead(client: Node, server: Node, space: Byte, address: nat, data: seq<Byte>, room: nat)
    requires CanTalk(client, server) && room >= ROOM && address < WORD_LIMIT && 0 < |data| <= BLOCK
    requires space != SPACE_CDI && Low(server.server.store, address, |data|)
    requires Acceptable(server.server.store, space, address, |data|)
    ensures var w := Converse(client, server, WriteRequest(space, address, data), room);
            && CanTalk(w.client, w.server)
            && var c := Converse(w.client, w.server, ReadRequest(space, address, |data|), room);
            c.clientEvents == AcceptedThen(server.alias, ReadOk(space, address, data))
  {
    hide Converse;
    hide Acceptable;
    hide Perform;
    hide Handle;
    hide WriteExactly;
    var store := server.server.store;
    WriteReplyIsExact(store, space, address, data);
    WriteIsAnswered(client, server, space, address, data, room);
    WrittenIsRead(store, space, address, data);
    var w := Converse(client, server, WriteRequest(space, address, data), room);
    ReadIsAnswered(w.client, w.server, space, address, |data|, room);
  }

  // ---------------------------------------------------------------- the CDI

  /** The size of the CDI space that a client is told is the length of the text, where its final zero byte is. */
  lemma RemoteCdiInfo(client: Node, server: Node, room: nat)
    requires CanTalk(client, server) && room >= ROOM
    ensures var c := Converse(client, server, InfoRequest(SPACE_CDI), room);
            && CanTalk(c.client, c.server) && c.left == [] && c.server.server == server.server
            && c.clientEvents == AcceptedThen(server.alias, Info(true, SPACE_CDI, |server.server.cdi|, false, 0))
  {
    hide EncodeReply;
    hide Converse;
    hide Handle;
    AnswerFollows(client, server, InfoRequest(SPACE_CDI), room, Info(true, SPACE_CDI, |server.server.cdi|, false, 0));
  }

  /** A read of the CDI delivers that part of the text, with zeros after its end. */
  lemma RemoteCdiRead(client: Node, server: Node, address: nat, count: nat, room: nat)
    requires CanTalk(client, server) && room >= ROOM && address + count <= WORD_LIMIT && count <= BLOCK
    requires address < WORD_LIMIT
    ensures var c := Converse(client, server, ReadRequest(SPACE_CDI, address, count), room);
            && CanTalk(c.client, c.server) && c.left == [] && c.server.server == server.server
            && c.clientEvents
               == AcceptedThen(server.alias, ReadOk(SPACE_CDI, address, ZeroPadded(server.server.cdi, address, count)))
  {
    hide EncodeReply;
    hide Converse;
    hide CdiBytes;
    hide ZeroPadded;
    hide Handle;
    CdiBytesAreTheText(server.server.cdi, address, count);
    AnswerFollows(client, server, ReadRequest(SPACE_CDI, address, count), room,
                  ReadOk(SPACE_CDI, address, ZeroPadded(server.server.cdi, address, count)));
  }

  // ---------------------------------------------------------------- the other commands

  /** Update Complete is over when it is accepted; both sides are told, once. */
  lemma RemoteUpdate(client: Node, server: Node, room: nat)
    requires CanTalk(client, server) && room >= ROOM
    ensures var c := Converse(client, server, UpdateComplete, room);
            && CanTalk(c.client, c.server) && c.left == []
            && c.server.server == server.server && c.server.remote == server.remote
            && c.clientEvents == [OfClient(Accepted(server.alias, 0)), OfClient(Updated(server.alias))]
            && c.serverEvents == [OfServer(UpdateDone)]
  {
    hide HandleFrames;
    hide EncodeRequest;
    hide Frames;
    hide Ask;
    hide Woven;
    hide Quiet;
    hide Bystanders;
    hide Rejections;
    hide OverheardAmong;
    hide NotAwaited;
    hide AllFrames;
    hide OkFrame;
    RequestFits(client, server, UpdateComplete, room);
    var waiting := Waiting(client, server, UpdateComplete, room);
    var question := Frames(client.alias, server.alias, EncodeRequest(UpdateComplete));
    QuietBus(server, server.remote.alias, question);
    var serverRx := RequestArrives(server, client.alias, UpdateComplete, Quiet(question));
    OutgoingPair(server.alias, client.alias, 0, []);
    var served := HandleFrames(server, question);
    var ok := [OkFrame(server.alias, client.alias, 0)];
    assert [] + ok + [] == ok;
    OkArrives(waiting, server.alias, 0);
    assert [Accepted(server.alias, 0), Updated(server.alias)][1..] == [Updated(server.alias)];
    ClientEventsOne(Updated(server.alias));
    var answered := HandleFrames(waiting, served.frames);
    assert answered.frames == [];
    assert HandleFrames(served.node, []) == Step(served.node, [], []) by { NoFrames(served.node); }
    assert [UpdateDone][1..] == [];
    assert ServerEvents([]) == [];
  }

  lemma NoFrames(n: Node)
    requires NodeOk(n)
    ensures HandleFrames(n, []) == Step(n, [], [])
  {
  }

  /** What a node sends for an information request. */
  lemma InfoIsAnswered(client: Node, server: Node, space: Byte, room: nat) returns (reply: Reply)
    requires CanTalk(client, server) && room >= ROOM && space != SPACE_CDI
    ensures var s := HandleFrames(server, Frames(client.alias, server.alias, EncodeRequest(InfoRequest(space))));
            && InfoExactly(reply, server.server.store, space)
            && s.frames == Frames(server.alias, client.alias, EncodeReply(reply))
                           + RefusalOf(server, client.alias, false)
            && s.events == CallOf(server, client.alias, false, EncodeRequest(InfoRequest(space)))
            && Ready(s.node) && s.node == server.(rx := s.node.rx)
  {
    hide HandleFrames;
    hide EncodeRequest;
    hide EncodeReply;
    hide Frames;
    hide Woven;
    hide Quiet;
    hide Bystanders;
    hide Rejections;
    hide InfoExactly;
    reply := InfoAnswer(server.server.store, space);
    InfoAnswerIsExact(server.server.store, space);
    FrameCount(client.alias, server.alias, EncodeRequest(InfoRequest(space)));
    var question := Frames(client.alias, server.alias, EncodeRequest(InfoRequest(space)));
    QuietBus(server, server.remote.alias, question);
    var serverRx := RequestArrives(server, client.alias, InfoRequest(space), Quiet(question));
    OutgoingPair(server.alias, client.alias, 0, EncodeReply(reply));
    var answer := Frames(server.alias, client.alias, EncodeReply(reply));
    assert [] + answer == answer;
    var call := CallOf(server, client.alias, false, EncodeRequest(InfoRequest(space)));
    assert ServerEvents([]) + call == call;
  }

  lemma {:induction false} RestAreDatagrams(source: nat, dest: nat, left: seq<Byte>)
    requires source < ALIAS_LIMIT && dest < FIELD_LIMIT
    ensures forall f :: f in Rest(source, dest, left) ==> IsDatagramType(FrameTypeOf(f.id))
    decreases |left|
  {
    MessageIdFields(LAST_FRAME, dest, source);
    MessageIdFields(MIDDLE_FRAME, dest, source);
    if |left| > 8 {
      RestAreDatagrams(source, dest, left[8..]);
    }
  }

  lemma DatagramIsNoRejection(source: nat, dest: nat, data: seq<Byte>, f: Frame)
    requires source < ALIAS_LIMIT && dest < FIELD_LIMIT && f in Frames(source, dest, data)
    ensures f != RejectedFrame(source, dest, 0)
  {
    MessageIdFields(ONLY_FRAME, dest, source);
    MessageIdFields(FIRST_FRAME, dest, source);
    MessageIdFields(1, MTI_DATAGRAM_REJECTED, source);
    if |data| > 8 {
      RestAreDatagrams(source, dest, data[8..]);
    }
  }

  /**
   Exactly when the information about a space is followed by a rejection of the request: when the space is one of the
   memory map, and the application of the node has not registered a function for datagrams.
   */
  lemma InfoIsRejectedExactly(client: Node, server: Node, space: Byte, room: nat)
    requires CanTalk(client, server) && room >= ROOM
    ensures var s := HandleFrames(server, Frames(client.alias, server.alias, EncodeRequest(InfoRequest(space))));
            RejectedFrame(server.alias, client.alias, 0) in s.frames
            <==> space != SPACE_CDI && !server.callbacks.received
  {
    hide HandleFrames;
    hide EncodeRequest;
    hide EncodeReply;
    hide Frames;
    hide Woven;
    hide Quiet;
    hide Bystanders;
    hide Rejections;
    hide InfoExactly;
    var rejection := RejectedFrame(server.alias, client.alias, 0);
    var reply := Info(true, SPACE_CDI, |server.server.cdi|, false, 0);
    if space != SPACE_CDI {
      reply := InfoIsAnswered(client, server, space, room);
    }
    assert ReplyOk(reply) by { InfoIsInfo(server.server.store, space, reply); }
    var answer := Frames(server.alias, client.alias, EncodeReply(reply));
    forall f | f in answer
      ensures f != rejection
    {
      DatagramIsNoRejection(server.alias, client.alias, EncodeReply(reply), f);
    }
    if space == SPACE_CDI {
      FrameCount(client.alias, server.alias, EncodeRequest(InfoRequest(space)));
      var question := Frames(client.alias, server.alias, EncodeRequest(InfoRequest(space)));
      QuietBus(server, server.remote.alias, question);
      var serverRx := RequestArrives(server, client.alias, InfoRequest(space), Quiet(question));
      OutgoingPair(server.alias, client.alias, REPLY_PENDING, EncodeReply(reply));
      MessageIdFields(1, MTI_DATAGRAM_REJECTED, server.alias);
      MessageIdFields(1, MTI_DATAGRAM_RECEIVED_OK, server.alias);
      assert [] + ([OkFrame(server.alias, client.alias, REPLY_PENDING)] + answer) + []
             == [OkFrame(server.alias, client.alias, REPLY_PENDING)] + answer;
    }
  }

  /** What the rejection is to a client that waits for nothing. */
  function LateRejection(client: Node, server: Node): seq<NodeEvent>
  {
    CallIf(!server.callbacks.received && client.callbacks.rejected, DatagramRejected(server.alias, 0))
  }

  lemma InfoIsInfo(store: Store, space: Byte, reply: Reply)
    ensures InfoExactly(reply, store, space) ==> reply.Info? && ReplyOk(reply)
  {
  }

  /**
   A client that does nothing in between is told exactly which bytes the space has, and whether they may be written;
   its library ignores the rejection.
   */
  lemma RemoteInfo(client: Node, server: Node, space: Byte, room: nat) returns (reply: Reply)
    requires CanTalk(client, server) && room >= ROOM && space != SPACE_CDI
    ensures var c := Converse(client, server, InfoRequest(space), room);
            && CanTalk(c.client, c.server) && c.left == [] && c.server.server == server.server
            && InfoExactly(reply, server.server.store, space)
            && c.clientEvents == [OfClient(Answered(server.alias, reply))] + LateRejection(client, server)
  {
    hide HandleFrames;
    hide EncodeRequest;
    hide EncodeReply;
    hide Frames;
    hide Ask;
    hide InfoExactly;
    hide Woven;
    hide Quiet;
    hide Bystanders;
    hide Rejections;
    RequestFits(client, server, InfoRequest(space), room);
    reply := InfoIsAnswered(client, server, space, room);
    InfoIsInfo(server.server.store, space, reply);
    var waiting := Waiting(client, server, InfoRequest(space), room);
    var served := HandleFrames(server, Frames(client.alias, server.alias, EncodeRequest(InfoRequest(space))));
    var info := Frames(server.alias, client.alias, EncodeReply(reply));
    FrameCount(server.alias, client.alias, EncodeReply(reply));
    QuietBus(waiting, server.alias, info);
    var clientRx := ReplyComesIn(waiting, server.alias, reply, Quiet(info));
    var heard := HandleFrames(waiting, info);
    var ack := [OkFrame(client.alias, server.alias, 0)];
    assert [] + ack == ack;
    HandleFramesAppend(waiting, info, RefusalOf(server, client.alias, false));
    RejectionArrives(heard.node, server.alias, 0);
    NoFrames(heard.node);
    var answered := HandleFrames(waiting, served.frames);
    assert ack + [] == ack;
    assert answered.frames == ack;
    AcknowledgementArrives(served.node, client.alias);
  }

  /**
   A client that asks for the next thing as soon as it has the information, before the rejection comes: the rejection
   ends that request exactly if it went to the node that has just answered.
   */
  lemma InfoRejectionHitsNextRequest(n: Node, source: nat, reply: Reply, dest: nat, next: Request, room: nat)
    requires Ready(n) && 0 < source < ALIAS_LIMIT && 0 < dest && n.remote.alias == source
    requires reply.Info? && ReplyOk(reply) && RequestOk(next) && room >= ROOM
    ensures var informed := HandleFrames(n, Frames(source, n.alias, EncodeReply(reply)));
            var again := Ask(informed.node.remote, informed.node.rx, n.alias, dest, next, room);
            var asking := informed.node.(remote := again.remote, rx := again.rx);
            var rejected := HandleFrames(asking, [RejectedFrame(source, n.alias, 0)]);
            && informed.events == [OfClient(Answered(source, reply))]
            && again.outcome == Submitted(Ok) && again.sent == Frames(n.alias, dest, EncodeRequest(next))
            && (rejected.node.remote.alias == 0 <==> dest == source)
            && (dest == source ==> rejected.events == [OfClient(Rejected(source, 0))])
            && (dest != source ==> rejected.node == asking)
  {
    hide HandleFrames;
    hide EncodeRequest;
    hide EncodeReply;
    hide Frames;
    hide Woven;
    hide Quiet;
    hide Bystanders;
    hide Rejections;
    FrameCount(source, n.alias, EncodeReply(reply));
    var info := Frames(source, n.alias, EncodeReply(reply));
    QuietBus(n, source, info);
    var clientRx := ReplyComesIn(n, source, reply, Quiet(info));
    var informed := HandleFrames(n, info);
    FrameCount(n.alias, dest, EncodeRequest(next));
    var again := Ask(informed.node.remote, informed.node.rx, n.alias, dest, next, room);
    RejectionArrives(informed.node.(remote := again.remote, rx := again.rx), source, 0);
    ClientEventsOne(Rejected(source, 0));
    assert [OfClient(Rejected(source, 0))] + [] == [OfClient(Rejected(source, 0))];
  }
}
