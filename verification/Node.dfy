/**
 A node with a memory of its own that is also a client of the memory of others: which part of the library gets a
 datagram (LCC/lcc-datagram.c), and what goes back on the bus.
 */
module Node {
  import opened Basics
  import opened CanId
  import opened Datagram
  import opened MemoryMap
  import opened MemoryProtocol
  import opened MemoryServer
  import opened RemoteMemory

  /** Which functions the application has registered for what nobody else takes. */
  datatype Callbacks = Callbacks(received: bool, ok: bool, rejected: bool)

  datatype Node = Node(alias: nat, rx: Rx, server: Server, remote: Remote, callbacks: Callbacks)

  ghost predicate NodeOk(n: Node)
  {
    RxOk(n.rx) && ServerOk(n.server)
  }

  /** What the application is told about datagrams. */
  datatype Call =
    | DatagramReceived(source: nat, data: seq<Byte>)
    | DatagramOk(source: nat, flags: Byte)
    | DatagramRejected(source: nat, code: nat)

  datatype NodeEvent = OfServer(note: Note) | OfClient(event: Event) | OfApplication(call: Call)

  datatype Step = Step(node: Node, frames: seq<Frame>, events: seq<NodeEvent>)

  function OutgoingFrames(source: nat, dest: nat, o: Outgoing): seq<Frame>
  {
    match o
    case SendOk(flags) => [OkFrame(source, dest, flags)]
    case SendDatagram(data) => Frames(source, dest, data)
  }

  function AllFrames(source: nat, dest: nat, sent: seq<Outgoing>): seq<Frame>
  {
    if sent == [] then [] else OutgoingFrames(source, dest, sent[0]) + AllFrames(source, dest, sent[1..])
  }

  function ServerEvents(notes: seq<Note>): seq<NodeEvent>
  {
    if notes == [] then [] else [OfServer(notes[0])] + ServerEvents(notes[1..])
  }

  function ClientEvents(events: seq<Event>): seq<NodeEvent>
  {
    if events == [] then [] else [OfClient(events[0])] + ClientEvents(events[1..])
  }

  /** A call of the application, if it has registered the function. */
  function CallIf(registered: bool, call: Call): seq<NodeEvent> { if registered then [OfApplication(call)] else [] }

  /**
   A whole datagram: the server sees it first, then the client.  If neither takes it, it is for the application, or
   rejected if that has registered no function.
   */
  function HandleDelivery(n: Node, source: nat, buffer: seq<Byte>, len: nat): (s: Step)
    requires NodeOk(n) && Filled(buffer, len)
    ensures NodeOk(s.node)
  {
    var served := Serve(n.server, buffer, len);
    var node := n.(server := n.server.(store := served.store));
    var frames, events := AllFrames(n.alias, source, served.sent), ServerEvents(served.notes);
    if served.handled then Step(node, frames, events)
    else
      var heard := OnDatagram(n.remote, source, buffer, len);
      if heard.handled then
        Step(node.(remote := heard.remote), frames + [OkFrame(n.alias, source, 0)], events + ClientEvents(heard.events))
      else
        Step(node, frames + (if n.callbacks.received then [] else [RejectedFrame(n.alias, source, 0)]),
             events + CallIf(n.callbacks.received, DatagramReceived(source, buffer[..len])))
  }

  /** What the datagram layer hands over has the size of its buffer. */
  predicate EventOk(e: RxEvent)
  {
    e.Delivered? ==> Filled(e.buffer, e.len)
  }

  function Handle(n: Node, e: RxEvent): (s: Step)
    requires NodeOk(n) && EventOk(e)
    ensures NodeOk(s.node)
  {
    match e
    case Delivered(source, buffer, len) => HandleDelivery(n, source, buffer, len)
    case RejectSent(dest, code) => Step(n, [RejectedFrame(n.alias, dest, code)], [])
    case GotOk(source, flags) =>
      var heard := OnOk(n.remote, source, flags);
      Step(n.(remote := heard.remote), [],
           ClientEvents(heard.events) + CallIf(!heard.handled && n.callbacks.ok, DatagramOk(source, flags)))
    case GotRejected(source, code) =>
      var heard := OnRejected(n.remote, source, code);
      Step(n.(remote := heard.remote), [],
           ClientEvents(heard.events) + CallIf(!heard.handled && n.callbacks.rejected, DatagramRejected(source, code)))
  }

  lemma {:induction false} EventsOfTheirKind(events: seq<Event>, notes: seq<Note>)
    ensures |ClientEvents(events)| == |events| && |ServerEvents(notes)| == |notes|
    ensures forall i :: 0 <= i < |events| ==> ClientEvents(events)[i] == OfClient(events[i])
    ensures forall i :: 0 <= i < |notes| ==> ServerEvents(notes)[i] == OfServer(notes[i])
    decreases |events| + |notes|
  {
    if events != [] {
      EventsOfTheirKind(events[1..], []);
    }
    if notes != [] {
      EventsOfTheirKind([], notes[1..]);
    }
  }

  /**
   What gets through to the application: of the datagrams, those that neither the server nor the client takes; of the
   acceptances and rejections, those that do not come from the node that the client waits for.  A datagram that nobody
   takes is rejected.
   */
  lemma ApplicationHearsExactly(n: Node, source: nat, buffer: seq<Byte>, len: nat, flags: Byte, code: nat, c: Call)
    requires NodeOk(n) && Filled(buffer, len)
    ensures var taken := Serve(n.server, buffer, len).handled || OnDatagram(n.remote, source, buffer, len).handled;
            var s := Handle(n, Delivered(source, buffer, len));
            && (OfApplication(c) in s.events <==>
                  !taken && n.callbacks.received && c == DatagramReceived(source, buffer[..len]))
            && (!taken && !n.callbacks.received ==>
                  s.frames != [] && s.frames[|s.frames| - 1] == RejectedFrame(n.alias, source, 0))
    ensures OfApplication(c) in Handle(n, GotOk(source, flags)).events <==>
              source != n.remote.alias && n.callbacks.ok && c == DatagramOk(source, flags)
    ensures OfApplication(c) in Handle(n, GotRejected(source, code)).events <==>
              source != n.remote.alias && n.callbacks.rejected && c == DatagramRejected(source, code)
  {
    hide Serve;
    hide AllFrames;
    hide DecodeReply;
    EventsOfTheirKind(OnDatagram(n.remote, source, buffer, len).events, Serve(n.server, buffer, len).notes);
    EventsOfTheirKind(OnOk(n.remote, source, flags).events, []);
    EventsOfTheirKind(OnRejected(n.remote, source, code).events, []);
    hide ClientEvents;
    hide ServerEvents;
    if n.callbacks.received {
      assert OfApplication(DatagramReceived(source, buffer[..len]))
             in CallIf(n.callbacks.received, DatagramReceived(source, buffer[..len]));
    }
  }

  function HandleAll(n: Node, events: seq<RxEvent>): (s: Step)
    requires NodeOk(n) && forall i :: 0 <= i < |events| ==> EventOk(events[i])
    ensures NodeOk(s.node)
    decreases |events|
  {
    if events == [] then Step(n, [], [])
    else
      var first := Handle(n, events[0]);
      var rest := HandleAll(first.node, events[1..]);
      Step(rest.node, first.frames + rest.frames, first.events + rest.events)
  }

  lemma EventsOk(rx: Rx, alias: nat, f: Frame)
    requires RxOk(rx)
    ensures var events := ReceiveFrame(rx, alias, f).events;
            |events| <= 2 && forall i :: 0 <= i < |events| ==> EventOk(events[i])
  {
  }

  /** One frame from the bus. */
  function HandleFrame(n: Node, f: Frame): (s: Step)
    requires NodeOk(n)
    ensures NodeOk(s.node)
  {
    var r := ReceiveFrame(n.rx, n.alias, f);
    EventsOk(n.rx, n.alias, f);
    HandleAll(n.(rx := r.rx), r.events)
  }

  function HandleFrames(n: Node, frames: seq<Frame>): (s: Step)
    requires NodeOk(n)
    ensures NodeOk(s.node)
    decreases |frames|
  {
    if frames == [] then Step(n, [], [])
    else
      var first := HandleFrame(n, frames[0]);
      var rest := HandleFrames(first.node, frames[1..]);
      Step(rest.node, first.frames + rest.frames, first.events + rest.events)
  }

  // ---------------------------------------------------------------- the contexts of one node

  class NodeContext {
    const alias: nat
    const datagram: DatagramContext
    const memory: MemoryContext
    const remote: RemoteMemoryContext
    const callbacks: Callbacks

    ghost predicate Valid()
      reads datagram, memory, remote
    {
      && datagram.Valid() && memory.Valid() && remote.datagram == datagram && remote.Valid()
      && datagram.buffer !in memory.memory.memory
    }

    ghost function State(): (n: Node)
      requires Valid()
      reads datagram, datagram.buffer, memory, memory.memory.memory, remote
      ensures NodeOk(n)
    {
      Node(alias, datagram.State(), memory.State(), remote.State(), callbacks)
    }

    constructor (alias: nat, datagram: DatagramContext, memory: MemoryContext, remote: RemoteMemoryContext,
                 callbacks: Callbacks)
      requires datagram.Valid() && memory.Valid() && remote.Valid() && remote.datagram == datagram
      requires datagram.buffer !in memory.memory.memory
      ensures Valid() && State() == Node(alias, datagram.State(), memory.State(), remote.State(), callbacks)
    {
      this.alias, this.datagram, this.memory, this.remote := alias, datagram, memory, remote;
      this.callbacks := callbacks;
    }

    /** The frames of everything that is to be sent, in order. */
    method Send(dest: nat, sent: seq<Outgoing>) returns (frames: seq<Frame>)
      ensures frames == AllFrames(alias, dest, sent)
    {
      frames := [];
      var i := |sent|;
      while i > 0
        invariant 0 <= i <= |sent| && frames == AllFrames(alias, dest, sent[i..])
      {
        i := i - 1;
        assert sent[i..][1..] == sent[i + 1..];
        frames := OutgoingFrames(alias, dest, sent[i]) + frames;
      }
      assert sent[0..] == sent;
    }

    method Dispatch(source: nat, buffer: seq<Byte>, len: nat) returns (frames: seq<Frame>, events: seq<NodeEvent>)
      requires Valid() && Filled(buffer, len)
      modifies remote, memory.memory.memory
      ensures Valid()
      ensures Step(State(), frames, events) == HandleDelivery(old(State()), source, buffer, len)
    {
      var handled, sent, notes := memory.TryHandleDatagram(buffer, len);
      frames := Send(source, sent);
      events := ServerEvents(notes);
      if !handled {
        var heard;
        heard, handled := [], false;
        handled, heard := remote.TryHandleDatagram(source, buffer, len);
        if handled {
          frames, events := frames + [OkFrame(alias, source, 0)], events + ClientEvents(heard);
        } else if callbacks.received {
          events := events + [OfApplication(DatagramReceived(source, buffer[..len]))];
        } else {
          frames := frames + [RejectedFrame(alias, source, 0)];
        }
      }
    }

    method HandleOne(e: RxEvent) returns (frames: seq<Frame>, events: seq<NodeEvent>)
      requires Valid() && EventOk(e)
      modifies remote, memory.memory.memory
      ensures Valid()
      ensures Step(State(), frames, events) == Handle(old(State()), e)
    {
      frames, events := [], [];
      match e
      case Delivered(source, buffer, len) =>
        frames, events := Dispatch(source, buffer, len);
      case RejectSent(dest, code) =>
        frames := [RejectedFrame(alias, dest, code)];
      case GotOk(source, flags) =>
        var handled, heard := remote.HandleOk(source, flags);
        events := ClientEvents(heard);
        if !handled && callbacks.ok {
          events := events + [OfApplication(DatagramOk(source, flags))];
        }
      case GotRejected(source, code) =>
        var handled, heard := remote.HandleRejected(source, code);
        events := ClientEvents(heard);
        if !handled && callbacks.rejected {
          events := events + [OfApplication(DatagramRejected(source, code))];
        }
    }

    /** lcc_handle_datagram, with the callbacks it makes, for the frames that it gets. */
    method Incoming(f: Frame) returns (frames: seq<Frame>, events: seq<NodeEvent>)
      requires Valid()
      modifies datagram`offset, datagram`handling, datagram.buffer, remote, memory.memory.memory
      ensures Valid()
      ensures Step(State(), frames, events) == HandleFrame(old(State()), f)
    {
      hide Handle;
      hide Receive;
      ghost var before := State();
      if !IsMessage(f.id) {
        return [], [];
      }
      EventsOk(before.rx, alias, f);
      var received := datagram.HandleDatagram(alias, f);
      ghost var start := State();
      frames, events := [], [];
      var i := 0;
      while i < |received|
        invariant i <= |received| && Valid() && NodeOk(start)
        invariant forall k :: 0 <= k < |received| ==> EventOk(received[k])
        invariant var rest := HandleAll(State(), received[i..]);
                  HandleAll(start, received) == Step(rest.node, frames + rest.frames, events + rest.events)
      {
        assert received[i..][1..] == received[i + 1..];
        var moreFrames, moreEvents := HandleOne(received[i]);
        AddStep(frames, moreFrames, events, moreEvents, HandleAll(State(), received[i + 1..]));
        frames, events := frames + moreFrames, events + moreEvents;
        i := i + 1;
      }
    }
  }

  lemma AddStep(a: seq<Frame>, b: seq<Frame>, c: seq<NodeEvent>, d: seq<NodeEvent>, rest: Step)
    ensures a + b + rest.frames == a + (b + rest.frames) && c + d + rest.events == c + (d + rest.events)
  {
  }
}
