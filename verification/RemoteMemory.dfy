/**
 A client of the memory of other nodes (LCC/lcc-remote-memory.c).  One request can be outstanding at a time; the
 alias it went to is kept until an answer comes from there, with 0 for none.
 */
module RemoteMemory {
  import opened Basics
  import opened CanId
  import opened Datagram
  import opened MemoryMap
  import opened MemoryProtocol

  datatype Remote = Remote(alias: nat, isWrite: bool, isUpdate: bool, writeSpace: Byte, writeAddress: nat)

  /** The callbacks. */
  datatype Event =
    | Accepted(alias: nat, flags: Byte)
    | Rejected(alias: nat, code: nat)
    | Answered(alias: nat, reply: Reply)
    | Updated(alias: nat)

  datatype Outcome = InvalidRequest | TransferInProgress | DatagramInProgress | Submitted(status: Status)

  datatype Asked = Asked(outcome: Outcome, remote: Remote, rx: Rx, sent: seq<Frame>)

  // ---------------------------------------------------------------- requests

  /** What a request leaves behind: only a write remembers where it goes. */
  function Outstanding(remote: Remote, dest: nat, r: Request): Remote
  {
    match r
    case ReadRequest(_, _, _) => remote.(alias := dest, isWrite := false, isUpdate := false)
    case WriteRequest(space, address, _) => Remote(dest, true, false, space, address)
    case InfoRequest(_) => remote.(alias := dest, isWrite := false, isUpdate := false)
    case UpdateComplete => remote.(alias := dest, isWrite := false, isUpdate := true)
  }

  /**
   Sends a request.  All but the information request wait for the one before and for an incoming datagram; a
   read clears the receive buffer.  Once a request is outstanding, it stays so even if it could not be sent.
   */
  function Ask(remote: Remote, rx: Rx, source: nat, dest: nat, r: Request, room: nat): Asked
    requires RequestOk(r)
  {
    if !r.InfoRequest? && remote.alias != 0 then Asked(TransferInProgress, remote, rx, [])
    else if !r.InfoRequest? && rx.handling then Asked(DatagramInProgress, remote, rx, [])
    else
      var t := Transmit(source, dest, EncodeRequest(r), room);
      Asked(Submitted(t.status), Outstanding(remote, dest, r), if r.ReadRequest? then Cleared(rx) else rx, t.frames)
  }

  /** A read empties the receive buffer before it is sent, and nothing else that is asked for touches it. */
  lemma ReadEmptiesBuffer(remote: Remote, rx: Rx, source: nat, dest: nat, r: Request, room: nat)
    requires RequestOk(r)
    ensures var a := Ask(remote, rx, source, dest, r, room);
            if r.ReadRequest? && a.outcome.Submitted? then
              && a.rx.handling == rx.handling && a.rx.offset == 0 && |a.rx.buffer| == 72
              && forall i :: 0 <= i < 72 ==> a.rx.buffer[i] == 0
            else a.rx == rx
  {
    hide EncodeRequest;
    hide Transmit;
  }

  // ---------------------------------------------------------------- answers

  datatype Heard = Heard(handled: bool, remote: Remote, events: seq<Event>)

  function Idling(remote: Remote): Remote { remote.(alias := 0, isWrite := false, isUpdate := false) }

  function OnDatagram(remote: Remote, source: nat, buffer: seq<Byte>, len: nat): Heard
    requires Filled(buffer, len)
  {
    var reply := DecodeReply(buffer, len);
    if source == remote.alias && reply.Some? then Heard(true, Idling(remote), [Answered(source, reply.value)])
    else Heard(false, remote, [])
  }

  /** A write is done when it is accepted with no reply pending, an Update Complete when it is accepted. */
  function OnOk(remote: Remote, source: nat, flags: Byte): Heard
  {
    if source != remote.alias then Heard(false, remote, [])
    else if remote.isWrite && flags / REPLY_PENDING % 2 == 0 then
      Heard(true, remote.(alias := 0, isWrite := false),
            [Accepted(source, flags), Answered(source, WriteOk(remote.writeSpace, remote.writeAddress))])
    else if remote.isUpdate then
      Heard(true, remote.(alias := 0, isUpdate := false), [Accepted(source, flags), Updated(source)])
    else Heard(true, remote, [Accepted(source, flags)])
  }

  function OnRejected(remote: Remote, source: nat, code: nat): Heard
  {
    if source != remote.alias then Heard(false, remote, [])
    else Heard(true, Idling(remote), [Rejected(source, code)])
  }

  /** Nothing is outstanding that is not a write or an update marked as such. */
  predicate RemoteOk(r: Remote)
  {
    && r.writeAddress < WORD_LIMIT && !(r.isWrite && r.isUpdate)
    && (r.alias == 0 ==> !r.isWrite && !r.isUpdate)
  }

  /**
   A request ends with exactly one event that says so, and every other answer is neither reported as an end nor
   changes what is outstanding.
   */
  predicate Ends(e: Event)
  {
    !e.Accepted?
  }

  lemma EndsExactlyOnce(remote: Remote, source: nat, flags: Byte, code: nat, buffer: seq<Byte>, len: nat)
    requires RemoteOk(remote) && remote.alias != 0 && source != 0 && Filled(buffer, len)
    ensures forall h :: h in {OnDatagram(remote, source, buffer, len), OnOk(remote, source, flags),
                              OnRejected(remote, source, code)} ==>
              && (h.remote.alias == 0 <==> exists i :: 0 <= i < |h.events| && Ends(h.events[i]))
              && (forall i, j :: 0 <= i < j < |h.events| ==> !(Ends(h.events[i]) && Ends(h.events[j])))
              && (h.remote.alias != 0 ==> h.remote == remote)
  {
    forall h | h in {OnDatagram(remote, source, buffer, len), OnOk(remote, source, flags),
                     OnRejected(remote, source, code)}
      ensures h.remote.alias == 0 <==> exists i :: 0 <= i < |h.events| && Ends(h.events[i])
    {
      if h.remote.alias == 0 {
        assert Ends(h.events[|h.events| - 1]);
      }
    }
  }

  // ---------------------------------------------------------------- whole runs

  /** What can happen to a client: it asks or gives up, or something comes in. */
  datatype Happening =
    | Asking(rx: Rx, dest: nat, r: Request, room: nat)
    | Cancelling
    | DatagramIn(source: nat, buffer: seq<Byte>, len: nat)
    | OkIn(source: nat, flags: Byte)
    | RejectionIn(source: nat, code: nat)

  /** Nobody has the alias 0. */
  predicate Proper(h: Happening)
  {
    match h
    case Asking(_, dest, r, _) => dest != 0 && RequestOk(r)
    case Cancelling => true
    case DatagramIn(source, buffer, len) => source != 0 && Filled(buffer, len)
    case OkIn(source, _) => source != 0
    case RejectionIn(source, _) => source != 0
  }

  predicate AllProper(hs: seq<Happening>)
  {
    forall i :: 0 <= i < |hs| ==> Proper(hs[i])
  }

  /** The client afterwards, and what its application is told. */
  function Happen(remote: Remote, own: nat, h: Happening): Heard
    requires Proper(h)
  {
    match h
    case Asking(rx, dest, r, room) => Heard(true, Ask(remote, rx, own, dest, r, room).remote, [])
    case Cancelling => Heard(true, Idling(remote), [])
    case DatagramIn(source, buffer, len) => OnDatagram(remote, source, buffer, len)
    case OkIn(source, flags) => OnOk(remote, source, flags)
    case RejectionIn(source, code) => OnRejected(remote, source, code)
  }

  /** Everything that the application is told in a run, and the client at its end. */
  function RunOf(remote: Remote, own: nat, hs: seq<Happening>): Heard
    requires AllProper(hs)
    decreases |hs|
  {
    if hs == [] then Heard(true, remote, [])
    else
      var first := Happen(remote, own, hs[0]);
      var rest := RunOf(first.remote, own, hs[1..]);
      Heard(true, rest.remote, first.events + rest.events)
  }

  function EndsAmong(events: seq<Event>): nat
  {
    if events == [] then 0 else (if Ends(events[0]) then 1 else 0) + EndsAmong(events[1..])
  }

  /** The requests that the library takes on. */
  predicate TakenOn(remote: Remote, own: nat, h: Happening)
    requires Proper(h)
  {
    h.Asking? && Ask(remote, h.rx, own, h.dest, h.r, h.room).outcome.Submitted?
  }

  /** A request is dropped without a word when it is cancelled or an information request takes its place. */
  predicate Dropped(remote: Remote, h: Happening)
  {
    remote.alias != 0 && (h.Cancelling? || (h.Asking? && h.r.InfoRequest?))
  }

  function CountTaken(remote: Remote, own: nat, hs: seq<Happening>): nat
    requires AllProper(hs)
    decreases |hs|
  {
    if hs == [] then 0
    else
      (if TakenOn(remote, own, hs[0]) then 1 else 0) + CountTaken(Happen(remote, own, hs[0]).remote, own, hs[1..])
  }

  function CountDropped(remote: Remote, own: nat, hs: seq<Happening>): nat
    requires AllProper(hs)
    decreases |hs|
  {
    if hs == [] then 0
    else
      (if Dropped(remote, hs[0]) then 1 else 0) + CountDropped(Happen(remote, own, hs[0]).remote, own, hs[1..])
  }

  function Open(remote: Remote): nat { if remote.alias == 0 then 0 else 1 }

  /** One step.  While nothing is outstanding, nothing is reported. */
  lemma HappeningCounts(remote: Remote, own: nat, h: Happening)
    requires RemoteOk(remote) && Proper(h)
    ensures var s := Happen(remote, own, h);
            && RemoteOk(s.remote)
            && Open(remote) + (if TakenOn(remote, own, h) then 1 else 0)
               == Open(s.remote) + EndsAmong(s.events) + (if Dropped(remote, h) then 1 else 0)
            && (remote.alias == 0 ==> s.events == [])
  {
    hide DecodeReply;
    hide EncodeRequest;
    var s := Happen(remote, own, h);
    match h
    case Asking(rx, dest, r, room) => EndsOfOne(s.events);
    case Cancelling => EndsOfOne(s.events);
    case DatagramIn(source, buffer, len) => EndsOfOne(s.events);
    case OkIn(source, flags) => EndsOfOne(s.events);
    case RejectionIn(source, code) => EndsOfOne(s.events);
  }

  lemma EndsOfOne(events: seq<Event>)
    ensures events == [] ==> EndsAmong(events) == 0
    ensures |events| == 1 ==> EndsAmong(events) == if Ends(events[0]) then 1 else 0
    ensures |events| == 2 ==> EndsAmong(events) == (if Ends(events[0]) then 1 else 0) + if Ends(events[1]) then 1 else 0
  {
    if |events| == 2 {
      assert events[1..] == [events[1]];
      assert [events[1]][1..] == [];
    }
  }

  lemma {:induction false} EndsAppend(a: seq<Event>, b: seq<Event>)
    ensures EndsAmong(a + b) == EndsAmong(a) + EndsAmong(b)
    decreases |a|
  {
    if a == [] {
      assert a + b == b;
    } else {
      assert (a + b)[1..] == a[1..] + b;
      EndsAppend(a[1..], b);
    }
  }

  /**
   In every run of a client, with any requests and any answers in any order: every request that the library has taken on
   has ended with exactly one event that says so, or was dropped, or is the one that is still outstanding.
   */
  lemma {:induction false} RequestsAreAccountedFor(remote: Remote, own: nat, hs: seq<Happening>)
    requires RemoteOk(remote) && AllProper(hs)
    ensures var s := RunOf(remote, own, hs);
            && RemoteOk(s.remote)
            && Open(remote) + CountTaken(remote, own, hs)
               == Open(s.remote) + EndsAmong(s.events) + CountDropped(remote, own, hs)
    decreases |hs|
  {
    hide Happen;
    hide TakenOn;
    hide Dropped;
    hide RemoteOk;
    if hs != [] {
      var first := Happen(remote, own, hs[0]);
      HappeningCounts(remote, own, hs[0]);
      RequestsAreAccountedFor(first.remote, own, hs[1..]);
      EndsAppend(first.events, RunOf(first.remote, own, hs[1..]).events);
    }
  }

  /** Nobody cancels, or asks for information, which would take the place of what is outstanding. */
  predicate Undisturbed(hs: seq<Happening>)
  {
    forall i :: 0 <= i < |hs| ==> !hs[i].Cancelling? && (hs[i].Asking? ==> !hs[i].r.InfoRequest?)
  }

  lemma {:induction false} StaysOutstanding(remote: Remote, own: nat, hs: seq<Happening>)
    requires RemoteOk(remote) && remote.alias != 0 && AllProper(hs) && Undisturbed(hs)
    requires EndsAmong(RunOf(remote, own, hs).events) == 0
    ensures RunOf(remote, own, hs).remote == remote
    decreases |hs|
  {
    if hs != [] {
      var first := Happen(remote, own, hs[0]);
      assert Proper(hs[0]) && !hs[0].Cancelling? && (hs[0].Asking? ==> !hs[0].r.InfoRequest?);
      EndsAppend(first.events, RunOf(first.remote, own, hs[1..]).events);
      EndsOfOne(first.events);
      hide EncodeRequest;
      hide DecodeReply;
      assert first.remote == remote;
      StaysOutstanding(remote, own, hs[1..]);
    }
  }

  /**
   What an acceptance means to a request that was taken on before, after anything that has not ended it: with no reply
   pending it ends a write, which is reported with the space and the address that it was made with; it always ends an
   Update Complete; and otherwise the request stays outstanding.
   */
  lemma AcceptanceEndsAsAsked(remote: Remote, rx: Rx, own: nat, dest: nat, r: Request, room: nat, hs: seq<Happening>,
                              flags: Byte)
    requires RemoteOk(remote) && RequestOk(r) && dest != 0 && AllProper(hs) && Undisturbed(hs)
    requires Ask(remote, rx, own, dest, r, room).outcome.Submitted?
    requires EndsAmong(RunOf(Ask(remote, rx, own, dest, r, room).remote, own, hs).events) == 0
    ensures var h := OnOk(RunOf(Ask(remote, rx, own, dest, r, room).remote, own, hs).remote, dest, flags);
            && h.events == [Accepted(dest, flags)]
                           + (match r
                              case WriteRequest(space, address, _) =>
                                if flags / 0x80 % 2 == 0 then [Answered(dest, WriteOk(space, address))] else []
                              case UpdateComplete => [Updated(dest)]
                              case _ => [])
            && h.remote.alias == if |h.events| == 2 then 0 else dest
  {
    hide EncodeRequest;
    hide Transmit;
    StaysOutstanding(Ask(remote, rx, own, dest, r, room).remote, own, hs);
    hide RunOf;
  }

  // ---------------------------------------------------------------- a full bus

  /**
   What becomes of a request, by the room on the bus.  The caller is told that all is well if there was room for one
   frame, but the request itself goes out only if there was room for all of its frames.  In any case it is
   outstanding, and every later request but one for information is refused, whatever room there is then.
   */
  lemma OutcomeExactly(remote: Remote, rx: Rx, source: nat, dest: nat, r: Request, room: nat,
                       next: Request, other: nat, moreRoom: nat)
    requires RequestOk(r) && RequestOk(next) && dest != 0 && remote.alias == 0 && !rx.handling
    ensures var a := Ask(remote, rx, source, dest, r, room);
            var frames := Frames(source, dest, EncodeRequest(r));
            && (a.outcome == Submitted(Ok) <==> room > 0)
            && (a.sent == frames <==> |frames| <= room)
            && (a.outcome == Submitted(Ok) && a.sent != frames <==> 0 < room < |frames|)
            && (room == 0 ==> a.sent == [])
            && (0 < room < |frames| ==> a.sent == [RejectedFrame(source, dest, 0x2020)])
            && (!next.InfoRequest? ==> Ask(a.remote, a.rx, source, other, next, moreRoom).outcome == TransferInProgress)
  {
    FrameCount(source, dest, EncodeRequest(r));
  }

  /** Such a request: 64 bytes to be written, and room for three frames.  The caller is told that it was sent. */
  lemma WriteIsLostThoughOk(remote: Remote, rx: Rx, source: nat, dest: nat, space: Byte, address: nat, data: seq<Byte>)
    requires remote.alias == 0 && !rx.handling && address < WORD_LIMIT && |data| == 64
    ensures var a := Ask(remote, rx, source, dest, WriteRequest(space, address, data), 3);
            a.outcome == Submitted(Ok) && a.remote.alias == dest
            && a.sent == [RejectedFrame(source, dest, 0x2020)]
  {
    FrameCount(source, dest, EncodeRequest(WriteRequest(space, address, data)));
  }

  // ---------------------------------------------------------------- struct lcc_remote_memory_context

  class RemoteMemoryContext {
    const datagram: DatagramContext
    var alias: nat
    var isWrite: bool
    var isUpdate: bool
    var writeSpace: Byte
    var writeAddress: nat

    ghost predicate Valid()
      reads this, datagram
    {
      datagram.Valid()
    }

    ghost function State(): Remote
      reads this
    {
      Remote(alias, isWrite, isUpdate, writeSpace, writeAddress)
    }

    constructor (datagram: DatagramContext)
      requires datagram.Valid()
      ensures Valid() && this.datagram == datagram && State() == Remote(0, false, false, 0, 0)
    {
      this.datagram := datagram;
      alias, isWrite, isUpdate, writeSpace, writeAddress := 0, false, false, 0, 0;
    }

    method ReadSingleTransfer(source: nat, dest: nat, space: Byte, address: nat, count: int, room: nat)
      returns (outcome: Outcome, sent: seq<Frame>)
      requires Valid() && address < WORD_LIMIT
      modifies this, datagram`offset, datagram.buffer
      ensures Valid()
      ensures 0 <= count <= BLOCK ==>
                Asked(outcome, State(), datagram.State(), sent)
                == Ask(old(State()), old(datagram.State()), source, dest, ReadRequest(space, address, count), room)
      ensures !(0 <= count <= BLOCK) ==>
                State() == old(State()) && datagram.State() == old(datagram.State()) && sent == []
                && outcome == if alias != 0 then TransferInProgress
                              else if datagram.handling then DatagramInProgress else InvalidRequest
    {
      sent := [];
      if alias != 0 {
        return TransferInProgress, sent;
      }
      if datagram.handling {
        return DatagramInProgress, sent;
      }
      if count > BLOCK || count < 0 {
        return InvalidRequest, sent;
      }
      alias, isWrite, isUpdate := dest, false, false;
      datagram.Clear();
      var data := ReadRequestData(space, address, count);
      var status;
      status, sent := LoadAndSend(source, dest, data, room);
      outcome := Submitted(status);
    }

    method WriteSingleTransfer(source: nat, dest: nat, space: Byte, address: nat, bytes: seq<Byte>, room: nat)
      returns (outcome: Outcome, sent: seq<Frame>)
      requires Valid() && address < WORD_LIMIT
      modifies this
      ensures Valid()
      ensures 0 < |bytes| <= BLOCK ==>
                Asked(outcome, State(), datagram.State(), sent)
                == Ask(old(State()), old(datagram.State()), source, dest, WriteRequest(space, address, bytes), room)
      ensures !(0 < |bytes| <= BLOCK) ==> State() == old(State()) && sent == [] && outcome == InvalidRequest
    {
      sent := [];
      if |bytes| < 1 || |bytes| > BLOCK {
        return InvalidRequest, sent;
      }
      if alias != 0 {
        return TransferInProgress, sent;
      }
      if datagram.handling {
        return DatagramInProgress, sent;
      }
      var data := WriteRequestData(space, address, bytes);
      alias, isWrite, isUpdate := dest, true, false;
      writeSpace, writeAddress := space, address;
      var status;
      status, sent := LoadAndSend(source, dest, data, room);
      outcome := Submitted(status);
    }

    method SendUpdateComplete(source: nat, dest: nat, room: nat) returns (outcome: Outcome, sent: seq<Frame>)
      requires Valid()
      modifies this
      ensures Valid()
      ensures Asked(outcome, State(), datagram.State(), sent)
              == Ask(old(State()), old(datagram.State()), source, dest, UpdateComplete, room)
    {
      sent := [];
      if alias != 0 {
        return TransferInProgress, sent;
      }
      if datagram.handling {
        return DatagramInProgress, sent;
      }
      alias, isWrite, isUpdate := dest, false, true;
      var status;
      status, sent := LoadAndSend(source, dest, [0x20, 0xA8], room);
      outcome := Submitted(status);
    }

    method GetAddressSpaceInformation(source: nat, dest: nat, space: Byte, room: nat)
      returns (outcome: Outcome, sent: seq<Frame>)
      requires Valid()
      modifies this
      ensures Valid()
      ensures Asked(outcome, State(), datagram.State(), sent)
              == Ask(old(State()), old(datagram.State()), source, dest, InfoRequest(space), room)
    {
      alias, isWrite, isUpdate := dest, false, false;
      var status;
      status, sent := LoadAndSend(source, dest, [0x20, 0x84, space], room);
      outcome := Submitted(status);
    }

    /** The commands one by one, as they are told apart in the library. */
    method TryHandleDatagram(source: nat, buffer: seq<Byte>, len: nat) returns (handled: bool, events: seq<Event>)
      requires Valid() && Filled(buffer, len)
      modifies this
      ensures Valid()
      ensures Heard(handled, State(), events) == OnDatagram(old(State()), source, buffer, len)
    {
      hide WordAt;
      handled, events := false, [];
      if len < 2 || buffer[0] != 0x20 || source != alias {
        return;
      }
      var space: Byte, isFailure, isWriteReply, isInfo, start := 0, false, false, false, 6;
      var command := buffer[1];
      if command == 0x50 {
        space, start := buffer[6], 7;
      } else if 0x51 <= command <= 0x53 {
        space := 0xFD + (command - 0x51);
      } else if command == 0x58 {
        space, start, isFailure := buffer[6], 7, true;
      } else if 0x59 <= command <= 0x5B {
        space, isFailure := 0xFD + (command - 0x59), true;
      } else if command == 0x10 {
        space, isWriteReply := buffer[6], true;
      } else if 0x11 <= command <= 0x13 {
        space, isWriteReply := 0xFD + (command - 0x11), true;
      } else if command == 0x18 {
        space, start, isFailure, isWriteReply := buffer[6], 7, true, true;
      } else if 0x19 <= command <= 0x1B {
        space, isFailure, isWriteReply := 0xFD + (command - 0x19), true, true;
      } else if command == 0x86 || command == 0x87 {
        isInfo := true;
      } else {
        return;
      }
      alias, isWrite, isUpdate := 0, false, false;
      var address := WordAt(buffer, 2);
      var reply: Reply;
      if isFailure {
        var code, message := 0, [];
        if len >= start + 2 {
          code := Word(buffer[start], buffer[start + 1]);
        }
        if len > start + 2 {
          message := buffer[start + 2..len];
        }
        reply := if isWriteReply then WriteFailed(space, address, code, message)
                 else ReadFailed(space, address, code, message);
      } else if isWriteReply {
        reply := WriteOk(space, address);
      } else if isInfo {
        var low := 0;
        if buffer[7] / 2 % 2 == 1 && len >= 12 {
          low := WordAt(buffer, 8);
        }
        reply := Info(command == 0x87, buffer[2], WordAt(buffer, 3), buffer[7] % 2 == 1, low);
      } else {
        reply := if len < start then ReadCutShort(space, address) else ReadOk(space, address, buffer[start..len]);
      }
      handled, events := true, [Answered(source, reply)];
    }

    method HandleOk(source: nat, flags: Byte) returns (handled: bool, events: seq<Event>)
      requires Valid()
      modifies this
      ensures Valid()
      ensures Heard(handled, State(), events) == OnOk(old(State()), source, flags)
    {
      if source != alias {
        return false, [];
      }
      handled, events := true, [Accepted(source, flags)];
      if isWrite && flags / REPLY_PENDING % 2 == 0 {
        alias, isWrite := 0, false;
        events := events + [Answered(source, WriteOk(writeSpace, writeAddress))];
      } else if isUpdate {
        alias, isUpdate := 0, false;
        events := events + [Updated(source)];
      }
    }

    method HandleRejected(source: nat, code: nat) returns (handled: bool, events: seq<Event>)
      requires Valid()
      modifies this
      ensures Valid()
      ensures Heard(handled, State(), events) == OnRejected(old(State()), source, code)
    {
      if source != alias {
        return false, [];
      }
      alias, isWrite, isUpdate := 0, false, false;
      handled, events := true, [Rejected(source, code)];
    }

    method CancelRequest()
      modifies this`alias, this`isWrite, this`isUpdate
      ensures State() == Idling(old(State()))
    {
      alias, isWrite, isUpdate := 0, false, false;
    }
  }
}
