/**
 The memory of a node as other nodes see it (LCC/lcc-memory.c): what is done with a datagram that arrives, and
 what is sent in return.  Spaces live in a memory map, except for the CDI, which is generated.
 */
module MemoryServer {
  import opened Basics
  import opened CanId
  import opened Datagram
  import opened MemoryMap
  import opened MemoryProtocol
  import opened CdiText

  /** The CDI must have a length that the generator can count. */
  const TEXT_LIMIT := 0x8000_0000

  datatype Outgoing = SendOk(flags: Byte) | SendDatagram(data: seq<Byte>)

  datatype Note =
    | UpdateDone
    | Rebooted
    | FactoryReset
    | MemoryWritten(space: Byte, address: nat, len: nat)
    | AccessOutside

  datatype Server = Server(nodeId: nat, cdi: seq<Byte>, store: Store)

  predicate ServerOk(s: Server)
  {
    |s.cdi| < TEXT_LIMIT
  }

  datatype Served = Served(handled: bool, sent: seq<Outgoing>, notes: seq<Note>, store: Store)

  // ---------------------------------------------------------------- commands

  datatype Command =
    | DoUpdate
    | DoReboot
    | DoReset(nodeId: nat)
    | DoInfo(space: Byte)
    | DoCdiRead(address: nat, count: nat)
    | DoRead(space: Byte, address: nat, count: nat)
    | DoWrite(space: Byte, address: nat, data: seq<Byte>, len: int)

  predicate CommandOk(c: Command)
  {
    match c
    case DoCdiRead(address, count) => address < WORD_LIMIT && count <= BLOCK
    case DoRead(_, address, count) => address < WORD_LIMIT && count < 0x100
    case DoWrite(_, address, data, len) => address < WORD_LIMIT && (len >= 0 ==> |data| == len)
    case _ => true
  }

  /** What a datagram asks for.  A read of the CDI goes past the memory map if its length is right. */
  function DecodeCommand(buffer: seq<Byte>, len: nat): (c: Option<Command>)
    requires Filled(buffer, len)
    ensures c.Some? ==> CommandOk(c.value)
  {
    if len < 2 || buffer[0] != 0x20 then None
    else if buffer[1] == 0xA8 then Some(DoUpdate)
    else if buffer[1] == 0xA9 then Some(DoReboot)
    else if buffer[1] == 0xAA then if len < 8 then None else Some(DoReset(NodeIdAt(buffer, 2)))
    else if buffer[1] == 0x84 then Some(DoInfo(buffer[2]))
    else
      var space, address, start := SpaceOf(buffer), WordAt(buffer, 2), BodyStart(buffer);
      if buffer[1] / 4 == 0x10 then
        var count := buffer[start];
        if space == SPACE_CDI && 7 <= len <= 8 then Some(DoCdiRead(address, if count > BLOCK then BLOCK else count))
        else Some(DoRead(space, address, count))
      else if buffer[1] / 4 == 0 then
        Some(DoWrite(space, address, if len < start then [] else buffer[start..len], len - start))
      else None
  }

  /** Which datagrams are commands, and of which kind. */
  lemma CommandsExactly(buffer: seq<Byte>, len: nat)
    requires Filled(buffer, len)
    ensures var c := DecodeCommand(buffer, len);
            var own := len >= 2 && buffer[0] == 0x20;
            var isRead := own && 0x40 <= buffer[1] <= 0x43;
            var ofCdi := (buffer[1] == 0x43 || (buffer[1] == 0x40 && buffer[6] == 0xFF)) && 7 <= len <= 8;
            && (c == Some(DoUpdate) <==> own && buffer[1] == 0xA8)
            && (c == Some(DoReboot) <==> own && buffer[1] == 0xA9)
            && (c.Some? && c.value.DoReset? <==> own && buffer[1] == 0xAA && len >= 8)
            && (c.Some? && c.value.DoInfo? <==> own && buffer[1] == 0x84)
            && (c.Some? && c.value.DoCdiRead? <==> isRead && ofCdi)
            && (c.Some? && c.value.DoRead? <==> isRead && !ofCdi)
            && (c.Some? && c.value.DoWrite? <==> own && buffer[1] <= 0x03)
  {
    hide WordAt;
    hide NodeIdAt;
    hide BodyStart;
  }

  /** A read of the CDI gives at most 64 bytes, however many are asked for. */
  lemma CdiReadIsCut(buffer: seq<Byte>, len: nat)
    requires Filled(buffer, len)
    ensures var c := DecodeCommand(buffer, len);
            c.Some? && c.value.DoCdiRead? ==>
              var count := if buffer[1] == 0x43 then buffer[6] else buffer[7];
              c.value.count == if count < 64 then count else 64
  {
    hide WordAt;
    hide NodeIdAt;
  }

  function CommandFor(r: Request): (c: Command)
    requires RequestOk(r)
    ensures CommandOk(c)
  {
    match r
    case ReadRequest(space, address, count) =>
      if space == SPACE_CDI then DoCdiRead(address, count) else DoRead(space, address, count)
    case WriteRequest(space, address, data) => DoWrite(space, address, data, |data|)
    case InfoRequest(space) => DoInfo(space)
    case UpdateComplete => DoUpdate
  }

  /** A node understands every request that a client can send, whatever its buffer held before. */
  lemma RequestReadBack(r: Request, buffer: seq<Byte>, len: nat)
    requires RequestOk(r) && Filled(buffer, len) && buffer[..len] == EncodeRequest(r)
    ensures DecodeCommand(buffer, len) == Some(CommandFor(r))
  {
    match r
    case ReadRequest(space, address, count) =>
      HeaderReadBack(0x40, space, address, [count], buffer, len);
      assert buffer[BodyStart(buffer) + 0] == [count][0];
    case WriteRequest(space, address, data) =>
      HeaderReadBack(0x00, space, address, data, buffer, len);
    case InfoRequest(space) =>
      assert forall i :: 0 <= i < len ==> buffer[i] == buffer[..len][i];
    case UpdateComplete =>
      assert forall i :: 0 <= i < len ==> buffer[i] == buffer[..len][i];
  }

  // ---------------------------------------------------------------- what is done

  lemma ReadLengths(store: Store, space: Byte, address: nat, count: nat)
    ensures var r := ReadAccess(store, space, address, count); r.access.Done? ==> |r.data| == count
  {
  }

  function ReadAnswer(store: Store, space: Byte, address: nat, count: nat): (seq<Outgoing>, seq<Note>)
    requires address < WORD_LIMIT
  {
    var r := ReadAccess(store, space, address, count);
    match r.access
    case Missing => ([SendDatagram(EncodeReply(ReadFailed(space, address, NOT_IMPLEMENTED, [])))], [])
    case Refused => ([SendDatagram(EncodeReply(ReadFailed(space, address, INVALID_ARG, [])))], [])
    case Outside => ([], [AccessOutside])
    case Done =>
      if count > BLOCK then ([], [])
      else
        ReadLengths(store, space, address, count);
        ([SendDatagram(EncodeReply(ReadOk(space, address, r.data)))], [])
  }

  function WriteAnswer(access: Access, space: Byte, address: nat, len: int): (seq<Outgoing>, seq<Note>)
    requires address < WORD_LIMIT && (access.Done? ==> len >= 0)
  {
    match access
    case Missing => ([SendDatagram(EncodeReply(WriteFailed(space, address, NOT_IMPLEMENTED, [])))], [])
    case Refused => ([SendDatagram(EncodeReply(WriteFailed(space, address, INVALID_ARG, [])))], [])
    case Outside => ([], [AccessOutside])
    case Done => ([SendDatagram(EncodeReply(WriteOk(space, address)))], [MemoryWritten(space, address, len)])
  }

  lemma DoneIsForward(store: Store, space: Byte, address: nat, data: seq<Byte>, len: int)
    requires len >= 0 ==> |data| == len
    requires WriteAccess(store, space, address, data, len).access.Done?
    ensures len >= 0
  {
  }

  function InfoAnswer(store: Store, space: Byte): (r: Reply)
    ensures ReplyOk(r)
  {
    var found := Find(store, space);
    if found.None? then Info(false, space, 0, false, 0)
    else
      var s := store[found.value];
      Info(true, space, s.high, s.readOnly, s.low)
  }

  /** The answer tells exactly which bytes there are, and whether they may be written. */
  ghost predicate InfoExactly(reply: Reply, store: Store, space: Byte)
  {
    && reply.Info? && ReplyOk(reply) && reply.space == space
    && (reply.present <==> HasSpace(store, space))
    && (if reply.present then
          && (reply.readOnly <==> !Writable(store, space))
          && forall at: nat :: ByteAt(store, space, at).Some? <==> reply.low <= at <= reply.high
        else reply.low == reply.high == 0 && !reply.readOnly)
  }

  lemma InfoAnswerIsExact(store: Store, space: Byte)
    ensures InfoExactly(InfoAnswer(store, space), store, space)
  {
    hide Find;
    BytesOfSpace(store, space);
  }

  /** So whoever has the answer knows which reads and which writes will be accepted. */
  lemma InfoTellsAccess(reply: Reply, store: Store, space: Byte, address: nat, data: seq<Byte>)
    requires InfoExactly(reply, store, space) && Low(store, address, |data|) && data != []
    ensures ReadAccess(store, space, address, |data|).access.Done?
            <==> reply.present && reply.low <= address && address + |data| - 1 <= reply.high
    ensures WriteAccess(store, space, address, data, |data|).access.Done?
            <==> reply.present && !reply.readOnly && reply.low <= address && address + |data| - 1 <= reply.high
  {
    hide Find;
    hide ByteAt;
    hide ReadAccess;
    hide WriteAccess;
    ReadDoneExactly(store, space, address, |data|);
    WriteDoneExactly(store, space, address, data);
    assert ByteAt(store, space, address + 0).Some? <==> reply.present && reply.low <= address <= reply.high;
    assert ByteAt(store, space, address + (|data| - 1)).Some?
           <==> reply.present && reply.low <= address + |data| - 1 <= reply.high;
    BytesOfSpace(store, space);
  }

  /**
   An information request for a space of the map is answered, but then reported as not handled, and so are a
   reboot and a factory reset.
   */
  function Perform(server: Server, c: Command): (r: Served)
    requires ServerOk(server) && CommandOk(c)
  {
    var store := server.store;
    match c
    case DoUpdate => Served(true, [SendOk(0)], [UpdateDone], store)
    case DoReboot => Served(false, [], [Rebooted], store)
    case DoReset(nodeId) => Served(false, [], if nodeId == server.nodeId then [FactoryReset] else [], store)
    case DoInfo(space) =>
      if space == SPACE_CDI then
        var info := Info(true, SPACE_CDI, |server.cdi|, false, 0);
        Served(true, [SendOk(REPLY_PENDING), SendDatagram(EncodeReply(info))], [], store)
      else Served(false, [SendDatagram(EncodeReply(InfoAnswer(store, space)))], [], store)
    case DoCdiRead(address, count) =>
      var data := CdiBytes(server.cdi, address, count);
      Served(true, [SendOk(REPLY_PENDING), SendDatagram(EncodeReply(ReadOk(SPACE_CDI, address, data)))], [], store)
    case DoRead(space, address, count) =>
      var (sent, notes) := ReadAnswer(store, space, address, count);
      Served(true, [SendOk(REPLY_PENDING)] + sent, notes, store)
    case DoWrite(space, address, data, len) =>
      var r := WriteAccess(store, space, address, data, len);
      var (sent, notes) := WriteAnswer(r.access, space, address, len);
      Served(true, [SendOk(REPLY_PENDING)] + sent, notes, r.store)
  }

  function Serve(server: Server, buffer: seq<Byte>, len: nat): (r: Served)
    requires ServerOk(server) && Filled(buffer, len)
  {
    var c := DecodeCommand(buffer, len);
    if c.Some? then Perform(server, c.value) else Served(false, [], [], server.store)
  }

  /** An access that passes the check without lying inside the segment is marked, and nothing is answered or changed. */
  lemma OutsideIsMarked(server: Server, space: Byte, address: nat, data: seq<Byte>, count: nat)
    requires ServerOk(server) && address < WORD_LIMIT && count < 0x100
    ensures ReadAccess(server.store, space, address, count).access.Outside? ==>
              Perform(server, DoRead(space, address, count))
              == Served(true, [SendOk(0x80)], [AccessOutside], server.store)
    ensures WriteAccess(server.store, space, address, data, |data|).access.Outside? ==>
              Perform(server, DoWrite(space, address, data, |data|))
              == Served(true, [SendOk(0x80)], [AccessOutside], server.store)
  {
    hide Find;
    hide MemoryMap.Passes;
    hide EncodeReply;
  }

  /** What a node takes for itself: updates, reads and writes, and questions about the CDI but not other spaces. */
  lemma HandledExactly(server: Server, buffer: seq<Byte>, len: nat)
    requires ServerOk(server) && Filled(buffer, len)
    ensures Serve(server, buffer, len).handled <==>
              && len >= 2 && buffer[0] == 0x20
              && (buffer[1] == 0xA8 || (buffer[1] == 0x84 && buffer[2] == 0xFF) || 0x40 <= buffer[1] <= 0x43
                  || buffer[1] <= 0x03)
    ensures !Serve(server, buffer, len).handled && !(len >= 2 && buffer[0] == 0x20 && buffer[1] == 0x84) ==>
              Serve(server, buffer, len).sent == []
  {
    hide WriteAccess;
    hide ReadAccess;
    hide CdiBytes;
    hide EncodeReply;
    hide WordAt;
    CommandsExactly(buffer, len);
  }

  /** A node is restarted and reset by exactly these datagrams; they are not answered, and change no memory. */
  lemma RestartsExactly(server: Server, buffer: seq<Byte>, len: nat)
    requires ServerOk(server) && Filled(buffer, len)
    ensures var s := Serve(server, buffer, len);
            && (Rebooted in s.notes <==> len >= 2 && buffer[0] == 0x20 && buffer[1] == 0xA9)
            && (FactoryReset in s.notes <==>
                  && len >= 8 && buffer[0] == 0x20 && buffer[1] == 0xAA
                  && server.nodeId == buffer[2] as int * 0x100_0000_0000 + buffer[3] as int * 0x1_0000_0000
                                      + buffer[4] as int * 0x100_0000 + buffer[5] as int * 0x1_0000
                                      + buffer[6] as int * 0x100 + buffer[7] as int)
            && (Rebooted in s.notes ==> s == Served(false, [], [Rebooted], server.store))
            && (FactoryReset in s.notes ==> s == Served(false, [], [FactoryReset], server.store))
  {
    hide WriteAccess;
    hide ReadAccess;
    hide CdiBytes;
    hide EncodeReply;
    hide WordAt;
  }

  // ---------------------------------------------------------------- struct lcc_memory_context

  class MemoryContext {
    const nodeId: nat
    const memory: Map
    var cdi: seq<seq<Byte>>

    ghost predicate Valid()
      reads this
    {
      memory.Valid() && |Concat(cdi)| < TEXT_LIMIT
    }

    ghost function State(): (s: Server)
      requires Valid()
      reads this, memory.memory
      ensures ServerOk(s)
    {
      Server(nodeId, Concat(cdi), memory.Contents())
    }

    constructor (nodeId: nat, memory: Map, cdi: seq<seq<Byte>>)
      requires memory.Valid() && |Concat(cdi)| < TEXT_LIMIT
      ensures Valid() && State() == Server(nodeId, Concat(cdi), memory.Contents())
    {
      this.nodeId, this.memory, this.cdi := nodeId, memory, cdi;
    }

    /** Up to two generated pieces; the offset of a piece is passed as a signed number. */
    method CdiRead(address: nat, count: nat) returns (data: seq<Byte>)
      requires Valid() && address < WORD_LIMIT && count <= BLOCK
      ensures data == CdiBytes(Concat(cdi), address, count)
    {
      var start := address - address % PIECE;
      var offset := address - start;
      var first, second := [], Zeros();
      first := CdiPiece(start);
      if offset + count > PIECE {
        second := CdiPiece((start + PIECE) % WORD_LIMIT);
      }
      data := (first + second)[offset..offset + count];
      if offset + count <= PIECE {
        assert data == first[offset..offset + count];
        assert CdiBytes(Concat(cdi), address, count) == first[offset..offset + count];
      }
    }

    method CdiPiece(start: nat) returns (data: seq<Byte>)
      requires Valid() && start < WORD_LIMIT && start % PIECE == 0
      ensures data == Piece(Concat(cdi), start)
    {
      var signed := if start < TEXT_LIMIT then start else start - WORD_LIMIT;
      var ok;
      ok, data := ToXmlAtOffset(cdi, signed);
      if start >= TEXT_LIMIT {
        assert Piece(Concat(cdi), start) == Zeros();
      }
    }

    method RespondRead(space: Byte, address: nat, count: nat) returns (sent: seq<Outgoing>, notes: seq<Note>)
      requires Valid() && address < WORD_LIMIT && count < 0x100
      ensures (sent, notes) == ReadAnswer(memory.Contents(), space, address, count)
    {
      ReadLengths(memory.Contents(), space, address, count);
      sent, notes := [], [];
      var access, data := memory.ReadSegment(space, address, count);
      if access.Missing? || access.Refused? {
        var code := if access.Missing? then NOT_IMPLEMENTED else INVALID_ARG;
        var reply := FailureData(0x58, space, address, code, []);
        sent := [SendDatagram(reply)];
      } else if access.Outside? {
        notes := [AccessOutside];
      } else if count <= BLOCK {
        var reply := ReadReplyData(space, address, data);
        sent := [SendDatagram(reply)];
      }
    }

    method RespondWrite(space: Byte, address: nat, data: seq<Byte>, len: int)
      returns (sent: seq<Outgoing>, notes: seq<Note>)
      requires Valid() && address < WORD_LIMIT && (len >= 0 ==> |data| == len)
      modifies memory.memory
      ensures var r := WriteAccess(old(memory.Contents()), space, address, data, len);
              && (r.access.Done? ==> len >= 0) && memory.Contents() == r.store
              && (sent, notes) == WriteAnswer(r.access, space, address, len)
    {
      sent, notes := [], [];
      if WriteAccess(memory.Contents(), space, address, data, len).access.Done? {
        DoneIsForward(memory.Contents(), space, address, data, len);
      }
      var access := memory.WriteSegment(space, address, data, len);
      if access.Missing? || access.Refused? {
        var code := if access.Missing? then NOT_IMPLEMENTED else INVALID_ARG;
        var reply := FailureData(0x18, space, address, code, []);
        sent := [SendDatagram(reply)];
      } else if access.Outside? {
        notes := [AccessOutside];
      } else {
        var reply := WriteReplyData(space, address);
        sent, notes := [SendDatagram(reply)], [MemoryWritten(space, address, len)];
      }
    }

    method RespondInfo(space: Byte) returns (sent: seq<Outgoing>)
      requires Valid()
      ensures sent == [SendDatagram(EncodeReply(InfoAnswer(memory.Contents(), space)))]
    {
      var found := memory.FindSegment(space);
      var reply;
      if found.None? {
        reply := InfoReplyData(false, space, 0, false, 0);
      } else {
        var r := memory.ranges[found.value];
        reply := InfoReplyData(true, space, r.high, r.readOnly, r.low);
      }
      sent := [SendDatagram(reply)];
    }

    method RespondCdi(buffer: seq<Byte>, len: nat) returns (sent: seq<Outgoing>)
      requires Valid() && Filled(buffer, len) && buffer[0] == 0x20
      requires 7 <= len <= 8 && (buffer[1] == 0x43 || (buffer[1] == 0x40 && buffer[6] == SPACE_CDI))
      ensures Served(true, sent, [], State().store) == Serve(State(), buffer, len)
    {
      hide CdiBytes;
      hide EncodeReply;
      hide WordAt;
      var wanted := if buffer[1] == 0x43 then buffer[6] else buffer[7];
      var address, count := WordAt(buffer, 2), if wanted > BLOCK then BLOCK else wanted;
      var data := CdiRead(address, count);
      var reply := ReadReplyData(SPACE_CDI, address, data);
      sent := [SendOk(REPLY_PENDING), SendDatagram(reply)];
    }

    method TryHandleDatagram(buffer: seq<Byte>, len: nat)
      returns (handled: bool, sent: seq<Outgoing>, notes: seq<Note>)
      requires Valid() && Filled(buffer, len)
      modifies memory.memory
      ensures Valid() && cdi == old(cdi)
      ensures Served(handled, sent, notes, State().store) == Serve(old(State()), buffer, len)
    {
      hide ReadAnswer;
      hide WriteAnswer;
      hide WriteAccess;
      hide CdiBytes;
      hide EncodeReply;
      hide Find;
      hide WordAt;
      handled, sent, notes := false, [], [];
      if len < 2 || buffer[0] != 0x20 {
        return;
      }
      if buffer[1] == 0xA8 {
        return true, [SendOk(0)], [UpdateDone];
      } else if buffer[1] == 0xA9 {
        return false, [], [Rebooted];
      } else if buffer[1] == 0xAA {
        if len >= 8 && nodeId == NodeIdAt(buffer, 2) {
          notes := [FactoryReset];
        }
        return;
      } else if buffer[1] == 0x84 && buffer[2] == SPACE_CDI {
        var length := XmlLength(cdi);
        var reply := InfoReplyData(true, SPACE_CDI, length, false, 0);
        return true, [SendOk(REPLY_PENDING), SendDatagram(reply)], [];
      } else if buffer[1] == 0x84 {
        sent := RespondInfo(buffer[2]);
        return;
      }

      if 7 <= len <= 8 && (buffer[1] == 0x43 || (buffer[1] == 0x40 && buffer[6] == SPACE_CDI)) {
        sent := RespondCdi(buffer, len);
        return true, sent, [];
      }

      handled, sent, notes := ReadOrWrite(buffer, len);
    }

    /** The rest of it, for the spaces of the memory memory. */
    method ReadOrWrite(buffer: seq<Byte>, len: nat) returns (handled: bool, sent: seq<Outgoing>, notes: seq<Note>)
      requires Valid() && Filled(buffer, len) && len >= 2 && buffer[0] == 0x20
      requires buffer[1] != 0x84 && !(0xA8 <= buffer[1] <= 0xAA)
      requires !(7 <= len <= 8 && (buffer[1] == 0x43 || (buffer[1] == 0x40 && buffer[6] == SPACE_CDI)))
      modifies memory.memory
      ensures Valid() && cdi == old(cdi)
      ensures Served(handled, sent, notes, State().store) == Serve(old(State()), buffer, len)
    {
      hide ReadAnswer;
      hide WriteAnswer;
      hide WriteAccess;
      handled, sent, notes := false, [], [];
      var space: Byte, isRead, offset := 0, false, 6;
      var address, count := WordAt(buffer, 2), buffer[6];
      if buffer[1] == 0x43 {
        space, isRead := SPACE_CDI, true;
      } else if buffer[1] == 0x42 {
        space, isRead := SPACE_ALL, true;
      } else if buffer[1] == 0x41 {
        space, isRead := SPACE_CONFIG, true;
      } else if buffer[1] == 0x40 {
        space, isRead, count, offset := buffer[6], true, buffer[7], 7;
      } else if buffer[1] == 0x01 {
        space := SPACE_CONFIG;
      } else if buffer[1] == 0x02 {
        space := SPACE_ALL;
      } else if buffer[1] == 0x03 {
        space := SPACE_CDI;
      } else if buffer[1] == 0x00 {
        space, offset := buffer[6], 7;
      } else {
        return;
      }
      assert space == SpaceOf(buffer) && offset == BodyStart(buffer);
      if isRead {
        sent, notes := RespondRead(space, address, count);
      } else {
        var data := if len < offset then [] else buffer[offset..len];
        sent, notes := RespondWrite(space, address, data, len - offset);
      }
      handled, sent := true, [SendOk(REPLY_PENDING)] + sent;
    }
  }
}
