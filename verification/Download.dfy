/**
 Reading a whole memory space of another node over the bus: the size is asked for, then block after block, until
 the mirror of the space is complete (GUI/lcc/segmentmemory.cpp over LCC/lcc-remote-memory.c).  The CDI is read
 in the same way, and ends at its first zero byte (GUI/lcc/lccnode.cpp).
 */
module Download {
  import opened Basics
  import opened CanId
  import opened MemoryMap
  import opened MemoryProtocol
  import opened MemoryServer
  import opened RemoteMemory
  import opened CdiText
  import opened Node
  import opened EndToEnd
  import M = SegmentMirror

  // ---------------------------------------------------------------- block after block

  /** The first answer among what happens at a client. */
  function AnswerIn(events: seq<NodeEvent>): Option<Reply>
  {
    if events == [] then None
    else if events[0].OfClient? && events[0].event.Answered? then Some(events[0].event.reply)
    else AnswerIn(events[1..])
  }

  /** What the mirror is told of a conversation. */
  function BlockOf(events: seq<NodeEvent>): M.BlockReply
  {
    match AnswerIn(events)
    case Some(ReadOk(space, address, data)) => M.BlockReply(false, 0, space, data)
    case Some(ReadFailed(space, address, code, message)) => M.BlockReply(true, code, space, [])
    case _ => M.BlockReply(true, 0, 0, [])
  }

  function InfoOf(events: seq<NodeEvent>): M.InfoReply
  {
    match AnswerIn(events)
    case Some(Info(present, space, high, readOnly, low)) => M.InfoReply(false, 0, space, present, low, high)
    case _ => M.InfoReply(true, 0, 0, false, 0, 0)
  }

  /** What is told does not depend on what follows the answer. */
  lemma AnswerIsIn(alias: nat, reply: Reply, more: seq<NodeEvent>)
    ensures AnswerIn(AcceptedThen(alias, reply)) == Some(reply)
    ensures AnswerIn([OfClient(Answered(alias, reply))] + more) == Some(reply)
  {
    assert AcceptedThen(alias, reply)[1..] == [OfClient(Answered(alias, reply))];
  }

  datatype Fetched = Fetched(mirror: M.Mirror, client: Node, server: Node)

  /**
   So many more blocks, or until nothing is asked for any more.  What is sent is what the mirror has put out, if it
   is something that the connection takes.
   */
  function Fetch(t: M.Turn, client: Node, server: Node, room: nat, blocks: nat): Fetched
    requires NodeOk(client) && NodeOk(server)
    decreases blocks
  {
    var asked := M.AskedIn(t.out);
    if blocks == 0 || asked == [] || !RequestOk(BlockRequest(t.mirror.space, asked[0])) then
      Fetched(t.mirror, client, server)
    else
      var c := Converse(client, server, BlockRequest(t.mirror.space, asked[0]), room);
      Fetch(M.OnBlock(t.mirror, BlockOf(c.clientEvents), true), c.client, c.server, room, blocks - 1)
  }

  function BlockRequest(space: Byte, asked: M.Asked): Request { ReadRequest(space, asked.address, asked.len) }

  /** From the start: the size of the space first, if the mirror asks for it. */
  function ReadSpace(m: M.Mirror, client: Node, server: Node, room: nat, blocks: nat): Fetched
    requires NodeOk(client) && NodeOk(server)
  {
    var started := M.StartReading(m, true);
    if M.AskInfo !in started.out then Fetched(started.mirror, client, server)
    else
      var c := Converse(client, server, InfoRequest(m.space), room);
      Fetch(M.OnInfo(started.mirror, InfoOf(c.clientEvents), true), c.client, c.server, room, blocks)
  }

  /** Blocks that are still needed. */
  function BlocksLeft(m: M.Mirror): nat
  {
    if m.phase.ReadingMemory? && m.offset < m.length then (m.length - m.offset + BLOCK - 1) / BLOCK else 0
  }

  /** In the middle of a reading, with everything right so far and the next request out. */
  ghost predicate UnderWay(t: M.Turn, memory: M.Memory)
  {
    && (t.mirror.phase.ReadingMemory? || t.mirror.phase.MemoryComplete?)
    && M.SoFar(t.mirror, memory) && M.AsksForNext(t) && t.mirror.low + t.mirror.length <= WORD_LIMIT
  }

  /** A full answer to the next request. */
  lemma FullBlock(t: M.Turn, memory: M.Memory, data: seq<Byte>)
    requires UnderWay(t, memory) && t.mirror.phase.ReadingMemory?
    requires data == M.Slice(memory, M.AskedIn(t.out)[0].address, M.AskedIn(t.out)[0].len)
    ensures var m := t.mirror;
            var n := M.OnBlock(m, M.BlockReply(false, 0, m.space, data), true);
            && UnderWay(n, memory)
            && n.mirror.low == m.low && n.mirror.length == m.length && n.mirror.space == m.space
            && BlocksLeft(n.mirror) < BlocksLeft(m)
  {
    var m := t.mirror;
    M.SliceAppend(memory, m.low, m.offset, |data|);
    M.NextIsAskedFor(m, M.InfoReply(true, 0, 0, true, 0, 0), M.BlockReply(false, 0, m.space, data));
    hide M.AsksForNext;
  }

  // ---------------------------------------------------------------- the CDI

  function TextMemory(text: seq<Byte>): M.Memory
  {
    (a: nat) => if a < |text| then text[a] else 0
  }

  lemma PaddedIsSlice(text: seq<Byte>, address: nat, count: nat)
    ensures ZeroPadded(text, address, count) == M.Slice(TextMemory(text), address, count)
  {
  }

  lemma {:induction false} FetchCdi(t: M.Turn, client: Node, server: Node, room: nat, blocks: nat)
    requires CanTalk(client, server) && room >= ROOM && t.mirror.space == SPACE_CDI
    requires UnderWay(t, TextMemory(server.server.cdi)) && blocks >= BlocksLeft(t.mirror)
    ensures var f := Fetch(t, client, server, room, blocks);
            && f.mirror.phase.MemoryComplete? && M.SoFar(f.mirror, TextMemory(server.server.cdi))
            && f.mirror.low == t.mirror.low && f.mirror.length == t.mirror.length && f.server.server == server.server
    decreases blocks
  {
    hide Converse;
    hide M.OnBlock;
    var m := t.mirror;
    if m.phase.ReadingMemory? {
      var asked := M.AskedIn(t.out)[0];
      var data := ZeroPadded(server.server.cdi, asked.address, asked.len);
      RemoteCdiRead(client, server, asked.address, asked.len, room);
      AnswerIsIn(server.alias, ReadOk(SPACE_CDI, asked.address, data), []);
      PaddedIsSlice(server.server.cdi, asked.address, asked.len);
      FullBlock(t, TextMemory(server.server.cdi), data);
      var c := Converse(client, server, BlockRequest(m.space, asked), room);
      FetchCdi(M.OnBlock(m, BlockOf(c.clientEvents), true), c.client, c.server, room, blocks - 1);
    }
  }

  /** What is given to the XML reader: everything before the first zero byte. */
  function CutAtZero(data: seq<Byte>): seq<Byte>
  {
    if data == [] || data[0] == 0 then [] else [data[0]] + CutAtZero(data[1..])
  }

  lemma {:induction false} CutAfterText(text: seq<Byte>)
    requires 0 !in text
    ensures CutAtZero(text + [0]) == text
    decreases |text|
  {
    if text != [] {
      assert (text + [0])[1..] == text[1..] + [0];
      CutAfterText(text[1..]);
    }
  }

  /** cdiReady: the position of the first zero byte, or the length. */
  method CdiReady(data: seq<Byte>) returns (text: seq<Byte>)
    ensures text == CutAtZero(data)
  {
    var length := 0;
    while length < |data| && data[length] != 0
      invariant length <= |data|
      invariant CutAtZero(data) == data[..length] + CutAtZero(data[length..])
    {
      assert data[length..][1..] == data[length + 1..];
      assert data[..length] + [data[length]] == data[..length + 1];
      length := length + 1;
    }
    text := data[..length];
  }

  /**
   Downloading the CDI of another node gives exactly its text: the reported size, every block, and the end at the
   first zero byte fit together, whatever the length of the text.
   */
  lemma CdiIsDownloaded(m: M.Mirror, client: Node, server: Node, room: nat, blocks: nat)
    requires CanTalk(client, server) && room >= ROOM
    requires M.ReadingOk(m) && m.space == SPACE_CDI && !m.invalid && (m.phase.NotReadYet? || m.phase.MemoryComplete?)
    requires 0 !in server.server.cdi && blocks >= |server.server.cdi| / BLOCK + 1
    ensures var f := ReadSpace(m, client, server, room, blocks);
            && f.mirror.phase.MemoryComplete? && f.mirror.hasData
            && f.mirror.data == server.server.cdi + [0]
            && CutAtZero(f.mirror.data) == server.server.cdi
            && f.server.server == server.server
  {
    hide Converse;
    hide Fetch;
    hide InfoOf;
    hide CutAtZero;
    assert NodeOk(client) && NodeOk(server);
    hide CanTalk;
    var text := server.server.cdi;
    CdiIsInformed(client, server, room);
    var c := Converse(client, server, InfoRequest(SPACE_CDI), room);
    var started := M.StartReading(m, true);
    assert M.AskInfo == started.out[0];
    var informed := M.OnInfo(started.mirror, InfoOf(c.clientEvents), true);
    assert informed.mirror.phase.ReadingMemory? && informed.mirror.length == |text| + 1 && informed.mirror.low == 0;
    M.NextIsAskedFor(started.mirror, InfoOf(c.clientEvents), M.BlockReply(true, 0, 0, []));
    FetchCdi(informed, c.client, c.server, room, blocks);
    assert M.Slice(TextMemory(text), 0, |text| + 1) == text + [0];
    CutAfterText(text);
  }

  lemma CdiIsInformed(client: Node, server: Node, room: nat)
    requires CanTalk(client, server) && room >= ROOM
    ensures var c := Converse(client, server, InfoRequest(SPACE_CDI), room);
            && InfoOf(c.clientEvents) == M.InfoReply(false, 0, SPACE_CDI, true, 0, |server.server.cdi|)
            && CanTalk(c.client, c.server) && c.server.server == server.server
            && |server.server.cdi| + 1 < WORD_LIMIT
  {
    hide Converse;
    RemoteCdiInfo(client, server, room);
    AnswerIsIn(server.alias, Info(true, SPACE_CDI, |server.server.cdi|, false, 0), []);
  }

  // ---------------------------------------------------------------- any other space

  function StoreMemory(s: Segment): M.Memory
    requires SegmentOk(s)
  {
    (a: nat) => if s.low <= a <= s.high then s.memory[a - s.low] else 0
  }

  lemma ReadIsSlice(store: Store, space: Byte, address: nat, count: nat)
    requires Find(store, space).Some?
    requires var s := store[Find(store, space).value];
             s.low <= address && address + count <= s.high + 1 < WORD_LIMIT
    ensures var r := ReadAccess(store, space, address, count);
            r.access.Done? && r.data == M.Slice(StoreMemory(store[Find(store, space).value]), address, count)
  {
    var s := store[Find(store, space).value];
    assert (address + count) % WORD_LIMIT == address + count && (s.high + 1) % WORD_LIMIT == s.high + 1;
  }

  lemma SegmentBlock(client: Node, server: Node, space: Byte, address: nat, count: nat, room: nat)
    requires CanTalk(client, server) && room >= ROOM && space != SPACE_CDI && count <= BLOCK
    requires Find(server.server.store, space).Some?
    requires var s := server.server.store[Find(server.server.store, space).value];
             s.low <= address && address + count <= s.high + 1 < WORD_LIMIT
    ensures var c := Converse(client, server, ReadRequest(space, address, count), room);
            var s := server.server.store[Find(server.server.store, space).value];
            && BlockOf(c.clientEvents) == M.BlockReply(false, 0, space, M.Slice(StoreMemory(s), address, count))
            && CanTalk(c.client, c.server) && c.server.server == server.server
  {
    hide Converse;
    hide Find;
    ReadIsSlice(server.server.store, space, address, count);
    ReadIsAnswered(client, server, space, address, count, room);
    AnswerIsIn(server.alias, ReadReply(server.server.store, space, address, count), []);
  }

  lemma {:induction false} FetchSegment(t: M.Turn, client: Node, server: Node, room: nat, blocks: nat)
    requires CanTalk(client, server) && room >= ROOM && t.mirror.space != SPACE_CDI
    requires Find(server.server.store, t.mirror.space).Some? && blocks >= BlocksLeft(t.mirror)
    requires var s := server.server.store[Find(server.server.store, t.mirror.space).value];
             s.high + 1 < WORD_LIMIT && t.mirror.low == s.low && t.mirror.length == s.high - s.low + 1
             && UnderWay(t, StoreMemory(s))
    ensures var s := server.server.store[Find(server.server.store, t.mirror.space).value];
            var f := Fetch(t, client, server, room, blocks);
            && f.mirror.phase.MemoryComplete? && M.SoFar(f.mirror, StoreMemory(s))
            && f.mirror.low == t.mirror.low && f.mirror.length == t.mirror.length && f.server.server == server.server
    decreases blocks
  {
    hide Converse;
    hide Find;
    hide BlockOf;
    hide M.OnBlock;
    var m := t.mirror;
    if m.phase.ReadingMemory? {
      var s := server.server.store[Find(server.server.store, m.space).value];
      var asked := M.AskedIn(t.out)[0];
      SegmentBlock(client, server, m.space, asked.address, asked.len, room);
      FullBlock(t, StoreMemory(s), M.Slice(StoreMemory(s), asked.address, asked.len));
      var c := Converse(client, server, BlockRequest(m.space, asked), room);
      FetchSegment(M.OnBlock(m, BlockOf(c.clientEvents), true), c.client, c.server, room, blocks - 1);
    }
  }

  /** Reading a whole segment gives exactly the bytes of the segment, and changes nothing in the other node. */
  lemma SegmentIsDownloaded(m: M.Mirror, client: Node, server: Node, room: nat, blocks: nat)
    requires CanTalk(client, server) && room >= ROOM
    requires M.ReadingOk(m) && m.space != SPACE_CDI && !m.invalid && (m.phase.NotReadYet? || m.phase.MemoryComplete?)
    requires Find(server.server.store, m.space).Some?
    requires var s := server.server.store[Find(server.server.store, m.space).value];
             s.high + 1 < WORD_LIMIT && blocks >= |s.memory| / BLOCK + 1
    ensures var s := server.server.store[Find(server.server.store, m.space).value];
            var f := ReadSpace(m, client, server, room, blocks);
            && f.mirror.phase.MemoryComplete? && f.mirror.hasData
            && f.mirror.low == s.low && f.mirror.data == s.memory
            && f.server.server == server.server
  {
    hide Converse;
    hide Fetch;
    hide InfoOf;
    assert NodeOk(client) && NodeOk(server);
    hide CanTalk;
    var s := server.server.store[Find(server.server.store, m.space).value];
    assert |s.memory| == s.high - s.low + 1;
    SegmentIsInformed(client, server, m.space, room);
    hide Find;
    var c := Converse(client, server, InfoRequest(m.space), room);
    var started := M.StartReading(m, true);
    assert M.AskInfo == started.out[0];
    var informed := M.OnInfo(started.mirror, InfoOf(c.clientEvents), true);
    assert informed.mirror.phase.ReadingMemory? && informed.mirror.length == s.high - s.low + 1;
    M.NextIsAskedFor(started.mirror, InfoOf(c.clientEvents), M.BlockReply(true, 0, 0, []));
    FetchSegment(informed, c.client, c.server, room, blocks);
    assert M.Slice(StoreMemory(s), s.low, s.high - s.low + 1) == s.memory;
  }

  lemma SegmentIsInformed(client: Node, server: Node, space: Byte, room: nat)
    requires CanTalk(client, server) && room >= ROOM && space != SPACE_CDI
    requires Find(server.server.store, space).Some?
    ensures var c := Converse(client, server, InfoRequest(space), room);
            var s := server.server.store[Find(server.server.store, space).value];
            && InfoOf(c.clientEvents) == M.InfoReply(false, 0, space, true, s.low, s.high)
            && CanTalk(c.client, c.server) && c.server.server == server.server
  {
    hide Converse;
    hide LateRejection;
    hide CanTalk;
    hide Find;
    CanTalkIsOk(client, server);
    var reply := RemoteInfo(client, server, space, room);
    AnswerIsIn(server.alias, reply, LateRejection(client, server));
    InfoNamesTheEnds(reply, server.server.store, space);
  }

  lemma InfoNamesTheEnds(reply: Reply, store: Store, space: Byte)
    requires InfoExactly(reply, store, space) && Find(store, space).Some?
    ensures var s := store[Find(store, space).value];
            reply.present && reply.space == space && reply.low == s.low && reply.high == s.high
  {
    hide Find;
    var s := store[Find(store, space).value];
    assert ByteAt(store, space, s.low).Some? && ByteAt(store, space, s.high).Some?;
    assert ByteAt(store, space, reply.low).Some? && ByteAt(store, space, reply.high).Some?;
  }

  // ---------------------------------------------------------------- writing a part of it

  predicate BlockOk(b: M.Block) { b.address < WORD_LIMIT && 0 < |b.data| <= BLOCK }

  /** What the mirror is told of a write. */
  predicate WriteAccepted(events: seq<NodeEvent>)
  {
    AnswerIn(events).Some? && AnswerIn(events).value.WriteOk?
  }

  /** One conversation for every block; the mirror takes what the node accepts. */
  function StoreBlocks(m: M.Mirror, client: Node, server: Node, room: nat, blocks: seq<M.Block>): Fetched
    requires NodeOk(client) && NodeOk(server) && forall i :: 0 <= i < |blocks| ==> BlockOk(blocks[i])
    decreases |blocks|
  {
    if blocks == [] then Fetched(m, client, server)
    else
      var b := blocks[0];
      assert BlockOk(b);
      var c := Converse(client, server, WriteRequest(m.space, b.address, b.data), room);
      StoreBlocks(if WriteAccepted(c.clientEvents) then M.Update(m, b.address, b.data) else m,
                  c.client, c.server, room, blocks[1..])
  }

  /** Every byte of the mirror is the one that the node has. */
  ghost predicate AgreesWithStore(m: M.Mirror, store: Store)
  {
    forall i :: 0 <= i < |m.data| ==> ByteAt(store, m.space, m.low + i) == Some(m.data[i])
  }

  lemma WriteKeepsRanges(store: Store, space: Byte, address: nat, data: seq<Byte>, other: nat, count: nat)
    requires Low(store, other, count)
    ensures Low(WriteAccess(store, space, address, data, |data|).store, other, count)
  {
  }

  /** One block, accepted or not. */
  lemma StoringOneKeepsAgreement(m: M.Mirror, client: Node, server: Node, room: nat, b: M.Block)
    requires CanTalk(client, server) && room >= ROOM && BlockOk(b) && b.address >= m.low
    requires Low(server.server.store, b.address, |b.data|) && AgreesWithStore(m, server.server.store)
    ensures var c := Converse(client, server, WriteRequest(m.space, b.address, b.data), room);
            var n := if WriteAccepted(c.clientEvents) then M.Update(m, b.address, b.data) else m;
            && CanTalk(c.client, c.server) && AgreesWithStore(n, c.server.server.store)
            && n.space == m.space && n.low == m.low
            && c.server.server.store == WriteAccess(server.server.store, m.space, b.address, b.data, |b.data|).store
  {
    hide Converse;
    hide ByteAt;
    hide Find;
    hide WriteAccess;
    var reply := RemoteWrite(client, server, m.space, b.address, b.data, room);
    AnswerIsIn(server.alias, reply, []);
    WriteDoneExactly(server.server.store, m.space, b.address, b.data);
    WriteIsAnswered(client, server, m.space, b.address, b.data, room);
  }

  /**
   A range that is written over the bus leaves the mirror and the node in agreement, whichever of its blocks the
   node accepts and rejects.
   */
  lemma {:induction false} StoringKeepsAgreement(m: M.Mirror, client: Node, server: Node, room: nat,
                                                 blocks: seq<M.Block>)
    requires CanTalk(client, server) && room >= ROOM && AgreesWithStore(m, server.server.store)
    requires forall i :: 0 <= i < |blocks| ==>
               BlockOk(blocks[i]) && blocks[i].address >= m.low
               && Low(server.server.store, blocks[i].address, |blocks[i].data|)
    ensures var f := StoreBlocks(m, client, server, room, blocks);
            CanTalk(f.client, f.server) && AgreesWithStore(f.mirror, f.server.server.store)
    decreases |blocks|
  {
    hide Converse;
    hide Low;
    hide AgreesWithStore;
    hide WriteAccepted;
    hide CanTalk;
    if blocks != [] {
      var b := blocks[0];
      StoringOneKeepsAgreement(m, client, server, room, b);
      var store := server.server.store;
      forall i | 0 <= i < |blocks| - 1
        ensures Low(WriteAccess(store, m.space, b.address, b.data, |b.data|).store,
                    blocks[1..][i].address, |blocks[1..][i].data|)
      {
        assert blocks[1..][i] == blocks[i + 1];
        WriteKeepsRanges(store, m.space, b.address, b.data, blocks[i + 1].address, |blocks[i + 1].data|);
      }
      CanTalkIsOk(client, server);
      var c := Converse(client, server, WriteRequest(m.space, b.address, b.data), room);
      var n := if WriteAccepted(c.clientEvents) then M.Update(m, b.address, b.data) else m;
      StoringKeepsAgreement(n, c.client, c.server, room, blocks[1..]);
    }
  }

  lemma CanTalkIsOk(client: Node, server: Node)
    requires CanTalk(client, server)
    ensures NodeOk(client) && NodeOk(server)
  {
  }
}
