/**
 The copy that the user interface keeps of a memory space of another node (GUI/lcc/segmentmemory.cpp): read as a
 whole, block by block, and then kept up to date by reads and writes of parts of it.
 */
module SegmentMirror {
  import opened Basics
  import opened CanId

  datatype Phase = NotReadYet | ReadSpaceInfo | ReadingMemory | MemoryComplete

  datatype Mirror = Mirror(space: Byte, low: nat, high: nat, length: nat, offset: nat, phase: Phase,
                           data: seq<Byte>, hasData: bool, invalid: bool)

  /** What is asked of the connection, and what is told to whoever listens. */
  datatype Out =
    | AskInfo
    | AskBlock(address: nat, len: nat)
    | ReadFailed(code: nat)
    | Progress(received: nat, total: nat)
    | DataChanged(address: nat, len: nat)
    | MemoryReady

  datatype InfoReply = InfoReply(error: bool, code: nat, space: Byte, exists_: bool, low: nat, high: nat)

  datatype BlockReply = BlockReply(error: bool, code: nat, space: Byte, data: seq<Byte>)

  datatype Turn = Turn(mirror: Mirror, out: seq<Out>)

  // ---------------------------------------------------------------- reading all of it

  /** Asks for the next block of up to 64 bytes, unless there is nothing left to ask for. */
  function ReadNext(m: Mirror, accepted: bool): Turn
  {
    if m.offset >= m.length then
      Turn(m.(phase := MemoryComplete, hasData := true),
           [Progress(|m.data|, |m.data|), DataChanged(m.low, |m.data|), MemoryReady])
    else
      var left := m.length - m.offset;
      if accepted then Turn(m, [AskBlock(m.low + m.offset, if left > BLOCK then BLOCK else left)])
      else Turn(m.(phase := NotReadYet), [ReadFailed(0)])
  }

  function StartReading(m: Mirror, accepted: bool): Turn
  {
    if m.invalid then Turn(m, [ReadFailed(0)])
    else if m.phase.ReadSpaceInfo? || m.phase.ReadingMemory? then Turn(m, [])
    else
      var cleared := m.(offset := 0, data := [], hasData := false);
      if accepted then Turn(cleared.(phase := ReadSpaceInfo), [AskInfo])
      else Turn(cleared.(phase := NotReadYet), [ReadFailed(0)])
  }

  /** The length in 32 bits: a space that takes up all addresses seems to be empty. */
  function LengthOf(r: InfoReply): nat
  {
    if !r.exists_ && r.high == 0 then 0 else (r.high - r.low + 1) % WORD_LIMIT
  }

  function OnInfo(m: Mirror, r: InfoReply, accepted: bool): Turn
  {
    if r.error then Turn(m.(phase := NotReadYet), [ReadFailed(r.code)])
    else if r.high < r.low then Turn(m.(invalid := true, phase := NotReadYet), [ReadFailed(0)])
    else if m.phase.ReadSpaceInfo? && r.space == m.space then
      ReadNext(m.(low := r.low, high := r.high, length := LengthOf(r), offset := 0, phase := ReadingMemory), accepted)
    else Turn(m, [])
  }

  /** An empty block ends the reading. */
  function OnBlock(m: Mirror, r: BlockReply, accepted: bool): Turn
  {
    if !m.phase.ReadingMemory? then Turn(m, [])
    else if r.error then Turn(m.(phase := NotReadYet), [ReadFailed(r.code)])
    else if r.space != m.space then Turn(m, [])
    else
      var got := m.(offset := m.offset + |r.data|, data := m.data + r.data);
      var next := ReadNext(if r.data == [] then got.(length := got.offset) else got, accepted);
      Turn(next.mirror, [Progress(|got.data|, got.length)] + next.out)
  }

  /** Exactly when a reading starts, and what it starts with; and what is told if it does not. */
  lemma StartsExactly(m: Mirror, accepted: bool)
    ensures var t := StartReading(m, accepted);
            var busy := m.phase.ReadSpaceInfo? || m.phase.ReadingMemory?;
            && (t.out == [AskInfo] <==> !m.invalid && !busy && accepted)
            && (t.out == [AskInfo] ==>
                  t.mirror.phase.ReadSpaceInfo? && t.mirror.offset == 0 && t.mirror.data == [] && !t.mirror.hasData)
            && (t.out == [ReadFailed(0)] <==> m.invalid || (!busy && !accepted))
            && (m.invalid || busy ==> t.mirror == m)
            && (!m.invalid && !busy && !accepted ==>
                  t.mirror.phase.NotReadYet? && t.mirror.data == [] && !t.mirror.hasData)
  {
    var t := StartReading(m, accepted);
    assert t.out == [] || t.out == [t.out[0]];
  }

  /** While it reads, the mirror has as many bytes as its offset says, and not yet all of them. */
  predicate ReadingOk(m: Mirror)
  {
    && (m.phase.ReadingMemory? ==> |m.data| == m.offset < m.length)
    && (m.phase.MemoryComplete? ==> |m.data| == m.offset >= m.length && m.hasData)
    && (m.phase.ReadSpaceInfo? ==> m.data == [])
  }

  /** Whatever the replies are, also late ones and ones that nobody asked for. */
  lemma EveryStepKeepsReadingOk(m: Mirror, accepted: bool, i: InfoReply, b: BlockReply)
    requires ReadingOk(m)
    ensures ReadingOk(StartReading(m, accepted).mirror)
    ensures ReadingOk(OnInfo(m, i, accepted).mirror)
    ensures ReadingOk(OnBlock(m, b, accepted).mirror)
  {
  }

  /** Whether a reply does anything while the mirror reads: an error always does. */
  predicate Concerns(b: BlockReply, space: Byte) { b.error || b.space == space }

  /** What a reply to a block does: exactly when the reading goes on, and how much is left then. */
  lemma BlockIsProgress(m: Mirror, b: BlockReply, accepted: bool)
    requires ReadingOk(m) && m.phase.ReadingMemory?
    ensures !Concerns(b, m.space) ==> OnBlock(m, b, accepted) == Turn(m, [])
    ensures Concerns(b, m.space) ==>
              var n := OnBlock(m, b, accepted).mirror;
              && (n.phase.ReadingMemory? <==>
                    !b.error && b.data != [] && accepted && m.offset + |b.data| < m.length)
              && (n.phase.ReadingMemory? ==>
                    n.space == m.space && n.length == m.length && n.offset == m.offset + |b.data|)
  {
  }

  /** Of each reply: whether the request that follows it is accepted. */
  function OnBlocks(m: Mirror, blocks: seq<BlockReply>, accepted: seq<bool>): Mirror
    requires |accepted| == |blocks|
    decreases |blocks|
  {
    if blocks == [] then m else OnBlocks(OnBlock(m, blocks[0], accepted[0]).mirror, blocks[1..], accepted[1..])
  }

  /** None of the replies that concern the space is an error or empty, and none of the requests is refused. */
  predicate AllWell(blocks: seq<BlockReply>, accepted: seq<bool>, space: Byte)
    requires |accepted| == |blocks|
    decreases |blocks|
  {
    blocks != [] ==>
      && (Concerns(blocks[0], space) ==> !blocks[0].error && blocks[0].data != [] && accepted[0])
      && AllWell(blocks[1..], accepted[1..], space)
  }

  /** How many of the replies concern the space, and how many bytes they bring. */
  function Concerning(blocks: seq<BlockReply>, space: Byte): nat
    decreases |blocks|
  {
    if blocks == [] then 0 else (if Concerns(blocks[0], space) then 1 else 0) + Concerning(blocks[1..], space)
  }

  function Received(blocks: seq<BlockReply>, space: Byte): nat
    decreases |blocks|
  {
    if blocks == [] then 0
    else (if Concerns(blocks[0], space) then |blocks[0].data| else 0) + Received(blocks[1..], space)
  }

  /** For any replies at all: the mirror is still reading if and only if all went well and something is left. */
  lemma {:induction false} StillReadingExactly(m: Mirror, blocks: seq<BlockReply>, accepted: seq<bool>)
    requires ReadingOk(m) && m.phase.ReadingMemory? && |accepted| == |blocks|
    ensures ReadingOk(OnBlocks(m, blocks, accepted))
    ensures OnBlocks(m, blocks, accepted).phase.ReadingMemory? <==>
              AllWell(blocks, accepted, m.space) && m.offset + Received(blocks, m.space) < m.length
    decreases |blocks|
  {
    if blocks != [] {
      var n := OnBlock(m, blocks[0], accepted[0]).mirror;
      BlockIsProgress(m, blocks[0], accepted[0]);
      EveryStepKeepsReadingOk(m, accepted[0], InfoReply(true, 0, 0, true, 0, 0), blocks[0]);
      if n.phase.ReadingMemory? {
        StillReadingExactly(n, blocks[1..], accepted[1..]);
      } else {
        NoLongerReading(n, blocks[1..], accepted[1..]);
      }
    }
  }

  /** So it is over after as many replies that concern the space as there are bytes, whatever they say. */
  lemma {:induction false} ReadingEnds(m: Mirror, blocks: seq<BlockReply>, accepted: seq<bool>)
    requires ReadingOk(m) && m.phase.ReadingMemory? && |accepted| == |blocks|
    requires Concerning(blocks, m.space) >= m.length - m.offset
    ensures var n := OnBlocks(m, blocks, accepted); ReadingOk(n) && !n.phase.ReadingMemory?
  {
    StillReadingExactly(m, blocks, accepted);
    if AllWell(blocks, accepted, m.space) {
      WellBringsBytes(blocks, accepted, m.space);
    }
  }

  lemma {:induction false} WellBringsBytes(blocks: seq<BlockReply>, accepted: seq<bool>, space: Byte)
    requires |accepted| == |blocks| && AllWell(blocks, accepted, space)
    ensures Received(blocks, space) >= Concerning(blocks, space)
    decreases |blocks|
  {
    if blocks != [] {
      WellBringsBytes(blocks[1..], accepted[1..], space);
    }
  }

  lemma {:induction false} NoLongerReading(m: Mirror, blocks: seq<BlockReply>, accepted: seq<bool>)
    requires !m.phase.ReadingMemory? && |accepted| == |blocks|
    ensures OnBlocks(m, blocks, accepted) == m
    decreases |blocks|
  {
    if blocks != [] {
      NoLongerReading(m, blocks[1..], accepted[1..]);
    }
  }

  // ---------------------------------------------------------------- spaces that cannot be read

  datatype Step =
    | Start(accepted: bool)
    | HearInfo(r: InfoReply, accepted: bool)
    | HearBlock(b: BlockReply, accepted: bool)

  function Next(m: Mirror, s: Step): Turn
  {
    match s
    case Start(accepted) => StartReading(m, accepted)
    case HearInfo(r, accepted) => OnInfo(m, r, accepted)
    case HearBlock(b, accepted) => OnBlock(m, b, accepted)
  }

  /** Exactly one thing makes a space invalid: that the node says that its highest address is below its lowest. */
  lemma InvalidExactly(m: Mirror, s: Step)
    ensures Next(m, s).mirror.invalid <==> m.invalid || (s.HearInfo? && !s.r.error && s.r.high < s.r.low)
    ensures !m.invalid && Next(m, s).mirror.invalid ==>
              Next(m, s).mirror.phase.NotReadYet? && Next(m, s).out == [ReadFailed(0)]
    ensures s.HearInfo? && s.r.error ==> Next(m, s) == Turn(m.(phase := NotReadYet), [ReadFailed(s.r.code)])
  {
  }

  function AfterAll(m: Mirror, steps: seq<Step>): Mirror
    decreases |steps|
  {
    if steps == [] then m else AfterAll(Next(m, steps[0]).mirror, steps[1..])
  }

  /** And from then on it is never read, whatever is tried and whatever the node says. */
  lemma {:induction false} InvalidForGood(m: Mirror, steps: seq<Step>)
    requires m.invalid && m.phase.NotReadYet?
    ensures AfterAll(m, steps) == m
    decreases |steps|
  {
    if steps != [] {
      InvalidForGood(m, steps[1..]);
    }
  }

  /** How much a space is taken to have: nothing if it takes up all addresses, or if it is not there and ends at 0. */
  lemma EmptyExactly(m: Mirror, r: InfoReply)
    requires m.phase.ReadSpaceInfo? && r.space == m.space && !r.error && r.low <= r.high < 0x1_0000_0000
    ensures var t := OnInfo(m, r, true);
            && (t.mirror.phase.MemoryComplete? <==>
                  (r.low == 0 && r.high == 0xFFFF_FFFF) || (!r.exists_ && r.high == 0))
            && (t.mirror.phase.ReadingMemory? ==> t.mirror.length == r.high - r.low + 1)
            && t.mirror.low == r.low && t.mirror.high == r.high && t.mirror.offset == 0
  {
  }

  // ---------------------------------------------------------------- what is read

  /** The memory of a node, by address. */
  type Memory = nat -> Byte

  function Slice(memory: Memory, address: nat, len: nat): (r: seq<Byte>)
    ensures |r| == len
  {
    seq(len, i requires 0 <= i => memory(address + i))
  }

  function All(n: nat): seq<bool> { seq(n, _ => true) }

  /** A request for a block. */
  datatype Asked = Asked(address: nat, len: nat)

  function AskedIn(out: seq<Out>): seq<Asked>
    decreases |out|
  {
    if out == [] then []
    else (if out[0].AskBlock? then [Asked(out[0].address, out[0].len)] else []) + AskedIn(out[1..])
  }

  /** The request that is outstanding after a turn: for the next bytes, at most 64 of them. */
  lemma NextIsAskedFor(m: Mirror, r: InfoReply, b: BlockReply)
    requires ReadingOk(m)
    ensures m.phase.ReadSpaceInfo? && r.space == m.space && !r.error && r.low <= r.high ==>
              AsksForNext(OnInfo(m, r, true))
    ensures m.phase.ReadingMemory? && Concerns(b, m.space) ==> AsksForNext(OnBlock(m, b, true))
  {
    if m.phase.ReadSpaceInfo? && r.space == m.space && !r.error && r.low <= r.high {
      ReadNextAsks(m.(low := r.low, high := r.high, length := LengthOf(r), offset := 0, phase := ReadingMemory));
    }
    if m.phase.ReadingMemory? && Concerns(b, m.space) {
      if b.error {
        NoneAsked(OnBlock(m, b, true).out);
      } else {
        var got := m.(offset := m.offset + |b.data|, data := m.data + b.data);
        var from := if b.data == [] then got.(length := got.offset) else got;
        ReadNextAsks(from);
        assert ([Progress(|got.data|, got.length)] + ReadNext(from, true).out)[1..] == ReadNext(from, true).out;
      }
    }
  }

  lemma {:induction false} NoneAsked(out: seq<Out>)
    requires forall o :: o in out ==> !o.AskBlock?
    ensures AskedIn(out) == []
    decreases |out|
  {
    if out != [] {
      assert out[0] in out;
      NoneAsked(out[1..]);
    }
  }

  lemma ReadNextAsks(m: Mirror)
    requires m.phase.ReadingMemory?
    ensures AsksForNext(ReadNext(m, true))
  {
    if m.offset >= m.length {
      NoneAsked(ReadNext(m, true).out);
    } else {
      assert [AskBlock(m.low + m.offset, UpTo64(m.length - m.offset))][1..] == [];
    }
  }

  predicate AsksForNext(t: Turn)
  {
    if t.mirror.phase.ReadingMemory? then
      AskedIn(t.out) == [Asked(t.mirror.low + t.mirror.offset, UpTo64(t.mirror.length - t.mirror.offset))]
    else AskedIn(t.out) == []
  }

  function UpTo64(left: int): nat
  {
    if left > 64 then 64 else if left < 0 then 0 else left
  }

  /** The answer is some of what was asked for, from its front, and not nothing. */
  ghost predicate Answers(b: BlockReply, asked: Asked, space: Byte, memory: Memory)
  {
    !b.error && b.space == space && 0 < |b.data| <= asked.len && b.data == Slice(memory, asked.address, |b.data|)
  }

  /** Every block answers the request before it, if there is one. */
  ghost predicate Reads(t: Turn, blocks: seq<BlockReply>, memory: Memory)
    decreases |blocks|
  {
    AskedIn(t.out) != [] && blocks != [] ==>
      && Answers(blocks[0], AskedIn(t.out)[0], t.mirror.space, memory)
      && Reads(OnBlock(t.mirror, blocks[0], true), blocks[1..], memory)
  }

  /** The bytes so far are those of the node. */
  ghost predicate SoFar(m: Mirror, memory: Memory)
  {
    ReadingOk(m) && m.offset <= m.length && m.data == Slice(memory, m.low, m.offset)
  }

  lemma SliceAppend(memory: Memory, address: nat, a: nat, b: nat)
    ensures Slice(memory, address, a) + Slice(memory, address + a, b) == Slice(memory, address, a + b)
  {
  }

  lemma {:induction false} BlocksGiveTheBytes(t: Turn, blocks: seq<BlockReply>, memory: Memory)
    requires SoFar(t.mirror, memory) && AsksForNext(t) && Reads(t, blocks, memory)
    requires t.mirror.phase.ReadingMemory? || t.mirror.phase.MemoryComplete?
    ensures var n := OnBlocks(t.mirror, blocks, All(|blocks|));
            && SoFar(n, memory) && (n.phase.ReadingMemory? || n.phase.MemoryComplete?)
            && n.low == t.mirror.low && n.length == t.mirror.length
    decreases |blocks|
  {
    var m := t.mirror;
    if blocks != [] {
      assert All(|blocks|)[1..] == All(|blocks| - 1);
      if m.phase.ReadingMemory? {
        SliceAppend(memory, m.low, m.offset, |blocks[0].data|);
        NextIsAskedFor(m, InfoReply(true, 0, 0, true, 0, 0), blocks[0]);
        BlocksGiveTheBytes(OnBlock(m, blocks[0], true), blocks[1..], memory);
      } else {
        NoLongerReading(m, blocks, All(|blocks|));
      }
    }
  }

  /**
   When every answer is a non-empty part of what was asked for, from its front, the mirror ends up with exactly
   the bytes of the node, from the lowest address to the highest.
   */
  lemma {:induction false} WholeSegmentIsRead(m: Mirror, r: InfoReply, blocks: seq<BlockReply>, memory: Memory)
    requires ReadingOk(m) && m.phase.ReadSpaceInfo? && !r.error && r.space == m.space
    requires r.low <= r.high < WORD_LIMIT && r.high - r.low + 1 < WORD_LIMIT && (r.exists_ || r.high != 0)
    requires Concerning(blocks, m.space) >= r.high - r.low + 1
    requires Reads(OnInfo(m, r, true), blocks, memory)
    ensures var n := OnBlocks(OnInfo(m, r, true).mirror, blocks, All(|blocks|));
            n.phase.MemoryComplete? && n.hasData && n.low == r.low
            && n.data == Slice(memory, r.low, r.high - r.low + 1)
  {
    var first := OnInfo(m, r, true);
    assert first.mirror.length == r.high - r.low + 1;
    NextIsAskedFor(m, r, BlockReply(true, 0, 0, []));
    ReadingEnds(first.mirror, blocks, All(|blocks|));
    BlocksGiveTheBytes(first, blocks, memory);
  }

  // ---------------------------------------------------------------- what is asked for, and what is told

  /** Everything that comes out in a run. */
  function OutOf(m: Mirror, blocks: seq<BlockReply>, accepted: seq<bool>): seq<Out>
    requires |accepted| == |blocks|
    decreases |blocks|
  {
    if blocks == [] then []
    else
      var t := OnBlock(m, blocks[0], accepted[0]);
      t.out + OutOf(t.mirror, blocks[1..], accepted[1..])
  }

  /** Every block is as long as what was asked for. */
  predicate FullAnswers(t: Turn, blocks: seq<BlockReply>)
    decreases |blocks|
  {
    AskedIn(t.out) != [] && blocks != [] ==>
      && !blocks[0].error && blocks[0].space == t.mirror.space && |blocks[0].data| == AskedIn(t.out)[0].len
      && FullAnswers(OnBlock(t.mirror, blocks[0], true), blocks[1..])
  }

  lemma {:induction false} AskedAppend(a: seq<Out>, b: seq<Out>)
    ensures AskedIn(a + b) == AskedIn(a) + AskedIn(b)
    decreases |a|
  {
    if a == [] {
      assert a + b == b;
    } else {
      assert (a + b)[1..] == a[1..] + b && (a + b)[0] == a[0];
      AskedAppend(a[1..], b);
      var one := if a[0].AskBlock? then [Asked(a[0].address, a[0].len)] else [];
      assert (one + AskedIn(a[1..])) + AskedIn(b) == one + (AskedIn(a[1..]) + AskedIn(b));
    }
  }

  /** So many bytes in blocks of 64. */
  function BlocksFor(n: nat): nat { (n + 63) / 64 }

  /** Consecutive blocks of 64 bytes from an address on, the last of them shorter. */
  ghost predicate InOrder(asked: seq<Asked>, address: nat, left: nat)
  {
    && |asked| == BlocksFor(left)
    && forall i :: 0 <= i < |asked| ==> asked[i] == Asked(address + 64 * i, UpTo64(left - 64 * i))
  }

  lemma OneMoreInOrder(address: nat, left: nat, rest: seq<Asked>)
    requires left > 0 && if left > 64 then InOrder(rest, address + 64, left - 64) else rest == []
    ensures InOrder([Asked(address, UpTo64(left))] + rest, address, left)
  {
  }

  function Left(m: Mirror): nat { if m.phase.ReadingMemory? && m.offset < m.length then m.length - m.offset else 0 }

  lemma FullAnswerStep(m: Mirror, b: BlockReply)
    requires ReadingOk(m) && m.phase.ReadingMemory?
    requires !b.error && b.space == m.space && |b.data| == UpTo64(m.length - m.offset)
    ensures var t := OnBlock(m, b, true);
            && ReadingOk(t.mirror) && AsksForNext(t)
            && (t.mirror.phase.ReadingMemory? <==> Left(m) > 64)
            && (Left(m) > 64 ==> t.mirror.low + t.mirror.offset == m.low + m.offset + 64)
            && Left(t.mirror) == if Left(m) > 64 then Left(m) - 64 else 0
  {
    hide AsksForNext;
    NextIsAskedFor(m, InfoReply(true, 0, 0, true, 0, 0), b);
  }

  lemma {:induction false} FullAnswersAsk(t: Turn, blocks: seq<BlockReply>)
    requires ReadingOk(t.mirror) && AsksForNext(t) && FullAnswers(t, blocks)
    requires BlocksFor(Left(t.mirror)) <= |blocks|
    ensures InOrder(AskedIn(t.out) + AskedIn(OutOf(t.mirror, blocks, All(|blocks|))),
                    t.mirror.low + t.mirror.offset, Left(t.mirror))
    decreases |blocks|
  {
    hide OnBlock;
    hide AskedIn;
    var m := t.mirror;
    if !m.phase.ReadingMemory? {
      NothingComesOut(m, blocks, All(|blocks|));
      NoneAsked([]);
    } else {
      assert All(|blocks|)[1..] == All(|blocks| - 1);
      var next := OnBlock(m, blocks[0], true);
      FullAnswerStep(m, blocks[0]);
      FullAnswersAsk(next, blocks[1..]);
      hide InOrder;
      hide FullAnswers;
      AskedAppend(next.out, OutOf(next.mirror, blocks[1..], All(|blocks| - 1)));
      var rest := AskedIn(next.out) + AskedIn(OutOf(next.mirror, blocks[1..], All(|blocks| - 1)));
      if !next.mirror.phase.ReadingMemory? {
        NothingComesOut(next.mirror, blocks[1..], All(|blocks| - 1));
        NoneAsked([]);
        assert rest == [];
      }
      OneMoreInOrder(m.low + m.offset, Left(m), rest);
    }
  }

  lemma {:induction false} NothingComesOut(m: Mirror, blocks: seq<BlockReply>, accepted: seq<bool>)
    requires !m.phase.ReadingMemory? && |accepted| == |blocks|
    ensures OutOf(m, blocks, accepted) == []
    decreases |blocks|
  {
    if blocks != [] {
      NothingComesOut(m, blocks[1..], accepted[1..]);
    }
  }

  predicate Covered(asked: seq<Asked>, at: nat)
  {
    exists i :: 0 <= i < |asked| && asked[i].address <= at < asked[i].address + asked[i].len
  }

  /**
   The requests of a whole reading, if every answer is as long as what was asked for: consecutive blocks of 64 bytes
   from the lowest address on, the last of them shorter, that reach every address of the space and no other.
   */
  lemma RequestsCoverTheSpace(m: Mirror, r: InfoReply, blocks: seq<BlockReply>)
    requires ReadingOk(m) && m.phase.ReadSpaceInfo? && !r.error && r.space == m.space
    requires r.low <= r.high < WORD_LIMIT && r.high - r.low + 1 < WORD_LIMIT && (r.exists_ || r.high != 0)
    requires FullAnswers(OnInfo(m, r, true), blocks) && BlocksFor(r.high - r.low + 1) <= |blocks|
    ensures var t := OnInfo(m, r, true);
            var asked := AskedIn(t.out + OutOf(t.mirror, blocks, All(|blocks|)));
            && |asked| == (r.high - r.low + 1 + 63) / 64
            && (forall i :: 0 <= i < |asked| ==>
                  asked[i] == Asked(r.low + 64 * i, if r.high - r.low + 1 - 64 * i > 64 then 64
                                                    else r.high - r.low + 1 - 64 * i))
            && (forall at: nat :: Covered(asked, at) <==> r.low <= at <= r.high)
  {
    var t := OnInfo(m, r, true);
    var n := r.high - r.low + 1;
    assert t.mirror.length == n && t.mirror.low == r.low && ReadingOk(t.mirror) && Left(t.mirror) == n;
    NextIsAskedFor(m, r, BlockReply(true, 0, 0, []));
    hide OnInfo;
    FullAnswersAsk(t, blocks);
    AskedAppend(t.out, OutOf(t.mirror, blocks, All(|blocks|)));
    InOrderCovers(AskedIn(t.out + OutOf(t.mirror, blocks, All(|blocks|))), r.low, n);
  }

  lemma InOrderCovers(asked: seq<Asked>, low: nat, n: nat)
    requires InOrder(asked, low, n)
    ensures forall at: nat :: Covered(asked, at) <==> low <= at < low + n
  {
    forall at: nat
      ensures Covered(asked, at) <==> low <= at < low + n
    {
      if low <= at < low + n {
        var i := (at - low) / 64;
        assert 0 <= i < |asked| && asked[i] == Asked(low + 64 * i, UpTo64(n - 64 * i));
      }
    }
  }

  /** The end of a reading, as it is told to whoever listens. */
  predicate IsEnd(o: Out) { o.MemoryReady? || o.ReadFailed? }

  function EndsIn(out: seq<Out>): seq<Out>
    decreases |out|
  {
    if out == [] then [] else (if IsEnd(out[0]) then [out[0]] else []) + EndsIn(out[1..])
  }

  lemma {:induction false} EndsAppend(a: seq<Out>, b: seq<Out>)
    ensures EndsIn(a + b) == EndsIn(a) + EndsIn(b)
    decreases |a|
  {
    if a == [] {
      assert a + b == b;
    } else {
      assert (a + b)[1..] == a[1..] + b && (a + b)[0] == a[0];
      EndsAppend(a[1..], b);
      var one := if IsEnd(a[0]) then [a[0]] else [];
      assert (one + EndsIn(a[1..])) + EndsIn(b) == one + (EndsIn(a[1..]) + EndsIn(b));
    }
  }

  /** What a turn of a reading tells of the end comes last. */
  lemma EndIsLast(m: Mirror, b: BlockReply, accepted: bool)
    requires ReadingOk(m) && m.phase.ReadingMemory?
    ensures var t := OnBlock(m, b, accepted);
            var before := if t.mirror.phase.ReadingMemory? then |t.out| else |t.out| - 1;
            && !t.mirror.phase.ReadSpaceInfo? && before >= 0
            && (forall i :: 0 <= i < before ==> !IsEnd(t.out[i]))
            && (t.mirror.phase.MemoryComplete? ==> t.out[before] == MemoryReady)
            && (t.mirror.phase.NotReadYet? ==> t.out[before] == ReadFailed(if b.error then b.code else 0))
  {
  }

  /** What is told of a block, and of the end: how much there is so far, and that all of the mirror has changed. */
  lemma BlockIsTold(m: Mirror, b: BlockReply, accepted: bool)
    requires ReadingOk(m) && m.phase.ReadingMemory? && !b.error && b.space == m.space
    ensures var t := OnBlock(m, b, accepted);
            && t.out[0] == Progress(|m.data| + |b.data|, m.length)
            && (t.mirror.phase.MemoryComplete? ==>
                  && |t.out| == 4 && t.out[1] == Progress(|t.mirror.data|, |t.mirror.data|)
                  && t.out[2] == DataChanged(m.low, |t.mirror.data|))
  {
  }

  lemma EndOfStep(m: Mirror, b: BlockReply, accepted: bool)
    requires ReadingOk(m) && m.phase.ReadingMemory?
    ensures var t := OnBlock(m, b, accepted);
            && (t.mirror.phase.ReadingMemory? ==> EndsIn(t.out) == [])
            && (t.mirror.phase.MemoryComplete? ==> EndsIn(t.out) == [MemoryReady])
            && (t.mirror.phase.NotReadYet? ==> |EndsIn(t.out)| == 1 && EndsIn(t.out)[0].ReadFailed?)
            && !t.mirror.phase.ReadSpaceInfo?
  {
    EndIsLast(m, b, accepted);
    hide OnBlock;
    hide EndsIn;
    var out := OnBlock(m, b, accepted).out;
    if OnBlock(m, b, accepted).mirror.phase.ReadingMemory? {
      NoEnd(out);
    } else {
      var last := |out| - 1;
      assert out == out[..last] + [out[last]];
      NoEnd(out[..last]);
      EndsAppend(out[..last], [out[last]]);
      OneEnd(out[last]);
    }
  }

  lemma {:induction false} NoEnd(out: seq<Out>)
    requires forall i :: 0 <= i < |out| ==> !IsEnd(out[i])
    ensures EndsIn(out) == []
    decreases |out|
  {
    if out != [] {
      NoEnd(out[1..]);
    }
  }

  lemma OneEnd(o: Out)
    requires IsEnd(o)
    ensures EndsIn([o]) == [o]
  {
    assert EndsIn([o][1..]) == [];
  }

  /** Whatever the replies are, a reading that is under way ends once, and is told of as what it is. */
  lemma {:induction false} EndIsToldOnce(m: Mirror, blocks: seq<BlockReply>, accepted: seq<bool>)
    requires ReadingOk(m) && m.phase.ReadingMemory? && |accepted| == |blocks|
    ensures var n := OnBlocks(m, blocks, accepted);
            var ends := EndsIn(OutOf(m, blocks, accepted));
            && (ends == [] <==> n.phase.ReadingMemory?)
            && (ends == [MemoryReady] <==> n.phase.MemoryComplete?)
            && (|ends| == 1 && ends[0].ReadFailed? <==> n.phase.NotReadYet?)
    decreases |blocks|
  {
    if blocks != [] {
      var t := OnBlock(m, blocks[0], accepted[0]);
      EndOfStep(m, blocks[0], accepted[0]);
      BlockIsProgress(m, blocks[0], accepted[0]);
      EveryStepKeepsReadingOk(m, accepted[0], InfoReply(true, 0, 0, true, 0, 0), blocks[0]);
      EndsAppend(t.out, OutOf(t.mirror, blocks[1..], accepted[1..]));
      hide OnBlock;
      if t.mirror.phase.ReadingMemory? {
        EndIsToldOnce(t.mirror, blocks[1..], accepted[1..]);
      } else {
        NothingComesOut(t.mirror, blocks[1..], accepted[1..]);
        NoLongerReading(t.mirror, blocks[1..], accepted[1..]);
      }
    }
  }

  // ---------------------------------------------------------------- parts of it

  /** Bytes that the node has, or now has.  Nothing is kept of a block that starts before the mirror does. */
  function Update(m: Mirror, address: nat, data: seq<Byte>): (n: Mirror)
    ensures |n.data| == |m.data|
  {
    if address < m.low then m
    else
      m.(data := seq(|m.data|, i requires 0 <= i < |m.data| =>
           if address <= m.low + i < address + |data| then data[m.low + i - address] else m.data[i]))
  }

  function Written(memory: Memory, address: nat, data: seq<Byte>): Memory
  {
    (a: nat) => if address <= a < address + |data| then data[a - address] else memory(a)
  }

  ghost predicate Agrees(m: Mirror, memory: Memory)
  {
    forall i :: 0 <= i < |m.data| ==> m.data[i] == memory(m.low + i)
  }

  /** A block that does not straddle the start of the mirror. */
  predicate Fits(m: Mirror, address: nat, len: nat)
  {
    address >= m.low || address + len <= m.low || m.data == []
  }

  lemma WriteKeepsAgreement(m: Mirror, memory: Memory, address: nat, data: seq<Byte>)
    requires Agrees(m, memory) && Fits(m, address, |data|)
    ensures Agrees(Update(m, address, data), Written(memory, address, data))
  {
  }

  /** The condition is exact: any block that does not fit can have bytes that break the agreement. */
  lemma StraddlingBlockBreaksAgreement(m: Mirror, memory: Memory, address: nat, len: nat) returns (data: seq<Byte>)
    requires Agrees(m, memory) && !Fits(m, address, len)
    ensures |data| == len && !Agrees(Update(m, address, data), Written(memory, address, data))
  {
    var other: Byte := if m.data[0] == 0 then 1 else 0;
    data := seq(len, _ => other);
    assert Written(memory, address, data)(m.low + 0) == other;
    assert Update(m, address, data).data[0] != other;
  }

  /** A read brings the mirror back in line wherever it reaches, and changes nothing elsewhere. */
  lemma ReadRestoresAgreement(m: Mirror, memory: Memory, address: nat, len: nat)
    requires address >= m.low
    ensures var n := Update(m, address, Slice(memory, address, len));
            forall i :: 0 <= i < |m.data| ==>
              if address <= m.low + i < address + len then n.data[i] == memory(m.low + i) else n.data[i] == m.data[i]
  {
  }

  // ---------------------------------------------------------------- operations on many blocks

  datatype Block = Block(address: nat, data: seq<Byte>)

  /** A range cut into blocks of up to 64 bytes. */
  function Blocks(address: nat, data: seq<Byte>): seq<Block>
    decreases |data|
  {
    if data == [] then []
    else if |data| <= BLOCK then [Block(address, data)]
    else [Block(address, data[..BLOCK])] + Blocks(address + BLOCK, data[BLOCK..])
  }

  /** Of each block: whether the node accepted it. */
  function WrittenAll(memory: Memory, blocks: seq<Block>, accepted: seq<bool>): Memory
    requires |accepted| == |blocks|
  {
    if blocks == [] then memory
    else
      WrittenAll(if accepted[0] then Written(memory, blocks[0].address, blocks[0].data) else memory,
                 blocks[1..], accepted[1..])
  }

  function UpdateAll(m: Mirror, blocks: seq<Block>, accepted: seq<bool>): Mirror
    requires |accepted| == |blocks|
    decreases |blocks|
  {
    if blocks == [] then m
    else
      UpdateAll(if accepted[0] then Update(m, blocks[0].address, blocks[0].data) else m, blocks[1..], accepted[1..])
  }

  /** The blocks cover the range, byte for byte, and none is longer than a request can be. */
  lemma {:induction false} BlocksCover(address: nat, data: seq<Byte>, memory: Memory)
    ensures var blocks := Blocks(address, data);
            && |blocks| == (|data| + BLOCK - 1) / BLOCK
            && (forall i :: 0 <= i < |blocks| ==>
                  0 < |blocks[i].data| <= BLOCK && blocks[i].address == address + BLOCK * i
                  && blocks[i].address + |blocks[i].data| <= address + |data|)
            && forall a: nat :: WrittenAll(memory, blocks, All(|blocks|))(a)
                                == Written(memory, address, data)(a)
    decreases |data|
  {
    if |data| <= BLOCK {
      OneBlock(address, data, memory);
    } else {
      var first, rest := data[..BLOCK], data[BLOCK..];
      var after := Written(memory, address, first);
      BlocksCover(address + BLOCK, rest, after);
      var blocks := Blocks(address, data);
      var all := All(|blocks|);
      assert blocks[1..] == Blocks(address + BLOCK, rest) && all[1..] == All(|blocks| - 1);
      forall a: nat
        ensures WrittenAll(memory, blocks, all)(a) == Written(memory, address, data)(a)
      {
        assert Written(after, address + BLOCK, rest)(a) == Written(memory, address, data)(a);
      }
      forall i | 0 <= i < |blocks|
        ensures 0 < |blocks[i].data| <= BLOCK && blocks[i].address == address + BLOCK * i
                && blocks[i].address + |blocks[i].data| <= address + |data|
      {
        if i > 0 {
          assert blocks[i] == Blocks(address + BLOCK, rest)[i - 1];
        }
      }
    }
  }

  lemma OneBlock(address: nat, data: seq<Byte>, memory: Memory)
    requires |data| <= BLOCK
    ensures var blocks := Blocks(address, data);
            && |blocks| == (if data == [] then 0 else 1)
            && forall a: nat :: WrittenAll(memory, blocks, All(|blocks|))(a)
                                == Written(memory, address, data)(a)
  {
    if data != [] {
      assert [Block(address, data)][1..] == [];
      assert All(1)[1..] == [];
    }
  }

  /** Whatever the node accepts and rejects, the mirror agrees with it afterwards if it did before. */
  lemma {:induction false} RangeKeepsAgreement(m: Mirror, memory: Memory, blocks: seq<Block>, accepted: seq<bool>)
    requires |accepted| == |blocks| && Agrees(m, memory)
    requires forall i :: 0 <= i < |blocks| ==> Fits(m, blocks[i].address, |blocks[i].data|)
    ensures Agrees(UpdateAll(m, blocks, accepted), WrittenAll(memory, blocks, accepted))
    decreases |blocks|
  {
    if blocks != [] {
      var b := blocks[0];
      WriteKeepsAgreement(m, memory, b.address, b.data);
      var n := if accepted[0] then Update(m, b.address, b.data) else m;
      assert forall i :: 0 <= i < |blocks| - 1 ==> blocks[1..][i] == blocks[i + 1];
      RangeKeepsAgreement(n, if accepted[0] then Written(memory, b.address, b.data) else memory,
                          blocks[1..], accepted[1..]);
    }
  }

  /** So a range that starts inside the mirror can be written in any case. */
  lemma WriteRangeKeepsAgreement(m: Mirror, memory: Memory, address: nat, data: seq<Byte>, accepted: seq<bool>)
    requires Agrees(m, memory) && address >= m.low && |accepted| == |Blocks(address, data)|
    ensures Agrees(UpdateAll(m, Blocks(address, data), accepted), WrittenAll(memory, Blocks(address, data), accepted))
  {
    BlocksCover(address, data, memory);
    RangeKeepsAgreement(m, memory, Blocks(address, data), accepted);
  }

  lemma {:induction false} BlocksUpdateTheRange(m: Mirror, address: nat, data: seq<Byte>)
    requires address >= m.low
    ensures UpdateAll(m, Blocks(address, data), All(|Blocks(address, data)|)) == Update(m, address, data)
    decreases |data|
  {
    var blocks := Blocks(address, data);
    var all := All(|blocks|);
    if data == [] {
      assert Update(m, address, data).data == m.data;
    } else if |data| <= BLOCK {
      assert blocks[1..] == [] && all[1..] == [];
    } else {
      var first, rest := data[..BLOCK], data[BLOCK..];
      assert blocks[1..] == Blocks(address + BLOCK, rest) && all[1..] == All(|blocks| - 1);
      BlocksUpdateTheRange(Update(m, address, first), address + BLOCK, rest);
      assert Update(Update(m, address, first), address + BLOCK, rest).data == Update(m, address, data).data;
    }
  }

  /**
   Reading a range again, block by block, puts the mirror in line with the node there, whatever it held before, and
   changes nothing elsewhere.
   */
  lemma ReadRangeRestoresAgreement(m: Mirror, memory: Memory, address: nat, length: nat)
    requires address >= m.low
    ensures var blocks := Blocks(address, Slice(memory, address, length));
            var n := UpdateAll(m, blocks, All(|blocks|));
            && |n.data| == |m.data| && n.low == m.low
            && forall i :: 0 <= i < |m.data| ==>
                 if address <= m.low + i < address + length then n.data[i] == memory(m.low + i)
                 else n.data[i] == m.data[i]
  {
    BlocksUpdateTheRange(m, address, Slice(memory, address, length));
    ReadRestoresAgreement(m, memory, address, length);
  }

  // ---------------------------------------------------------------- the one signal at the end

  /** The counters that the blocks of one operation share, and the signals it has given. */
  datatype Op = Op(outstanding: int, failed: bool, signals: seq<Signal>)

  datatype Signal = RangeDone | RangeFailed(code: nat)

  datatype Result = Success | Failure(code: nat)

  function OnResult(op: Op, r: Result): Op
  {
    var fewer := op.(outstanding := op.outstanding - 1);
    if r.Failure? then
      if op.failed then fewer else fewer.(failed := true, signals := op.signals + [RangeFailed(r.code)])
    else if fewer.outstanding == 0 && !op.failed then fewer.(signals := op.signals + [RangeDone])
    else fewer
  }

  function OnResults(op: Op, results: seq<Result>): Op
    decreases |results|
  {
    if results == [] then op else OnResults(OnResult(op, results[0]), results[1..])
  }

  /** The error of the first failure among the results. */
  function FirstFailure(results: seq<Result>): Option<nat>
  {
    if results == [] then None
    else if results[0].Failure? then Some(results[0].code)
    else FirstFailure(results[1..])
  }

  /** The signals that tell of these results, of which there will be so many. */
  function Signals(results: seq<Result>, blocks: nat): seq<Signal>
  {
    match FirstFailure(results)
    case Some(code) => [RangeFailed(code)]
    case None => if results != [] && |results| == blocks then [RangeDone] else []
  }

  /**
   The signals of an operation, for the results that are heard.  A result that comes before anyone listens, inside
   the call that makes the request, is never heard.
   */
  lemma {:induction false} SignalsExactly(op: Op, results: seq<Result>)
    requires !op.failed && op.signals == [] && op.outstanding >= |results|
    ensures OnResults(op, results).signals == Signals(results, op.outstanding)
    decreases |results|
  {
    if results != [] {
      var next := OnResult(op, results[0]);
      assert results[0].Failure? ==> next.signals == [RangeFailed(results[0].code)];
      assert next.failed || next.signals == [] || next.signals == [RangeDone];
      if next.failed {
        FailedStaysQuiet(next, results[1..]);
      } else if next.signals != [] {
        assert results[1..] == [] && OnResults(next, results[1..]) == next && FirstFailure(results[1..]) == None;
      } else {
        SignalsExactly(next, results[1..]);
      }
    }
  }

  lemma {:induction false} FailedStaysQuiet(op: Op, results: seq<Result>)
    requires op.failed
    ensures OnResults(op, results).signals == op.signals && OnResults(op, results).failed
    decreases |results|
  {
    if results != [] {
      FailedStaysQuiet(OnResult(op, results[0]), results[1..]);
    }
  }

  /** The blocks that fail while later ones are still being asked for, request by request. */
  function Heard(codes: seq<nat>): (r: seq<Result>)
    ensures |r| == |codes| && forall i :: 0 <= i < |r| ==> r[i] == Failure(codes[i])
  {
    if codes == [] then [] else [Failure(codes[0])] + Heard(codes[1..])
  }

  function Flat(codes: seq<seq<nat>>): seq<nat>
    decreases |codes|
  {
    if codes == [] then [] else Flat(codes[..|codes| - 1]) + codes[|codes| - 1]
  }

  /**
   The state in which the call that starts an operation leaves it: for so many blocks that were asked for, these
   failures heard until then, and whether the range was cut short because the next block was refused.
   */
  function Started(blocks: nat, codes: seq<nat>, cut: bool): Op
  {
    var op := OnResults(Op(blocks, false, []), Heard(codes));
    if cut then op.(failed := true, signals := op.signals + [RangeFailed(0)]) else op
  }

  lemma StartedIs(blocks: nat, codes: seq<nat>)
    ensures var op := Started(blocks, codes, false);
            && op.outstanding == blocks - |codes|
            && Started(blocks, codes, true) == op.(failed := true, signals := op.signals + [RangeFailed(0)])
  {
    OneMoreBlock(Op(blocks, false, []), Heard(codes));
  }

  lemma FlatStep(heard: seq<seq<nat>>, n: nat)
    requires n < |heard|
    ensures Flat(heard[..n + 1]) == Flat(heard[..n]) + heard[n]
  {
    assert heard[..n + 1][..n] == heard[..n];
  }

  lemma {:induction false} BlockCount(address: nat, data: seq<Byte>)
    ensures |Blocks(address, data)| == (|data| + BLOCK - 1) / BLOCK
    decreases |data|
  {
    if |data| > BLOCK {
      BlockCount(address + BLOCK, data[BLOCK..]);
    }
  }

  /** One more block that is asked for makes no difference to the failures before it. */
  lemma {:induction false} OneMoreBlock(op: Op, results: seq<Result>)
    requires forall i :: 0 <= i < |results| ==> results[i].Failure?
    ensures OnResults(op.(outstanding := op.outstanding + 1), results)
            == OnResults(op, results).(outstanding := OnResults(op, results).outstanding + 1)
    ensures OnResults(op, results).outstanding == op.outstanding - |results|
    decreases |results|
  {
    if results != [] {
      OneMoreBlock(OnResult(op, results[0]), results[1..]);
    }
  }

  lemma {:induction false} ResultsAppend(op: Op, a: seq<Result>, b: seq<Result>)
    ensures OnResults(op, a + b) == OnResults(OnResults(op, a), b)
    decreases |a|
  {
    if a == [] {
      assert a + b == b;
    } else {
      assert (a + b)[1..] == a[1..] + b;
      ResultsAppend(OnResult(op, a[0]), a[1..], b);
    }
  }

  lemma {:induction false} HeardAppend(a: seq<nat>, b: seq<nat>)
    ensures Heard(a + b) == Heard(a) + Heard(b)
    decreases |a|
  {
    if a == [] {
      assert a + b == b;
    } else {
      assert (a + b)[1..] == a[1..] + b;
      HeardAppend(a[1..], b);
    }
  }

  /**
   The signals of a whole operation, for any number of blocks, failures heard while it starts and results heard
   after that.  One signal, if and only if the range was cut short or a heard block failed, but not both at the
   start, or every block was heard.  A range that is cut short after a failure signals failure twice.
   */
  lemma OneSignalExactlyIf(blocks: nat, codes: seq<nat>, cut: bool, results: seq<Result>)
    requires 0 < blocks && |codes| + |results| <= blocks
    ensures var op := OnResults(Started(blocks, codes, cut), results);
            var good := codes == [] && forall i :: 0 <= i < |results| ==> results[i].Success?;
            && |op.signals| <= 2
            && (|op.signals| == 2 <==> cut && codes != [])
            && (|op.signals| == 0 <==> !cut && good && |results| < blocks)
            && (op.signals == [RangeDone] <==> !cut && good && |results| == blocks)
            && (RangeDone in op.signals ==> op.signals == [RangeDone])
  {
    hide OnResults;
    hide FirstFailure;
    var start := Op(blocks, false, []);
    if cut {
      FailuresOfAll(codes, []);
      SignalsExactly(start, Heard(codes));
      FailedStaysQuiet(Started(blocks, codes, cut), results);
      var signals := OnResults(Started(blocks, codes, cut), results).signals;
      assert signals[|signals| - 1] == RangeFailed(0);
    } else {
      FailuresOfAll(codes, results);
      ResultsAppend(start, Heard(codes), results);
      SignalsExactly(start, Heard(codes) + results);
    }
  }

  lemma FailuresOfAll(codes: seq<nat>, results: seq<Result>)
    ensures FirstFailure(Heard(codes) + results) == None <==>
              codes == [] && forall i :: 0 <= i < |results| ==> results[i].Success?
    ensures results == [] ==> Heard(codes) + results == Heard(codes)
  {
    hide FirstFailure;
    var all := Heard(codes) + results;
    FirstFailureExactly(all);
    assert codes != [] ==> all[0].Failure?;
    assert forall i :: 0 <= i < |results| ==> results[i] == all[|codes| + i];
    assert codes == [] ==> all == results;
  }

  lemma {:induction false} FirstFailureExactly(results: seq<Result>)
    ensures FirstFailure(results) == None <==> forall i :: 0 <= i < |results| ==> results[i].Success?
    decreases |results|
  {
    if results != [] {
      FirstFailureExactly(results[1..]);
      assert forall i :: 0 < i < |results| ==> results[i] == results[1..][i - 1];
    }
  }

  /** Where the n-th block of a range starts, and how long it is. */
  function NthBlock(address: nat, data: seq<Byte>, n: nat): Block
    requires BLOCK * n < |data|
  {
    Block(address + BLOCK * n, data[BLOCK * n..if |data| - BLOCK * n >= BLOCK then BLOCK * n + BLOCK else |data|])
  }

  lemma {:induction false} BlocksOneByOne(address: nat, data: seq<Byte>, n: nat)
    requires BLOCK * n < |data|
    ensures n < |Blocks(address, data)| && Blocks(address, data)[n] == NthBlock(address, data, n)
    decreases n
  {
    if |data| > BLOCK && n > 0 {
      var rest := data[BLOCK..];
      BlocksOneByOne(address + BLOCK, rest, n - 1);
      assert Blocks(address, data)[n] == Blocks(address + BLOCK, rest)[n - 1];
      assert NthBlock(address, data, n).data == NthBlock(address + BLOCK, rest, n - 1).data;
    }
  }

  // ---------------------------------------------------------------- the object

  class RangeOperation {
    var outstanding: int
    var failed: bool
    var signals: seq<Signal>

    function State(): Op
      reads this
    {
      Op(outstanding, failed, signals)
    }

    constructor ()
      ensures State() == Started(0, [], false)
    {
      outstanding, failed, signals := 0, false, [];
    }

    method BlockFailed(code: nat)
      modifies this
      ensures State() == OnResult(old(State()), Failure(code))
    {
      outstanding := outstanding - 1;
      if !failed {
        failed, signals := true, signals + [RangeFailed(code)];
      }
    }

    method BlocksFailed(codes: seq<nat>)
      modifies this
      ensures State() == OnResults(old(State()), Heard(codes))
    {
      ghost var start := State();
      for i := 0 to |codes|
        invariant State() == OnResults(start, Heard(codes[..i]))
      {
        assert codes[..i + 1] == codes[..i] + [codes[i]];
        HeardAppend(codes[..i], [codes[i]]);
        assert Heard([codes[i]]) == [Failure(codes[i])];
        ResultsAppend(start, Heard(codes[..i]), [Failure(codes[i])]);
        BlockFailed(codes[i]);
      }
      assert codes[..|codes|] == codes;
    }

    /** One more block, after those that failed while it was asked for. */
    method BlockAsked(codes: seq<nat>, ghost blocks: nat, ghost before: seq<nat>)
      requires State() == Started(blocks, before, false)
      modifies this
      ensures State() == Started(blocks + 1, before + codes, false)
    {
      HeardAppend(before, codes);
      ResultsAppend(Op(blocks, false, []), Heard(before), Heard(codes));
      OneMoreBlock(Op(blocks, false, []), Heard(before + codes));
      BlocksFailed(codes);
      outstanding := outstanding + 1;
    }
  }

  /** Whether the connection takes a request is a parameter of every call that makes one. */
  class SegmentMemory {
    const space: Byte
    var low: nat
    var high: nat
    var length: nat
    var offset: nat
    var phase: Phase
    var data: seq<Byte>
    var hasData: bool
    var invalid: bool

    function State(): Mirror
      reads this
    {
      Mirror(space, low, high, length, offset, phase, data, hasData, invalid)
    }

    constructor (space: Byte)
      ensures State() == Mirror(space, 0, 0, 0, 0, NotReadYet, [], false, false) && ReadingOk(State())
    {
      this.space, low, high, length, offset := space, 0, 0, 0, 0;
      phase, data, hasData, invalid := NotReadYet, [], false, false;
    }

    method ReadAllMemory(accepted: bool) returns (out: seq<Out>)
      modifies this
      ensures Turn(State(), out) == StartReading(old(State()), accepted)
    {
      if invalid {
        return [ReadFailed(0)];
      }
      if phase == ReadSpaceInfo || phase == ReadingMemory {
        return [];
      }
      phase, offset, data, hasData := ReadSpaceInfo, 0, [], false;
      if !accepted {
        phase := NotReadYet;
        return [ReadFailed(0)];
      }
      phase := ReadSpaceInfo;
      out := [AskInfo];
    }

    method AddressSpaceFinished(r: InfoReply, accepted: bool) returns (out: seq<Out>)
      modifies this
      ensures Turn(State(), out) == OnInfo(old(State()), r, accepted)
    {
      if r.error {
        phase := NotReadYet;
        return [ReadFailed(r.code)];
      }
      if r.high < r.low {
        invalid, phase := true, NotReadYet;
        return [ReadFailed(0)];
      }
      out := [];
      if phase == ReadSpaceInfo && r.space == space {
        low, high := r.low, r.high;
        if !r.exists_ && r.high == 0 {
          length := 0;
        } else {
          length := (high - low + 1) % WORD_LIMIT;
        }
        offset, phase := 0, ReadingMemory;
        out := ReadNextBlock(accepted);
      }
    }

    method AddressSpaceRead(r: BlockReply, accepted: bool) returns (out: seq<Out>)
      modifies this
      ensures Turn(State(), out) == OnBlock(old(State()), r, accepted)
    {
      if r.error {
        if phase != ReadingMemory {
          return [];
        }
        phase := NotReadYet;
        return [ReadFailed(r.code)];
      }
      out := [];
      if phase == ReadingMemory && r.space == space {
        offset := offset + |r.data|;
        data := data + r.data;
        var progress := Progress(|data|, length);
        if r.data == [] {
          length := offset;
        }
        var next := ReadNextBlock(accepted);
        out := [progress] + next;
      }
    }

    method ReadNextBlock(accepted: bool) returns (out: seq<Out>)
      modifies this
      ensures Turn(State(), out) == ReadNext(old(State()), accepted)
    {
      if offset >= length {
        phase, hasData := MemoryComplete, true;
        return [Progress(|data|, |data|), DataChanged(low, |data|), MemoryReady];
      }
      var lenToRead := length - offset;
      if lenToRead > BLOCK {
        lenToRead := BLOCK;
      }
      if accepted {
        out := [AskBlock(low + offset, lenToRead)];
      } else {
        phase := NotReadYet;
        out := [ReadFailed(0)];
      }
    }

    /** Byte by byte, as far as the mirror goes. */
    method UpdateData(address: nat, bytes: seq<Byte>) returns (out: seq<Out>)
      modifies this`data
      ensures State() == Update(old(State()), address, bytes)
      ensures out == if address >= low && bytes != [] && address - low < |data|
                     then [DataChanged(address, |bytes|)] else []
    {
      out := [];
      if address < low {
        return;
      }
      var index := address - low;
      var x := 0;
      while x < |bytes| && index + x < |data|
        invariant x <= |bytes| && |data| == |old(data)|
        invariant index + x <= |data| || x == 0
        invariant forall i :: 0 <= i < |data| ==>
                    data[i] == if index <= i < index + x then bytes[i - index] else old(data)[i]
      {
        data := data[index + x := bytes[x]];
        x := x + 1;
      }
      if bytes != [] && index < |data| {
        out := [DataChanged(address, |bytes|)];
      }
    }

    /**
     Cuts the data into blocks and makes a request for each, until one is not taken.  If nothing is outstanding then,
     the call fails; otherwise the failure is signalled, and the blocks before it still report back.  Blocks that
     were asked for can fail while the next one is being asked for: heard has their errors, request by request.
     */
    method WriteRange(address: nat, bytes: seq<Byte>, accepted: seq<bool>, heard: seq<seq<nat>>)
      returns (ok: bool, blocks: seq<Block>, op: RangeOperation)
      requires address + |bytes| <= WORD_LIMIT
      requires |accepted| == |Blocks(address, bytes)| == |heard|
      ensures fresh(op) && blocks <= Blocks(address, bytes)
      ensures forall i :: 0 <= i < |blocks| ==> accepted[i]
      ensures |blocks| < |accepted| ==> !accepted[|blocks|]
      ensures var cut := |blocks| < |accepted|;
              && (ok <==> blocks != [] && (cut ==> |blocks| != |Flat(heard[..|blocks|])|))
              && op.State() == Started(|blocks|, Flat(heard[..|blocks|]), ok && cut)
    {
      hide Blocks;
      hide Started;
      BlockCount(address, bytes);
      assert Flat(heard[..0]) == [];
      op := new RangeOperation();
      blocks := [];
      if bytes == [] {
        return false, blocks, op;
      }
      var offset := 0;
      ghost var all := Blocks(address, bytes);
      while offset < |bytes|
        invariant |blocks| <= |all| && blocks == all[..|blocks|] && offset == BLOCK * |blocks|
        invariant forall i :: 0 <= i < |blocks| ==> accepted[i]
        invariant fresh(op) && op.State() == Started(|blocks|, Flat(heard[..|blocks|]), false)
        decreases |bytes| - offset
      {
        ghost var n := |blocks|;
        BlocksOneByOne(address, bytes, n);
        StartedIs(n, Flat(heard[..n]));
        var end := if |bytes| - offset >= BLOCK then offset + BLOCK else |bytes|;
        var block := Block(address + offset, bytes[offset..end]);
        if !accepted[|blocks|] {
          if op.outstanding == 0 {
            return false, blocks, op;
          }
          op.failed, op.signals := true, op.signals + [RangeFailed(0)];
          return true, blocks, op;
        }
        FlatStep(heard, n);
        op.BlockAsked(heard[|blocks|], n, Flat(heard[..n]));
        blocks := blocks + [block];
        offset := offset + BLOCK;
      }
      ok := true;
    }

    /** The same for reading: the blocks that are asked for are those of any data of this length. */
    method ReadRange(address: nat, length: int, accepted: seq<bool>, heard: seq<seq<nat>>, ghost bytes: seq<Byte>)
      returns (ok: bool, asked: seq<(nat, nat)>, op: RangeOperation)
      requires address + length <= WORD_LIMIT && |bytes| == (if length < 0 then 0 else length)
      requires |accepted| == |Blocks(address, bytes)| == |heard|
      ensures fresh(op) && |asked| <= |accepted|
      ensures forall i :: 0 <= i < |asked| ==>
                accepted[i] && asked[i] == (Blocks(address, bytes)[i].address, |Blocks(address, bytes)[i].data|)
      ensures |asked| < |accepted| ==> !accepted[|asked|]
      ensures var cut := |asked| < |accepted|;
              && (ok <==> asked != [] && (cut ==> |asked| != |Flat(heard[..|asked|])|))
              && op.State() == Started(|asked|, Flat(heard[..|asked|]), ok && cut)
    {
      hide Blocks;
      hide Started;
      BlockCount(address, bytes);
      assert Flat(heard[..0]) == [];
      op := new RangeOperation();
      asked := [];
      if length <= 0 {
        return false, asked, op;
      }
      var offset := 0;
      ghost var all := Blocks(address, bytes);
      while offset < length
        invariant |asked| <= |all| && offset == BLOCK * |asked|
        invariant forall i :: 0 <= i < |asked| ==> accepted[i] && asked[i] == (all[i].address, |all[i].data|)
        invariant fresh(op) && op.State() == Started(|asked|, Flat(heard[..|asked|]), false)
        decreases length - offset
      {
        ghost var n := |asked|;
        BlocksOneByOne(address, bytes, n);
        StartedIs(n, Flat(heard[..n]));
        var blockLen := if BLOCK < length - offset then BLOCK else length - offset;
        if !accepted[|asked|] {
          if op.outstanding == 0 {
            return false, asked, op;
          }
          op.failed, op.signals := true, op.signals + [RangeFailed(0)];
          return true, asked, op;
        }
        FlatStep(heard, n);
        op.BlockAsked(heard[|asked|], n, Flat(heard[..n]));
        asked := asked + [(address + offset, blockLen)];
        offset := offset + BLOCK;
      }
      ok := true;
    }

    /** A block that was read comes back, or one that was written.  The mirror takes what the node has. */
    method BlockFinished(op: RangeOperation, block: Block, r: Result)
      modifies this`data, op
      ensures op.State() == OnResult(old(op.State()), r)
      ensures State() == if r.Success? then Update(old(State()), block.address, block.data) else old(State())
    {
      if r.Failure? {
        op.BlockFailed(r.code);
        return;
      }
      op.outstanding := op.outstanding - 1;
      var out := UpdateData(block.address, block.data);
      if op.outstanding == 0 && !op.failed {
        op.signals := op.signals + [RangeDone];
      }
    }
  }
}
