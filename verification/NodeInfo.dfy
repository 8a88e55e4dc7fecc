/**
 Simple Node Information: six strings that a node sends in frames of up to six bytes (LCC/lcc-addressed.c), and
 that are taken apart again by whoever hears them (LCC/lcc-network-info.c).
 */
module NodeInfo {
  import opened CanId

  const MTI_REPLY := 0xA08
  const RX_BUFFER := 255
  const FIRST := 1
  const LAST := 2
  const MIDDLE := 3

  datatype Info = Info(manufacturer: seq<Byte>, model: seq<Byte>, hardware: seq<Byte>, software: seq<Byte>,
                       name: seq<Byte>, description: seq<Byte>)

  predicate StringOk(s: seq<Byte>, limit: nat) { 0 !in s && |s| <= limit }

  predicate InfoOk(i: Info)
  {
    && StringOk(i.manufacturer, 40) && StringOk(i.model, 40)
    && StringOk(i.hardware, 20) && StringOk(i.software, 20)
    && StringOk(i.name, 62) && StringOk(i.description, 63)
  }

  // ---------------------------------------------------------------- the sender

  /** Two blocks of strings, each with its number in front; every string ends with a zero. */
  function Block(i: Info): seq<Byte>
  {
    [4] + (i.manufacturer + [0]) + (i.model + [0]) + (i.hardware + [0]) + (i.software + [0])
    + [2] + (i.name + [0]) + (i.description + [0])
  }

  function FlagOf(k: nat, len: nat): nat { if k == 0 then FIRST else if k == len / 6 then LAST else MIDDLE }

  function Header(flag: nat, dest: nat): (h: seq<Byte>)
    requires flag < 4
    ensures |h| == 2
  {
    [flag * 0x10 + dest / 0x100 % 0x10, dest % 0x100]
  }

  /** Six bytes in every frame but the last, which has what is left, if only nothing. */
  function Part(block: seq<Byte>, k: nat): seq<Byte>
    requires k <= |block| / 6
  {
    block[6 * k..if k == |block| / 6 then |block| else 6 * k + 6]
  }

  function Frames(source: nat, dest: nat, block: seq<Byte>): seq<Frame>
  {
    seq(|block| / 6 + 1, k requires 0 <= k <= |block| / 6 =>
          Frame(MessageId(1, MTI_REPLY, source), Header(FlagOf(k, |block|), dest) + Part(block, k)))
  }

  /** Every frame says who sends it and who it is for. */
  lemma FramesAreAddressed(source: nat, dest: nat, block: seq<Byte>, k: nat)
    requires source < ALIAS_LIMIT && dest < ALIAS_LIMIT && k < |Frames(source, dest, block)|
    ensures var f := Frames(source, dest, block)[k];
            && IsMessage(f.id) && FrameTypeOf(f.id) == 1 && FieldOf(f.id) == 0xA08 && AliasOf(f.id) == source
            && 2 <= |f.data| <= 8 && f.data[0] as int % 0x10 * 0x100 + f.data[1] as int == dest
            && f.data[0] / 0x10 == if k == 0 then 1 else if k == |Frames(source, dest, block)| - 1 then 2 else 3
  {
    MessageIdFields(1, MTI_REPLY, source);
    var flag := FlagOf(k, |block|);
    var h := Header(flag, dest);
    assert Frames(source, dest, block)[k].data == h + Part(block, k);
    assert dest / 0x100 % 0x10 == dest / 0x100;
    assert h[0] == flag * 0x10 + dest / 0x100 && h[0] / 0x10 == flag && h[0] as int % 0x10 == dest / 0x100;
  }

  /** One string with its zero, into the array from a position on. */
  method CopyString(a: array<Byte>, at: nat, s: seq<Byte>) returns (next: nat)
    requires at + |s| < a.Length
    modifies a
    ensures next == at + |s| + 1 && a[..next] == old(a[..at]) + (s + [0])
  {
    if |s| == 0 {
      a[at] := 0;
      return at + 1;
    }
    forall i | 0 <= i < |s| {
      a[at + i] := s[i];
    }
    a[at + |s|] := 0;
    next := at + |s| + 1;
  }

  method BuildBlock(i: Info) returns (block: seq<Byte>)
    requires InfoOk(i)
    ensures block == Block(i)
  {
    var a := new Byte[253](_ => 0);
    a[0] := 4;
    assert a[..1] == [4];
    var n := CopyString(a, 1, i.manufacturer);
    n := CopyString(a, n, i.model);
    n := CopyString(a, n, i.hardware);
    n := CopyString(a, n, i.software);
    ghost var first := a[..n];
    a[n] := 2;
    n := n + 1;
    assert a[..n] == first + [2];
    n := CopyString(a, n, i.name);
    n := CopyString(a, n, i.description);
    block := a[..n];
  }

  /** The loop stops at the first frame that the bus does not take. */
  method SendInfo(source: nat, sender: nat, i: Info, room: nat) returns (ok: bool, frames: seq<Frame>)
    requires InfoOk(i)
    ensures ok <==> |Frames(source, sender, Block(i))| <= room
    ensures frames == if ok then Frames(source, sender, Block(i)) else Frames(source, sender, Block(i))[..room]
  {
    var block := BuildBlock(i);
    BlockLength(i);
    frames := [];
    var offset, numPackets := 0, 0;
    while numPackets < |block| / 6 + 1
      invariant numPackets <= |block| / 6 + 1 && offset == 6 * numPackets && numPackets <= room
      invariant frames == Frames(source, sender, block)[..numPackets]
    {
      var count, flag := 6, MIDDLE;
      if numPackets == 0 {
        flag := FIRST;
      } else if numPackets == |block| / 6 {
        count, flag := |block| % 6, LAST;
      }
      if numPackets == room {
        return false, frames;
      }
      frames := frames + [Frame(MessageId(1, MTI_REPLY, source), Header(flag, sender) + block[offset..offset + count])];
      offset := offset + 6;
      numPackets := numPackets + 1;
    }
    ok := true;
  }

  lemma BlockLength(i: Info)
    requires InfoOk(i)
    ensures 8 <= |Block(i)| <= 253
  {
  }

  // ---------------------------------------------------------------- the receiver

  /** Overrun stands for bytes past the end of the buffer, or for more strings than there is room for. */
  datatype Rx = Rx(buffer: seq<Byte>, location: nat, info: Info, updates: nat, overrun: bool)

  ghost predicate RxOk(r: Rx) { |r.buffer| == RX_BUFFER && r.location <= RX_BUFFER }

  datatype State = FirstChar | InString | DescriptionCount

  /** Where the strings start, by going through the bytes one by one. */
  function Walk(b: seq<Byte>, x: nat, len: nat, state: State, starts: seq<nat>): seq<nat>
    requires len <= |b|
    decreases |b| - x
  {
    if x >= len then starts
    else
      var started := if state.FirstChar? then starts + [x] else starts;
      if !state.DescriptionCount? then
        if b[x] != 0 then Walk(b, x + 1, len, InString, started)
        else Walk(b, x + 1, len, if |started| == 4 then DescriptionCount else FirstChar, started)
      else if b[x] != 2 then started
      else Walk(b, x + 1, len, FirstChar, started)
  }

  /** The C string at a position, as far as the buffer goes. */
  function StringAt(b: seq<Byte>, x: nat): seq<Byte>
    decreases |b| - x
  {
    if x >= |b| || b[x] == 0 then [] else [b[x]] + StringAt(b, x + 1)
  }

  function Limited(s: seq<Byte>, limit: nat): seq<Byte> { if |s| <= limit then s else s[..limit] }

  /** What is known of the node, with the strings that were found. */
  function Parsed(b: seq<Byte>, starts: seq<nat>, old_: Info): Info
  {
    var n := |starts|;
    Info(if n > 0 then Limited(StringAt(b, starts[0]), 40) else old_.manufacturer,
         if n > 1 then Limited(StringAt(b, starts[1]), 40) else old_.model,
         if n > 2 then Limited(StringAt(b, starts[2]), 20) else old_.hardware,
         if n > 3 then Limited(StringAt(b, starts[3]), 20) else old_.software,
         if n > 4 then Limited(StringAt(b, starts[4]), 62) else old_.name,
         if n > 5 then Limited(StringAt(b, starts[5]), 63) else old_.description)
  }

  function InOrder(i: Info): seq<seq<Byte>>
  {
    [i.manufacturer, i.model, i.hardware, i.software, i.name, i.description]
  }

  /** The strings that are there are taken in order, as far as there is room, and the others stay what they were. */
  lemma ParsedInOrder(b: seq<Byte>, starts: seq<nat>, before: Info, k: nat)
    requires k < 6
    ensures InOrder(Parsed(b, starts, before))[k]
            == if k >= |starts| then InOrder(before)[k]
               else
                 var s, room := StringAt(b, starts[k]), [40, 40, 20, 20, 62, 63][k];
                 if |s| > room then s[..room] else s
  {
  }

  /** Data in place of what was there. */
  function PutInto(buffer: seq<Byte>, at: nat, data: seq<Byte>): (b: seq<Byte>)
    requires at + |data| <= |buffer|
    ensures |b| == |buffer|
  {
    buffer[..at] + data + buffer[at + |data|..]
  }

  lemma PutNothing(buffer: seq<Byte>, at: nat, data: seq<Byte>)
    requires at <= |buffer|
    ensures PutInto(buffer, at, data[..0]) == buffer
  {
  }

  lemma PutOneMore(buffer: seq<Byte>, at: nat, data: seq<Byte>, x: nat)
    requires at + |data| <= |buffer| && x < |data|
    ensures PutInto(buffer, at, data[..x])[at + x := data[x]] == PutInto(buffer, at, data[..x + 1])
  {
  }

  function Collected(r: Rx, data: seq<Byte>): (c: Rx)
    requires RxOk(r)
    ensures RxOk(c)
  {
    if r.location + |data| > RX_BUFFER then r.(overrun := true)
    else r.(buffer := PutInto(r.buffer, r.location, data), location := r.location + |data|)
  }

  /** After the last frame.  If the first byte is not 4, nothing is read and nothing is cleared. */
  function Finished(r: Rx): (c: Rx)
    requires RxOk(r)
    ensures RxOk(c)
  {
    if r.buffer[0] != 4 then r
    else
      var starts := Walk(r.buffer, 1, r.location, FirstChar, []);
      if |starts| > 6 then r.(overrun := true)
      else r.(info := Parsed(r.buffer, starts, r.info), location := 0, updates := r.updates + 1)
  }

  predicate IsLast(first: Byte) { first / 0x10 % 4 == LAST }

  /** Of the two bits that say which frame it is, the upper one is set and the lower one is not. */
  lemma IsLastExactly(first: Byte)
    ensures IsLast(first) <==> first / 0x20 % 2 == 1 && first / 0x10 % 2 == 0
  {
  }

  /** More than the buffer holds is not taken, and is marked. */
  lemma OverrunExactly(r: Rx, data: seq<Byte>)
    requires RxOk(r)
    ensures Collected(r, data).overrun <==> r.overrun || r.location + |data| > 255
    ensures r.location + |data| > 255 ==> Collected(r, data) == r.(overrun := true)
    ensures Finished(r).overrun <==>
              r.overrun || (r.buffer[0] == 4 && |Walk(r.buffer, 1, r.location, FirstChar, [])| > 6)
  {
  }

  function Receive(r: Rx, f: Frame): (c: Rx)
    requires RxOk(r)
    ensures RxOk(c)
  {
    if |f.data| < 2 then r
    else
      var c := Collected(r, f.data[2..]);
      if IsLast(f.data[0]) then Finished(c) else c
  }

  function ReceiveAll(r: Rx, frames: seq<Frame>): (c: Rx)
    requires RxOk(r)
    ensures RxOk(c)
    decreases |frames|
  {
    if frames == [] then r else ReceiveAll(Receive(r, frames[0]), frames[1..])
  }

  // ---------------------------------------------------------------- the round trip

  lemma {:induction false} WalkInString(b: seq<Byte>, x: nat, len: nat, s: seq<Byte>, starts: seq<nat>)
    requires x + |s| < len <= |b| && 0 !in s && b[x..x + |s|] == s && b[x + |s|] == 0
    ensures Walk(b, x, len, InString, starts)
            == Walk(b, x + |s| + 1, len, if |starts| == 4 then DescriptionCount else FirstChar, starts)
    decreases |s|
  {
    if s != [] {
      assert b[x] == b[x..x + |s|][0] == s[0];
      assert s[0] in s;
      assert b[x + 1..x + 1 + |s[1..]|] == b[x..x + |s|][1..];
      WalkInString(b, x + 1, len, s[1..], starts);
    }
  }

  /** A whole string, from its first character to after its zero. */
  lemma WalkString(b: seq<Byte>, x: nat, len: nat, s: seq<Byte>, starts: seq<nat>)
    requires x + |s| < len <= |b| && 0 !in s && b[x..x + |s| + 1] == s + [0]
    ensures Walk(b, x, len, FirstChar, starts)
            == Walk(b, x + |s| + 1, len, if |starts| == 3 then DescriptionCount else FirstChar, starts + [x])
    ensures b[x + |s|] == 0 && b[x..x + |s|] == s
  {
    assert b[x + |s|] == b[x..x + |s| + 1][|s|] == 0;
    assert b[x..x + |s|] == b[x..x + |s| + 1][..|s|] == s;
    if s != [] {
      assert b[x] == b[x..x + |s|][0] == s[0];
      assert s[0] in s;
      assert b[x + 1..x + 1 + |s[1..]|] == b[x..x + |s|][1..];
      WalkInString(b, x + 1, len, s[1..], starts + [x]);
    }
  }

  lemma {:induction false} StringIsThere(b: seq<Byte>, x: nat, s: seq<Byte>)
    requires x + |s| < |b| && 0 !in s && b[x..x + |s|] == s && b[x + |s|] == 0
    ensures StringAt(b, x) == s
    decreases |s|
  {
    if s != [] {
      assert b[x] == b[x..x + |s|][0] == s[0];
      assert s[0] in s;
      assert b[x + 1..x + 1 + |s[1..]|] == b[x..x + |s|][1..];
      StringIsThere(b, x + 1, s[1..]);
    }
  }

  /** Where in the block each string is. */
  lemma BlockParts(i: Info, p: seq<nat>)
    requires |p| == 6 && p[0] == 1 && p[1] == p[0] + |i.manufacturer| + 1 && p[2] == p[1] + |i.model| + 1
    requires p[3] == p[2] + |i.hardware| + 1 && p[4] == p[3] + |i.software| + 2 && p[5] == p[4] + |i.name| + 1
    ensures var block := Block(i);
            && |block| == p[5] + |i.description| + 1 && block[0] == 4 && block[p[4] - 1] == 2
            && block[p[0]..p[1]] == i.manufacturer + [0] && block[p[1]..p[2]] == i.model + [0]
            && block[p[2]..p[3]] == i.hardware + [0] && block[p[3]..p[4] - 1] == i.software + [0]
            && block[p[4]..p[5]] == i.name + [0] && block[p[5]..] == i.description + [0]
  {
    var m := [4] + (i.manufacturer + [0]);
    var o := m + (i.model + [0]);
    var h := o + (i.hardware + [0]);
    var w := h + (i.software + [0]);
    var c := w + [2];
    var n := c + (i.name + [0]);
    var block := Block(i);
    PartAt(n, i.description + [0], block);
    PartAt(c, i.name + [0], block);
    PartAt(w, [2], block);
    PartAt(h, i.software + [0], block);
    PartAt(o, i.hardware + [0], block);
    PartAt(m, i.model + [0], block);
    PartAt([4], i.manufacturer + [0], block);
    assert block[p[4] - 1] == block[p[4] - 1..p[4]][0];
  }

  lemma PartAt(before: seq<Byte>, s: seq<Byte>, whole: seq<Byte>)
    requires before + s <= whole
    ensures before <= whole && whole[|before|..|before| + |s|] == s
  {
    assert whole[..|before + s|] == before + s;
  }

  /** The next string of a block that is at the front of the buffer. */
  lemma NextString(b: seq<Byte>, block: seq<Byte>, from: nat, to: nat, s: seq<Byte>, starts: seq<nat>, more: seq<nat>)
    requires from < to <= |block| <= |b| && b[..|block|] == block && block[from..to] == s + [0] && 0 !in s
    requires more == starts + [from]
    ensures Walk(b, from, |block|, FirstChar, starts)
            == Walk(b, to, |block|, if |starts| == 3 then DescriptionCount else FirstChar, more)
    ensures StringAt(b, from) == s
  {
    SamePart(b, block, from, to);
    WalkString(b, from, |block|, s, starts);
    StringIsThere(b, from, s);
  }

  /** The strings of the first block, and the number after them. */
  lemma FirstFour(i: Info, b: seq<Byte>, p: seq<nat>)
    requires InfoOk(i) && |Block(i)| <= |b| && b[..|Block(i)|] == Block(i)
    requires |p| == 6 && p[0] == 1 && p[1] == p[0] + |i.manufacturer| + 1 && p[2] == p[1] + |i.model| + 1
    requires p[3] == p[2] + |i.hardware| + 1 && p[4] == p[3] + |i.software| + 2 && p[5] == p[4] + |i.name| + 1
    ensures Walk(b, 1, |Block(i)|, FirstChar, []) == Walk(b, p[4], |Block(i)|, FirstChar, [p[0], p[1], p[2], p[3]])
    ensures StringAt(b, p[0]) == i.manufacturer && StringAt(b, p[1]) == i.model
    ensures StringAt(b, p[2]) == i.hardware && StringAt(b, p[3]) == i.software
  {
    hide Block;
    hide Walk;
    hide StringAt;
    var block := Block(i);
    BlockParts(i, p);
    NextString(b, block, p[0], p[1], i.manufacturer, [], [p[0]]);
    NextString(b, block, p[1], p[2], i.model, [p[0]], [p[0], p[1]]);
    NextString(b, block, p[2], p[3], i.hardware, [p[0], p[1]], [p[0], p[1], p[2]]);
    NextString(b, block, p[3], p[4] - 1, i.software, [p[0], p[1], p[2]], [p[0], p[1], p[2], p[3]]);
    assert b[p[4] - 1] == b[..|block|][p[4] - 1];
    WalkCount(b, p[4] - 1, |block|, [p[0], p[1], p[2], p[3]]);
  }

  lemma LastTwo(i: Info, b: seq<Byte>, p: seq<nat>)
    requires InfoOk(i) && |Block(i)| <= |b| && b[..|Block(i)|] == Block(i)
    requires |p| == 6 && p[0] == 1 && p[1] == p[0] + |i.manufacturer| + 1 && p[2] == p[1] + |i.model| + 1
    requires p[3] == p[2] + |i.hardware| + 1 && p[4] == p[3] + |i.software| + 2 && p[5] == p[4] + |i.name| + 1
    ensures Walk(b, p[4], |Block(i)|, FirstChar, p[..4]) == p
    ensures StringAt(b, p[4]) == i.name && StringAt(b, p[5]) == i.description
  {
    hide Block;
    hide Walk;
    hide StringAt;
    var block := Block(i);
    BlockParts(i, p);
    assert p == p[..5] + [p[5]] && p[..5] == p[..4] + [p[4]];
    assert block[p[5]..|block|] == block[p[5]..];
    NextString(b, block, p[4], p[5], i.name, p[..4], p[..5]);
    NextString(b, block, p[5], |block|, i.description, p[..5], p);
    WalkEnd(b, |block|, p);
  }

  /** The block, with whatever is behind it in the buffer, is read back as it was. */
  lemma BlockReadBack(i: Info, b: seq<Byte>)
    requires InfoOk(i) && |Block(i)| <= |b| && b[..|Block(i)|] == Block(i)
    ensures var starts := Walk(b, 1, |Block(i)|, FirstChar, []);
            b[0] == 4 && |starts| == 6 && forall old_ :: Parsed(b, starts, old_) == i
  {
    hide Block;
    hide Walk;
    hide StringAt;
    var p1 := 1 + |i.manufacturer| + 1;
    var p2 := p1 + |i.model| + 1;
    var p3 := p2 + |i.hardware| + 1;
    var p4 := p3 + |i.software| + 2;
    var p := [1, p1, p2, p3, p4, p4 + |i.name| + 1];
    BlockParts(i, p);
    assert b[0] == b[..|Block(i)|][0];
    FirstFour(i, b, p);
    assert p[..4] == [p[0], p[1], p[2], p[3]];
    LastTwo(i, b, p);
  }

  lemma SamePart(b: seq<Byte>, block: seq<Byte>, from: nat, to: nat)
    requires from <= to <= |block| <= |b| && b[..|block|] == block
    ensures b[from..to] == block[from..to]
  {
    assert forall x :: from <= x < to ==> b[x] == b[..|block|][x] == block[x];
  }

  lemma WalkCount(b: seq<Byte>, x: nat, len: nat, starts: seq<nat>)
    requires x < len <= |b| && b[x] == 2
    ensures Walk(b, x, len, DescriptionCount, starts) == Walk(b, x + 1, len, FirstChar, starts)
  {
  }

  lemma WalkEnd(b: seq<Byte>, len: nat, starts: seq<nat>)
    requires len <= |b|
    ensures Walk(b, len, len, FirstChar, starts) == starts
  {
  }

  lemma CollectedAppend(r: Rx, a: seq<Byte>, b: seq<Byte>)
    requires RxOk(r) && r.location + |a| + |b| <= RX_BUFFER
    ensures Collected(Collected(r, a), b) == Collected(r, a + b)
  {
    var both := Collected(Collected(r, a), b);
    assert both.buffer == Collected(r, a + b).buffer;
  }

  lemma FrameParts(source: nat, dest: nat, block: seq<Byte>, k: nat)
    requires 6 <= |block| && k <= |block| / 6
    ensures var f := Frames(source, dest, block)[k];
            |f.data| >= 2 && f.data[2..] == Part(block, k) && (IsLast(f.data[0]) <==> k == |block| / 6)
  {
    var f := Frames(source, dest, block)[k];
    var flag := FlagOf(k, |block|);
    assert f.data[0] == flag * 0x10 + dest / 0x100 % 0x10;
    assert f.data[0] / 0x10 == flag;
  }

  /** The frames of a reply do to the receiver what all of its bytes at once would do. */
  lemma {:induction false} FramesCollectBlock(r: Rx, source: nat, dest: nat, block: seq<Byte>, k: nat)
    requires RxOk(r) && r.location + |block| <= RX_BUFFER && 6 <= |block| && k <= |block| / 6
    ensures ReceiveAll(Collected(r, block[..6 * k]), Frames(source, dest, block)[k..]) == Finished(Collected(r, block))
    decreases |block| / 6 - k
  {
    hide Collected;
    hide Finished;
    var frames := Frames(source, dest, block);
    FrameParts(source, dest, block, k);
    assert frames[k..][0] == frames[k] && frames[k..][1..] == frames[k + 1..];
    CollectedAppend(r, block[..6 * k], Part(block, k));
    if k < |block| / 6 {
      assert block[..6 * k] + Part(block, k) == block[..6 * (k + 1)];
      FramesCollectBlock(r, source, dest, block, k + 1);
    } else {
      assert block[..6 * k] + Part(block, k) == block;
      assert frames[k + 1..] == [];
    }
  }

  /** From any state in which the reply fits into the buffer, also with something left from an earlier one. */
  lemma ReplyIsHandled(r: Rx, source: nat, dest: nat, i: Info)
    requires InfoOk(i) && RxOk(r) && r.location + |Block(i)| <= RX_BUFFER
    ensures ReceiveAll(r, Frames(source, dest, Block(i))) == Finished(Collected(r, Block(i)))
  {
    hide Block;
    hide Frames;
    hide ReceiveAll;
    hide Finished;
    BlockLength(i);
    FramesCollectBlock(r, source, dest, Block(i), 0);
    assert Frames(source, dest, Block(i))[0..] == Frames(source, dest, Block(i));
    assert r.buffer[..r.location] + [] + r.buffer[r.location..] == r.buffer;
    assert Block(i)[..6 * 0] == [];
  }

  /**
   Any six strings of the allowed lengths, empty ones included, arrive as they were sent, and the buffer is ready
   for the next time.
   */
  lemma InfoArrives(r: Rx, source: nat, dest: nat, i: Info)
    requires InfoOk(i) && RxOk(r) && r.location == 0
    ensures var c := ReceiveAll(r, Frames(source, dest, Block(i)));
            c.info == i && c.location == 0 && c.updates == r.updates + 1 && c.overrun == r.overrun
  {
    hide Block;
    hide Walk;
    hide Parsed;
    BlockLength(i);
    ReplyIsHandled(r, source, dest, i);
    var c := Collected(r, Block(i));
    assert c.buffer[..|Block(i)|] == Block(i);
    BlockReadBack(i, c.buffer);
  }

  // ---------------------------------------------------------------- what is left from other replies

  /** There are more strings than six in what has been collected. */
  predicate Overfull(r: Rx)
    requires r.location <= |r.buffer|
  {
    |Walk(r.buffer, 1, r.location, FirstChar, [])| > 6
  }

  /** What is in the buffer will never be read, nor cleared. */
  predicate Blocked(r: Rx)
    requires |r.buffer| == RX_BUFFER && r.location <= RX_BUFFER
  {
    r.location > 0 && (r.buffer[0] != 4 || Overfull(r))
  }

  /** More bytes never make fewer strings. */
  lemma {:induction false} WalkGrows(a: seq<Byte>, b: seq<Byte>, x: nat, len: nat, more: nat, state: State,
                                     starts: seq<nat>)
    requires len <= more <= |b| && len <= |a| && a[..len] == b[..len]
    ensures |Walk(a, x, len, state, starts)| <= |Walk(b, x, more, state, starts)|
    decreases |a| - x
  {
    if x >= len {
      WalkAdds(b, x, more, state, starts);
    } else {
      assert a[x] == a[..len][x] == b[..len][x] == b[x];
      var started := if state.FirstChar? then starts + [x] else starts;
      if !state.DescriptionCount? {
        var next := if b[x] != 0 then InString else if |started| == 4 then DescriptionCount else FirstChar;
        WalkGrows(a, b, x + 1, len, more, next, started);
      } else if b[x] == 2 {
        WalkGrows(a, b, x + 1, len, more, FirstChar, started);
      }
    }
  }

  lemma {:induction false} WalkAdds(b: seq<Byte>, x: nat, len: nat, state: State, starts: seq<nat>)
    requires len <= |b|
    ensures |starts| <= |Walk(b, x, len, state, starts)|
    decreases |b| - x
  {
    if x < len {
      var started := if state.FirstChar? then starts + [x] else starts;
      if !state.DescriptionCount? {
        var next := if b[x] != 0 then InString else if |started| == 4 then DescriptionCount else FirstChar;
        WalkAdds(b, x + 1, len, next, started);
      } else if b[x] == 2 {
        WalkAdds(b, x + 1, len, FirstChar, started);
      }
    }
  }

  lemma BlockedStays(r: Rx, f: Frame)
    requires RxOk(r) && Blocked(r)
    ensures var c := Receive(r, f); Blocked(c) && c.info == r.info && c.updates == r.updates
  {
    if |f.data| >= 2 {
      var c := Collected(r, f.data[2..]);
      assert c.buffer[..r.location] == r.buffer[..r.location];
      assert c.buffer[0] == c.buffer[..r.location][0] == r.buffer[..r.location][0];
      WalkGrows(r.buffer, c.buffer, 1, r.location, c.location, FirstChar, []);
    }
  }

  lemma {:induction false} BlockedForGood(r: Rx, frames: seq<Frame>)
    requires RxOk(r) && Blocked(r)
    ensures var c := ReceiveAll(r, frames); Blocked(c) && c.info == r.info && c.updates == r.updates
    decreases |frames|
  {
    hide Receive;
    hide Blocked;
    if frames != [] {
      BlockedStays(r, frames[0]);
      BlockedForGood(Receive(r, frames[0]), frames[1..]);
    }
  }

  ghost predicate ReadAgain(r: Rx, frames: seq<Frame>)
    requires RxOk(r)
  {
    ReceiveAll(r, frames).updates > r.updates
  }

  /** An empty last frame makes the receiver read what it has. */
  lemma LastFrameReads(r: Rx)
    requires RxOk(r) && r.location > 0 && !Blocked(r)
    ensures ReadAgain(r, [Frame(0, Header(LAST, 0))])
  {
    var f := Frame(0, Header(LAST, 0));
    assert f.data[2..] == [] && IsLast(f.data[0]);
    assert r.buffer[..r.location] + [] + r.buffer[r.location..] == r.buffer;
    assert Collected(r, []) == r;
    assert [f][1..] == [];
  }

  /**
   Something is read from the node again if and only if the buffer is empty, or what is left in it begins with 4 and
   does not hold more than six strings.
   */
  lemma ReadAgainExactlyIf(r: Rx)
    requires RxOk(r)
    ensures (exists frames :: ReadAgain(r, frames))
            <==> r.location == 0 || (r.buffer[0] == 4 && !Overfull(r))
  {
    if Blocked(r) {
      forall frames
        ensures !ReadAgain(r, frames)
      {
        BlockedForGood(r, frames);
      }
    } else if r.location == 0 {
      var empty := Info([], [], [], [], [], []);
      InfoArrives(r, 0, 0, empty);
      assert ReadAgain(r, Frames(0, 0, Block(empty)));
    } else {
      LastFrameReads(r);
    }
  }

  /**
   A complete reply after an incomplete one: both are read as one, so the strings are not those of the reply.  But
   that clears the buffer, and the reply after it arrives as it was sent.
   */
  lemma ReplyAfterIncomplete(r: Rx, source: nat, dest: nat, i: Info, next: Info)
    requires InfoOk(i) && InfoOk(next) && RxOk(r) && r.location > 0 && r.buffer[0] == 4
    requires r.location + |Block(i)| <= RX_BUFFER && !Overfull(Collected(r, Block(i)))
    ensures var both := Collected(r, Block(i));
            var c := ReceiveAll(r, Frames(source, dest, Block(i)));
            && both.buffer[..both.location] == r.buffer[..r.location] + Block(i)
            && c.info == Parsed(both.buffer, Walk(both.buffer, 1, both.location, FirstChar, []), r.info)
            && c.location == 0 && c.updates == r.updates + 1
            && ReceiveAll(c, Frames(source, dest, Block(next))).info == next
  {
    hide Block;
    hide Walk;
    hide Parsed;
    ReplyIsHandled(r, source, dest, i);
    var both := Collected(r, Block(i));
    assert both.buffer[..both.location] == r.buffer[..r.location] + Block(i);
    assert both.buffer[0] == both.buffer[..both.location][0] == r.buffer[..r.location][0];
    InfoArrives(Finished(both), source, dest, next);
  }

  // ---------------------------------------------------------------- struct lcc_node_info

  class NodeRecord {
    const alias: nat
    var buffer: array<Byte>
    var location: nat
    var info: Info
    var updates: nat
    var overrun: bool

    ghost predicate Valid()
      reads this
    {
      buffer.Length == RX_BUFFER && location <= RX_BUFFER
    }

    ghost function State(): (r: Rx)
      requires Valid()
      reads this, buffer
      ensures RxOk(r)
    {
      Rx(buffer[..], location, info, updates, overrun)
    }

    constructor (alias: nat)
      ensures Valid() && fresh(buffer) && this.alias == alias
      ensures State().location == 0 && !State().overrun && State().info == Info([], [], [], [], [], [])
    {
      this.alias := alias;
      buffer := new Byte[RX_BUFFER](_ => 0);
      location, info, updates, overrun := 0, Info([], [], [], [], [], []), 0, false;
    }

    method HandleReply(f: Frame)
      requires Valid()
      modifies this, buffer
      ensures Valid() && buffer == old(buffer)
      ensures State() == if AliasOf(f.id) == alias then Receive(old(State()), f) else old(State())
    {
      if AliasOf(f.id) != alias || |f.data| < 2 {
        return;
      }
      Collect(f.data[2..]);
      if f.data[0] / 0x10 % 4 == LAST {
        Finish();
      }
    }

    method Collect(data: seq<Byte>)
      requires Valid()
      modifies this`location, this`overrun, buffer
      ensures Valid() && State() == Collected(old(State()), data)
    {
      if location + |data| > RX_BUFFER {
        overrun := true;
        return;
      }
      hide PutInto;
      ghost var before, start := buffer[..], location;
      assert PutInto(before, start, data[..0]) == before by { PutNothing(before, start, data); }
      for x := 0 to |data|
        invariant Valid() && location == start + x && overrun == old(overrun)
        invariant buffer[..] == PutInto(before, start, data[..x])
      {
        PutOneMore(before, start, data, x);
        buffer[location] := data[x];
        assert buffer[..] == PutInto(before, start, data[..x])[location := data[x]];
        location := location + 1;
      }
      assert data[..|data|] == data;
    }

    /** The state machine over the bytes. */
    method FindStrings() returns (starts: seq<nat>)
      requires Valid()
      ensures starts == Walk(buffer[..], 1, location, FirstChar, [])
    {
      starts := [];
      var state, x := FirstChar, 1;
      ghost var b := buffer[..];
      while x < location
        invariant Walk(b, x, location, state, starts) == Walk(b, 1, location, FirstChar, [])
      {
        var c := buffer[x];
        assert c == b[x];
        if state == FirstChar {
          starts, state := starts + [x], InString;
        }
        if state == InString {
          if c == 0 {
            state := if |starts| == 4 then DescriptionCount else FirstChar;
          }
        } else {
          if c != 2 {
            break;
          }
          state := FirstChar;
        }
        x := x + 1;
      }
    }

    method Finish()
      requires Valid()
      modifies this`location, this`info, this`updates, this`overrun
      ensures Valid() && State() == Finished(old(State()))
    {
      if buffer[0] != 4 {
        return;
      }
      var starts := FindStrings();
      if |starts| > 6 {
        overrun := true;
        return;
      }
      info := Parsed(buffer[..], starts, info);
      location, updates := 0, updates + 1;
    }
  }
}
