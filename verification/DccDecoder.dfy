/**
 The DCC decoder (DCC/dcc-decoder.c): half-bit phase recovery, packet framing and the checksum.

 Section A of NMRA S-9.1 gives the half-bit durations, section A of NMRA S-9.2 the packet format: a
 preamble of ones, then for every byte a zero and its eight bits, then a one.
 */
module DccDecoder {

  // ---------------------------------------------------------------- bit timing

  datatype BitTiming = ZeroBit | OneBit | InvalidBit | ZeroToOneBit | OneToZeroBit

  const ONE_HALF_MIN := 52
  const ONE_HALF_MAX := 64
  const ZERO_HALF_MIN := 90
  const ZERO_HALF_MAX := 10000
  const EXPAND_FLAG_MARGIN := 7

  function WholeBitTiming(t: nat, expand: nat): BitTiming
  {
    if ONE_HALF_MIN * 2 - expand * 2 <= t <= ONE_HALF_MAX * 2 + expand * 2 then OneBit
    else if ZERO_HALF_MIN * 2 <= t then ZeroBit
    else InvalidBit
  }

  function HalfBitTiming(t: nat, expand: nat): BitTiming
  {
    if ONE_HALF_MIN - expand <= t <= ONE_HALF_MAX + expand then OneBit
    else if ZERO_HALF_MIN <= t <= ZERO_HALF_MAX then ZeroBit
    else InvalidBit
  }

  /** The windows for half a bit, without and with the wider limits: they are apart from each other. */
  lemma HalfBitWindows(t: nat)
    ensures HalfBitTiming(t, 0) == OneBit <==> 52 <= t <= 64
    ensures HalfBitTiming(t, EXPAND_FLAG_MARGIN) == OneBit <==> 45 <= t <= 71
    ensures forall expand :: expand == 0 || expand == EXPAND_FLAG_MARGIN ==>
              (HalfBitTiming(t, expand) == ZeroBit <==> 90 <= t <= 10000)
  {
  }

  /** The same for a whole bit, which has no upper limit for a zero. */
  lemma WholeBitWindows(t: nat)
    ensures WholeBitTiming(t, 0) == OneBit <==> 104 <= t <= 128
    ensures WholeBitTiming(t, EXPAND_FLAG_MARGIN) == OneBit <==> 90 <= t <= 142
    ensures forall expand :: expand == 0 || expand == EXPAND_FLAG_MARGIN ==>
              (WholeBitTiming(t, expand) == ZeroBit <==> 180 <= t)
  {
  }

  /** Two good halves make a whole bit that is good, and the same one. */
  lemma HalvesMakeTheWhole(t: nat, u: nat, expand: nat, timing: BitTiming)
    requires expand <= EXPAND_FLAG_MARGIN && (timing == OneBit || timing == ZeroBit)
    requires HalfBitTiming(t, expand) == timing && HalfBitTiming(u, expand) == timing
    ensures WholeBitTiming(t + u, expand) == timing == TwoHalvesTiming(t, u, expand)
  {
  }

  function TwoHalvesTiming(t: nat, u: nat, expand: nat): BitTiming
  {
    var one, two := HalfBitTiming(t, expand), HalfBitTiming(u, expand);
    if one == OneBit && two == OneBit then OneBit
    else if one == ZeroBit && two == ZeroBit then ZeroBit
    else if one == OneBit && two == ZeroBit then OneToZeroBit
    else if one == ZeroBit && two == OneBit then ZeroToOneBit
    else InvalidBit
  }

  /** Two good halves that differ are no bit, but a transition, in the order in which they come. */
  lemma HalvesThatDiffer(t: nat, u: nat, expand: nat)
    requires HalfBitTiming(t, expand) == OneBit && HalfBitTiming(u, expand) == ZeroBit
    ensures TwoHalvesTiming(t, u, expand) == OneToZeroBit && TwoHalvesTiming(u, t, expand) == ZeroToOneBit
  {
  }

  // ---------------------------------------------------------------- framing

  const MIN_PREAMBLE := 10
  const MAX_BYTES := 5

  function Mask(bit: nat): bv8
    requires bit < 8
  {
    match bit
    case 7 => 0x80
    case 6 => 0x40
    case 5 => 0x20
    case 4 => 0x10
    case 3 => 0x08
    case 2 => 0x04
    case 1 => 0x02
    case _ => 0x01
  }

  /** What the decoder remembers between bits.  The ones counter is eight bits wide. */
  datatype Framing =
    | Hunting(ones: nat)
    | InByte(working: bv8, bit: nat, data: seq<bv8>)
    | AfterByte(data: seq<bv8>)

  ghost predicate FramingOk(s: Framing)
  {
    match s
    case Hunting(ones) => ones < 256
    case InByte(_, bit, data) => bit < 8 && |data| <= MAX_BYTES
    case AfterByte(data) => 1 <= |data| <= MAX_BYTES
  }

  datatype Fed = Fed(state: Framing, packets: seq<seq<bv8>>)

  function WithBit(working: bv8, bit: nat, timing: BitTiming): bv8
    requires bit < 8
  {
    if timing == OneBit then working | Mask(bit) else working
  }

  function Feed(s: Framing, timing: BitTiming): (r: Fed)
    requires FramingOk(s)
    ensures FramingOk(r.state)
  {
    if timing != ZeroBit && timing != OneBit then Fed(if s.Hunting? then Hunting(0) else s, [])
    else match s
      case Hunting(ones) =>
        Fed(if timing == OneBit then Hunting((ones + 1) % 256)
            else if ones >= MIN_PREAMBLE then InByte(0, 7, [])
            else Hunting(0), [])
      case InByte(working, bit, data) =>
        var byte := WithBit(working, bit, timing);
        Fed(if bit > 0 then InByte(byte, bit - 1, data)
            else if |data| + 1 > MAX_BYTES then Hunting(0)
            else AfterByte(data + [byte]), [])
      case AfterByte(data) =>
        if timing == ZeroBit then Fed(InByte(0, 7, data), []) else Fed(Hunting(0), [data])
  }

  function AsTiming(bit: bool): BitTiming { if bit then OneBit else ZeroBit }

  function FeedAll(s: Framing, bits: seq<bool>): (r: Fed)
    requires FramingOk(s)
    ensures FramingOk(r.state)
    decreases |bits|
  {
    if bits == [] then Fed(s, [])
    else
      var first := Feed(s, AsTiming(bits[0]));
      var rest := FeedAll(first.state, bits[1..]);
      Fed(rest.state, first.packets + rest.packets)
  }

  // ---------------------------------------------------------------- the decoder object

  datatype ParseState = ParsingPreamble | ParsingDataByte | ParsingByteStartBit | ParsingDone

  datatype Status = DecoderOk | PacketReady | BitTimingError | InvalidPacket

  function XorAll(data: seq<bv8>): bv8
  {
    if data == [] then 0 else XorAll(data[..|data| - 1]) ^ data[|data| - 1]
  }

  /** The bits of a sequence are those of its parts, and of a single byte its own. */
  lemma {:induction false} XorAppend(a: seq<bv8>, b: seq<bv8>)
    ensures XorAll(a + b) == XorAll(a) ^ XorAll(b)
    ensures |b| == 1 ==> XorAll(b) == b[0]
    decreases |b|
  {
    if b == [] {
      assert a + b == a;
    } else {
      var last := |b| - 1;
      assert (a + b)[..|a + b| - 1] == a + b[..last] && (a + b)[|a + b| - 1] == b[last];
      XorAppend(a, b[..last]);
      XorAssociates(XorAll(a), XorAll(b[..last]), b[last]);
    }
  }

  lemma XorAssociates(a: bv8, b: bv8, c: bv8)
    ensures (a ^ b) ^ c == a ^ (b ^ c)
  {
  }

  /** The packets whose checksum is right. */
  function Good(packets: seq<seq<bv8>>): (good: seq<seq<bv8>>)
    ensures |good| <= |packets|
  {
    if packets == [] then [] else (if XorAll(packets[0]) == 0 then [packets[0]] else []) + Good(packets[1..])
  }

  /** struct dcc_decoder, without the packet parser that may be chained behind the callback. */
  class Decoder {
    var numOnes: nat
    var packetData: array<bv8>
    var lastPacket: array<bv8>
    var parseState: ParseState
    var previousTiming: nat
    var workingByte: bv8
    var workingByteBit: nat
    var packetDataPos: nat
    var lastPacketValid: bool
    var lastPacketLen: nat
    const expand: nat
    var delivered: seq<seq<bv8>>

    ghost predicate Valid()
      reads this, packetData, lastPacket
    {
      && packetData.Length == 6 && lastPacket.Length == 6 && packetData != lastPacket
      && numOnes < 256 && packetDataPos <= 6
      && (lastPacketValid ==> 1 <= lastPacketLen <= MAX_BYTES)
      && parseState != ParsingDone
      && (parseState == ParsingDataByte ==> workingByteBit < 8 && packetDataPos <= MAX_BYTES)
      && (parseState == ParsingByteStartBit ==>
            workingByte == 0 && workingByteBit == 7 && 1 <= packetDataPos <= MAX_BYTES)
    }

    ghost function State(): (s: Framing)
      requires Valid()
      reads this, packetData, lastPacket
      ensures FramingOk(s)
    {
      if parseState == ParsingDataByte then InByte(workingByte, workingByteBit, packetData[..packetDataPos])
      else if parseState == ParsingByteStartBit then AfterByte(packetData[..packetDataPos])
      else Hunting(numOnes)
    }

    /** The packet that is waiting to be pumped, if any. */
    ghost function Waiting(): seq<seq<bv8>>
      requires Valid()
      reads this, packetData, lastPacket
    {
      if lastPacketValid then [lastPacket[..lastPacketLen]] else []
    }

    constructor (expandOneBits: bool)
      ensures Valid() && State() == Hunting(0) && previousTiming == 0 && Waiting() == [] && delivered == []
      ensures expand == if expandOneBits then EXPAND_FLAG_MARGIN else 0
    {
      expand := if expandOneBits then EXPAND_FLAG_MARGIN else 0;
      numOnes, workingByte, workingByteBit, packetDataPos := 0, 0, 0, 0;
      previousTiming, parseState := 0, ParsingPreamble;
      lastPacketValid, lastPacketLen, delivered := false, 0, [];
      packetData := new bv8[6](_ => 0);
      lastPacket := new bv8[6](_ => 0);
    }

    method ProcessWholeBit(timing: BitTiming) returns (status: Status)
      requires Valid()
      modifies this`numOnes, this`parseState, this`workingByte, this`workingByteBit, this`packetDataPos,
               this`lastPacketValid, this`lastPacketLen, packetData, lastPacket
      ensures Valid()
      ensures var fed := Feed(old(State()), timing);
              && State() == fed.state
              && Waiting() == (if fed.packets == [] then old(Waiting()) else fed.packets)
              && status == if timing != ZeroBit && timing != OneBit then BitTimingError
                           else if fed.packets == [] then DecoderOk else PacketReady
    {
      if timing == InvalidBit || timing == ZeroToOneBit || timing == OneToZeroBit {
        if parseState == ParsingPreamble {
          numOnes := 0;
        }
        return BitTimingError;
      }
      if timing == OneBit && parseState == ParsingPreamble {
        numOnes := (numOnes + 1) % 256;
      }
      if timing == ZeroBit && numOnes >= MIN_PREAMBLE && parseState == ParsingPreamble {
        parseState := ParsingDataByte;
        workingByte, workingByteBit, packetDataPos := 0, 7, 0;
        return DecoderOk;
      } else if timing == ZeroBit && numOnes < MIN_PREAMBLE && parseState == ParsingPreamble {
        numOnes := 0;
        return DecoderOk;
      }
      if parseState == ParsingDataByte {
        StoreBit(timing);
      } else if parseState == ParsingByteStartBit {
        if timing == ZeroBit {
          parseState := ParsingDataByte;
        } else {
          FinishPacket();
          return PacketReady;
        }
      }
      return DecoderOk;
    }

    /** The branch of the above for a bit inside a byte. */
    method StoreBit(timing: BitTiming)
      requires Valid() && parseState == ParsingDataByte && (timing == OneBit || timing == ZeroBit)
      modifies this`numOnes, this`parseState, this`workingByte, this`workingByteBit, this`packetDataPos, packetData
      ensures Valid() && State() == Feed(old(State()), timing).state && Waiting() == old(Waiting())
    {
      hide Mask;
      ghost var next := Feed(State(), timing).state;
      if timing == OneBit {
        workingByte := workingByte | Mask(workingByteBit);
      }
      assert workingByte == WithBit(old(workingByte), workingByteBit, timing);
      hide WithBit;
      if workingByteBit == 0 {
        StoreByte();
      } else {
        workingByteBit := workingByteBit - 1;
        assert State() == next;
      }
    }

    /** The last bit of a byte has come in. */
    method StoreByte()
      requires Valid() && parseState == ParsingDataByte && workingByteBit == 0
      modifies this`numOnes, this`parseState, this`workingByte, this`workingByteBit, this`packetDataPos, packetData
      ensures Valid() && Waiting() == old(Waiting())
      ensures State() == if old(packetDataPos) == MAX_BYTES then Hunting(0)
                         else AfterByte(old(packetData[..packetDataPos]) + [old(workingByte)])
    {
      packetData[packetDataPos] := workingByte;
      packetDataPos := packetDataPos + 1;
      assert packetData[..packetDataPos] == old(packetData[..packetDataPos]) + [workingByte];
      workingByte, workingByteBit := 0, 7;
      parseState := ParsingByteStartBit;
      if packetDataPos > 5 {
        parseState := ParsingPreamble;
        numOnes := 0;
      }
    }

    /** The branch for the one that ends a packet. */
    method FinishPacket()
      requires Valid() && parseState == ParsingByteStartBit
      modifies this`numOnes, this`parseState, this`lastPacketValid, this`lastPacketLen, packetData, lastPacket
      ensures Valid() && State() == Hunting(0) && Waiting() == [old(State()).data]
    {
      ghost var packet := packetData[..packetDataPos];
      forall i | 0 <= i < 6 {
        lastPacket[i] := packetData[i];
      }
      assert lastPacket[..packetDataPos] == packet;
      forall i | 0 <= i < 6 {
        packetData[i] := 0;
      }
      assert lastPacket[..packetDataPos] == packet;
      lastPacketValid := true;
      parseState := ParsingPreamble;
      lastPacketLen := packetDataPos;
      numOnes := 0;
    }

    /** The time between two changes of polarity is one half-bit. */
    method PolarityChanged(timeDiff: nat) returns (status: Status)
      requires Valid()
      modifies this, packetData, lastPacket
      ensures Valid() && packetData == old(packetData) && lastPacket == old(lastPacket)
      ensures timeDiff > 0 ==>
                var h := FeedHalf(Halved(old(State()), old(previousTiming)), timeDiff, expand);
                && Halved(State(), previousTiming) == h.halved
                && Waiting() == (if h.packets == [] then old(Waiting()) else h.packets)
      ensures timeDiff == 0 ==>
                State() == Hunting(0) && previousTiming == old(previousTiming) && Waiting() == old(Waiting())
      ensures delivered == old(delivered)
    {
      if timeDiff == 0 {
        numOnes, parseState := 0, ParsingPreamble;
        return DecoderOk;
      }
      if previousTiming == 0 {
        previousTiming := timeDiff;
        return DecoderOk;
      }
      var timing := TwoHalvesTiming(previousTiming, timeDiff, expand);
      if timing == ZeroBit || timing == OneBit {
        previousTiming := 0;
      } else {
        previousTiming := timeDiff;
      }
      status := ProcessWholeBit(timing);
    }

    /** The time between two rising (or two falling) edges is one whole bit. */
    method RisingOrFalling(timeDiff: nat) returns (status: Status)
      requires Valid()
      modifies this, packetData, lastPacket
      ensures Valid() && packetData == old(packetData) && lastPacket == old(lastPacket)
      ensures timeDiff == 0 ==> State() == Hunting(0) && Waiting() == old(Waiting())
      ensures timeDiff > 0 && WholeBitTiming(timeDiff, expand) == InvalidBit ==>
                State() == old(State()) && Waiting() == old(Waiting())
      ensures timeDiff > 0 && WholeBitTiming(timeDiff, expand) != InvalidBit ==>
                var fed := Feed(old(State()), WholeBitTiming(timeDiff, expand));
                State() == fed.state && Waiting() == (if fed.packets == [] then old(Waiting()) else fed.packets)
      ensures delivered == old(delivered) && previousTiming == old(previousTiming)
    {
      if timeDiff == 0 {
        numOnes, parseState := 0, ParsingPreamble;
        return DecoderOk;
      }
      var timing := WholeBitTiming(timeDiff, expand);
      if timing == InvalidBit {
        return BitTimingError;
      }
      status := ProcessWholeBit(timing);
    }

    /** Hands the waiting packet to the callback, here the list `delivered`, if its checksum is right. */
    method PumpPacket() returns (status: Status)
      requires Valid()
      modifies this`lastPacketValid, this`delivered
      ensures Valid() && State() == old(State()) && Waiting() == []
      ensures delivered == old(delivered) + Good(old(Waiting()))
      ensures status == if old(Waiting()) == [] then DecoderOk
                        else if XorAll(old(Waiting())[0]) == 0 then PacketReady else InvalidPacket
    {
      if !lastPacketValid {
        return DecoderOk;
      }
      lastPacketValid := false;
      var ok := IsPacketValid(lastPacket, lastPacketLen);
      if !ok {
        return InvalidPacket;
      }
      delivered := delivered + [lastPacket[..lastPacketLen]];
      status := PacketReady;
    }
  }

  lemma XorIsZeroIffEqual(a: bv8, b: bv8)
    ensures a ^ b == 0 <==> a == b
  {}

  /** The last byte must be the XOR of the others, which is the same as the XOR of all being 0. */
  method IsPacketValid(data: array<bv8>, len: nat) returns (ok: bool)
    requires 1 <= len <= data.Length
    ensures ok <==> XorAll(data[..len]) == 0
  {
    var xorData: bv8 := 0;
    for x := 0 to len - 1
      invariant xorData == XorAll(data[..x])
    {
      assert data[..x + 1][..x] == data[..x];
      xorData := xorData ^ data[x];
    }
    assert data[..len][..len - 1] == data[..len - 1];
    XorIsZeroIffEqual(xorData, data[len - 1]);
    ok := xorData == data[len - 1];
  }

  lemma XorReorder(rest: bv8, was: bv8, now: bv8, last: bv8)
    ensures rest ^ now == rest ^ was ^ was ^ now
    ensures rest ^ was ^ now ^ last == rest ^ last ^ was ^ now
  {}

  lemma {:induction false} XorOfChanged(data: seq<bv8>, i: nat, b: bv8)
    requires i < |data|
    ensures XorAll(data[i := b]) == XorAll(data) ^ data[i] ^ b
  {
    var last := |data| - 1;
    XorReorder(XorAll(data[..last]), data[i], b, data[last]);
    if i == last {
      assert data[i := b][..last] == data[..last];
    } else {
      assert data[i := b][..last] == data[..last][i := b];
      XorOfChanged(data[..last], i, b);
    }
  }

  lemma XorNonZero(a: bv8, b: bv8)
    requires a != b
    ensures 0 ^ a ^ b != 0
  {}

  /** The checksum catches every packet in which exactly one byte has been changed. */
  lemma ChecksumCatchesOneByte(data: seq<bv8>, i: nat, b: bv8)
    requires i < |data| && data[i] != b && XorAll(data) == 0
    ensures XorAll(data[i := b]) != 0
  {
    XorOfChanged(data, i, b);
    XorNonZero(data[i], b);
  }

  // ---------------------------------------------------------------- half-bits

  /** A decoder that is fed half-bits remembers one duration, or 0 between two bits. */
  datatype Halved = Halved(framing: Framing, previous: nat)

  datatype FedHalf = FedHalf(halved: Halved, packets: seq<seq<bv8>>)

  function FeedHalf(h: Halved, t: nat, expand: nat): (r: FedHalf)
    requires FramingOk(h.framing)
    ensures FramingOk(r.halved.framing)
  {
    if h.previous == 0 then FedHalf(h.(previous := t), [])
    else
      var timing := TwoHalvesTiming(h.previous, t, expand);
      var fed := Feed(h.framing, timing);
      FedHalf(Halved(fed.state, if timing == ZeroBit || timing == OneBit then 0 else t), fed.packets)
  }

  function FeedHalves(h: Halved, ts: seq<nat>, expand: nat): (r: FedHalf)
    requires FramingOk(h.framing)
    ensures FramingOk(r.halved.framing)
    decreases |ts|
  {
    if ts == [] then FedHalf(h, [])
    else
      var first := FeedHalf(h, ts[0], expand);
      var rest := FeedHalves(first.halved, ts[1..], expand);
      FedHalf(rest.halved, first.packets + rest.packets)
  }

  /** Durations in which every bit is sent as two halves, each inside the window for its value. */
  ghost predicate Encodes(ts: seq<nat>, bits: seq<bool>, expand: nat)
  {
    && |ts| == 2 * |bits|
    && forall i :: 0 <= i < |ts| ==> HalfBitTiming(ts[i], expand) == AsTiming(bits[i / 2])
  }

  // ---------------------------------------------------------------- what is sent

  datatype Packet = Packet(preamble: nat, bytes: seq<bv8>)

  function Ones(n: nat): (bits: seq<bool>)
    ensures |bits| == n
  {
    seq(n, _ => true)
  }

  predicate BitOf(b: bv8, bit: nat)
    requires bit < 8
  {
    b & Mask(bit) != 0
  }

  /** The last n bits of a byte, highest first. */
  function LowBits(b: bv8, n: nat): (bits: seq<bool>)
    requires n <= 8
    ensures |bits| == n
  {
    if n == 0 then [] else [BitOf(b, n - 1)] + LowBits(b, n - 1)
  }

  function BytesBits(bytes: seq<bv8>): seq<bool>
  {
    if bytes == [] then [] else [false] + LowBits(bytes[0], 8) + BytesBits(bytes[1..])
  }

  /** Everything after the preamble. */
  function Body(bytes: seq<bv8>): seq<bool> { BytesBits(bytes) + [true] }

  function PacketBits(p: Packet): seq<bool> { Ones(p.preamble) + Body(p.bytes) }

  function Stream(ps: seq<Packet>): seq<bool>
  {
    if ps == [] then [] else PacketBits(ps[0]) + Stream(ps[1..])
  }

  lemma {:induction false} FeedAppend(s: Framing, a: seq<bool>, b: seq<bool>)
    requires FramingOk(s)
    ensures var first := FeedAll(s, a);
            var rest := FeedAll(first.state, b);
            FeedAll(s, a + b) == Fed(rest.state, first.packets + rest.packets)
    decreases |a|
  {
    if a == [] {
      assert a + b == b;
    } else {
      assert (a + b)[1..] == a[1..] + b;
      hide Feed;
      var next := Feed(s, AsTiming(a[0]));
      FeedAppend(next.state, a[1..], b);
      var middle := FeedAll(next.state, a[1..]);
      var rest := FeedAll(middle.state, b);
      assert next.packets + middle.packets + rest.packets == next.packets + (middle.packets + rest.packets);
    }
  }

  lemma {:induction false} FeedOnes(c: nat, n: nat)
    requires c < 256
    ensures FeedAll(Hunting(c), Ones(n)) == Fed(Hunting((c + n) % 256), [])
    decreases n
  {
    if n > 0 {
      assert Ones(n) == [true] + Ones(n - 1);
      assert Feed(Hunting(c), OneBit) == Fed(Hunting((c + 1) % 256), []);
      hide Feed;
      hide FeedAll;
      FeedCons(Hunting(c), true, Ones(n - 1));
      FeedOnes((c + 1) % 256, n - 1);
      OneMoreOne(c, n);
    }
  }

  lemma OneMoreOne(c: nat, n: nat)
    requires c < 256 && n > 0
    ensures ((c + 1) % 256 + (n - 1)) % 256 == (c + n) % 256
  {
    if c == 255 {
      assert (n - 1 + 256) % 256 == (n - 1) % 256;
    }
  }

  // ---------------------------------------------------------------- reading a byte

  /** What the working byte holds when the n low bits are still to come. */
  function HighPart(b: bv8, n: nat): bv8
    requires n <= 8
  {
    match n
    case 8 => 0
    case 7 => b & 0x80
    case 6 => b & 0xC0
    case 5 => b & 0xE0
    case 4 => b & 0xF0
    case 3 => b & 0xF8
    case 2 => b & 0xFC
    case 1 => b & 0xFE
    case _ => b
  }

  lemma HighPartGrows(b: bv8, n: nat)
    requires 1 <= n <= 8
    ensures HighPart(b, n - 1) == if BitOf(b, n - 1) then HighPart(b, n) | Mask(n - 1) else HighPart(b, n)
    ensures HighPart(b, 8) == 0 && HighPart(b, 0) == b
  {}

  lemma FeedCons(s: Framing, bit: bool, bits: seq<bool>)
    requires FramingOk(s)
    ensures var first := Feed(s, AsTiming(bit));
            var rest := FeedAll(first.state, bits);
            FeedAll(s, [bit] + bits) == Fed(rest.state, first.packets + rest.packets)
  {
    assert ([bit] + bits)[1..] == bits;
  }

  lemma FeedBitOfByte(b: bv8, n: nat, data: seq<bv8>)
    requires 1 <= n <= 8 && |data| <= MAX_BYTES
    ensures Feed(InByte(HighPart(b, n), n - 1, data), AsTiming(BitOf(b, n - 1)))
            == Fed(if n > 1 then InByte(HighPart(b, n - 1), n - 2, data)
                   else if |data| + 1 > MAX_BYTES then Hunting(0) else AfterByte(data + [b]), [])
  {
    HighPartGrows(b, n);
    hide HighPart;
    hide BitOf;
    hide Mask;
  }

  lemma {:induction false} FeedByte(b: bv8, n: nat, data: seq<bv8>)
    requires 1 <= n <= 8 && |data| <= MAX_BYTES
    ensures FeedAll(InByte(HighPart(b, n), n - 1, data), LowBits(b, n))
            == Fed(if |data| + 1 > MAX_BYTES then Hunting(0) else AfterByte(data + [b]), [])
  {
    hide HighPart;
    hide BitOf;
    hide Feed;
    FeedBitOfByte(b, n, data);
    FeedCons(InByte(HighPart(b, n), n - 1, data), BitOf(b, n - 1), LowBits(b, n - 1));
    if n > 1 {
      FeedByte(b, n - 1, data);
    }
  }

  /** From a byte boundary, a zero and the bits of one byte add that byte to the packet. */
  lemma FeedNextByte(s: Framing, b: bv8)
    requires FramingOk(s)
    requires s.AfterByte? || (s.Hunting? && s.ones >= MIN_PREAMBLE)
    ensures var data := if s.AfterByte? then s.data else [];
            FeedAll(s, [false] + LowBits(b, 8))
            == Fed(if |data| + 1 > MAX_BYTES then Hunting(0) else AfterByte(data + [b]), [])
  {
    HighPartGrows(b, 8);
    var data := if s.AfterByte? then s.data else [];
    assert ([false] + LowBits(b, 8))[1..] == LowBits(b, 8);
    FeedByte(b, 8, data);
  }

  // ---------------------------------------------------------------- hunting through a body

  /** How many ones the bits end in, when c ones came before them. */
  function EndingOnes(c: nat, bits: seq<bool>): nat
    decreases |bits|
  {
    if bits == [] then c else EndingOnes(if bits[0] then c + 1 else 0, bits[1..])
  }

  /** The bits never run to as many ones as a preamble, when c ones came before them. */
  predicate Quiet(c: nat, bits: seq<bool>)
    decreases |bits|
  {
    c < MIN_PREAMBLE && (bits == [] || Quiet(if bits[0] then c + 1 else 0, bits[1..]))
  }

  lemma {:induction false} QuietAppend(c: nat, a: seq<bool>, b: seq<bool>)
    ensures EndingOnes(c, a + b) == EndingOnes(EndingOnes(c, a), b)
    ensures Quiet(c, a + b) <==> Quiet(c, a) && Quiet(EndingOnes(c, a), b)
    decreases |a|
  {
    if a == [] {
      assert a + b == b;
    } else {
      assert (a + b)[1..] == a[1..] + b;
      QuietAppend(if a[0] then c + 1 else 0, a[1..], b);
    }
  }

  lemma {:induction false} QuietWithFewerOnes(c: nat, d: nat, bits: seq<bool>)
    requires c <= d && Quiet(d, bits)
    ensures Quiet(c, bits) && EndingOnes(c, bits) <= EndingOnes(d, bits) < MIN_PREAMBLE
    decreases |bits|
  {
    if bits != [] {
      QuietWithFewerOnes(if bits[0] then c + 1 else 0, if bits[0] then d + 1 else 0, bits[1..]);
    }
  }

  /** Quiet bits leave a hunting decoder hunting. */
  lemma {:induction false} FeedQuiet(c: nat, bits: seq<bool>)
    requires Quiet(c, bits)
    ensures EndingOnes(c, bits) < MIN_PREAMBLE
    ensures FeedAll(Hunting(c), bits) == Fed(Hunting(EndingOnes(c, bits)), [])
    decreases |bits|
  {
    if bits != [] {
      FeedQuiet(if bits[0] then c + 1 else 0, bits[1..]);
    }
  }

  lemma {:induction false} ShortIsQuiet(c: nat, bits: seq<bool>)
    requires c + |bits| < MIN_PREAMBLE
    ensures Quiet(c, bits) && EndingOnes(c, bits) <= c + |bits|
    decreases |bits|
  {
    if bits != [] {
      ShortIsQuiet(if bits[0] then c + 1 else 0, bits[1..]);
    }
  }

  lemma {:induction false} BytesAreQuiet(c: nat, bytes: seq<bv8>)
    requires c <= 8
    ensures Quiet(c, BytesBits(bytes)) && EndingOnes(c, BytesBits(bytes)) <= 8
    decreases |bytes|
  {
    if bytes != [] {
      var first := [false] + LowBits(bytes[0], 8);
      ShortIsQuiet(0, LowBits(bytes[0], 8));
      assert first[1..] == LowBits(bytes[0], 8);
      QuietAppend(c, first, BytesBits(bytes[1..]));
      BytesAreQuiet(EndingOnes(c, first), bytes[1..]);
    }
  }

  /** No body holds as many ones in a row as a preamble, not even together with its final one. */
  lemma BodyIsQuiet(c: nat, bytes: seq<bv8>)
    requires c < MIN_PREAMBLE && bytes != []
    ensures Quiet(c, Body(bytes))
    ensures EndingOnes(c, Body(bytes)) == EndingOnes(0, Body(bytes)) <= 9
  {
    var body := Body(bytes);
    assert !body[0] && body[1..] == (LowBits(bytes[0], 8) + BytesBits(bytes[1..])) + [true];
    BytesAreQuiet(0, bytes);
    QuietAppend(0, BytesBits(bytes), [true]);
  }

  // ---------------------------------------------------------------- whole streams

  /** What a hunting decoder that has already counted c ones gets out of one packet. */
  function Gives(c: nat, p: Packet): seq<seq<bv8>>
  {
    if (c + p.preamble) % 256 >= MIN_PREAMBLE && |p.bytes| <= MAX_BYTES then [p.bytes] else []
  }

  /** How many ones it has counted after that packet. */
  function CountAfter(c: nat, p: Packet): nat
  {
    if (c + p.preamble) % 256 < MIN_PREAMBLE then EndingOnes(0, Body(p.bytes))
    else if |p.bytes| <= MAX_BYTES then 0
    else EndingOnes(0, Overlong(p.bytes))
  }

  /** The part of the body of too long a packet that comes after the decoder has given up on it. */
  function Overlong(bytes: seq<bv8>): seq<bool>
    requires |bytes| > MAX_BYTES
  {
    BytesBits(bytes[MAX_BYTES + 1..]) + [true]
  }

  function Expected(c: nat, ps: seq<Packet>): Fed
    decreases |ps|
  {
    if ps == [] then Fed(Hunting(c), [])
    else
      var rest := Expected(CountAfter(c, ps[0]), ps[1..]);
      Fed(rest.state, Gives(c, ps[0]) + rest.packets)
  }

  /** From a byte boundary with room for them, bytes are read and the final one hands over the packet. */
  lemma {:induction false} FeedBytes(s: Framing, bytes: seq<bv8>)
    requires FramingOk(s) && bytes != []
    requires s.AfterByte? || (s.Hunting? && s.ones >= MIN_PREAMBLE)
    requires (if s.AfterByte? then |s.data| else 0) + |bytes| <= MAX_BYTES
    ensures FeedAll(s, BytesBits(bytes))
            == Fed(AfterByte((if s.AfterByte? then s.data else []) + bytes), [])
    decreases |bytes|
  {
    hide Feed;
    hide LowBits;
    var data := if s.AfterByte? then s.data else [];
    var first := [false] + LowBits(bytes[0], 8);
    FeedNextByte(s, bytes[0]);
    FeedAppend(s, first, BytesBits(bytes[1..]));
    if |bytes| == 1 {
      assert BytesBits(bytes[1..]) == [] && bytes == [bytes[0]];
    } else {
      FeedBytes(AfterByte(data + [bytes[0]]), bytes[1..]);
      assert data + bytes == data + [bytes[0]] + bytes[1..];
    }
  }

  lemma {:induction false} BytesBitsAppend(a: seq<bv8>, b: seq<bv8>)
    ensures BytesBits(a + b) == BytesBits(a) + BytesBits(b)
    decreases |a|
  {
    if a == [] {
      assert a + b == b;
    } else {
      assert (a + b)[1..] == a[1..] + b;
      BytesBitsAppend(a[1..], b);
    }
  }

  lemma FeedShortBody(c: nat, bytes: seq<bv8>)
    requires MIN_PREAMBLE <= c < 256 && 1 <= |bytes| <= MAX_BYTES
    ensures FeedAll(Hunting(c), Body(bytes)) == Fed(Hunting(0), [bytes])
  {
    FeedBytes(Hunting(c), bytes);
    FeedAppend(Hunting(c), BytesBits(bytes), [true]);
    FeedCons(AfterByte(bytes), true, []);
    assert [] + bytes == bytes && [true] + [] == [true];
  }

  /** The sixth byte makes the decoder give up, and nothing in the rest of the body looks like a preamble. */
  lemma FeedLongBody(c: nat, bytes: seq<bv8>)
    requires MIN_PREAMBLE <= c < 256 && |bytes| > MAX_BYTES
    ensures EndingOnes(0, Overlong(bytes)) < MIN_PREAMBLE
    ensures FeedAll(Hunting(c), Body(bytes)) == Fed(Hunting(EndingOnes(0, Overlong(bytes))), [])
  {
    hide Feed;
    var five, sixth, more := bytes[..MAX_BYTES], bytes[MAX_BYTES], bytes[MAX_BYTES + 1..];
    var sixthBits, tail := [false] + LowBits(sixth, 8), Overlong(bytes);
    BytesAreQuiet(0, more);
    QuietAppend(0, BytesBits(more), [true]);
    FeedQuiet(0, tail);
    assert bytes == five + ([sixth] + more) && ([sixth] + more)[1..] == more;
    BytesBitsAppend(five, [sixth] + more);
    assert Body(bytes) == BytesBits(five) + (sixthBits + tail);
    assert [] + five == five;
    hide FeedAll;
    hide EndingOnes;
    hide BytesBits;
    hide LowBits;
    FeedBytes(Hunting(c), five);
    FeedNextByte(AfterByte(five), sixth);
    FeedAppend(AfterByte(five), sixthBits, tail);
    FeedAppend(Hunting(c), BytesBits(five), sixthBits + tail);
  }

  lemma FeedPacket(c: nat, p: Packet)
    requires c < 256 && p.bytes != []
    ensures CountAfter(c, p) < MIN_PREAMBLE
    ensures FeedAll(Hunting(c), PacketBits(p)) == Fed(Hunting(CountAfter(c, p)), Gives(c, p))
  {
    hide Feed;
    hide FeedAll;
    hide BytesBits;
    var n := (c + p.preamble) % 256;
    FeedOnes(c, p.preamble);
    FeedAppend(Hunting(c), Ones(p.preamble), Body(p.bytes));
    if n < MIN_PREAMBLE {
      BodyIsQuiet(n, p.bytes);
      FeedQuiet(n, Body(p.bytes));
    } else if |p.bytes| <= MAX_BYTES {
      FeedShortBody(n, p.bytes);
    } else {
      FeedLongBody(n, p.bytes);
    }
  }

  /**
   Exactly which packets come out of a stream, whatever the lengths of its preambles and packets: those of
   at most five bytes whose preamble, together with the ones already counted, makes ten or more mod 256.
   */
  lemma {:induction false} StreamGivesExpected(c: nat, ps: seq<Packet>)
    requires c < 256 && forall i :: 0 <= i < |ps| ==> ps[i].bytes != []
    ensures FeedAll(Hunting(c), Stream(ps)) == Expected(c, ps)
    decreases |ps|
  {
    if ps != [] {
      FeedPacket(c, ps[0]);
      FeedAppend(Hunting(c), PacketBits(ps[0]), Stream(ps[1..]));
      StreamGivesExpected(CountAfter(c, ps[0]), ps[1..]);
    }
  }

  // ---------------------------------------------------------------- standard streams, joined anywhere

  /** Preambles that the eight-bit counter can tell from a body, and packets of any length. */
  ghost predicate Standard(ps: seq<Packet>)
  {
    forall i :: 0 <= i < |ps| ==> MIN_PREAMBLE <= ps[i].preamble <= 246 && ps[i].bytes != []
  }

  /** The packets that the decoder has room for. */
  function Short(ps: seq<Packet>): seq<seq<bv8>>
  {
    if ps == [] then [] else (if |ps[0].bytes| <= MAX_BYTES then [ps[0].bytes] else []) + Short(ps[1..])
  }

  /** A standard stream comes out byte for byte and in order, apart from the packets of more than five bytes. */
  lemma {:induction false} StandardStream(c: nat, ps: seq<Packet>)
    requires c < MIN_PREAMBLE && Standard(ps)
    ensures FeedAll(Hunting(c), Stream(ps)).packets == Short(ps)
    decreases |ps|
  {
    hide Feed;
    hide FeedAll;
    hide BytesBits;
    hide EndingOnes;
    hide CountAfter;
    StreamGivesExpected(c, ps);
    if ps != [] {
      FeedPacket(c, ps[0]);
      StandardStream(CountAfter(c, ps[0]), ps[1..]);
      StreamGivesExpected(CountAfter(c, ps[0]), ps[1..]);
    }
  }

  /** Joining inside a body only shortens it, so it is as quiet as the whole. */
  lemma JoinBody(bytes: seq<bv8>, k: nat)
    requires bytes != [] && k <= |Body(bytes)|
    ensures var rest := Body(bytes)[k..];
            EndingOnes(0, rest) < MIN_PREAMBLE && FeedAll(Hunting(0), rest) == Fed(Hunting(EndingOnes(0, rest)), [])
  {
    var body := Body(bytes);
    BodyIsQuiet(0, bytes);
    assert body == body[..k] + body[k..];
    QuietAppend(0, body[..k], body[k..]);
    QuietWithFewerOnes(0, EndingOnes(0, body[..k]), body[k..]);
    FeedQuiet(0, body[k..]);
  }

  lemma StreamSlice(ps: seq<Packet>, k: nat)
    requires ps != []
    ensures |Stream(ps)| == |PacketBits(ps[0])| + |Stream(ps[1..])|
    ensures k <= |PacketBits(ps[0])| ==> Stream(ps)[k..] == PacketBits(ps[0])[k..] + Stream(ps[1..])
    ensures |PacketBits(ps[0])| <= k <= |Stream(ps)| ==>
              Stream(ps)[k..] == Stream(ps[1..])[k - |PacketBits(ps[0])|..]
  {}

  /** What is left of a packet gives the packet, if enough of its preamble is left, or nothing. */
  lemma JoinPacket(p: Packet, k: nat)
    requires Standard([p]) && k <= |PacketBits(p)|
    ensures var fed := FeedAll(Hunting(0), PacketBits(p)[k..]);
            && fed.state.Hunting? && fed.state.ones < MIN_PREAMBLE
            && fed.packets == if k + MIN_PREAMBLE <= p.preamble then Short([p]) else []
  {
    hide FeedAll;
    hide EndingOnes;
    hide CountAfter;
    hide BytesBits;
    assert [p][0] == p && [p][1..] == [];
    if k <= p.preamble {
      var less := Packet(p.preamble - k, p.bytes);
      assert PacketBits(p)[k..] == PacketBits(less);
      FeedPacket(0, less);
    } else {
      assert PacketBits(p)[k..] == Body(p.bytes)[k - p.preamble..];
      JoinBody(p.bytes, k - p.preamble);
    }
  }

  /**
   A decoder that joins a standard stream at any bit of its first packet gets every later packet, and that
   first one too exactly if enough of its preamble was left.  It never invents one.
   */
  lemma JoinAtAnyBit(ps: seq<Packet>, k: nat)
    requires Standard(ps) && ps != [] && k <= |PacketBits(ps[0])|
    ensures k <= |Stream(ps)|
    ensures FeedAll(Hunting(0), Stream(ps)[k..]).packets
            == Short(if k + MIN_PREAMBLE <= ps[0].preamble then ps else ps[1..])
  {
    hide FeedAll;
    hide PacketBits;
    StreamSlice(ps, k);
    JoinPacket(ps[0], k);
    ShortCons(ps);
    hide Short;
    hide Stream;
    var bits := PacketBits(ps[0])[k..];
    FeedAppend(Hunting(0), bits, Stream(ps[1..]));
    StandardStream(FeedAll(Hunting(0), bits).state.ones, ps[1..]);
  }

  lemma ShortCons(ps: seq<Packet>)
    requires ps != []
    ensures Short(ps) == Short([ps[0]]) + Short(ps[1..]) && Short(ps[1..]) == [] + Short(ps[1..])
  {
    assert [ps[0]][1..] == [];
    var first := if |ps[0].bytes| <= MAX_BYTES then [ps[0].bytes] else [];
    assert Short([ps[0]]) == first + [] == first;
  }

  // ---------------------------------------------------------------- phase recovery

  ghost predicate KnownExpand(expand: nat) { expand == 0 || expand == EXPAND_FLAG_MARGIN }

  lemma EncodesTail(ts: seq<nat>, bits: seq<bool>, expand: nat)
    requires KnownExpand(expand) && Encodes(ts, bits, expand) && bits != []
    ensures |ts| >= 2 && Encodes(ts[2..], bits[1..], expand)
    ensures ts[0] > 0 && ts[1] > 0
    ensures HalfBitTiming(ts[0], expand) == HalfBitTiming(ts[1], expand) == AsTiming(bits[0])
  {
    assert HalfBitTiming(ts[1], expand) == AsTiming(bits[1 / 2]);
    forall i | 0 <= i < |ts| - 2
      ensures HalfBitTiming(ts[2..][i], expand) == AsTiming(bits[1..][i / 2])
    {
      assert (i + 2) / 2 == i / 2 + 1;
      assert HalfBitTiming(ts[i + 2], expand) == AsTiming(bits[(i + 2) / 2]);
    }
  }

  /** Between two bits, the next two halves act as one bit. */
  lemma FeedTwoHalves(s: Framing, ts: seq<nat>, bits: seq<bool>, expand: nat)
    requires FramingOk(s) && KnownExpand(expand) && Encodes(ts, bits, expand) && bits != []
    ensures |ts| >= 2
    ensures var fed := Feed(s, AsTiming(bits[0]));
            var rest := FeedHalves(Halved(fed.state, 0), ts[2..], expand);
            FeedHalves(Halved(s, 0), ts, expand) == FedHalf(rest.halved, fed.packets + rest.packets)
  {
    EncodesTail(ts, bits, expand);
    assert ts[1..][1..] == ts[2..];
    var first := FeedHalf(Halved(s, 0), ts[0], expand);
    var second := FeedHalf(first.halved, ts[1], expand);
    assert second == FedHalf(Halved(Feed(s, AsTiming(bits[0])).state, 0), Feed(s, AsTiming(bits[0])).packets);
    var rest := FeedHalves(second.halved, ts[2..], expand);
    assert FeedHalves(first.halved, ts[1..], expand) == FedHalf(rest.halved, second.packets + rest.packets);
    assert [] + (second.packets + rest.packets) == second.packets + rest.packets;
  }

  /** A decoder in phase stays in phase, and the framing gets exactly the bits that were sent. */
  lemma {:induction false} InPhase(s: Framing, ts: seq<nat>, bits: seq<bool>, expand: nat)
    requires FramingOk(s) && KnownExpand(expand) && Encodes(ts, bits, expand)
    ensures var fed := FeedAll(s, bits);
            FeedHalves(Halved(s, 0), ts, expand) == FedHalf(Halved(fed.state, 0), fed.packets)
    decreases |bits|
  {
    if bits != [] {
      FeedTwoHalves(s, ts, bits, expand);
      EncodesTail(ts, bits, expand);
      InPhase(Feed(s, AsTiming(bits[0])).state, ts[2..], bits[1..], expand);
    }
  }

  /** The number of leading bits with the value v. */
  function RunLength(v: bool, bits: seq<bool>): (n: nat)
    ensures n <= |bits|
    ensures forall i :: 0 <= i < n ==> bits[i] == v
    ensures n < |bits| ==> bits[n] != v
    decreases |bits|
  {
    if bits == [] || bits[0] != v then 0 else 1 + RunLength(v, bits[1..])
  }

  function Copies(v: bool, n: nat): seq<bool> { seq(n, _ => v) }

  /** What the framing gets when the value changes half a bit off: one bit that is neither zero nor one. */
  function Broken(s: Framing): (r: Framing)
    requires FramingOk(s)
    ensures FramingOk(r)
  {
    Feed(s, InvalidBit).state
  }

  /** What a decoder makes of bits when it is half a bit off, in the second half of a bit v. */
  function HalfABitOff(s: Framing, v: bool, bits: seq<bool>): (r: Fed)
    requires FramingOk(s)
    ensures FramingOk(r.state)
  {
    var run := FeedAll(s, Copies(v, RunLength(v, bits)));
    if RunLength(v, bits) == |bits| then run
    else
      var rest := FeedAll(Broken(run.state), bits[RunLength(v, bits)..]);
      Fed(rest.state, run.packets + rest.packets)
  }

  /** Half a bit off, two halves of the same bit still act as one such bit. */
  lemma FeedAcross(s: Framing, v: bool, previous: nat, ts: seq<nat>, bits: seq<bool>, expand: nat)
    requires FramingOk(s) && KnownExpand(expand) && Encodes(ts, bits, expand) && bits != [] && bits[0] == v
    requires previous > 0 && HalfBitTiming(previous, expand) == AsTiming(v)
    ensures |ts| >= 2
    ensures var fed := Feed(s, AsTiming(v));
            var rest := FeedHalves(Halved(fed.state, ts[1]), ts[2..], expand);
            FeedHalves(Halved(s, previous), ts, expand) == FedHalf(rest.halved, fed.packets + rest.packets)
  {
    EncodesTail(ts, bits, expand);
    assert ts[1..][1..] == ts[2..];
    var fed := Feed(s, AsTiming(v));
    assert FeedHalf(Halved(s, previous), ts[0], expand) == FedHalf(Halved(fed.state, 0), fed.packets);
    assert FeedHalf(Halved(fed.state, 0), ts[1], expand) == FedHalf(Halved(fed.state, ts[1]), []);
    var rest := FeedHalves(Halved(fed.state, ts[1]), ts[2..], expand);
    assert [] + rest.packets == rest.packets;
    assert FeedHalves(Halved(fed.state, 0), ts[1..], expand) == rest;
  }

  /** Half a bit off, a change of value puts the decoder in phase. */
  lemma FeedChange(s: Framing, v: bool, previous: nat, ts: seq<nat>, bits: seq<bool>, expand: nat)
    requires FramingOk(s) && KnownExpand(expand) && Encodes(ts, bits, expand) && bits != [] && bits[0] != v
    requires previous > 0 && HalfBitTiming(previous, expand) == AsTiming(v)
    ensures var fed := FeedAll(Broken(s), bits);
            FeedHalves(Halved(s, previous), ts, expand) == FedHalf(Halved(fed.state, 0), fed.packets)
  {
    EncodesTail(ts, bits, expand);
    var broken := Broken(s);
    assert FeedHalf(Halved(s, previous), ts[0], expand) == FedHalf(Halved(broken, ts[0]), []);
    assert FeedHalf(Halved(broken, 0), ts[0], expand) == FedHalf(Halved(broken, ts[0]), []);
    InPhase(broken, ts, bits, expand);
  }

  /**
   A decoder in any state that is half a bit off, with the second half of a bit v in its memory, gets the bits as
   they were sent up to the first that differs from v, then one invalid bit, and then it is in phase.
   */
  lemma {:induction false} OutOfPhase(s: Framing, v: bool, previous: nat, ts: seq<nat>, bits: seq<bool>, expand: nat)
    requires FramingOk(s) && KnownExpand(expand) && Encodes(ts, bits, expand)
    requires previous > 0 && HalfBitTiming(previous, expand) == AsTiming(v)
    ensures var fed := HalfABitOff(s, v, bits);
            var halved := FeedHalves(Halved(s, previous), ts, expand);
            && halved.packets == fed.packets && halved.halved.framing == fed.state
            && (RunLength(v, bits) < |bits| ==> halved.halved.previous == 0)
    decreases |bits|
  {
    hide Feed;
    hide FeedHalf;
    hide HalfBitTiming;
    if bits == [] {
    } else if bits[0] == v {
      FeedAcross(s, v, previous, ts, bits, expand);
      EncodesTail(ts, bits, expand);
      OutOfPhase(Feed(s, AsTiming(v)).state, v, ts[1], ts[2..], bits[1..], expand);
      OffByOneMore(s, v, bits);
    } else {
      FeedChange(s, v, previous, ts, bits, expand);
      assert bits[0..] == bits;
      var fed := FeedAll(Broken(s), bits);
      assert [] + fed.packets == fed.packets;
    }
  }

  lemma OffByOneMore(s: Framing, v: bool, bits: seq<bool>)
    requires FramingOk(s) && bits != [] && bits[0] == v
    ensures var fed := Feed(s, AsTiming(v));
            var rest := HalfABitOff(fed.state, v, bits[1..]);
            HalfABitOff(s, v, bits) == Fed(rest.state, fed.packets + rest.packets)
  {
    var n := RunLength(v, bits);
    hide Feed;
    assert n == 1 + RunLength(v, bits[1..]);
    assert Copies(v, n) == [v] + Copies(v, n - 1);
    FeedCons(s, v, Copies(v, n - 1));
    assert bits[n..] == bits[1..][n - 1..];
    if n < |bits| {
      var fed := Feed(s, AsTiming(v));
      var run := FeedAll(fed.state, Copies(v, n - 1));
      var rest := FeedAll(Broken(run.state), bits[n..]);
      assert fed.packets + (run.packets + rest.packets) == fed.packets + run.packets + rest.packets;
    }
  }

  /** Without a packet under way or begun, that is as if the decoder had joined right at the change. */
  lemma {:induction false} HuntingOutOfPhase(c: nat, v: bool, bits: seq<bool>)
    requires c < 256 && (v || c < MIN_PREAMBLE || RunLength(v, bits) == 0)
    ensures HalfABitOff(Hunting(c), v, bits).packets == FeedAll(Hunting(0), bits[RunLength(v, bits)..]).packets
  {
    hide RunLength;
    var n := RunLength(v, bits);
    var run := FeedAll(Hunting(c), Copies(v, n));
    assert Broken(run.state) == Hunting(0) by { RunKeepsHunting(c, v, n); }
    hide Feed;
    hide Broken;
    RunKeepsHunting(c, v, n);
    var rest := FeedAll(Hunting(0), bits[n..]);
    assert [] + rest.packets == rest.packets;
  }

  lemma RunKeepsHunting(c: nat, v: bool, n: nat)
    requires c < 256 && (v || c < MIN_PREAMBLE || n == 0)
    ensures FeedAll(Hunting(c), Copies(v, n)) == Fed(Hunting(if v then (c + n) % 256 else if n == 0 then c else 0), [])
  {
    if v {
      assert Copies(v, n) == Ones(n);
      FeedOnes(c, n);
    } else if n > 0 {
      assert Copies(v, n) == [false] + Copies(v, n - 1);
      assert Feed(Hunting(c), ZeroBit) == Fed(Hunting(0), []);
      hide Feed;
      hide FeedAll;
      FeedCons(Hunting(c), false, Copies(v, n - 1));
      FeedZeros(n - 1);
    } else {
      assert Copies(v, n) == [];
    }
  }

  lemma {:induction false} FeedZeros(n: nat)
    ensures FeedAll(Hunting(0), Copies(false, n)) == Fed(Hunting(0), [])
    decreases n
  {
    if n > 0 {
      assert Copies(false, n) == [false] + Copies(false, n - 1);
      FeedCons(Hunting(0), false, Copies(false, n - 1));
      FeedZeros(n - 1);
    }
  }

  lemma EncodesFrom(ts: seq<nat>, bits: seq<bool>, k: nat, expand: nat)
    requires Encodes(ts, bits, expand) && k <= |bits|
    ensures Encodes(ts[2 * k..], bits[k..], expand)
  {
    forall i | 0 <= i < |ts| - 2 * k
      ensures HalfBitTiming(ts[2 * k..][i], expand) == AsTiming(bits[k..][i / 2])
    {
      assert (i + 2 * k) / 2 == i / 2 + k;
      assert HalfBitTiming(ts[i + 2 * k], expand) == AsTiming(bits[(i + 2 * k) / 2]);
    }
  }

  /** A packet holds both bit values, so no run of equal bits covers a whole packet. */
  lemma PacketChanges(p: Packet, v: bool)
    requires MIN_PREAMBLE <= p.preamble && p.bytes != []
    ensures RunLength(v, PacketBits(p)) < |PacketBits(p)|
  {
    var bits := PacketBits(p);
    assert bits[0] && !bits[p.preamble];
  }

  lemma {:induction false} RunStopsInside(v: bool, a: seq<bool>, b: seq<bool>)
    requires RunLength(v, a) < |a|
    ensures RunLength(v, a + b) == RunLength(v, a)
    decreases |a|
  {
    if a[0] == v {
      assert (a + b)[1..] == a[1..] + b;
      RunStopsInside(v, a[1..], b);
    }
  }

  lemma {:induction false} RunGoesOn(v: bool, a: seq<bool>, b: seq<bool>)
    requires RunLength(v, a) == |a|
    ensures RunLength(v, a + b) == |a| + RunLength(v, b)
    decreases |a|
  {
    if a == [] {
      assert a + b == b;
    } else {
      assert (a + b)[1..] == a[1..] + b;
      RunGoesOn(v, a[1..], b);
    }
  }

  /** A run that starts in the first packet ends in it, or in the second one, or with the stream. */
  lemma RunEnds(ps: seq<Packet>, k: nat, v: bool)
    requires Standard(ps) && ps != [] && k <= |PacketBits(ps[0])|
    ensures k <= |Stream(ps)|
    ensures var end := k + RunLength(v, Stream(ps)[k..]);
            var len := |PacketBits(ps[0])|;
            && (end < |Stream(ps)| ==> end < len || (|ps| > 1 && len <= end < len + |PacketBits(ps[1])|))
            && (end <= len || (|ps| > 1 && end <= len + |PacketBits(ps[1])|))
  {
    StreamSlice(ps, k);
    var first, rest := PacketBits(ps[0])[k..], ps[1..];
    if RunLength(v, first) < |first| {
      RunStopsInside(v, first, Stream(rest));
    } else {
      RunGoesOn(v, first, Stream(rest));
      if rest != [] {
        PacketChanges(rest[0], v);
        RunStopsInside(v, PacketBits(rest[0]), Stream(rest[1..]));
      }
    }
  }

  /** So an out-of-phase decoder joins in the first packet or in the second one. */
  lemma JoinAfterRun(ps: seq<Packet>, k: nat, v: bool) returns (missed: nat)
    requires Standard(ps) && ps != [] && k <= |PacketBits(ps[0])|
    ensures missed <= 2 && missed <= |ps| && k <= |Stream(ps)|
    ensures var bits := Stream(ps)[k..];
            FeedAll(Hunting(0), bits[RunLength(v, bits)..]).packets == Short(ps[missed..])
  {
    hide FeedAll;
    hide PacketBits;
    RunEnds(ps, k, v);
    var bits := Stream(ps)[k..];
    var end := k + RunLength(v, bits);
    assert bits[end - k..] == Stream(ps)[end..];
    StreamSlice(ps, end);
    if end <= |PacketBits(ps[0])| {
      JoinAtAnyBit(ps, end);
      missed := if end + MIN_PREAMBLE <= ps[0].preamble then 0 else 1;
    } else {
      var n := end - |PacketBits(ps[0])|;
      JoinAtAnyBit(ps[1..], n);
      missed := if n + MIN_PREAMBLE <= ps[1].preamble then 1 else 2;
      assert ps[2..] == ps[1..][1..];
    }
  }

  /** What a decoder that holds no half-bit makes of a stream, from any half-bit on. */
  lemma HeardFrom(s: Framing, bits: seq<bool>, ts: seq<nat>, h: nat, expand: nat)
    requires FramingOk(s) && KnownExpand(expand) && Encodes(ts, bits, expand) && h <= |ts|
    ensures FeedHalves(Halved(s, 0), ts[h..], expand).packets
            == if h % 2 == 0 then FeedAll(s, bits[h / 2..]).packets
               else HalfABitOff(s, bits[h / 2], bits[h / 2 + 1..]).packets
  {
    hide FeedAll;
    hide FeedHalves;
    hide HalfABitOff;
    hide Feed;
    hide HalfBitTiming;
    EncodesFrom(ts, bits, h / 2, expand);
    var later, halves := bits[h / 2..], ts[2 * (h / 2)..];
    if h % 2 == 0 {
      InPhase(s, halves, later, expand);
    } else {
      EncodesTail(halves, later, expand);
      var odd := ts[h..];
      assert odd[0] == halves[1] && odd[1..] == halves[2..];
      FirstHalfIsKept(s, odd, expand);
      OutOfPhase(s, later[0], odd[0], odd[1..], later[1..], expand);
      assert later[1..] == bits[h / 2 + 1..];
    }
  }

  lemma FirstHalfIsKept(s: Framing, ts: seq<nat>, expand: nat)
    requires FramingOk(s) && ts != []
    ensures FeedHalves(Halved(s, 0), ts, expand).packets == FeedHalves(Halved(s, ts[0]), ts[1..], expand).packets
  {
    var rest := FeedHalves(Halved(s, ts[0]), ts[1..], expand);
    assert [] + rest.packets == rest.packets;
  }

  /**
   No spurious packets: a new decoder that is fed the half-bits of a standard stream from any half-bit of its
   first packet on, in phase or not, gets all packets of at most five bytes from some packet on.  It misses
   no more than the first two.
   */
  lemma NoSpuriousPackets(ps: seq<Packet>, ts: seq<nat>, h: nat, expand: nat) returns (missed: nat)
    requires KnownExpand(expand) && Standard(ps) && ps != [] && Encodes(ts, Stream(ps), expand)
    requires h <= 2 * |PacketBits(ps[0])| && h <= |ts|
    ensures missed <= 2 && missed <= |ps|
    ensures FeedHalves(Halved(Hunting(0), 0), ts[h..], expand).packets == Short(ps[missed..])
  {
    hide FeedHalves;
    hide FeedAll;
    hide HalfABitOff;
    hide Stream;
    hide PacketBits;
    hide Short;
    hide Standard;
    var k := h / 2;
    HeardFrom(Hunting(0), Stream(ps), ts, h, expand);
    if h % 2 == 0 {
      JoinAtAnyBit(ps, k);
      missed := if k + MIN_PREAMBLE <= ps[0].preamble then 0 else 1;
    } else {
      HuntingOutOfPhase(0, Stream(ps)[k], Stream(ps)[k + 1..]);
      missed := JoinAfterRun(ps, k + 1, Stream(ps)[k]);
    }
  }

  // ---------------------------------------------------------------- in the middle of a packet

  /** How many more bits a packet that is under way can take up. */
  function Left(s: Framing): nat
    requires FramingOk(s)
  {
    match s
    case Hunting(_) => 0
    case InByte(_, bit, data) => bit + 1 + 9 * (MAX_BYTES - |data|)
    case AfterByte(data) => 9 * (MAX_BYTES + 1 - |data|)
  }

  /** Whatever the bits are, a packet under way ends soon, and it is the only one until then. */
  lemma {:induction false} PacketUnderWayEnds(s: Framing, bits: seq<bool>) returns (j: nat)
    requires FramingOk(s)
    ensures j <= |bits| && j <= Left(s) && |FeedAll(s, bits[..j]).packets| <= 1
    ensures j == |bits| || FeedAll(s, bits[..j]).state == if s.Hunting? then s else Hunting(0)
    ensures FeedAll(s, bits[..j]).packets != [] ==> FeedAll(s, bits[..j]).state == Hunting(0)
    decreases |bits|
  {
    if bits == [] || s.Hunting? {
      j := 0;
      assert bits[..0] == [];
    } else {
      var fed := Feed(s, AsTiming(bits[0]));
      j := PacketUnderWayEnds(fed.state, bits[1..]);
      assert bits[..j + 1] == [bits[0]] + bits[1..][..j];
      FeedCons(s, bits[0], bits[1..][..j]);
      j := j + 1;
    }
  }

  lemma {:induction false} FindPacket(ps: seq<Packet>, j: nat) returns (m: nat, k: nat)
    requires Standard(ps) && ps != [] && j <= |Stream(ps)|
    ensures m < |ps| && m <= j / 20 && k <= |PacketBits(ps[m])| && k <= |Stream(ps[m..])|
    ensures Stream(ps)[j..] == Stream(ps[m..])[k..]
    decreases |ps|
  {
    hide PacketBits;
    StreamSlice(ps, j);
    ShortestPacket(ps[0]);
    if j <= |PacketBits(ps[0])| {
      m, k := 0, j;
      assert ps[0..] == ps;
    } else {
      var n := j - |PacketBits(ps[0])|;
      m, k := FindPacket(ps[1..], n);
      assert ps[1..][m..] == ps[m + 1..];
      m := m + 1;
    }
  }

  lemma ShortestPacket(p: Packet)
    requires MIN_PREAMBLE <= p.preamble && p.bytes != []
    ensures |PacketBits(p)| >= 20
  {}

  lemma NothingFromNothing(s: Framing)
    requires FramingOk(s)
    ensures FeedAll(s, []).packets == []
  {}

  /** In phase: the packet under way ends in one of the first four packets. */
  lemma UnderWayInPhase(s: Framing, ps: seq<Packet>, k: nat) returns (invented: seq<seq<bv8>>, missed: nat)
    requires FramingOk(s) && !s.Hunting? && Standard(ps) && ps != [] && k <= |PacketBits(ps[0])|
    ensures |invented| <= 1 && missed <= 4 && missed <= |ps| && k <= |Stream(ps)|
    ensures FeedAll(s, Stream(ps)[k..]).packets == invented + Short(ps[missed..])
  {
    hide FeedAll;
    hide Feed;
    hide PacketBits;
    StreamSlice(ps, k);
    var bits := Stream(ps)[k..];
    var j := PacketUnderWayEnds(s, bits);
    invented := FeedAll(s, bits[..j]).packets;
    assert bits == bits[..j] + bits[j..];
    FeedAppend(s, bits[..j], bits[j..]);
    assert bits[j..] == Stream(ps)[k + j..];
    missed := JoinLater(ps, k, j);
    var now := FeedAll(s, bits[..j]).state;
    assert FeedAll(now, bits[j..]).packets == FeedAll(Hunting(0), bits[j..]).packets by {
      NothingFromNothing(now);
      NothingFromNothing(Hunting(0));
    }
  }

  /** Joining at a bit that comes soon after one of the first packet. */
  lemma JoinLater(ps: seq<Packet>, k: nat, j: nat) returns (missed: nat)
    requires Standard(ps) && ps != [] && k <= |PacketBits(ps[0])| && j < 60 && k + j <= |Stream(ps)|
    ensures missed <= 4 && missed <= |ps|
    ensures FeedAll(Hunting(0), Stream(ps)[k + j..]).packets == Short(ps[missed..])
  {
    hide FeedAll;
    hide PacketBits;
    hide Short;
    var at, rest := k + j, ps[1..];
    StreamSlice(ps, at);
    if at <= |PacketBits(ps[0])| {
      JoinAtAnyBit(ps, at);
      missed := if at + MIN_PREAMBLE <= ps[0].preamble then 0 else 1;
    } else {
      assert Stream(rest) != [];
      hide Stream;
      var m, i := FindPacket(rest, at - |PacketBits(ps[0])|);
      assert rest[m..] == ps[m + 1..];
      JoinAtAnyBit(ps[m + 1..], i);
      missed := if i + MIN_PREAMBLE <= ps[m + 1].preamble then m + 1 else m + 2;
      assert ps[m + 1..][1..] == ps[m + 2..];
    }
  }

  /** A run of equal bits ends at most one packet. */
  lemma RunEndsOne(s: Framing, v: bool, n: nat)
    requires FramingOk(s) && !s.Hunting?
    ensures |FeedAll(s, Copies(v, n)).packets| <= 1
  {
    hide Feed;
    var bits := Copies(v, n);
    var j := PacketUnderWayEnds(s, bits);
    assert bits == bits[..j] + bits[j..] && bits[j..] == Copies(v, n - j);
    FeedAppend(s, bits[..j], bits[j..]);
    if j < n {
      RunKeepsHunting(0, v, n - j);
    }
  }

  /** Half a bit off: if the packet is still under way at the change of value, the invalid bit is as good as none. */
  lemma UnderWayOutOfPhase(s: Framing, ps: seq<Packet>, k: nat, v: bool)
    returns (invented: seq<seq<bv8>>, missed: nat)
    requires FramingOk(s) && !s.Hunting? && Standard(ps) && ps != [] && k <= |PacketBits(ps[0])|
    ensures |invented| <= 1 && missed <= 4 && missed <= |ps| && k <= |Stream(ps)|
    ensures HalfABitOff(s, v, Stream(ps)[k..]).packets == invented + Short(ps[missed..])
  {
    hide FeedAll;
    hide PacketBits;
    hide RunLength;
    hide Stream;
    StreamSlice(ps, k);
    var bits := Stream(ps)[k..];
    var n := RunLength(v, bits);
    var run := FeedAll(s, Copies(v, n));
    assert bits == Copies(v, n) + bits[n..];
    FeedAppend(s, Copies(v, n), bits[n..]);
    if run.state.Hunting? {
      RunEndsOne(s, v, n);
      invented := run.packets;
      missed := JoinAfterRun(ps, k, v);
      NothingFromNothing(Hunting(0));
      assert run.packets + [] == run.packets;
    } else {
      invented, missed := UnderWayInPhase(s, ps, k);
      NothingFromNothing(run.state);
      assert run.packets + [] == run.packets;
    }
  }

  /** A hunting decoder with some ones counted, in phase, after the ones that come first. */
  lemma HuntingInPhase(c: nat, ps: seq<Packet>, k: nat) returns (invented: seq<seq<bv8>>, missed: nat)
    requires c < 256 && Standard(ps) && ps != [] && k <= |PacketBits(ps[0])|
    ensures |invented| <= 1 && missed <= 5 && missed <= |ps| && k <= |Stream(ps)|
    ensures FeedAll(Hunting(c), Stream(ps)[k..]).packets == invented + Short(ps[missed..])
  {
    hide FeedAll;
    hide PacketBits;
    hide Stream;
    RunEnds(ps, k, true);
    var bits := Stream(ps)[k..];
    var n := RunLength(true, bits);
    var d, rest := (c + n) % 256, bits[n..];
    assert bits == Ones(n) + rest;
    FeedAppend(Hunting(c), Ones(n), rest);
    FeedOnes(c, n);
    assert FeedAll(Hunting(c), bits).packets == FeedAll(Hunting(d), rest).packets;
    if rest == [] {
      NothingFromNothing(Hunting(d));
      NothingFromNothing(Hunting(0));
      invented := [];
      missed := JoinAfterRun(ps, k, true);
    } else {
      assert rest == [false] + rest[1..] && rest[1..] == Stream(ps)[k + n + 1..];
      FeedCons(Hunting(d), false, rest[1..]);
      var next := Feed(Hunting(d), ZeroBit).state;
      assert FeedAll(Hunting(d), rest).packets == [] + FeedAll(next, rest[1..]).packets;
      invented, missed := AfterZero(next, ps, k + n + 1);
    }
  }

  /** From a bit of the first or second packet on, with no ones counted or a packet under way. */
  lemma AfterZero(s: Framing, ps: seq<Packet>, at: nat) returns (invented: seq<seq<bv8>>, missed: nat)
    requires FramingOk(s) && (s.Hunting? ==> s.ones == 0) && Standard(ps) && ps != [] && at <= |Stream(ps)|
    requires at <= |PacketBits(ps[0])| || (|ps| > 1 && at <= |PacketBits(ps[0])| + |PacketBits(ps[1])|)
    ensures |invented| <= 1 && missed <= 5 && missed <= |ps|
    ensures FeedAll(s, Stream(ps)[at..]).packets == invented + Short(ps[missed..])
  {
    hide FeedAll;
    hide PacketBits;
    hide Stream;
    hide Short;
    StreamSlice(ps, at);
    var len := |PacketBits(ps[0])|;
    var late := if at <= len then 0 else 1;
    var left, k := ps[late..], if at <= len then at else at - len;
    assert Stream(left)[k..] == Stream(ps)[at..];
    if s.Hunting? {
      JoinAtAnyBit(left, k);
      invented, missed := [], if k + MIN_PREAMBLE <= left[0].preamble then 0 else 1;
    } else {
      invented, missed := UnderWayInPhase(s, left, k);
    }
    assert left[missed..] == ps[late + missed..] && left[1..] == ps[late + 1..] && left[0..] == left;
    assert [] + Short(left[missed..]) == Short(left[missed..]);
    missed := late + missed;
  }

  /** A hunting decoder that is half a bit off: with enough ones counted, a zero begins a packet. */
  lemma HuntingHalfABitOff(c: nat, ps: seq<Packet>, k: nat, v: bool)
    returns (invented: seq<seq<bv8>>, missed: nat)
    requires c < 256 && Standard(ps) && ps != [] && k <= |PacketBits(ps[0])|
    ensures |invented| <= 1 && missed <= 5 && missed <= |ps| && k <= |Stream(ps)|
    ensures HalfABitOff(Hunting(c), v, Stream(ps)[k..]).packets == invented + Short(ps[missed..])
  {
    hide FeedAll;
    hide PacketBits;
    hide Stream;
    hide HalfABitOff;
    hide Short;
    StreamSlice(ps, k);
    var bits := Stream(ps)[k..];
    if v || c < MIN_PREAMBLE || RunLength(v, bits) == 0 {
      HuntingOutOfPhase(c, v, bits);
      invented := [];
      missed := JoinAfterRun(ps, k, v);
      assert [] + Short(ps[missed..]) == Short(ps[missed..]);
    } else {
      OffByOneMore(Hunting(c), v, bits);
      assert bits[1..] == Stream(ps)[k + 1..];
      var begun := Feed(Hunting(c), ZeroBit).state;
      var packets := HalfABitOff(begun, v, bits[1..]).packets;
      assert [] + packets == packets;
      if k < |PacketBits(ps[0])| {
        invented, missed := UnderWayOutOfPhase(begun, ps, k + 1, v);
      } else {
        BeyondTheFirst(ps);
        StreamSlice(ps, k + 1);
        invented, missed := UnderWayOutOfPhase(begun, ps[1..], 1, v);
        assert ps[1..][missed..] == ps[missed + 1..];
        missed := missed + 1;
      }
    }
  }

  lemma BeyondTheFirst(ps: seq<Packet>)
    requires Standard(ps) && ps != [] && |Stream(ps)| > |PacketBits(ps[0])|
    ensures |ps| > 1 && |PacketBits(ps[1])| >= 20
  {
    assert ps[1..] != [];
    ShortestPacket(ps[1]);
  }

  /** Any state of the framing, as long as the decoder does not hold a half-bit. */
  lemma FromAnyFraming(s: Framing, ps: seq<Packet>, ts: seq<nat>, h: nat, expand: nat)
    returns (invented: seq<seq<bv8>>, missed: nat)
    requires FramingOk(s)
    requires KnownExpand(expand) && Standard(ps) && ps != [] && Encodes(ts, Stream(ps), expand)
    requires h <= 2 * |PacketBits(ps[0])| && h <= |ts|
    ensures |invented| <= 1 && missed <= 5 && missed <= |ps|
    ensures FeedHalves(Halved(s, 0), ts[h..], expand).packets == invented + Short(ps[missed..])
  {
    hide FeedHalves;
    hide FeedAll;
    hide HalfABitOff;
    hide Stream;
    hide PacketBits;
    hide Short;
    hide Standard;
    var k := h / 2;
    HeardFrom(s, Stream(ps), ts, h, expand);
    if h % 2 == 0 {
      if s.Hunting? {
        invented, missed := HuntingInPhase(s.ones, ps, k);
      } else {
        invented, missed := UnderWayInPhase(s, ps, k);
      }
    } else if s.Hunting? {
      invented, missed := HuntingHalfABitOff(s.ones, ps, k + 1, Stream(ps)[k]);
    } else {
      invented, missed := UnderWayOutOfPhase(s, ps, k + 1, Stream(ps)[k]);
    }
  }

  /** If the decoder holds a half-bit, the first one that comes either completes a bit with it or takes its place. */
  lemma FirstHalf(d: Halved, ts: seq<nat>, expand: nat)
    requires FramingOk(d.framing) && d.previous > 0 && ts != [] && ts[0] > 0
    ensures var timing := TwoHalvesTiming(d.previous, ts[0], expand);
            var fed := Feed(d.framing, timing);
            var after := FeedHalves(Halved(fed.state, 0), ts[1..], expand);
            if timing == ZeroBit || timing == OneBit then
              && FeedHalves(d, ts, expand).packets == fed.packets + after.packets
              && |fed.packets| <= 1 && (fed.packets != [] ==> fed.state == Hunting(0))
            else FeedHalves(d, ts, expand) == FeedHalves(Halved(Broken(d.framing), 0), ts, expand)
  {
  }

  lemma FromAnyState(d: Halved, ps: seq<Packet>, ts: seq<nat>, h: nat, expand: nat)
    returns (invented: seq<seq<bv8>>, missed: nat)
    requires FramingOk(d.framing)
    requires KnownExpand(expand) && Standard(ps) && ps != [] && Encodes(ts, Stream(ps), expand)
    requires h < 2 * |PacketBits(ps[0])| && h < |ts|
    ensures |invented| <= 1 && missed <= 5 && missed <= |ps|
    ensures FeedHalves(d, ts[h..], expand).packets == invented + Short(ps[missed..])
  {
    hide FeedHalves;
    hide Stream;
    hide PacketBits;
    hide Short;
    hide Standard;
    hide Feed;
    hide TwoHalvesTiming;
    assert ts[h] > 0 && ts[h..][1..] == ts[h + 1..];
    hide Encodes;
    if d.previous == 0 {
      invented, missed := FromAnyFraming(d.framing, ps, ts, h, expand);
    } else {
      FirstHalf(d, ts[h..], expand);
      var timing := TwoHalvesTiming(d.previous, ts[h], expand);
      if timing == ZeroBit || timing == OneBit {
        var fed := Feed(d.framing, timing);
        if fed.packets == [] {
          invented, missed := FromAnyFraming(fed.state, ps, ts, h + 1, expand);
          assert [] + (invented + Short(ps[missed..])) == invented + Short(ps[missed..]);
        } else {
          invented := fed.packets;
          missed := NoSpuriousPackets(ps, ts, h + 1, expand);
        }
      } else {
        invented, missed := FromAnyFraming(Broken(d.framing), ps, ts, h, expand);
      }
    }
  }

  /**
   A decoder in any state whatever that gets a standard stream, from any half-bit of its first packet on, gives out at
   most one packet that was not sent, and then every packet of at most five bytes.  It misses no more than the first
   six.
   */
  lemma AtMostOneInvented(d: Halved, ps: seq<Packet>, ts: seq<nat>, h: nat, expand: nat)
    returns (invented: seq<seq<bv8>>, missed: nat)
    requires FramingOk(d.framing)
    requires KnownExpand(expand) && Standard(ps) && ps != [] && Encodes(ts, Stream(ps), expand)
    requires h <= 2 * |PacketBits(ps[0])| && h <= |ts|
    ensures |invented| <= 1 && missed <= 6 && missed <= |ps|
    ensures FeedHalves(d, ts[h..], expand).packets == invented + Short(ps[missed..])
  {
    hide PacketBits;
    hide Short;
    var len, rest := |PacketBits(ps[0])|, ps[1..];
    if h < 2 * len && h < |ts| {
      invented, missed := FromAnyState(d, ps, ts, h, expand);
    } else {
      StreamSlice(ps, len);
      if rest == [] {
        NothingShort();
        invented, missed := [], 1;
      } else {
        EncodesFrom(ts, Stream(ps), len, expand);
        assert Stream(ps)[len..] == Stream(rest);
        ShortestPacket(rest[0]);
        invented, missed := FromAnyState(d, rest, ts[h..], 0, expand);
        assert ts[h..][0..] == ts[h..] && rest[missed..] == ps[missed + 1..];
        missed := missed + 1;
      }
    }
  }

  lemma NothingShort()
    ensures Short([]) == []
  {
  }

  // ---------------------------------------------------------------- with the checksum

  /** A decoder whose packets are pumped now and then. */
  datatype Pumped = Pumped(halved: Halved, waiting: seq<seq<bv8>>, delivered: seq<seq<bv8>>)

  /** One half-bit, with or without a call to pump after it. */
  function PumpHalf(d: Pumped, t: nat, pump: bool, expand: nat): (r: Pumped)
    requires FramingOk(d.halved.framing)
    ensures FramingOk(r.halved.framing)
  {
    var fed := FeedHalf(d.halved, t, expand);
    var waiting := if fed.packets == [] then d.waiting else fed.packets;
    if pump then Pumped(fed.halved, [], d.delivered + Good(waiting)) else Pumped(fed.halved, waiting, d.delivered)
  }

  function PumpHalves(d: Pumped, ts: seq<nat>, pumps: seq<bool>, expand: nat): (r: Pumped)
    requires FramingOk(d.halved.framing) && |pumps| == |ts|
    ensures FramingOk(r.halved.framing)
    decreases |ts|
  {
    if ts == [] then d else PumpHalves(PumpHalf(d, ts[0], pumps[0], expand), ts[1..], pumps[1..], expand)
  }

  /** No packet with a right checksum is still waiting when the next one comes. */
  predicate InTime(d: Pumped, ts: seq<nat>, pumps: seq<bool>, expand: nat)
    requires FramingOk(d.halved.framing) && |pumps| == |ts|
    decreases |ts|
  {
    ts != [] ==>
      && (FeedHalf(d.halved, ts[0], expand).packets != [] ==> Good(d.waiting) == [])
      && InTime(PumpHalf(d, ts[0], pumps[0], expand), ts[1..], pumps[1..], expand)
  }

  lemma {:induction false} GoodAppend(a: seq<seq<bv8>>, b: seq<seq<bv8>>)
    ensures Good(a + b) == Good(a) + Good(b)
    decreases |a|
  {
    hide XorAll;
    if a == [] {
      assert a + b == b;
    } else {
      assert (a + b)[1..] == a[1..] + b;
      GoodAppend(a[1..], b);
      var first := if XorAll(a[0]) == 0 then [a[0]] else [];
      assert Good(a) == first + Good(a[1..]) && Good(a + b) == first + Good(a[1..] + b);
      assert first + (Good(a[1..]) + Good(b)) == first + Good(a[1..]) + Good(b);
    }
  }

  /** What has been given out and what waits to be, as far as the checksum is right. */
  function Kept(d: Pumped): seq<seq<bv8>> { d.delivered + Good(d.waiting) }

  lemma PumpHalfKeeps(d: Pumped, t: nat, pump: bool, expand: nat)
    requires FramingOk(d.halved.framing)
    ensures var fed := FeedHalf(d.halved, t, expand);
            && (fed.packets == [] || Good(d.waiting) == [] ==>
                  Kept(PumpHalf(d, t, pump, expand)) == Kept(d) + Good(fed.packets))
            && (fed.packets != [] ==> Kept(PumpHalf(d, t, pump, expand)) == d.delivered + Good(fed.packets))
  {
    hide FeedHalf;
    hide XorAll;
    assert Kept(d) + [] == Kept(d);
  }

  /**
   For any half-bits, whenever the packets are pumped: exactly the packets with a right checksum are given out or
   still wait, in order, if and only if none of them is still waiting when the next packet comes.
   */
  lemma {:induction false} PumpingExactly(d: Pumped, ts: seq<nat>, pumps: seq<bool>, expand: nat)
    requires FramingOk(d.halved.framing) && |pumps| == |ts|
    ensures var all := Kept(d) + Good(FeedHalves(d.halved, ts, expand).packets);
            var kept := Kept(PumpHalves(d, ts, pumps, expand));
            && |kept| <= |all|
            && (kept == all <==> InTime(d, ts, pumps, expand))
            && (|kept| == |all| <==> InTime(d, ts, pumps, expand))
    decreases |ts|
  {
    hide FeedHalf;
    hide XorAll;
    hide Good;
    if ts == [] {
      assert Good([]) == [] by { GoodOfNone(); }
      assert Kept(d) + [] == Kept(d);
    } else {
      var fed := FeedHalf(d.halved, ts[0], expand);
      var next := PumpHalf(d, ts[0], pumps[0], expand);
      var rest := FeedHalves(fed.halved, ts[1..], expand).packets;
      assert next.halved == fed.halved;
      PumpHalfKeeps(d, ts[0], pumps[0], expand);
      PumpingExactly(next, ts[1..], pumps[1..], expand);
      GoodAppend(fed.packets, rest);
      assert Kept(d) + (Good(fed.packets) + Good(rest)) == Kept(d) + Good(fed.packets) + Good(rest);
    }
  }

  lemma GoodOfNone()
    ensures Good([]) == []
  {}

  lemma {:induction false} PumpedAlways(d: Pumped, ts: seq<nat>, expand: nat)
    requires FramingOk(d.halved.framing) && d.waiting == []
    ensures InTime(d, ts, seq(|ts|, _ => true), expand)
    ensures PumpHalves(d, ts, seq(|ts|, _ => true), expand).waiting == []
    decreases |ts|
  {
    hide FeedHalf;
    var pumps := seq(|ts|, _ => true);
    if ts != [] {
      assert pumps[1..] == seq(|ts| - 1, _ => true);
      PumpedAlways(PumpHalf(d, ts[0], true, expand), ts[1..], expand);
    }
  }

  /**
   A new decoder that is pumped after every half-bit of a standard stream, heard from any half-bit of its first
   packet on, gives out exactly those packets whose checksum is right, from some packet on.
   */
  lemma GoodPacketsAreDelivered(ps: seq<Packet>, ts: seq<nat>, h: nat, expand: nat) returns (missed: nat)
    requires KnownExpand(expand) && Standard(ps) && ps != [] && Encodes(ts, Stream(ps), expand)
    requires h <= 2 * |PacketBits(ps[0])| && h <= |ts|
    ensures missed <= 2 && missed <= |ps|
    ensures PumpHalves(Pumped(Halved(Hunting(0), 0), [], []), ts[h..], seq(|ts| - h, _ => true), expand).delivered
            == Good(Short(ps[missed..]))
  {
    hide Good;
    hide FeedHalves;
    hide PumpHalves;
    hide Stream;
    hide Encodes;
    hide Standard;
    var idle := Pumped(Halved(Hunting(0), 0), [], []);
    missed := NoSpuriousPackets(ps, ts, h, expand);
    PumpedAlways(idle, ts[h..], expand);
    PumpingExactly(idle, ts[h..], seq(|ts| - h, _ => true), expand);
    GoodOfNone();
    assert [] + Good(Short(ps[missed..])) == Good(Short(ps[missed..]));
  }

  // ---------------------------------------------------------------- which packets come out

  /**
   Exactly when a packet comes out.  So one of six bytes, which the decoder keeps room for, never does, and a
   preamble of 256 ones counts as none at all.
   */
  lemma GivenExactlyIf(c: nat, p: Packet)
    requires c < 256 && p.bytes != []
    ensures FeedAll(Hunting(c), PacketBits(p)).packets == [p.bytes] <==>
            (c + p.preamble) % 256 >= MIN_PREAMBLE && |p.bytes| <= MAX_BYTES
    ensures |p.bytes| == 6 ==> FeedAll(Hunting(c), PacketBits(p)).packets == []
    ensures c == 0 && p.preamble == 256 ==> FeedAll(Hunting(c), PacketBits(p)).packets == []
  {
    FeedPacket(c, p);
  }
}
