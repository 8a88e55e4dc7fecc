/**
 The datagrams of the memory configuration protocol: what a client asks (LCC/lcc-remote-memory.c) and what a
 node answers (LCC/lcc-memory.c).

   byte 0      0x20
   byte 1      the command; its low two bits name one of three well-known spaces, or 0 for any other space
   bytes 2-5   address, big end first
   byte 6      the space, if it is not one of the three; what follows then comes one byte later
 */
module MemoryProtocol {
  import opened Basics
  import opened CanId
  import opened Datagram
  import opened MemoryMap

  const SPACE_CDI := 0xFF
  const SPACE_ALL := 0xFE
  const SPACE_CONFIG := 0xFD

  const NOT_IMPLEMENTED := 0x1040
  const INVALID_ARG := 0x1080
  const REPLY_PENDING := 0x80
  const LONGEST_MESSAGE := 62

  // ---------------------------------------------------------------- 32-bit words

  function WordBytes(w: nat): (r: seq<Byte>)
    ensures |r| == 4
  {
    [w / 0x100_0000 % 0x100, w / 0x1_0000 % 0x100, w / 0x100 % 0x100, w % 0x100]
  }

  function WordAt(buffer: seq<Byte>, i: nat): (w: nat)
    requires i + 4 <= |buffer|
    ensures w < WORD_LIMIT
  {
    FromBytes(buffer[i], buffer[i + 1], buffer[i + 2], buffer[i + 3])
  }

  function FromBytes(a: nat, b: nat, c: nat, d: nat): nat
  {
    a * 0x100_0000 + b * 0x1_0000 + c * 0x100 + d
  }

  lemma WordRoundTrip(w: nat, buffer: seq<Byte>, i: nat)
    requires w < WORD_LIMIT && i + 4 <= |buffer| && buffer[i..i + 4] == WordBytes(w)
    ensures WordAt(buffer, i) == w
  {
    var s := buffer[i..i + 4];
    assert buffer[i] == s[0] && buffer[i + 1] == s[1] && buffer[i + 2] == s[2] && buffer[i + 3] == s[3];
    SplitWord(w);
  }

  lemma SplitWord(w: nat)
    requires w < WORD_LIMIT
    ensures FromBytes(w / 0x100_0000 % 0x100, w / 0x1_0000 % 0x100, w / 0x100 % 0x100, w % 0x100) == w
  {
    var b := w / 0x100;
    var c := b / 0x100;
    var d := c / 0x100;
    assert w == b * 0x100 + w % 0x100 && b == c * 0x100 + b % 0x100 && c == d * 0x100 + c % 0x100;
    assert w / 0x1_0000 == c && w / 0x100_0000 == d;
  }

  // ---------------------------------------------------------------- messages

  datatype Request =
    | ReadRequest(space: Byte, address: nat, count: nat)
    | WriteRequest(space: Byte, address: nat, data: seq<Byte>)
    | InfoRequest(space: Byte)
    | UpdateComplete

  datatype Reply =
    | ReadOk(space: Byte, address: nat, data: seq<Byte>)
    | ReadCutShort(space: Byte, address: nat)
    | ReadFailed(space: Byte, address: nat, code: nat, message: seq<Byte>)
    | WriteOk(space: Byte, address: nat)
    | WriteFailed(space: Byte, address: nat, code: nat, message: seq<Byte>)
    | Info(present: bool, space: Byte, high: nat, readOnly: bool, low: nat)

  function SpaceCode(space: Byte): nat { if space >= SPACE_CONFIG then space - 0xFC else 0 }

  function Header(command: Byte, space: Byte, address: nat): (r: seq<Byte>)
    requires command < 0xFD
    ensures |r| == if SpaceCode(space) == 0 then 7 else 6
  {
    [0x20, command + SpaceCode(space)] + WordBytes(address) + if SpaceCode(space) == 0 then [space] else []
  }

  predicate RequestOk(r: Request)
  {
    match r
    case ReadRequest(_, address, count) => address < WORD_LIMIT && count <= BLOCK
    case WriteRequest(_, address, data) => address < WORD_LIMIT && 0 < |data| <= BLOCK
    case InfoRequest(_) => true
    case UpdateComplete => true
  }

  function EncodeRequest(r: Request): (e: seq<Byte>)
    requires RequestOk(r)
    ensures 2 <= |e| <= MAX_DATAGRAM
  {
    match r
    case ReadRequest(space, address, count) => Header(0x40, space, address) + [count]
    case WriteRequest(space, address, data) => Header(0x00, space, address) + data
    case InfoRequest(space) => [0x20, 0x84, space]
    case UpdateComplete => [0x20, 0xA8]
  }

  predicate ReplyOk(r: Reply)
  {
    match r
    case ReadOk(_, address, data) => address < WORD_LIMIT && |data| <= BLOCK
    case ReadCutShort(_, _) => false
    case ReadFailed(_, address, code, message) =>
      address < WORD_LIMIT && code < 0x1_0000 && |message| <= LONGEST_MESSAGE
    case WriteOk(_, address) => address < WORD_LIMIT
    case WriteFailed(_, address, code, message) =>
      address < WORD_LIMIT && code < 0x1_0000 && |message| <= LONGEST_MESSAGE
    case Info(_, _, high, _, low) => high < WORD_LIMIT && low < WORD_LIMIT
  }

  function ErrorBytes(code: nat): seq<Byte> { [code / 0x100 % 0x100, code % 0x100] }

  function EncodeReply(r: Reply): (e: seq<Byte>)
    requires ReplyOk(r)
    ensures 2 <= |e| <= MAX_DATAGRAM
  {
    match r
    case ReadOk(space, address, data) => Header(0x50, space, address) + data
    case ReadFailed(space, address, code, message) => Header(0x58, space, address) + ErrorBytes(code) + message
    case WriteOk(space, address) => Header(0x10, space, address)
    case WriteFailed(space, address, code, message) => Header(0x18, space, address) + ErrorBytes(code) + message
    case Info(present, space, high, readOnly, low) =>
      [0x20, if present then 0x87 else 0x86, space] + WordBytes(high)
      + if low == 0 then [Flags(readOnly, false)] else [Flags(readOnly, true)] + WordBytes(low)
  }

  function Flags(readOnly: bool, hasLow: bool): Byte
  {
    (if readOnly then 1 else 0) + (if hasLow then 2 else 0)
  }

  /** A header as it is on the bus: the command says which of the last three spaces is meant, or none of them. */
  predicate HeaderIs(h: seq<Byte>, command: Byte, space: Byte, address: nat)
  {
    && |h| == (if space >= 0xFD then 6 else 7) && h[0] == 0x20
    && h[1] as int == (if space >= 0xFD then command as int + space as int - 0xFC else command)
    && h[2] as int * 0x100_0000 + h[3] as int * 0x1_0000 + h[4] as int * 0x100 + h[5] as int == address
    && (|h| == 7 ==> h[6] == space)
  }

  lemma HeaderBytes(command: Byte, space: Byte, address: nat)
    requires command < 0xFD && address < WORD_LIMIT
    ensures HeaderIs(Header(command, space, address), command, space, address)
  {
    var h := Header(command, space, address);
    assert h[2..6] == WordBytes(address);
    WordRoundTrip(address, h, 2);
  }

  /** Requests as they are on the bus. */
  lemma RequestBytes(r: Request)
    requires RequestOk(r)
    ensures var e := EncodeRequest(r);
            match r
            case ReadRequest(space, address, count) =>
              && e == e[..|e| - 1] + [count] && HeaderIs(e[..|e| - 1], 0x40, space, address)
            case WriteRequest(space, address, data) =>
              var n := if space >= 0xFD then 6 else 7;
              |e| == n + |data| && e[n..] == data && HeaderIs(e[..n], 0x00, space, address)
            case InfoRequest(space) => e == [0x20, 0x84, space]
            case UpdateComplete => e == [0x20, 0xA8]
  {
    match r
    case ReadRequest(space, address, count) =>
      HeaderBytes(0x40, space, address);
      assert EncodeRequest(r)[..|EncodeRequest(r)| - 1] == Header(0x40, space, address);
    case WriteRequest(space, address, data) =>
      HeaderBytes(0x00, space, address);
      assert EncodeRequest(r)[..|Header(0x00, space, address)|] == Header(0x00, space, address);
    case _ =>
  }

  /** And replies. */
  lemma ReplyBytes(r: Reply)
    requires ReplyOk(r)
    ensures var e := EncodeReply(r);
            match r
            case ReadOk(space, address, data) =>
              var n := if space >= 0xFD then 6 else 7;
              |e| == n + |data| && e[n..] == data && HeaderIs(e[..n], 0x50, space, address)
            case ReadCutShort(_, _) => true
            case ReadFailed(space, address, code, message) => RejectionIs(e, 0x58, space, address, code, message)
            case WriteOk(space, address) => HeaderIs(e, 0x10, space, address)
            case WriteFailed(space, address, code, message) => RejectionIs(e, 0x18, space, address, code, message)
            case Info(present, space, high, readOnly, low) =>
              && |e| == (if low == 0 then 8 else 12)
              && e[0] == 0x20 && e[1] == (if present then 0x87 else 0x86) && e[2] == space
              && e[7] == (if readOnly then 1 else 0) + (if low == 0 then 0 else 2)
  {
    hide WordBytes;
    match r
    case ReadOk(space, address, data) =>
      HeaderBytes(0x50, space, address);
      assert EncodeReply(r)[..|Header(0x50, space, address)|] == Header(0x50, space, address);
    case ReadFailed(space, address, code, message) => RejectionBytes(0x58, space, address, code, message);
    case WriteOk(space, address) => HeaderBytes(0x10, space, address);
    case WriteFailed(space, address, code, message) => RejectionBytes(0x18, space, address, code, message);
    case Info(_, _, high, _, low) =>
      assert |WordBytes(high)| == 4 && |WordBytes(low)| == 4 by { WordSize(high); WordSize(low); }
    case _ =>
  }

  lemma WordSize(w: nat)
    ensures |WordBytes(w)| == 4
  {
  }

  predicate RejectionIs(e: seq<Byte>, command: Byte, space: Byte, address: nat, code: nat, message: seq<Byte>)
  {
    var n := if space >= 0xFD then 6 else 7;
    && |e| == n + 2 + |message| && HeaderIs(e[..n], command, space, address)
    && e[n] as int * 0x100 + e[n + 1] as int == code && e[n + 2..] == message
  }

  lemma RejectionBytes(command: Byte, space: Byte, address: nat, code: nat, message: seq<Byte>)
    requires command < 0xFD && address < WORD_LIMIT && code < 0x1_0000
    ensures RejectionIs(Header(command, space, address) + ErrorBytes(code) + message, command, space, address, code,
                        message)
  {
    HeaderBytes(command, space, address);
    var h := Header(command, space, address);
    assert (h + ErrorBytes(code) + message)[..|h|] == h;
    assert (h + ErrorBytes(code) + message)[|h| + 2..] == message;
  }

  // ---------------------------------------------------------------- reading a reply

  predicate Filled(buffer: seq<Byte>, len: nat)
  {
    |buffer| == MAX_DATAGRAM && len <= MAX_DATAGRAM
  }

  /** Where what follows the address and the space starts, and which space it is. */
  function BodyStart(buffer: seq<Byte>): nat
    requires |buffer| == MAX_DATAGRAM
  {
    if buffer[1] % 4 == 0 then 7 else 6
  }

  function SpaceOf(buffer: seq<Byte>): Byte
    requires |buffer| == MAX_DATAGRAM
  {
    if buffer[1] % 4 == 0 then buffer[6] else 0xFC + buffer[1] % 4
  }

  /** A reply in the receive buffer, if that is what it is.  Bytes beyond the length are left over. */
  function DecodeReply(buffer: seq<Byte>, len: nat): Option<Reply>
    requires Filled(buffer, len)
  {
    if len < 2 || buffer[0] != 0x20 then None
    else
      var command := buffer[1] - buffer[1] % 4;
      var space, address, start := SpaceOf(buffer), WordAt(buffer, 2), BodyStart(buffer);
      if command == 0x50 then
        Some(if len < start then ReadCutShort(space, address) else ReadOk(space, address, buffer[start..len]))
      else if command == 0x58 then
        Some(ReadFailed(space, address, CodeOf(buffer, start, len), MessageOf(buffer, start, len)))
      else if command == 0x10 then Some(WriteOk(space, address))
      else if command == 0x18 then
        Some(WriteFailed(space, address, CodeOf(buffer, start, len), MessageOf(buffer, start, len)))
      else if buffer[1] == 0x86 || buffer[1] == 0x87 then
        var low := if buffer[7] / 2 % 2 == 1 && len >= 12 then WordAt(buffer, 8) else 0;
        Some(Info(buffer[1] == 0x87, buffer[2], WordAt(buffer, 3), buffer[7] % 2 == 1, low))
      else None
  }

  function CodeOf(buffer: seq<Byte>, start: nat, len: nat): nat
    requires Filled(buffer, len)
  {
    if len >= start + 2 then Word(buffer[start], buffer[start + 1]) else 0
  }

  function MessageOf(buffer: seq<Byte>, start: nat, len: nat): seq<Byte>
    requires Filled(buffer, len)
  {
    if len > start + 2 then buffer[start + 2..len] else []
  }

  /** Which datagrams are taken for replies, and how: also those that are cut short. */
  lemma RepliesExactly(buffer: seq<Byte>, len: nat)
    requires Filled(buffer, len)
    ensures var r := DecodeReply(buffer, len);
            var c, start := buffer[1], if buffer[1] % 4 == 0 then 7 else 6;
            && (r.Some? <==> len >= 2 && buffer[0] == 0x20
                             && (0x50 <= c <= 0x53 || 0x58 <= c <= 0x5B || 0x10 <= c <= 0x13 || 0x18 <= c <= 0x1B
                                 || c == 0x86 || c == 0x87))
            && (r.Some? ==>
                  && (r.value.ReadOk? <==> 0x50 <= c <= 0x53 && len >= start)
                  && (r.value.ReadCutShort? <==> 0x50 <= c <= 0x53 && len < start)
                  && (r.value.ReadFailed? <==> 0x58 <= c <= 0x5B)
                  && (r.value.WriteOk? <==> 0x10 <= c <= 0x13)
                  && (r.value.WriteFailed? <==> 0x18 <= c <= 0x1B)
                  && (r.value.Info? <==> c >= 0x86)
                  && (r.value.Info? ==> (r.value.present <==> c == 0x87) && r.value.space == buffer[2])
                  && (!r.value.Info? ==> r.value.space == if start == 7 then buffer[6] else 0xFC + c % 4))
  {
    hide WordAt;
    hide CodeOf;
    hide MessageOf;
  }

  /** What a rejection that is cut short says, and when the lowest address of a space is taken to be 0. */
  lemma PartialReplies(buffer: seq<Byte>, len: nat)
    requires Filled(buffer, len) && DecodeReply(buffer, len).Some?
    ensures var r := DecodeReply(buffer, len).value;
            var start := if buffer[1] % 4 == 0 then 7 else 6;
            && (r.ReadFailed? || r.WriteFailed? ==>
                  && r.code == (if len < start + 2 then 0
                                else buffer[start] as int * 0x100 + buffer[start + 1] as int)
                  && |r.message| == if len < start + 2 then 0 else len - start - 2)
            && (r.Info? ==> r.low == if len < 12 || buffer[7] % 4 < 2 then 0 else WordAt(buffer, 8))
  {
    hide WordAt;
  }

  /** Everything that can be seen in a received datagram that starts with a header. */
  lemma HeaderReadBack(command: Byte, space: Byte, address: nat, body: seq<Byte>, buffer: seq<Byte>, len: nat)
    requires command % 4 == 0 && command < 0xFD && address < WORD_LIMIT && Filled(buffer, len)
    requires buffer[..len] == Header(command, space, address) + body
    ensures len >= 6 && buffer[0] == 0x20 && buffer[1] - buffer[1] % 4 == command
    ensures buffer[1] == command + SpaceCode(space)
    ensures SpaceOf(buffer) == space && WordAt(buffer, 2) == address
    ensures len == BodyStart(buffer) + |body|
    ensures buffer[BodyStart(buffer)..len] == body
    ensures forall i :: 0 <= i < |body| ==> buffer[BodyStart(buffer) + i] == body[i]
  {
    var code := SpaceCode(space);
    var whole := Header(command, space, address) + body;
    assert (command + code) % 4 == code;
    assert buffer[1] == buffer[..len][1] == whole[1] == command + code;
    assert buffer[0] == buffer[..len][0];
    assert buffer[2..6] == buffer[..len][2..6] == whole[2..6] == WordBytes(address);
    WordRoundTrip(address, buffer, 2);
    if code == 0 {
      assert buffer[6] == buffer[..len][6] == whole[6] == space;
    }
    var start := BodyStart(buffer);
    assert buffer[start..len] == buffer[..len][start..] == whole[start..] == body;
    forall i | 0 <= i < |body|
      ensures buffer[start + i] == body[i]
    {
      assert buffer[start..len][i] == buffer[start + i];
    }
  }

  /** A client reads back every reply that a node can send, whatever the buffer held before. */
  lemma ReplyReadBack(r: Reply, buffer: seq<Byte>, len: nat)
    requires ReplyOk(r) && Filled(buffer, len) && buffer[..len] == EncodeReply(r)
    ensures DecodeReply(buffer, len) == Some(r)
  {
    match r
    case ReadOk(space, address, data) =>
      HeaderReadBack(0x50, space, address, data, buffer, len);
    case ReadFailed(space, address, code, message) =>
      FailureReadBack(0x58, space, address, code, message, buffer, len);
    case WriteOk(space, address) =>
      assert EncodeReply(r) == EncodeReply(r) + [];
      HeaderReadBack(0x10, space, address, [], buffer, len);
    case WriteFailed(space, address, code, message) =>
      FailureReadBack(0x18, space, address, code, message, buffer, len);
    case Info(present, space, high, readOnly, low) =>
      InfoReadBack(r, buffer, len);
  }

  lemma FailureReadBack(command: Byte, space: Byte, address: nat, code: nat, message: seq<Byte>,
                        buffer: seq<Byte>, len: nat)
    requires command % 4 == 0 && command < 0xFD && address < WORD_LIMIT && code < 0x1_0000 && Filled(buffer, len)
    requires buffer[..len] == Header(command, space, address) + ErrorBytes(code) + message
    ensures len >= 6 && buffer[0] == 0x20 && buffer[1] - buffer[1] % 4 == command
    ensures SpaceOf(buffer) == space && WordAt(buffer, 2) == address
    ensures CodeOf(buffer, BodyStart(buffer), len) == code && MessageOf(buffer, BodyStart(buffer), len) == message
  {
    hide Header;
    hide WordAt;
    hide SpaceOf;
    hide WordBytes;
    hide FromBytes;
    var body := ErrorBytes(code) + message;
    assert Header(command, space, address) + ErrorBytes(code) + message == Header(command, space, address) + body;
    HeaderReadBack(command, space, address, body, buffer, len);
    var start := BodyStart(buffer);
    assert body[0] == code / 0x100 % 0x100 && body[1] == code % 0x100;
    assert buffer[start + 0] == body[0] && buffer[start + 1] == body[1];
    assert buffer[start..len][2..] == buffer[start + 2..len] && body[2..] == message;
  }

  lemma InfoReadBack(r: Reply, buffer: seq<Byte>, len: nat)
    requires r.Info? && ReplyOk(r) && Filled(buffer, len) && buffer[..len] == EncodeReply(r)
    ensures DecodeReply(buffer, len) == Some(r)
  {
    hide EncodeReply;
    hide WordBytes;
    hide WordAt;
    var whole := EncodeReply(r);
    InfoParts(r);
    assert forall i :: 0 <= i < len ==> buffer[i] == buffer[..len][i] == whole[i];
    assert buffer[3..7] == whole[3..7];
    WordRoundTrip(r.high, buffer, 3);
    if r.low != 0 {
      assert buffer[8..12] == whole[8..12];
      WordRoundTrip(r.low, buffer, 8);
    }
  }

  lemma InfoParts(r: Reply)
    requires r.Info? && ReplyOk(r)
    ensures var whole := EncodeReply(r);
            && |whole| == (if r.low == 0 then 8 else 12)
            && whole[0] == 0x20 && whole[1] == (if r.present then 0x87 else 0x86) && whole[2] == r.space
            && whole[3..7] == WordBytes(r.high) && whole[7] == Flags(r.readOnly, r.low != 0)
            && (r.low != 0 ==> whole[8..12] == WordBytes(r.low))
  {
  }

  // ---------------------------------------------------------------- building the datagrams in place

  method PutWord(a: array<Byte>, i: nat, w: nat)
    requires i + 4 <= a.Length
    modifies a
    ensures a[..] == old(a[..i]) + WordBytes(w) + old(a[i + 4..])
  {
    a[i], a[i + 1] := w / 0x100_0000 % 0x100, w / 0x1_0000 % 0x100;
    a[i + 2], a[i + 3] := w / 0x100 % 0x100, w % 0x100;
  }

  /** The command, the address and the space, as every message with an address starts. */
  method PutHeader(a: array<Byte>, command: Byte, space: Byte, address: nat) returns (start: nat)
    requires a.Length >= 7 && command < 0xFD
    modifies a
    ensures start == |Header(command, space, address)|
    ensures a[..] == Header(command, space, address) + old(a[start..])
  {
    a[0] := 0x20;
    start := 6;
    if space == SPACE_CDI {
      a[1] := command + 3;
    } else if space == SPACE_ALL {
      a[1] := command + 2;
    } else if space == SPACE_CONFIG {
      a[1] := command + 1;
    } else {
      a[1] := command;
      a[6] := space;
      start := 7;
    }
    PutWord(a, 2, address);
    assert a[..] == Header(command, space, address) + old(a[..])[start..];
  }

  method ReadRequestData(space: Byte, address: nat, count: nat) returns (data: seq<Byte>)
    requires RequestOk(ReadRequest(space, address, count))
    ensures data == EncodeRequest(ReadRequest(space, address, count))
  {
    var tx := new Byte[8](_ => 0);
    var start := PutHeader(tx, 0x40, space, address);
    assert tx[..start] == Header(0x40, space, address);
    tx[start] := count;
    data := tx[..start + 1];
  }

  method WriteRequestData(space: Byte, address: nat, bytes: seq<Byte>) returns (data: seq<Byte>)
    requires RequestOk(WriteRequest(space, address, bytes))
    ensures data == EncodeRequest(WriteRequest(space, address, bytes))
  {
    hide Header;
    var tx := new Byte[MAX_DATAGRAM](_ => 0);
    var start := PutHeader(tx, 0x00, space, address);
    assert tx[..start] == Header(0x00, space, address);
    forall i | 0 <= i < |bytes| {
      tx[start + i] := bytes[i];
    }
    data := tx[..start + |bytes|];
  }

  method ReadReplyData(space: Byte, address: nat, bytes: seq<Byte>) returns (data: seq<Byte>)
    requires ReplyOk(ReadOk(space, address, bytes))
    ensures data == EncodeReply(ReadOk(space, address, bytes))
  {
    hide Header;
    var response := new Byte[MAX_DATAGRAM](_ => 0);
    var start := PutHeader(response, 0x50, space, address);
    assert response[..start] == Header(0x50, space, address);
    for x := 0 to |bytes|
      invariant response[..start] == Header(0x50, space, address)
      invariant response[start..start + x] == bytes[..x]
    {
      response[start + x] := bytes[x];
      assert response[start..start + x + 1] == response[start..start + x] + [bytes[x]] == bytes[..x + 1];
    }
    assert response[..start + |bytes|] == response[..start] + response[start..start + |bytes|];
    data := response[..start + |bytes|];
  }

  /** A rejection of a read or a write.  A message that is too long is left out. */
  method FailureData(command: Byte, space: Byte, address: nat, code: nat, message: seq<Byte>)
    returns (data: seq<Byte>)
    requires command < 0xFD
    ensures data == Header(command, space, address) + ErrorBytes(code)
                    + if |message| <= 62 then message else []
  {
    hide Header;
    var response := new Byte[MAX_DATAGRAM](_ => 0);
    var start := PutHeader(response, command, space, address);
    assert response[..start] == Header(command, space, address);
    response[start] := code / 0x100 % 0x100;
    response[start + 1] := code % 0x100;
    var total := start + 2;
    ghost var front := Header(command, space, address) + ErrorBytes(code);
    assert response[..total] == front;
    hide ErrorBytes;
    if |message| <= LONGEST_MESSAGE {
      PutMessage(response, total, message);
      total := total + |message|;
    }
    data := response[..total];
    assert front + [] == front;
  }

  /** A message with its final zero. */
  method PutMessage(a: array<Byte>, i: nat, message: seq<Byte>)
    requires i + |message| < a.Length
    modifies a
    ensures a[..i + |message|] == old(a[..i]) + message && a[i + |message|] == 0
  {
    forall k | 0 <= k < |message| {
      a[i + k] := message[k];
    }
    a[i + |message|] := 0;
    assert a[..i] == old(a[..i]) && a[i..i + |message|] == message;
  }

  method WriteReplyData(space: Byte, address: nat) returns (data: seq<Byte>)
    requires ReplyOk(WriteOk(space, address))
    ensures data == EncodeReply(WriteOk(space, address))
  {
    var response := new Byte[12](_ => 0);
    var start := PutHeader(response, 0x10, space, address);
    data := response[..start];
  }

  method InfoReplyData(present: bool, space: Byte, high: nat, readOnly: bool, low: nat) returns (data: seq<Byte>)
    requires ReplyOk(Info(present, space, high, readOnly, low))
    ensures data == EncodeReply(Info(present, space, high, readOnly, low))
  {
    var response := new Byte[12](_ => 0);
    response[0] := 0x20;
    response[1] := if present then 0x87 else 0x86;
    response[2] := space;
    PutWord(response, 3, high);
    response[7] := if readOnly then 1 else 0;
    var len := 8;
    assert response[..7] == [0x20, if present then 0x87 else 0x86, space] + WordBytes(high);
    if low != 0 {
      response[7] := response[7] + 2;
      PutWord(response, 8, low);
      len := 12;
    }
    data := response[..len];
  }
}
