/**
 CAN frames as text (LCC/lcc-gridconnect.c): ':', 'X', the identifier and the data in hexadecimal digits with an
 'N' in between, and ';'.  Text arrives in pieces of any size, with anything at all between the lines.
 */
module GridConnect {
  import opened Basics
  import opened CanId

  const BUFFER := 128
  const NUL := '\0'

  // ---------------------------------------------------------------- numbers

  function HexDigit(d: nat): (c: char)
    requires d < 16
    ensures HexValue(c) == Some(d) && c != 'N' && c != ';' && c != ':' && c != NUL && c != 'x' && c != 'X'
  {
    "0123456789ABCDEF"[d]
  }

  function HexValue(c: char): (v: Option<nat>)
    ensures v.Some? ==> v.value < 16
  {
    if '0' <= c <= '9' then Some(c as nat - '0' as nat)
    else if 'A' <= c <= 'F' then Some(c as nat - 'A' as nat + 10)
    else if 'a' <= c <= 'f' then Some(c as nat - 'a' as nat + 10)
    else None
  }

  /** %X */
  function Hex(n: nat): (s: string)
    ensures s != []
  {
    if n < 16 then [HexDigit(n)] else Hex(n / 16) + [HexDigit(n % 16)]
  }

  /** The number that the hexadecimal digits at the front of a string continue. */
  function Digits(s: string, value: nat): nat
  {
    if s == [] || HexValue(s[0]).None? then value else Digits(s[1..], 16 * value + HexValue(s[0]).value)
  }

  predicate IsSpace(c: char) { c == ' ' || '\t' <= c <= '\r' }

  function SkipSpace(s: string): string
  {
    if s != [] && IsSpace(s[0]) then SkipSpace(s[1..]) else s
  }

  function SkipPrefix(s: string): string
  {
    if |s| >= 3 && s[0] == '0' && (s[1] == 'x' || s[1] == 'X') && HexValue(s[2]).Some? then s[2..] else s
  }

  /** strtol to the base of 16: spaces, a sign and 0x are allowed in front. */
  function Strtol(text: string): int
  {
    var s := SkipSpace(text);
    if s != [] && s[0] == '-' then -(Digits(SkipPrefix(s[1..]), 0) as int)
    else if s != [] && s[0] == '+' then Digits(SkipPrefix(s[1..]), 0)
    else Digits(SkipPrefix(s), 0)
  }

  predicate AllHex(s: string)
  {
    forall i :: 0 <= i < |s| ==> HexValue(s[i]).Some? && s[i] != 'N' && s[i] != ';' && s[i] != ':' && s[i] != NUL
                                 && s[i] != 'x' && s[i] != 'X'
  }

  lemma {:induction false} DigitsAppend(a: string, b: string, value: nat)
    requires AllHex(a)
    ensures Digits(a + b, value) == Digits(b, Digits(a, value))
    decreases |a|
  {
    if a == [] {
      assert a + b == b;
    } else {
      assert (a + b)[1..] == a[1..] + b;
      DigitsAppend(a[1..], b, 16 * value + HexValue(a[0]).value);
    }
  }

  lemma {:induction false} HexReadBack(n: nat)
    ensures AllHex(Hex(n)) && Digits(Hex(n), 0) == n
  {
    if n < 16 {
      assert Digits([HexDigit(n)], 0) == Digits([], n);
    } else {
      HexReadBack(n / 16);
      DigitsAppend(Hex(n / 16), [HexDigit(n % 16)], 0);
      assert [HexDigit(n % 16)][1..] == [];
      assert Digits([HexDigit(n % 16)], n / 16) == Digits([], 16 * (n / 16) + n % 16);
    }
  }

  /** Spaces in front do not matter, a sign does, and 0x and the case of the letters do not. */
  lemma StrtolForms(s: string, space: char)
    ensures space in " \t\n\r" ==> Strtol([space] + s) == Strtol(s)
    ensures AllHex(s) && s != [] ==>
              && Strtol("-" + s) == -Strtol(s) && Strtol("+" + s) == Strtol(s)
              && Strtol("0x" + s) == Strtol("0X" + s) == Strtol(s)
    ensures forall k :: 0 <= k < 6 ==> HexValue("abcdef"[k]) == HexValue("ABCDEF"[k]) == Some(10 + k)
  {
    if space in " \t\n\r" {
      StrtolAfterSpace(s, space);
    }
    LettersOfEitherCase();
    hide *;
    if AllHex(s) && s != [] {
      StrtolOfHex(s);
      StrtolOfSigned("-", s);
      StrtolOfSigned("+", s);
      StrtolOfPrefixed("0x", s);
      StrtolOfPrefixed("0X", s);
    }
  }

  lemma StrtolAfterSpace(s: string, space: char)
    requires space in " \t\n\r"
    ensures Strtol([space] + s) == Strtol(s)
  {
    assert ([space] + s)[1..] == s;
    assert SkipSpace([space] + s) == SkipSpace(s);
    hide SkipSpace;
  }

  lemma LettersOfEitherCase()
    ensures forall k :: 0 <= k < 6 ==> HexValue("abcdef"[k]) == HexValue("ABCDEF"[k]) == Some(10 + k)
  {
  }

  lemma StrtolOfSigned(sign: string, s: string)
    requires AllHex(s) && s != [] && (sign == "-" || sign == "+")
    ensures Strtol(sign + s) == if sign == "-" then -(Digits(s, 0) as int) else Digits(s, 0)
  {
    hide Digits;
    assert (sign + s)[0] == sign[0] && (sign + s)[1..] == s;
    assert HexValue(s[0]).Some?;
    NoPrefix(s);
  }

  lemma StrtolOfPrefixed(prefix: string, s: string)
    requires AllHex(s) && s != [] && (prefix == "0x" || prefix == "0X")
    ensures Strtol(prefix + s) == Digits(s, 0)
  {
    hide Digits;
    var text := prefix + s;
    assert text[0] == prefix[0] && text[1] == prefix[1] && text[2] == s[0] && text[2..] == s;
    assert HexValue(s[0]).Some?;
    assert SkipSpace(text) == text;
  }

  lemma NoPrefix(s: string)
    requires AllHex(s)
    ensures SkipPrefix(s) == s
  {
    if |s| >= 2 {
      assert HexValue(s[1]).Some?;
    }
  }

  lemma StrtolOfHex(s: string)
    requires AllHex(s) && s != []
    ensures Strtol(s) == Digits(s, 0)
  {
    assert HexValue(s[0]).Some?;
  }

  lemma {:induction false} HexLength(n: nat, digits: nat, limit: nat)
    requires digits > 0 && limit == Power16(digits) && n < limit
    ensures |Hex(n)| <= digits
    decreases digits
  {
    if n >= 16 {
      assert digits > 1;
      HexLength(n / 16, digits - 1, Power16(digits - 1));
    }
  }

  function Power16(digits: nat): nat { if digits == 0 then 1 else 16 * Power16(digits - 1) }

  // ---------------------------------------------------------------- printing

  function HexBytes(data: seq<Byte>): string
  {
    if data == [] then [] else [HexDigit(data[0] / 16), HexDigit(data[0] % 16)] + HexBytes(data[1..])
  }

  function Line(f: Frame): string { ":X" + Hex(f.id) + "N" + HexBytes(f.data) + ";" }

  predicate FrameOk(f: Frame) { f.id < WORD_LIMIT && |f.data| <= 8 }

  /** All eight bytes are printed, and cut off where the data ends. */
  method CanFrameToGridConnect(f: Frame) returns (line: string)
    requires FrameOk(f)
    ensures line == Line(f)
  {
    hide Hex;
    hide HexDigit;
    var bytes := f.data + seq(8 - |f.data|, _ => 0);
    var digits := "";
    for i := 0 to 8
      invariant digits == HexBytes(bytes[..i]) && |digits| == 2 * i
    {
      HexBytesAppend(bytes[..i], [bytes[i]]);
      assert bytes[..i] + [bytes[i]] == bytes[..i + 1];
      assert HexBytes([bytes[i]]) == [HexDigit(bytes[i] / 16), HexDigit(bytes[i] % 16)] + HexBytes([]);
      digits := digits + [HexDigit(bytes[i] / 16), HexDigit(bytes[i] % 16)];
    }
    assert bytes[..8] == bytes;
    HexBytesAppend(f.data, bytes[|f.data|..]);
    assert f.data + bytes[|f.data|..] == bytes;
    HexBytesLength(f.data);
    var end := 16;
    if |f.data| < 8 {
      end := 2 * |f.data|;
    }
    line := ":X" + Hex(f.id) + "N" + digits[..end] + ";";
  }

  lemma {:induction false} HexBytesAppend(a: seq<Byte>, b: seq<Byte>)
    ensures HexBytes(a + b) == HexBytes(a) + HexBytes(b)
    decreases |a|
  {
    if a == [] {
      assert a + b == b;
    } else {
      assert (a + b)[1..] == a[1..] + b;
      HexBytesAppend(a[1..], b);
    }
  }

  lemma {:induction false} HexBytesLength(data: seq<Byte>)
    ensures |HexBytes(data)| == 2 * |data|
    decreases |data|
  {
    if data != [] {
      HexBytesLength(data[1..]);
    }
  }

  // ---------------------------------------------------------------- reading one line

  function Strlen(a: string): (n: nat)
    requires NUL in a
    ensures n < |a| && a[n] == NUL && forall i :: 0 <= i < n ==> a[i] != NUL
    decreases |a|
  {
    if a[0] == NUL then 0 else 1 + Strlen(a[1..])
  }

  /** Where the identifier ends: at an 'N', or after eleven characters whatever they are. */
  function IdEnd(a: string, x: nat): (end: nat)
    requires 2 <= x <= 13 < |a|
    ensures x <= end <= 13
    decreases 13 - x
  {
    if x == 13 || a[x] == 'N' then x else IdEnd(a, x + 1)
  }

  function ByteAt(a: string, x: nat): Byte
    requires x + 2 <= |a|
  {
    Strtol(a[x..x + 2]) % 0x100
  }

  /** Two characters to a byte, up to a ';' or eight bytes. */
  function DataAt(a: string, x: nat, n: nat): (data: seq<Byte>)
    requires n <= 8 && x + 2 * (8 - n) < |a|
    ensures |data| <= 8 - n
    decreases 8 - n
  {
    if n == 8 || a[x] == ';' then []
    else [ByteAt(a, x)] + DataAt(a, x + 2, n + 1)
  }

  /**
   Reads a line from the front of the buffer.  Only its first and last characters are checked; what the rest of a
   line with errors gives may depend on older lines that are still in the buffer.
   */
  function ToCanFrame(a: string): (f: Option<Frame>)
    requires |a| == BUFFER && NUL in a
    ensures f.Some? ==> FrameOk(f.value)
  {
    if a[0] != ':' || a[Strlen(a) - 1] != ';' then None
    else
      var end := IdEnd(a, 2);
      Some(Frame(Strtol(a[2..end]) % WORD_LIMIT, DataAt(a, end + 1, 0)))
  }

  method FindIdEnd(a: string) returns (x: nat)
    requires |a| == BUFFER
    ensures x == IdEnd(a, 2)
  {
    x := 2;
    while a[x] != 'N' && x - 2 < 11
      invariant 2 <= x <= 13 && IdEnd(a, x) == IdEnd(a, 2)
      decreases 13 - x
    {
      x := x + 1;
    }
  }

  lemma DataStep(a: string, x: nat, n: nat)
    requires n <= 8 && x + 2 * (8 - n) < |a|
    ensures DataAt(a, x, n) == if n == 8 || a[x] == ';' then [] else [ByteAt(a, x)] + DataAt(a, x + 2, n + 1)
  {
  }

  method ReadData(a: string, start: nat) returns (data: seq<Byte>)
    requires |a| == BUFFER && start <= 14
    ensures data == DataAt(a, start, 0)
  {
    hide ByteAt;
    hide DataAt;
    var x := start;
    data := [];
    while a[x] != ';' && |data| < 8
      invariant |data| <= 8 && x == start + 2 * |data|
      invariant data + DataAt(a, x, |data|) == DataAt(a, start, 0)
      decreases 8 - |data|
    {
      var b := ByteAt(a, x);
      DataStep(a, x, |data|);
      ghost var rest := DataAt(a, x + 2, |data| + 1);
      assert data + [b] + rest == data + ([b] + rest);
      data := data + [b];
      x := x + 2;
    }
    DataStep(a, x, |data|);
  }

  /** The walk over the string. */
  method GridConnectToCanFrame(a: string) returns (f: Option<Frame>)
    requires |a| == BUFFER && NUL in a
    ensures f == ToCanFrame(a)
  {
    hide Strtol;
    hide DataAt;
    hide IdEnd;
    var len := Strlen(a);
    if a[0] != ':' || a[len - 1] != ';' {
      return None;
    }
    var x := FindIdEnd(a);
    var id := Strtol(a[2..x]) % WORD_LIMIT;
    var data := ReadData(a, x + 1);
    f := Some(Frame(id, data));
  }

  lemma {:induction false} IdEndsAtN(a: string, x: nat, end: nat)
    requires 2 <= x <= end <= 13 < |a| && (forall i :: x <= i < end ==> a[i] != 'N')
    requires end < 13 ==> a[end] == 'N'
    ensures IdEnd(a, x) == end
    decreases end - x
  {
    if x < end {
      IdEndsAtN(a, x + 1, end);
    }
  }

  lemma TwoDigits(b: Byte)
    ensures AllHex([HexDigit(b / 16), HexDigit(b % 16)]) && Strtol([HexDigit(b / 16), HexDigit(b % 16)]) == b
  {
    var s := [HexDigit(b / 16), HexDigit(b % 16)];
    StrtolOfHex(s);
    var t := s[1..];
    assert t == [HexDigit(b % 16)] && t[1..] == [];
    assert Digits(t[1..], 16 * (b / 16) + b % 16) == b;
    assert Digits(t, b / 16) == Digits(t[1..], 16 * (b / 16) + b % 16);
    assert Digits(s, 0) == Digits(t, b / 16);
  }

  /** The digits of the first byte, and those of the others. */
  lemma FirstDigits(a: string, x: nat, data: seq<Byte>)
    requires data != [] && x + 2 * |data| < |a|
    requires |HexBytes(data)| == 2 * |data| && a[x..x + 2 * |data|] == HexBytes(data)
    ensures a[x..x + 2] == [HexDigit(data[0] / 16), HexDigit(data[0] % 16)] && a[x] == HexDigit(data[0] / 16)
    ensures a[x + 2..x + 2 + 2 * |data[1..]|] == HexBytes(data[1..])
  {
    hide HexDigit;
    var digits := HexBytes(data);
    assert a[x..x + 2] == a[x..x + 2 * |data|][..2] == digits[..2];
    assert a[x] == a[x..x + 2][0];
    assert a[x + 2..x + 2 * |data|] == a[x..x + 2 * |data|][2..] == digits[2..];
  }

  lemma {:induction false} DataReadBack(a: string, x: nat, n: nat, data: seq<Byte>)
    requires n + |data| <= 8 && x + 2 * (8 - n) < |a| && x + 2 * |data| < |a|
    requires |HexBytes(data)| == 2 * |data| && a[x..x + 2 * |data|] == HexBytes(data) && a[x + 2 * |data|] == ';'
    ensures DataAt(a, x, n) == data
    decreases |data|
  {
    hide Strtol;
    hide HexDigit;
    hide HexBytes;
    if data != [] {
      TwoDigits(data[0]);
      FirstDigits(a, x, data);
      HexBytesLength(data[1..]);
      DataReadBack(a, x + 2, n + 1, data[1..]);
    }
  }

  lemma {:induction false} HexBytesAreHex(data: seq<Byte>)
    ensures AllHex(HexBytes(data))
    decreases |data|
  {
    if data != [] {
      HexBytesAreHex(data[1..]);
      TwoDigits(data[0]);
    }
  }

  /** A line is short, starts with ':' and has its only ';' at the end. */
  lemma LineShape(f: Frame)
    requires FrameOk(f)
    ensures var line := Line(f);
            && 4 <= |line| < BUFFER - 1 && |Hex(f.id)| <= 8 && |HexBytes(f.data)| == 2 * |f.data|
            && |line| == |Hex(f.id)| + 2 * |f.data| + 4
            && line[0] == ':' && line[1] == 'X' && line[|line| - 1] == ';'
            && (forall i :: 0 <= i < |line| - 1 ==> line[i] != ';')
            && (forall i :: 0 <= i < |line| ==> line[i] != NUL)
  {
    HexReadBack(f.id);
    HexBytesLength(f.data);
    HexBytesAreHex(f.data);
    assert Power16(8) == WORD_LIMIT by { Power16Of8(); }
    HexLength(f.id, 8, WORD_LIMIT);
  }

  lemma Power16Of8()
    ensures Power16(8) == WORD_LIMIT
  {
    assert Power16(4) == 0x1_0000;
    assert Power16(8) == 16 * (16 * (16 * (16 * Power16(4))));
  }

  /** Every frame comes back from its line, whatever comes after the line in the buffer. */
  lemma LineReadBack(f: Frame, a: string)
    requires FrameOk(f) && |a| == BUFFER && |Line(f)| < BUFFER && a[..|Line(f)|] == Line(f) && a[|Line(f)|] == NUL
    ensures ToCanFrame(a) == Some(f)
  {
    hide Strtol;
    hide DataAt;
    hide IdEnd;
    hide Hex;
    hide HexBytes;
    hide Digits;
    hide HexValue;
    hide Line;
    var line, id, data := Line(f), Hex(f.id), HexBytes(f.data);
    LineShape(f);
    assert forall i :: 0 <= i < |line| ==> a[i] == a[..|line|][i] == line[i];
    assert Strlen(a) == |line|;
    HexReadBack(f.id);
    StrtolOfHex(id);
    var end := 2 + |id|;
    LineParts(f);
    assert a[2..end] == line[2..end];
    assert forall i :: 2 <= i < end ==> a[i] == line[2..end][i - 2];
    IdEndsAtN(a, 2, end);
    assert a[end + 1..end + 1 + 2 * |f.data|] == line[end + 1..end + 1 + 2 * |f.data|];
    DataReadBack(a, end + 1, 0, f.data);
  }

  lemma LineParts(f: Frame)
    requires |HexBytes(f.data)| == 2 * |f.data|
    ensures var line, end := Line(f), 2 + |Hex(f.id)|;
            && |line| == end + 2 * |f.data| + 2
            && line[2..end] == Hex(f.id) && line[end] == 'N' && line[|line| - 1] == ';'
            && line[end + 1..end + 1 + 2 * |f.data|] == HexBytes(f.data)
  {
  }

  // ---------------------------------------------------------------- the stream

  /** The line that is being collected, if any, at the front of the buffer. */
  datatype Stream = Stream(buffer: string, pos: nat)

  ghost predicate StreamOk(s: Stream) { |s.buffer| == BUFFER && s.pos < BUFFER }

  /** Overrun stands for a line that leaves no room for the zero at its end. */
  datatype Out = Parsed(frame: Frame) | Overrun

  datatype Fed = Fed(stream: Stream, out: seq<Out>)

  function FeedChar(s: Stream, c: char): (r: Fed)
    requires StreamOk(s)
    ensures StreamOk(r.stream)
  {
    if s.pos == 0 && c != ':' then Fed(s, [])
    else
      var buffer := s.buffer[s.pos := c];
      if c != ';' then Fed(Stream(buffer, if s.pos + 1 == BUFFER then 0 else s.pos + 1), [])
      else if s.pos + 1 == BUFFER then Fed(Stream(buffer, 0), [Overrun])
      else
        var ended := buffer[s.pos + 1 := NUL];
        assert ended[s.pos + 1] == NUL;
        var f := ToCanFrame(ended);
        Fed(Stream(ended, 0), if f.Some? then [Parsed(f.value)] else [])
  }

  function Feed(s: Stream, text: string): (r: Fed)
    requires StreamOk(s)
    ensures StreamOk(r.stream)
    decreases |text|
  {
    if text == [] then Fed(s, [])
    else
      var first := FeedChar(s, text[0]);
      var rest := Feed(first.stream, text[1..]);
      Fed(rest.stream, first.out + rest.out)
  }

  /** A line without an end: it is dropped when it fills the buffer, and then a new one is waited for. */
  lemma {:induction false} LongLineIsDropped(s: Stream, text: string)
    requires StreamOk(s) && ';' !in text && text != [] && s.pos + |text| <= 128 && (s.pos == 0 ==> text[0] == ':')
    ensures Feed(s, text).out == []
    ensures Feed(s, text).stream.pos == if s.pos + |text| == 128 then 0 else s.pos + |text|
    decreases |text|
  {
    assert text[0] in text;
    var next := FeedChar(s, text[0]).stream;
    if |text| == 1 {
      assert text[1..] == [];
    } else {
      assert next.pos == s.pos + 1;
      LongLineIsDropped(next, text[1..]);
    }
  }

  /** Pieces of any size are as good as the whole. */
  lemma {:induction false} FeedAppend(s: Stream, a: string, b: string)
    requires StreamOk(s)
    ensures var first := Feed(s, a);
            var rest := Feed(first.stream, b);
            Feed(s, a + b) == Fed(rest.stream, first.out + rest.out)
    decreases |a|
  {
    hide FeedChar;
    if a == [] {
      assert a + b == b;
    } else {
      assert (a + b)[1..] == a[1..] + b;
      var next := FeedChar(s, a[0]);
      FeedAppend(next.stream, a[1..], b);
      var middle := Feed(next.stream, a[1..]);
      var rest := Feed(middle.stream, b);
      assert next.out + middle.out + rest.out == next.out + (middle.out + rest.out);
    }
  }

  function FeedChunks(s: Stream, chunks: seq<string>): (r: Fed)
    requires StreamOk(s)
    ensures StreamOk(r.stream)
    decreases |chunks|
  {
    if chunks == [] then Fed(s, [])
    else
      var first := Feed(s, chunks[0]);
      var rest := FeedChunks(first.stream, chunks[1..]);
      Fed(rest.stream, first.out + rest.out)
  }

  function Joined(chunks: seq<string>): string
  {
    if chunks == [] then [] else chunks[0] + Joined(chunks[1..])
  }

  lemma {:induction false} ChunksDoNotMatter(s: Stream, chunks: seq<string>)
    requires StreamOk(s)
    ensures FeedChunks(s, chunks) == Feed(s, Joined(chunks))
    decreases |chunks|
  {
    if chunks != [] {
      FeedAppend(s, chunks[0], Joined(chunks[1..]));
      ChunksDoNotMatter(Feed(s, chunks[0]).stream, chunks[1..]);
    }
  }

  /** Between lines nothing matters but a ':'. */
  lemma {:induction false} JunkIsSkipped(s: Stream, junk: string)
    requires StreamOk(s) && s.pos == 0 && ':' !in junk
    ensures Feed(s, junk) == Fed(s, [])
    decreases |junk|
  {
    if junk != [] {
      assert junk[0] in junk;
      JunkIsSkipped(s, junk[1..]);
    }
  }

  /** A line is collected character by character. */
  lemma {:induction false} LineIsCollected(s: Stream, line: string, n: nat)
    requires StreamOk(s) && s.pos == 0 && 0 < n <= |line| < BUFFER && line[0] == ':'
    requires forall i :: 0 <= i < n ==> line[i] != ';'
    ensures var r := Feed(s, line[..n]);
            r.out == [] && r.stream.pos == n && r.stream.buffer[..n] == line[..n]
    decreases n
  {
    hide ToCanFrame;
    if n == 1 {
      assert line[..1] == [line[0]] && line[..1][1..] == [];
    } else {
      LineIsCollected(s, line, n - 1);
      FeedAppend(s, line[..n - 1], [line[n - 1]]);
      assert line[..n - 1] + [line[n - 1]] == line[..n];
      assert [line[n - 1]][1..] == [];
    }
  }

  lemma LineIsParsed(s: Stream, f: Frame)
    requires StreamOk(s) && s.pos == 0 && FrameOk(f)
    ensures var r := Feed(s, Line(f)); r.out == [Parsed(f)] && r.stream.pos == 0
  {
    hide ToCanFrame;
    hide Line;
    LineShape(f);
    var line := Line(f);
    var n := |line| - 1;
    LineIsCollected(s, line, n);
    FeedAppend(s, line[..n], [';']);
    assert line[..n] + [';'] == line;
    assert [';'][1..] == [];
    var collected := Feed(s, line[..n]).stream;
    var ended := collected.buffer[n := ';'][n + 1 := NUL];
    assert ended[..|line|] == line[..n] + [';'];
    LineReadBack(f, ended);
  }

  /** Lines with other text before each. */
  function Text(frames: seq<Frame>, junk: seq<string>): string
    requires |junk| == |frames|
  {
    if frames == [] then [] else junk[0] + Line(frames[0]) + Text(frames[1..], junk[1..])
  }

  function AllParsed(frames: seq<Frame>): seq<Out>
  {
    if frames == [] then [] else [Parsed(frames[0])] + AllParsed(frames[1..])
  }

  lemma LineAfterJunk(s: Stream, junk: string, f: Frame)
    requires StreamOk(s) && s.pos == 0 && FrameOk(f) && ':' !in junk
    ensures var r := Feed(s, junk + Line(f)); r.out == [Parsed(f)] && r.stream.pos == 0
  {
    hide Line;
    JunkIsSkipped(s, junk);
    LineIsParsed(s, f);
    hide Feed;
    FeedAppend(s, junk, Line(f));
  }

  lemma {:induction false} TextIsParsed(s: Stream, frames: seq<Frame>, junk: seq<string>)
    requires StreamOk(s) && s.pos == 0 && |junk| == |frames|
    requires (forall i :: 0 <= i < |frames| ==> FrameOk(frames[i])) && forall i :: 0 <= i < |junk| ==> ':' !in junk[i]
    ensures var r := Feed(s, Text(frames, junk)); r.out == AllParsed(frames) && r.stream.pos == 0
    decreases |frames|
  {
    hide Line;
    hide FrameOk;
    if frames != [] {
      var first, rest := junk[0] + Line(frames[0]), Text(frames[1..], junk[1..]);
      LineAfterJunk(s, junk[0], frames[0]);
      hide Feed;
      FeedAppend(s, first, rest);
      TextIsParsed(Feed(s, first).stream, frames[1..], junk[1..]);
    }
  }

  /**
   Any frames, printed with any other text in between that has no ':' in it, and cut into any pieces, come out
   again, all of them, in order, and nothing else.
   */
  lemma EveryFrameGetsThrough(s: Stream, frames: seq<Frame>, junk: seq<string>, chunks: seq<string>)
    requires StreamOk(s) && s.pos == 0 && |junk| == |frames|
    requires (forall i :: 0 <= i < |frames| ==> FrameOk(frames[i])) && forall i :: 0 <= i < |junk| ==> ':' !in junk[i]
    requires Joined(chunks) == Text(frames, junk)
    ensures var r := FeedChunks(s, chunks); r.out == AllParsed(frames) && r.stream.pos == 0
  {
    ChunksDoNotMatter(s, chunks);
    TextIsParsed(s, frames, junk);
  }

  /** struct lcc_gridconnect */
  class Receiver {
    var buffer: array<char>
    var pos: nat

    ghost predicate Valid()
      reads this
    {
      buffer.Length == BUFFER && pos < BUFFER
    }

    ghost function State(): (s: Stream)
      requires Valid()
      reads this, buffer
      ensures StreamOk(s)
    {
      Stream(buffer[..], pos)
    }

    constructor ()
      ensures Valid() && fresh(buffer) && State().pos == 0
    {
      buffer := new char[BUFFER](_ => NUL);
      pos := 0;
    }

    /** Whether it skips is decided anew for every piece, and comes to the same as going on from the last one. */
    method IncomingData(data: string) returns (out: seq<Out>)
      requires Valid()
      modifies this`pos, buffer
      ensures Valid() && Fed(State(), out) == Feed(old(State()), data)
    {
      out := [];
      var discardUntilColon := pos == 0;
      for x := 0 to |data|
        invariant Valid() && discardUntilColon == (pos == 0)
        invariant Fed(State(), out) == Feed(old(State()), data[..x])
      {
        ghost var before := State();
        FeedAppend(old(State()), data[..x], [data[x]]);
        assert data[..x] + [data[x]] == data[..x + 1];
        FeedOne(before, data[x]);
        if !discardUntilColon || data[x] == ':' {
          discardUntilColon := false;
          var ended := data[x] == ';';
          var more := Store(data[x]);
          out := out + more;
          if ended || pos == 0 {
            discardUntilColon := true;
          }
        }
      }
      assert data[..|data|] == data;
    }

    /** One character that belongs to a line. */
    method Store(c: char) returns (out: seq<Out>)
      requires Valid() && (pos == 0 ==> c == ':')
      modifies this`pos, buffer
      ensures Valid() && Fed(State(), out) == FeedChar(old(State()), c)
    {
      hide ToCanFrame;
      out := [];
      buffer[pos] := c;
      if c == ';' {
        if pos + 1 < BUFFER {
          buffer[pos + 1] := NUL;
          assert buffer[..][pos + 1] == NUL;
          var f := GridConnectToCanFrame(buffer[..]);
          if f.Some? {
            out := [Parsed(f.value)];
          }
        } else {
          out := [Overrun];
        }
        pos := 0;
      } else {
        pos := pos + 1;
        if pos >= BUFFER {
          pos := 0;
        }
      }
    }
  }

  lemma FeedOne(s: Stream, c: char)
    requires StreamOk(s)
    ensures Feed(s, [c]) == FeedChar(s, c)
  {
    hide FeedChar;
    assert [c][1..] == [];
  }
}
