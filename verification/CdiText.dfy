/**
 The CDI of a node, generated as text (LCC/lcc-cdi-control.c).  The text comes out of the generator in pieces of
 64 bytes, which are only counted when the length is wanted, and all but one thrown away when part of the text
 is wanted.
 */
module CdiText {
  import opened Basics
  import opened CanId

  const PIECE := 64

  // ---------------------------------------------------------------- the pieces and those who take them

  /** A text cut into pieces of 64 bytes; the last one may be shorter. */
  function Pieces(text: seq<Byte>): seq<seq<Byte>>
    decreases |text|
  {
    if text == [] then []
    else if |text| <= PIECE then [text]
    else [text[..PIECE]] + Pieces(text[PIECE..])
  }

  /** What a callback does with the pieces: add up their lengths, or keep the one that starts at an offset. */
  datatype Sink =
    | Count(total: nat)
    | AtOffset(current: nat, desired: int, found: bool, output: seq<Byte>)

  ghost predicate SinkOk(s: Sink)
  {
    s.AtOffset? ==> |s.output| == PIECE
  }

  function Take(s: Sink, piece: seq<Byte>): (t: Sink)
    requires SinkOk(s) && |piece| <= PIECE
    ensures SinkOk(t)
  {
    match s
    case Count(total) => Count(total + |piece|)
    case AtOffset(current, desired, found, output) =>
      if current == desired then AtOffset(current + |piece|, desired, true, piece + output[|piece|..])
      else s.(current := current + |piece|)
  }

  function TakeAll(s: Sink, pieces: seq<seq<Byte>>): (t: Sink)
    requires SinkOk(s) && forall i :: 0 <= i < |pieces| ==> |pieces[i]| <= PIECE
    ensures SinkOk(t)
    decreases |pieces|
  {
    if pieces == [] then s else TakeAll(Take(s, pieces[0]), pieces[1..])
  }

  lemma {:induction false} PiecesFit(text: seq<Byte>)
    ensures forall i :: 0 <= i < |Pieces(text)| ==> 0 < |Pieces(text)[i]| <= PIECE
    decreases |text|
  {
    if |text| > PIECE {
      PiecesFit(text[PIECE..]);
    }
  }

  function TakeText(s: Sink, text: seq<Byte>): (t: Sink)
    requires SinkOk(s)
    ensures SinkOk(t)
  {
    PiecesFit(text);
    TakeAll(s, Pieces(text))
  }

  lemma {:induction false} TakeAppend(s: Sink, a: seq<seq<Byte>>, b: seq<seq<Byte>>)
    requires SinkOk(s) && forall i :: 0 <= i < |a| ==> |a[i]| <= PIECE
    requires forall i :: 0 <= i < |b| ==> |b[i]| <= PIECE
    ensures forall i :: 0 <= i < |a + b| ==> |(a + b)[i]| <= PIECE
    ensures TakeAll(s, a + b) == TakeAll(TakeAll(s, a), b)
    decreases |a|
  {
    if a == [] {
      assert a + b == b;
    } else {
      assert (a + b)[1..] == a[1..] + b && (a + b)[0] == a[0];
      TakeAppend(Take(s, a[0]), a[1..], b);
    }
  }

  /** The full pieces at the front of a text do not depend on what follows them. */
  lemma {:induction false} PiecesAppend(a: seq<Byte>, b: seq<Byte>)
    requires |a| % PIECE == 0
    ensures Pieces(a + b) == Pieces(a) + Pieces(b)
    decreases |a|
  {
    if a == [] {
      assert a + b == b;
    } else if |a| == PIECE {
      if b == [] {
        assert a + b == a;
      } else {
        assert (a + b)[..PIECE] == a && (a + b)[PIECE..] == b;
      }
    } else {
      assert (a + b)[..PIECE] == a[..PIECE] && (a + b)[PIECE..] == a[PIECE..] + b;
      PiecesAppend(a[PIECE..], b);
      assert [a[..PIECE]] + Pieces(a[PIECE..]) + Pieces(b) == [a[..PIECE]] + (Pieces(a[PIECE..]) + Pieces(b));
    }
  }

  /** One more piece after any number of full ones. */
  lemma TakeTextPiece(s: Sink, done: seq<Byte>, piece: seq<Byte>)
    requires SinkOk(s) && |done| % PIECE == 0 && 0 < |piece| <= PIECE
    ensures TakeText(s, done + piece) == Take(TakeText(s, done), piece)
  {
    PiecesAppend(done, piece);
    PiecesFit(done);
    PiecesFit(done + piece);
    TakeAppend(s, Pieces(done), [piece]);
    TakeOne(TakeText(s, done), piece);
  }

  lemma TakeOne(s: Sink, piece: seq<Byte>)
    requires SinkOk(s) && |piece| <= PIECE
    ensures TakeAll(s, [piece]) == Take(s, piece)
  {
    assert [piece][1..] == [];
  }

  /** The pieces, put together, are the text. */
  lemma {:induction false} PiecesAreTheText(text: seq<Byte>)
    ensures Joined(Pieces(text)) == text
    decreases |text|
  {
    if 0 < |text| <= PIECE {
      assert Joined([text]) == text + Joined([]);
    } else if |text| > PIECE {
      PiecesAreTheText(text[PIECE..]);
      assert ([text[..PIECE]] + Pieces(text[PIECE..]))[1..] == Pieces(text[PIECE..]);
    }
  }

  function Joined(pieces: seq<seq<Byte>>): seq<Byte>
  {
    if pieces == [] then [] else pieces[0] + Joined(pieces[1..])
  }

  // ---------------------------------------------------------------- the generator

  lemma OneMoreCharacter(n: nat, loc: nat)
    requires n % PIECE == loc
    ensures (n - loc) % PIECE == 0
    ensures (n + 1) % PIECE == if loc + 1 == PIECE then 0 else loc + 1
  {
    var whole := n / PIECE;
    assert n == PIECE * whole + loc;
    if loc + 1 == PIECE {
      assert n + 1 == PIECE * (whole + 1);
    } else {
      assert n + 1 == PIECE * whole + (loc + 1);
    }
  }

  /** The output buffer of the generator, and the callback's data. */
  class Generator {
    var buffer: array<Byte>
    var loc: nat
    var sink: Sink
    ghost var text: seq<Byte>
    ghost const start: Sink

    ghost predicate Valid()
      reads this, buffer
    {
      && buffer.Length == PIECE && loc < PIECE && |text| % PIECE == loc
      && buffer[..loc] == text[|text| - loc..]
      && SinkOk(start)
      && sink == TakeText(start, text[..|text| - loc])
    }

    constructor (sink: Sink)
      requires SinkOk(sink)
      ensures Valid() && fresh(buffer) && text == [] && start == sink
    {
      buffer := new Byte[PIECE](_ => 0);
      loc, text := 0, [];
      this.sink, start := sink, sink;
      new;
      assert TakeText(start, text[..0]) == sink;
    }

    method AppendChar(c: Byte)
      requires Valid()
      modifies this, buffer
      ensures Valid() && buffer == old(buffer) && text == old(text) + [c]
    {
      hide Take;
      hide TakeText;
      ghost var done := text[..|text| - loc];
      ghost var all := text + [c];
      OneMoreCharacter(|text|, loc);
      assert done + buffer[..loc] == text;
      buffer[loc] := c;
      loc := loc + 1;
      assert buffer[..loc] == old(buffer[..loc]) + [c];
      assert done + buffer[..loc] == text + [c];
      if loc >= PIECE {
        TakeTextPiece(start, done, buffer[..loc]);
        sink := Take(sink, buffer[..loc]);
        loc := 0;
        assert all[..|all|] == all;
      } else {
        assert all[..|all| - loc] == done;
      }
      text := all;
    }

    method AppendString(s: seq<Byte>)
      requires Valid()
      modifies this, buffer
      ensures Valid() && buffer == old(buffer) && text == old(text) + s
    {
      for x := 0 to |s|
        invariant Valid() && buffer == old(buffer) && text == old(text) + s[..x]
      {
        AppendChar(s[x]);
        assert old(text) + s[..x] + [s[x]] == old(text) + s[..x + 1];
      }
      assert s[..|s|] == s;
    }

    /** What is left in the buffer goes out last. */
    method Finish()
      requires Valid()
      modifies this`sink
      ensures sink == TakeText(start, text)
    {
      hide TakeText;
      ghost var done := text[..|text| - loc];
      assert done + buffer[..loc] == text;
      if loc > 0 {
        TakeTextPiece(start, done, buffer[..loc]);
        sink := Take(sink, buffer[..loc]);
      } else {
        assert done == text;
      }
    }
  }

  // ---------------------------------------------------------------- the length, and a piece at an offset

  /** The bytes of a text from an offset on, with zeros after its end. */
  function ZeroPadded(text: seq<Byte>, offset: nat, count: nat): (r: seq<Byte>)
    ensures |r| == count
  {
    seq(count, i requires 0 <= i => if offset + i < |text| then text[offset + i] else 0)
  }

  lemma {:induction false} CountsText(total: nat, text: seq<Byte>)
    ensures TakeText(Count(total), text) == Count(total + |text|)
    decreases |text|
  {
    PiecesFit(text);
    if 0 < |text| <= PIECE {
      TakeOne(Count(total), text);
    } else if |text| > PIECE {
      PiecesFit(text[PIECE..]);
      CountsText(total + PIECE, text[PIECE..]);
    }
  }

  /** Whether a piece of a text that starts at `current` starts at the desired offset. */
  predicate StartsPiece(current: nat, desired: int, text: seq<Byte>)
  {
    current <= desired < current + |text| && (desired - current) % PIECE == 0
  }

  lemma {:induction false} FindsPiece(s: Sink, text: seq<Byte>)
    requires s.AtOffset? && SinkOk(s)
    ensures var t := TakeText(s, text);
            && t.AtOffset?
            && t.found == (s.found || StartsPiece(s.current, s.desired, text))
            && (!StartsPiece(s.current, s.desired, text) ==> t.output == s.output)
            && (StartsPiece(s.current, s.desired, text) && s.output == Zeros() ==>
                  t.output == ZeroPadded(text, s.desired - s.current, PIECE))
    decreases |text|
  {
    PiecesFit(text);
    if 0 < |text| <= PIECE {
      TakeOne(s, text);
    } else if |text| > PIECE {
      var rest := text[PIECE..];
      var next := Take(s, text[..PIECE]);
      PiecesFit(rest);
      FindsPiece(next, rest);
      assert (s.desired - next.current) % PIECE == (s.desired - s.current) % PIECE;
      if StartsPiece(next.current, s.desired, rest) {
        PaddedRest(text, s.desired - s.current);
      }
    }
  }

  lemma PaddedRest(text: seq<Byte>, offset: nat)
    requires PIECE <= offset && PIECE <= |text|
    ensures ZeroPadded(text, offset, PIECE) == ZeroPadded(text[PIECE..], offset - PIECE, PIECE)
  {
  }

  function Zeros(): seq<Byte> { seq(PIECE, _ => 0) }

  function Concat(strings: seq<seq<Byte>>): seq<Byte>
  {
    if strings == [] then [] else Concat(strings[..|strings| - 1]) + strings[|strings| - 1]
  }

  lemma {:induction false} ConcatAppend(a: seq<seq<Byte>>, b: seq<seq<Byte>>)
    ensures Concat(a + b) == Concat(a) + Concat(b)
    ensures |b| == 1 ==> Concat(b) == b[0]
    decreases |b|
  {
    if b == [] {
      assert a + b == a;
    } else {
      var last := |b| - 1;
      assert (a + b)[..|a + b| - 1] == a + b[..last] && (a + b)[|a + b| - 1] == b[last];
      ConcatAppend(a, b[..last]);
      assert (Concat(a) + Concat(b[..last])) + b[last] == Concat(a) + (Concat(b[..last]) + b[last]);
    }
  }

  /** The strings that make up the text go to the generator one after the other. */
  method Generate(strings: seq<seq<Byte>>, sink: Sink) returns (result: Sink)
    requires SinkOk(sink)
    ensures result == TakeText(sink, Concat(strings))
  {
    var generator := new Generator(sink);
    for x := 0 to |strings|
      invariant generator.Valid() && fresh(generator) && fresh(generator.buffer)
      invariant generator.start == sink && generator.text == Concat(strings[..x])
    {
      generator.AppendString(strings[x]);
      assert strings[..x + 1][..x] == strings[..x];
    }
    assert strings[..|strings|] == strings;
    generator.Finish();
    result := generator.sink;
  }

  method XmlLength(strings: seq<seq<Byte>>) returns (len: nat)
    ensures len == |Concat(strings)|
  {
    var sink := Generate(strings, Count(0));
    CountsText(0, Concat(strings));
    len := sink.total;
  }

  /**
   Part of the text, from an offset that the caller should have made a multiple of 64.  From any other offset,
   or past the end, there is nothing but zeros, and that is the error result.
   */
  method ToXmlAtOffset(strings: seq<seq<Byte>>, offset: int) returns (ok: bool, output: seq<Byte>)
    ensures ok <==> 0 <= offset < |Concat(strings)| && offset % PIECE == 0
    ensures |output| == PIECE
    ensures offset >= 0 && offset % PIECE == 0 ==> output == ZeroPadded(Concat(strings), offset, PIECE)
    ensures !ok ==> output == Zeros()
  {
    var sink := Generate(strings, AtOffset(0, offset, false, Zeros()));
    FindsPiece(AtOffset(0, offset, false, Zeros()), Concat(strings));
    ok, output := sink.found, sink.output;
  }

  // ---------------------------------------------------------------- reading from any offset

  /** A piece by its 32-bit offset, which the generator takes as a signed number. */
  function Piece(text: seq<Byte>, start: nat): (r: seq<Byte>)
    requires start < WORD_LIMIT
    ensures |r| == PIECE
  {
    ZeroPadded(text, start, PIECE)
  }

  /**
   A read of the CDI (LCC/lcc-memory.c): the piece that holds the address, with the next one when the bytes
   wanted reach into it.
   */
  function CdiBytes(text: seq<Byte>, address: nat, count: nat): (r: seq<Byte>)
    requires address < WORD_LIMIT && count <= PIECE
    ensures |r| == count
  {
    var offset := address % PIECE;
    var start := address - offset;
    var two := Piece(text, start) + Piece(text, (start + PIECE) % WORD_LIMIT);
    two[offset..offset + count]
  }

  lemma NothingToRead(address: nat, count: nat)
    requires address < WORD_LIMIT && count <= PIECE
    ensures CdiBytes([], address, count) == ZeroPadded([], address, count)
  {
    var offset := address % PIECE;
    var first, second := Piece([], address - offset), Piece([], (address - offset + PIECE) % WORD_LIMIT);
    var two, bytes := first + second, CdiBytes([], address, count);
    assert forall i :: 0 <= i < 2 * PIECE ==> two[i] == 0;
    assert bytes == two[offset..offset + count];
    assert forall i :: 0 <= i < count ==> bytes[i] == 0;
  }

  lemma CdiByteAt(text: seq<Byte>, address: nat, count: nat, i: nat)
    requires address < WORD_LIMIT && count <= PIECE && i < count
    ensures var offset := address % PIECE;
            CdiBytes(text, address, count)[i]
            == if offset + i < PIECE then Piece(text, address - offset)[offset + i]
               else Piece(text, (address - offset + PIECE) % WORD_LIMIT)[offset + i - PIECE]
  {
    hide Piece;
  }

  /** Two generated pieces make any read of up to 64 bytes the text itself, up to the end of the address space. */
  lemma CdiBytesAreTheText(text: seq<Byte>, address: nat, count: nat)
    requires address < WORD_LIMIT && count <= PIECE
    requires address + count <= WORD_LIMIT
    ensures CdiBytes(text, address, count) == ZeroPadded(text, address, count)
  {
    var offset := address % PIECE;
    var start := address - offset;
    assert start % PIECE == 0 && WORD_LIMIT % PIECE == 0;
    var bytes, wanted := CdiBytes(text, address, count), ZeroPadded(text, address, count);
    forall i | 0 <= i < count
      ensures bytes[i] == wanted[i]
    {
      CdiByteAt(text, address, count, i);
      if offset + i >= PIECE {
        assert start + PIECE < WORD_LIMIT;
      }
    }
  }

  /**
   Past the end of the address space the offset of the second piece wraps around to the start of the text.
   So a read is the text with zeros after it exactly when it does not get that far, or there is no text.
   */
  lemma CdiBytesExactly(text: seq<Byte>, address: nat, count: nat)
    requires address < WORD_LIMIT && count <= PIECE
    requires |text| < WORD_LIMIT / 2 && 0 !in text
    ensures CdiBytes(text, address, count) == ZeroPadded(text, address, count)
            <==> address + count <= WORD_LIMIT || text == []
  {
    if address + count <= WORD_LIMIT {
      CdiBytesAreTheText(text, address, count);
    } else {
      var offset := address % PIECE;
      assert address - offset == WORD_LIMIT - PIECE;
      var k := PIECE - offset;
      assert 0 <= k < count;
      if text == [] {
        NothingToRead(address, count);
      } else {
        assert CdiBytes(text, address, count)[k] == Piece(text, 0)[0] == text[0];
        assert text[0] in text;
        assert ZeroPadded(text, address, count)[k] == 0;
      }
    }
  }
}
