/**
 The values of a configuration in the memory of a node (GUI/lcc/cdi/cdieditorwidget.cpp): how what the editor shows
 becomes bytes and back, and where the bytes of a whole description are.
 */
module CdiValues {
  import opened Basics
  import opened CanId
  import opened CdiLayout

  /** Numbers are computed in 64 bits. */
  const NUMBER_LIMIT := 0x1_0000_0000_0000_0000

  /** What is shown.  Text is in UTF-8. */
  datatype Content = Number(value: nat) | Text(bytes: seq<Byte>) | EventId(bytes: seq<Byte>)

  /** The numbers that fit in n bytes are those below. */
  function Limit(n: nat): (limit: nat)
    ensures limit > 0
  {
    if n == 0 then 1 else 0x100 * Limit(n - 1)
  }

  /** The last n bytes of a number, big end first. */
  function NumberBytes(value: nat, n: nat): (r: seq<Byte>)
    ensures |r| == n
    decreases n
  {
    if n == 0 then [] else NumberBytes(value / 0x100, n - 1) + [value % 0x100]
  }

  function Nulls(n: nat): seq<Byte> { seq(n, _ => 0) }

  /** A text is cut short if need be, so that there always is a zero byte after it. */
  function TextBytes(text: seq<Byte>, len: nat): (r: seq<Byte>)
    requires len > 0
    ensures |r| == len
  {
    var kept := if |text| > len - 1 then text[..len - 1] else text;
    kept + Nulls(len - |kept|)
  }

  /** The bytes that are stored for a value, if it can be stored. */
  function StoredBytes(v: Variant, c: Content): Option<seq<Byte>>
  {
    match (v, c)
    case (IntField(_, size), Number(value)) => Some(NumberBytes(value, if size > 0 then size else 1))
    case (StringField(_, len), Text(text)) => if len == 0 then None else Some(TextBytes(text, len))
    case (EventIdField(_), EventId(bytes)) => if |bytes| != 8 then None else Some(bytes)
    case _ => None
  }

  /** The number that is read from bytes, each of which moves what came before it up by 8 of the 64 bits. */
  function NumberOf(bytes: seq<Byte>): nat
  {
    if bytes == [] then 0 else (NumberOf(bytes[..|bytes| - 1]) * 0x100 + bytes[|bytes| - 1]) % NUMBER_LIMIT
  }

  /** What comes before the first zero byte. */
  function TextOf(bytes: seq<Byte>): seq<Byte>
  {
    if bytes == [] || bytes[0] == 0 then [] else [bytes[0]] + TextOf(bytes[1..])
  }

  function ShownContent(v: Variant, bytes: seq<Byte>): Content
    requires !v.Group?
  {
    match v
    case IntField(_, _) => Number(NumberOf(bytes))
    case StringField(_, _) => Text(TextOf(bytes))
    case EventIdField(_) => EventId(bytes)
  }

  // ---------------------------------------------------------------- how the code does it

  lemma DivideTwice(value: nat, limit: nat)
    requires limit > 0
    ensures value / 0x100 / limit == value / (0x100 * limit)
    ensures value / 0x100 % limit * 0x100 + value % 0x100 == value % (0x100 * limit)
  {
    var a, b := value / 0x100, value % 0x100;
    var q, r := a / limit, a % limit;
    assert a == limit * q + r;
    assert value == 0x100 * limit * q + (0x100 * r + b);
    assert 0 <= 0x100 * r + b < 0x100 * limit;
    Quotient(value, 0x100 * limit, q, 0x100 * r + b);
  }

  lemma Quotient(value: nat, d: nat, q: nat, r: nat)
    requires value == d * q + r && r < d
    ensures value / d == q && value % d == r
  {
    var p := value / d;
    assert value == d * p + value % d;
    assert p < q ==> d * q >= d * (p + 1);
    assert p > q ==> d * p >= d * (q + 1);
  }

  /** Each byte is the number moved down by 8 bits for every byte after it. */
  lemma {:induction false} NumberByteAt(value: nat, n: nat, k: nat)
    requires k < n
    ensures NumberBytes(value, n)[n - 1 - k] == value / Limit(k) % 0x100
    decreases n
  {
    if k > 0 {
      NumberByteAt(value / 0x100, n - 1, k - 1);
      DivideTwice(value, Limit(k - 1));
    }
  }

  /** encodeField.  A shift by 64 bits or more would mean nothing, so an int has at most eight bytes. */
  method EncodeField(v: Variant, c: Content) returns (out: Option<seq<Byte>>)
    requires v.IntField? ==> v.storageSize <= 8
    requires c.Number? ==> c.value < NUMBER_LIMIT
    ensures out == StoredBytes(v, c)
  {
    var size := CdiVariantSize(v);
    var bytes: seq<Byte> := [];
    if v.StringField? && c.Text? {
      if size <= 0 {
        return None;
      }
      var kept := if |c.bytes| > size - 1 then c.bytes[..size - 1] else c.bytes;
      for i := 0 to |kept|
        invariant bytes == kept[..i]
      {
        bytes := bytes + [kept[i]];
      }
      assert kept[..|kept|] == kept;
      return Some(bytes + Nulls(size - |bytes|));
    }
    if v.IntField? && c.Number? {
      for x := size downto 0
        invariant bytes == NumberBytes(c.value, size)[..size - x]
      {
        NumberByteAt(c.value, size, x);
        bytes := bytes + [c.value / Limit(x) % 0x100];
      }
      assert NumberBytes(c.value, size)[..size] == NumberBytes(c.value, size);
      return Some(bytes);
    }
    if v.EventIdField? && c.EventId? {
      if |c.bytes| != 8 {
        return None;
      }
      for i := 0 to |c.bytes|
        invariant bytes == c.bytes[..i]
      {
        bytes := bytes + [c.bytes[i]];
      }
      assert c.bytes[..|c.bytes|] == c.bytes;
      return Some(bytes);
    }
    out := None;
  }

  /** setFieldValue: the value that the widget is given. */
  method FieldValue(v: Variant, bytes: seq<Byte>) returns (c: Content)
    requires !v.Group?
    ensures c == ShownContent(v, bytes)
  {
    if v.StringField? {
      var len := 0;
      while len < |bytes| && bytes[len] != 0
        invariant len <= |bytes|
        invariant TextOf(bytes) == bytes[..len] + TextOf(bytes[len..])
      {
        assert bytes[len..][1..] == bytes[len + 1..];
        assert bytes[..len] + [bytes[len]] == bytes[..len + 1];
        len := len + 1;
      }
      c := Text(bytes[..len]);
    } else if v.IntField? {
      var value := 0;
      for i := 0 to |bytes|
        invariant value == NumberOf(bytes[..i])
      {
        assert bytes[..i + 1][..i] == bytes[..i];
        value := (value * 0x100 + bytes[i]) % NUMBER_LIMIT;
      }
      assert bytes[..|bytes|] == bytes;
      c := Number(value);
    } else {
      c := EventId(bytes);
    }
  }

  // ---------------------------------------------------------------- what is stored is what is shown

  lemma {:induction false} NumberReadBack(value: nat, n: nat)
    requires n <= 8
    ensures NumberOf(NumberBytes(value, n)) == value % Limit(n) < Limit(n) <= NUMBER_LIMIT
    decreases n
  {
    LimitIsBelow(n);
    if n > 0 {
      var bytes := NumberBytes(value, n);
      assert bytes[..n - 1] == NumberBytes(value / 0x100, n - 1) && bytes[n - 1] == value % 0x100;
      assert Limit(n) == 0x100 * Limit(n - 1);
      NumberReadBack(value / 0x100, n - 1);
      hide Limit;
      hide NumberBytes;
      DivideTwice(value, Limit(n - 1));
      Quotient(value % Limit(n), NUMBER_LIMIT, 0, value % Limit(n));
    }
  }

  lemma {:induction false} LimitIsBelow(n: nat)
    requires n <= 8
    ensures Limit(n) <= NUMBER_LIMIT
  {
    assert Limit(1) == 0x100 && Limit(2) == 0x1_0000 && Limit(3) == 0x100_0000 && Limit(4) == 0x1_0000_0000;
    assert Limit(5) == 0x100_0000_0000 && Limit(6) == 0x1_0000_0000_0000;
    assert Limit(7) == 0x100_0000_0000_0000 && Limit(8) == NUMBER_LIMIT;
  }

  lemma {:induction false} TextEnds(bytes: seq<Byte>)
    ensures TextOf(bytes) <= bytes && 0 !in TextOf(bytes)
    ensures |TextOf(bytes)| < |bytes| ==> bytes[|TextOf(bytes)|] == 0
    decreases |bytes|
  {
    if bytes != [] && bytes[0] != 0 {
      TextEnds(bytes[1..]);
    }
  }

  /** The text is the only part in front of a zero byte that has none. */
  lemma TextIs(bytes: seq<Byte>, text: seq<Byte>)
    requires text < bytes && 0 !in text && bytes[|text|] == 0
    ensures TextOf(bytes) == text
  {
    TextEnds(bytes);
    var found := TextOf(bytes);
    forall i | 0 <= i < |text|
      ensures bytes[i] != 0
    {
      assert text[i] in text;
    }
    forall i | 0 <= i < |found|
      ensures bytes[i] != 0
    {
      assert found[i] in found;
    }
    assert |found| == |text|;
  }

  /** A text is read back if and only if there is room for its zero byte, and it has no other. */
  lemma TextReadBackExactly(text: seq<Byte>, len: nat)
    requires len > 0
    ensures TextOf(TextBytes(text, len)) == text <==> |text| < len && 0 !in text
  {
    var bytes := TextBytes(text, len);
    TextEnds(bytes);
    assert bytes[len - 1] == 0;
    if |text| < len && 0 !in text {
      TextIs(bytes, text);
    }
  }

  /** The last byte is zero, and so are all after the first zero byte. */
  predicate ZeroPadded(bytes: seq<Byte>)
    requires bytes != []
  {
    bytes[|bytes| - 1] == 0 && forall i, j :: 0 <= i < j < |bytes| && bytes[i] == 0 ==> bytes[j] == 0
  }

  lemma TextBytesAt(text: seq<Byte>, len: nat, i: nat)
    requires |text| <= len && i < len
    ensures TextBytes(text, len)[i] == if i < |text| && i < len - 1 then text[i] else 0
  {
  }

  /** Storing what is shown changes nothing if and only if the text is padded with zero bytes. */
  lemma StoredAgainExactly(bytes: seq<Byte>)
    requires bytes != []
    ensures TextBytes(TextOf(bytes), |bytes|) == bytes <==> ZeroPadded(bytes)
  {
    hide TextOf;
    hide TextBytes;
    TextEnds(bytes);
    var text, len := TextOf(bytes), |bytes|;
    forall i | 0 <= i < len
      ensures TextBytes(text, len)[i] == if i < |text| && i < len - 1 then text[i] else 0
    {
      TextBytesAt(text, len, i);
    }
    assert forall i :: 0 <= i < |text| ==> text[i] != 0 && text[i] == bytes[i];
    if ZeroPadded(bytes) {
      assert |text| < len;
      assert forall i :: 0 <= i < len ==> TextBytes(text, len)[i] == bytes[i];
    }
    if TextBytes(text, len) == bytes {
      assert forall i :: |text| <= i < len ==> bytes[i] == 0;
    }
  }

  /** What comes back as it was: exactly what there is room for. */
  predicate Fits(v: Variant, c: Content)
  {
    match (v, c)
    case (IntField(_, size), Number(value)) => value < Limit(if size > 0 then size else 1)
    case (StringField(_, len), Text(text)) => |text| < len && 0 !in text
    case (EventIdField(_), EventId(bytes)) => |bytes| == 8
    case _ => false
  }

  lemma StoredIsShownExactly(v: Variant, c: Content)
    requires !v.Group? && (v.IntField? ==> v.storageSize <= 8)
    ensures StoredBytes(v, c).Some? && ShownContent(v, StoredBytes(v, c).value) == c <==> Fits(v, c)
  {
    if v.IntField? && c.Number? {
      var n := if v.storageSize > 0 then v.storageSize else 1;
      NumberReadBack(c.value, n);
      if c.value < Limit(n) {
        Quotient(c.value, Limit(n), 0, c.value);
      }
    } else if v.StringField? && c.Text? && v.maxLen > 0 {
      TextReadBackExactly(c.bytes, v.maxLen);
    }
  }

  /** A spin box has a number with a sign and 32 bits; what it is given is at most the highest of these. */
  function FromSpinBox(i: int): nat { i % NUMBER_LIMIT }

  function InSpinBox(value: nat): int { if value > 0x7FFF_FFFF then 0x7FFF_FFFF else value }

  /** So a negative number, which can be stored, never comes back, and any other exactly if it fits. */
  lemma SpinBoxReadBackExactly(i: int, n: nat)
    requires -0x8000_0000 <= i < 0x8000_0000 && n <= 8
    ensures InSpinBox(NumberOf(NumberBytes(FromSpinBox(i), n))) == i <==> 0 <= i < Limit(n)
    ensures 0 <= InSpinBox(NumberOf(NumberBytes(FromSpinBox(i), n))) < 0x8000_0000
  {
    hide Limit;
    hide NumberOf;
    hide NumberBytes;
    NumberReadBack(FromSpinBox(i), n);
    if i >= 0 {
      Quotient(i, NUMBER_LIMIT, 0, i);
      assert FromSpinBox(i) == i;
    }
    hide FromSpinBox;
    if 0 <= i < Limit(n) {
      Quotient(i, Limit(n), 0, i);
    }
  }

  // ---------------------------------------------------------------- where it is stored

  /** The bytes of a value are as many as the layout has for it. */
  lemma StoredFillsField(v: Variant, c: Content)
    requires StoredBytes(v, c).Some?
    ensures |StoredBytes(v, c).value| == VariantSize(v)
  {
  }

  /** Storing a value of a segment: it is there, and every other value is what it was. */
  lemma StoringOneValue(memory: seq<Byte>, elements: seq<Variant>, space: nat, address: nat, i: nat, c: Content)
    requires address + SizeOf(elements) <= |memory|
    requires var fields := AllFields(Laid(elements, space, address));
             i < |fields| && StoredBytes(fields[i].variant, c).Some?
    ensures var fields := AllFields(Laid(elements, space, address));
            var bytes := StoredBytes(fields[i].variant, c).value;
            && |bytes| == FieldSize(fields[i]) && fields[i].address + |bytes| <= |memory|
            && var after := WriteField(memory, fields[i], bytes);
            && (forall j :: 0 <= j < |fields| ==>
                  fields[j].address + FieldSize(fields[j]) <= |memory|
                  && ReadField(after, fields[j]) == if i == j then bytes else ReadField(memory, fields[j]))
            && (Fits(fields[i].variant, c) && (fields[i].variant.IntField? ==> fields[i].variant.storageSize <= 8) ==>
                  ShownContent(fields[i].variant, ReadField(after, fields[i])) == c)
  {
    hide VariantSize;
    hide Laid;
    hide AllFields;
    var fields := AllFields(Laid(elements, space, address));
    var bytes := StoredBytes(fields[i].variant, c).value;
    StoredFillsField(fields[i].variant, c);
    WritesDoNotInterfere(memory, elements, space, address, i, i, bytes);
    var after := WriteField(memory, fields[i], bytes);
    forall j | 0 <= j < |fields|
      ensures fields[j].address + FieldSize(fields[j]) <= |memory|
              && ReadField(after, fields[j]) == if i == j then bytes else ReadField(memory, fields[j])
    {
      WritesDoNotInterfere(memory, elements, space, address, i, j, bytes);
    }
    if Fits(fields[i].variant, c) && (fields[i].variant.IntField? ==> fields[i].variant.storageSize <= 8) {
      StoredIsShownExactly(fields[i].variant, c);
    }
  }

  /** A part of the memory: a gap, or a value. */
  datatype Piece = Gap(bytes: seq<Byte>) | Stored(variant: Variant, content: Content)

  predicate PieceOk(p: Piece) { p.Stored? ==> StoredBytes(p.variant, p.content).Some? }

  function PieceBytes(p: Piece): seq<Byte>
    requires PieceOk(p)
  {
    match p
    case Gap(bytes) => bytes
    case Stored(v, c) => StoredBytes(v, c).value
  }

  predicate PiecesOk(pieces: seq<Piece>) { forall i :: 0 <= i < |pieces| ==> PieceOk(pieces[i]) }

  /** One after another. */
  function Image(pieces: seq<Piece>): seq<Byte>
    requires PiecesOk(pieces)
    decreases |pieces|
  {
    if pieces == [] then []
    else
      assert PieceOk(pieces[0]);
      PieceBytes(pieces[0]) + Image(pieces[1..])
  }

  /** What the pieces are in a description with all groups written out. */
  function ItemsOf(pieces: seq<Piece>): seq<Item>
    decreases |pieces|
  {
    if pieces == [] then []
    else [match pieces[0] case Gap(bytes) => Skip(|bytes|) case Stored(v, _) => Value(v)] + ItemsOf(pieces[1..])
  }

  lemma {:induction false} ImageSize(pieces: seq<Piece>)
    requires PiecesOk(pieces)
    ensures |Image(pieces)| == TotalSize(ItemsOf(pieces))
    decreases |pieces|
  {
    hide VariantSize;
    hide StoredBytes;
    if pieces != [] {
      assert PieceOk(pieces[0]);
      if pieces[0].Stored? {
        StoredFillsField(pieces[0].variant, pieces[0].content);
      }
      ImageSize(pieces[1..]);
      assert ItemsOf(pieces)[1..] == ItemsOf(pieces[1..]);
    }
  }

  lemma {:induction false} ImageAround(pieces: seq<Piece>, k: nat)
    requires PiecesOk(pieces) && k < |pieces|
    ensures PiecesOk(pieces[..k]) && PiecesOk(pieces[k + 1..]) && PieceOk(pieces[k])
    ensures Image(pieces) == Image(pieces[..k]) + PieceBytes(pieces[k]) + Image(pieces[k + 1..])
    decreases k
  {
    hide PieceBytes;
    hide PieceOk;
    if k == 0 {
      assert Image(pieces[..0]) == [];
    } else {
      ImageAround(pieces[1..], k - 1);
      assert pieces[1..][k - 1] == pieces[k] && pieces[1..][k..] == pieces[k + 1..];
      assert pieces[..k][1..] == pieces[1..][..k - 1];
    }
  }

  /** Every value of the flat reading is where the bytes before it end. */
  lemma {:induction false} PlaceIsPiece(pieces: seq<Piece>, space: nat, address: nat, i: nat) returns (k: nat)
    requires PiecesOk(pieces) && i < |Place(ItemsOf(pieces), space, address)|
    ensures k < |pieces| && pieces[k].Stored? && PiecesOk(pieces[..k])
    ensures Place(ItemsOf(pieces), space, address)[i]
            == Field(pieces[k].variant, space, address + |Image(pieces[..k])|)
    decreases |pieces|
  {
    hide VariantSize;
    hide StoredBytes;
    var items := ItemsOf(pieces);
    assert PieceOk(pieces[0]) && items[1..] == ItemsOf(pieces[1..]);
    if pieces[0].Stored? {
      StoredFillsField(pieces[0].variant, pieces[0].content);
    }
    var size := |PieceBytes(pieces[0])|;
    var rest := Place(items[1..], space, address + size);
    if pieces[0].Stored? && i == 0 {
      k := 0;
      assert Image(pieces[..0]) == [];
    } else {
      var later := PlaceIsPiece(pieces[1..], space, address + size, if pieces[0].Stored? then i - 1 else i);
      k := later + 1;
      assert pieces[..k][0] == pieces[0] && pieces[..k][1..] == pieces[1..][..later];
    }
  }

  lemma {:induction false} SumIsOfOne(w: CdiLayout.Field -> nat, fields: seq<Field>) returns (i: nat)
    requires Sum(w, fields) > 0
    ensures i < |fields| && w(fields[i]) > 0
    decreases |fields|
  {
    if w(fields[0]) > 0 {
      i := 0;
    } else {
      var later := SumIsOfOne(w, fields[1..]);
      i := later + 1;
    }
  }

  function IsField(f: Field): Field -> nat { (g: Field) => if f == g then 1 else 0 }

  /** Where a value of a layout is: it is one of the values written out, and the bytes before it end there. */
  ghost predicate IsPieceAt(f: Field, pieces: seq<Piece>, k: nat, address: nat)
    requires PiecesOk(pieces)
  {
    && k < |pieces| && pieces[k].Stored? && f.variant == pieces[k].variant
    && PiecesOk(pieces[..k]) && f.address == address + |Image(pieces[..k])|
  }

  /**
   The memory that has all values of a description one after another, with its gaps and with its groups as often as
   they are replicated, is the one that the layout is for: every field of it has its value there.
   */
  lemma LayoutReadsImage(memory: seq<Byte>, elements: seq<Variant>, space: nat, address: nat, pieces: seq<Piece>,
                         f: Field) returns (k: nat)
    requires PiecesOk(pieces) && ItemsOf(pieces) == Unroll(elements)
    requires address + |Image(pieces)| <= |memory| && memory[address..address + |Image(pieces)|] == Image(pieces)
    requires f in AllFields(Laid(elements, space, address))
    ensures |Image(pieces)| == SizeOf(elements)
    ensures IsPieceAt(f, pieces, k, address) && PieceOk(pieces[k])
    ensures f.address + FieldSize(f) <= |memory| && ReadField(memory, f) == PieceBytes(pieces[k])
  {
    UnrollSize(elements);
    ImageSize(pieces);
    var i := FieldIsInFlatReading(elements, space, address, f);
    hide *;
    k := PlaceIsPiece(pieces, space, address, i);
    PieceIsRead(memory, pieces, address, k, f);
  }

  lemma FieldIsInFlatReading(elements: seq<Variant>, space: nat, address: nat, f: Field) returns (i: nat)
    requires f in AllFields(Laid(elements, space, address))
    ensures i < |Place(Unroll(elements), space, address)| && Place(Unroll(elements), space, address)[i] == f
  {
    hide Laid;
    hide AllFields;
    hide Unroll;
    hide Place;
    var fields := AllFields(Laid(elements, space, address));
    var at :| 0 <= at < |fields| && fields[at] == f;
    SumAtLeastOne(IsField(f), fields, at);
    LayoutIsFlatReading(IsField(f), elements, space, address);
    i := SumIsOfOne(IsField(f), Place(Unroll(elements), space, address));
  }

  lemma PieceIsRead(memory: seq<Byte>, pieces: seq<Piece>, address: nat, k: nat, f: Field)
    requires PiecesOk(pieces) && k < |pieces| && pieces[k].Stored? && PiecesOk(pieces[..k])
    requires address + |Image(pieces)| <= |memory| && memory[address..address + |Image(pieces)|] == Image(pieces)
    requires f.variant == pieces[k].variant && f.address == address + |Image(pieces[..k])|
    ensures PieceOk(pieces[k]) && IsPieceAt(f, pieces, k, address)
    ensures f.address + FieldSize(f) <= |memory| && ReadField(memory, f) == PieceBytes(pieces[k])
  {
    hide StoredBytes;
    hide VariantSize;
    hide Image;
    ImageAround(pieces, k);
    StoredFillsField(pieces[k].variant, pieces[k].content);
    var before, bytes := |Image(pieces[..k])|, PieceBytes(pieces[k]);
    assert Image(pieces)[before..before + |bytes|] == bytes;
    SliceOfSlice(memory, address, |Image(pieces)|, before, |bytes|);
  }

  lemma SliceOfSlice(memory: seq<Byte>, start: nat, len: nat, at: nat, n: nat)
    requires start + len <= |memory| && at + n <= len
    ensures memory[start..start + len][at..at + n] == memory[start + at..start + at + n]
  {
    var part, direct := memory[start..start + len][at..at + n], memory[start + at..start + at + n];
    forall i | 0 <= i < n
      ensures part[i] == direct[i]
    {
      assert part[i] == memory[start..start + len][at + i] == memory[start + (at + i)];
    }
    assert part == direct;
  }
}
