/**
 The 29-bit CAN identifiers of the LCC library, and the frames that carry them.

   bit 28      reserved, always sent as 1
   bit 27      1 for an LCC message, 0 for a CAN control frame
   bits 24-26  CAN frame type of a message, or the sequence number of a CID control frame
   bits 12-23  variable field: an MTI, a destination alias or part of a node ID
   bits 0-11   alias of the sending node
 */
module CanId {

  type Byte = x: nat | x < 0x100

  datatype Frame = Frame(id: nat, data: seq<Byte>)

  const CAN_ID_LIMIT := 0x2000_0000
  const ALIAS_LIMIT := 0x1000
  const FIELD_LIMIT := 0x1000
  const NODE_ID_LIMIT := 0x1_0000_0000_0000

  const MTI_INIT_COMPLETE := 0x100
  const MTI_DATAGRAM_RECEIVED_OK := 0xA28
  const MTI_DATAGRAM_REJECTED := 0xA48
  const CONTROL_RID := 0x700
  const CONTROL_AMD := 0x701

  /** A control frame.  The variable field is up to 15 bits: a CID puts its number in the top three. */
  function ControlId(field: nat, alias: nat): (id: nat)
  {
    0x1000_0000 + field * 0x1000 + alias
  }

  function MessageId(frameType: nat, field: nat, alias: nat): (id: nat)
  {
    0x1800_0000 + frameType * 0x100_0000 + field * 0x1000 + alias
  }

  function AliasOf(id: nat): nat { id % 0x1000 }

  function FieldOf(id: nat): nat { id / 0x1000 % 0x1000 }

  function FrameTypeOf(id: nat): nat { id / 0x100_0000 % 8 }

  predicate IsMessage(id: nat) { id / 0x800_0000 % 2 == 1 }

  /** Every field of a control identifier can be read back. */
  lemma ControlIdFields(field: nat, alias: nat)
    requires field < 8 * FIELD_LIMIT && alias < ALIAS_LIMIT
    ensures ControlId(field, alias) < CAN_ID_LIMIT
    ensures AliasOf(ControlId(field, alias)) == alias
    ensures FieldOf(ControlId(field, alias)) == field % FIELD_LIMIT
    ensures FrameTypeOf(ControlId(field, alias)) == field / FIELD_LIMIT
    ensures !IsMessage(ControlId(field, alias))
  {
    var id := ControlId(field, alias);
    assert id / 0x1000 == 0x1_0000 + field;
    assert id / 0x100_0000 == 0x10 + field / 0x1000;
  }

  /** Every field of a message identifier can be read back. */
  lemma MessageIdFields(frameType: nat, field: nat, alias: nat)
    requires frameType < 8 && field < FIELD_LIMIT && alias < ALIAS_LIMIT
    ensures MessageId(frameType, field, alias) < CAN_ID_LIMIT
    ensures AliasOf(MessageId(frameType, field, alias)) == alias
    ensures FieldOf(MessageId(frameType, field, alias)) == field
    ensures FrameTypeOf(MessageId(frameType, field, alias)) == frameType
    ensures IsMessage(MessageId(frameType, field, alias))
  {
    var id := MessageId(frameType, field, alias);
    assert id / 0x1000 == 0x1_8000 + frameType * 0x1000 + field;
    assert id / 0x100_0000 == 0x18 + frameType;
  }

  /** A node ID as it is put in frame data: six bytes, big end first. */
  function NodeIdBytes(nodeId: nat): (data: seq<Byte>)
    ensures |data| == 6
  {
    [nodeId / 0x100_0000_0000 % 0x100, nodeId / 0x1_0000_0000 % 0x100, nodeId / 0x100_0000 % 0x100,
     nodeId / 0x1_0000 % 0x100, nodeId / 0x100 % 0x100, nodeId % 0x100]
  }

  /** The node ID in six bytes of data, from the given place on. */
  function NodeIdAt(data: seq<Byte>, i: nat): int
    requires i + 6 <= |data|
  {
    data[i] as int * 0x100_0000_0000 + data[i + 1] as int * 0x1_0000_0000 + data[i + 2] as int * 0x100_0000
    + data[i + 3] as int * 0x1_0000 + data[i + 4] as int * 0x100 + data[i + 5]
  }

  /** Read big end first, the bytes are the ID. */
  lemma NodeIdReadBack(nodeId: nat)
    requires nodeId < NODE_ID_LIMIT
    ensures NodeIdAt(NodeIdBytes(nodeId), 0) == nodeId
  {
    var a := nodeId / 0x100;
    var b := a / 0x100;
    var c := b / 0x100;
    var d := c / 0x100;
    var e := d / 0x100;
    assert nodeId == 0x100 * a + nodeId % 0x100 && a == 0x100 * b + a % 0x100 && b == 0x100 * c + b % 0x100;
    assert c == 0x100 * d + c % 0x100 && d == 0x100 * e + d % 0x100 && e < 0x100;
    assert nodeId / 0x1_0000 == b && nodeId / 0x100_0000 == c;
    assert nodeId / 0x1_0000_0000 == d && nodeId / 0x100_0000_0000 == e;
  }
}
