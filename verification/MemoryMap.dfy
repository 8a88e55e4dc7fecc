/**
 The memory of a node (LCC/lcc-memory-map.c): a list of segments, each with a range of 32-bit addresses that is
 inclusive at both ends.
 */
module MemoryMap {
  import opened Basics
  import opened CanId

  datatype Segment = Segment(space: Byte, readOnly: bool, low: nat, high: nat, memory: seq<Byte>)

  predicate SegmentOk(s: Segment)
  {
    s.low <= s.high < WORD_LIMIT && |s.memory| == s.high - s.low + 1
  }

  type Store = s: seq<Segment> | forall i :: 0 <= i < |s| ==> SegmentOk(s[i])

  /** The first segment with this space; a segment with space 0 ends the list. */
  function Find(store: Store, space: Byte): (r: Option<nat>)
    ensures r.Some? ==> r.value < |store| && store[r.value].space == space != 0
    decreases |store|
  {
    if store == [] || store[0].space == 0 then None
    else if store[0].space == space then Some(0)
    else
      var rest := Find(store[1..], space);
      if rest.Some? then Some(rest.value + 1) else None
  }

  /** The segment of a space: the first one that has it, if none before it has space 0. */
  predicate IsFirst(store: Store, space: Byte, i: nat)
  {
    && i < |store| && store[i].space == space != 0
    && forall j :: 0 <= j < i ==> store[j].space != 0 && store[j].space != space
  }

  lemma {:induction false} FindIsFirst(store: Store, space: Byte)
    ensures Find(store, space).Some? ==> IsFirst(store, space, Find(store, space).value)
    ensures Find(store, space).None? ==> forall i: nat :: !IsFirst(store, space, i)
    decreases |store|
  {
    if store != [] && store[0].space != 0 && store[0].space != space {
      FindIsFirst(store[1..], space);
      if Find(store[1..], space).Some? {
        var i := Find(store[1..], space).value;
        assert forall j :: 0 < j < i + 1 ==> store[j] == store[1..][j - 1];
      } else {
        forall i: nat
          ensures !IsFirst(store, space, i)
        {
          if IsFirst(store, space, i) {
            assert forall j :: 0 <= j < i - 1 ==> store[1..][j] == store[j + 1];
            assert IsFirst(store[1..], space, i - 1);
          }
        }
      }
    }
  }

  /** The bounds check, in 32-bit arithmetic. */
  predicate Passes(s: Segment, address: nat, count: int)
  {
    s.low <= address && (address + count) % WORD_LIMIT <= (s.high + 1) % WORD_LIMIT
  }

  /** What the bounds check is for. */
  predicate Inside(s: Segment, address: nat, count: int)
  {
    s.low <= address && 0 <= count && address + count <= s.high + 1
  }

  /** Outside stands for an access that passes the check although it does not lie inside the segment. */
  datatype Access = Missing | Refused | Outside | Done

  datatype ReadResult = ReadResult(access: Access, data: seq<Byte>)

  datatype WriteResult = WriteResult(access: Access, store: Store)

  function ReadAccess(store: Store, space: Byte, address: nat, count: nat): ReadResult
  {
    var found := Find(store, space);
    if found.None? then ReadResult(Missing, [])
    else
      var s := store[found.value];
      if !Passes(s, address, count) then ReadResult(Refused, [])
      else if !Inside(s, address, count) then ReadResult(Outside, [])
      else ReadResult(Done, s.memory[address - s.low..address - s.low + count])
  }

  function Patch(memory: seq<Byte>, offset: nat, data: seq<Byte>): (r: seq<Byte>)
    requires offset + |data| <= |memory|
    ensures |r| == |memory|
  {
    memory[..offset] + data + memory[offset + |data|..]
  }

  /** The length is separate because it is negative for a write request that is cut short. */
  function WriteAccess(store: Store, space: Byte, address: nat, data: seq<Byte>, len: int): WriteResult
    requires len >= 0 ==> |data| == len
  {
    var found := Find(store, space);
    if found.None? then WriteResult(Missing, store)
    else
      var s := store[found.value];
      if s.readOnly || !Passes(s, address, len) then WriteResult(Refused, store)
      else if !Inside(s, address, len) then WriteResult(Outside, store)
      else WriteResult(Done, store[found.value := s.(memory := Patch(s.memory, address - s.low, data))])
  }

  /** An access to a segment that ends before the last address: the check is right unless the sum wraps around to
      something small. */
  lemma CheckIsExact(s: Segment, address: nat, count: nat)
    requires SegmentOk(s) && s.high + 1 < WORD_LIMIT && address < WORD_LIMIT && count < WORD_LIMIT
    ensures Passes(s, address, count) == Inside(s, address, count)
            <==> address < s.low || address + count < WORD_LIMIT || address + count - WORD_LIMIT > s.high + 1
  {
    if address + count >= WORD_LIMIT {
      assert (address + count) % WORD_LIMIT == address + count - WORD_LIMIT;
    }
  }

  /** A segment that includes the last address only allows what ends exactly there. */
  lemma CheckAtTheEnd(s: Segment, address: nat, count: nat)
    requires SegmentOk(s) && s.high + 1 == WORD_LIMIT && s.low <= address < WORD_LIMIT && count < WORD_LIMIT
    ensures Passes(s, address, count) <==> address + count == 0 || address + count == WORD_LIMIT
  {
    if address + count >= WORD_LIMIT {
      assert (address + count) % WORD_LIMIT == address + count - WORD_LIMIT;
    }
  }

  /** A byte of a store, by space and address. */
  function ByteAt(store: Store, space: Byte, address: nat): Option<Byte>
  {
    var found := Find(store, space);
    if found.Some? && store[found.value].low <= address <= store[found.value].high
    then Some(store[found.value].memory[address - store[found.value].low])
    else None
  }

  /** A node has a space if there is a byte in it. */
  ghost predicate HasSpace(store: Store, space: Byte)
  {
    exists at: nat :: ByteAt(store, space, at).Some?
  }

  /** Which bytes there are: those of the first segment with the space, and no others. */
  lemma BytesOfSpace(store: Store, space: Byte)
    ensures HasSpace(store, space) <==> exists i: nat :: IsFirst(store, space, i)
    ensures forall i: nat, at: nat :: IsFirst(store, space, i) ==>
              ByteAt(store, space, at)
              == if store[i].low <= at <= store[i].high then Some(store[i].memory[at - store[i].low]) else None
    ensures HasSpace(store, space) <==> Find(store, space).Some?
  {
    hide Find;
    FindIsFirst(store, space);
    if Find(store, space).Some? {
      var i := Find(store, space).value;
      assert ByteAt(store, space, store[i].low).Some?;
      forall j: nat | IsFirst(store, space, j)
        ensures j == i
      {
        assert !(i < j) && !(j < i);
      }
    }
  }

  lemma {:induction false} FindKept(store: Store, i: nat, memory: seq<Byte>, space: Byte)
    requires i < |store| && |memory| == |store[i].memory|
    ensures Find(store[i := store[i].(memory := memory)], space) == Find(store, space)
    decreases |store|
  {
    var changed: Store := store[i := store[i].(memory := memory)];
    if store[0].space != 0 && store[0].space != space {
      if i > 0 {
        assert changed[1..] == store[1..][i - 1 := store[1..][i - 1].(memory := memory)];
        FindKept(store[1..], i - 1, memory, space);
      } else {
        assert changed[1..] == store[1..];
      }
    }
  }

  /** A write changes exactly the bytes it names, in the space it names. */
  lemma WriteChangesExactly(store: Store, space: Byte, address: nat, data: seq<Byte>, other: Byte, at: nat)
    requires WriteAccess(store, space, address, data, |data|).access.Done?
    ensures var after := WriteAccess(store, space, address, data, |data|).store;
            ByteAt(after, other, at)
            == if other == space && address <= at < address + |data| then Some(data[at - address])
               else ByteAt(store, other, at)
  {
    var i := Find(store, space).value;
    var s := store[i];
    FindKept(store, i, Patch(s.memory, address - s.low, data), other);
    FindIsOf(store, other);
  }

  /** Two spaces never share a segment. */
  lemma FindIsOf(store: Store, space: Byte)
    ensures Find(store, space).Some? ==> store[Find(store, space).value].space == space
  {
  }

  /** A read gives the bytes that are there. */
  lemma ReadGivesBytes(store: Store, space: Byte, address: nat, count: nat, k: nat)
    requires ReadAccess(store, space, address, count).access.Done? && k < count
    ensures |ReadAccess(store, space, address, count).data| == count
    ensures ByteAt(store, space, address + k) == Some(ReadAccess(store, space, address, count).data[k])
  {
  }

  /** A write followed by a read of the same bytes gives back what was written. */
  lemma WrittenIsRead(store: Store, space: Byte, address: nat, data: seq<Byte>)
    requires WriteAccess(store, space, address, data, |data|).access.Done?
    ensures var after := WriteAccess(store, space, address, data, |data|).store;
            ReadAccess(after, space, address, |data|) == ReadResult(Done, data)
  {
    var i := Find(store, space).value;
    var s := store[i];
    FindKept(store, i, Patch(s.memory, address - s.low, data), space);
  }

  /** Away from the end of the address space. */
  ghost predicate Low(store: Store, address: nat, count: nat)
  {
    address + count < WORD_LIMIT && forall i :: 0 <= i < |store| ==> store[i].high + 1 < WORD_LIMIT
  }

  ghost predicate AllThere(store: Store, space: Byte, address: nat, count: nat)
  {
    forall at: nat :: address <= at < address + count ==> ByteAt(store, space, at).Some?
  }

  /** A read is done exactly when every byte of it exists, and refused, not let through, otherwise. */
  lemma ReadDoneExactly(store: Store, space: Byte, address: nat, count: nat)
    requires Low(store, address, count) && count > 0
    ensures var access := ReadAccess(store, space, address, count).access;
            && (access.Done? <==> AllThere(store, space, address, count))
            && (access.Missing? <==> !HasSpace(store, space)) && !access.Outside?
  {
    BytesOfSpace(store, space);
    var found := Find(store, space);
    if found.Some? {
      CheckIsExact(store[found.value], address, count);
      if !ReadAccess(store, space, address, count).access.Done? {
        var at := if address < store[found.value].low then address else address + count - 1;
        assert ByteAt(store, space, at).None?;
      }
    } else {
      assert ByteAt(store, space, address).None?;
    }
  }

  predicate Writable(store: Store, space: Byte)
  {
    var found := Find(store, space);
    found.Some? && !store[found.value].readOnly
  }

  /** A write is done exactly when every byte of it exists and the segment may be written. */
  lemma WriteDoneExactly(store: Store, space: Byte, address: nat, data: seq<Byte>)
    requires Low(store, address, |data|) && data != []
    ensures var access := WriteAccess(store, space, address, data, |data|).access;
            && (access.Done? <==>
                  Writable(store, space) && AllThere(store, space, address, |data|))
            && (access.Missing? <==> !HasSpace(store, space)) && !access.Outside?
  {
    BytesOfSpace(store, space);
    ReadDoneExactly(store, space, address, |data|);
    if Find(store, space).None? {
      assert ByteAt(store, space, address).None?;
    } else {
      CheckIsExact(store[Find(store, space).value], address, |data|);
    }
  }

  // ---------------------------------------------------------------- the map itself

  /** A segment without its bytes. */
  datatype Range = Range(space: Byte, readOnly: bool, low: nat, high: nat)

  /** struct lcc_memory_map: the bytes are those of the application, which the map writes in place. */
  class Map {
    const ranges: seq<Range>
    const memory: seq<array<Byte>>

    ghost predicate Valid()
    {
      && |ranges| == |memory|
      && (forall i :: 0 <= i < |ranges| ==>
            ranges[i].low <= ranges[i].high < WORD_LIMIT
            && memory[i].Length == ranges[i].high - ranges[i].low + 1)
      && (forall i, j :: 0 <= i < j < |memory| ==> memory[i] != memory[j])
    }

    ghost function Contents(): (store: Store)
      requires Valid()
      reads memory
      ensures |store| == |ranges|
    {
      seq(|ranges|, i requires 0 <= i < |ranges| && Valid() reads memory =>
            Segment(ranges[i].space, ranges[i].readOnly, ranges[i].low, ranges[i].high, memory[i][..]))
    }

    constructor (ranges: seq<Range>, memory: seq<array<Byte>>)
      requires |ranges| == |memory|
      requires forall i :: 0 <= i < |ranges| ==>
                 ranges[i].low <= ranges[i].high < WORD_LIMIT
                 && memory[i].Length == ranges[i].high - ranges[i].low + 1
      requires forall i, j :: 0 <= i < j < |memory| ==> memory[i] != memory[j]
      ensures Valid() && this.ranges == ranges && this.memory == memory
    {
      this.ranges, this.memory := ranges, memory;
    }

    method FindSegment(space: Byte) returns (found: Option<nat>)
      requires Valid()
      ensures found == Find(Contents(), space)
    {
      ghost var store := Contents();
      var i := 0;
      while i < |ranges| && ranges[i].space != 0
        invariant i <= |ranges|
        invariant Find(store, space)
                  == var rest := Find(store[i..], space); if rest.Some? then Some(rest.value + i) else None
      {
        assert store[i..][1..] == store[i + 1..];
        if ranges[i].space == space {
          return Some(i);
        }
        i := i + 1;
      }
      found := None;
    }

    /** memory_map_read: what it finds there. */
    method ReadSegment(space: Byte, address: nat, count: nat) returns (access: Access, data: seq<Byte>)
      requires Valid() && address < WORD_LIMIT && count < 0x100
      ensures ReadResult(access, data) == ReadAccess(Contents(), space, address, count)
    {
      data := [];
      var found := FindSegment(space);
      if found.None? {
        return Missing, data;
      }
      var i := found.value;
      if address < ranges[i].low || (address + count) % WORD_LIMIT > (ranges[i].high + 1) % WORD_LIMIT {
        return Refused, data;
      }
      if address + count > ranges[i].high + 1 {
        return Outside, data;
      }
      access, data := Done, memory[i][address - ranges[i].low..address - ranges[i].low + count];
    }

    /** The memcpy of a write. */
    method CopyInto(i: nat, offset: nat, data: seq<Byte>)
      requires Valid() && i < |memory| && offset + |data| <= memory[i].Length
      modifies memory[i]
      ensures var s := old(Contents())[i];
              Contents() == old(Contents())[i := s.(memory := Patch(s.memory, offset, data))]
    {
      ghost var before := Contents();
      var bytes := memory[i];
      forall k | 0 <= k < |data| {
        bytes[offset + k] := data[k];
      }
      assert bytes[..] == Patch(before[i].memory, offset, data);
      assert forall k :: 0 <= k < |memory| && k != i ==> Contents()[k] == before[k];
    }

    /** memory_map_write.  The segment's own bytes change, and nothing else does. */
    method WriteSegment(space: Byte, address: nat, data: seq<Byte>, len: int) returns (access: Access)
      requires Valid() && address < WORD_LIMIT && (len >= 0 ==> |data| == len)
      modifies memory
      ensures WriteResult(access, Contents()) == WriteAccess(old(Contents()), space, address, data, len)
    {
      var found := FindSegment(space);
      if found.None? {
        return Missing;
      }
      var i := found.value;
      if ranges[i].readOnly {
        return Refused;
      }
      if address < ranges[i].low || (address + len) % WORD_LIMIT > (ranges[i].high + 1) % WORD_LIMIT {
        return Refused;
      }
      if len < 0 || address + len > ranges[i].high + 1 {
        return Outside;
      }
      CopyInto(i, address - ranges[i].low, data);
      access := Done;
    }
  }
}
