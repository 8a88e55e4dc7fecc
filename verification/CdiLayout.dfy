/**
 The CDI layout compiler (GUI/lcc/cdi/cdilayout.cpp, cdivariant.cpp): from the tree of values and groups in
 a configuration description to the address of every value in the node's memory.
 */
module CdiLayout {

  import opened Basics

  /** An element of a segment or group.  The offset is what is skipped before the element. */
  datatype Variant =
    | IntField(offset: nat, storageSize: int)
    | StringField(offset: nat, maxLen: nat)
    | EventIdField(offset: nat)
    | Group(offset: nat, replication: int, name: string, elements: seq<Variant>)

  function Repetitions(v: Variant): nat
    requires v.Group?
  {
    if v.replication > 1 then v.replication else 1
  }

  /** The bytes an element takes, with all its replications but without its own offset. */
  function VariantSize(v: Variant): nat
    decreases v, 1
  {
    match v
    case IntField(_, size) => if size > 0 then size else 1
    case StringField(_, len) => len
    case EventIdField(_) => 8
    case Group(_, _, _, elements) => Repetitions(v) * SizeOf(elements)
  }

  /** The bytes that one repetition of the elements takes. */
  function SizeOf(elements: seq<Variant>): nat
    decreases elements, 0
  {
    if elements == [] then 0
    else elements[0].offset + VariantSize(elements[0]) + SizeOf(elements[1..])
  }

  datatype Field = Field(variant: Variant, space: nat, address: nat)

  datatype LayoutGroup = LayoutGroup(space: nat, address: nat, fields: seq<Field>, children: seq<LayoutGroup>)
  {
    /** Adding what the elements from the i-th on give, at the given address, completes the layout. */
    ghost predicate Reached(parent: LayoutGroup, elements: seq<Variant>, start: nat, i: nat, address: nat)
      requires i <= |elements|
    {
      && space == parent.space && this.address == parent.address
      && fields + FieldsOf(elements[i..], space, address) == parent.fields + FieldsOf(elements, space, start)
      && children + ChildrenOf(elements[i..], space, address) == parent.children + ChildrenOf(elements, space, start)
    }
  }

  datatype Segment = Segment(space: nat, origin: nat, elements: seq<Variant>)

  /** A bare group that is only there to pad storage. */
  predicate IsPadding(v: Variant)
    requires v.Group?
  {
    Repetitions(v) == 1 && v.name == "" && v.elements == []
  }

  // ---------------------------------------------------------------- what the layout is

  function FieldsOf(elements: seq<Variant>, space: nat, address: nat): seq<Field>
    decreases elements
  {
    if elements == [] then []
    else
      var v := elements[0];
      var at := address + v.offset;
      (if v.Group? then [] else [Field(v, space, at)])
      + FieldsOf(elements[1..], space, at + VariantSize(v))
  }

  function ChildrenOf(elements: seq<Variant>, space: nat, address: nat): seq<LayoutGroup>
    decreases elements, 0, 0
  {
    if elements == [] then []
    else
      var v := elements[0];
      var at := address + v.offset;
      (if v.Group? && !IsPadding(v) then Replicas(v, space, at, Repetitions(v)) else [])
      + ChildrenOf(elements[1..], space, at + VariantSize(v))
  }

  /** The first n replicas of a group that starts at the given address. */
  function Replicas(v: Variant, space: nat, address: nat, n: nat): (r: seq<LayoutGroup>)
    requires v.Group?
    ensures |r| == n
    decreases v, 1, n
  {
    if n == 0 then []
    else Replicas(v, space, address, n - 1)
         + [Laid(v.elements, space, address + (n - 1) * SizeOf(v.elements))]
  }

  function Laid(elements: seq<Variant>, space: nat, address: nat): LayoutGroup
    decreases elements, 1, 0
  {
    LayoutGroup(space, address, FieldsOf(elements, space, address), ChildrenOf(elements, space, address))
  }

  // ---------------------------------------------------------------- how the code computes it

  method CdiVariantSize(v: Variant) returns (size: nat)
    ensures size == VariantSize(v)
    decreases v, 1
  {
    match v
    case IntField(_, storage) => size := if storage > 0 then storage else 1;
    case StringField(_, len) => size := len;
    case EventIdField(_) => size := 8;
    case Group(_, replication, _, elements) =>
      var repetitions := if replication > 1 then replication else 1;
      var one := CdiElementsSize(elements);
      size := repetitions * one;
  }

  method CdiElementsSize(elements: seq<Variant>) returns (size: nat)
    ensures size == SizeOf(elements)
    decreases elements, 0
  {
    size := 0;
    for i := 0 to |elements|
      invariant size + SizeOf(elements[i..]) == SizeOf(elements)
    {
      assert elements[i..][0] == elements[i] && elements[i..][1..] == elements[i + 1..];
      var s := CdiVariantSize(elements[i]);
      size := size + elements[i].offset + s;
    }
  }

  /** Addresses are 32 bits wide. */
  function Wrap(address: nat): nat { address % WORD_LIMIT }

  /** The group with what one element at the given address adds to it. */
  ghost function WithElement(g: LayoutGroup, v: Variant, at: nat): LayoutGroup
  {
    if !v.Group? then g.(fields := g.fields + [Field(v, g.space, at)])
    else if IsPadding(v) then g
    else g.(children := g.children + Replicas(v, g.space, at, Repetitions(v)))
  }

  lemma ReachedStart(parent: LayoutGroup, elements: seq<Variant>, start: nat)
    ensures elements[0..] == elements && parent.Reached(parent, elements, start, 0, start)
  {
    assert elements[0..] == elements;
  }

  lemma ReachedEnd(g: LayoutGroup, parent: LayoutGroup, elements: seq<Variant>, start: nat, address: nat)
    requires g.Reached(parent, elements, start, |elements|, address)
    ensures g == parent.(fields := parent.fields + FieldsOf(elements, parent.space, start),
                         children := parent.children + ChildrenOf(elements, parent.space, start))
  {
    assert elements[|elements|..] == [];
    assert g.fields == g.fields + FieldsOf([], g.space, address);
    assert g.children == g.children + ChildrenOf([], g.space, address);
  }

  lemma ReachedNext(g: LayoutGroup, parent: LayoutGroup, elements: seq<Variant>, start: nat, i: nat, address: nat)
    requires i < |elements| && g.Reached(parent, elements, start, i, address)
    ensures var v, at := elements[i], address + elements[i].offset;
            && SizeOf(elements[i..]) == v.offset + VariantSize(v) + SizeOf(elements[i + 1..])
            && WithElement(g, v, at).Reached(parent, elements, start, i + 1, at + VariantSize(v))
  {
    hide VariantSize;
    hide Replicas;
    var v, at := elements[i], address + elements[i].offset;
    var left := elements[i..];
    assert left[0] == v && left[1..] == elements[i + 1..];
    var fields := FieldsOf(left[1..], g.space, at + VariantSize(v));
    var children := ChildrenOf(left[1..], g.space, at + VariantSize(v));
    if !v.Group? {
      assert g.fields + ([Field(v, g.space, at)] + fields) == g.fields + [Field(v, g.space, at)] + fields;
      assert [] + children == children;
    } else if IsPadding(v) {
      assert [] + fields == fields && [] + children == children;
    } else {
      var reps := Replicas(v, g.space, at, Repetitions(v));
      assert [] + fields == fields;
      assert g.children + (reps + children) == g.children + reps + children;
    }
  }

  method LayoutElements(parent: LayoutGroup, elements: seq<Variant>, start: nat) returns (result: LayoutGroup)
    requires start + SizeOf(elements) < WORD_LIMIT
    ensures result == parent.(fields := parent.fields + FieldsOf(elements, parent.space, start),
                              children := parent.children + ChildrenOf(elements, parent.space, start))
    decreases elements
  {
    hide LayoutGroup.Reached;
    hide SizeOf;
    hide VariantSize;
    hide FieldsOf;
    hide ChildrenOf;
    hide Replicas;
    result := parent;
    var address: nat := start;
    ReachedStart(parent, elements, start);
    for i := 0 to |elements|
      invariant address + SizeOf(elements[i..]) == start + SizeOf(elements)
      invariant result.space == parent.space
      invariant result.Reached(parent, elements, start, i, address)
    {
      ReachedNext(result, parent, elements, start, i, address);
      var v := elements[i];
      address := Wrap(address + v.offset);
      var elementAddress := address;
      var size := CdiVariantSize(v);
      address := Wrap(address + size);
      if !v.Group? {
        result := result.(fields := result.fields + [Field(v, parent.space, elementAddress)]);
      } else if !IsPadding(v) {
        result := LayoutReplicas(result, v, elementAddress);
      }
    }
    ReachedEnd(result, parent, elements, start, address);
  }

  /** The inner loop: one child for every repetition of a group. */
  method LayoutReplicas(parent: LayoutGroup, v: Variant, elementAddress: nat) returns (result: LayoutGroup)
    requires v.Group? && elementAddress + VariantSize(v) < WORD_LIMIT
    ensures result == parent.(children := parent.children + Replicas(v, parent.space, elementAddress, Repetitions(v)))
    decreases v
  {
    result := parent;
    var repetitionSize := CdiElementsSize(v.elements);
    for rep := 1 to Repetitions(v) + 1
      invariant result == parent.(children := parent.children + Replicas(v, parent.space, elementAddress, rep - 1))
    {
      ReplicaFits(v, rep);
      var childAddress := Wrap(elementAddress + (rep - 1) * repetitionSize);
      var child := LayoutElements(LayoutGroup(parent.space, childAddress, [], []), v.elements, childAddress);
      assert child == Laid(v.elements, parent.space, childAddress);
      result := result.(children := result.children + [child]);
    }
  }

  lemma ReplicaFits(v: Variant, rep: nat)
    requires v.Group? && 1 <= rep <= Repetitions(v)
    ensures (rep - 1) * SizeOf(v.elements) + SizeOf(v.elements) <= VariantSize(v)
  {
    var n, s := Repetitions(v), SizeOf(v.elements);
    assert (rep - 1) * s + s == rep * s;
    assert rep * s <= n * s;
  }

  method CdiLayoutOf(segments: seq<Segment>) returns (groups: seq<LayoutGroup>)
    requires forall s :: s in segments ==> s.origin + SizeOf(s.elements) < WORD_LIMIT
    ensures |groups| == |segments|
    ensures forall i :: 0 <= i < |segments| ==>
              groups[i] == Laid(segments[i].elements, segments[i].space, segments[i].origin)
  {
    groups := [];
    for i := 0 to |segments|
      invariant |groups| == i
      invariant forall k :: 0 <= k < i ==>
                  groups[k] == Laid(segments[k].elements, segments[k].space, segments[k].origin)
    {
      var s := segments[i];
      var group := LayoutElements(LayoutGroup(s.space, s.origin, [], []), s.elements, s.origin);
      groups := groups + [group];
    }
  }

  // ---------------------------------------------------------------- the flat reading of a description

  /** A description with all groups written out is a list of gaps and values. */
  datatype Item = Skip(bytes: nat) | Value(variant: Variant)

  function ItemSize(item: Item): nat
  {
    match item
    case Skip(n) => n
    case Value(v) => VariantSize(v)
  }

  function Unroll(elements: seq<Variant>): seq<Item>
    decreases elements, 0
  {
    if elements == [] then []
    else
      var v := elements[0];
      [Skip(v.offset)] + UnrollOne(v) + Unroll(elements[1..])
  }

  function UnrollOne(v: Variant): seq<Item>
    decreases v, 1
  {
    if v.Group? then Repeat(Unroll(v.elements), Repetitions(v)) else [Value(v)]
  }

  function Repeat(items: seq<Item>, n: nat): seq<Item>
  {
    if n == 0 then [] else Repeat(items, n - 1) + items
  }

  function TotalSize(items: seq<Item>): nat
  {
    if items == [] then 0 else ItemSize(items[0]) + TotalSize(items[1..])
  }

  /** One value after another, from the given address on. */
  function Place(items: seq<Item>, space: nat, address: nat): seq<Field>
  {
    if items == [] then []
    else
      (if items[0].Skip? then [] else [Field(items[0].variant, space, address)])
      + Place(items[1..], space, address + ItemSize(items[0]))
  }

  lemma {:induction false} PlaceAppend(a: seq<Item>, b: seq<Item>, space: nat, address: nat)
    ensures TotalSize(a + b) == TotalSize(a) + TotalSize(b)
    ensures Place(a + b, space, address) == Place(a, space, address) + Place(b, space, address + TotalSize(a))
    decreases |a|
  {
    if a == [] {
      assert a + b == b;
    } else {
      assert (a + b)[1..] == a[1..] + b;
      PlaceAppend(a[1..], b, space, address + ItemSize(a[0]));
    }
  }

  lemma OneMore(n: nat, size: nat)
    requires n > 0
    ensures (n - 1) * size + size == n * size
  {}

  lemma {:induction false} RepeatSize(items: seq<Item>, n: nat)
    ensures TotalSize(Repeat(items, n)) == n * TotalSize(items)
  {
    if n > 0 {
      hide TotalSize;
      PlaceAppend(Repeat(items, n - 1), items, 0, 0);
      RepeatSize(items, n - 1);
      OneMore(n, TotalSize(items));
    } else {
      assert Repeat(items, 0) == [];
    }
  }

  /** The size of a description is the size of its flat reading. */
  lemma {:induction false} UnrollSize(elements: seq<Variant>)
    ensures TotalSize(Unroll(elements)) == SizeOf(elements)
    decreases elements, 0
  {
    if elements != [] {
      var v := elements[0];
      UnrollOneSize(v);
      UnrollSize(elements[1..]);
      PlaceAppend([Skip(v.offset)] + UnrollOne(v), Unroll(elements[1..]), 0, 0);
      PlaceAppend([Skip(v.offset)], UnrollOne(v), 0, 0);
    }
  }

  lemma {:induction false} UnrollOneSize(v: Variant)
    ensures TotalSize(UnrollOne(v)) == VariantSize(v)
    decreases v, 1
  {
    if v.Group? {
      UnrollSize(v.elements);
      RepeatSize(Unroll(v.elements), Repetitions(v));
    }
  }

  // ---------------------------------------------------------------- the layout is the flat reading

  /** Every field of a group and of the groups in it. */
  function AllFields(g: LayoutGroup): seq<Field>
    decreases g, 0
  {
    g.fields + AllOf(g.children)
  }

  function AllOf(gs: seq<LayoutGroup>): seq<Field>
    decreases gs, 1
  {
    if gs == [] then [] else AllFields(gs[0]) + AllOf(gs[1..])
  }

  lemma {:induction false} AllOfAppend(a: seq<LayoutGroup>, b: seq<LayoutGroup>)
    ensures AllOf(a + b) == AllOf(a) + AllOf(b)
    decreases |a|
  {
    if a == [] {
      assert a + b == b;
    } else {
      assert (a + b)[1..] == a[1..] + b;
      AllOfAppend(a[1..], b);
    }
  }

  /**
   The sum of a weight over fields.  Two lists of fields with equal sums for every weight hold the same
   fields, each equally often: take the weight that is 1 for one field and 0 for all others.
   */
  function Sum(w: Field -> nat, fields: seq<Field>): nat
  {
    if fields == [] then 0 else w(fields[0]) + Sum(w, fields[1..])
  }

  lemma {:induction false} SumAppend(w: Field -> nat, a: seq<Field>, b: seq<Field>)
    ensures Sum(w, a + b) == Sum(w, a) + Sum(w, b)
    decreases |a|
  {
    if a == [] {
      assert a + b == b;
    } else {
      assert (a + b)[1..] == a[1..] + b;
      SumAppend(w, a[1..], b);
    }
  }

  /** What the direct fields and the fields of the children weigh together. */
  ghost function Weight(w: Field -> nat, elements: seq<Variant>, space: nat, address: nat): nat
  {
    Sum(w, FieldsOf(elements, space, address)) + Sum(w, AllOf(ChildrenOf(elements, space, address)))
  }

  lemma WeightOfLaid(w: Field -> nat, elements: seq<Variant>, space: nat, address: nat)
    ensures Sum(w, AllFields(Laid(elements, space, address))) == Weight(w, elements, space, address)
  {
    SumAppend(w, FieldsOf(elements, space, address), AllOf(ChildrenOf(elements, space, address)));
  }

  /** What one element weighs. */
  ghost function WeightOfOne(w: Field -> nat, v: Variant, space: nat, at: nat): nat
  {
    if !v.Group? then w(Field(v, space, at))
    else if IsPadding(v) then 0
    else Sum(w, AllOf(Replicas(v, space, at, Repetitions(v))))
  }

  lemma WeightOfFirst(w: Field -> nat, elements: seq<Variant>, space: nat, address: nat)
    requires elements != []
    ensures var v, at := elements[0], address + elements[0].offset;
            Weight(w, elements, space, address)
            == WeightOfOne(w, v, space, at) + Weight(w, elements[1..], space, at + VariantSize(v))
  {
    hide VariantSize;
    hide Replicas;
    var v, at := elements[0], address + elements[0].offset;
    var next := at + VariantSize(v);
    var fields, children := FieldsOf(elements[1..], space, next), ChildrenOf(elements[1..], space, next);
    if !v.Group? {
      assert FieldsOf(elements, space, address) == [Field(v, space, at)] + fields;
      assert ChildrenOf(elements, space, address) == children;
      SumAppend(w, [Field(v, space, at)], fields);
    } else {
      assert FieldsOf(elements, space, address) == fields;
      if IsPadding(v) {
        assert ChildrenOf(elements, space, address) == children;
      } else {
        var replicas := Replicas(v, space, at, Repetitions(v));
        AllOfAppend(replicas, children);
        SumAppend(w, AllOf(replicas), AllOf(children));
      }
    }
  }

  lemma WeightOfFlatFirst(w: Field -> nat, elements: seq<Variant>, space: nat, address: nat)
    requires elements != []
    ensures var v, at := elements[0], address + elements[0].offset;
            Sum(w, Place(Unroll(elements), space, address))
            == Sum(w, Place(UnrollOne(v), space, at)) + Sum(w, Place(Unroll(elements[1..]), space, at + VariantSize(v)))
  {
    hide WeightOfOne;
    hide AllFields;
    hide Sum;
    var v, at := elements[0], address + elements[0].offset;
    UnrollOneSize(v);
    var one, rest := UnrollOne(v), Unroll(elements[1..]);
    assert Unroll(elements) == [Skip(v.offset)] + (one + rest);
    hide UnrollOne;
    hide Unroll;
    hide VariantSize;
    assert ([Skip(v.offset)] + (one + rest))[1..] == one + rest;
    assert Place([Skip(v.offset)] + (one + rest), space, address) == Place(one + rest, space, at);
    PlaceAppend(one, rest, space, at);
    SumAppend(w, Place(one, space, at), Place(rest, space, at + VariantSize(v)));
  }

  lemma NothingIsFlatReading(w: Field -> nat, space: nat, address: nat)
    ensures Sum(w, AllFields(Laid([], space, address))) == 0 == Sum(w, Place(Unroll([]), space, address))
  {
    var none := Laid([], space, address);
    assert none.fields == [] && none.children == [];
    assert AllFields(none) == [] + AllOf([]);
  }

  lemma NoReplicas(w: Field -> nat, v: Variant, space: nat, at: nat)
    requires v.Group?
    ensures Sum(w, AllOf(Replicas(v, space, at, 0))) == 0 == Sum(w, Place(Repeat(Unroll(v.elements), 0), space, at))
  {
    assert Replicas(v, space, at, 0) == [] && Repeat(Unroll(v.elements), 0) == [];
  }

  lemma LastReplica(w: Field -> nat, v: Variant, space: nat, at: nat, n: nat)
    requires v.Group? && n > 0
    ensures Sum(w, AllOf(Replicas(v, space, at, n)))
            == Sum(w, AllOf(Replicas(v, space, at, n - 1)))
               + Sum(w, AllFields(Laid(v.elements, space, at + (n - 1) * SizeOf(v.elements))))
  {
    var child := Laid(v.elements, space, at + (n - 1) * SizeOf(v.elements));
    var before := Replicas(v, space, at, n - 1);
    assert Replicas(v, space, at, n) == before + [child];
    AllOfAppend(before, [child]);
    assert AllOf([child]) == AllFields(child) + AllOf([]) == AllFields(child);
    SumAppend(w, AllOf(before), AllFields(child));
  }

  lemma LastRepeat(w: Field -> nat, items: seq<Item>, space: nat, at: nat, n: nat)
    requires n > 0
    ensures Sum(w, Place(Repeat(items, n), space, at))
            == Sum(w, Place(Repeat(items, n - 1), space, at))
               + Sum(w, Place(items, space, at + (n - 1) * TotalSize(items)))
  {
    RepeatSize(items, n - 1);
    var before, last := Repeat(items, n - 1), at + (n - 1) * TotalSize(items);
    assert Repeat(items, n) == before + items;
    PlaceAppend(before, items, space, at);
    hide Place;
    hide TotalSize;
    hide Repeat;
    SumAppend(w, Place(before, space, at), Place(items, space, last));
  }

  /**
   The layout of any description, however deep and however often replicated, has the fields of the flat
   reading, at the addresses that they have there.
   */
  lemma {:induction false} LayoutIsFlatReading(w: Field -> nat, elements: seq<Variant>, space: nat, address: nat)
    ensures Sum(w, AllFields(Laid(elements, space, address))) == Sum(w, Place(Unroll(elements), space, address))
    decreases elements, 0, 0
  {
    hide *;
    if elements == [] {
      NothingIsFlatReading(w, space, address);
    } else {
      var v, at := elements[0], address + elements[0].offset;
      var next := at + VariantSize(v);
      WeightOfLaid(w, elements, space, address);
      WeightOfFirst(w, elements, space, address);
      OneIsFlatReading(w, v, space, at);
      WeightOfFlatFirst(w, elements, space, address);
      LayoutIsFlatReading(w, elements[1..], space, next);
      WeightOfLaid(w, elements[1..], space, next);
    }
  }

  lemma {:induction false} OneIsFlatReading(w: Field -> nat, v: Variant, space: nat, at: nat)
    ensures WeightOfOne(w, v, space, at) == Sum(w, Place(UnrollOne(v), space, at))
    decreases v, 1, 0
  {
    if v.Group? {
      ReplicasAreFlatReading(w, v, space, at, Repetitions(v));
    }
  }

  lemma {:induction false} ReplicasAreFlatReading(w: Field -> nat, v: Variant, space: nat, at: nat, n: nat)
    requires v.Group?
    ensures Sum(w, AllOf(Replicas(v, space, at, n))) == Sum(w, Place(Repeat(Unroll(v.elements), n), space, at))
    decreases v, 0, n
  {
    hide *;
    if n == 0 {
      NoReplicas(w, v, space, at);
    } else {
      ReplicasAreFlatReading(w, v, space, at, n - 1);
      LayoutIsFlatReading(w, v.elements, space, at + (n - 1) * SizeOf(v.elements));
      UnrollSize(v.elements);
      LastReplica(w, v, space, at, n);
      LastRepeat(w, Unroll(v.elements), space, at, n);
    }
  }

  // ---------------------------------------------------------------- soundness

  function FieldSize(f: Field): nat { VariantSize(f.variant) }

  predicate Covers(f: Field, x: nat) { f.address <= x < f.address + FieldSize(f) }

  predicate Inside(f: Field, lo: nat, hi: nat) { lo <= f.address && f.address + FieldSize(f) <= hi }

  ghost predicate Disjoint(f: Field, g: Field) { forall x: nat :: !(Covers(f, x) && Covers(g, x)) }

  function CoverCount(x: nat): Field -> nat { (f: Field) => if Covers(f, x) then 1 else 0 }

  function OutsideCount(lo: nat, hi: nat): Field -> nat { (f: Field) => if Inside(f, lo, hi) then 0 else 1 }

  /** In the flat reading every byte belongs to at most one value, and no byte outside to any. */
  lemma {:induction false} FlatCover(items: seq<Item>, space: nat, address: nat, x: nat)
    ensures Sum(CoverCount(x), Place(items, space, address))
            <= if address <= x < address + TotalSize(items) then 1 else 0
    decreases |items|
  {
    if items != [] {
      var next := address + ItemSize(items[0]);
      FlatCover(items[1..], space, next, x);
      var rest := Place(items[1..], space, next);
      if items[0].Skip? {
        assert Place(items, space, address) == rest;
      } else {
        SumAppend(CoverCount(x), [Field(items[0].variant, space, address)], rest);
      }
    }
  }

  lemma {:induction false} FlatInside(items: seq<Item>, space: nat, address: nat, lo: nat, hi: nat)
    requires lo <= address && address + TotalSize(items) <= hi
    ensures Sum(OutsideCount(lo, hi), Place(items, space, address)) == 0
    decreases |items|
  {
    if items != [] {
      var next := address + ItemSize(items[0]);
      FlatInside(items[1..], space, next, lo, hi);
      var rest := Place(items[1..], space, next);
      if items[0].Skip? {
        assert Place(items, space, address) == rest;
      } else {
        SumAppend(OutsideCount(lo, hi), [Field(items[0].variant, space, address)], rest);
      }
    }
  }

  lemma {:induction false} SumAtLeastOne(w: Field -> nat, fields: seq<Field>, i: nat)
    requires i < |fields|
    ensures w(fields[i]) <= Sum(w, fields)
    decreases i
  {
    if i > 0 {
      SumAtLeastOne(w, fields[1..], i - 1);
    }
  }

  lemma {:induction false} SumAtLeastTwo(w: Field -> nat, fields: seq<Field>, i: nat, j: nat)
    requires i < j < |fields|
    ensures w(fields[i]) + w(fields[j]) <= Sum(w, fields)
    decreases i
  {
    if i == 0 {
      SumAtLeastOne(w, fields[1..], j - 1);
    } else {
      SumAtLeastTwo(w, fields[1..], i - 1, j - 1);
    }
  }

  /** Every value lies inside its segment, and no two values share a byte. */
  lemma LayoutIsSound(elements: seq<Variant>, space: nat, address: nat)
    ensures var fields := AllFields(Laid(elements, space, address));
            && (forall i :: 0 <= i < |fields| ==> Inside(fields[i], address, address + SizeOf(elements)))
            && forall i, j :: 0 <= i < j < |fields| ==> Disjoint(fields[i], fields[j])
  {
    var fields, items := AllFields(Laid(elements, space, address)), Unroll(elements);
    var end := address + SizeOf(elements);
    UnrollSize(elements);
    forall i | 0 <= i < |fields|
      ensures Inside(fields[i], address, end)
    {
      LayoutIsFlatReading(OutsideCount(address, end), elements, space, address);
      FlatInside(items, space, address, address, end);
      SumAtLeastOne(OutsideCount(address, end), fields, i);
    }
    forall i, j, x: nat | 0 <= i < j < |fields|
      ensures !(Covers(fields[i], x) && Covers(fields[j], x))
    {
      LayoutIsFlatReading(CoverCount(x), elements, space, address);
      FlatCover(items, space, address, x);
      SumAtLeastTwo(CoverCount(x), fields, i, j);
    }
  }

  // ---------------------------------------------------------------- what that is for

  /** The node's memory from address 0 on, and a value in it. */
  function ReadField<T>(memory: seq<T>, f: Field): seq<T>
    requires f.address + FieldSize(f) <= |memory|
  {
    memory[f.address..f.address + FieldSize(f)]
  }

  function WriteField<T>(memory: seq<T>, f: Field, data: seq<T>): (r: seq<T>)
    requires f.address + FieldSize(f) <= |memory| && |data| == FieldSize(f)
    ensures |r| == |memory|
  {
    memory[..f.address] + data + memory[f.address + FieldSize(f)..]
  }

  /** Writing one value of a segment and reading any value of it: the others have not changed. */
  lemma WritesDoNotInterfere<T>(memory: seq<T>, elements: seq<Variant>, space: nat, address: nat,
                                i: nat, j: nat, data: seq<T>)
    requires address + SizeOf(elements) <= |memory|
    requires var fields := AllFields(Laid(elements, space, address));
             i < |fields| && j < |fields| && |data| == FieldSize(fields[i])
    ensures var fields := AllFields(Laid(elements, space, address));
            && fields[i].address + FieldSize(fields[i]) <= |memory|
            && fields[j].address + FieldSize(fields[j]) <= |memory|
            && ReadField(WriteField(memory, fields[i], data), fields[j])
               == if i == j then data else ReadField(memory, fields[j])
  {
    var fields := AllFields(Laid(elements, space, address));
    LayoutIsSound(elements, space, address);
    var f, g := fields[i], fields[j];
    assert Inside(f, address, address + SizeOf(elements)) && Inside(g, address, address + SizeOf(elements));
    if i != j {
      assert Disjoint(f, g) || Disjoint(g, f);
      ReadAfterDisjointWrite(memory, f, g, data);
    }
  }

  lemma ReadAfterDisjointWrite<T>(memory: seq<T>, f: Field, g: Field, data: seq<T>)
    requires f.address + FieldSize(f) <= |memory| && |data| == FieldSize(f)
    requires g.address + FieldSize(g) <= |memory| && (Disjoint(f, g) || Disjoint(g, f))
    ensures ReadField(WriteField(memory, f, data), g) == ReadField(memory, g)
  {
    hide VariantSize;
    var written := WriteField(memory, f, data);
    forall x | g.address <= x < g.address + FieldSize(g)
      ensures written[x] == memory[x]
    {
      assert Covers(g, x) && !Covers(f, x);
    }
  }

  // ---------------------------------------------------------------- sizes add up

  /** The bytes that are skipped, in all replications. */
  function Skipped(elements: seq<Variant>): nat
    decreases elements, 0
  {
    if elements == [] then 0
    else
      var v := elements[0];
      v.offset + (if v.Group? then Repetitions(v) * Skipped(v.elements) else 0) + Skipped(elements[1..])
  }

  function SizeWeight(): Field -> nat { (f: Field) => FieldSize(f) }

  function SkippedIn(items: seq<Item>): nat
  {
    if items == [] then 0 else (if items[0].Skip? then items[0].bytes else 0) + SkippedIn(items[1..])
  }

  lemma {:induction false} SkippedAppend(a: seq<Item>, b: seq<Item>)
    ensures SkippedIn(a + b) == SkippedIn(a) + SkippedIn(b)
    decreases |a|
  {
    if a == [] {
      assert a + b == b;
    } else {
      assert (a + b)[1..] == a[1..] + b;
      SkippedAppend(a[1..], b);
    }
  }

  lemma {:induction false} SkippedRepeat(items: seq<Item>, n: nat)
    ensures SkippedIn(Repeat(items, n)) == n * SkippedIn(items)
  {
    hide SkippedIn;
    if n == 0 {
      SkippedNothing();
    } else {
      SkippedAppend(Repeat(items, n - 1), items);
      SkippedRepeat(items, n - 1);
      OneMore(n, SkippedIn(items));
    }
  }

  lemma SkippedNothing()
    ensures SkippedIn([]) == 0
  {}

  lemma {:induction false} SkippedIsSkipped(elements: seq<Variant>)
    ensures SkippedIn(Unroll(elements)) == Skipped(elements)
    decreases elements
  {
    if elements != [] {
      var v := elements[0];
      if v.Group? {
        SkippedIsSkipped(v.elements);
        SkippedRepeat(Unroll(v.elements), Repetitions(v));
      }
      SkippedIsSkipped(elements[1..]);
      SkippedAppend([Skip(v.offset)] + UnrollOne(v), Unroll(elements[1..]));
      SkippedAppend([Skip(v.offset)], UnrollOne(v));
    }
  }

  lemma {:induction false} FlatConservation(items: seq<Item>, space: nat, address: nat)
    ensures Sum(SizeWeight(), Place(items, space, address)) + SkippedIn(items) == TotalSize(items)
    decreases |items|
  {
    hide VariantSize;
    if items != [] {
      var next := address + ItemSize(items[0]);
      FlatConservation(items[1..], space, next);
      var rest := Place(items[1..], space, next);
      if items[0].Skip? {
        assert Place(items, space, address) == rest;
      } else {
        SumAppend(SizeWeight(), [Field(items[0].variant, space, address)], rest);
      }
    }
  }

  /** The sizes of all fields and all skipped bytes add up to the size of the description. */
  lemma SizesAddUp(elements: seq<Variant>, space: nat, address: nat)
    ensures Sum(SizeWeight(), AllFields(Laid(elements, space, address))) + Skipped(elements) == SizeOf(elements)
  {
    LayoutIsFlatReading(SizeWeight(), elements, space, address);
    FlatConservation(Unroll(elements), space, address);
    SkippedIsSkipped(elements);
    UnrollSize(elements);
  }

  // ---------------------------------------------------------------- replicas

  function ShiftField(f: Field, d: nat): Field { f.(address := f.address + d) }

  function ShiftFields(fields: seq<Field>, d: nat): seq<Field>
  {
    if fields == [] then [] else [ShiftField(fields[0], d)] + ShiftFields(fields[1..], d)
  }

  function Shift(g: LayoutGroup, d: nat): LayoutGroup
    decreases g, 0
  {
    LayoutGroup(g.space, g.address + d, ShiftFields(g.fields, d), ShiftAll(g.children, d))
  }

  function ShiftAll(gs: seq<LayoutGroup>, d: nat): seq<LayoutGroup>
    decreases gs, 1
  {
    if gs == [] then [] else [Shift(gs[0], d)] + ShiftAll(gs[1..], d)
  }

  lemma {:induction false} ShiftAppend(a: seq<LayoutGroup>, b: seq<LayoutGroup>, d: nat)
    ensures ShiftAll(a + b, d) == ShiftAll(a, d) + ShiftAll(b, d)
    decreases |a|
  {
    if a == [] {
      assert a + b == b;
    } else {
      assert (a + b)[1..] == a[1..] + b;
      ShiftAppend(a[1..], b, d);
    }
  }

  lemma ShiftCons(f: Field, rest: seq<Field>, d: nat)
    ensures ShiftFields([f] + rest, d) == [ShiftField(f, d)] + ShiftFields(rest, d)
  {
    assert ([f] + rest)[1..] == rest;
  }

  lemma {:induction false} FieldsShift(elements: seq<Variant>, space: nat, address: nat, d: nat)
    ensures FieldsOf(elements, space, address + d) == ShiftFields(FieldsOf(elements, space, address), d)
    decreases |elements|
  {
    if elements != [] {
      var v := elements[0];
      var next := address + v.offset + VariantSize(v);
      FieldsShift(elements[1..], space, next, d);
      hide VariantSize;
      assert address + d + v.offset + VariantSize(v) == next + d;
      var rest := FieldsOf(elements[1..], space, next);
      if v.Group? {
        assert FieldsOf(elements, space, address) == rest;
        assert FieldsOf(elements, space, address + d) == FieldsOf(elements[1..], space, next + d);
      } else {
        var moved := FieldsOf(elements[1..], space, next + d);
        assert FieldsOf(elements, space, address) == [Field(v, space, address + v.offset)] + rest;
        assert FieldsOf(elements, space, address + d) == [Field(v, space, address + d + v.offset)] + moved;
        ShiftCons(Field(v, space, address + v.offset), rest, d);
        hide FieldsOf;
        hide ShiftFields;
      }
    }
  }

  lemma {:induction false} ChildrenShift(elements: seq<Variant>, space: nat, address: nat, d: nat)
    ensures ChildrenOf(elements, space, address + d) == ShiftAll(ChildrenOf(elements, space, address), d)
    decreases elements, 0, 0
  {
    if elements != [] {
      var v := elements[0];
      var at := address + v.offset;
      var next := at + VariantSize(v);
      ChildrenShift(elements[1..], space, next, d);
      var rest := ChildrenOf(elements[1..], space, next);
      assert address + d + v.offset == at + d && address + d + v.offset + VariantSize(v) == next + d;
      if v.Group? && !IsPadding(v) {
        ReplicasShift(v, space, at, Repetitions(v), d);
        hide VariantSize;
        hide Replicas;
        ShiftAppend(Replicas(v, space, at, Repetitions(v)), rest, d);
      } else {
        hide VariantSize;
        assert ChildrenOf(elements, space, address) == rest;
        assert ChildrenOf(elements, space, address + d) == ChildrenOf(elements[1..], space, next + d);
      }
    }
  }

  lemma {:induction false} ReplicasShift(v: Variant, space: nat, address: nat, n: nat, d: nat)
    requires v.Group?
    ensures Replicas(v, space, address + d, n) == ShiftAll(Replicas(v, space, address, n), d)
    decreases v, 1, n
  {
    if n > 0 {
      var at := address + (n - 1) * SizeOf(v.elements);
      ReplicasShift(v, space, address, n - 1, d);
      LaidShift(v.elements, space, at, d);
      ShiftAppend(Replicas(v, space, address, n - 1), [Laid(v.elements, space, at)], d);
      assert ShiftAll([Laid(v.elements, space, at)], d) == [Shift(Laid(v.elements, space, at), d)];
    }
  }

  /** Laying out the same elements further on moves everything in the layout, at every depth, by as much. */
  lemma {:induction false} LaidShift(elements: seq<Variant>, space: nat, address: nat, d: nat)
    ensures Laid(elements, space, address + d) == Shift(Laid(elements, space, address), d)
    decreases elements, 1, 0
  {
    FieldsShift(elements, space, address, d);
    ChildrenShift(elements, space, address, d);
  }

  /** Replica k of a group is its first replica, moved on by k - 1 repetitions. */
  lemma ReplicaIsShiftedFirst(v: Variant, space: nat, address: nat, n: nat, k: nat)
    requires v.Group? && 1 <= k <= n
    ensures Replicas(v, space, address, n)[k - 1]
            == Shift(Replicas(v, space, address, n)[0], (k - 1) * SizeOf(v.elements))
  {
    ReplicaAt(v, space, address, n, k);
    ReplicaAt(v, space, address, n, 1);
    LaidShift(v.elements, space, address, (k - 1) * SizeOf(v.elements));
  }

  lemma {:induction false} ReplicaAt(v: Variant, space: nat, address: nat, n: nat, k: nat)
    requires v.Group? && 1 <= k <= n
    ensures Replicas(v, space, address, n)[k - 1] == Laid(v.elements, space, address + (k - 1) * SizeOf(v.elements))
    decreases n
  {
    if k < n {
      ReplicaAt(v, space, address, n - 1, k);
    }
  }

  // ---------------------------------------------------------------- neighbours

  /** The field, or the groups, that an element gives. */
  function OwnField(v: Variant, space: nat, at: nat): seq<Field> { if v.Group? then [] else [Field(v, space, at)] }

  function OwnGroups(v: Variant, space: nat, at: nat): seq<LayoutGroup>
  {
    if v.Group? && !IsPadding(v) then Replicas(v, space, at, Repetitions(v)) else []
  }

  lemma FirstThenRest(v: Variant, rest: seq<Variant>, space: nat, address: nat)
    ensures var at := address + v.offset;
            && SizeOf([v] + rest) == v.offset + VariantSize(v) + SizeOf(rest)
            && FieldsOf([v] + rest, space, address)
               == OwnField(v, space, at) + FieldsOf(rest, space, at + VariantSize(v))
            && ChildrenOf([v] + rest, space, address)
               == OwnGroups(v, space, at) + ChildrenOf(rest, space, at + VariantSize(v))
  {
    hide *;
    var all := [v] + rest;
    assert all[0] == v && all[1..] == rest;
    SizeUnfolds(all);
    FieldsUnfold(all, space, address);
    ChildrenUnfold(all, space, address);
  }

  lemma SizeUnfolds(elements: seq<Variant>)
    requires elements != []
    ensures SizeOf(elements) == elements[0].offset + VariantSize(elements[0]) + SizeOf(elements[1..])
  {
    hide VariantSize;
  }

  lemma FieldsUnfold(elements: seq<Variant>, space: nat, address: nat)
    requires elements != []
    ensures var v, at := elements[0], address + elements[0].offset;
            FieldsOf(elements, space, address)
            == OwnField(v, space, at) + FieldsOf(elements[1..], space, at + VariantSize(v))
  {
    hide VariantSize;
  }

  lemma ChildrenUnfold(elements: seq<Variant>, space: nat, address: nat)
    requires elements != []
    ensures var v, at := elements[0], address + elements[0].offset;
            ChildrenOf(elements, space, address)
            == OwnGroups(v, space, at) + ChildrenOf(elements[1..], space, at + VariantSize(v))
  {
    hide VariantSize;
    hide Replicas;
    hide IsPadding;
    hide Repetitions;
  }

  lemma LaidNothing(space: nat, address: nat)
    ensures SizeOf([]) == 0 && FieldsOf([], space, address) == [] && ChildrenOf([], space, address) == []
  {
  }

  lemma {:induction false} LaidAppend(a: seq<Variant>, b: seq<Variant>, space: nat, address: nat)
    ensures SizeOf(a + b) == SizeOf(a) + SizeOf(b)
    ensures FieldsOf(a + b, space, address) == FieldsOf(a, space, address) + FieldsOf(b, space, address + SizeOf(a))
    ensures ChildrenOf(a + b, space, address)
            == ChildrenOf(a, space, address) + ChildrenOf(b, space, address + SizeOf(a))
    decreases |a|
  {
    hide *;
    if a == [] {
      assert a + b == b;
      LaidNothing(space, address);
    } else {
      var v, rest := a[0], a[1..];
      var next := address + v.offset + VariantSize(v);
      assert a == [v] + rest && a + b == [v] + (rest + b);
      FirstThenRest(v, rest, space, address);
      FirstThenRest(v, rest + b, space, address);
      LaidAppend(rest, b, space, next);
      AppendThree(OwnField(v, space, address + v.offset), FieldsOf(rest, space, next),
                  FieldsOf(b, space, address + SizeOf(a)));
      AppendThree(OwnGroups(v, space, address + v.offset), ChildrenOf(rest, space, next),
                  ChildrenOf(b, space, address + SizeOf(a)));
    }
  }

  lemma AppendThree<T>(a: seq<T>, b: seq<T>, c: seq<T>)
    ensures a + b + c == a + (b + c)
  {
  }

  /** Two neighbours: how far the second is from the first depends on the kind of the first and on nothing else. */
  lemma NeighboursAreApart(before: seq<Variant>, v: Variant, w: Variant, after: seq<Variant>, space: nat, address: nat)
    requires w.Group? ==> w.replication > 1 || w.name != "" || w.elements != []
    ensures var elements := before + [v, w] + after;
            var fields, children := FieldsOf(elements, space, address), ChildrenOf(elements, space, address);
            var i, j := |FieldsOf(before + [v], space, address)|, |ChildrenOf(before + [v], space, address)|;
            var first := address + SizeOf(before) + v.offset;
            var size := match v
              case IntField(_, storageSize) => if storageSize > 0 then storageSize else 1
              case StringField(_, maxLen) => maxLen
              case EventIdField(_) => 8
              case Group(_, replication, _, es) => (if replication > 1 then replication else 1) * SizeOf(es);
            && (!v.Group? ==> 0 < i <= |fields| && fields[i - 1] == Field(v, space, first))
            && (!w.Group? ==> i < |fields| && fields[i] == Field(w, space, first + size + w.offset))
            && (w.Group? ==> j < |children| && children[j].address == first + size + w.offset)
  {
    hide *;
    var start := address + SizeOf(before);
    var at := start + v.offset + VariantSize(v);
    assert before + [v, w] + after == (before + [v]) + ([w] + after);
    LaidAppend(before + [v], [w] + after, space, address);
    LaidAppend(before, [v], space, address);
    assert [v] == [v] + [];
    FirstThenRest(v, [], space, start);
    LaidNothing(space, at);
    FirstThenRest(w, after, space, at);
    OwnOnes(v, space, start + v.offset);
    OwnOnes(w, space, at + w.offset);
    SizeByKind(v);
  }

  /** A group is shown once for every repetition, but a bare one that is only there to pad storage is not shown. */
  lemma GroupIsShownExactly(v: Variant, space: nat, address: nat)
    ensures |ChildrenOf([v], space, address)|
            == if !v.Group? || (v.replication <= 1 && v.name == "" && v.elements == []) then 0
               else if v.replication > 1 then v.replication else 1
  {
    assert [v] == [v] + [];
    FirstThenRest(v, [], space, address);
    LaidNothing(space, address + v.offset + VariantSize(v));
  }

  lemma OwnOnes(v: Variant, space: nat, at: nat)
    ensures !v.Group? ==> OwnField(v, space, at) == [Field(v, space, at)]
    ensures v.Group? && (v.replication > 1 || v.name != "" || v.elements != []) ==>
              |OwnGroups(v, space, at)| > 0 && OwnGroups(v, space, at)[0].address == at
  {
    if v.Group? {
      ReplicaAt(v, space, at, Repetitions(v), 1);
    }
  }

  lemma SizeByKind(v: Variant)
    ensures VariantSize(v)
            == match v
               case IntField(_, storageSize) => if storageSize > 0 then storageSize else 1
               case StringField(_, maxLen) => maxLen
               case EventIdField(_) => 8
               case Group(_, replication, _, es) => (if replication > 1 then replication else 1) * SizeOf(es)
  {
  }

  // ---------------------------------------------------------------- groups inside groups

  /**
   The group fits in the bytes of its elements: its fields do, and every child is the layout of a group among them
   and fits in the bytes of that one's own elements, which lie inside those of its parent.
   */
  ghost predicate Contained(g: LayoutGroup, elements: seq<Variant>)
    decreases elements, 2
  {
    var end := g.address + SizeOf(elements);
    && (forall f :: f in g.fields ==> Inside(f, g.address, end))
    && forall c :: c in g.children ==> ChildInside(c, elements, g.address, end)
  }

  ghost predicate ChildInside(c: LayoutGroup, elements: seq<Variant>, lo: nat, hi: nat)
    decreases elements, 1
  {
    exists v :: v in elements && LaidInside(c, v, lo, hi)
  }

  ghost predicate LaidInside(c: LayoutGroup, v: Variant, lo: nat, hi: nat)
    decreases v, 0
  {
    && v.Group? && c == Laid(v.elements, c.space, c.address)
    && lo <= c.address && c.address + SizeOf(v.elements) <= hi && Contained(c, v.elements)
  }

  lemma {:induction false} FieldsInside(elements: seq<Variant>, space: nat, address: nat, lo: nat, hi: nat)
    requires lo <= address && address + SizeOf(elements) <= hi
    ensures forall f :: f in FieldsOf(elements, space, address) ==> Inside(f, lo, hi)
    decreases |elements|
  {
    if elements != [] {
      var v := elements[0];
      FieldsInside(elements[1..], space, address + v.offset + VariantSize(v), lo, hi);
      hide VariantSize;
    }
  }

  lemma {:induction false} ChildrenInside(elements: seq<Variant>, space: nat, address: nat, lo: nat, hi: nat)
    requires lo <= address && address + SizeOf(elements) <= hi
    ensures forall c :: c in ChildrenOf(elements, space, address) ==> ChildInside(c, elements, lo, hi)
    decreases elements, 0, 0
  {
    if elements != [] {
      var v, rest := elements[0], elements[1..];
      var at := address + v.offset;
      var last := ChildrenOf(rest, space, at + VariantSize(v));
      ChildrenInside(rest, space, at + VariantSize(v), lo, hi);
      if v.Group? {
        ReplicasInside(v, space, at, Repetitions(v), lo, hi);
      }
      hide VariantSize;
      hide Replicas;
      hide LaidInside;
      forall c | c in ChildrenOf(elements, space, address)
        ensures ChildInside(c, elements, lo, hi)
      {
        if c in last {
          var w :| w in rest && LaidInside(c, w, lo, hi);
          assert w in elements;
        } else {
          assert LaidInside(c, v, lo, hi);
        }
      }
    }
  }

  lemma {:induction false} ReplicasInside(v: Variant, space: nat, address: nat, n: nat, lo: nat, hi: nat)
    requires v.Group? && n <= Repetitions(v) && lo <= address && address + VariantSize(v) <= hi
    ensures forall c :: c in Replicas(v, space, address, n) ==> LaidInside(c, v, lo, hi)
    decreases v, 1, n
  {
    if n > 0 {
      var at := address + (n - 1) * SizeOf(v.elements);
      ReplicasInside(v, space, address, n - 1, lo, hi);
      GroupIsContained(v.elements, space, at);
      ReplicaFits(v, n);
      ReplicaInside(v, space, at, lo, hi);
      hide LaidInside;
      hide VariantSize;
      hide Contained;
      hide Laid;
    }
  }

  lemma ReplicaInside(v: Variant, space: nat, at: nat, lo: nat, hi: nat)
    requires v.Group? && Contained(Laid(v.elements, space, at), v.elements)
    requires lo <= at && at + SizeOf(v.elements) <= hi
    ensures LaidInside(Laid(v.elements, space, at), v, lo, hi)
  {
    hide Contained;
    hide SizeOf;
  }

  /** Every field lies inside its group, and every group inside its parent, at every depth. */
  lemma {:induction false} GroupIsContained(elements: seq<Variant>, space: nat, address: nat)
    ensures Contained(Laid(elements, space, address), elements)
    decreases elements, 1, 0
  {
    var end := address + SizeOf(elements);
    FieldsInside(elements, space, address, address, end);
    ChildrenInside(elements, space, address, address, end);
    hide SizeOf;
    hide FieldsOf;
    hide ChildrenOf;
    hide ChildInside;
  }
}
