/**
 Alias negotiation (LCC/lcc.c), as a protocol between any number of nodes.

 Section 6.2.1 of the OpenLCB CAN Frame Transfer Standard: a node that wants an alias sends four CID
 frames, waits, and then claims the alias.  Whoever else is using the alias answers a CID with an RID,
 and a node that is not yet permitted gives up when it hears its own alias.
 */
module AliasNegotiation {
  import opened CanId

  const LAST_ALIAS := 0xFFE

  datatype AliasState = NotSet | SentCid | Fail | Good

  /** The part of struct lcc_context that takes part in the negotiation. */
  datatype NodeState = NodeState(uniqueId: nat, alias: nat, aliasState: AliasState, permitted: bool)

  datatype Status = Ok | TxError | UniqueIdNotSet | AliasAlreadySet | AliasFailure | TxNotEmpty

  predicate UsableAlias(alias: nat) { 1 <= alias <= LAST_ALIAS }

  // ---------------------------------------------------------------- what one node does

  /** The first alias is scrambled from the low bits of the unique ID; later ones count up. */
  function NextAlias(s: NodeState): nat
  {
    var candidate := if s.alias == 0 then (s.uniqueId % 0x1000 * 1103515245 + 12345) % 0x1_0000_0000 % 0x1000
                     else s.alias + 1;
    if candidate == 0xFFF || candidate == 0 then 1 else candidate
  }

  /** The 12 bits of the unique ID that the CID with the given number (7, 6, 5, 4) carries. */
  function CidPart(uniqueId: nat, number: nat): nat
    requires 4 <= number <= 7
  {
    (match number
     case 7 => uniqueId / 0x10_0000_0000
     case 6 => uniqueId / 0x100_0000
     case 5 => uniqueId / 0x1000
     case _ => uniqueId) % 0x1000
  }

  function CidFrame(s: NodeState, number: nat): Frame
    requires 4 <= number <= 7
  {
    Frame(ControlId(number * 0x1000 + CidPart(s.uniqueId, number), s.alias), [])
  }

  function CidFrames(s: NodeState): seq<Frame>
  {
    [CidFrame(s, 7), CidFrame(s, 6), CidFrame(s, 5), CidFrame(s, 4)]
  }

  lemma FirstOfFour(s: NodeState)
    ensures CidFrames(s)[..0] == [] && CidFrames(s)[..1] == [CidFrame(s, 7)]
    ensures CidFrames(s)[..2] == [CidFrame(s, 7)] + [CidFrame(s, 6)]
    ensures CidFrames(s)[..3] == [CidFrame(s, 7)] + [CidFrame(s, 6)] + [CidFrame(s, 5)]
    ensures CidFrames(s) == [CidFrame(s, 7)] + [CidFrame(s, 6)] + [CidFrame(s, 5)] + [CidFrame(s, 4)]
  {
  }

  predicate MayGenerate(s: NodeState) { s.uniqueId != 0 && s.aliasState != Good }

  /** Generating an alias when the bus takes only the first `written` CID frames. */
  function Generated(s: NodeState, written: nat): NodeState
  {
    if !MayGenerate(s) then s
    else s.(alias := NextAlias(s), aliasState := if written < 4 then s.aliasState else SentCid)
  }

  function GenerateSends(s: NodeState, written: nat): seq<Frame>
  {
    if !MayGenerate(s) then []
    else if written < 4 then CidFrames(Generated(s, written))[..written] else CidFrames(Generated(s, written))
  }

  /** What the library takes for a CID: only the frame number is looked at, not bit 27. */
  predicate LooksLikeCid(id: nat) { 4 <= FrameTypeOf(id) }

  function Collided(s: NodeState, f: Frame): NodeState
  {
    if AliasOf(f.id) == s.alias && !LooksLikeCid(f.id) && !s.permitted then s.(aliasState := Fail) else s
  }

  function CollisionSends(s: NodeState, f: Frame): seq<Frame>
  {
    if AliasOf(f.id) == s.alias && LooksLikeCid(f.id) then [Frame(ControlId(CONTROL_RID, s.alias), [])] else []
  }

  /** A probe of the own alias is denied, and any other use of it ends a negotiation; nothing else has an effect. */
  lemma CollisionExactly(s: NodeState, f: Frame)
    ensures var own, probe := f.id % 0x1000 == s.alias, f.id / 0x100_0000 % 8 >= 4;
            && CollisionSends(s, f) == (if own && probe then [Frame(0x1070_0000 + s.alias, [])] else [])
            && Collided(s, f) == if own && !probe && !s.permitted then s.(aliasState := Fail) else s
  {
  }

  function Claimed(s: NodeState): NodeState
  {
    if s.aliasState == SentCid then s.(aliasState := Good, permitted := true) else s
  }

  function ClaimSends(s: NodeState): seq<Frame>
  {
    if s.aliasState == SentCid then
      [Frame(ControlId(CONTROL_RID, s.alias), []),
       Frame(ControlId(CONTROL_AMD, s.alias), NodeIdBytes(s.uniqueId)),
       Frame(MessageId(1, MTI_INIT_COMPLETE, s.alias), NodeIdBytes(s.uniqueId))]
    else []
  }

  /** struct lcc_context, with the operations that take part in the negotiation. */
  class Context {
    var uniqueId: nat
    var alias: nat
    var aliasState: AliasState
    var permitted: bool

    ghost function State(): NodeState
      reads this
    {
      NodeState(uniqueId, alias, aliasState, permitted)
    }

    constructor (id: nat)
      ensures State() == NodeState(id % NODE_ID_LIMIT, 0, NotSet, false)
    {
      uniqueId, alias, aliasState, permitted := id % NODE_ID_LIMIT, 0, NotSet, false;
    }

    /** `room` is how many frames the write function accepts before it reports an error. */
    method GenerateAlias(room: nat) returns (status: Status, sent: seq<Frame>)
      modifies this
      ensures State() == Generated(old(State()), room)
      ensures sent == GenerateSends(old(State()), room)
      ensures status == if old(uniqueId) == 0 then UniqueIdNotSet
                        else if old(aliasState) == Good then AliasAlreadySet
                        else if room < 4 then TxError else Ok
    {
      hide CidPart;
      hide ControlId;
      sent := [];
      if uniqueId == 0 {
        return UniqueIdNotSet, sent;
      }
      if aliasState == Good {
        return AliasAlreadySet, sent;
      }
      if alias == 0 {
        alias := uniqueId % 0x1000;
        var scrambled := (alias * 1103515245 + 12345) % 0x1_0000_0000;
        alias := scrambled % 0x1000;
      } else {
        alias := alias + 1;
      }
      if alias == 0xFFF {
        alias := 1;
      }
      if alias == 0 {
        alias := alias + 1;
      }
      ghost var s := State();
      assert s == Generated(old(State()), 0);
      hide NextAlias;
      FirstOfFour(s);
      if room == 0 {
        return TxError, sent;
      }
      sent := [Frame(ControlId(0x7000 + CidPart(uniqueId, 7), alias), [])];
      if room == 1 {
        return TxError, sent;
      }
      sent := sent + [Frame(ControlId(0x6000 + CidPart(uniqueId, 6), alias), [])];
      if room == 2 {
        return TxError, sent;
      }
      sent := sent + [Frame(ControlId(0x5000 + CidPart(uniqueId, 5), alias), [])];
      if room == 3 {
        return TxError, sent;
      }
      sent := sent + [Frame(ControlId(0x4000 + CidPart(uniqueId, 4), alias), [])];
      aliasState := SentCid;
      status := Ok;
    }

    method CheckCollision(f: Frame) returns (sent: seq<Frame>)
      modifies this
      ensures State() == Collided(old(State()), f)
      ensures sent == CollisionSends(old(State()), f)
    {
      sent := [];
      var isCid := FrameTypeOf(f.id) <= 7 && FrameTypeOf(f.id) >= 4;
      if AliasOf(f.id) != alias {
        return;
      }
      if isCid {
        sent := [Frame(ControlId(CONTROL_RID, alias), [])];
        return;
      }
      if !isCid && !permitted {
        aliasState := Fail;
      }
    }

    method ClaimAlias(bufferEmpty: bool) returns (status: Status, sent: seq<Frame>)
      modifies this
      ensures status == if old(aliasState) != SentCid then AliasFailure
                        else if !bufferEmpty then TxNotEmpty else Ok
      ensures State() == if bufferEmpty then Claimed(old(State())) else old(State())
      ensures sent == if bufferEmpty then ClaimSends(old(State())) else []
    {
      sent := [];
      if aliasState != SentCid {
        return AliasFailure, sent;
      }
      if !bufferEmpty {
        return TxNotEmpty, sent;
      }
      aliasState := Good;
      permitted := true;
      sent := [Frame(ControlId(CONTROL_RID, alias), []),
               Frame(ControlId(CONTROL_AMD, alias), NodeIdBytes(uniqueId)),
               Frame(MessageId(1, MTI_INIT_COMPLETE, alias), NodeIdBytes(uniqueId))];
      status := Ok;
    }
  }

  /** Whatever the previous alias, the next one is usable: never 0, never 0xFFF. */
  lemma NextAliasUsable(s: NodeState)
    requires s.alias <= LAST_ALIAS
    ensures UsableAlias(NextAlias(s))
  {}

  /** The alias after k failed negotiations. */
  function AliasAfter(s: NodeState, k: nat): nat
  {
    if k == 0 then s.alias else NextAlias(s.(alias := AliasAfter(s, k - 1)))
  }

  /** A node that keeps failing tries every usable alias, in order, before it repeats one. */
  lemma {:induction false} RetriesVisitEveryAlias(s: NodeState, k: nat)
    requires UsableAlias(s.alias)
    ensures AliasAfter(s, k) == (s.alias - 1 + k) % LAST_ALIAS + 1
  {
    if k > 0 {
      RetriesVisitEveryAlias(s, k - 1);
    }
  }

  lemma CidFrameFields(s: NodeState, number: nat)
    requires 4 <= number <= 7 && s.alias < ALIAS_LIMIT
    ensures var id := CidFrame(s, number).id;
            FieldOf(id) == CidPart(s.uniqueId, number) && AliasOf(id) == s.alias
            && LooksLikeCid(id) && !IsMessage(id)
  {
    ControlIdFields(number * 0x1000 + CidPart(s.uniqueId, number), s.alias);
  }

  lemma UniqueIdFromParts(id: nat)
    requires id < NODE_ID_LIMIT
    ensures CidPart(id, 7) * 0x10_0000_0000 + CidPart(id, 6) * 0x100_0000
            + CidPart(id, 5) * 0x1000 + CidPart(id, 4) == id
  {
    var a := id / 0x1000;
    var b := a / 0x1000;
    assert id / 0x100_0000 == b;
    assert id / 0x10_0000_0000 == b / 0x1000;
  }

  /** The four CID frames together spell out the sender's whole unique ID, and all are taken for CIDs. */
  lemma CidFramesCarryUniqueId(s: NodeState)
    requires s.uniqueId < NODE_ID_LIMIT && s.alias < ALIAS_LIMIT
    ensures var f := CidFrames(s);
            && FieldOf(f[0].id) * 0x10_0000_0000 + FieldOf(f[1].id) * 0x100_0000
               + FieldOf(f[2].id) * 0x1000 + FieldOf(f[3].id) == s.uniqueId
            && forall i :: 0 <= i < 4 ==>
                 LooksLikeCid(f[i].id) && !IsMessage(f[i].id) && AliasOf(f[i].id) == s.alias
  {
    CidFrameFields(s, 7);
    CidFrameFields(s, 6);
    CidFrameFields(s, 5);
    CidFrameFields(s, 4);
    UniqueIdFromParts(s.uniqueId);
  }

  /** None of the frames that a claim or an answer sends is taken for a CID. */
  lemma AnswersAreNotCids(alias: nat)
    requires alias < ALIAS_LIMIT
    ensures !LooksLikeCid(ControlId(CONTROL_RID, alias)) && AliasOf(ControlId(CONTROL_RID, alias)) == alias
    ensures !LooksLikeCid(ControlId(CONTROL_AMD, alias)) && AliasOf(ControlId(CONTROL_AMD, alias)) == alias
    ensures var id := MessageId(1, MTI_INIT_COMPLETE, alias); !LooksLikeCid(id) && AliasOf(id) == alias
  {
    ControlIdFields(CONTROL_RID, alias);
    ControlIdFields(CONTROL_AMD, alias);
    MessageIdFields(1, MTI_INIT_COMPLETE, alias);
  }

  /** The two frames of a claim that announce the alias carry the whole unique ID, big end first. */
  lemma ClaimCarriesUniqueId(s: NodeState)
    requires s.uniqueId < NODE_ID_LIMIT && s.alias < ALIAS_LIMIT && s.aliasState == SentCid
    ensures var f := ClaimSends(s);
            && |f| == 3 && f[0].data == [] && !Announces(f[0])
            && forall i :: 1 <= i < 3 ==>
                 var data := f[i].data;
                 && Announces(f[i]) && AliasOf(f[i].id) == s.alias && |data| == 6
                 && data[0] as int * 0x100_0000_0000 + data[1] as int * 0x1_0000_0000 + data[2] as int * 0x100_0000
                    + data[3] as int * 0x1_0000 + data[4] as int * 0x100 + data[5] == s.uniqueId
  {
    NodeIdReadBack(s.uniqueId);
    ControlIdFields(CONTROL_RID, s.alias);
    ControlIdFields(CONTROL_AMD, s.alias);
    MessageIdFields(1, MTI_INIT_COMPLETE, s.alias);
  }

  /** An alias map definition, or Initialization Complete. */
  predicate Announces(f: Frame)
  {
    if IsMessage(f.id) then FrameTypeOf(f.id) == 1 && FieldOf(f.id) == 0x100
    else FrameTypeOf(f.id) == 0 && FieldOf(f.id) == 0x701
  }

  // ---------------------------------------------------------------- the network

  datatype Packet = Packet(sender: nat, frame: Frame)

  /** Every node, and for every node the frames that have been sent but have not reached it yet. */
  datatype Network = Network(nodes: seq<NodeState>, inbox: seq<seq<Packet>>)

  /**
   Deliver takes any undelivered frame, not only the oldest one, and each receiver is served on its own:
   a bus that keeps frames in order is one of the schedules.  Traffic is any frame a permitted node sends.
   */
  datatype Step =
    | Generate(n: nat, written: nat)
    | Deliver(n: nat, k: nat)
    | Claim(n: nat)
    | Traffic(n: nat, frame: Frame)

  function Packets(sender: nat, frames: seq<Frame>): seq<Packet>
  {
    seq(|frames|, i requires 0 <= i < |frames| => Packet(sender, frames[i]))
  }

  function Broadcast(inbox: seq<seq<Packet>>, sender: nat, frames: seq<Frame>): (r: seq<seq<Packet>>)
    ensures |r| == |inbox|
  {
    seq(|inbox|, i requires 0 <= i < |inbox| =>
      if i == sender then inbox[i] else inbox[i] + Packets(sender, frames))
  }

  function RemoveAt<T>(s: seq<T>, k: nat): seq<T>
    requires k < |s|
  {
    s[..k] + s[k + 1..]
  }

  ghost predicate WellFormed(net: Network)
  {
    |net.nodes| == |net.inbox|
  }

  /** A probe of n's current alias that m has not seen yet. */
  ghost predicate ProbePending(net: Network, n: nat, m: nat)
    requires WellFormed(net) && n < |net.nodes| && m < |net.nodes|
  {
    exists p :: p in net.inbox[m] && p.sender == n
                && LooksLikeCid(p.frame.id) && AliasOf(p.frame.id) == net.nodes[n].alias
  }

  /** A frame from m that will tell n that its current alias is taken. */
  ghost predicate DenialPending(net: Network, n: nat, m: nat)
    requires WellFormed(net) && n < |net.nodes| && m < |net.nodes|
  {
    exists p :: p in net.inbox[n] && p.sender == m
                && !LooksLikeCid(p.frame.id) && AliasOf(p.frame.id) == net.nodes[n].alias
  }

  /** What the wait of 200 ms is for: all probes have been heard and every answer has come back. */
  ghost predicate WaitIsOver(net: Network, n: nat)
    requires WellFormed(net) && n < |net.nodes|
  {
    forall m :: 0 <= m < |net.nodes| && m != n ==> !ProbePending(net, n, m) && !DenialPending(net, n, m)
  }

  /** A step names a node and a frame that exist, and only permitted nodes send traffic. */
  ghost predicate Possible(net: Network, step: Step)
    requires WellFormed(net)
  {
    step.n < |net.nodes| &&
    match step
    case Generate(n, written) => written <= 4
    case Deliver(n, k) => k < |net.inbox[n]|
    case Claim(n) => true
    case Traffic(n, f) => net.nodes[n].permitted && AliasOf(f.id) == net.nodes[n].alias
  }

  /**
   The two rules for the code that drives a node: to wait before claiming, and not to start over from
   SENT_CID with a write function that refuses even the first probe.
   */
  datatype Rules = Rules(waits: bool, probes: bool)

  const BOTH_RULES := Rules(true, true)

  ghost predicate Obeys(net: Network, step: Step, rules: Rules)
    requires WellFormed(net) && Possible(net, step)
  {
    match step
    case Claim(n) => rules.waits ==> WaitIsOver(net, n)
    case Generate(n, written) => rules.probes && written == 0 ==> net.nodes[n].aliasState != SentCid
    case _ => true
  }

  function Update(net: Network, n: nat, s: NodeState, sent: seq<Frame>): Network
    requires n < |net.nodes|
  {
    Network(net.nodes[n := s], Broadcast(net.inbox, n, sent))
  }

  ghost function Next(net: Network, step: Step): (r: Network)
    requires WellFormed(net) && Possible(net, step)
    ensures WellFormed(r) && |r.nodes| == |net.nodes|
  {
    var s := net.nodes[step.n];
    match step
    case Generate(n, written) => Update(net, n, Generated(s, written), GenerateSends(s, written))
    case Deliver(n, k) =>
      var f := net.inbox[n][k].frame;
      Update(net.(inbox := net.inbox[n := RemoveAt(net.inbox[n], k)]), n, Collided(s, f), CollisionSends(s, f))
    case Claim(n) => Update(net, n, Claimed(s), ClaimSends(s))
    case Traffic(n, f) => Update(net, n, s, [f])
  }

  ghost predicate Start(net: Network)
  {
    && WellFormed(net)
    && (forall i :: 0 <= i < |net.nodes| ==>
          net.nodes[i] == NodeState(net.nodes[i].uniqueId, 0, NotSet, false)
          && net.nodes[i].uniqueId < NODE_ID_LIMIT)
    && forall i :: 0 <= i < |net.inbox| ==> net.inbox[i] == []
  }

  /** A run of possible steps that obey the rules. */
  ghost predicate Run(net: Network, steps: seq<Step>, rules: Rules)
    requires WellFormed(net)
    decreases |steps|
  {
    steps == [] || (Possible(net, steps[0]) && Obeys(net, steps[0], rules)
                    && Run(Next(net, steps[0]), steps[1..], rules))
  }

  ghost function After(net: Network, steps: seq<Step>, rules: Rules): (r: Network)
    requires WellFormed(net) && Run(net, steps, rules)
    ensures WellFormed(r) && |r.nodes| == |net.nodes|
    decreases |steps|
  {
    if steps == [] then net else After(Next(net, steps[0]), steps[1..], rules)
  }

  // ---------------------------------------------------------------- safety

  ghost predicate InUse(s: NodeState) { s.aliasState == SentCid || s.aliasState == Good }

  /** n is still negotiating, and m's claim to the same alias has not reached it yet, or it m. */
  ghost predicate Contested(net: Network, n: nat, m: nat)
    requires WellFormed(net) && n < |net.nodes| && m < |net.nodes|
  {
    net.nodes[n].aliasState == SentCid && (ProbePending(net, n, m) || DenialPending(net, n, m))
  }

  ghost predicate NodeOk(s: NodeState)
  {
    && s.uniqueId < NODE_ID_LIMIT
    && s.alias <= LAST_ALIAS
    && (s.aliasState == NotSet || s.aliasState == Fail || UsableAlias(s.alias))
    && (s.permitted <==> s.aliasState == Good)
  }

  ghost predicate PairOk(net: Network, n: nat, m: nat)
    requires WellFormed(net) && n < |net.nodes| && m < |net.nodes|
  {
    net.nodes[n].alias == net.nodes[m].alias && InUse(net.nodes[n]) && InUse(net.nodes[m]) ==>
      Contested(net, n, m) || Contested(net, m, n)
  }

  ghost predicate Inv(net: Network)
  {
    && WellFormed(net)
    && (forall n :: 0 <= n < |net.nodes| ==> NodeOk(net.nodes[n]))
    && (forall n, m :: 0 <= n < |net.nodes| && 0 <= m < |net.nodes| && n != m ==> PairOk(net, n, m))
  }

  /** No two permitted nodes have the same alias, and every alias that has been chosen is usable. */
  ghost predicate AliasesUnique(net: Network)
  {
    && (forall n :: 0 <= n < |net.nodes| ==>
          (net.nodes[n].alias == 0 || UsableAlias(net.nodes[n].alias))
          && (net.nodes[n].permitted ==> UsableAlias(net.nodes[n].alias)))
    && (forall n, m :: 0 <= n < |net.nodes| && 0 <= m < |net.nodes| && n != m
                       && net.nodes[n].permitted && net.nodes[m].permitted ==>
          net.nodes[n].alias != net.nodes[m].alias)
  }

  lemma StartIsOk(net: Network)
    requires Start(net)
    ensures Inv(net)
  {}

  /** Broadcasting only adds packets, and only to the other nodes. */
  lemma BroadcastAdds(inbox: seq<seq<Packet>>, sender: nat, frames: seq<Frame>, r: nat)
    requires r < |inbox|
    ensures forall p :: p in inbox[r] ==> p in Broadcast(inbox, sender, frames)[r]
    ensures r != sender ==> forall f :: f in frames ==> Packet(sender, f) in Broadcast(inbox, sender, frames)[r]
  {
    if r != sender {
      forall f | f in frames
        ensures Packet(sender, f) in Broadcast(inbox, sender, frames)[r]
      {
        var i :| 0 <= i < |frames| && frames[i] == f;
        assert Packets(sender, frames)[i] == Packet(sender, f);
      }
    }
  }

  /** A contest survives anything that keeps the contender's state and loses no packet. */
  lemma ContestSurvives(net: Network, next: Network, n: nat, m: nat)
    requires WellFormed(net) && WellFormed(next) && |net.nodes| == |next.nodes|
    requires n < |net.nodes| && m < |net.nodes|
    requires Contested(net, n, m) && next.nodes[n] == net.nodes[n]
    requires forall r, p :: 0 <= r < |net.inbox| && p in net.inbox[r] ==> p in next.inbox[r]
    ensures Contested(next, n, m)
  {}

  lemma GenerateKeepsInv(net: Network, step: Step)
    requires Inv(net) && step.Generate? && Possible(net, step) && Obeys(net, step, BOTH_RULES)
    ensures Inv(Next(net, step))
  {
    var n, s := step.n, net.nodes[step.n];
    var sent := GenerateSends(s, step.written);
    var next := Next(net, step);
    forall r | 0 <= r < |net.inbox| ensures forall p :: p in net.inbox[r] ==> p in next.inbox[r] {
      BroadcastAdds(net.inbox, n, sent, r);
    }
    forall x, y | 0 <= x < |net.nodes| && 0 <= y < |net.nodes| && x != y
      ensures PairOk(next, x, y)
    {
      if x == n || y == n {
        var other := if x == n then y else x;
        if MayGenerate(s) && InUse(next.nodes[n]) {
          CidFrameFields(Generated(s, step.written), 7);
          assert sent[0] == CidFrame(Generated(s, step.written), 7);
          BroadcastAdds(net.inbox, n, sent, other);
          assert Packet(n, sent[0]) in next.inbox[other];
          assert ProbePending(next, n, other);
        } else if !MayGenerate(s) {
          KeepPair(net, next, x, y);
        }
      } else {
        KeepPair(net, next, x, y);
      }
    }
  }

  lemma KeepPair(net: Network, next: Network, x: nat, y: nat)
    requires WellFormed(net) && WellFormed(next) && |net.nodes| == |next.nodes|
    requires x < |net.nodes| && y < |net.nodes| && PairOk(net, x, y)
    requires next.nodes[x] == net.nodes[x] && next.nodes[y] == net.nodes[y]
    requires forall r, p :: 0 <= r < |net.inbox| && p in net.inbox[r] ==> p in next.inbox[r]
    ensures PairOk(next, x, y)
  {
    if Contested(net, x, y) {
      ContestSurvives(net, next, x, y);
    } else if Contested(net, y, x) {
      ContestSurvives(net, next, y, x);
    }
  }

  lemma TrafficKeepsInv(net: Network, step: Step)
    requires Inv(net) && step.Traffic? && Possible(net, step)
    ensures Inv(Next(net, step))
  {
    var next := Next(net, step);
    assert next.nodes == net.nodes;
    forall r | 0 <= r < |net.inbox| ensures forall p :: p in net.inbox[r] ==> p in next.inbox[r] {
      BroadcastAdds(net.inbox, step.n, [step.frame], r);
    }
    forall x, y | 0 <= x < |net.nodes| && 0 <= y < |net.nodes| && x != y
      ensures PairOk(next, x, y)
    {
      KeepPair(net, next, x, y);
    }
  }

  /** When the wait is over nobody can still contest on n's behalf, so it is the others who must give way. */
  lemma ClaimKeepsInv(net: Network, step: Step)
    requires Inv(net) && step.Claim? && Possible(net, step) && Obeys(net, step, BOTH_RULES)
    ensures Inv(Next(net, step))
  {
    var n, s := step.n, net.nodes[step.n];
    var next := Next(net, step);
    forall r | 0 <= r < |net.inbox| ensures forall p :: p in net.inbox[r] ==> p in next.inbox[r] {
      BroadcastAdds(net.inbox, n, ClaimSends(s), r);
    }
    forall x, y | 0 <= x < |net.nodes| && 0 <= y < |net.nodes| && x != y
      ensures PairOk(next, x, y)
    {
      assert PairOk(net, x, y);
      if (x == n || y == n) && s.aliasState == SentCid {
        var other := if x == n then y else x;
        assert !Contested(net, n, other);
        if Contested(net, other, n) {
          ContestSurvives(net, next, other, n);
        }
      } else {
        KeepPair(net, next, x, y);
      }
    }
  }

  /**
   Delivering a probe turns the contest it stood for into an answer on its way back; delivering a denial
   takes the contender out.  No other packet that a contest rests on is touched.
   */
  lemma DeliverKeepsPair(net: Network, step: Step, x: nat, y: nat)
    requires Inv(net) && step.Deliver? && Possible(net, step)
    requires x < |net.nodes| && y < |net.nodes| && x != y
    requires Contested(net, x, y) && InUse(net.nodes[y]) && net.nodes[x].alias == net.nodes[y].alias
    ensures var next := Next(net, step); InUse(next.nodes[x]) ==> Contested(next, x, y)
  {
    var n, k := step.n, step.k;
    var f := net.inbox[n][k];
    var kept := net.inbox[n := RemoveAt(net.inbox[n], k)];
    var sent := CollisionSends(net.nodes[n], f.frame);
    var next := Next(net, step);
    assert next.inbox == Broadcast(kept, n, sent);
    BroadcastAdds(kept, n, sent, x);
    BroadcastAdds(kept, n, sent, y);
    assert forall p :: p in net.inbox[n] && p != f ==> p in kept[n];
    if ProbePending(net, x, y) {
      var p :| p in net.inbox[y] && p.sender == x
               && LooksLikeCid(p.frame.id) && AliasOf(p.frame.id) == net.nodes[x].alias;
      if n == y && p == f {
        AnswersAreNotCids(net.nodes[y].alias);
        assert Packet(y, sent[0]) in next.inbox[x];
        assert DenialPending(next, x, y);
      } else {
        assert p in next.inbox[y];
      }
    } else {
      var p :| p in net.inbox[x] && p.sender == y
               && !LooksLikeCid(p.frame.id) && AliasOf(p.frame.id) == net.nodes[x].alias;
      if n == x && p == f {
        assert next.nodes[x].aliasState == Fail;
      } else {
        assert p in next.inbox[x];
      }
    }
  }

  lemma DeliverKeepsInv(net: Network, step: Step)
    requires Inv(net) && step.Deliver? && Possible(net, step)
    ensures Inv(Next(net, step))
  {
    var next := Next(net, step);
    forall x, y | 0 <= x < |net.nodes| && 0 <= y < |net.nodes| && x != y
      ensures PairOk(next, x, y)
    {
      assert PairOk(net, x, y);
      if net.nodes[x].alias == net.nodes[y].alias && InUse(next.nodes[x]) && InUse(next.nodes[y]) {
        assert InUse(net.nodes[x]) && InUse(net.nodes[y]);
        if Contested(net, x, y) {
          DeliverKeepsPair(net, step, x, y);
        } else {
          DeliverKeepsPair(net, step, y, x);
        }
      }
    }
  }

  lemma StepKeepsInv(net: Network, step: Step)
    requires Inv(net) && Possible(net, step) && Obeys(net, step, BOTH_RULES)
    ensures Inv(Next(net, step))
  {
    match step
    case Generate(_, _) => GenerateKeepsInv(net, step);
    case Deliver(_, _) => DeliverKeepsInv(net, step);
    case Claim(_) => ClaimKeepsInv(net, step);
    case Traffic(_, _) => TrafficKeepsInv(net, step);
  }

  lemma {:induction false} RunKeepsInv(net: Network, steps: seq<Step>)
    requires Inv(net) && Run(net, steps, BOTH_RULES)
    ensures Inv(After(net, steps, BOTH_RULES))
    decreases |steps|
  {
    if steps != [] {
      StepKeepsInv(net, steps[0]);
      RunKeepsInv(Next(net, steps[0]), steps[1..]);
    }
  }

  /** The point of the protocol: in no reachable state do two permitted nodes share an alias. */
  lemma NoDuplicateAliases(net: Network, steps: seq<Step>)
    requires Start(net) && Run(net, steps, BOTH_RULES)
    ensures AliasesUnique(After(net, steps, BOTH_RULES))
  {
    StartIsOk(net);
    RunKeepsInv(net, steps);
    var end := After(net, steps, BOTH_RULES);
    forall n, m | 0 <= n < |end.nodes| && 0 <= m < |end.nodes| && n != m
                  && end.nodes[n].permitted && end.nodes[m].permitted
      ensures end.nodes[n].alias != end.nodes[m].alias
    {
      assert PairOk(end, n, m);
    }
  }

  // ---------------------------------------------------------------- announcements

  /** A frame that announces an alias names this node. */
  ghost predicate Names(f: Frame, s: NodeState)
  {
    |f.data| == 6 && NodeIdAt(f.data, 0) == s.uniqueId
  }

  /** Whoever announces an alias holds it, and names itself. */
  ghost predicate AnnouncementsTrue(net: Network)
    requires WellFormed(net)
  {
    forall r, p :: 0 <= r < |net.inbox| && p in net.inbox[r] ==>
      p.sender < |net.nodes|
      && (Announces(p.frame) ==>
            net.nodes[p.sender].permitted && AliasOf(p.frame.id) == net.nodes[p.sender].alias
            && Names(p.frame, net.nodes[p.sender]))
  }

  /** Apart from its claim, a node that announces its alias again does it truthfully. */
  ghost predicate Truthful(net: Network, step: Step)
    requires WellFormed(net) && Possible(net, step)
  {
    step.Traffic? && Announces(step.frame) ==> Names(step.frame, net.nodes[step.n])
  }

  ghost predicate AllTruthful(net: Network, steps: seq<Step>, rules: Rules)
    requires WellFormed(net) && Run(net, steps, rules)
    decreases |steps|
  {
    steps == [] || (Truthful(net, steps[0]) && AllTruthful(Next(net, steps[0]), steps[1..], rules))
  }

  lemma ProbesAnnounceNothing(s: NodeState, f: Frame)
    requires s.alias < ALIAS_LIMIT
    ensures f in CidFrames(s) ==> !Announces(f)
    ensures f in CollisionSends(s, f) ==> !Announces(f)
  {
    CidFrameFields(s, 7);
    CidFrameFields(s, 6);
    CidFrameFields(s, 5);
    CidFrameFields(s, 4);
    ControlIdFields(CONTROL_RID, s.alias);
  }

  /** What a step sends. */
  ghost function SentIn(net: Network, step: Step): seq<Frame>
    requires WellFormed(net) && Possible(net, step)
  {
    var s := net.nodes[step.n];
    match step
    case Generate(n, written) => GenerateSends(s, written)
    case Deliver(n, k) => CollisionSends(s, net.inbox[n][k].frame)
    case Claim(n) => ClaimSends(s)
    case Traffic(n, f) => [f]
  }

  lemma SentTruthfully(net: Network, step: Step, f: Frame)
    requires Inv(net) && Possible(net, step) && Truthful(net, step) && f in SentIn(net, step) && Announces(f)
    ensures var s := Next(net, step).nodes[step.n];
            s.permitted && AliasOf(f.id) == s.alias && Names(f, s)
  {
    var s := net.nodes[step.n];
    match step
    case Generate(n, written) =>
      NextAliasUsable(s);
      ProbesAnnounceNothing(Generated(s, written), f);
    case Deliver(n, k) =>
      ControlIdFields(CONTROL_RID, s.alias);
    case Claim(n) =>
      if s.aliasState == SentCid {
        ClaimCarriesUniqueId(s);
        var i :| 0 <= i < 3 && ClaimSends(s)[i] == f;
      }
    case Traffic(n, g) =>
  }

  /** A permitted node stays what it is. */
  lemma PermittedStays(net: Network, step: Step, n: nat)
    requires Inv(net) && Possible(net, step) && n < |net.nodes| && net.nodes[n].permitted
    ensures Next(net, step).nodes[n] == net.nodes[n]
  {
  }

  lemma StepKeepsAnnouncements(net: Network, step: Step)
    requires Inv(net) && AnnouncementsTrue(net) && Possible(net, step) && Truthful(net, step)
    ensures AnnouncementsTrue(Next(net, step))
  {
    hide Announces;
    hide Names;
    hide ClaimSends;
    hide CidFrames;
    hide GenerateSends;
    hide CollisionSends;
    var next := Next(net, step);
    forall r, p | 0 <= r < |next.inbox| && p in next.inbox[r]
      ensures p.sender < |next.nodes|
      ensures Announces(p.frame) ==>
                next.nodes[p.sender].permitted && AliasOf(p.frame.id) == next.nodes[p.sender].alias
                && Names(p.frame, next.nodes[p.sender])
    {
      if p in net.inbox[r] {
        if Announces(p.frame) {
          PermittedStays(net, step, p.sender);
        }
      } else {
        SentOrOld(net, step, r, p);
        if Announces(p.frame) {
          SentTruthfully(net, step, p.frame);
        }
      }
    }
  }

  /** A packet that was not under way before is one that the step sends. */
  lemma SentOrOld(net: Network, step: Step, r: nat, p: Packet)
    requires WellFormed(net) && Possible(net, step) && r < |net.inbox|
    requires p in Next(net, step).inbox[r] && p !in net.inbox[r]
    ensures p.sender == step.n && p.frame in SentIn(net, step)
  {
    hide Generated;
    hide GenerateSends;
    hide ClaimSends;
    hide CollisionSends;
    var sent := Packets(step.n, SentIn(net, step));
    assert p in sent;
    var i :| 0 <= i < |sent| && sent[i] == p;
    assert SentIn(net, step)[i] == p.frame;
  }

  lemma {:induction false} RunKeepsAnnouncements(net: Network, steps: seq<Step>)
    requires Inv(net) && AnnouncementsTrue(net) && Run(net, steps, BOTH_RULES) && AllTruthful(net, steps, BOTH_RULES)
    ensures AnnouncementsTrue(After(net, steps, BOTH_RULES))
    decreases |steps|
  {
    hide AnnouncementsTrue;
    hide Next;
    if steps != [] {
      StepKeepsInv(net, steps[0]);
      StepKeepsAnnouncements(net, steps[0]);
      RunKeepsAnnouncements(Next(net, steps[0]), steps[1..]);
    }
  }

  /**
   In every reachable network, each frame under way that announces an alias comes from a permitted node that has it, and
   names that node.  So no two of them give the same alias to different nodes.
   */
  lemma AnnouncementsNameTheHolder(net: Network, steps: seq<Step>)
    requires Start(net) && Run(net, steps, BOTH_RULES) && AllTruthful(net, steps, BOTH_RULES)
    ensures var end := After(net, steps, BOTH_RULES);
            forall r, p :: 0 <= r < |end.inbox| && p in end.inbox[r] && Announces(p.frame) ==>
              && p.sender < |end.nodes| && end.nodes[p.sender].permitted && |p.frame.data| == 6
              && AliasOf(p.frame.id) == end.nodes[p.sender].alias
              && NodeIdAt(p.frame.data, 0) == end.nodes[p.sender].uniqueId == net.nodes[p.sender].uniqueId
    ensures var end := After(net, steps, BOTH_RULES);
            forall r, p, r', p' :: 0 <= r < |end.inbox| && p in end.inbox[r] && Announces(p.frame)
                                   && 0 <= r' < |end.inbox| && p' in end.inbox[r'] && Announces(p'.frame)
                                   && AliasOf(p.frame.id) == AliasOf(p'.frame.id) ==>
              p.sender == p'.sender
  {
    StartIsOk(net);
    RunKeepsInv(net, steps);
    RunKeepsAnnouncements(net, steps);
    NoDuplicateAliases(net, steps);
    IdsStay(net, steps);
  }

  lemma {:induction false} IdsStay(net: Network, steps: seq<Step>)
    requires WellFormed(net) && Run(net, steps, BOTH_RULES)
    ensures var end := After(net, steps, BOTH_RULES);
            forall n :: 0 <= n < |net.nodes| ==> end.nodes[n].uniqueId == net.nodes[n].uniqueId
    decreases |steps|
  {
    if steps != [] {
      IdsStay(Next(net, steps[0]), steps[1..]);
    }
  }

  // ---------------------------------------------------------------- both rules are needed

  lemma {:induction false} RunExtends(net: Network, steps: seq<Step>, step: Step, rules: Rules)
    requires WellFormed(net) && Run(net, steps, rules)
    requires Possible(After(net, steps, rules), step) && Obeys(After(net, steps, rules), step, rules)
    ensures Run(net, steps + [step], rules)
    ensures After(net, steps + [step], rules) == Next(After(net, steps, rules), step)
    decreases |steps|
  {
    var all := steps + [step];
    if steps == [] {
      assert all[1..] == [];
    } else {
      assert all[1..] == steps[1..] + [step];
      RunExtends(Next(net, steps[0]), steps[1..], step, rules);
    }
  }

  lemma NothingSent(inbox: seq<seq<Packet>>, sender: nat)
    ensures Broadcast(inbox, sender, []) == inbox
  {
    var sent := Broadcast(inbox, sender, []);
    forall r | 0 <= r < |inbox| ensures sent[r] == inbox[r] {
      assert Packets(sender, []) == [];
    }
  }

  lemma BetweenTwo(x: seq<Packet>, y: seq<Packet>, frames: seq<Frame>)
    ensures Broadcast([x, y], 0, frames) == [x, y + Packets(0, frames)]
    ensures Broadcast([x, y], 1, frames) == [x + Packets(1, frames), y]
    ensures [] + Packets(0, frames) == Packets(0, frames) && [] + Packets(1, frames) == Packets(1, frames)
  {}

  /** One more step of a run that has reached `mid`. */
  lemma Extend(net: Network, steps: seq<Step>, mid: Network, step: Step, rules: Rules) returns (all: seq<Step>)
    requires WellFormed(net) && Run(net, steps, rules) && After(net, steps, rules) == mid
    requires Possible(mid, step) && Obeys(mid, step, rules)
    ensures Run(net, all, rules) && After(net, all, rules) == Next(mid, step)
  {
    RunExtends(net, steps, step, rules);
    all := steps + [step];
  }

  predicate Fresh(s: NodeState)
  {
    s.uniqueId < NODE_ID_LIMIT && s == NodeState(s.uniqueId, 0, NotSet, false)
  }

  /** One more step of a run, looking only at what it does to the node that takes it. */
  lemma ExtendNode(net: Network, steps: seq<Step>, mid: Network, step: Step, rules: Rules)
    returns (all: seq<Step>, next: Network)
    requires WellFormed(net) && Run(net, steps, rules) && After(net, steps, rules) == mid
    requires Possible(mid, step) && Obeys(mid, step, rules) && (step.Generate? || step.Claim?)
    ensures Run(net, all, rules) && After(net, all, rules) == next && WellFormed(next)
    ensures next.nodes == mid.nodes[step.n := if step.Claim? then Claimed(mid.nodes[step.n])
                                              else Generated(mid.nodes[step.n], step.written)]
  {
    all := Extend(net, steps, mid, step, rules);
    next := Next(mid, step);
  }

  /** The first alias depends only on the last 12 bits of the unique ID. */
  lemma AlikeIdsStartAlike(a: NodeState, b: NodeState)
    requires a.alias == 0 == b.alias && a.uniqueId % 0x1000 == b.uniqueId % 0x1000
    ensures NextAlias(a) == NextAlias(b)
  {}

  /** Two nodes that start from the same alias, as IDs that end alike make them, both get it if neither waits. */
  lemma WithoutWaitingAliasesCollide(a: NodeState, b: NodeState) returns (net: Network, steps: seq<Step>)
    requires Fresh(a) && Fresh(b) && a.uniqueId != 0 && b.uniqueId != 0
    requires NextAlias(a) == NextAlias(b)
    ensures Start(net) && net.nodes == [a, b] && Run(net, steps, Rules(false, true))
    ensures !AliasesUnique(After(net, steps, Rules(false, true)))
  {
    hide NextAlias;
    hide CidFrames;
    hide ClaimSends;
    hide WaitIsOver;
    hide Broadcast;
    var rules, mid := Rules(false, true), Network([a, b], [[], []]);
    net, steps := mid, [];
    steps, mid := ExtendNode(net, steps, mid, Generate(0, 4), rules);
    steps, mid := ExtendNode(net, steps, mid, Generate(1, 4), rules);
    steps, mid := ExtendNode(net, steps, mid, Claim(0), rules);
    steps, mid := ExtendNode(net, steps, mid, Claim(1), rules);
    assert mid.nodes[0].permitted && mid.nodes[1].permitted && mid.nodes[0].alias == mid.nodes[1].alias;
  }

  /** Delivering the k oldest frames of node n, none of which carries the alias that n has. */
  lemma {:induction false} DeliverForeign(net: Network, steps: seq<Step>, n: nat, k: nat, rules: Rules)
    returns (all: seq<Step>)
    requires WellFormed(net) && Run(net, steps, rules)
    requires var mid := After(net, steps, rules);
             n < |mid.nodes| && k <= |mid.inbox[n]|
             && forall i :: 0 <= i < k ==> AliasOf(mid.inbox[n][i].frame.id) != mid.nodes[n].alias
    ensures Run(net, all, rules)
    ensures var mid := After(net, steps, rules);
            After(net, all, rules) == Network(mid.nodes, mid.inbox[n := mid.inbox[n][k..]])
    decreases k
  {
    var mid := After(net, steps, rules);
    all := steps;
    if k == 0 {
      assert mid.inbox[n := mid.inbox[n][0..]] == mid.inbox;
    } else {
      var step := Deliver(n, 0);
      RunExtends(net, steps, step, rules);
      var next := Next(mid, step);
      assert RemoveAt(mid.inbox[n], 0) == mid.inbox[n][1..];
      assert next.nodes == mid.nodes;
      NothingSent(mid.inbox[n := mid.inbox[n][1..]], n);
      assert next.inbox == mid.inbox[n := mid.inbox[n][1..]];
      all := DeliverForeign(net, steps + [step], n, k - 1, rules);
      assert mid.inbox[n][1..][k - 1..] == mid.inbox[n][k..];
      assert next.inbox[n := next.inbox[n][k - 1..]] == mid.inbox[n := mid.inbox[n][k..]];
    }
  }

  lemma OtherNodeProbes(a: NodeState, b: NodeState) returns (steps: seq<Step>)
    requires Fresh(a) && Fresh(b) && b.uniqueId != 0
    ensures var net, rules := Network([a, b], [[], []]), Rules(true, false);
            Run(net, steps, rules) && After(net, steps, rules) == Network([a, Generated(b, 4)], [[], []])
  {
    hide NextAlias;
    var net, rules := Network([a, b], [[], []]), Rules(true, false);
    var b1 := Generated(b, 4);
    NextAliasUsable(b);
    steps := Extend(net, [], net, Generate(1, 4), rules);
    BetweenTwo([], [], CidFrames(b1));
    assert After(net, steps, rules) == Network([a, b1], [Packets(1, CidFrames(b1)), []]);
    CidFramesCarryUniqueId(b1);
    steps := DeliverForeign(net, steps, 0, 4, rules);
    assert Packets(1, CidFrames(b1))[4..] == [];
  }

  lemma OtherNodeClaims(a: NodeState, b: NodeState) returns (net: Network, steps: seq<Step>)
    requires Fresh(a) && Fresh(b) && b.uniqueId != 0
    ensures net == Network([a, b], [[], []]) && Run(net, steps, Rules(true, false))
    ensures After(net, steps, Rules(true, false)) == Network([a, Claimed(Generated(b, 4))], [[], []])
  {
    hide NextAlias;
    hide ClaimSends;
    hide CidFrames;
    hide Broadcast;
    hide Packets;
    var rules := Rules(true, false);
    net := Network([a, b], [[], []]);
    steps := OtherNodeProbes(a, b);
    var b1 := Generated(b, 4);
    NextAliasUsable(b);
    ClaimOfOther(a, b1);
    steps := Extend(net, steps, Network([a, b1], [[], []]), Claim(1), rules);
    ClaimIsForeign(a.alias, b1);
    steps := DeliverForeign(net, steps, 0, 3, rules);
  }

  /** The second of two nodes claims while nothing is under way. */
  lemma ClaimOfOther(a: NodeState, b: NodeState)
    requires a.uniqueId < NODE_ID_LIMIT && NodeOk(a) && NodeOk(b) && b.aliasState == SentCid
    ensures var net := Network([a, b], [[], []]);
            && WellFormed(net) && Possible(net, Claim(1)) && Obeys(net, Claim(1), Rules(true, false))
            && Next(net, Claim(1)) == Network([a, Claimed(b)], [Packets(1, ClaimSends(b)), []])
  {
    hide ClaimSends;
    BetweenTwo([], [], ClaimSends(b));
  }

  /** Its frames mean nothing to a node that has no alias. */
  lemma ClaimIsForeign(alias: nat, b: NodeState)
    requires NodeOk(b) && b.aliasState == SentCid && alias == 0
    ensures var sent := Packets(1, ClaimSends(b));
            && |sent| == 3 && sent[3..] == []
            && forall i :: 0 <= i < 3 ==> AliasOf(sent[i].frame.id) != alias
  {
    AnswersAreNotCids(b.alias);
  }

  /** With nobody else sending, a node that restarts has nothing under way about its new alias. */
  lemma RestartedWaitIsOver(a: NodeState, b: NodeState)
    requires NodeOk(a) && a.uniqueId != 0 && a.aliasState == SentCid && NextAlias(a) != a.alias
    ensures WaitIsOver(Network([Generated(a, 0), b], [[], Packets(0, CidFrames(a))]), 0)
  {
    hide NextAlias;
    CidFramesCarryUniqueId(a);
  }

  lemma ProbeAndRestart(net: Network, steps: seq<Step>, a: NodeState, b: NodeState) returns (all: seq<Step>)
    requires Fresh(a) && a.uniqueId != 0 && WellFormed(net) && Run(net, steps, Rules(true, false))
    requires After(net, steps, Rules(true, false)) == Network([a, b], [[], []])
    ensures Run(net, all, Rules(true, false))
    ensures var a1 := Generated(a, 4);
            After(net, all, Rules(true, false)) == Network([Generated(a1, 0), b], [[], Packets(0, CidFrames(a1))])
  {
    hide NextAlias;
    hide CidFrames;
    var rules, before := Rules(true, false), Network([a, b], [[], []]);
    var a1 := Generated(a, 4);
    all := Extend(net, steps, before, Generate(0, 4), rules);
    BetweenTwo([], [], CidFrames(a1));
    var probed := Network([a1, b], [[], Packets(0, CidFrames(a1))]);
    assert Next(before, Generate(0, 4)) == probed;
    all := Extend(net, all, probed, Generate(0, 0), rules);
    NothingSent(probed.inbox, 0);
    assert GenerateSends(a1, 0) == [];
  }

  /**
   A node in SENT_CID that starts over while its write function refuses the first probe moves on to the
   next alias but stays in SENT_CID, so it can claim an alias that it never asked about.
   */
  lemma WithoutProbingAliasesCollide() returns (net: Network, steps: seq<Step>)
    ensures Start(net) && Run(net, steps, Rules(true, false))
    ensures !AliasesUnique(After(net, steps, Rules(true, false)))
  {
    var a, b := NodeState(0x1000, 0, NotSet, false), NodeState(0x1B65, 0, NotSet, false);
    assert NextAlias(a) == 57 && NextAlias(b) == 58 == NextAlias(Generated(a, 4));
    net, steps := RestartCollides(a, b);
  }

  lemma RestartCollides(a: NodeState, b: NodeState) returns (net: Network, steps: seq<Step>)
    requires Fresh(a) && Fresh(b) && a.uniqueId != 0 && b.uniqueId != 0
    requires NextAlias(b) == NextAlias(Generated(a, 4)) != NextAlias(a)
    ensures Start(net) && Run(net, steps, Rules(true, false))
    ensures !AliasesUnique(After(net, steps, Rules(true, false)))
  {
    hide NextAlias;
    hide ClaimSends;
    hide WaitIsOver;
    hide Broadcast;
    hide CidFrames;
    hide Packets;
    net, steps := OtherNodeClaims(a, b);
    var b2, a1 := Claimed(Generated(b, 4)), Generated(a, 4);
    steps := ProbeAndRestart(net, steps, a, b2);
    NextAliasUsable(a);
    RestartedWaitIsOver(a1, b2);
    var mid := Network([Generated(a1, 0), b2], [[], Packets(0, CidFrames(a1))]);
    steps, mid := ExtendNode(net, steps, mid, Claim(0), Rules(true, false));
    assert mid.nodes[0].permitted && mid.nodes[1].permitted && mid.nodes[0].alias == mid.nodes[1].alias;
  }
}
