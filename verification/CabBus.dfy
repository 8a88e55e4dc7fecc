/**
 Polling the cabs of an NCE cab bus (CabBusCommunications/CabBus.c): address 0 once in every round, and in between
 those of the addresses 3 to 63 that were seen lately, or whose turn it is to be tried again.
 */
module CabBus {
  import opened Basics

  const CABS := 64
  const NO_PING_TIMES := 30

  datatype Bus = Bus(current: nat, ping: nat, last: seq<nat>)

  ghost predicate BusOk(b: Bus)
  {
    && b.current < CABS && b.current != 1 && b.current != 2 && b.ping < WORD_LIMIT && |b.last| == CABS
    && forall a :: 0 <= a < CABS ==> b.last[a] < WORD_LIMIT
  }

  /** How many rounds ago a cab was last heard, in 32 bits. */
  function Age(ping: nat, last: nat): nat { (ping - last) % WORD_LIMIT }

  /** Whether an address is polled in a round.  One that was heard exactly 30 rounds ago is not. */
  predicate Polled(b: Bus, a: nat)
    requires a < |b.last|
  {
    Wanted(b.ping, b.last[a], a)
  }

  predicate Wanted(ping: nat, last: nat, a: nat)
  {
    var age := Age(ping, last);
    age < NO_PING_TIMES || (age > NO_PING_TIMES && (ping + a) % WORD_LIMIT % 4 == 0)
  }

  /** The next address to be polled, from a given one on; 64 for none. */
  function Search(b: Bus, a: nat): (r: nat)
    requires |b.last| == CABS && a <= CABS
    ensures a <= r <= CABS && (r < CABS ==> Polled(b, r))
    ensures forall k :: a <= k < r ==> !Polled(b, k)
    decreases CABS - a
  {
    if a == CABS || Polled(b, a) then a else Search(b, a + 1)
  }

  function After(current: nat): nat { if current < 2 then 3 else current + 1 }

  /** One poll: the next address, or address 0 in a new round. */
  function Step(b: Bus): (r: Bus)
    requires BusOk(b)
    ensures BusOk(r)
  {
    var next := Search(b, After(b.current));
    if next == CABS then b.(current := 0, ping := (b.ping + 1) % WORD_LIMIT) else b.(current := next)
  }

  function Answered(b: Bus): (r: Bus)
    requires BusOk(b)
    ensures BusOk(r)
  {
    b.(last := b.last[b.current := b.ping])
  }

  lemma StepExactly(b: Bus)
    requires BusOk(b)
    ensures var s := Step(b);
            if s.current == 0 then
              s == b.(current := 0, ping := (b.ping + 1) % WORD_LIMIT)
              && forall k :: After(b.current) <= k < CABS ==> !Polled(b, k)
            else
              s == b.(current := s.current) && After(b.current) <= s.current < CABS && Polled(b, s.current)
              && forall k :: After(b.current) <= k < s.current ==> !Polled(b, k)
  {
  }

  // ---------------------------------------------------------------- a round

  datatype Round = Round(addresses: seq<nat>, bus: Bus)

  /** The polls up to the next one of address 0, when these cabs answer. */
  function RunRound(b: Bus, answering: set<nat>): (r: Round)
    requires BusOk(b)
    ensures BusOk(r.bus)
    decreases CABS - b.current
  {
    var polled := Step(b);
    var heard := if polled.current in answering then Answered(polled) else polled;
    if polled.current == 0 then Round([], heard)
    else
      var rest := RunRound(heard, answering);
      Round([polled.current] + rest.addresses, rest.bus)
  }

  ghost predicate Ascending(s: seq<nat>)
  {
    forall i, j :: 0 <= i < j < |s| ==> s[i] < s[j]
  }

  /**
   The addresses of a round strictly increase, and are exactly the ones due at its start; only those that are
   polled and answer are marked as heard.
   */
  lemma {:induction false} RoundExactly(b: Bus, answering: set<nat>)
    requires BusOk(b)
    ensures var r := RunRound(b, answering);
            && Ascending(r.addresses)
            && (forall a: nat :: a in r.addresses <==> After(b.current) <= a < 64 && Polled(b, a))
            && r.bus.current == 0 && r.bus.ping == (b.ping + 1) % WORD_LIMIT
            && (forall a: nat :: 0 < a < CABS ==>
                  r.bus.last[a] == if a in r.addresses && a in answering then b.ping else b.last[a])
    decreases CABS - b.current
  {
    hide Wanted;
    hide Ascending;
    hide Step;
    StepExactly(b);
    var polled := Step(b);
    if polled.current != 0 {
      var heard := if polled.current in answering then Answered(polled) else polled;
      RoundExactly(heard, answering);
      var rest := RunRound(heard, answering).addresses;
      assert forall a: nat :: polled.current < a < CABS ==> Polled(heard, a) == Polled(b, a);
      assert forall a: nat :: a in [polled.current] + rest <==> a == polled.current || a in rest;
      AscendingInFront(polled.current, rest);
    } else {
      NothingAscends();
    }
  }

  lemma AscendingInFront(a: nat, s: seq<nat>)
    requires Ascending(s) && forall x :: x in s ==> a < x
    ensures Ascending([a] + s)
  {
    assert forall i :: 0 <= i < |s| ==> s[i] in s;
  }

  lemma NothingAscends()
    ensures Ascending([])
  {
  }

  // ---------------------------------------------------------------- many rounds

  function RunRounds(b: Bus, answering: seq<set<nat>>): (rounds: seq<Round>)
    requires BusOk(b)
    ensures |rounds| == |answering|
    decreases |answering|
  {
    if answering == [] then []
    else
      var first := RunRound(b, answering[0]);
      [first] + RunRounds(first.bus, answering[1..])
  }

  ghost predicate Silent(answering: seq<set<nat>>, a: nat)
  {
    forall i :: 0 <= i < |answering| ==> a !in answering[i]
  }

  /** A cab that does not answer: its age grows by one with every round, and decides when it is polled. */
  lemma {:induction false} SilentCab(b: Bus, answering: seq<set<nat>>, a: nat, k: nat)
    requires BusOk(b) && b.current == 0 && 3 <= a < CABS && k < |answering|
    requires Silent(answering, a) && Age(b.ping, b.last[a]) + k < WORD_LIMIT
    ensures a in RunRounds(b, answering)[k].addresses
            <==> Due(Age(b.ping, b.last[a]) + k, b.ping + k, a)
    decreases k
  {
    hide RunRound;
    hide Due;
    hide Age;
    hide Wanted;
    RoundFor(b, answering[0], a);
    var first := RunRound(b, answering[0]);
    if k == 0 {
      WantedIsDue(b.ping, b.last[a], a);
    } else {
      AgeGrows(b.ping, b.last[a]);
      assert forall i :: 0 <= i < |answering| - 1 ==> answering[1..][i] == answering[i + 1];
      assert Silent(answering[1..], a);
      SilentCab(first.bus, answering[1..], a, k - 1);
      assert RunRounds(b, answering)[k] == RunRounds(first.bus, answering[1..])[k - 1];
      NextRoundDue(Age(b.ping, b.last[a]) + k, b.ping, k, a);
    }
  }

  /** What a round means for one cab that does not answer. */
  lemma RoundFor(b: Bus, answering: set<nat>, a: nat)
    requires BusOk(b) && b.current == 0 && 3 <= a < CABS && a !in answering
    ensures var r := RunRound(b, answering);
            && (a in r.addresses <==> Wanted(b.ping, b.last[a], a))
            && BusOk(r.bus) && r.bus.current == 0 && r.bus.ping == (b.ping + 1) % WORD_LIMIT
            && r.bus.last[a] == b.last[a]
  {
    hide RunRound;
    hide Wanted;
    RoundExactly(b, answering);
  }

  lemma WantedIsDue(ping: nat, last: nat, a: nat)
    ensures Wanted(ping, last, a) <==> Due(Age(ping, last), ping, a)
  {
    WrapKeepsQuarter(ping + a);
  }

  lemma NextRoundDue(age: nat, ping: nat, k: nat, a: nat)
    requires ping < WORD_LIMIT && k > 0
    ensures Due(age, (ping + 1) % WORD_LIMIT + (k - 1), a) <==> Due(age, ping + k, a)
  {
    NextRoundQuarter(ping, k, a);
  }

  /** Polled at this age, in a round with this number, not reduced to 32 bits. */
  predicate Due(age: nat, ping: nat, a: nat)
  {
    age < NO_PING_TIMES || (age > NO_PING_TIMES && (ping + a) % 4 == 0)
  }

  lemma WrapKeepsQuarter(n: nat)
    ensures n % WORD_LIMIT % 4 == n % 4
  {
    var wraps, rest := n / WORD_LIMIT, n % WORD_LIMIT;
    assert n == WORD_LIMIT * wraps + rest == 4 * (0x4000_0000 * wraps) + rest;
    FoursDoNotMatter(0x4000_0000 * wraps, rest);
  }

  lemma FoursDoNotMatter(fours: nat, rest: nat)
    ensures (4 * fours + rest) % 4 == rest % 4
  {
  }

  lemma NextRoundQuarter(ping: nat, k: nat, a: nat)
    requires ping < WORD_LIMIT && k > 0
    ensures ((ping + 1) % WORD_LIMIT + (k - 1) + a) % 4 == (ping + k + a) % 4
  {
    if ping + 1 == WORD_LIMIT {
      assert (ping + 1) % WORD_LIMIT == 0;
      assert ping + k + a == 4 * 0x4000_0000 + (k - 1 + a);
    } else {
      assert (ping + 1) % WORD_LIMIT == ping + 1;
    }
  }

  lemma AgeGrows(ping: nat, last: nat)
    requires ping < WORD_LIMIT && last < WORD_LIMIT && Age(ping, last) + 1 < WORD_LIMIT
    ensures Age((ping + 1) % WORD_LIMIT, last) == Age(ping, last) + 1
  {
    var next := (ping + 1) % WORD_LIMIT;
    if ping >= last {
      assert Age(ping, last) == ping - last;
    } else {
      assert Age(ping, last) == ping - last + WORD_LIMIT;
    }
  }

  /** A cab that has been silent for more than 30 rounds is tried in exactly one of any four rounds. */
  lemma TriedOnceInFourRounds(b: Bus, answering: seq<set<nat>>, a: nat) returns (which: nat)
    requires BusOk(b) && b.current == 0 && 3 <= a < 64 && |answering| == 4 && Silent(answering, a)
    requires 30 < Age(b.ping, b.last[a]) < WORD_LIMIT - 4
    ensures forall i :: 0 <= i < 4 ==> (a in RunRounds(b, answering)[i].addresses <==> i == which)
  {
    hide RunRounds;
    hide Age;
    which := (4 - (b.ping + a) % 4) % 4;
    forall i | 0 <= i < 4
      ensures a in RunRounds(b, answering)[i].addresses <==> i == which
    {
      SilentCab(b, answering, a, i);
      OneOfFour(b.ping + a, i);
    }
  }

  lemma OneOfFour(n: nat, i: nat)
    requires i < 4
    ensures (n + i) % 4 == 0 <==> i == (4 - n % 4) % 4
  {
  }

  /** What a round means for a cab that is polled and answers. */
  lemma HeardInRound(b: Bus, answering: set<nat>, a: nat)
    requires BusOk(b) && b.current == 0 && 3 <= a < CABS && Polled(b, a) && a in answering
    ensures var next := RunRound(b, answering).bus;
            && BusOk(next) && |next.last| == CABS && next.current == 0 && next.ping == (b.ping + 1) % WORD_LIMIT
            && Age(next.ping, next.last[a]) == 1 && b.ping < WORD_LIMIT
  {
    hide RunRound;
    hide Wanted;
    RoundExactly(b, answering);
    AgeGrows(b.ping, b.ping);
  }

  /**
   From the round in which it answers for the last time, a cab is polled in every one of the next 29 rounds, not
   in the 30th, and from then on in every fourth.
   */
  lemma AfterTheLastAnswer(b: Bus, answering: seq<set<nat>>, a: nat, k: nat)
    requires BusOk(b) && b.current == 0 && 3 <= a < CABS && Polled(b, a)
    requires 0 < k < |answering| < WORD_LIMIT
    requires a in answering[0] && Silent(answering[1..], a)
    ensures a in RunRounds(b, answering)[k].addresses <==> Due(k, b.ping + k, a)
  {
    hide *;
    var next := RunRound(b, answering[0]).bus;
    HeardInRound(b, answering[0], a);
    LaterRound(b, answering, k);
    SilentCab(next, answering[1..], a, k - 1);
    NextRoundDue(k, b.ping, k, a);
  }

  lemma LaterRound(b: Bus, answering: seq<set<nat>>, k: nat)
    requires BusOk(b) && 0 < k < |answering|
    ensures RunRounds(b, answering)[k] == RunRounds(RunRound(b, answering[0]).bus, answering[1..])[k - 1]
  {
    hide RunRound;
  }

  // ---------------------------------------------------------------- struct cabbus_context

  class Context {
    var currentCabAddr: nat
    var pingNum: nat
    var lastPing: array<nat>
    var firstByte: bv8
    var secondByte: bv8
    var byteStatus: bv8

    ghost predicate Valid()
      reads this, lastPing
    {
      lastPing.Length == CABS && BusOk(Bus(currentCabAddr, pingNum, lastPing[..]))
      && byteStatus in {0, 1, 3}
    }

    ghost function State(): (b: Bus)
      reads this, lastPing
      ensures Valid() ==> BusOk(b)
    {
      Bus(currentCabAddr, pingNum, lastPing[..])
    }

    constructor ()
      ensures Valid() && fresh(lastPing)
      ensures State() == Bus(0, NO_PING_TIMES, seq(CABS, _ => 0)) && byteStatus == 0
    {
      lastPing := new nat[CABS](_ => 0);
      currentCabAddr, pingNum := 0, NO_PING_TIMES;
      firstByte, secondByte, byteStatus := 0, 0, 0;
      new;
      assert lastPing[..] == seq(CABS, _ => 0);
    }

    /** The search over the addresses.  It ends at 64 at the latest. */
    method NextPingAddress() returns (nextAddr: nat)
      requires Valid()
      modifies this`pingNum
      ensures Valid() && State().(current := nextAddr) == Step(old(State()))
    {
      nextAddr := currentCabAddr;
      var haveNextAddr := false;
      while !haveNextAddr
        invariant pingNum == old(pingNum) && nextAddr < CABS
        invariant !haveNextAddr ==> Search(old(State()), After(nextAddr)) == Search(old(State()), After(currentCabAddr))
        invariant haveNextAddr ==> nextAddr == Search(old(State()), After(currentCabAddr))
        decreases CABS - nextAddr, !haveNextAddr
      {
        nextAddr := nextAddr + 1;
        if nextAddr == 1 || nextAddr == 2 {
          nextAddr := 3;
        }
        if nextAddr == CABS {
          nextAddr := 0;
          pingNum := (pingNum + 1) % WORD_LIMIT;
          break;
        }
        var age := (pingNum - lastPing[nextAddr]) % WORD_LIMIT;
        if age > NO_PING_TIMES {
          if (pingNum + nextAddr) % WORD_LIMIT % 4 == 0 {
            haveNextAddr := true;
          }
        } else if age < NO_PING_TIMES {
          haveNextAddr := true;
        }
      }
    }

    /** The address goes out with the top bit set. */
    method PingStep1() returns (output: nat)
      requires Valid()
      modifies this`currentCabAddr, this`pingNum
      ensures Valid() && State() == Step(old(State())) && output == 0x80 + currentCabAddr
    {
      currentCabAddr := NextPingAddress();
      output := 0x80 + currentCabAddr;
    }

    /** A byte of an answer, from the interrupt. */
    method IncomingByte(byte: bv8)
      requires Valid()
      modifies this`firstByte, this`secondByte, this`byteStatus
      ensures Valid()
      ensures byteStatus == if old(byteStatus) == 0 then 1 else if old(byteStatus) == 1 then 3 else 0
      ensures firstByte == if old(byteStatus) == 0 then byte else old(firstByte)
      ensures secondByte == if old(byteStatus) == 1 then byte else old(secondByte)
    {
      if byteStatus == 0 {
        firstByte, byteStatus := byte, 1;
      } else if byteStatus == 1 {
        secondByte, byteStatus := byte, 3;
      } else {
        byteStatus := 0;
      }
    }

    /**
     After the delay: an answer of two bytes marks the cab as heard.  If only one has come, the other is waited
     for, and may come from the interrupt meanwhile.
     */
    method PingStep2(late: bool, lateByte: bv8) returns (heard: bool, key: bv8, knob: bv8)
      requires Valid()
      modifies this`byteStatus, this`secondByte, lastPing
      ensures Valid() && byteStatus == 0
      ensures heard <==> old(byteStatus) == 3 || (old(byteStatus) == 1 && late)
      ensures State() == if heard then Answered(old(State())) else old(State())
      ensures heard ==> key == firstByte && knob == if old(byteStatus) == 3 then old(secondByte) else lateByte
    {
      heard, key, knob := false, 0, 0;
      if byteStatus & 1 != 0 {
        if byteStatus & 2 == 0 {
          if !late {
            byteStatus := 0;
            return;
          }
          secondByte, byteStatus := lateByte, 3;
        }
        heard, key, knob := true, firstByte, secondByte;
        byteStatus := 0;
        lastPing[currentCabAddr] := pingNum;
      }
    }
  }
}
