/**
 The queue of memory requests of the user interface (GUI/lcc/lccconnection.cpp).  Requests of four kinds wait in
 one queue, are sent one at a time in the order they were made, and finish when the node answers, rejects them for
 good, does not answer three times, or when they cannot be sent.

 Requests are numbered in the order they are made.  Queue is the abstract state, with no lists in it; LccConnection
 keeps the lists of the program and is shown to do what Queue does.  Code that reacts to a finished request runs
 inside the call that finishes it, so what it asks for next is a parameter of every step.
 */
module RequestQueue {
  import opened Basics

  const MAX_RETRIES := 2
  const TEMPORARY := 0x2000
  /** The spaces from here on need no byte of their own in a datagram. */
  const WELL_KNOWN := 0xFD

  datatype Kind = Read | Query | Write | Update

  /** The library takes the alias as 16 and the length of a read as 8 bits. */
  datatype Request = Request(kind: Kind, alias: nat, space: nat, len: nat)

  /** What goes out for a request is the whole of it, or only a rejection in its place. */
  datatype Event = Sent(id: nat, whole: bool) | Finished(id: nat, ok: bool)

  /** Of the timers: whether the one for the answer is running, and how many wake-ups for the queue are due. */
  datatype Queue = Queue(all: seq<Request>, popped: nat, finished: set<nat>, requesting: bool, retries: nat,
                         waiting: bool, wakeups: nat, libAlias: nat, log: seq<Event>)

  /**
   What happens to a request at the library, if it is sent: whether a datagram is coming in, and how many frames
   the bus can take.  And what is asked for by those who react if it fails.
   */
  datatype Attempt = Attempt(receiving: bool, room: nat, more: seq<Request>)

  /** What is asked for by those who react to a request that finishes, with the attempts that this may cause. */
  type Reaction = seq<(Request, Attempt)>

  datatype Step =
    | Submit(r: Request, attempt: Attempt)
    | Timer(attempt: Attempt)
    | Timeout(reaction: Reaction)
    | Reject(alias: nat, code: nat, reaction: Reaction)
    | Reply(kind: Kind, alias: nat, space: nat, ok: bool, reaction: Reaction)

  // ---------------------------------------------------------------- the abstract steps

  function Pending(q: Queue, i: nat): (front: nat)
    requires i <= |q.all|
    ensures i <= front <= |q.all|
    ensures front < |q.all| ==> front !in q.finished
    ensures forall k :: i <= k < front ==> k in q.finished
    decreases |q.all| - i
  {
    if i == |q.all| || i !in q.finished then i else Pending(q, i + 1)
  }

  function Done(q: Queue): Queue
  {
    q.(retries := 0, requesting := false, waiting := false, wakeups := q.wakeups + 1)
  }

  function Finish(q: Queue, id: nat, ok: bool): Queue
  {
    q.(finished := q.finished + {id}, log := q.log + [Finished(id, ok)])
  }

  function Enqueue(q: Queue, r: Request): Queue { q.(all := q.all + [r]) }

  /** Refused by the library before anything happens: the request before is outstanding, or a bad argument. */
  predicate Blocked(q: Queue, r: Request, receiving: bool)
  {
    r.kind != Query && (q.libAlias != 0 || receiving || (r.kind == Read && r.len > BLOCK))
  }

  /** How many frames a request takes: only a write can need more than one. */
  function FramesNeeded(r: Request): nat
  {
    if r.kind != Write then 1 else ((if r.space >= WELL_KNOWN then 6 else 7) + r.len + 7) / 8
  }

  /** The library says that a request was sent when there is room for one frame, even if it needs more. */
  function SendNext(q: Queue, a: Attempt): Queue
    requires q.popped < |q.all|
  {
    var r := q.all[q.popped];
    if Blocked(q, r, a.receiving) then Unsent(q, q.popped, a.more)
    else if a.room == 0 then Unsent(q.(libAlias := r.alias), q.popped, a.more)
    else
      q.(libAlias := r.alias, requesting := true, waiting := true,
         log := q.log + [Sent(q.popped, FramesNeeded(r) <= a.room)])
  }

  function RequestNext(q: Queue, a: Attempt): Queue
    requires q.popped <= |q.all|
  {
    if q.requesting then q
    else
      var front := Pending(q, q.popped);
      var skipped := q.(popped := front);
      if front == |q.all| then skipped else SendNext(skipped, a)
  }

  /** A request that could not be sent is over.  Those who react cannot get anything sent before the next turn. */
  function Unsent(q: Queue, front: nat, more: seq<Request>): Queue
  {
    var f := Finish(q, front, false);
    Done(f.(all := f.all + more, popped := front + 1))
  }

  /** Whether it counted as outstanding makes no difference. */
  lemma UnsentForgets(q: Queue)
    ensures forall alias: nat, front: nat, more ::
              Unsent(q.(libAlias := alias), front, more)
              == Unsent(q.(requesting := true, libAlias := alias), front, more)
  {
  }

  function SubmitOne(q: Queue, r: Request, a: Attempt): Queue
    requires q.popped <= |q.all|
  {
    if q.requesting then Enqueue(q, r) else RequestNext(Enqueue(q, r), a)
  }

  function SubmitAll(q: Queue, reaction: Reaction): (p: Queue)
    requires q.popped <= |q.all|
    ensures p.popped <= |p.all|
    decreases |reaction|
  {
    if reaction == [] then q else SubmitAll(SubmitOne(q, reaction[0].0, reaction[0].1), reaction[1..])
  }

  function Retry(q: Queue): Queue
  {
    q.(retries := q.retries + 1, requesting := false, waiting := false, wakeups := q.wakeups + 1)
  }

  function FailCurrent(q: Queue, reaction: Reaction): Queue
    requires q.popped < |q.all|
  {
    Done(SubmitAll(Finish(q.(popped := q.popped + 1), q.popped, false), reaction))
  }

  /** Whether a reply of this kind is taken to be for the request: the address is not looked at. */
  predicate Matches(r: Request, kind: Kind, alias: nat, space: nat)
  {
    r.kind == kind && r.alias == alias && (kind == Update || r.space == space)
  }

  /** The first unfinished request that a reply matches, if there is one. */
  function FindMatch(q: Queue, i: nat, kind: Kind, alias: nat, space: nat): (m: nat)
    requires i <= |q.all|
    ensures i <= m <= |q.all|
    ensures m < |q.all| ==> m !in q.finished && Matches(q.all[m], kind, alias, space)
    ensures forall k :: i <= k < m ==> k in q.finished || !Matches(q.all[k], kind, alias, space)
    decreases |q.all| - i
  {
    if i == |q.all| || (i !in q.finished && Matches(q.all[i], kind, alias, space)) then i
    else FindMatch(q, i + 1, kind, alias, space)
  }

  function Answer(q: Queue, kind: Kind, alias: nat, space: nat, ok: bool, reaction: Reaction): Queue
    requires q.popped <= |q.all|
  {
    var m := FindMatch(q, 0, kind, alias, space);
    if m == |q.all| then if kind == Read && !ok then q else Done(q)
    else Done(SubmitAll(Finish(q, m, ok), reaction))
  }

  predicate IsTemporary(code: nat) { code / TEMPORARY % 2 == 1 }

  /** A datagram rejection is for the request at the front, if it comes from the right node. */
  function Refuse(q: Queue, alias: nat, code: nat, reaction: Reaction): Queue
    requires q.popped <= |q.all|
  {
    if !q.requesting || q.popped == |q.all| || q.all[q.popped].alias != alias then q
    else if IsTemporary(code) && q.retries < MAX_RETRIES then Retry(q)
    else FailCurrent(q, reaction)
  }

  function GiveUpWaiting(q: Queue, reaction: Reaction): Queue
    requires q.popped <= |q.all|
  {
    if !q.requesting || q.popped == |q.all| then q
    else
      var cancelled := q.(libAlias := 0);
      if q.retries < MAX_RETRIES then Retry(cancelled) else FailCurrent(cancelled, reaction)
  }

  /** The library lets an answer through if it is from the node it waits for, and then waits for nothing. */
  predicate LetThrough(q: Queue, alias: nat) { alias == q.libAlias != 0 }

  /** A timer that has not been started does not fire. */
  function Next(q: Queue, s: Step): Queue
    requires q.popped <= |q.all|
  {
    match s
    case Submit(r, a) => SubmitOne(q, r, a)
    case Timer(a) => if q.wakeups == 0 then q else RequestNext(q.(wakeups := q.wakeups - 1), a)
    case Timeout(reaction) => if !q.waiting then q else GiveUpWaiting(q.(waiting := false), reaction)
    case Reject(alias, code, reaction) =>
      if LetThrough(q, alias) then Refuse(q.(libAlias := 0), alias, code, reaction) else q
    case Reply(kind, alias, space, ok, reaction) =>
      if LetThrough(q, alias) then Answer(q.(libAlias := 0), kind, alias, space, ok, reaction) else q
  }

  function Run(q: Queue, steps: seq<Step>): (p: Queue)
    requires q.popped <= |q.all|
    ensures p.popped <= |p.all|
    decreases |steps|
  {
    if steps == [] then q
    else
      NextPopped(q, steps[0]);
      Run(Next(q, steps[0]), steps[1..])
  }

  lemma NextPopped(q: Queue, s: Step)
    requires q.popped <= |q.all|
    ensures Next(q, s).popped <= |Next(q, s).all|
  {
  }

  const EMPTY := Queue([], 0, {}, false, 0, false, 0, 0, [])

  // ---------------------------------------------------------------- what every step keeps

  function Times(log: seq<Event>, e: Event): nat
  {
    if log == [] then 0 else Times(log[..|log| - 1], e) + if log[|log| - 1] == e then 1 else 0
  }

  function Endings(log: seq<Event>, id: nat): nat { Times(log, Finished(id, true)) + Times(log, Finished(id, false)) }

  predicate EndedIn(log: seq<Event>, id: nat) { Finished(id, true) in log || Finished(id, false) in log }

  /** Whenever something was sent, everything that was asked for before it had finished. */
  ghost predicate InOrder(log: seq<Event>)
  {
    log == [] ||
    var before, last := log[..|log| - 1], log[|log| - 1];
    InOrder(before) && (last.Sent? ==> forall id: nat :: id < last.id ==> EndedIn(before, id))
  }

  /** The log tells of each finished request once, and of no other. */
  ghost predicate LogOk(q: Queue)
  {
    && (forall id: nat :: Endings(q.log, id) == if id in q.finished then 1 else 0)
    && (forall id: nat :: id in q.finished ==> EndedIn(q.log, id))
    && InOrder(q.log)
  }

  ghost predicate QueueOk(q: Queue)
  {
    && q.popped <= |q.all| && q.retries <= MAX_RETRIES
    && (forall id :: 0 <= id < q.popped ==> id in q.finished)
    && (forall id :: id in q.finished ==> id < |q.all|)
  }

  /** While a request is outstanding, it is the one at the front, and it has not finished. */
  ghost predicate FrontOk(q: Queue)
  {
    q.requesting ==> q.popped < |q.all| && q.popped !in q.finished
  }

  /** The timer for the answer runs exactly while a request is outstanding. */
  ghost predicate Consistent(q: Queue)
  {
    QueueOk(q) && FrontOk(q) && LogOk(q) && q.waiting == q.requesting
  }

  /** While none is outstanding and something is left to be sent, a wake-up is due. */
  predicate WillGoOn(q: Queue)
    requires q.popped <= |q.all|
  {
    !q.requesting && Pending(q, q.popped) < |q.all| ==> q.wakeups > 0
  }

  ghost predicate Inv(q: Queue) { Consistent(q) && WillGoOn(q) }

  lemma TimesAppend(log: seq<Event>, e: Event, f: Event)
    ensures Times(log + [e], f) == Times(log, f) + if e == f then 1 else 0
  {
    assert (log + [e])[..|log|] == log;
  }

  lemma FinishKeeps(q: Queue, id: nat, ok: bool)
    requires QueueOk(q) && LogOk(q) && id < |q.all| && id !in q.finished
    ensures QueueOk(Finish(q, id, ok)) && LogOk(Finish(q, id, ok))
  {
    var f := Finish(q, id, ok);
    forall other: nat
      ensures Endings(f.log, other) == if other in f.finished then 1 else 0
    {
      TimesAppend(q.log, Finished(id, ok), Finished(other, true));
      TimesAppend(q.log, Finished(id, ok), Finished(other, false));
    }
    forall other: nat | other in f.finished
      ensures EndedIn(f.log, other)
    {
      if other == id {
        assert f.log[|q.log|] == Finished(id, ok);
      } else {
        assert EndedIn(q.log, other);
      }
    }
    assert f.log[..|q.log|] == q.log;
  }

  lemma SendKeeps(q: Queue, id: nat, whole: bool)
    requires LogOk(q) && forall k :: 0 <= k < id ==> k in q.finished
    ensures LogOk(q.(log := q.log + [Sent(id, whole)]))
  {
    var log := q.log + [Sent(id, whole)];
    forall other: nat
      ensures Endings(log, other) == Endings(q.log, other)
      ensures EndedIn(q.log, other) ==> EndedIn(log, other)
    {
      TimesAppend(q.log, Sent(id, whole), Finished(other, true));
      TimesAppend(q.log, Sent(id, whole), Finished(other, false));
    }
    assert log[..|q.log|] == q.log;
  }

  /** This does not need the wake-up. */
  lemma RequestNextKeeps(q: Queue, a: Attempt)
    requires Consistent(q)
    ensures Inv(RequestNext(q, a))
  {
    hide LogOk;
    if !q.requesting {
      var front := Pending(q, q.popped);
      if front < |q.all| {
        var r := q.all[front];
        var skipped := q.(popped := front);
        SameLog(q, skipped);
        if Blocked(q, r, a.receiving) {
          UnsentKeeps(skipped, front, a.more);
        } else if a.room == 0 {
          SameLog(q, skipped.(libAlias := r.alias));
          UnsentKeeps(skipped.(libAlias := r.alias), front, a.more);
        } else {
          var whole := FramesNeeded(r) <= a.room;
          SendKeeps(q, front, whole);
          SameLog(q.(log := q.log + [Sent(front, whole)]), RequestNext(q, a));
        }
      } else {
        SameLog(q, q.(popped := front));
      }
    }
  }

  lemma SameLog(q: Queue, p: Queue)
    requires LogOk(q) && p.log == q.log && p.finished == q.finished
    ensures LogOk(p)
  {
  }

  lemma UnsentKeeps(q: Queue, front: nat, more: seq<Request>)
    requires QueueOk(q) && LogOk(q) && q.popped == front < |q.all| && front !in q.finished
    ensures Inv(Unsent(q, front, more))
  {
    hide LogOk;
    FinishKeeps(q, front, false);
    SameLog(Finish(q, front, false), Unsent(q, front, more));
  }

  lemma SubmitOneKeeps(q: Queue, r: Request, a: Attempt)
    requires Consistent(q)
    ensures Inv(SubmitOne(q, r, a))
  {
    SameLog(q, Enqueue(q, r));
    RequestNextKeeps(Enqueue(q, r), a);
  }

  lemma {:induction false} SubmitAllGrows(q: Queue, reaction: Reaction)
    requires q.popped <= |q.all|
    ensures var p := SubmitAll(q, reaction); q.finished <= p.finished && q.all <= p.all
    decreases |reaction|
  {
    if reaction != [] {
      SubmitAllGrows(SubmitOne(q, reaction[0].0, reaction[0].1), reaction[1..]);
    }
  }

  /** Those who react do no harm.  While a request is outstanding they can only add to the queue. */
  lemma {:induction false} SubmitAllKeeps(q: Queue, reaction: Reaction)
    requires QueueOk(q) && LogOk(q) && (q.requesting || (FrontOk(q) && !q.waiting))
    ensures var p := SubmitAll(q, reaction);
            && QueueOk(p) && LogOk(p) && (!q.requesting ==> FrontOk(p))
            && (q.requesting ==> p == q.(all := p.all)) && q.all <= p.all
    decreases |reaction|
  {
    hide LogOk;
    if reaction != [] {
      var r, a := reaction[0].0, reaction[0].1;
      var next := SubmitOne(q, r, a);
      SameLog(q, Enqueue(q, r));
      if !q.requesting {
        SubmitOneKeeps(q, r, a);
        SubmitAllAfterNext(next, reaction[1..], q);
      } else {
        SubmitAllKeeps(next, reaction[1..]);
      }
    }
  }

  lemma {:induction false} SubmitAllAfterNext(next: Queue, reaction: Reaction, before: Queue)
    requires Consistent(next) && before.all <= next.all
    ensures var p := SubmitAll(next, reaction);
            QueueOk(p) && LogOk(p) && FrontOk(p) && before.all <= p.all
    decreases |reaction|
  {
    hide LogOk;
    if reaction != [] {
      SubmitOneKeeps(next, reaction[0].0, reaction[0].1);
      SubmitAllAfterNext(SubmitOne(next, reaction[0].0, reaction[0].1), reaction[1..], before);
    }
  }

  lemma EndKeeps(q: Queue, id: nat, ok: bool, reaction: Reaction)
    requires QueueOk(q) && LogOk(q) && id < |q.all| && id !in q.finished
    requires q.requesting || (FrontOk(q) && !q.waiting)
    ensures Inv(Done(SubmitAll(Finish(q, id, ok), reaction)))
  {
    hide LogOk;
    FinishKeeps(q, id, ok);
    SubmitAllKeeps(Finish(q, id, ok), reaction);
    SameLog(SubmitAll(Finish(q, id, ok), reaction), Done(SubmitAll(Finish(q, id, ok), reaction)));
  }

  lemma FailKeeps(q: Queue, reaction: Reaction)
    requires QueueOk(q) && FrontOk(q) && LogOk(q) && q.requesting
    ensures Inv(FailCurrent(q, reaction))
  {
    hide LogOk;
    var f := Finish(q.(popped := q.popped + 1), q.popped, false);
    FinishKeeps(q, q.popped, false);
    SameLog(Finish(q, q.popped, false), f);
    SubmitAllKeeps(f, reaction);
    SameLog(SubmitAll(f, reaction), FailCurrent(q, reaction));
  }

  /**
   Any step, from anywhere.  So a timer always runs while there is something left to do: the one for the answer while a
   request is outstanding, and otherwise one that wakes up the queue.
   */
  lemma NextKeepsInv(q: Queue, s: Step)
    requires Inv(q)
    ensures Inv(Next(q, s))
  {
    hide LogOk;
    var heard := q.(libAlias := 0);
    SameLog(q, heard);
    match s
    case Submit(r, a) => SubmitOneKeeps(q, r, a);
    case Timer(a) =>
      if q.wakeups > 0 {
        SameLog(q, q.(wakeups := q.wakeups - 1));
        RequestNextKeeps(q.(wakeups := q.wakeups - 1), a);
      }
    case Timeout(reaction) =>
      if q.waiting {
        var late := heard.(waiting := false);
        SameLog(q, late);
        SameLog(q, Retry(late));
        FailKeeps(late, reaction);
      }
    case Reject(alias, code, reaction) =>
      if q.requesting {
        SameLog(q, Retry(heard));
        FailKeeps(heard, reaction);
      }
    case Reply(kind, alias, space, ok, reaction) =>
      var m := FindMatch(heard, 0, kind, alias, space);
      SameLog(q, Done(heard));
      if m < |q.all| {
        EndKeeps(heard, m, ok, reaction);
      }
  }

  lemma {:induction false} RunKeepsInv(q: Queue, steps: seq<Step>)
    requires Inv(q)
    ensures Inv(Run(q, steps))
    decreases |steps|
  {
    hide LogOk;
    hide Next;
    if steps != [] {
      NextPopped(q, steps[0]);
      NextKeepsInv(q, steps[0]);
      RunKeepsInv(Next(q, steps[0]), steps[1..]);
    }
  }

  lemma EmptyInv()
    ensures Inv(EMPTY)
  {
  }

  /**
   Whatever happens, and in whatever order: no request finishes twice, and when one is sent, all that were made
   before it have finished.
   */
  lemma FinishedOnceAndSentInOrder(steps: seq<Step>)
    ensures var q := Run(EMPTY, steps);
            && (forall id: nat :: Endings(q.log, id) <= 1)
            && (forall id: nat :: id in q.finished <==> Endings(q.log, id) == 1)
            && InOrder(q.log)
            && (q.requesting ==> q.popped < |q.all| && q.popped !in q.finished)
  {
    EmptyInv();
    RunKeepsInv(EMPTY, steps);
  }

  lemma {:induction false} InOrderAt(log: seq<Event>, p: nat, id: nat)
    requires InOrder(log) && p < |log| && log[p].Sent? && id < log[p].id
    ensures EndedIn(log[..p], id)
    decreases |log|
  {
    if p < |log| - 1 {
      var before := log[..|log| - 1];
      InOrderAt(before, p, id);
      assert before[..p] == log[..p];
    }
  }

  /** In particular, an Update Complete is sent only after every earlier write to any node has ended in the log. */
  lemma UpdateCompleteComesLast(steps: seq<Step>, p: nat, write: nat)
    requires var q := Run(EMPTY, steps);
             p < |q.log| && q.log[p].Sent? && q.log[p].id < |q.all| && q.all[q.log[p].id].kind == Update
             && write < q.log[p].id && q.all[write].kind == Write
    ensures var q := Run(EMPTY, steps); EndedIn(q.log[..p], write)
  {
    FinishedOnceAndSentInOrder(steps);
    InOrderAt(Run(EMPTY, steps).log, p, write);
  }
}
