/**
 Whole runs of the request queue (GUI/lcc/lccconnection.cpp): how often a request is sent, why the queue drains, and
 what can go wrong.
 */
module RequestRuns {
  import opened Basics
  import opened RequestQueue
  import CanId
  import Datagram
  import MemoryProtocol
  import RemoteMemory

  // ---------------------------------------------------------------- how often a request is sent

  /** Whole or not. */
  function Transmissions(log: seq<Event>, id: nat): nat { Times(log, Sent(id, true)) + Times(log, Sent(id, false)) }

  /** The request whose turn it is, or the number of requests when none is left. */
  function Turn(q: Queue): nat
    requires q.popped <= |q.all|
  {
    Pending(q, q.popped)
  }

  /**
   The request whose turn it is has been sent once for every other try that it was given, and once more while it is
   outstanding, and the ones after it not at all.
   */
  ghost predicate Counted(q: Queue)
    requires q.popped <= |q.all|
  {
    && (forall id: nat :: Transmissions(q.log, id) <= MAX_RETRIES + 1)
    && (forall id: nat :: id > Turn(q) ==> Transmissions(q.log, id) == 0)
    && Transmissions(q.log, Turn(q)) == q.retries + (if q.requesting then 1 else 0)
  }

  /** An answer that gets through is for the request that is outstanding. */
  predicate Fitting(q: Queue, s: Step)
  {
    s.Reply? && LetThrough(q, s.alias) ==>
      q.requesting && q.popped < |q.all| && Matches(q.all[q.popped], s.kind, s.alias, s.space)
  }

  ghost predicate AllFitting(q: Queue, steps: seq<Step>)
    requires q.popped <= |q.all|
    decreases |steps|
  {
    steps == [] || (Fitting(q, steps[0]) && (NextPopped(q, steps[0]); AllFitting(Next(q, steps[0]), steps[1..])))
  }

  lemma TurnIs(q: Queue, turn: nat)
    requires q.popped <= turn <= |q.all| && (forall k :: q.popped <= k < turn ==> k in q.finished)
    requires turn < |q.all| ==> turn !in q.finished
    ensures Turn(q) == turn
  {
  }

  /** Nothing is sent, and the request whose turn it is stays the same. */
  lemma CountedStays(q: Queue, p: Queue)
    requires QueueOk(q) && QueueOk(p) && Counted(q)
    requires forall id: nat :: Transmissions(p.log, id) == Transmissions(q.log, id)
    requires Turn(p) == Turn(q)
    requires q.retries + (if q.requesting then 1 else 0) == p.retries + (if p.requesting then 1 else 0)
    ensures Counted(p)
  {
  }

  /** Nothing is sent, and the turn passes. */
  lemma CountedPasses(q: Queue, p: Queue)
    requires QueueOk(q) && QueueOk(p) && Counted(q) && |p.all| > Turn(q)
    requires forall id: nat :: Transmissions(p.log, id) == Transmissions(q.log, id)
    requires (forall k :: 0 <= k <= Turn(q) ==> k in p.finished) && p.retries == 0 && !p.requesting
    ensures Turn(p) > Turn(q) && Counted(p)
  {
  }

  lemma FinishSendsNothing(q: Queue, id: nat, ok: bool)
    ensures forall other: nat :: Transmissions(Finish(q, id, ok).log, other) == Transmissions(q.log, other)
  {
    forall other: nat
      ensures Transmissions(Finish(q, id, ok).log, other) == Transmissions(q.log, other)
    {
      TimesAppend(q.log, Finished(id, ok), Sent(other, true));
      TimesAppend(q.log, Finished(id, ok), Sent(other, false));
    }
  }

  lemma SendCounts(q: Queue, p: Queue, whole: bool)
    requires QueueOk(q) && Counted(q) && !q.requesting && Turn(q) < |q.all|
    requires p.all == q.all && p.popped == Turn(q) && p.finished == q.finished && p.retries == q.retries
    requires p.requesting && p.log == q.log + [Sent(Turn(q), whole)]
    ensures QueueOk(p) && Counted(p)
  {
    TurnIs(p, Turn(q));
    forall id: nat
      ensures Transmissions(p.log, id) == Transmissions(q.log, id) + if id == Turn(q) then 1 else 0
    {
      TimesAppend(q.log, Sent(Turn(q), whole), Sent(id, true));
      TimesAppend(q.log, Sent(Turn(q), whole), Sent(id, false));
    }
  }

  lemma UnsentCounts(q: Queue, skipped: Queue, more: seq<Request>)
    requires QueueOk(q) && Counted(q) && Turn(q) < |q.all| && !q.requesting
    requires skipped == q.(popped := Turn(q), libAlias := skipped.libAlias)
    ensures QueueOk(Unsent(skipped, Turn(q), more)) && Counted(Unsent(skipped, Turn(q), more))
  {
    FinishSendsNothing(skipped, Turn(q), false);
    CountedPasses(q, Unsent(skipped, Turn(q), more));
  }

  lemma RequestNextCounts(q: Queue, a: Attempt)
    requires QueueOk(q) && Counted(q)
    ensures QueueOk(RequestNext(q, a)) && Counted(RequestNext(q, a))
  {
    hide Counted;
    hide Finish;
    if !q.requesting {
      var front := Pending(q, q.popped);
      var skipped := q.(popped := front);
      if front == |q.all| {
        TurnIs(skipped, front);
        CountedStays(q, skipped);
      } else {
        UnsentCounts(q, skipped, a.more);
        UnsentCounts(q, skipped.(libAlias := q.all[front].alias), a.more);
        var whole := FramesNeeded(q.all[front]) <= a.room;
        SendCounts(q, skipped.(libAlias := q.all[front].alias, requesting := true, waiting := true,
                               log := q.log + [Sent(front, whole)]), whole);
      }
    }
  }

  lemma SubmitOneCounts(q: Queue, r: Request, a: Attempt)
    requires QueueOk(q) && Counted(q)
    ensures QueueOk(SubmitOne(q, r, a)) && Counted(SubmitOne(q, r, a))
  {
    var p := Enqueue(q, r);
    TurnIs(p, Turn(q));
    CountedStays(q, p);
    RequestNextCounts(p, a);
  }

  /** The request at the front finishes while it is outstanding. */
  lemma EndCounts(q: Queue, p: Queue, ok: bool, reaction: Reaction)
    requires QueueOk(q) && FrontOk(q) && LogOk(q) && q.requesting && Counted(q)
    requires p == Done(SubmitAll(Finish(q, q.popped, ok), reaction))
             || p == Done(SubmitAll(Finish(q.(popped := q.popped + 1), q.popped, ok), reaction))
    ensures QueueOk(p) && Counted(p)
  {
    hide LogOk;
    var f := Finish(q, q.popped, ok);
    FinishKeeps(q, q.popped, ok);
    FinishSendsNothing(q, q.popped, ok);
    SubmitAllKeeps(f, reaction);
    SameLog(f, f.(popped := q.popped + 1));
    SubmitAllKeeps(f.(popped := q.popped + 1), reaction);
    TurnIs(q, q.popped);
    CountedPasses(q, p);
  }

  /** The fields that say nothing about requests do not matter. */
  lemma CountedTimers(q: Queue, libAlias: nat, waiting: bool, wakeups: nat)
    requires QueueOk(q) && Counted(q)
    ensures var p := q.(libAlias := libAlias, waiting := waiting, wakeups := wakeups);
            QueueOk(p) && Counted(p) && Turn(p) == Turn(q) && (LogOk(q) ==> LogOk(p))
  {
    TurnIs(q.(libAlias := libAlias, waiting := waiting, wakeups := wakeups), Turn(q));
  }

  lemma NextCounts(q: Queue, s: Step)
    requires Inv(q) && Counted(q) && Fitting(q, s)
    ensures q.popped <= |q.all| && QueueOk(Next(q, s)) && Counted(Next(q, s))
  {
    hide LogOk;
    hide Counted;
    hide WillGoOn;
    hide RequestNext;
    hide SubmitAll;
    match s
    case Submit(r, a) => SubmitOneCounts(q, r, a);
    case Timer(a) =>
      if q.wakeups > 0 {
        CountedTimers(q, q.libAlias, q.waiting, q.wakeups - 1);
        RequestNextCounts(q.(wakeups := q.wakeups - 1), a);
      }
    case Timeout(reaction) =>
      if q.waiting {
        CountedTimers(q, 0, false, q.wakeups);
        RefusedCounts(q.(libAlias := 0, waiting := false), reaction);
      }
    case Reject(alias, code, reaction) =>
      CountedTimers(q, 0, q.waiting, q.wakeups);
      if q.requesting {
        RefusedCounts(q.(libAlias := 0), reaction);
      }
    case Reply(kind, alias, space, ok, reaction) =>
      if LetThrough(q, alias) {
        var heard := q.(libAlias := 0);
        CountedTimers(q, 0, q.waiting, q.wakeups);
        assert FindMatch(heard, 0, kind, alias, space) == q.popped;
        EndCounts(heard, Done(SubmitAll(Finish(heard, q.popped, ok), reaction)), ok, reaction);
      }
  }

  lemma RefusedCounts(q: Queue, reaction: Reaction)
    requires QueueOk(q) && FrontOk(q) && LogOk(q) && q.requesting && Counted(q)
    ensures q.retries < MAX_RETRIES ==> QueueOk(Retry(q)) && Counted(Retry(q))
    ensures QueueOk(FailCurrent(q, reaction)) && Counted(FailCurrent(q, reaction))
  {
    hide LogOk;
    hide SubmitAll;
    TurnIs(Retry(q), Turn(q));
    EndCounts(q, FailCurrent(q, reaction), false, reaction);
  }

  lemma {:induction false} RunCounts(q: Queue, steps: seq<Step>)
    requires Inv(q) && Counted(q) && AllFitting(q, steps)
    ensures Counted(Run(q, steps))
    decreases |steps|
  {
    hide LogOk;
    hide Counted;
    hide Next;
    if steps != [] {
      NextPopped(q, steps[0]);
      NextKeepsInv(q, steps[0]);
      NextCounts(q, steps[0]);
      RunCounts(Next(q, steps[0]), steps[1..]);
    }
  }

  lemma EmptyCounted()
    ensures Counted(EMPTY)
  {}

  /** As long as the answers fit, every request is sent at most three times. */
  lemma SentAtMostThreeTimes(steps: seq<Step>)
    requires AllFitting(EMPTY, steps)
    ensures forall id: nat :: Transmissions(Run(EMPTY, steps).log, id) <= 3
  {
    hide Run;
    hide AllFitting;
    hide Transmissions;
    EmptyInv();
    EmptyCounted();
    RunCounts(EMPTY, steps);
  }

  // ---------------------------------------------------------------- what is tried again

  /** The library waits for the node that the outstanding request went to, or no longer waits. */
  ghost predicate AwaitsFront(q: Queue)
  {
    q.requesting ==>
      && q.popped < |q.all|
      && (q.libAlias == 0 || q.libAlias == q.all[q.popped].alias)
      && (q.all[q.popped].kind == Read ==> q.all[q.popped].len <= BLOCK)
  }

  lemma NextAwaitsFront(q: Queue, s: Step)
    requires Inv(q) && AwaitsFront(q)
    ensures AwaitsFront(Next(q, s))
  {
    hide LogOk;
    hide SubmitAll;
    hide FindMatch;
  }

  lemma {:induction false} RunAwaitsFront(q: Queue, steps: seq<Step>)
    requires Inv(q) && AwaitsFront(q)
    ensures AwaitsFront(Run(q, steps)) && Inv(Run(q, steps))
    decreases |steps|
  {
    hide LogOk;
    hide Next;
    hide AwaitsFront;
    if steps != [] {
      NextPopped(q, steps[0]);
      NextKeepsInv(q, steps[0]);
      NextAwaitsFront(q, steps[0]);
      RunAwaitsFront(Next(q, steps[0]), steps[1..]);
    }
  }

  lemma EmptyAwaits()
    ensures AwaitsFront(EMPTY)
  {
  }

  predicate SentMore(before: seq<Event>, log: seq<Event>, id: nat)
  {
    log == before + [Sent(id, true)] || log == before + [Sent(id, false)]
  }

  /**
   Either the outstanding request has failed, or nothing is over yet, it is still first, and any wake-up that finds
   room on the bus sends it again.
   */
  ghost predicate FailsOrIsTriedAgain(q: Queue, p: Queue, fails: bool)
    requires q.popped <= |q.all| && p.popped <= |p.all|
  {
    if fails then
      p.finished == q.finished + {q.popped} && q.popped !in q.finished && p.log == q.log + [Finished(q.popped, false)]
    else
      && p.finished == q.finished && q.popped !in p.finished && p.log == q.log
      && !p.requesting && Turn(p) == q.popped && p.wakeups == q.wakeups + 1
      && forall a: Attempt :: a.room > 0 && !a.receiving ==> SentMore(q.log, Next(p, Timer(a)).log, q.popped)
  }

  lemma TriedAgain(q: Queue, p: Queue)
    requires Inv(q) && AwaitsFront(q) && q.requesting && p == Retry(q.(libAlias := 0, waiting := false))
    ensures FailsOrIsTriedAgain(q, p, false)
  {
    hide LogOk;
    TurnIs(p, q.popped);
    forall a: Attempt | a.room > 0 && !a.receiving
      ensures SentMore(q.log, Next(p, Timer(a)).log, q.popped)
    {
      assert Next(p, Timer(a)) == RequestNext(p.(wakeups := p.wakeups - 1), a);
      TurnIs(p.(wakeups := p.wakeups - 1), q.popped);
    }
  }

  lemma Fails(q: Queue, waiting: bool, reaction: Reaction)
    requires Inv(q) && q.requesting
    ensures var p := FailCurrent(q.(libAlias := 0, waiting := waiting), reaction);
            p.popped <= |p.all| && FailsOrIsTriedAgain(q, p, true)
  {
    hide LogOk;
    OnlyMore(Finish(q.(libAlias := 0, waiting := waiting, popped := q.popped + 1), q.popped, false), reaction);
  }

  /**
   A rejection in any run.  If it comes from the node that is waited for, then the outstanding request is over exactly
   if the code does not say that the error is temporary, or if it was given two more tries already; otherwise it is
   sent again.  Any other rejection does nothing.
   */
  lemma RejectionFailsExactly(steps: seq<Step>, alias: nat, code: nat, reaction: Reaction)
    ensures var q := Run(EMPTY, steps);
            var p := Next(q, Reject(alias, code, reaction));
            && p.popped <= |p.all|
            && if q.requesting && alias == q.libAlias != 0 then
                 FailsOrIsTriedAgain(q, p, code / 0x2000 % 2 == 0 || q.retries >= 2)
               else p.log == q.log && p.finished == q.finished && p.requesting == q.requesting
  {
    hide LogOk;
    hide FailsOrIsTriedAgain;
    hide FailCurrent;
    EmptyInv();
    EmptyAwaits();
    RunAwaitsFront(EMPTY, steps);
    var q := Run(EMPTY, steps);
    hide Run;
    NextPopped(q, Reject(alias, code, reaction));
    if q.requesting && alias == q.libAlias != 0 {
      TriedAgain(q, Retry(q.(libAlias := 0, waiting := false)));
      Fails(q, q.waiting, reaction);
    }
  }

  /** The same when no answer comes in time; then the library waits no longer either. */
  lemma TimeoutFailsExactly(steps: seq<Step>, reaction: Reaction)
    ensures var q := Run(EMPTY, steps);
            var p := Next(q, Timeout(reaction));
            && p.popped <= |p.all|
            && if q.requesting then FailsOrIsTriedAgain(q, p, q.retries >= 2) && p.libAlias == 0 else p == q
  {
    hide LogOk;
    hide FailsOrIsTriedAgain;
    EmptyInv();
    EmptyAwaits();
    RunAwaitsFront(EMPTY, steps);
    var q := Run(EMPTY, steps);
    hide Run;
    NextPopped(q, Timeout(reaction));
    if q.requesting {
      TriedAgain(q, Retry(q.(libAlias := 0, waiting := false)));
      Fails(q, false, reaction);
      OnlyMore(Finish(q.(libAlias := 0, waiting := false, popped := q.popped + 1), q.popped, false), reaction);
    }
  }

  /** As long as the answers fit, the tries are the times that the request has been sent. */
  lemma TriesAreTransmissions(steps: seq<Step>)
    requires AllFitting(EMPTY, steps)
    ensures var q := Run(EMPTY, steps); q.requesting ==> Transmissions(q.log, q.popped) == q.retries + 1
  {
    hide Transmissions;
    EmptyInv();
    EmptyCounted();
    RunCounts(EMPTY, steps);
    RunKeepsInv(EMPTY, steps);
    var q := Run(EMPTY, steps);
    hide Run;
    if q.requesting {
      TurnIs(q, q.popped);
    }
  }

  // ---------------------------------------------------------------- the queue drains

  /** Requests that are not over, tries that are left, and whether it has been sent this time. */
  function Measure(q: Queue): int
  {
    6 * (|q.all| - |q.finished|) + 2 * (MAX_RETRIES - q.retries) + (if q.requesting then 0 else 1)
  }

  predicate Drained(q: Queue)
    requires q.popped <= |q.all|
  {
    Turn(q) == |q.all|
  }

  /** Nobody asks for more. */
  predicate Quiet(s: Step)
  {
    match s
    case Submit(_, _) => false
    case Timer(a) => a.more == []
    case Timeout(reaction) => reaction == []
    case Reject(_, _, reaction) => reaction == []
    case Reply(_, _, _, _, reaction) => reaction == []
  }

  /** Something comes of it. */
  predicate Effective(q: Queue, s: Step)
    requires q.popped <= |q.all|
  {
    var p := Next(q, s);
    p.finished != q.finished || p.retries != q.retries || p.requesting != q.requesting
  }

  lemma EndDecreases(q: Queue, p: Queue, id: nat)
    requires id !in q.finished && p.finished == q.finished + {id} && p.all == q.all
    requires q.retries <= MAX_RETRIES && p.retries == 0 && !p.requesting
    ensures Measure(p) < Measure(q)
  {
  }

  lemma TryDecreases(q: Queue, p: Queue)
    requires p.finished == q.finished && p.all == q.all
    requires if q.requesting then !p.requesting && p.retries == q.retries + 1
             else p.requesting && p.retries == q.retries
    ensures Measure(p) < Measure(q)
  {
  }

  lemma StepDecreases(q: Queue, s: Step)
    requires Inv(q) && Quiet(s) && Fitting(q, s) && q.popped <= |q.all| && Effective(q, s)
    ensures Measure(Next(q, s)) < Measure(q) && Next(q, s).all == q.all
  {
    hide LogOk;
    hide Measure;
    var p := Next(q, s);
    if s.Timer? {
      if p.requesting {
        TryDecreases(q, p);
      } else {
        EndDecreases(q, p, Turn(q));
      }
    } else if p.finished == q.finished {
      TryDecreases(q, p);
    } else {
      assert s.Reply? ==> FindMatch(q.(libAlias := 0), 0, s.kind, s.alias, s.space) == q.popped;
      EndDecreases(q, p, q.popped);
    }
  }

  lemma {:induction false} FinishedFit(finished: set<nat>, n: nat)
    requires forall id :: id in finished ==> id < n
    ensures |finished| <= n && (|finished| == n ==> forall id: nat :: id < n ==> id in finished)
    decreases n
  {
    if n == 0 {
      assert finished == {};
    } else {
      FinishedFit(finished - {n - 1}, n - 1);
      if n - 1 in finished {
        assert |finished| == |finished - {n - 1}| + 1;
        assert forall id: nat :: id in finished - {n - 1} ==> id in finished;
      } else {
        assert finished == finished - {n - 1};
      }
    }
  }

  /** In every run: while a request is left, a timer runs that will do something about it. */
  lemma TimerAlwaysRuns(steps: seq<Step>)
    requires !Drained(Run(EMPTY, steps))
    ensures var q := Run(EMPTY, steps);
            if q.requesting then q.waiting && forall reaction :: Effective(q, Timeout(reaction))
            else q.wakeups > 0 && forall a :: Effective(q, Timer(a))
  {
    EmptyInv();
    RunKeepsInv(EMPTY, steps);
    var q := Run(EMPTY, steps);
    forall reaction
      ensures q.requesting ==> Effective(q, Timeout(reaction))
    {
      TimeoutEnds(q, reaction);
    }
    forall a
      ensures !q.requesting ==> Effective(q, Timer(a))
    {
      WakeUpSends(q, a);
    }
  }

  lemma TimeoutEnds(q: Queue, reaction: Reaction)
    requires Inv(q)
    ensures q.requesting ==> Effective(q, Timeout(reaction))
  {
  }

  lemma WakeUpSends(q: Queue, a: Attempt)
    requires Inv(q) && !Drained(q)
    ensures !q.requesting ==> Effective(q, Timer(a))
  {
    assert Turn(q) !in q.finished;
  }

  /** There is always something to come, until the queue is empty: a timer if nothing else. */
  lemma SomethingIsToCome(q: Queue, a: Attempt)
    requires Inv(q) && !Drained(q)
    ensures Effective(q, if q.requesting then Timeout([]) else Timer(a))
    ensures Measure(q) >= 6
  {
    hide LogOk;
    FinishedFit(q.finished, |q.all|);
    assert Turn(q) !in q.finished;
  }

  predicate AllQuiet(steps: seq<Step>)
  {
    forall i :: 0 <= i < |steps| ==> Quiet(steps[i])
  }

  ghost predicate AllEffective(q: Queue, steps: seq<Step>)
    requires q.popped <= |q.all|
    decreases |steps|
  {
    steps == [] || (Effective(q, steps[0]) && (NextPopped(q, steps[0]); AllEffective(Next(q, steps[0]), steps[1..])))
  }

  /**
   When nobody asks for more, only so many steps can have an effect, and while a request is left there is one more
   that has.  So every run drains the queue.
   */
  lemma {:induction false} EveryRunDrains(q: Queue, steps: seq<Step>)
    requires Inv(q) && AllQuiet(steps) && AllFitting(q, steps) && AllEffective(q, steps)
    ensures |steps| + Measure(Run(q, steps)) <= Measure(q)
    ensures |steps| > Measure(q) - 6 ==> Drained(Run(q, steps))
    decreases |steps|
  {
    hide LogOk;
    hide Measure;
    hide Next;
    hide Drained;
    RunKeepsInv(q, steps);
    if steps != [] {
      assert Quiet(steps[0]);
      NextPopped(q, steps[0]);
      NextKeepsInv(q, steps[0]);
      StepDecreases(q, steps[0]);
      EveryRunDrains(Next(q, steps[0]), steps[1..]);
    }
    if !Drained(Run(q, steps)) {
      SomethingIsToCome(Run(q, steps), Attempt(false, 9, []));
    }
  }

  // ---------------------------------------------------------------- what has been sent

  predicate WasSent(log: seq<Event>, id: nat) { Sent(id, true) in log || Sent(id, false) in log }

  /** Nothing has been sent before its turn, and what is outstanding has been sent. */
  ghost predicate SendsOk(q: Queue)
    requires q.popped <= |q.all|
  {
    && (forall id: nat :: WasSent(q.log, id) ==> id <= Turn(q))
    && (q.requesting ==> WasSent(q.log, q.popped))
  }

  lemma TurnGrows(q: Queue, p: Queue)
    requires QueueOk(q) && p.popped <= |p.all| && q.popped <= p.popped && q.finished <= p.finished && q.all <= p.all
    ensures Turn(q) <= Turn(p)
  {
  }

  /** Nothing is sent. */
  lemma SendsStay(q: Queue, p: Queue)
    requires QueueOk(q) && SendsOk(q)
    requires p.popped <= |p.all| && q.popped <= p.popped && q.finished <= p.finished && q.all <= p.all
    requires forall id: nat :: WasSent(p.log, id) <==> WasSent(q.log, id)
    requires p.requesting ==> q.requesting && p.popped == q.popped
    ensures SendsOk(p)
  {
    TurnGrows(q, p);
  }

  lemma FinishedIsNotSent(log: seq<Event>, id: nat, ok: bool)
    ensures forall other: nat :: WasSent(log + [Finished(id, ok)], other) <==> WasSent(log, other)
  {
  }

  lemma RequestNextSends(q: Queue, a: Attempt)
    requires QueueOk(q) && SendsOk(q)
    ensures QueueOk(RequestNext(q, a)) && SendsOk(RequestNext(q, a))
  {
    if !q.requesting {
      var front, p := Turn(q), RequestNext(q, a);
      FinishedIsNotSent(q.log, front, false);
      if p.requesting {
        TurnIs(p, front);
        var e := p.log[|q.log|];
        assert e in p.log && e.Sent? && e.id == front;
        assert forall other: nat :: WasSent(p.log, other) ==> WasSent(q.log, other) || other == front;
      } else {
        SendsStay(q, p);
      }
    }
  }

  lemma SubmitOneSends(q: Queue, r: Request, a: Attempt)
    requires QueueOk(q) && SendsOk(q)
    ensures QueueOk(SubmitOne(q, r, a)) && SendsOk(SubmitOne(q, r, a))
  {
    SendsStay(q, Enqueue(q, r));
    RequestNextSends(Enqueue(q, r), a);
  }

  lemma {:induction false} SubmitAllSends(q: Queue, reaction: Reaction)
    requires QueueOk(q) && SendsOk(q)
    ensures QueueOk(SubmitAll(q, reaction)) && SendsOk(SubmitAll(q, reaction))
    decreases |reaction|
  {
    hide SubmitOne;
    hide SendsOk;
    if reaction != [] {
      SubmitOneSends(q, reaction[0].0, reaction[0].1);
      SubmitAllSends(SubmitOne(q, reaction[0].0, reaction[0].1), reaction[1..]);
    }
  }

  /** A request finishes, and those who react ask for more. */
  lemma EndSends(q: Queue, id: nat, ok: bool, reaction: Reaction)
    requires QueueOk(q) && SendsOk(q) && id < |q.all|
    ensures var p := Done(SubmitAll(Finish(q, id, ok), reaction)); QueueOk(p) && SendsOk(p)
  {
    var f := Finish(q, id, ok);
    FinishedIsNotSent(q.log, id, ok);
    SendsStay(q, f);
    SubmitAllSends(f, reaction);
    var p := SubmitAll(f, reaction);
    SendsStay(p, Done(p));
  }

  lemma FailSends(q: Queue, reaction: Reaction)
    requires QueueOk(q) && FrontOk(q) && SendsOk(q) && q.requesting
    ensures QueueOk(FailCurrent(q, reaction)) && SendsOk(FailCurrent(q, reaction))
  {
    var idle := q.(requesting := false);
    SendsStay(q, idle);
    var f := Finish(q.(popped := q.popped + 1), q.popped, false);
    FinishedIsNotSent(q.log, q.popped, false);
    TurnGrows(q, f);
    OnlyMore(f, reaction);
    var p := SubmitAll(f, reaction);
    TurnGrows(q, p);
    SendsStay(idle, Done(p));
  }

  /** While a request is outstanding, those who react only add to the queue. */
  lemma {:induction false} OnlyMore(q: Queue, reaction: Reaction)
    requires q.popped <= |q.all| && q.requesting
    ensures var p := SubmitAll(q, reaction); p == q.(all := p.all) && q.all <= p.all
    decreases |reaction|
  {
    if reaction != [] {
      OnlyMore(SubmitOne(q, reaction[0].0, reaction[0].1), reaction[1..]);
    }
  }

  lemma NextSends(q: Queue, s: Step)
    requires Inv(q) && SendsOk(q)
    ensures q.popped <= |q.all| && Next(q, s).popped <= |Next(q, s).all| && SendsOk(Next(q, s))
  {
    hide LogOk;
    hide SendsOk;
    hide WillGoOn;
    hide RequestNext;
    hide SubmitAll;
    hide WasSent;
    NextPopped(q, s);
    var heard := q.(libAlias := 0);
    SendsStay(q, heard);
    match s
    case Submit(r, a) => SubmitOneSends(q, r, a);
    case Timer(a) =>
      if q.wakeups > 0 {
        SendsStay(q, q.(wakeups := q.wakeups - 1));
        RequestNextSends(q.(wakeups := q.wakeups - 1), a);
      }
    case Timeout(reaction) =>
      if q.waiting {
        var late := heard.(waiting := false);
        SendsStay(q, late);
        SendsStay(q, Retry(late));
        FailSends(late, reaction);
      }
    case Reject(alias, code, reaction) =>
      if q.requesting {
        SendsStay(q, Retry(heard));
        FailSends(heard, reaction);
      }
    case Reply(kind, alias, space, ok, reaction) =>
      var m := FindMatch(heard, 0, kind, alias, space);
      SendsStay(q, Done(heard));
      if m < |q.all| {
        EndSends(heard, m, ok, reaction);
      }
  }

  lemma {:induction false} RunSends(q: Queue, steps: seq<Step>)
    requires Inv(q) && SendsOk(q)
    ensures SendsOk(Run(q, steps))
    decreases |steps|
  {
    hide LogOk;
    hide SendsOk;
    hide Next;
    if steps != [] {
      NextPopped(q, steps[0]);
      NextKeepsInv(q, steps[0]);
      NextSends(q, steps[0]);
      RunSends(Next(q, steps[0]), steps[1..]);
    }
  }

  lemma EmptySends()
    ensures SendsOk(EMPTY)
  {
  }

  /**
   What an answer that gets through does, in every run, while a request is outstanding.  It finishes the first request
   that is not over and has its kind, its node and, unless it is an Update Complete, its space; and it ends the turn of
   the outstanding one.  If these are not the same, then it finishes a request that was never sent, and the
   outstanding one has to start over.
   */
  lemma AnswerEndsExactly(steps: seq<Step>, kind: Kind, alias: nat, space: nat, ok: bool, reaction: Reaction, m: nat)
    requires var q := Run(EMPTY, steps);
             && alias == q.libAlias != 0 && q.requesting
             && m < |q.all| && m !in q.finished && q.all[m].kind == kind && q.all[m].alias == alias
             && (kind == Update || q.all[m].space == space)
             && forall k :: 0 <= k < m && k !in q.finished && q.all[k].kind == kind && q.all[k].alias == alias ==>
                  kind != Update && q.all[k].space != space
    ensures var q := Run(EMPTY, steps);
            var p := Next(q, Reply(kind, alias, space, ok, reaction));
            && p.log == q.log + [Finished(m, ok)] && p.finished == q.finished + {m}
            && !p.requesting && p.retries == 0 && p.wakeups > 0
            && (WasSent(p.log, m) <==> m == q.popped)
            && (q.popped in p.finished <==> m == q.popped)
  {
    hide LogOk;
    EmptyInv();
    EmptySends();
    RunKeepsInv(EMPTY, steps);
    RunSends(EMPTY, steps);
    var q := Run(EMPTY, steps);
    hide Run;
    FoundIs(q.(libAlias := 0), kind, alias, space, m);
    TurnIs(q, q.popped);
    FinishedIsNotSent(q.log, m, ok);
    OnlyMore(Finish(q.(libAlias := 0), m, ok), reaction);
  }

  lemma FoundIs(q: Queue, kind: Kind, alias: nat, space: nat, m: nat)
    requires m < |q.all| && m !in q.finished && Matches(q.all[m], kind, alias, space)
    requires forall k :: 0 <= k < m && k !in q.finished ==> !Matches(q.all[k], kind, alias, space)
    ensures FindMatch(q, 0, kind, alias, space) == m
  {
    var found := FindMatch(q, 0, kind, alias, space);
    assert !(found < m) && !(m < found);
  }

  /** No request succeeds that has not been sent before. */
  ghost predicate SuccessWasSent(log: seq<Event>)
  {
    forall p :: 0 <= p < |log| && log[p].Finished? && log[p].ok ==> WasSent(log[..p], log[p].id)
  }

  lemma SuccessAppend(log: seq<Event>, e: Event)
    requires SuccessWasSent(log) && (e.Finished? && e.ok ==> WasSent(log, e.id))
    ensures SuccessWasSent(log + [e])
  {
    var more := log + [e];
    forall p | 0 <= p < |more| && more[p].Finished? && more[p].ok
      ensures WasSent(more[..p], more[p].id)
    {
      assert more[..p] == if p < |log| then log[..p] else log;
    }
  }

  lemma RequestNextSucceeds(q: Queue, a: Attempt)
    requires q.popped <= |q.all| && SuccessWasSent(q.log)
    ensures SuccessWasSent(RequestNext(q, a).log)
  {
    hide SuccessWasSent;
    var front := Pending(q, q.popped);
    SuccessAppend(q.log, Finished(front, false));
    SuccessAppend(q.log, Sent(front, true));
    SuccessAppend(q.log, Sent(front, false));
  }

  lemma NextSucceeds(q: Queue, s: Step)
    requires Inv(q) && SendsOk(q) && Fitting(q, s) && SuccessWasSent(q.log)
    ensures SuccessWasSent(Next(q, s).log)
  {
    hide LogOk;
    hide SuccessWasSent;
    hide WillGoOn;
    hide RequestNext;
    hide SubmitAll;
    match s
    case Submit(r, a) => RequestNextSucceeds(Enqueue(q, r), a);
    case Timer(a) =>
      if q.wakeups > 0 {
        RequestNextSucceeds(q.(wakeups := q.wakeups - 1), a);
      }
    case Timeout(reaction) =>
      if q.waiting {
        SuccessAppend(q.log, Finished(q.popped, false));
        OnlyMore(Finish(q.(libAlias := 0, waiting := false, popped := q.popped + 1), q.popped, false), reaction);
      }
    case Reject(alias, code, reaction) =>
      if q.requesting {
        SuccessAppend(q.log, Finished(q.popped, false));
        OnlyMore(Finish(q.(libAlias := 0, popped := q.popped + 1), q.popped, false), reaction);
      }
    case Reply(kind, alias, space, ok, reaction) =>
      if LetThrough(q, alias) {
        var heard := q.(libAlias := 0);
        assert FindMatch(heard, 0, kind, alias, space) == q.popped;
        SuccessAppend(q.log, Finished(q.popped, ok));
        OnlyMore(Finish(heard, q.popped, ok), reaction);
      }
  }

  lemma {:induction false} RunSucceeds(q: Queue, steps: seq<Step>)
    requires Inv(q) && SendsOk(q) && AllFitting(q, steps) && SuccessWasSent(q.log)
    ensures SuccessWasSent(Run(q, steps).log)
    decreases |steps|
  {
    hide LogOk;
    hide SendsOk;
    hide Next;
    hide SuccessWasSent;
    if steps != [] {
      NextPopped(q, steps[0]);
      NextKeepsInv(q, steps[0]);
      NextSends(q, steps[0]);
      NextSucceeds(q, steps[0]);
      RunSucceeds(Next(q, steps[0]), steps[1..]);
    }
  }

  /** As long as the answers fit, a request that succeeds has been sent before. */
  lemma SuccessMeansSent(steps: seq<Step>)
    requires AllFitting(EMPTY, steps)
    ensures SuccessWasSent(Run(EMPTY, steps).log)
  {
    hide Run;
    hide AllFitting;
    EmptyInv();
    EmptySends();
    RunSucceeds(EMPTY, steps);
  }

  // ---------------------------------------------------------------- the library below

  /** What the queue keeps of a request to the library. */
  function Kept(dest: nat, r: MemoryProtocol.Request): Request
  {
    match r
    case ReadRequest(space, _, count) => Request(Read, dest, space, count)
    case WriteRequest(space, _, data) => Request(Write, dest, space, |data|)
    case InfoRequest(space) => Request(Query, dest, space, 0)
    case UpdateComplete => Request(Update, dest, 0, 0)
  }

  /** The frames of a request are counted here as they are made by the library. */
  lemma FramesAreThoseOfTheLibrary(source: nat, dest: nat, r: MemoryProtocol.Request)
    requires MemoryProtocol.RequestOk(r)
    ensures |Datagram.Frames(source, dest, MemoryProtocol.EncodeRequest(r))| == FramesNeeded(Kept(dest, r))
  {
    Datagram.FrameCount(source, dest, MemoryProtocol.EncodeRequest(r));
  }

  /** A wake-up does to the queue what the library does with the request whose turn it is. */
  lemma LibraryIsAsked(q: Queue, remote: RemoteMemory.Remote, rx: Datagram.Rx, source: nat, dest: nat,
                       r: MemoryProtocol.Request, room: nat)
    requires Inv(q) && !q.requesting && !Drained(q) && q.all[Turn(q)] == Kept(dest, r) && MemoryProtocol.RequestOk(r)
    requires q.libAlias == remote.alias
    ensures var asked := RemoteMemory.Ask(remote, rx, source, dest, r, room);
            var p := Next(q, Timer(Attempt(rx.handling, room, [])));
            var frames := Datagram.Frames(source, dest, MemoryProtocol.EncodeRequest(r));
            && p.libAlias == asked.remote.alias
            && (p.requesting <==> asked.outcome == RemoteMemory.Submitted(Datagram.Ok))
            && (Blocked(q, q.all[Turn(q)], rx.handling) <==> !asked.outcome.Submitted?)
            && p.log == q.log + [if asked.sent == frames then Sent(Turn(q), true)
                                 else if p.requesting then Sent(Turn(q), false) else Finished(Turn(q), false)]
  {
    FramesAreThoseOfTheLibrary(source, dest, r);
  }

  /** The steps that the queue takes for what the library reports.  An acknowledgement restarts a timer that runs. */
  function StepsFor(events: seq<RemoteMemory.Event>): seq<Step>
  {
    if events == [] then []
    else
      (match events[0]
       case Accepted(_, _) => []
       case Rejected(alias, code) => [Reject(alias, code, [])]
       case Updated(alias) => [Reply(Update, alias, 0, true, [])]
       case Answered(alias, reply) => [StepForReply(alias, reply)])
      + StepsFor(events[1..])
  }

  function StepForReply(alias: nat, reply: MemoryProtocol.Reply): Step
  {
    match reply
    case ReadOk(space, _, _) => Reply(Read, alias, space, true, [])
    case ReadCutShort(space, _) => Reply(Read, alias, space, true, [])
    case ReadFailed(space, _, _, _) => Reply(Read, alias, space, false, [])
    case WriteOk(space, _) => Reply(Write, alias, space, true, [])
    case WriteFailed(space, _, _, _) => Reply(Write, alias, space, false, [])
    case Info(_, space, _, _, _) => Reply(Query, alias, space, true, [])
  }

  /** A reply that can be meant for a request. */
  predicate CanAnswer(reply: MemoryProtocol.Reply, r: MemoryProtocol.Request)
  {
    match r
    case ReadRequest(space, _, _) => (reply.ReadOk? || reply.ReadCutShort? || reply.ReadFailed?) && reply.space == space
    case WriteRequest(space, _, _) => (reply.WriteOk? || reply.WriteFailed?) && reply.space == space
    case InfoRequest(space) => reply.Info? && reply.space == space
    case UpdateComplete => false
  }

  /** In every run: the outstanding request ends with its reply, and has failed exactly if the reply says so. */
  lemma ReplyDecides(steps: seq<Step>, dest: nat, r: MemoryProtocol.Request, reply: MemoryProtocol.Reply)
    requires var q := Run(EMPTY, steps);
             && q.requesting && q.popped < |q.all| && q.all[q.popped] == Kept(dest, r) && dest == q.libAlias != 0
             && CanAnswer(reply, r)
    ensures var q := Run(EMPTY, steps);
            Run(q, StepsFor([RemoteMemory.Answered(dest, reply)])).log
            == q.log + [Finished(q.popped, !reply.ReadFailed? && !reply.WriteFailed?)]
  {
    hide LogOk;
    EmptyInv();
    RunKeepsInv(EMPTY, steps);
    var q := Run(EMPTY, steps);
    var s := StepForReply(dest, reply);
    StepsForFew([RemoteMemory.Answered(dest, reply)]);
    AnswerEndsExactly(steps, s.kind, dest, s.space, s.ok, [], q.popped);
    NextPopped(q, s);
    assert [s][1..] == [];
  }

  /**
   What comes in is one step of the queue, which gets through and leaves the library waiting for nothing, or none, and
   then nothing changes.
   */
  ghost predicate IsTaken(q: Queue, remote: RemoteMemory.Remote, source: nat, h: RemoteMemory.Heard)
    requires q.popped <= |q.all|
  {
    var steps := StepsFor(h.events);
    && |steps| <= 1 && (steps != [] ==> LetThrough(q, source))
    && Run(q, steps).libAlias == h.remote.alias
    && (steps == [] ==> h.remote == remote)
  }

  /** What comes in gets through to the queue exactly if the library takes it for the end of its request. */
  lemma LibraryAnswers(q: Queue, remote: RemoteMemory.Remote, source: nat, flags: CanId.Byte, code: nat,
                       buffer: seq<CanId.Byte>, len: nat)
    requires Inv(q) && q.libAlias == remote.alias && source != 0 && MemoryProtocol.Filled(buffer, len)
    ensures var answer := RemoteMemory.OnDatagram(remote, source, buffer, len);
            && IsTaken(q, remote, source, answer)
            && (StepsFor(answer.events) != [] <==>
                  LetThrough(q, source) && MemoryProtocol.DecodeReply(buffer, len).Some?)
    ensures var ok := RemoteMemory.OnOk(remote, source, flags);
            && IsTaken(q, remote, source, ok)
            && (StepsFor(ok.events) != [] <==>
                  LetThrough(q, source)
                  && (remote.isUpdate || (remote.isWrite && flags / MemoryProtocol.REPLY_PENDING % 2 == 0)))
    ensures var rejection := RemoteMemory.OnRejected(remote, source, code);
            && IsTaken(q, remote, source, rejection)
            && (StepsFor(rejection.events) != [] <==> LetThrough(q, source))
  {
    hide Inv;
    hide IsTaken;
    hide StepsFor;
    HearingIsTaken(q, remote, source, RemoteMemory.OnDatagram(remote, source, buffer, len));
    HearingIsTaken(q, remote, source, RemoteMemory.OnOk(remote, source, flags));
    HearingIsTaken(q, remote, source, RemoteMemory.OnRejected(remote, source, code));
  }

  /** The events end with one that says that the request is over, or there is none and nothing changes. */
  lemma HearingIsTaken(q: Queue, remote: RemoteMemory.Remote, source: nat, h: RemoteMemory.Heard)
    requires Inv(q) && q.libAlias == remote.alias && source != 0 && |h.events| <= 2
    requires forall i :: 0 <= i < |h.events| ==>
               h.events[i].alias == source && (h.events[i].Accepted? || i == |h.events| - 1)
    requires if h.events == [] || h.events[|h.events| - 1].Accepted? then h.remote == remote && |h.events| <= 1
             else h.remote.alias == 0 && source == remote.alias
    ensures q.popped <= |q.all| && IsTaken(q, remote, source, h)
    ensures StepsFor(h.events) != [] <==> h.events != [] && !h.events[|h.events| - 1].Accepted?
  {
    hide LogOk;
    hide Next;
    StepsForFew(h.events);
    if |h.events| == 2 {
      StepsForFew([h.events[1]]);
    }
    var steps := StepsFor(h.events);
    if |steps| == 1 {
      OneStepHeard(q, steps);
    }
  }

  lemma StepsForFew(events: seq<RemoteMemory.Event>)
    ensures events == [] ==> StepsFor(events) == []
    ensures |events| == 1 ==> |StepsFor(events)| == if events[0].Accepted? then 0 else 1
    ensures |events| == 1 && !events[0].Accepted? ==>
              StepsFor(events) == [match events[0]
                                   case Accepted(_, _) => Timeout([])
                                   case Rejected(alias, code) => Reject(alias, code, [])
                                   case Updated(alias) => Reply(Update, alias, 0, true, [])
                                   case Answered(alias, reply) => StepForReply(alias, reply)]
    ensures |events| == 2 && events[0].Accepted? ==> StepsFor(events) == StepsFor([events[1]])
  {
    if |events| == 1 {
      assert events[1..] == [];
    } else if |events| == 2 {
      assert events[1..] == [events[1]];
    }
  }

  /** A step that gets through leaves the library waiting for nothing. */
  lemma OneStepHeard(q: Queue, steps: seq<Step>)
    requires Inv(q) && |steps| == 1
    requires steps[0].Reject? || steps[0].Reply?
    requires LetThrough(q, steps[0].alias)
    requires steps[0].reaction == []
    ensures Run(q, steps).libAlias == 0
  {
    NextPopped(q, steps[0]);
    assert steps[1..] == [];
  }

  // ---------------------------------------------------------------- where it goes wrong

  /**
   An answer that fits no request all the same ends the turn of the one that is outstanding, and gives it all its
   tries back, except for the failure of a read, which changes nothing but that the library is free.
   */
  lemma StrangeAnswerStartsOver(q: Queue, kind: Kind, alias: nat, space: nat, ok: bool, reaction: Reaction)
    requires Inv(q) && LetThrough(q, alias)
    requires forall k :: 0 <= k < |q.all| && k !in q.finished ==> !Matches(q.all[k], kind, alias, space)
    ensures Next(q, Reply(kind, alias, space, ok, reaction))
            == if kind == Read && !ok then q.(libAlias := 0)
               else q.(libAlias := 0, requesting := false, retries := 0, waiting := false, wakeups := q.wakeups + 1)
  {
  }

  /** So with such answers in between, a request is sent any number of times. */
  lemma {:induction false} SentAnyNumberOfTimes(q: Queue, kind: Kind, space: nat, n: nat) returns (steps: seq<Step>)
    requires Inv(q) && !q.requesting && q.libAlias == 0 && !Drained(q) && q.all[Turn(q)].alias != 0
    requires q.all[Turn(q)].kind == Read ==> q.all[Turn(q)].len <= BLOCK
    requires forall k :: 0 <= k < |q.all| && k !in q.finished ==>
               !Matches(q.all[k], kind, q.all[Turn(q)].alias, space)
    ensures Transmissions(Run(q, steps).log, Turn(q)) == Transmissions(q.log, Turn(q)) + n
    decreases n
  {
    hide Inv;
    hide Next;
    hide Transmissions;
    hide Matches;
    if n == 0 {
      steps := [];
    } else {
      var send := Timer(Attempt(false, 9, []));
      var answer := Reply(kind, q.all[Turn(q)].alias, space, true, []);
      SentOnceMore(q, kind, space);
      NextPopped(q, send);
      NextPopped(Next(q, send), answer);
      var rest := SentAnyNumberOfTimes(Next(Next(q, send), answer), kind, space, n - 1);
      steps := [send, answer] + rest;
      assert steps[1..] == [answer] + rest && steps[1..][1..] == rest;
    }
  }

  /** One round of it, after which everything else is as before. */
  lemma SentOnceMore(q: Queue, kind: Kind, space: nat)
    requires Inv(q) && !q.requesting && q.libAlias == 0 && !Drained(q) && q.all[Turn(q)].alias != 0
    requires q.all[Turn(q)].kind == Read ==> q.all[Turn(q)].len <= BLOCK
    requires forall k :: 0 <= k < |q.all| && k !in q.finished ==>
               !Matches(q.all[k], kind, q.all[Turn(q)].alias, space)
    ensures var sent := Next(q, Timer(Attempt(false, 9, [])));
            var p := Next(sent, Reply(kind, q.all[Turn(q)].alias, space, true, []));
            && Inv(p) && !p.requesting && p.libAlias == 0 && p.all == q.all && p.finished == q.finished
            && p.popped <= |p.all| && Turn(p) == Turn(q)
            && Transmissions(p.log, Turn(q)) == Transmissions(q.log, Turn(q)) + 1
  {
    hide LogOk;
    hide FindMatch;
    hide Answer;
    hide Refuse;
    hide GiveUpWaiting;
    hide SubmitOne;
    hide Matches;
    var send := Timer(Attempt(false, 9, []));
    var answer := Reply(kind, q.all[Turn(q)].alias, space, true, []);
    var sent := Next(q, send);
    NextKeepsInv(q, send);
    StrangeAnswerStartsOver(sent, kind, q.all[Turn(q)].alias, space, true, []);
    NextKeepsInv(sent, answer);
    TurnIs(Next(sent, answer), Turn(q));
    var whole := FramesNeeded(q.all[Turn(q)]) <= 9;
    TimesAppend(q.log, Sent(Turn(q), whole), Sent(Turn(q), true));
    TimesAppend(q.log, Sent(Turn(q), whole), Sent(Turn(q), false));
  }

  /**
   A request can be over before the call that makes it returns, so that nobody can listen for its end in time.
   That happens exactly when nothing waits before it and it cannot be sent; if it can be sent then, it is sent at
   once.
   */
  lemma OverBeforeSubmitReturns(q: Queue, r: Request, a: Attempt)
    requires Inv(q)
    ensures |q.all| in SubmitOne(q, r, a).finished
            <==> !q.requesting && Drained(q) && (Blocked(q, r, a.receiving) || a.room == 0)
    ensures !q.requesting && Drained(q) && !Blocked(q, r, a.receiving) && a.room > 0 ==>
              SentMore(q.log, SubmitOne(q, r, a).log, |q.all|)
  {
    var p := Enqueue(q, r);
    TurnIs(p, Turn(q));
  }

  /** Nothing that is asked for is forgotten, also not what those ask for who react to a request that was not sent. */
  lemma SubmittedIsKept(q: Queue, r: Request, a: Attempt)
    requires Inv(q)
    ensures Next(q, Submit(r, a)).all
            == q.all + [r] + if q.requesting || CanBeSent(Enqueue(q, r), a) then [] else a.more
    ensures Next(q, Timer(a)).all
            == q.all + if q.wakeups == 0 || q.requesting || Drained(q) || CanBeSent(q, a) then [] else a.more
  {
    hide LogOk;
    var e := Enqueue(q, r);
    TurnIs(e, Turn(q));
    assert e.all == q.all + [r] == q.all + [r] + [] && q.all == q.all + [];
  }

  /** Nor what those ask for who react to the end of a request that was outstanding. */
  lemma ReactionIsKept(q: Queue, s: Step)
    requires Inv(q) && q.requesting && (s.Timeout? || s.Reject? || s.Reply?)
    ensures var p := Next(q, s);
            p.all == if p.finished == q.finished then q.all else q.all + Made(s.reaction)
  {
    hide LogOk;
    hide SubmitAll;
    match s
    case Timeout(reaction) => KeptBy(q.(libAlias := 0, waiting := false), q.popped, false, reaction);
    case Reject(_, _, reaction) => KeptBy(q.(libAlias := 0), q.popped, false, reaction);
    case Reply(kind, alias, space, ok, reaction) =>
      KeptBy(q.(libAlias := 0), FindMatch(q.(libAlias := 0), 0, kind, alias, space), ok, reaction);
  }

  /** Whether the request whose turn it is gets past the library and finds room for a frame. */
  predicate CanBeSent(q: Queue, a: Attempt)
    requires q.popped <= |q.all|
  {
    Turn(q) < |q.all| && !Blocked(q, q.all[Turn(q)], a.receiving) && a.room > 0
  }

  function Made(reaction: Reaction): seq<Request>
    decreases |reaction|
  {
    if reaction == [] then [] else [reaction[0].0] + Made(reaction[1..])
  }

  lemma {:induction false} SubmitAllMakes(q: Queue, reaction: Reaction)
    requires q.popped <= |q.all| && q.requesting
    ensures SubmitAll(q, reaction).all == q.all + Made(reaction)
    decreases |reaction|
  {
    if reaction != [] {
      var r := reaction[0].0;
      SubmitAllMakes(Enqueue(q, r), reaction[1..]);
      assert q.all + [r] + Made(reaction[1..]) == q.all + ([r] + Made(reaction[1..]));
    }
  }

  lemma KeptBy(q: Queue, id: nat, ok: bool, reaction: Reaction)
    requires q.popped < |q.all| && q.requesting && q.popped !in q.finished
    ensures var p := SubmitAll(Finish(q, id, ok), reaction);
            p.all == q.all + Made(reaction) && p.finished == q.finished + {id}
    ensures var p := FailCurrent(q, reaction);
            p.all == q.all + Made(reaction) && p.finished == q.finished + {q.popped}
  {
    SubmitAllMakes(Finish(q, id, ok), reaction);
    OnlyMore(Finish(q, id, ok), reaction);
    SubmitAllMakes(Finish(q.(popped := q.popped + 1), q.popped, false), reaction);
    OnlyMore(Finish(q.(popped := q.popped + 1), q.popped, false), reaction);
  }

  /**
   An earlier request can end while another one is made, which those who listen for it do hear.  That happens exactly
   to the one whose turn it is, when it cannot be sent; it is the only one, and it has failed.
   */
  lemma EarlierOverDuringSubmit(q: Queue, r: Request, a: Attempt, id: nat)
    requires Inv(q) && id < |q.all| && id !in q.finished
    ensures var p := SubmitOne(q, r, a);
            && (id in p.finished <==>
                  !q.requesting && id == Turn(q) && (Blocked(q, q.all[id], a.receiving) || a.room == 0))
            && (id in p.finished ==> p.log == q.log + [Finished(id, false)])
  {
    var p := Enqueue(q, r);
    TurnIs(p, Turn(q));
  }

  predicate OnlyTimers(steps: seq<Step>)
  {
    forall i :: 0 <= i < |steps| ==> steps[i].Timer? && steps[i].attempt.more == []
  }

  /**
   Exactly when the request whose turn it is counts as outstanding, when it really goes out, and so when it is waited
   for although nothing of it was sent.
   */
  lemma OutstandingExactly(q: Queue, a: Attempt)
    requires Inv(q) && !q.requesting && !Drained(q) && !Blocked(q, q.all[Turn(q)], a.receiving)
    ensures var p := Next(q, Timer(a));
            var needed := FramesNeeded(q.all[Turn(q)]);
            && (p.requesting <==> a.room > 0)
            && (p.requesting ==> p.popped == Turn(q) && p.libAlias == q.all[Turn(q)].alias)
            && (p.log == q.log + [Sent(Turn(q), true)] <==> needed <= a.room)
            && (p.log == q.log + [Sent(Turn(q), false)] <==> 0 < a.room < needed)
            && (p.log == q.log + [Finished(Turn(q), false)] <==> a.room == 0)
  {
    var p := Next(q, Timer(a));
    assert p.log[|q.log|] == if a.room == 0 then Finished(Turn(q), false)
                             else Sent(Turn(q), FramesNeeded(q.all[Turn(q)]) <= a.room);
    assert FramesNeeded(q.all[Turn(q)]) > 0;
  }

  /**
   A send that fails on the bus leaves the library waiting for an answer to it.  Nobody cancels that, since
   nothing counts as outstanding here.  From then on every read, write and update fails without being sent.
   */
  lemma FailedSendLeavesLibraryWaiting(q: Queue, a: Attempt)
    requires Inv(q) && !q.requesting && !Drained(q) && !Blocked(q, q.all[Turn(q)], a.receiving)
    requires a.room == 0
    ensures var p := Next(q, Timer(a));
            p.libAlias == q.all[Turn(q)].alias && !p.requesting && Turn(q) in p.finished
            && Next(p, Timeout([])) == p
  {
  }

  lemma {:induction false} WaitingLibraryFailsEverything(q: Queue, steps: seq<Step>)
    requires Inv(q) && !q.requesting && q.libAlias != 0 && OnlyTimers(steps)
    requires forall k :: 0 <= k < |q.all| && k !in q.finished ==> q.all[k].kind != Query
    ensures var p := Run(q, steps);
            && p.libAlias == q.libAlias && !p.requesting
            && (forall id: nat :: Transmissions(p.log, id) == Transmissions(q.log, id))
            && (|steps| >= |q.all| - Turn(q) ==> Drained(p))
    decreases |steps|
  {
    hide LogOk;
    if steps != [] {
      var p := Next(q, steps[0]);
      NextKeepsInv(q, steps[0]);
      if Turn(q) < |q.all| {
        FinishSendsNothing(q, Turn(q), false);
        assert Turn(p) > Turn(q);
      } else {
        TurnIs(p, Turn(q));
      }
      WaitingLibraryFailsEverything(p, steps[1..]);
    }
  }
}
