/**
 The request queue as the program keeps it (GUI/lcc/lccconnection.cpp): reply objects in a queue, and once more in
 a list of those of their kind that are in flight.  Every call does what RequestQueue says.
 */
module Connection {
  import opened Basics
  import opened RequestQueue

  ghost predicate Ascending(s: seq<nat>)
  {
    forall i, j :: 0 <= i < j < |s| ==> s[i] < s[j]
  }

  function RemoveOne(s: seq<nat>, x: nat): seq<nat>
  {
    if s == [] then [] else if s[0] == x then s[1..] else [s[0]] + RemoveOne(s[1..], x)
  }

  lemma {:induction false} RemoveOneExactly(s: seq<nat>, x: nat)
    requires Ascending(s)
    ensures Ascending(RemoveOne(s, x))
    ensures forall y :: y in RemoveOne(s, x) <==> y in s && y != x
    decreases |s|
  {
    if s != [] {
      RemoveOneExactly(s[1..], x);
      assert forall y :: y in s <==> y == s[0] || y in s[1..];
      if s[0] == x {
        assert forall y :: y in s[1..] ==> y > x;
      } else {
        var rest := RemoveOne(s[1..], x);
        forall i, j | 0 <= i < j < |rest| + 1
          ensures ([s[0]] + rest)[i] < ([s[0]] + rest)[j]
        {
          assert rest[j - 1] in s[1..];
        }
      }
    }
  }

  lemma NothingIn(s: seq<nat>)
    ensures s == [] <==> forall x :: x !in s
  {
    if s != [] {
      assert s[0] in s;
    }
  }

  lemma AscendingPush(s: seq<nat>, n: nat)
    requires Ascending(s) && forall x :: x in s ==> x < n
    ensures Ascending(s + [n]) && forall x :: x in s + [n] <==> x in s || x == n
  {
    assert forall i :: 0 <= i < |s| ==> s[i] in s;
  }

  /** A list in ascending order is known when it is known what is in it. */
  lemma {:induction false} AscendingUnique(a: seq<nat>, b: seq<nat>)
    requires Ascending(a) && Ascending(b) && forall x :: x in a <==> x in b
    ensures a == b
    decreases |a|
  {
    NothingIn(a);
    NothingIn(b);
    if a != [] {
      assert a[0] in b && b[0] in a;
      assert a[0] == b[0];
      forall x
        ensures x in a[1..] <==> x in b[1..]
      {
        assert x in a <==> x == a[0] || x in a[1..];
        assert x in b <==> x == b[0] || x in b[1..];
      }
      AscendingUnique(a[1..], b[1..]);
    }
  }

  /** The requests of one kind that have not finished, in the order they were made. */
  function Unfinished(all: seq<Request>, finished: set<nat>, kind: Kind, n: nat): seq<nat>
    requires n <= |all|
  {
    if n == 0 then []
    else
      Unfinished(all, finished, kind, n - 1)
      + if all[n - 1].kind == kind && n - 1 !in finished then [n - 1] else []
  }

  lemma {:induction false} UnfinishedExactly(all: seq<Request>, finished: set<nat>, kind: Kind, n: nat)
    requires n <= |all|
    ensures Ascending(Unfinished(all, finished, kind, n))
    ensures forall id: nat :: id in Unfinished(all, finished, kind, n) <==>
                              id < n && all[id].kind == kind && id !in finished
    decreases n
  {
    if n > 0 {
      UnfinishedExactly(all, finished, kind, n - 1);
      var before := Unfinished(all, finished, kind, n - 1);
      assert forall i :: 0 <= i < |before| ==> before[i] in before;
    }
  }

  /** A list in flight: the requests of its kind that have not finished or are held, in the order they were made. */
  ghost predicate ListOk(list: seq<nat>, kind: Kind, all: seq<Request>, done: set<nat>, held: set<nat>)
  {
    && Ascending(list)
    && forall id: nat :: id in list <==> id < |all| && all[id].kind == kind && (id !in done || id in held)
  }

  lemma PushKeepsList(list: seq<nat>, kind: Kind, all: seq<Request>, done: set<nat>, held: set<nat>, r: Request)
    requires ListOk(list, kind, all, done, held) && |all| !in done
    ensures ListOk(if r.kind == kind then list + [|all|] else list, kind, all + [r], done, held)
  {
    AscendingPush(list, |all|);
    hide Ascending;
  }

  lemma FinishKeepsList(list: seq<nat>, kind: Kind, all: seq<Request>, done: set<nat>, held: set<nat>, id: nat)
    requires ListOk(list, kind, all, done, held) && id < |all| && id !in held
    ensures ListOk(if all[id].kind == kind then RemoveOne(list, id) else list, kind, all, done + {id}, held)
  {
    RemoveOneExactly(list, id);
  }

  lemma HoldKeepsList(list: seq<nat>, kind: Kind, all: seq<Request>, done: set<nat>, held: set<nat>, id: nat)
    requires ListOk(list, kind, all, done, held) && id !in done
    ensures ListOk(list, kind, all, done + {id}, held + {id})
  {
  }

  lemma ReleaseKeepsList(list: seq<nat>, kind: Kind, all: seq<Request>, done: set<nat>, held: set<nat>, id: nat)
    requires ListOk(list, kind, all, done, held + {id}) && id < |all| && id in done && id !in held
    ensures ListOk(if all[id].kind == kind then RemoveOne(list, id) else list, kind, all, done, held)
  {
    RemoveOneExactly(list, id);
  }

  class LccConnection {
    /** The reply objects, and those whose flag says that they have finished. */
    var replies: seq<Request>
    var done: set<nat>
    var order: seq<nat>
    var inflight: map<Kind, seq<nat>>
    var requesting: bool
    var retries: nat
    var waiting: bool
    var wakeups: nat
    var libAlias: nat
    var log: seq<Event>

    /** The queue holds the latest requests, and the lists are right except for those that are held. */
    ghost predicate Lists(held: set<nat>)
      reads this
    {
      && |order| <= |replies| && held <= done
      && (forall id :: id in done ==> id < |replies|)
      && (forall j :: 0 <= j < |order| ==> order[j] == |replies| - |order| + j)
      && (forall kind: Kind :: kind in inflight && ListOk(inflight[kind], kind, replies, done, held))
    }

    ghost predicate Valid()
      reads this
    {
      Lists({})
    }

    ghost function State(): (q: Queue)
      requires |order| <= |replies|
      reads this
      ensures q.popped <= |q.all|
    {
      Queue(replies, |replies| - |order|, done, requesting, retries, waiting, wakeups, libAlias, log)
    }

    constructor ()
      ensures Valid() && State() == EMPTY
    {
      replies, done, order, log := [], {}, [], [];
      inflight := map[Read := [], Query := [], Write := [], Update := []];
      requesting, retries, waiting, wakeups, libAlias := false, 0, false, 0, 0;
      new;
      forall kind: Kind
        ensures kind in inflight && ListOk(inflight[kind], kind, replies, done, {})
      {
        match kind
        case Read | Query | Write | Update =>
          assert kind in inflight && inflight[kind] == [];
      }
    }

    /** Each list in flight is the queue of its kind: nothing is lost, and nothing is in it twice. */
    lemma InflightIsUnfinished(kind: Kind)
      requires Valid()
      ensures inflight[kind] == Unfinished(replies, done, kind, |replies|)
    {
      UnfinishedExactly(replies, done, kind, |replies|);
      AscendingUnique(inflight[kind], Unfinished(replies, done, kind, |replies|));
    }

    // -------------------------------------------------------------- making requests

    method Push(r: Request, ghost held: set<nat>)
      requires Lists(held)
      modifies this`replies, this`order, this`inflight
      ensures Lists(held) && State() == Enqueue(old(State()), r)
    {
      hide ListOk;
      var id := |replies|;
      forall kind: Kind {
        PushKeepsList(inflight[kind], kind, replies, done, held, r);
      }
      replies := replies + [r];
      inflight := inflight[r.kind := inflight[r.kind] + [id]];
      order := order + [id];
    }

    method SubmitRequest(r: Request, a: Attempt, ghost held: set<nat>)
      requires Lists(held)
      modifies this
      ensures Lists(held) && State() == SubmitOne(old(State()), r, a)
    {
      Push(r, held);
      if !requesting {
        RequestNextMemoryBlock(a, held);
      }
    }

    method ReadSingleMemoryBlock(alias: int, space: int, len: int, a: Attempt) returns (id: Option<nat>)
      requires Valid() && Inv(State())
      modifies this
      ensures Valid()
      ensures if alias < 0 || space < 0 || space > 255 || len > BLOCK
              then id == None && State() == old(State())
              else id == Some(|old(replies)|) && State()
                   == Next(old(State()), Submit(Request(Read, alias % 0x1_0000, space, len % 0x100), a))
    {
      if alias < 0 || space < 0 || space > 255 || len > BLOCK {
        return None;
      }
      id := Some(|replies|);
      SubmitRequest(Request(Read, alias % 0x1_0000, space, len % 0x100), a, {});
    }

    method QueryAddressSpaceInformation(alias: int, space: int, a: Attempt) returns (id: Option<nat>)
      requires Valid() && Inv(State())
      modifies this
      ensures Valid()
      ensures if alias < 0 || space < 0 || space > 255 then id == None && State() == old(State())
              else id == Some(|old(replies)|)
                   && State() == Next(old(State()), Submit(Request(Query, alias % 0x1_0000, space, 0), a))
    {
      if alias < 0 || space < 0 || space > 255 {
        return None;
      }
      id := Some(|replies|);
      SubmitRequest(Request(Query, alias % 0x1_0000, space, 0), a, {});
    }

    method WriteSingleMemoryBlock(alias: int, space: int, size: nat, a: Attempt) returns (id: Option<nat>)
      requires Valid() && Inv(State())
      modifies this
      ensures Valid()
      ensures if alias < 0 || space < 0 || space > 255 || size == 0 || size > BLOCK
              then id == None && State() == old(State())
              else id == Some(|old(replies)|)
                   && State() == Next(old(State()), Submit(Request(Write, alias % 0x1_0000, space, size), a))
    {
      if alias < 0 || space < 0 || space > 255 || size == 0 || size > BLOCK {
        return None;
      }
      id := Some(|replies|);
      SubmitRequest(Request(Write, alias % 0x1_0000, space, size), a, {});
    }

    method SendUpdateComplete(alias: int, a: Attempt) returns (id: Option<nat>)
      requires Valid() && Inv(State())
      modifies this
      ensures Valid()
      ensures if alias <= 0 then id == None && State() == old(State())
              else id == Some(|old(replies)|)
                   && State() == Next(old(State()), Submit(Request(Update, alias % 0x1_0000, 0, 0), a))
    {
      if alias <= 0 {
        return None;
      }
      id := Some(|replies|);
      SubmitRequest(Request(Update, alias % 0x1_0000, 0, 0), a, {});
    }

    // -------------------------------------------------------------- finishing them

    method React(reaction: Reaction, ghost held: set<nat>)
      requires Lists(held)
      modifies this
      ensures Lists(held) && State() == SubmitAll(old(State()), reaction)
    {
      var i := 0;
      while i < |reaction|
        invariant i <= |reaction| && Lists(held)
        invariant SubmitAll(State(), reaction[i..]) == SubmitAll(old(State()), reaction)
      {
        assert reaction[i..][1..] == reaction[i + 1..];
        SubmitRequest(reaction[i].0, reaction[i].1, held);
        i := i + 1;
      }
    }

    method Remove(id: nat, ghost held: set<nat>)
      requires Lists(held + {id}) && id < |replies| && id in done && id !in held
      modifies this`inflight
      ensures Lists(held)
    {
      hide ListOk;
      forall kind: Kind {
        ReleaseKeepsList(inflight[kind], kind, replies, done, held, id);
      }
      var kind := replies[id].kind;
      inflight := inflight[kind := RemoveOne(inflight[kind], id)];
    }

    /** The flag is set first; those who react do so before the call returns. */
    method SetFinished(id: nat, ok: bool, ghost held: set<nat>)
      requires Lists(held) && id < |replies| && id !in done && id !in held
      modifies this`done, this`log
      ensures Lists(held + {id}) && State() == Finish(old(State()), id, ok)
    {
      hide ListOk;
      forall kind: Kind {
        HoldKeepsList(inflight[kind], kind, replies, done, held, id);
      }
      done := done + {id};
      log := log + [Finished(id, ok)];
    }

    method MemoryRequestDone()
      modifies this`retries, this`requesting, this`waiting, this`wakeups
      ensures |order| <= |replies| ==> State() == Done(old(State()))
      ensures retries == 0 && !requesting
    {
      waiting := false;
      retries, requesting := 0, false;
      wakeups := wakeups + 1;
    }

    /** The first in the list that the answer matches. */
    method FindReply(kind: Kind, alias: nat, space: nat) returns (found: Option<nat>)
      requires Valid()
      ensures var m := FindMatch(State(), 0, kind, alias, space);
              found == if m == |replies| then None else Some(m)
    {
      var list := inflight[kind];
      ghost var m := FindMatch(State(), 0, kind, alias, space);
      if m < |replies| {
        assert m in list;
      }
      var i := 0;
      while i < |list|
        invariant i <= |list|
        invariant m < |replies| ==> exists k :: i <= k < |list| && list[k] == m
      {
        var id := list[i];
        assert id in list;
        if id !in done && Matches(replies[id], kind, alias, space) {
          return Some(id);
        }
        i := i + 1;
      }
      found := None;
    }

    /** remoteMemoryInformation and remoteMemoryReceived: the list is brought up to date after everyone has reacted. */
    method FinishThenRemove(kind: Kind, alias: nat, space: nat, reaction: Reaction)
      requires Valid() && Inv(State())
      modifies this
      ensures Valid() && State() == Answer(old(State()), kind, alias, space, true, reaction)
    {
      hide ListOk;
      hide SubmitAll;
      hide LogOk;
      hide Pending;
      var found := FindReply(kind, alias, space);
      if found.Some? {
        SetFinished(found.value, true, {});
        assert {} + {found.value} == {found.value};
        React(reaction, {found.value});
        SubmitAllGrows(Finish(old(State()), found.value, true), reaction);
        Remove(found.value, {});
      }
      MemoryRequestDone();
    }

    /** remoteMemoryWriteFinished and remoteMemoryUpdateCompleteFinished: the list is brought up to date first. */
    method RemoveThenFinish(kind: Kind, alias: nat, space: nat, ok: bool, reaction: Reaction)
      requires Valid() && Inv(State()) && (kind == Read ==> ok)
      modifies this
      ensures Valid() && State() == Answer(old(State()), kind, alias, space, ok, reaction)
    {
      hide ListOk;
      hide SubmitAll;
      var found := FindReply(kind, alias, space);
      if found.Some? {
        RemoveAndSet(found.value, ok, {});
        React(reaction, {});
      }
      MemoryRequestDone();
    }

    method RemoveAndSet(id: nat, ok: bool, ghost held: set<nat>)
      requires Lists(held) && id < |replies| && id !in held
      modifies this`inflight, this`done, this`log
      ensures Lists(held) && State() == Finish(old(State()), id, ok)
    {
      hide ListOk;
      forall kind: Kind {
        FinishKeepsList(inflight[kind], kind, replies, done, held, id);
      }
      var kind := replies[id].kind;
      inflight := inflight[kind := RemoveOne(inflight[kind], id)];
      done := done + {id};
      log := log + [Finished(id, ok)];
    }

    method RemoteMemoryReadRejected(alias: nat, space: nat, reaction: Reaction)
      requires Valid() && Inv(State())
      modifies this
      ensures Valid() && State() == Answer(old(State()), Read, alias, space, false, reaction)
    {
      hide ListOk;
      hide SubmitAll;
      var found := FindReply(Read, alias, space);
      if found.None? {
        return;
      }
      RemoveAndSet(found.value, false, {});
      React(reaction, {});
      MemoryRequestDone();
    }

    /** An answer from the library, which waits for nothing from then on.  Only reads and writes can be rejected. */
    method Answered(kind: Kind, alias: nat, space: nat, ok: bool, reaction: Reaction)
      requires Valid() && Inv(State()) && (ok || kind == Read || kind == Write)
      modifies this
      ensures Valid() && State() == Next(old(State()), Reply(kind, alias, space, ok, reaction))
    {
      hide ListOk;
      hide Answer;
      hide Pending;
      if alias != libAlias || alias == 0 {
        return;
      }
      libAlias := 0;
      if kind == Write || kind == Update {
        RemoveThenFinish(kind, alias, space, ok, reaction);
      } else if ok {
        FinishThenRemove(kind, alias, space, reaction);
      } else {
        RemoteMemoryReadRejected(alias, space, reaction);
      }
    }

    method RetryCurrentRequest()
      modifies this`retries, this`requesting, this`waiting, this`wakeups
      ensures |order| <= |replies| ==> State() == Retry(old(State()))
    {
      retries := retries + 1;
      waiting, requesting := false, false;
      wakeups := wakeups + 1;
    }

    method FailCurrentRequest(reaction: Reaction)
      requires Valid() && QueueOk(State()) && order != [] && order[0] !in done
      modifies this
      ensures Valid() && State() == FailCurrent(old(State()), reaction)
    {
      hide ListOk;
      hide SubmitAll;
      var current := order[0];
      order := order[1..];
      RemoveAndSet(current, false, {});
      React(reaction, {});
      MemoryRequestDone();
    }

    method RemoteMemoryRequestFailed(alias: nat, code: nat, reaction: Reaction)
      requires Valid() && Inv(State())
      modifies this
      ensures Valid() && State() == Next(old(State()), Reject(alias, code, reaction))
    {
      if alias != libAlias || alias == 0 {
        return;
      }
      libAlias := 0;
      if !requesting || order == [] || replies[order[0]].alias != alias {
        return;
      }
      if code / TEMPORARY % 2 == 1 && retries < MAX_RETRIES {
        RetryCurrentRequest();
        return;
      }
      FailCurrentRequest(reaction);
    }

    /** The timer for the answer, which fires once. */
    method MemoryRequestTimedOut(reaction: Reaction)
      requires Valid() && Inv(State()) && waiting
      modifies this
      ensures Valid() && State() == Next(old(State()), Timeout(reaction))
    {
      waiting := false;
      if !requesting || order == [] {
        return;
      }
      libAlias := 0;
      if retries < MAX_RETRIES {
        RetryCurrentRequest();
        return;
      }
      FailCurrentRequest(reaction);
    }

    // -------------------------------------------------------------- sending

    /** A timer that was started to wake up the queue. */
    method WakeUp(a: Attempt)
      requires Valid() && Inv(State()) && wakeups > 0
      modifies this
      ensures Valid() && State() == Next(old(State()), Timer(a))
    {
      hide ListOk;
      hide RequestNext;
      hide Pending;
      hide LogOk;
      wakeups := wakeups - 1;
      RequestNextMemoryBlock(a, {});
    }

    /** Skips what has finished, and sends the next request. */
    method RequestNextMemoryBlock(a: Attempt, ghost held: set<nat>)
      requires Lists(held)
      modifies this
      ensures Lists(held) && State() == RequestNext(old(State()), a)
    {
      hide ListOk;
      hide Pending;
      hide SendNext;
      if requesting {
        return;
      }
      SkipFinished(held);
      if order != [] {
        SendFront(a, held);
      }
    }

    /** The library tells at once if nothing was sent. */
    method SendFront(a: Attempt, ghost held: set<nat>)
      requires Lists(held) && !requesting && order != [] && order[0] !in done
      modifies this
      ensures Lists(held) && State() == SendNext(old(State()), a)
    {
      hide ListOk;
      hide FramesNeeded;
      UnsentForgets(State());
      hide Unsent;
      requesting := true;
      var next := order[0];
      var r := replies[next];
      var sent := false;
      if r.kind == Query || !(libAlias != 0 || a.receiving || (r.kind == Read && r.len > BLOCK)) {
        libAlias := r.alias;
        sent := a.room > 0;
      }
      if sent {
        log := log + [Sent(next, FramesNeeded(r) <= a.room)];
        waiting := true;
      } else {
        FailUnsent(next, a.more, held);
      }
    }

    method SkipFinished(ghost held: set<nat>)
      requires Lists(held)
      modifies this`order
      ensures Lists(held)
      ensures State() == old(State()).(popped := Pending(old(State()), old(State()).popped))
    {
      while order != [] && order[0] in done
        invariant Lists(held)
        invariant State() == old(State()).(popped := State().popped)
        invariant Pending(old(State()), State().popped) == Pending(old(State()), old(State()).popped)
        decreases |order|
      {
        order := order[1..];
      }
    }

    /**
     Nothing was sent, so nothing will come back: the request leaves its list and is finished, and those who react
     only add to the queue.
     */
    method FailUnsent(next: nat, more: seq<Request>, ghost held: set<nat>)
      requires Lists(held) && order != [] && next == order[0] && next !in done
      modifies this
      ensures Lists(held) && State() == Unsent(old(State()), next, more)
    {
      hide ListOk;
      RemoveAndSet(next, false, held);
      for i := 0 to |more|
        invariant Lists(held) && |order| == |old(order)| + i
        invariant State() == var f := Finish(old(State()), next, false); f.(all := f.all + more[..i])
      {
        Push(more[i], held);
        assert more[..i + 1] == more[..i] + [more[i]];
      }
      assert more[..|more|] == more;
      order := order[1..];
      MemoryRequestDone();
    }
  }
}
