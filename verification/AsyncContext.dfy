/** The linked list of pending callbacks. */
module CallbackLists {
  import opened Options
  import opened AsyncMachine

  class Node {
    var cb: Callback
    var next: Node?

    constructor (cb: Callback)
      ensures this.cb == cb && next == null
    {
      this.cb := cb;
      next := null;
    }
  }

  class CallbackList {
    var head: Node?
    var tail: Node?
    ghost var nodes: seq<Node>
    ghost var Repr: set<object>

    ghost function At(i: nat): Node?
      reads this
    {
      if i < |nodes| then nodes[i] else null
    }

    ghost predicate Valid()
      reads this, Repr
    {
      && this in Repr && (forall i :: 0 <= i < |nodes| ==> nodes[i] in Repr)
      && (forall i, j :: 0 <= i < j < |nodes| ==> nodes[i] != nodes[j])
      && (forall i {:trigger nodes[i]} :: 0 <= i < |nodes| ==> nodes[i].next == At(i + 1))
      && head == At(0) && tail == (if nodes == [] then null else nodes[|nodes| - 1])
    }

    /** The callbacks from the first to the last. */
    ghost function Contents(): (cbs: seq<Callback>)
      requires Valid()
      reads this, Repr
      ensures |cbs| == |nodes|
    {
      seq(|nodes|, i requires 0 <= i < |nodes| && nodes[i] in Repr reads this, Repr => nodes[i].cb)
    }

    constructor ()
      ensures Valid() && Contents() == [] && fresh(Repr)
    {
      head, tail, nodes, Repr := null, null, [], {this};
    }

    method Push(source: Callback)
      requires Valid()
      modifies Repr
      ensures Valid() && fresh(Repr - old(Repr))
      ensures Contents() == old(Contents()) + [source]
    {
      var cb := new Node(source);
      if head == null { head := cb; }
      if tail != null { tail.next := cb; }
      tail := cb;
      nodes := nodes + [cb];
      Repr := Repr + {cb};
    }

    method Shift() returns (target: Option<Callback>)
      requires Valid()
      modifies this
      ensures Valid() && Repr == old(Repr)
      ensures if old(Contents()) == [] then target.None? && Contents() == []
              else target == Some(old(Contents())[0]) && Contents() == old(Contents())[1..]
    {
      var cb := head;
      if cb == null { return None; }
      ghost var before := nodes;
      assert before[0].next == At(1);
      head := cb.next;
      if cb == tail { tail := null; }
      nodes := nodes[1..];
      assert forall i :: 0 <= i < |nodes| ==> nodes[i] == before[i + 1];
      target := Some(cb.cb);
    }
  }
}

/** The asynchronous context, updated in place, against the machine of AsyncMachine. */
module AsyncContexts {
  import opened Options
  import opened AsyncMachine
  import opened CallbackLists

  class AsyncContext {
    const replies: CallbackList
    var connected: bool
    var disconnecting: bool
    var freeing: bool
    var inCallback: bool
    var err: bool
    var obuf: nat
    var status: Status
    ghost var accepted: seq<Callback>
    ghost var settled: seq<Settled>
    ghost var received: seq<Reply>

    ghost function Repr(): set<object>
      reads replies
    {
      {this} + replies.Repr
    }

    ghost predicate Valid()
      reads this, replies, Repr()
    {
      replies in Repr() && replies.Valid() && this !in replies.Repr
    }

    ghost function State(): Context
      requires Valid()
      reads this, replies, Repr()
    {
      Context(replies.Contents(), connected, disconnecting, freeing, inCallback, err, obuf, status, accepted, settled,
              received)
    }

    constructor ()
      ensures Valid() && fresh(Repr()) && State() == INITIAL
    {
      replies := new CallbackList();
      connected, disconnecting, freeing, inCallback, err := false, false, false, false, false;
      obuf, status := 0, Open;
      accepted, settled, received := [], [], [];
    }

    method Command(cb: Callback, len: nat) returns (ok: bool)
      requires Valid()
      modifies Repr()
      ensures Valid() && fresh(Repr() - old(Repr()))
      ensures State() == AsyncMachine.Command(old(State()), cb, len) && ok == !old(disconnecting || freeing)
      ensures replies.Contents() == if ok then old(replies.Contents()) + [cb] else old(replies.Contents())
      ensures obuf == if ok then old(obuf) + len else old(obuf)
    {
      if disconnecting || freeing { return false; }
      replies.Push(cb);
      accepted := accepted + [cb];
      obuf := obuf + len;
      return true;
    }

    /** Disconnects, as soon as no callback is pending. */
    method UserDisconnect()
      requires Valid() && status.Open?
      modifies Repr()
      ensures Valid() && fresh(Repr() - old(Repr()))
      ensures State() == if old(inCallback) then Act(old(State()), Disconnect)
              else AsyncMachine.UserDisconnect(old(State()))
      decreases if inCallback then 0 else 5
    {
      disconnecting := true;
      if !inCallback && replies.head == null {
        AsyncDisconnect();
      }
    }

    /** Frees the context, but not while a callback runs. */
    method UserFree()
      requires Valid() && status.Open?
      modifies Repr()
      ensures Valid() && fresh(Repr() - old(Repr()))
      ensures State() == if old(inCallback) then Act(old(State()), Free) else AsyncMachine.UserFree(old(State()))
      decreases if inCallback then 0 else 5
    {
      freeing := true;
      if !inCallback {
        AsyncFree();
      }
    }

    /** The calls a callback issues. */
    method Perform(actions: seq<Action>)
      requires Valid() && status.Open? && inCallback
      modifies Repr()
      ensures Valid() && fresh(Repr() - old(Repr()))
      ensures State() == ActAll(old(State()), actions)
      decreases 1, |actions|
    {
      if actions == [] { return; }
      match actions[0] {
        case Issue(cb, len) => var _ := Command(cb, len);
        case Disconnect => UserDisconnect();
        case Free => UserFree();
      }
      ActInCallback(old(State()), actions[0]);
      Perform(actions[1..]);
    }

    method RunCallback(cb: Callback, reply: Option<Reply>)
      requires Valid() && status.Open?
      modifies Repr()
      ensures Valid() && fresh(Repr() - old(Repr()))
      ensures State() == AsyncMachine.RunCallback(old(State()), cb, reply)
      decreases 2
    {
      if cb.fn.Some? {
        inCallback := true;
        Perform(cb.fn.value(reply));
        inCallback := false;
      }
    }

    /** Takes the first callback off the list and runs it. */
    method Settle(reply: Option<Reply>) returns (cb: Option<Callback>)
      requires Valid() && status.Open?
      modifies Repr()
      ensures Valid() && fresh(Repr() - old(Repr()))
      ensures if old(State()).replies == [] then cb.None? && State() == old(State())
              else cb == Some(old(State()).replies[0])
                   && State() == AsyncMachine.RunCallback(AsyncMachine.Shift(old(State()), reply),
                                                          old(State()).replies[0], reply)
      decreases 3
    {
      cb := replies.Shift();
      if cb.Some? {
        settled := settled + [Settled(cb.value, reply)];
        received := if reply.Some? then received + [reply.value] else received;
        assert State() == AsyncMachine.Shift(old(State()), reply);
        RunCallback(cb.value, reply);
      }
    }

    /** Runs what is pending without a reply, and closes. */
    method AsyncFree()
      requires Valid() && status.Open? && (disconnecting || freeing || State().replies == [])
      modifies Repr()
      ensures Valid() && fresh(Repr() - old(Repr()))
      ensures State() == Teardown(old(State()))
      decreases 4, 0
    {
      var more := true;
      while more
        invariant Valid() && fresh(Repr() - old(Repr())) && status.Open?
        invariant disconnecting || freeing || State().replies == []
        invariant Teardown(State()) == Teardown(old(State()))
        invariant !more ==> State().replies == []
        decreases |State().replies|, more
      {
        var cb := Settle(None);
        more := cb.Some?;
      }
      status := Closed(if connected then Some(freeing || !err) else None);
    }

    method AsyncDisconnect()
      requires Valid() && status.Open?
      modifies Repr()
      ensures Valid() && fresh(Repr() - old(Repr()))
      ensures State() == AsyncMachine.AsyncDisconnect(old(State()))
      decreases 4, 1
    {
      if !err {
        if replies.head != null {
          status := Aborted(StillPending);
          return;
        }
      } else {
        disconnecting := true;
      }
      AsyncFree();
    }

    /** Gives one reply to the first pending callback. */
    method Deliver(reply: Reply) returns (goOn: bool)
      requires Valid() && status.Open?
      modifies Repr()
      ensures Valid() && fresh(Repr() - old(Repr())) && (goOn ==> status.Open?)
      ensures (State(), goOn) == AsyncMachine.Deliver(old(State()), reply)
      decreases 6
    {
      var cb := Settle(Some(reply));
      if cb.None? {
        if IsError(reply) {
          Fail();
        } else {
          status := Aborted(Unsolicited);
        }
        return false;
      }
      if cb.value.fn.Some? && freeing {
        AsyncFree();
        return false;
      }
      return true;
    }

    /** An error was met on the connection. */
    method Fail()
      requires Valid() && status.Open?
      modifies Repr()
      ensures Valid() && fresh(Repr() - old(Repr()))
      ensures State() == AsyncMachine.AsyncDisconnect(old(State()).(err := true))
      decreases 5
    {
      err := true;
      AsyncDisconnect();
    }

    method Drained(broken: bool)
      requires Valid() && status.Open?
      modifies Repr()
      ensures Valid() && fresh(Repr() - old(Repr()))
      ensures State() == AsyncMachine.Drained(old(State()), broken)
      decreases 6
    {
      if broken {
        Fail();
      } else if disconnecting && obuf == 0 && replies.head == null {
        AsyncDisconnect();
      }
    }

    /** Gives the replies at hand to the pending callbacks. */
    method ProcessCallbacks(batch: seq<Reply>, broken: bool, ghost process: Processor)
      requires Valid() && status.Open? && Processes(process)
      modifies Repr()
      ensures Valid() && fresh(Repr() - old(Repr()))
      ensures State() == process(old(State()), batch, broken)
      decreases 7
    {
      var next := 0;
      assert batch[0..] == batch;
      while next < |batch|
        invariant 0 <= next <= |batch| && Valid() && fresh(Repr() - old(Repr())) && status.Open?
        invariant process(State(), batch[next..], broken) == process(old(State()), batch, broken)
      {
        ProcessStep(process, State(), batch[next..], broken);
        assert batch[next..][1..] == batch[next + 1..];
        var goOn := Deliver(batch[next]);
        if !goOn { return; }
        next := next + 1;
      }
      ProcessStep(process, State(), batch[next..], broken);
      Drained(broken);
    }

    /** The socket is readable: these replies are at hand. */
    method HandleRead(batch: seq<Reply>, broken: bool)
      requires Valid() && status.Open? && !inCallback
      modifies Repr()
      ensures Valid() && fresh(Repr() - old(Repr()))
      ensures State() == Step(old(State()), Readable(batch, broken))
    {
      ghost var process: Processor := AsyncMachine.ProcessCallbacks;
      assert Processes(process) && ProcessesAt(process, State(), batch, broken);
      ProcessCallbacks(batch, broken, process);
    }

    /** So many bytes were written. */
    method HandleWrite(bytes: nat)
      requires Valid() && status.Open? && !inCallback
      modifies Repr()
      ensures Valid() && Repr() == old(Repr())
      ensures State() == Step(old(State()), Written(bytes))
    {
      obuf := if bytes <= obuf then obuf - bytes else 0;
    }

    /** The connection is made, or not. */
    method HandleConnect(ok: bool)
      requires Valid() && status.Open? && !inCallback
      modifies Repr()
      ensures Valid() && fresh(Repr() - old(Repr()))
      ensures State() == Step(old(State()), Connects(ok))
    {
      if ok {
        connected := true;
      } else {
        Fail();
      }
    }
  }

  /** The machine's handling of a batch as a value, for a loop that rests on one step of it at a time. */
  type Processor = (Context, seq<Reply>, bool) -> Context

  ghost predicate Processes(p: Processor) {
    forall s: Context, batch: seq<Reply>, broken: bool {:trigger ProcessesAt(p, s, batch, broken)} ::
        ProcessesAt(p, s, batch, broken)
  }

  ghost predicate ProcessesAt(p: Processor, s: Context, batch: seq<Reply>, broken: bool) {
    p(s, batch, broken) == ProcessCallbacks(s, batch, broken)
  }

  lemma {:induction false} ProcessStep(p: Processor, s: Context, batch: seq<Reply>, broken: bool)
    requires Processes(p)
    ensures p(s, batch, broken) ==
            if batch == [] then Drained(s, broken)
            else if Deliver(s, batch[0]).1 then p(Deliver(s, batch[0]).0, batch[1..], broken)
            else Deliver(s, batch[0]).0
  {
    assert ProcessesAt(p, s, batch, broken);
    if batch != [] {
      assert ProcessesAt(p, Deliver(s, batch[0]).0, batch[1..], broken);
    }
  }

  lemma {:induction false} ActInCallback(s: Context, a: Action)
    requires s.inCallback
    ensures Act(s, a).inCallback && Act(s, a).status == s.status
  {
  }
}
