/** The asynchronous client's context as a machine: commands register callbacks, replies and
    teardown settle them, and callbacks may themselves issue commands, disconnect or free. */
module AsyncMachine {
  import opened Options
  import RespMachine

  type Reply = RespMachine.Reply

  /** What a callback makes of a reply, or of none at teardown: the calls it issues on the context. */
  type Handler = Option<Reply> -> seq<Action>

  datatype Callback = Callback(id: nat, fn: Option<Handler>)

  datatype Action = Issue(cb: Callback, len: nat) | Disconnect | Free

  /** A callback taken off the list, and what it was given. */
  datatype Settled = Settled(cb: Callback, reply: Option<Reply>)

  /** Why an assertion would stop the program. */
  datatype Violation = StillPending | Unsolicited

  /** A context that was connected tells how it was closed: cleanly or not. */
  datatype Status = Open | Closed(told: Option<bool>) | Aborted(why: Violation)

  /** The pending callbacks, the flags, whether an error was met, the bytes yet to be written; and
      for the record the callbacks accepted, those settled and the replies taken, all in order. */
  datatype Context = Context(
    replies: seq<Callback>,
    connected: bool, disconnecting: bool, freeing: bool, inCallback: bool,
    err: bool, obuf: nat, status: Status,
    accepted: seq<Callback>, settled: seq<Settled>, received: seq<Reply>)
  {
    predicate Closing() { disconnecting || freeing }
  }

  const INITIAL := Context([], false, false, false, false, false, 0, Open, [], [], [])

  /** A command: its callback is registered, unless the connection is about to be closed. */
  function Command(s: Context, cb: Callback, len: nat): Context {
    if s.Closing() then s
    else s.(replies := s.replies + [cb], accepted := s.accepted + [cb], obuf := s.obuf + len)
  }

  /** One call issued inside a callback: disconnecting and freeing are put off. */
  function Act(s: Context, a: Action): Context {
    match a
    case Issue(cb, len) => Command(s, cb, len)
    case Disconnect => s.(disconnecting := true)
    case Free => s.(freeing := true)
  }

  function ActAll(s: Context, actions: seq<Action>): (r: Context)
    ensures s.Closing() ==> r.Closing() && r.replies == s.replies && r.accepted == s.accepted
    ensures r.settled == s.settled && r.received == s.received && r.status == s.status
    decreases |actions|
  {
    if actions == [] then s else ActAll(Act(s, actions[0]), actions[1..])
  }

  /** Takes the first callback off the list. */
  function Shift(s: Context, reply: Option<Reply>): Context
    requires s.replies != []
  {
    s.(replies := s.replies[1..], settled := s.settled + [Settled(s.replies[0], reply)],
       received := if reply.Some? then s.received + [reply.value] else s.received)
  }

  function RunCallback(s: Context, cb: Callback, reply: Option<Reply>): (r: Context)
    ensures s.Closing() ==> r.Closing() && r.replies == s.replies && r.accepted == s.accepted
    ensures r.settled == s.settled && r.received == s.received && r.status == s.status
  {
    match cb.fn
    case None => s
    case Some(fn) => ActAll(s.(inCallback := true), fn(reply)).(inCallback := false)
  }

  /** Pending callbacks are run without a reply, and the context is gone. */
  function Teardown(s: Context): Context
    requires s.Closing() || s.replies == []
    decreases |s.replies|
  {
    if s.replies == [] then
      s.(status := Closed(if s.connected then Some(s.freeing || !s.err) else None))
    else
      var cb := s.replies[0];
      Teardown(RunCallback(Shift(s, None), cb, None))
  }

  /** A clean disconnect must not have pending callbacks: the code asserts so. */
  function AsyncDisconnect(s: Context): Context {
    if s.err then Teardown(s.(disconnecting := true))
    else if s.replies != [] then s.(status := Aborted(StillPending))
    else Teardown(s)
  }

  function UserDisconnect(s: Context): Context {
    var s' := s.(disconnecting := true);
    if s.replies == [] then AsyncDisconnect(s') else s'
  }

  function UserFree(s: Context): Context {
    Teardown(s.(freeing := true))
  }

  function IsError(r: Reply): bool { r.Text? && r.kind == RespMachine.ErrorLine }

  /** One reply goes to the first pending callback. A reply nobody waits for closes the connection if
      it is an error, and otherwise runs into an assertion. The flag says whether to go on. */
  function Deliver(s: Context, reply: Reply): (Context, bool) {
    if s.replies == [] then
      (if IsError(reply) then AsyncDisconnect(s.(err := true)) else s.(status := Aborted(Unsolicited)), false)
    else
      var cb := s.replies[0];
      var s' := RunCallback(Shift(s, Some(reply)), cb, Some(reply));
      if cb.fn.Some? && s'.freeing then (Teardown(s'), false) else (s', true)
  }

  /** No reply is left to deliver; the stream may be broken. */
  function Drained(s: Context, broken: bool): Context {
    if broken then AsyncDisconnect(s.(err := true))
    else if s.disconnecting && s.obuf == 0 && s.replies == [] then AsyncDisconnect(s)
    else s
  }

  /** The replies at hand go to the pending callbacks in order. */
  function ProcessCallbacks(s: Context, batch: seq<Reply>, broken: bool): Context
    decreases |batch|
  {
    if batch == [] then Drained(s, broken)
    else
      var d := Deliver(s, batch[0]);
      if d.1 then ProcessCallbacks(d.0, batch[1..], broken) else d.0
  }

  /** What happens to an open context: calls of the user outside callbacks, and the event loop. */
  datatype Event =
    | Issued(cb: Callback, len: nat)
    | Disconnected
    | Freed
    | Connects(ok: bool)
    | Readable(batch: seq<Reply>, broken: bool)
    | ReadFailed
    | Written(bytes: nat)
    | WriteFailed

  function Step(s: Context, e: Event): Context {
    match e
    case Issued(cb, len) => Command(s, cb, len)
    case Disconnected => UserDisconnect(s)
    case Freed => UserFree(s)
    case Connects(ok) => if ok then s.(connected := true) else AsyncDisconnect(s.(err := true))
    case Readable(batch, broken) => ProcessCallbacks(s, batch, broken)
    case ReadFailed => AsyncDisconnect(s.(err := true))
    case WriteFailed => AsyncDisconnect(s.(err := true))
    case Written(bytes) => s.(obuf := if bytes <= s.obuf then s.obuf - bytes else 0)
  }

  /** A run ends when the context is closed. */
  function Run(s: Context, events: seq<Event>): Context
    decreases |events|
  {
    if events == [] || !s.status.Open? then s else Run(Step(s, events[0]), events[1..])
  }
}

/** Every accepted command's callback is run exactly once, in the order of the commands, with the
    reply in the same place or, at teardown, with none. */
module AsyncTheorems {
  import opened Options
  import opened AsyncMachine

  function Callbacks(settled: seq<Settled>): (cbs: seq<Callback>)
    ensures |cbs| == |settled| && forall i :: 0 <= i < |cbs| ==> cbs[i] == settled[i].cb
  {
    seq(|settled|, i requires 0 <= i < |settled| => settled[i].cb)
  }

  /** The callbacks settled and those pending are those accepted, in order. */
  ghost predicate InOrder(s: Context) {
    Callbacks(s.settled) + s.replies == s.accepted
  }

  /** The first callbacks were given the replies, one each and in order, the others none; while the
      context is open there are no others, and when it is closed none is pending. */
  ghost predicate Matched(s: Context) {
    && |s.received| <= |s.settled|
    && (forall i :: 0 <= i < |s.received| ==> s.settled[i].reply == Some(s.received[i]))
    && (forall i :: |s.received| <= i < |s.settled| ==> s.settled[i].reply.None?)
  }

  ghost predicate Inv(s: Context) {
    && InOrder(s) && Matched(s) && !s.inCallback
    && (!s.status.Closed? ==> |s.received| == |s.settled|)
    && (s.status.Closed? ==> s.replies == [])
    && (s.status.Open? ==> !s.freeing && !s.err)
  }

  lemma {:induction false} ActAllKeepsOrder(s: Context, actions: seq<Action>)
    requires InOrder(s)
    ensures InOrder(ActAll(s, actions)) && ActAll(s, actions).err == s.err
            && ActAll(s, actions).connected == s.connected
    decreases |actions|
  {
    if actions != [] {
      assert forall cb :: Callbacks(s.settled) + (s.replies + [cb]) == Callbacks(s.settled) + s.replies + [cb];
      ActAllKeepsOrder(Act(s, actions[0]), actions[1..]);
    }
  }

  lemma {:induction false} ShiftKeeps(s: Context, reply: Option<Reply>)
    requires InOrder(s) && Matched(s) && s.replies != [] && (reply.Some? ==> |s.received| == |s.settled|)
    ensures InOrder(Shift(s, reply)) && Matched(Shift(s, reply))
  {
    var s' := Shift(s, reply);
    assert s.replies == [s.replies[0]] + s.replies[1..];
    assert Callbacks(s'.settled) == Callbacks(s.settled) + [s.replies[0]];
  }

  /** One callback settled. */
  lemma {:induction false} SettleKeeps(s: Context, reply: Option<Reply>)
    requires InOrder(s) && Matched(s) && s.replies != [] && (reply.Some? ==> |s.received| == |s.settled|)
    ensures var r := RunCallback(Shift(s, reply), s.replies[0], reply);
            InOrder(r) && Matched(r) && r.err == s.err && r.connected == s.connected
              && (!s.inCallback ==> !r.inCallback)
  {
    ShiftKeeps(s, reply);
    var cb, s' := s.replies[0], Shift(s, reply);
    if cb.fn.Some? {
      ActAllKeepsOrder(s'.(inCallback := true), cb.fn.value(reply));
    }
  }

  lemma {:induction false} TeardownKeeps(s: Context)
    requires InOrder(s) && Matched(s) && !s.inCallback && (s.Closing() || s.replies == [])
    ensures var r := Teardown(s); Inv(r) && r.status.Closed? && r.received == s.received && r.accepted == s.accepted
    decreases |s.replies|
  {
    if s.replies != [] {
      SettleKeeps(s, None);
      TeardownKeeps(RunCallback(Shift(s, None), s.replies[0], None));
    }
  }

  lemma {:induction false} AsyncDisconnectKeeps(s: Context)
    requires InOrder(s) && Matched(s) && !s.inCallback && s.status.Open? && |s.received| == |s.settled|
    ensures var r := AsyncDisconnect(s);
            && Inv(r) && !r.status.Open?
            && (r.status.Aborted? <==> !s.err && s.replies != [])
               && (r.status.Aborted? ==> r.status.why == StillPending)
  {
    if s.err {
      TeardownKeeps(s.(disconnecting := true));
    } else if s.replies == [] {
      TeardownKeeps(s);
    }
  }

  /** No more replies than callbacks, or the one too many is an error. */
  lemma {:induction false} ProcessKeeps(s: Context, batch: seq<Reply>, broken: bool)
    requires Inv(s) && s.status.Open?
    ensures var r := ProcessCallbacks(s, batch, broken);
            Inv(r) && (r.status.Aborted? ==> r.status.why == Unsolicited && |batch| > |s.replies|)
    decreases |batch|
  {
    if batch == [] {
      if broken {
        AsyncDisconnectKeeps(s.(err := true));
      } else if s.disconnecting && s.obuf == 0 && s.replies == [] {
        AsyncDisconnectKeeps(s);
      }
    } else if s.replies == [] {
      if IsError(batch[0]) { AsyncDisconnectKeeps(s.(err := true)); }
    } else {
      SettleKeeps(s, Some(batch[0]));
      var r := RunCallback(Shift(s, Some(batch[0])), s.replies[0], Some(batch[0]));
      RunCallbackGrows(Shift(s, Some(batch[0])), s.replies[0], Some(batch[0]));
      if s.replies[0].fn.Some? && r.freeing {
        TeardownKeeps(r);
      } else {
        ProcessKeeps(r, batch[1..], broken);
      }
    }
  }

  /** Callbacks may add to the list and never take from it. */
  lemma {:induction false} ActAllGrows(s: Context, actions: seq<Action>)
    ensures |ActAll(s, actions).replies| >= |s.replies|
    decreases |actions|
  {
    if actions != [] { ActAllGrows(Act(s, actions[0]), actions[1..]); }
  }

  lemma {:induction false} RunCallbackGrows(s: Context, cb: Callback, reply: Option<Reply>)
    ensures |RunCallback(s, cb, reply).replies| >= |s.replies|
    ensures cb.fn.None? ==> RunCallback(s, cb, reply) == s
  {
    if cb.fn.Some? { ActAllGrows(s.(inCallback := true), cb.fn.value(reply)); }
  }

  /** At most one reply per command: what is read never has more replies than there are commands
      waiting for one. */
  ghost predicate Solicited(s: Context, e: Event) {
    e.Readable? ==> |e.batch| <= |s.replies|
  }

  ghost predicate SolicitedRun(s: Context, events: seq<Event>)
    decreases |events|
  {
    events == [] || !s.status.Open? || (Solicited(s, events[0]) && SolicitedRun(Step(s, events[0]), events[1..]))
  }

  lemma {:induction false} StepKeeps(s: Context, e: Event)
    requires Inv(s) && s.status.Open?
    ensures Inv(Step(s, e))
    ensures var r := Step(s, e); r.status.Aborted? ==> r.status.why == Unsolicited && !Solicited(s, e)
  {
    match e
    case Issued(cb, len) =>
      ActAllKeepsOrder(s, [Issue(cb, len)]);
      assert ActAll(s, [Issue(cb, len)]) == ActAll(Command(s, cb, len), []);
    case Disconnected =>
      if s.replies == [] { AsyncDisconnectKeeps(s.(disconnecting := true)); }
    case Freed => TeardownKeeps(s.(freeing := true));
    case Connects(ok) => if !ok { AsyncDisconnectKeeps(s.(err := true)); }
    case Readable(batch, broken) => ProcessKeeps(s, batch, broken);
    case ReadFailed => AsyncDisconnectKeeps(s.(err := true));
    case WriteFailed => AsyncDisconnectKeeps(s.(err := true));
    case Written(_) =>
  }

  lemma {:induction false} RunKeeps(s: Context, events: seq<Event>)
    requires Inv(s) && !(s.status.Aborted?)
    ensures var r := Run(s, events);
            Inv(r) && (r.status.Aborted? ==> r.status.why == Unsolicited && !SolicitedRun(s, events))
    decreases |events|
  {
    if events != [] && s.status.Open? {
      StepKeeps(s, events[0]);
      if Step(s, events[0]).status.Open? {
        RunKeeps(Step(s, events[0]), events[1..]);
      }
    }
  }

  // ---------- the replies ----------

  /** The replies the server sent, in the order in which they arrived. */
  function Arrived(events: seq<Event>): seq<Reply> {
    if events == [] then []
    else BatchOf(events[0]) + Arrived(events[1..])
  }

  lemma {:induction false} TeardownReceives(s: Context)
    requires s.Closing() || s.replies == []
    ensures Teardown(s).received == s.received && !Teardown(s).status.Open?
    decreases |s.replies|
  {
    if s.replies != [] { TeardownReceives(RunCallback(Shift(s, None), s.replies[0], None)); }
  }

  lemma {:induction false} AsyncDisconnectReceives(s: Context)
    ensures AsyncDisconnect(s).received == s.received && !AsyncDisconnect(s).status.Open?
  {
    if s.err {
      TeardownReceives(s.(disconnecting := true));
    } else if s.replies == [] {
      TeardownReceives(s);
    }
  }

  lemma {:induction false} DeliverReceives(s: Context, reply: Reply)
    requires s.status.Open?
    ensures var d := Deliver(s, reply);
            && (d.1 ==> d.0.status.Open? && d.0.received == s.received + [reply])
            && (!d.1 ==> !d.0.status.Open? && (d.0.received == s.received || d.0.received == s.received + [reply]))
  {
    if s.replies == [] {
      AsyncDisconnectReceives(s.(err := true));
    } else {
      var r := RunCallback(Shift(s, Some(reply)), s.replies[0], Some(reply));
      if r.freeing { TeardownReceives(r); }
    }
  }

  /** Of more, the first were taken behind what was taken before, in their order. */
  predicate Took(before: seq<Reply>, more: seq<Reply>, after: seq<Reply>) {
    before <= after && after <= before + more
  }

  /** Taking from a, all of it, and then from b is taking from both. */
  lemma {:induction false} TookBoth(before: seq<Reply>, a: seq<Reply>, b: seq<Reply>, after: seq<Reply>)
    ensures Took(before + a, b, after) ==> Took(before, a + b, after)
    ensures Took(before, a, after) ==> Took(before, a + b, after)
    ensures before + (a + b) == before + a + b
  {
    assert before + (a + b) == before + a + b;
  }

  /** Of a batch the first replies are given out, in their order, and all of them if the context
      stays open. */
  lemma {:induction false} ProcessReceives(s: Context, batch: seq<Reply>, broken: bool)
    requires s.status.Open?
    ensures var r := ProcessCallbacks(s, batch, broken);
            Took(s.received, batch, r.received) && (r.status.Open? ==> r.received == s.received + batch)
    decreases |batch|
  {
    if batch == [] {
      AsyncDisconnectReceives(s.(err := true));
      AsyncDisconnectReceives(s);
      assert s.received + [] == s.received;
    } else {
      DeliverReceives(s, batch[0]);
      assert batch == [batch[0]] + batch[1..];
      var d := Deliver(s, batch[0]);
      TookBoth(s.received, [batch[0]], batch[1..], ProcessCallbacks(s, batch, broken).received);
      if d.1 { ProcessReceives(d.0, batch[1..], broken); }
    }
  }

  function BatchOf(e: Event): seq<Reply> { if e.Readable? then e.batch else [] }

  lemma {:induction false} StepReceives(s: Context, e: Event)
    requires s.status.Open?
    ensures var r := Step(s, e);
            Took(s.received, BatchOf(e), r.received) && (r.status.Open? ==> r.received == s.received + BatchOf(e))
  {
    if e.Readable? {
      ProcessReceives(s, e.batch, e.broken);
    } else {
      AsyncDisconnectReceives(s.(err := true));
      AsyncDisconnectReceives(s.(disconnecting := true));
      TeardownReceives(s.(freeing := true));
      assert Step(s, e).received == s.received == s.received + [];
    }
  }

  /** What was given out in a run is the first of what arrived, and all of it while the context is
      open. */
  lemma {:induction false} RunReceives(s: Context, events: seq<Event>)
    requires s.status.Open?
    ensures var r := Run(s, events);
            Took(s.received, Arrived(events), r.received)
              && (r.status.Open? ==> r.received == s.received + Arrived(events))
    decreases |events|
  {
    if events == [] {
      assert s.received + [] == s.received;
    } else {
      var s' := Step(s, events[0]);
      StepReceives(s, events[0]);
      TookBoth(s.received, BatchOf(events[0]), Arrived(events[1..]), Run(s, events).received);
      if s'.status.Open? { RunReceives(s', events[1..]); }
    }
  }

  // ---------- the commands ----------

  /** The commands among these calls, up to the first that disconnects or frees. */
  function CommandsOf(actions: seq<Action>): seq<Callback> {
    if actions == [] || !actions[0].Issue? then [] else [actions[0].cb] + CommandsOf(actions[1..])
  }

  /** One of these calls disconnects or frees. */
  predicate Closes(actions: seq<Action>) { actions != [] && (!actions[0].Issue? || Closes(actions[1..])) }

  /** The calls a callback issues on its reply; at teardown they are too late. */
  function CallsOf(x: Settled): seq<Action> {
    if x.cb.fn.Some? && x.reply.Some? then x.cb.fn.value(x.reply) else []
  }

  /** The commands that callbacks issued, one callback after the other, up to the first call that
      disconnects or frees. */
  function CommandsBy(closing: bool, done: seq<Settled>): seq<Callback>
    decreases |done|
  {
    if closing || done == [] then []
    else CommandsOf(CallsOf(done[0])) + CommandsBy(Closes(CallsOf(done[0])), done[1..])
  }

  predicate ClosedBy(done: seq<Settled>) { done != [] && (Closes(CallsOf(done[0])) || ClosedBy(done[1..])) }

  /** The callbacks that an event has run. */
  ghost function DoneBy(s: Context, r: Context): seq<Settled> {
    if s.settled <= r.settled then r.settled[|s.settled|..] else []
  }

  /** The commands issued in a run, by the user and by callbacks, until the context was told to
      disconnect or to free itself. */
  ghost function Commands(s: Context, closing: bool, events: seq<Event>): seq<Callback>
    decreases |events|
  {
    if events == [] || !s.status.Open? then []
    else
      var e, r := events[0], Step(s, events[0]);
      var done := DoneBy(s, r);
      CommandsAt(closing, e, done) + Commands(r, closing || e.Disconnected? || e.Freed? || ClosedBy(done), events[1..])
  }

  /** The commands issued by an event and the callbacks it runs. */
  function CommandsAt(closing: bool, e: Event, done: seq<Settled>): seq<Callback> {
    if e.Issued? then (if closing then [] else [e.cb])
    else if e.Disconnected? || e.Freed? then []
    else CommandsBy(closing, done)
  }

  lemma {:induction false} ActAllTakes(s: Context, actions: seq<Action>)
    ensures var r := ActAll(s, actions);
            && r.accepted == s.accepted + (if s.Closing() then [] else CommandsOf(actions))
            && (r.Closing() <==> s.Closing() || Closes(actions))
    decreases |actions|
  {
    if actions != [] {
      ActAllTakes(Act(s, actions[0]), actions[1..]);
    }
  }

  lemma {:induction false} RunCallbackTakes(s: Context, cb: Callback, reply: Option<Reply>)
    requires reply.Some? || s.Closing()
    ensures var r, calls := RunCallback(s, cb, reply), CallsOf(Settled(cb, reply));
            && r.accepted == s.accepted + (if s.Closing() then [] else CommandsOf(calls))
            && (r.Closing() <==> s.Closing() || Closes(calls))
  {
    if cb.fn.Some? { ActAllTakes(s.(inCallback := true), cb.fn.value(reply)); }
  }

  /** r comes after s: more callbacks have been run, and the commands they issued have been taken. */
  ghost predicate Follows(s: Context, r: Context) {
    && s.settled <= r.settled
    && r.accepted == s.accepted + CommandsBy(s.Closing(), DoneBy(s, r))
    && (r.status.Open? ==> (r.Closing() <==> s.Closing() || ClosedBy(DoneBy(s, r))))
  }

  lemma {:induction false} TeardownTakes(s: Context)
    requires s.Closing() || s.replies == []
    ensures var r := Teardown(s);
            s.settled <= r.settled && r.accepted == s.accepted && !r.status.Open?
              && (s.replies == [] ==> r.settled == s.settled)
    ensures forall i :: |s.settled| <= i < |Teardown(s).settled| ==> Teardown(s).settled[i].reply.None?
    decreases |s.replies|
  {
    if s.replies != [] {
      TeardownTakes(RunCallback(Shift(s, None), s.replies[0], None));
    }
  }

  /** Nothing is taken at teardown. */
  lemma {:induction false} TooLate(closing: bool, done: seq<Settled>)
    requires forall i :: 0 <= i < |done| ==> done[i].reply.None?
    ensures CommandsBy(closing, done) == []
    decreases |done|
  {
    if !closing && done != [] { TooLate(false, done[1..]); }
  }

  lemma {:induction false} TeardownFollows(s: Context, s': Context)
    requires s'.Closing() || s'.replies == []
    requires s'.settled == s.settled && s'.accepted == s.accepted
    ensures Follows(s, Teardown(s'))
  {
    TeardownTakes(s');
    TooLate(s.Closing(), DoneBy(s, Teardown(s')));
  }

  lemma {:induction false} AsyncDisconnectFollows(s: Context, s': Context)
    requires s'.settled == s.settled && s'.accepted == s.accepted
    ensures Follows(s, AsyncDisconnect(s')) && !AsyncDisconnect(s').status.Open?
  {
    if s'.err {
      TeardownFollows(s, s'.(disconnecting := true));
      TeardownTakes(s'.(disconnecting := true));
    } else if s'.replies == [] {
      TeardownFollows(s, s');
      TeardownTakes(s');
    }
  }

  lemma {:induction false} FollowsFirst(s: Context, s1: Context, r: Context, x: Settled)
    requires s1.settled == s.settled + [x] && Follows(s1, r)
    requires s1.accepted == s.accepted + (if s.Closing() then [] else CommandsOf(CallsOf(x)))
    requires s1.Closing() <==> s.Closing() || Closes(CallsOf(x))
    ensures Follows(s, r)
  {
    var more := DoneBy(s1, r);
    assert DoneBy(s, r) == [x] + more;
    FirstDone(s.Closing(), x, more);
    if s.Closing() {
      assert CommandsBy(true, more) == [];
    } else {
      TakenFurther(s.accepted, CommandsOf(CallsOf(x)), CommandsBy(Closes(CallsOf(x)), more));
    }
  }

  lemma {:induction false} FirstDone(closing: bool, x: Settled, more: seq<Settled>)
    ensures CommandsBy(closing, [x] + more) ==
            if closing then [] else CommandsOf(CallsOf(x)) + CommandsBy(Closes(CallsOf(x)), more)
    ensures ClosedBy([x] + more) <==> Closes(CallsOf(x)) || ClosedBy(more)
  {
    assert ([x] + more)[1..] == more;
  }

  lemma {:induction false} DeliveredFollows(s: Context, reply: Reply, r: Context)
    requires s.replies != []
    requires var cb := s.replies[0];
             var s1 := RunCallback(Shift(s, Some(reply)), cb, Some(reply)); Follows(s1, r)
    ensures Follows(s, r)
  {
    var cb := s.replies[0];
    var s0 := Shift(s, Some(reply));
    RunCallbackTakes(s0, cb, Some(reply));
    FollowsFirst(s, RunCallback(s0, cb, Some(reply)), r, Settled(cb, Some(reply)));
  }

  lemma {:induction false} ProcessFollows(s: Context, batch: seq<Reply>, broken: bool)
    ensures Follows(s, ProcessCallbacks(s, batch, broken))
    decreases |batch|
  {
    if batch == [] {
      AsyncDisconnectFollows(s, s.(err := true));
      AsyncDisconnectFollows(s, s);
      NothingFollows(s);
    } else if s.replies == [] {
      AsyncDisconnectFollows(s, s.(err := true));
      NothingFollows(s);
    } else {
      var s1 := RunCallback(Shift(s, Some(batch[0])), s.replies[0], Some(batch[0]));
      if s.replies[0].fn.Some? && s1.freeing {
        TeardownFollows(s1, s1);
      } else {
        ProcessFollows(s1, batch[1..], broken);
      }
      DeliveredFollows(s, batch[0], ProcessCallbacks(s, batch, broken));
    }
  }

  lemma {:induction false} NothingFollows(s: Context)
    ensures Follows(s, s) && DoneBy(s, s) == []
  {
  }

  lemma {:induction false} StepTakes(s: Context, e: Event)
    requires s.status.Open?
    ensures var r := Step(s, e);
            && r.accepted == s.accepted + CommandsAt(s.Closing(), e, DoneBy(s, r))
            && (r.status.Open? ==>
                (r.Closing() <==> s.Closing() || e.Disconnected? || e.Freed? || ClosedBy(DoneBy(s, r))))
  {
    NothingFollows(s);
    match e
    case Issued(_, _) =>
    case Written(_) =>
    case Readable(batch, broken) => ProcessFollows(s, batch, broken);
    case Connects(_) => AsyncDisconnectFollows(s, s.(err := true));
    case ReadFailed => AsyncDisconnectFollows(s, s.(err := true));
    case WriteFailed => AsyncDisconnectFollows(s, s.(err := true));
    case Disconnected => DisconnectTakes(s);
    case Freed => TeardownTakes(s.(freeing := true));
  }

  lemma {:induction false} DisconnectTakes(s: Context)
    ensures var r := UserDisconnect(s);
            r.accepted == s.accepted && (r.status.Open? ==> r.Closing())
  {
    var s' := s.(disconnecting := true);
    if s.replies == [] { TeardownTakes(s'); }
  }

  lemma {:induction false} TakenFurther(before: seq<Callback>, a: seq<Callback>, b: seq<Callback>)
    ensures before + a + b == before + (a + b)
  {
  }

  lemma {:induction false} SameCommands(r: Context, closing: bool, rest: seq<Event>)
    requires r.status.Open? ==> (r.Closing() <==> closing)
    ensures Commands(r, closing, rest) == Commands(r, r.Closing(), rest)
  {
  }

  /** What was accepted are the commands issued. */
  lemma {:induction false} RunTakes(s: Context, events: seq<Event>)
    ensures Run(s, events).accepted == s.accepted + Commands(s, s.Closing(), events)
    decreases |events|
  {
    if events != [] && s.status.Open? {
      var e, r, rest := events[0], Step(s, events[0]), events[1..];
      var done := DoneBy(s, r);
      var closing := s.Closing() || e.Disconnected? || e.Freed? || ClosedBy(done);
      StepTakes(s, e);
      RunTakes(r, rest);
      SameCommands(r, closing, rest);
      TakenFurther(s.accepted, CommandsAt(s.Closing(), e, done), Commands(r, closing, rest));
    }
  }

  /** In every run, whatever the callbacks do: the callbacks run so far are those of the first
      commands issued, each once and in order, and while the context is open the others are pending.
      The first of them got the replies that arrived, the i-th callback the
      i-th reply, and those behind them got none, which happens at teardown only; while the context
      is open every reply that arrived has been given out, and once it is closed the callback of every
      command has been run. A disconnect that is not due to an error never finds a callback pending,
      and with at most one reply per command no assertion fails at all. */
  lemma {:induction false} ExactlyOnce(events: seq<Event>)
    ensures var r, replies, issued := Run(INITIAL, events), Arrived(events), Commands(INITIAL, false, events);
            && Callbacks(r.settled) <= issued
            && (r.status.Open? ==> Callbacks(r.settled) + r.replies == issued)
            && |r.received| <= |replies| && |r.received| <= |r.settled|
            && (forall i :: 0 <= i < |r.settled| ==>
                  r.settled[i].reply == if i < |r.received| then Some(replies[i]) else None)
            && (r.status.Open? ==> |r.settled| == |r.received| == |replies|)
            && (!r.status.Closed? ==> |r.received| == |r.settled|)
            && (r.status.Closed? ==> Callbacks(r.settled) == issued)
            && r.status != Aborted(StillPending)
            && (SolicitedRun(INITIAL, events) ==> !r.status.Aborted?)
  {
    SettledOfAccepted(events);
    RunTakes(INITIAL, events);
    assert [] + Commands(INITIAL, false, events) == Commands(INITIAL, false, events);
  }

  lemma {:induction false} SettledOfAccepted(events: seq<Event>)
    ensures var r, replies := Run(INITIAL, events), Arrived(events);
            && Callbacks(r.settled) <= r.accepted
            && (r.status.Open? ==> Callbacks(r.settled) + r.replies == r.accepted)
            && |r.received| <= |replies| && |r.received| <= |r.settled|
            && (forall i :: 0 <= i < |r.settled| ==>
                  r.settled[i].reply == if i < |r.received| then Some(replies[i]) else None)
            && (r.status.Open? ==> |r.settled| == |r.received| == |replies|)
            && (!r.status.Closed? ==> |r.received| == |r.settled|)
            && (r.status.Closed? ==> Callbacks(r.settled) == r.accepted)
            && r.status != Aborted(StillPending)
            && (SolicitedRun(INITIAL, events) ==> !r.status.Aborted?)
  {
    assert Inv(INITIAL);
    RunKeeps(INITIAL, events);
    RunReceives(INITIAL, events);
    var r := Run(INITIAL, events);
    assert [] + Arrived(events) == Arrived(events);
    assert r.status.Closed? ==> Callbacks(r.settled) + [] == Callbacks(r.settled);
  }

  /** A command on an idle open context is taken, and the reply that comes next is given to its
      callback. */
  lemma {:induction false} CommandThenReply(s: Context, cb: Callback, len: nat, reply: Reply)
    requires s.status.Open? && s.replies == [] && !s.Closing()
    ensures var r := Run(s, [Issued(cb, len), Readable([reply], false)]);
            && s.settled + [Settled(cb, Some(reply))] <= r.settled
            && (CallsOf(Settled(cb, Some(reply))) == [] ==>
                r.status.Open? && r.replies == [] && r.settled == s.settled + [Settled(cb, Some(reply))])
  {
    var events := [Issued(cb, len), Readable([reply], false)];
    var s1 := Command(s, cb, len);
    assert events[1..] == [Readable([reply], false)] && events[1..][1..] == [];
    assert Run(s, events) == Run(s1, events[1..]) == Run(Step(s1, events[1]), []);
    assert [reply][1..] == [];
    var s2 := RunCallback(Shift(s1, Some(reply)), cb, Some(reply));
    assert s2.settled == s.settled + [Settled(cb, Some(reply))];
    if cb.fn.Some? && s2.freeing {
      TeardownFollows(s2, s2);
    } else {
      ProcessFollows(s2, [], false);
    }
  }

  /** A disconnect on an idle context closes it at once, without an error. */
  lemma {:induction false} IdleDisconnect(s: Context)
    requires s.status.Open? && s.replies == [] && !s.err
    ensures Step(s, Disconnected).status == Closed(if s.connected then Some(true) else None)
  {
  }

  /** A disconnect waits for what is not yet written: with every callback run, the context closes on the
      first read after the last byte has been written, and not before. */
  lemma {:induction false} DisconnectWaitsForBytes(s: Context, bytes: nat)
    requires s.status.Open? && s.replies == [] && s.disconnecting && !s.err
    ensures Run(s, [Written(bytes), Readable([], false)]).status ==
            if bytes < s.obuf then Open else Closed(if s.connected then Some(true) else None)
  {
    var events := [Written(bytes), Readable([], false)];
    var s1 := Step(s, events[0]);
    assert events[1..] == [Readable([], false)] && events[1..][1..] == [];
    assert Run(s, events) == Run(s1, events[1..]) == Run(Step(s1, events[1]), []);
  }

  /** Without that hypothesis an assertion can fail: an idle context that is sent a reply goes on
      if and only if the reply is an error, which closes it. */
  lemma {:induction false} UnsolicitedReply(s: Context, reply: Reply, batch: seq<Reply>, broken: bool)
    requires Inv(s) && s.status.Open? && s.replies == []
    ensures var r := Step(s, Readable([reply] + batch, broken));
            r.status == if IsError(reply) then Closed(if s.connected then Some(false) else None)
              else Aborted(Unsolicited)
  {
    assert ([reply] + batch)[0] == reply;
  }

  // ---------- when an assertion fails ----------

  /** Replies delivered one after the other, and whether the context goes on. */
  function DeliverAll(s: Context, batch: seq<Reply>): (Context, bool)
    decreases |batch|
  {
    if batch == [] then (s, true)
    else
      var d := Deliver(s, batch[0]);
      if d.1 then DeliverAll(d.0, batch[1..]) else d
  }

  /** Reply i of a batch is no error, and the replies before it have left the context open and no
      callback pending. */
  ghost predicate Strands(s: Context, batch: seq<Reply>, i: nat) {
    i < |batch| && !IsError(batch[i]) && var d := DeliverAll(s, batch[..i]); d.1 && d.0.replies == []
  }

  /** It is the first of the batch, or one of the rest once the first has been delivered. */
  lemma {:induction false} StrandsSome(s: Context, batch: seq<Reply>)
    requires batch != []
    ensures var d := Deliver(s, batch[0]);
            (exists i: nat :: Strands(s, batch, i)) <==>
            (s.replies == [] && !IsError(batch[0])) || (d.1 && exists i: nat :: Strands(d.0, batch[1..], i))
  {
    var d, rest := Deliver(s, batch[0]), batch[1..];
    assert batch[..0] == [];
    assert Strands(s, batch, 0) <==> s.replies == [] && !IsError(batch[0]);
    forall i: nat | Strands(s, batch, i) && i > 0 ensures d.1 && Strands(d.0, rest, i - 1) {
      assert batch[..i][1..] == rest[..i - 1];
    }
    forall i: nat | d.1 && Strands(d.0, rest, i) ensures Strands(s, batch, i + 1) {
      assert batch[..i + 1][1..] == rest[..i];
    }
  }

  lemma {:induction false} DeliverKeeps(s: Context, reply: Reply)
    requires Inv(s) && s.status.Open?
    ensures var d := Deliver(s, reply);
            && (d.1 ==> s.replies != [] && Inv(d.0) && d.0.status.Open?)
            && (!d.1 ==> (d.0.status.Aborted? <==> s.replies == [] && !IsError(reply)))
  {
    if s.replies == [] {
      if IsError(reply) { AsyncDisconnectKeeps(s.(err := true)); }
    } else {
      SettleKeeps(s, Some(reply));
      var r := RunCallback(Shift(s, Some(reply)), s.replies[0], Some(reply));
      if s.replies[0].fn.Some? && r.freeing { TeardownKeeps(r); }
    }
  }

  lemma {:induction false} DrainedKeeps(s: Context, broken: bool)
    requires Inv(s) && s.status.Open?
    ensures !Drained(s, broken).status.Aborted?
  {
    if broken {
      AsyncDisconnectKeeps(s.(err := true));
    } else if s.disconnecting && s.obuf == 0 && s.replies == [] {
      AsyncDisconnectKeeps(s);
    }
  }

  lemma {:induction false} ProcessAborts(s: Context, batch: seq<Reply>, broken: bool)
    requires Inv(s) && s.status.Open?
    ensures ProcessCallbacks(s, batch, broken).status.Aborted? <==> exists i: nat :: Strands(s, batch, i)
    decreases |batch|
  {
    if batch == [] {
      DrainedKeeps(s, broken);
    } else {
      var d := Deliver(s, batch[0]);
      DeliverKeeps(s, batch[0]);
      StrandsSome(s, batch);
      if d.1 {
        ProcessAborts(d.0, batch[1..], broken);
      }
    }
  }

  /** Event k of a run brings a batch with such a reply at i. */
  ghost predicate StrandsAt(s: Context, events: seq<Event>, k: nat, i: nat) {
    && k < |events| && events[k].Readable?
    && var before := Run(s, events[..k]);
       before.status.Open? && Strands(before, events[k].batch, i)
  }

  lemma {:induction false} StrandsAtSome(s: Context, events: seq<Event>)
    requires events != [] && s.status.Open?
    ensures (exists k: nat, i: nat :: StrandsAt(s, events, k, i)) <==>
            || (events[0].Readable? && exists i: nat :: Strands(s, events[0].batch, i))
            || (exists k: nat, i: nat :: StrandsAt(Step(s, events[0]), events[1..], k, i))
  {
    var next, rest := Step(s, events[0]), events[1..];
    assert events[..0] == [];
    forall i: nat ensures StrandsAt(s, events, 0, i) <==> events[0].Readable? && Strands(s, events[0].batch, i) {
    }
    forall k: nat, i: nat | StrandsAt(s, events, k, i) && k > 0 ensures StrandsAt(next, rest, k - 1, i) {
      assert events[..k][1..] == rest[..k - 1];
    }
    forall k: nat, i: nat | StrandsAt(next, rest, k, i) ensures StrandsAt(s, events, k + 1, i) {
      assert events[..k + 1][1..] == rest[..k];
    }
  }

  lemma {:induction false} NothingAfterTheEnd(s: Context, events: seq<Event>)
    requires !s.status.Open?
    ensures Run(s, events) == s && forall k: nat, i: nat :: !StrandsAt(s, events, k, i)
  {
  }

  lemma {:induction false} StepAborts(s: Context, e: Event)
    requires Inv(s) && s.status.Open?
    ensures Inv(Step(s, e))
    ensures Step(s, e).status.Aborted? <==> e.Readable? && exists i: nat :: Strands(s, e.batch, i)
  {
    StepKeeps(s, e);
    if e.Readable? { ProcessAborts(s, e.batch, e.broken); }
  }

  lemma {:induction false} RunAborts(s: Context, events: seq<Event>)
    requires Inv(s) && s.status.Open?
    ensures Run(s, events).status.Aborted? <==> exists k: nat, i: nat :: StrandsAt(s, events, k, i)
    decreases |events|
  {
    if events != [] {
      var next, rest := Step(s, events[0]), events[1..];
      StepAborts(s, events[0]);
      StrandsAtSome(s, events);
      if next.status.Open? {
        RunAborts(next, rest);
      } else {
        NothingAfterTheEnd(next, rest);
      }
    }
  }

  /** Over whole runs an assertion fails if and only if, at some time, a reply that is no error
      arrives when no callback is left for it: the replies of the batch before it have used up those
      that were pending and those that the callbacks issued meanwhile. */
  lemma {:induction false} AbortsExactlyWhenStranded(events: seq<Event>)
    ensures Run(INITIAL, events).status.Aborted? <==> exists k: nat, i: nat :: StrandsAt(INITIAL, events, k, i)
  {
    assert Inv(INITIAL);
    RunAborts(INITIAL, events);
  }

  // ---------- closing ----------

  lemma {:induction false} TeardownAcceptsNone(s: Context)
    requires s.Closing() || s.replies == []
    ensures Teardown(s).accepted == s.accepted && (s.Closing() ==> Teardown(s).Closing())
    decreases |s.replies|
  {
    if s.replies != [] {
      TeardownAcceptsNone(RunCallback(Shift(s, None), s.replies[0], None));
    }
  }

  lemma {:induction false} ProcessAcceptsNone(s: Context, batch: seq<Reply>, broken: bool)
    requires s.Closing()
    ensures var r := ProcessCallbacks(s, batch, broken); r.accepted == s.accepted && r.Closing()
    decreases |batch|
  {
    if batch == [] || s.replies == [] {
      TeardownAcceptsNone(s.(err := true, disconnecting := true));
      TeardownAcceptsNone(s.(disconnecting := true));
      TeardownAcceptsNone(s);
    } else {
      var r := RunCallback(Shift(s, Some(batch[0])), s.replies[0], Some(batch[0]));
      if s.replies[0].fn.Some? && r.freeing {
        TeardownAcceptsNone(r);
      } else {
        ProcessAcceptsNone(r, batch[1..], broken);
      }
    }
  }

  lemma {:induction false} StepAcceptsNone(s: Context, e: Event)
    requires s.Closing()
    ensures Step(s, e).accepted == s.accepted && Step(s, e).Closing()
  {
    match e
    case Readable(batch, broken) => ProcessAcceptsNone(s, batch, broken);
    case Freed => TeardownAcceptsNone(s.(freeing := true));
    case _ =>
      TeardownAcceptsNone(s.(disconnecting := true));
      TeardownAcceptsNone(s.(err := true, disconnecting := true));
  }

  /** Once the context is disconnecting or being freed no command is accepted any more. */
  lemma {:induction false} ClosingAcceptsNone(s: Context, events: seq<Event>)
    requires s.Closing()
    ensures Run(s, events).accepted == s.accepted && Run(s, events).Closing()
    decreases |events|
  {
    if events != [] && s.status.Open? {
      StepAcceptsNone(s, events[0]);
      ClosingAcceptsNone(Step(s, events[0]), events[1..]);
    }
  }

  /** Whether the callback frees the context when it is given this reply. */
  ghost predicate Frees(cb: Callback, reply: Reply) {
    cb.fn.Some? && Free in cb.fn.value(Some(reply))
  }

  lemma {:induction false} ActAllFrees(s: Context, actions: seq<Action>)
    ensures ActAll(s, actions).freeing <==> s.freeing || Free in actions
    ensures s.disconnecting ==> ActAll(s, actions).disconnecting
    ensures s.Closing() ==> ActAll(s, actions).obuf == s.obuf
    decreases |actions|
  {
    if actions != [] {
      ActAllFrees(Act(s, actions[0]), actions[1..]);
      assert actions == [actions[0]] + actions[1..];
    }
  }

  /** The callbacks settled with these replies. */
  function Zip(cbs: seq<Callback>, batch: seq<Reply>): (settled: seq<Settled>)
    requires |cbs| == |batch|
  {
    if cbs == [] then [] else [Settled(cbs[0], Some(batch[0]))] + Zip(cbs[1..], batch[1..])
  }

  lemma {:induction false} ActAllConnected(s: Context, actions: seq<Action>)
    ensures ActAll(s, actions).connected == s.connected && ActAll(s, actions).err == s.err
    decreases |actions|
  {
    if actions != [] { ActAllConnected(Act(s, actions[0]), actions[1..]); }
  }

  lemma {:induction false} ConnectedStays(s: Context, cb: Callback, reply: Option<Reply>)
    ensures RunCallback(s, cb, reply).connected == s.connected && RunCallback(s, cb, reply).err == s.err
  {
    if cb.fn.Some? { ActAllConnected(s.(inCallback := true), cb.fn.value(reply)); }
  }

  /** The callback is run with its reply, and the context goes on closing. */
  lemma {:induction false} CleanStep(s: Context, reply: Reply, r: Context)
    requires !s.err && !s.freeing && s.disconnecting && s.obuf == 0 && s.replies != [] && !Frees(s.replies[0], reply)
    requires r == RunCallback(Shift(s, Some(reply)), s.replies[0], Some(reply))
    ensures !r.err && !r.freeing && r.disconnecting && r.obuf == 0 && r.replies == s.replies[1..]
    ensures r.connected == s.connected && r.status == s.status
            && r.settled == s.settled + [Settled(s.replies[0], Some(reply))]
  {
    var cb, s' := s.replies[0], Shift(s, Some(reply));
    ConnectedStays(s', cb, Some(reply));
    if cb.fn.Some? { ActAllFrees(s'.(inCallback := true), cb.fn.value(Some(reply))); }
  }

  lemma {:induction false} SettledLonger(before: seq<Settled>, one: Settled, more: seq<Settled>)
    ensures before + [one] + more == before + ([one] + more)
  {
  }

  /** A clean disconnect loses nothing: when the commands are written and every pending callback
      gets its reply, and none of them frees the context, each is run with its own reply and the
      context closes, and tells so without an error. */
  lemma {:induction false} CleanDisconnect(s: Context, batch: seq<Reply>)
    requires s.status.Open? && !s.err && !s.freeing && s.disconnecting && s.obuf == 0
    requires |batch| == |s.replies| && forall i :: 0 <= i < |batch| ==> !Frees(s.replies[i], batch[i])
    ensures var r := ProcessCallbacks(s, batch, false);
            && r.status == Closed(if s.connected then Some(true) else None)
            && r.settled == s.settled + Zip(s.replies, batch) && r.replies == []
    decreases |batch|
  {
    if batch == [] {
      assert s.settled + [] == s.settled;
    } else {
      var r := RunCallback(Shift(s, Some(batch[0])), s.replies[0], Some(batch[0]));
      CleanStep(s, batch[0], r);
      CleanDisconnect(r, batch[1..]);
      SettledLonger(s.settled, Settled(s.replies[0], Some(batch[0])), Zip(s.replies[1..], batch[1..]));
    }
  }
}
