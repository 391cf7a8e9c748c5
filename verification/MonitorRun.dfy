/** The experiment itself: a loop over the packets, then one query for every flow. */
module MonitorRuns {
  import opened TowerSketches
  import opened LruCaches
  import opened Sequences
  import opened Monitors
  import opened MonitorBounds

  /** The variables test_app3 keeps: the window, the two sketches and the cache. */
  class Pipeline {
    const env: Env
    var curwin: int
    const front: TowerSketch<Flow>
    const lru: Lru
    const end: TowerSketch<Fp>

    ghost predicate Valid()
      reads this, front, front.Repr, lru, lru.nt, end, end.Repr
    {
      && front.Valid() && lru.Valid() && end.Valid()
      && front.hash == env.frontHash && end.hash == env.endHash && lru.h == env.h
      && front.Repr !! end.Repr !! {this, lru, lru.nt}
    }

    ghost function Value(): State
      reads this, front, lru, end, lru.nt
    {
      State(curwin, front.trace, end.trace, lru.nt[..], lru.inCpu)
    }

    constructor (e: Env)
      ensures Valid() && env == e
      ensures fresh(front.Repr) && fresh(end.Repr) && fresh(lru) && fresh(lru.nt)
      ensures Value() == Run(e, [])
    {
      env := e;
      curwin := 0;
      front := new TowerSketch<Flow>(e.frontHash);
      lru := new Lru(e.h);
      end := new TowerSketch<Fp>(e.endHash);
    }

    /** Both sketches are cleared when a packet opens a new window (experiment.cpp, lines 101-106). */
    method NewWindow(p: Packet)
      requires Valid()
      modifies this`curwin, front.Repr, end.Repr
      ensures Valid() && Value() == Roll(old(Value()), p)
    {
      if Trunc(p.timestamp / WINDOW_LEN) > curwin {
        front.Clear();
        end.Clear();
        curwin := Trunc(p.timestamp / WINDOW_LEN);
      }
    }

    /** A victim goes to the CPU when the second sketch answers anything at all (experiment.cpp, lines 113-121). */
    method UploadVictim(victim: Slot)
      requires Valid()
      modifies lru`upload, lru`inCpu, end.Repr
      ensures Valid() && Value() == Upload(env, old(Value()), victim)
    {
      if victim.cnt != 0 {
        var uploads := GuardUpload(victim);
        if uploads {
          SendVictim(victim);
        }
      }
    }

    method SendVictim(victim: Slot)
      requires Valid()
      modifies lru`upload, lru`inCpu
      ensures Valid() && Value() == old(Value()).(cpu := Send(old(lru.inCpu), victim.fp, victim.cnt))
    {
      lru.upload := lru.upload + 8;
      lru.SendToCpu(victim.fp, victim.cnt);
    }

    /** The second sketch counts the victim and answers. */
    method GuardUpload(victim: Slot) returns (uploads: bool)
      requires Valid()
      modifies end.Repr
      ensures Valid() && end.trace == old(end.trace) + [(victim.fp, victim.cnt)]
      ensures Value() == old(Value()).(end := end.trace) && lru.inCpu == old(lru.inCpu)
      ensures uploads <==> Estimate(env.endHash, RowsOf(env.endHash, end.trace), victim.fp) > 0
    {
      var victimSize := end.InsertThenQuery(victim.fp, victim.cnt);
      uploads := victimSize > 0;
    }

    method CachePacket(p: Packet)
      requires Valid()
      modifies lru, lru.nt, end.Repr
      ensures Valid()
      ensures var r := Cache(env, old(Value()), p); Value() == Upload(env, r.0, r.1)
    {
      ghost var m := Value();
      var victim := lru.Insert(p.id, p.size);
      assert (Value(), victim) == Cache(env, m, p);
      UploadVictim(victim);
    }

    method Process(p: Packet)
      requires Valid()
      modifies this`curwin, lru, lru.nt, front.Repr, end.Repr
      ensures Valid() && Value() == Step(env, old(Value()), p)
    {
      var passes := Filter(p);
      if passes {
        CachePacket(p);
      }
    }

    /** The window and the filter. */
    method Filter(p: Packet) returns (passes: bool)
      requires Valid()
      modifies this`curwin, front.Repr, end.Repr
      ensures Valid() && passes == Passes(env, old(Value()), p)
      ensures var m := Roll(old(Value()), p); Value() == m.(front := m.front + [(p.id, p.size)])
    {
      NewWindow(p);
      var size := front.InsertThenQuery(p.id, p.size);
      passes := size > THRESHOLD;
    }

    method Feed(stream: seq<Packet>)
      requires Valid() && Value() == Run(env, [])
      modifies this`curwin, lru, lru.nt, front.Repr, end.Repr
      ensures Valid() && Value() == Run(env, stream)
    {
      var i := 0;
      while i < |stream|
        invariant 0 <= i <= |stream|
        invariant Valid() && Value() == Run(env, stream[..i])
      {
        assert Init(stream[..i + 1]) == stream[..i] && Last(stream[..i + 1]) == stream[i];
        Process(stream[i]);
        i := i + 1;
      }
      assert stream[..|stream|] == stream;
    }
  }

  // ---------- the report ----------

  function SumBytes(s: seq<Packet>, flows: seq<Flow>): nat {
    if flows == [] then 0 else SumBytes(s, Init(flows)) + Bytes(s, Last(flows))
  }

  ghost function SumWindows(env: Env, s: seq<Packet>, flows: seq<Flow>): nat {
    if flows == [] then 0 else SumWindows(env, s, Init(flows)) + |Windows(env, s, Last(flows))|
  }

  /** What is known of a flow is what it sent, less THRESHOLD for a window at most. */
  ghost predicate Within(env: Env, s: seq<Packet>, m: State, f: Flow)
    requires |m.nt| == NBUCK
  {
    0 <= Bytes(s, f) - Known(env, m, f) <= THRESHOLD * |Windows(env, s, f)|
  }

  /** The report on one flow. */
  method QueryFlow(lru: Lru, ghost env: Env, ghost m: State, ghost s: seq<Packet>, f: Flow)
    returns (cur: nat, ghost windows: nat)
    requires lru.Valid() && Holds(lru, env, m) && Within(env, s, m, f)
    ensures 0 <= Bytes(s, f) - cur <= THRESHOLD * windows && windows == |Windows(env, s, f)|
  {
    windows := |Windows(env, s, f)|;
    cur := lru.Query(f);
  }

  /** The cache is that of the pipeline in state m. */
  ghost predicate Holds(lru: Lru, env: Env, m: State)
    reads lru, lru.nt
  {
    |m.nt| == NBUCK && m.nt == lru.nt[..] && m.cpu == lru.inCpu && env.h == lru.h
  }

  /** test_app3: what is reported over all flows never exceeds what they sent, and falls short
      of it by at most THRESHOLD bytes for each flow and window in which the flow sends. */
  method TestApp3(env: Env, stream: seq<Packet>, flows: seq<Flow>) returns (reported: nat, sent: nat)
    requires Distinguishes(env.h, (set f | f in flows)) && Sent(stream, (set f | f in flows))
    requires SketchesHold(env, stream)
    ensures sent == SumBytes(stream, flows)
    ensures 0 <= sent - reported <= THRESHOLD * SumWindows(env, stream, flows)
  {
    var pipeline := new Pipeline(env);
    pipeline.Feed(stream);
    forall f | f in flows ensures Within(env, stream, Run(env, stream), f) {
      ErrorBound(env, (set f | f in flows), stream, f);
    }
    reported, sent := Report(pipeline.lru, env, Run(env, stream), stream, flows);
  }

  lemma {:induction false} OneMoreFlow(env: Env, s: seq<Packet>, flows: seq<Flow>, i: nat)
    requires i < |flows|
    ensures SumBytes(s, flows[..i + 1]) == SumBytes(s, flows[..i]) + Bytes(s, flows[i])
    ensures SumWindows(env, s, flows[..i + 1]) == SumWindows(env, s, flows[..i]) + |Windows(env, s, flows[i])|
  {
    assert Init(flows[..i + 1]) == flows[..i] && Last(flows[..i + 1]) == flows[i];
  }

  /** The loop over the flows. */
  method Report(lru: Lru, ghost env: Env, ghost m: State, stream: seq<Packet>, flows: seq<Flow>)
    returns (reported: nat, sent: nat)
    requires lru.Valid() && Holds(lru, env, m) && forall f :: f in flows ==> Within(env, stream, m, f)
    ensures Reported(env, stream, flows, reported, sent)
  {
    reported, sent := 0, 0;
    var i := 0;
    while i < |flows|
      invariant 0 <= i <= |flows| && Reported(env, stream, flows[..i], reported, sent)
    {
      OneMoreFlow(env, stream, flows, i);
      var cur, windows := QueryFlow(lru, env, m, stream, flows[i]);
      var size := Bytes(stream, flows[i]);
      MoreReported(env, stream, flows[..i], flows[..i + 1], reported, sent, cur, size, windows);
      reported, sent := reported + cur, sent + size;
      i := i + 1;
    }
    assert flows[..|flows|] == flows;
  }

  ghost predicate Reported(env: Env, s: seq<Packet>, flows: seq<Flow>, reported: nat, sent: nat) {
    sent == SumBytes(s, flows) && 0 <= sent - reported <= THRESHOLD * SumWindows(env, s, flows)
  }

  lemma {:induction false} MoreReported(env: Env, s: seq<Packet>, before: seq<Flow>, after: seq<Flow>,
                                        reported: nat, sent: nat, cur: nat, size: nat, windows: nat)
    requires Reported(env, s, before, reported, sent) && 0 <= size - cur <= THRESHOLD * windows
    requires SumBytes(s, after) == SumBytes(s, before) + size
    requires SumWindows(env, s, after) == SumWindows(env, s, before) + windows
    ensures Reported(env, s, after, reported + cur, sent + size)
  {
  }
}
