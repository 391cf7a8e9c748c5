/** The monitoring pipeline: a sketch filters small flows out, a cache counts the rest, and a
    second sketch guards the upload of its victims to the CPU. */
module Monitors {
  import opened TowerSketches
  import opened LruCaches
  import opened Sequences

  const THRESHOLD := 1000
  const WINDOW_LEN := 0.01

  datatype Packet = Packet(id: Flow, size: nat, timestamp: real)

  datatype Env = Env(h: Hashes, frontHash: RowHash<Flow>, endHash: RowHash<Fp>)

  /** The state of the pipeline between two packets. */
  datatype State = State(curwin: int, front: Trace<Flow>, end: Trace<Fp>, nt: seq<seq<Slot>>, cpu: map<Fp, nat>)

  /** Conversion of a double to int drops the fraction. */
  function Trunc(x: real): int {
    if x >= 0.0 then x.Floor else -((-x).Floor)
  }

  function WindowOf(p: Packet): int { Trunc(p.timestamp / WINDOW_LEN) }

  // ---------- one packet ----------

  ghost function Roll(m: State, p: Packet): State {
    if WindowOf(p) > m.curwin then m.(curwin := WindowOf(p), front := [], end := []) else m
  }

  /** The filter's verdict, once it has counted the packet. */
  ghost predicate Passes(env: Env, m: State, p: Packet) {
    Estimate(env.frontHash, RowsOf(env.frontHash, Roll(m, p).front + [(p.id, p.size)]), p.id) > THRESHOLD
  }

  ghost function Cache(env: Env, m: State, p: Packet): (r: (State, Slot))
    requires |m.nt| == NBUCK
    ensures |r.0.nt| == NBUCK
  {
    var b := env.h.Bucket(p.id);
    var r := Put(m.nt[b], env.h.FpOf(p.id), p.size);
    (m.(nt := m.nt[b := r.0]), r.1)
  }

  ghost function Upload(env: Env, m: State, victim: Slot): (r: State)
    ensures r.nt == m.nt
  {
    if victim.cnt == 0 then m
    else
      var end := m.end + [(victim.fp, victim.cnt)];
      if Estimate(env.endHash, RowsOf(env.endHash, end), victim.fp) > 0
      then m.(end := end, cpu := Send(m.cpu, victim.fp, victim.cnt))
      else m.(end := end)
  }

  ghost function Step(env: Env, m: State, p: Packet): (r: State)
    requires |m.nt| == NBUCK
    ensures |r.nt| == NBUCK
  {
    var m1 := Roll(m, p);
    var m2 := m1.(front := m1.front + [(p.id, p.size)]);
    if Passes(env, m, p) then
      var r := Cache(env, m2, p);
      Upload(env, r.0, r.1)
    else m2
  }

  ghost function Run(env: Env, s: seq<Packet>): (r: State)
    ensures |r.nt| == NBUCK
  {
    if s == [] then State(0, [], [], seq(NBUCK, _ => []), map[])
    else Step(env, Run(env, Init(s)), Last(s))
  }

  /** At no point has a sketch been given 2^32 or more since it was last cleared. */
  ghost predicate SketchesHold(env: Env, s: seq<Packet>) {
    && Grand(Run(env, s).front) < WRAP && Grand(Run(env, s).end) < WRAP
    && (s != [] ==> SketchesHold(env, Init(s)))
  }

  // ---------- what the stream contains ----------

  /** The bytes a flow sends. */
  function Bytes(s: seq<Packet>, f: Flow): nat {
    if s == [] then 0 else Bytes(Init(s), f) + if Last(s).id == f then Last(s).size else 0
  }

  function AllBytes(s: seq<Packet>): nat {
    if s == [] then 0 else AllBytes(Init(s)) + Last(s).size
  }

  /** The bytes of a flow that the filter lets through to the cache. */
  ghost function Admitted(env: Env, s: seq<Packet>, f: Flow): nat {
    if s == [] then 0
    else Admitted(env, Init(s), f) + if Last(s).id == f && Passes(env, Run(env, Init(s)), Last(s)) then Last(s).size
         else 0
  }

  /** The windows in which a flow sends. */
  ghost function Windows(env: Env, s: seq<Packet>, f: Flow): set<int> {
    if s == [] then {}
    else Windows(env, Init(s), f) + if Last(s).id == f then {Run(env, s).curwin} else {}
  }

  /** A capture: times never fall and none is negative. */
  ghost predicate Timely(s: seq<Packet>) {
    && (forall i :: 0 <= i < |s| ==> s[i].timestamp >= 0.0)
    && (forall i, j :: 0 <= i < j < |s| ==> s[i].timestamp <= s[j].timestamp)
  }

  lemma {:induction false} LaterWindow(p: Packet, q: Packet)
    requires 0.0 <= p.timestamp <= q.timestamp
    ensures 0 <= WindowOf(p) <= WindowOf(q)
  {
  }

  /** In a capture the current window is that of the last packet. */
  lemma {:induction false} CurrentWindow(env: Env, s: seq<Packet>)
    requires Timely(s)
    ensures Run(env, s).curwin == if s == [] then 0 else WindowOf(Last(s))
  {
    if s != [] {
      var t, p := Init(s), Last(s);
      CurrentWindow(env, t);
      StepFront(env, Run(env, t), p);
      LaterWindow(if t == [] then p else Last(t), p);
    }
  }

  function WindowsSent(s: seq<Packet>, f: Flow): set<int> {
    set i | 0 <= i < |s| && s[i].id == f :: WindowOf(s[i])
  }

  lemma {:induction false} WindowsSentMore(s: seq<Packet>, f: Flow)
    requires s != []
    ensures WindowsSent(s, f) == WindowsSent(Init(s), f) + if Last(s).id == f then {WindowOf(Last(s))} else {}
  {
    var t, n := Init(s), |s| - 1;
    forall i | 0 <= i < n ensures t[i] == s[i] {
    }
    forall w | w in WindowsSent(t, f) ensures w in WindowsSent(s, f) {
      var i :| 0 <= i < n && t[i].id == f && WindowOf(t[i]) == w;
      assert s[i].id == f && WindowOf(s[i]) == w;
    }
    if s[n].id == f { assert WindowOf(s[n]) in WindowsSent(s, f); }
  }

  /** The windows of a flow are those that its own packets fall in. */
  lemma {:induction false} WindowsOfPackets(env: Env, s: seq<Packet>, f: Flow)
    requires Timely(s)
    ensures Windows(env, s, f) == WindowsSent(s, f)
  {
    if s != [] {
      WindowsOfPackets(env, Init(s), f);
      CurrentWindow(env, s);
      WindowsSentMore(s, f);
    }
  }

  /** What the packets of window w bring to the filter. */
  function InWindow(s: seq<Packet>, w: int): Trace<Flow> {
    if s == [] then []
    else if WindowOf(Last(s)) == w then InWindow(Init(s), w) + [(Last(s).id, Last(s).size)]
    else InWindow(Init(s), w)
  }

  lemma {:induction false} NothingInWindow(s: seq<Packet>, w: int)
    requires forall i :: 0 <= i < |s| ==> WindowOf(s[i]) != w
    ensures InWindow(s, w) == []
  {
    if s != [] { NothingInWindow(Init(s), w); }
  }

  /** In a capture the filter's sketch holds the packets of the current window, all of them and no
      others. */
  lemma {:induction false} FrontIsWindow(env: Env, s: seq<Packet>)
    requires Timely(s)
    ensures Run(env, s).front == InWindow(s, Run(env, s).curwin)
  {
    if s != [] {
      var t, p := Init(s), Last(s);
      FrontIsWindow(env, t);
      CurrentWindow(env, t);
      StepFront(env, Run(env, t), p);
      CurrentWindow(env, s);
      if WindowOf(p) > Run(env, t).curwin {
        forall i | 0 <= i < |t| ensures WindowOf(t[i]) != WindowOf(p) {
          LaterWindow(t[i], Last(t));
        }
        NothingInWindow(t, WindowOf(p));
      }
    }
  }

  /** When a packet passes, in terms of the stream only: every row whose cell of its flow was given
      less than the counter's limit by the packets of this window, it included, was given more than
      THRESHOLD. */
  lemma {:induction false} PassesIff(env: Env, s: seq<Packet>, p: Packet)
    requires Timely(s + [p]) && Grand(InWindow(s + [p], WindowOf(p))) < WRAP
    ensures var trace := InWindow(s + [p], WindowOf(p));
            Passes(env, Run(env, s), p) <==>
            forall i :: 0 <= i < ROWS ==>
              var total := CellTotal(env.frontHash, trace, i, Cell(env.frontHash, p.id, i));
              total < LIMIT[i] ==> total > THRESHOLD
  {
    var s' := s + [p];
    assert Init(s') == s && Last(s') == p;
    FrontIsWindow(env, s');
    CurrentWindow(env, s');
    StepFront(env, Run(env, s), p);
    EstimateIsLeastTotal(env.frontHash, InWindow(s', WindowOf(p)), p.id);
  }

  /** The bytes of a flow held back since the sketches were last cleared. */
  ghost function HeldNow(env: Env, s: seq<Packet>, f: Flow): nat {
    if s == [] then 0
    else
      var m, p := Run(env, Init(s)), Last(s);
      (if WindowOf(p) > m.curwin then 0 else HeldNow(env, Init(s), f))
      + if p.id == f && !Passes(env, m, p) then p.size else 0
  }

  /** What the CPU and the cache know about a flow together. */
  ghost function Known(env: Env, m: State, f: Flow): nat
    requires |m.nt| == NBUCK
  {
    Count(m.nt[env.h.Bucket(f)], env.h.FpOf(f)) + CpuCount(m.cpu, env.h.FpOf(f))
  }

  // ---------- what the filter holds back ----------

  lemma {:induction false} GrandAppend<K>(t: Trace<K>, k: K, n: nat)
    ensures Grand(t + [(k, n)]) == Grand(t) + n
  {
    assert (t + [(k, n)])[..|t + [(k, n)]| - 1] == t;
  }

  lemma {:induction false} TotalAppend<K>(t: Trace<K>, k: K, n: nat, x: K)
    ensures Total(t + [(k, n)], x) == Total(t, x) + if k == x then n else 0
  {
    assert (t + [(k, n)])[..|t + [(k, n)]| - 1] == t;
  }

  lemma {:induction false} StepFront(env: Env, m: State, p: Packet)
    requires |m.nt| == NBUCK
    ensures Step(env, m, p).front == Roll(m, p).front + [(p.id, p.size)]
    ensures Step(env, m, p).curwin == Roll(m, p).curwin
  {
  }

  /** The filter's sketch holds part of the stream. */
  lemma {:induction false} FrontIsPartOfStream(env: Env, s: seq<Packet>)
    ensures Grand(Run(env, s).front) <= AllBytes(s)
  {
    if s != [] {
      FrontIsPartOfStream(env, Init(s));
      var m, p := Run(env, Init(s)), Last(s);
      StepFront(env, m, p);
      GrandAppend(Roll(m, p).front, p.id, p.size);
    }
  }

  /** A packet is held back only while its flow's bytes in this window are few. */
  lemma {:induction false} HeldPacketIsSmall(env: Env, m: State, p: Packet)
    requires !Passes(env, m, p) && Grand(Roll(m, p).front) + p.size < WRAP
    ensures Total(Roll(m, p).front, p.id) + p.size <= THRESHOLD
  {
    var front := Roll(m, p).front;
    GrandAppend(front, p.id, p.size);
    TotalAppend(front, p.id, p.size, p.id);
    NeverUnderestimates(env.frontHash, front + [(p.id, p.size)], p.id);
  }

  /** What was held back in this window went through the filter's sketch, and is small. */
  lemma {:induction false} HeldNowIsSmall(env: Env, s: seq<Packet>, f: Flow)
    requires SketchesHold(env, s)
    ensures HeldNow(env, s, f) <= Total(Run(env, s).front, f)
    ensures HeldNow(env, s, f) <= THRESHOLD
  {
    if s != [] {
      HeldNowIsSmall(env, Init(s), f);
      var m, p := Run(env, Init(s)), Last(s);
      StepFront(env, m, p);
      GrandAppend(Roll(m, p).front, p.id, p.size);
      TotalAppend(Roll(m, p).front, p.id, p.size, f);
      if !Passes(env, m, p) {
        HeldPacketIsSmall(env, m, p);
      }
    }
  }

  /** curwin never falls, so a new window is new for every flow. */
  lemma {:induction false} WindowsSoFar(env: Env, s: seq<Packet>, f: Flow)
    ensures forall w :: w in Windows(env, s, f) ==> w <= Run(env, s).curwin
  {
    if s != [] {
      WindowsSoFar(env, Init(s), f);
    }
  }

  /** held bytes in the current window and rest bytes before it fit the windows seen. */
  ghost predicate WithinBudget(held: nat, rest: int, windows: set<int>, now: int) {
    if now in windows then rest <= THRESHOLD * (|windows| - 1)
    else held == 0 && rest <= THRESHOLD * |windows|
  }

  lemma {:induction false} BudgetStep(held: nat, rest: int, windows: set<int>, now: int, now': int, sends: bool,
                                      more: nat)
    requires WithinBudget(held, rest, windows, now) && held <= THRESHOLD && now <= now'
    requires forall w :: w in windows ==> w <= now
    requires !sends ==> more == 0
    ensures var fresh' := now' > now;
            WithinBudget((if fresh' then 0 else held) + more, rest + (if fresh' then held else 0),
                         windows + (if sends then {now'} else {}), now')
  {
    if now' in windows {
      assert windows + {now'} == windows;
    } else {
      assert |windows + {now'}| == |windows| + 1;
    }
    assert windows + {} == windows;
  }

  ghost function HeldBack(env: Env, s: seq<Packet>, f: Flow): int { Bytes(s, f) - Admitted(env, s, f) }

  lemma {:induction false} HeldWithinBudget(env: Env, s: seq<Packet>, f: Flow)
    requires SketchesHold(env, s)
    ensures HeldBack(env, s, f) >= HeldNow(env, s, f)
    ensures WithinBudget(HeldNow(env, s, f), HeldBack(env, s, f) - HeldNow(env, s, f), Windows(env, s, f),
                         Run(env, s).curwin)
  {
    if s != [] {
      var t := Init(s);
      HeldWithinBudget(env, t, f);
      HeldNowIsSmall(env, t, f);
      WindowsSoFar(env, t, f);
      var m, p := Run(env, t), Last(s);
      StepFront(env, m, p);
      var more := if p.id == f && !Passes(env, m, p) then p.size else 0;
      assert HeldBack(env, s, f) == HeldBack(env, t, f) + more;
      BudgetStep(HeldNow(env, t, f), HeldBack(env, t, f) - HeldNow(env, t, f), Windows(env, t, f),
                 m.curwin, Run(env, s).curwin, p.id == f, more);
    }
  }

  /** The filter holds back at most THRESHOLD bytes of a flow in each window in which it sends. */
  lemma {:induction false} HeldBackPerWindow(env: Env, s: seq<Packet>, f: Flow)
    requires SketchesHold(env, s)
    ensures 0 <= HeldBack(env, s, f) <= THRESHOLD * |Windows(env, s, f)|
  {
    HeldWithinBudget(env, s, f);
    HeldNowIsSmall(env, s, f);
  }
}
