/** The exact LRU with delayed updates, and the one-bucket, one-stage cache that equals it. */
module App2Simulation {
  import opened Options
  import opened Sequences
  import opened Stamps
  import opened App2Model

  /** Each cached fingerprint's last time, and the cached stamps in order. */
  datatype Table = Table(timer: map<Fp, real>, nt: set<Stamp>)

  datatype Ideal = Ideal(t: Table, queue: seq<Stamp>, miss: nat)

  /** Every timed fingerprint has its stamp in nt, so the assert of app2-ideal.cpp holds, and conversely. */
  ghost predicate Linked(t: Table) {
    && (forall fp :: fp in t.timer ==> Stamp(t.timer[fp], fp) in t.nt)
    && (forall s :: s in t.nt ==> s.fp in t.timer && t.timer[s.fp] == s.ts)
  }

  function IdealTouch(t: Table, s: Stamp): Table {
    Table(t.timer[s.fp := s.ts],
          (if s.fp in t.timer then t.nt - {Stamp(t.timer[s.fp], s.fp)} else t.nt) + {s})
  }

  function IdealEvict(t: Table, capacity: nat): Table {
    if |t.nt| > capacity then
      var oldest := Least(t.nt);
      Table(t.timer - {oldest.fp}, t.nt - {oldest})
    else t
  }

  predicate IdealDue(c: Config, queue: seq<Stamp>, now: real) {
    queue != [] && now - queue[0].ts > c.delta
  }

  ghost function IdealDrain(c: Config, st: Ideal, now: real, capacity: nat): Ideal
    decreases |st.queue|
  {
    if IdealDue(c, st.queue, now)
    then IdealDrain(c, st.(t := IdealEvict(IdealTouch(st.t, st.queue[0]), capacity), queue := st.queue[1..]), now,
                    capacity)
    else st
  }

  ghost function IdealStep(c: Config, st: Ideal, a: Arrival, capacity: nat): Ideal {
    var d := IdealDrain(c, st, a.now, capacity);
    Ideal(d.t, d.queue + [Stamp(a.now, a.fp)], if a.fp in d.t.timer then d.miss else d.miss + 1)
  }

  ghost function IdealRun(c: Config, s: seq<Arrival>, capacity: nat): Ideal {
    if s == [] then Ideal(Table(map[], {}), [], 0)
    else IdealStep(c, IdealRun(c, Init(s), capacity), Last(s), capacity)
  }

  // ---------- the bucket and the exact LRU ----------

  /** A bucket without duplicates, most recent first. */
  ghost predicate Ordered(b: Bucket) {
    forall i, j :: 0 <= i < j < |b| ==> b[i].fp != b[j].fp && Before(b[j], b[i])
  }

  ghost predicate Agree(b: Bucket, t: Table, fp: Fp) {
    var i := Find(b, fp);
    && (fp in t.timer <==> i < |b|)
    && (i < |b| ==> t.timer[fp] == b[i].ts)
  }

  ghost predicate SameSlots(b: Bucket, t: Table) {
    Linked(t) && forall fp {:trigger Agree(b, t, fp)} :: Agree(b, t, fp)
  }

  lemma {:induction false} FindInFront(s: Stamp, r: Bucket, g: Fp)
    ensures Find([s] + r, g) == if s.fp == g then 0 else 1 + Find(r, g)
  {
    assert ([s] + r)[1..] == r;
  }

  lemma {:induction false} FindRemoved(b: Bucket, i: nat, g: Fp)
    requires Ordered(b) && i < |b|
    ensures var r := Remove(b, i);
            if g == b[i].fp || Find(b, g) == |b| then Find(r, g) == |r|
            else Find(r, g) < |r| && r[Find(r, g)] == b[Find(b, g)]
  {
    var r, m := Remove(b, i), Find(b, g);
    if g == b[i].fp || m == |b| {
      FindAbsent(r, g);
    } else {
      var j := if m < i then m else m - 1;
      assert r[j] == b[m];
      FindIs(r, j);
    }
  }

  /** The bucket a refresh leaves behind the slot that enters. */
  ghost function Behind(b: Bucket, fp: Fp): Bucket {
    if Find(b, fp) < |b| then Remove(b, Find(b, fp)) else b
  }

  lemma {:induction false} RemoveOrdered(b: Bucket, i: nat)
    requires Ordered(b) && i < |b|
    ensures Ordered(Remove(b, i))
  {
  }

  lemma {:induction false} BehindOrdered(b: Bucket, fp: Fp)
    requires Ordered(b)
    ensures Ordered(Behind(b, fp)) && forall s :: s in Behind(b, fp) ==> s in b && s.fp != fp
  {
    var i, r := Find(b, fp), Behind(b, fp);
    if i < |b| {
      RemoveOrdered(b, i);
      forall j | 0 <= j < |r| ensures r[j] in b && r[j].fp != fp {
      }
    }
  }

  lemma {:induction false} RefreshOrdered(b: Bucket, s: Stamp)
    requires Ordered(b) && forall i :: 0 <= i < |b| ==> AtOrBefore(b[i], s)
    ensures Ordered(Refresh(b, s))
  {
    var r := Behind(b, s.fp);
    BehindOrdered(b, s.fp);
    assert Refresh(b, s) == [s] + r;
    forall i | 0 <= i < |r| ensures r[i].fp != s.fp && Before(r[i], s) {
      assert r[i] in r;
    }
  }

  lemma {:induction false} TouchLinked(t: Table, s: Stamp)
    requires Linked(t)
    ensures Linked(IdealTouch(t, s))
  {
  }

  /** Removing a slot leaves every other fingerprint's time alone. */
  lemma {:induction false} BehindAgrees(b: Bucket, t: Table, fp: Fp, g: Fp)
    requires Ordered(b) && Agree(b, t, g) && g != fp
    ensures Agree(Behind(b, fp), t, g)
  {
    if Find(b, fp) < |b| {
      FindRemoved(b, Find(b, fp), g);
    }
  }

  /** A slot entering in front gives its fingerprint its own time. */
  lemma {:induction false} FrontAgreesSame(r: Bucket, t: Table, s: Stamp)
    ensures Agree([s] + r, IdealTouch(t, s), s.fp)
  {
    FindInFront(s, r, s.fp);
  }

  lemma {:induction false} FrontAgreesOther(r: Bucket, t: Table, s: Stamp, g: Fp)
    requires Agree(r, t, g) && g != s.fp
    ensures Agree([s] + r, IdealTouch(t, s), g)
  {
    FindInFront(s, r, g);
  }

  lemma {:induction false} RefreshAgrees(b: Bucket, t: Table, s: Stamp, g: Fp)
    requires Ordered(b) && Agree(b, t, g)
    ensures Agree(Refresh(b, s), IdealTouch(t, s), g)
  {
    var r := Behind(b, s.fp);
    assert Refresh(b, s) == [s] + r;
    if g == s.fp {
      FrontAgreesSame(r, t, s);
    } else {
      BehindAgrees(b, t, s.fp, g);
      FrontAgreesOther(r, t, s, g);
    }
  }

  lemma {:induction false} RefreshKeepsSame(b: Bucket, t: Table, s: Stamp)
    requires Ordered(b) && SameSlots(b, t)
    ensures SameSlots(Refresh(b, s), IdealTouch(t, s))
  {
    TouchLinked(t, s);
    forall g ensures Agree(Refresh(b, s), IdealTouch(t, s), g) {
      assert Agree(b, t, g);
      RefreshAgrees(b, t, s, g);
    }
  }

  // ---------- the eviction ----------

  ghost function StampSet(b: Bucket): set<Stamp> {
    set s | s in b
  }

  lemma {:induction false} StampSetSize(b: Bucket)
    requires Ordered(b)
    ensures |StampSet(b)| == |b|
  {
    if b != [] {
      var r := b[..|b| - 1];
      StampSetSize(r);
      assert StampSet(b) == StampSet(r) + {b[|b| - 1]};
      assert b[|b| - 1] !in StampSet(r);
    }
  }

  lemma {:induction false} SameSize(b: Bucket, t: Table)
    requires Ordered(b) && SameSlots(b, t)
    ensures t.nt == StampSet(b) && |t.nt| == |b|
  {
    forall s | s in b ensures s in t.nt {
      var i :| 0 <= i < |b| && b[i] == s;
      FindIs(b, i);
      assert Agree(b, t, s.fp);
    }
    forall s | s in t.nt ensures s in b {
      assert Agree(b, t, s.fp);
    }
    assert t.nt == StampSet(b);
    StampSetSize(b);
  }

  /** The least stamp of the exact LRU is the last slot of the bucket. */
  lemma {:induction false} LeastIsLast(b: Bucket, t: Table)
    requires b != [] && Ordered(b) && SameSlots(b, t)
    ensures t.nt != {} && Least(t.nt) == b[|b| - 1] && |t.nt| == |b|
  {
    var last := b[|b| - 1];
    SameSize(b, t);
    assert last in StampSet(b);
    forall s | s in t.nt && s != last ensures Before(last, s) {
      var i :| 0 <= i < |b| && s == b[i];
    }
    LeastIs(t.nt, last);
  }

  lemma {:induction false} DropAgrees(b: Bucket, t: Table, g: Fp)
    requires b != [] && Ordered(b) && Agree(b, t, g)
    ensures var n := |b| - 1;
            Agree(b[..n], Table(t.timer - {b[n].fp}, t.nt - {b[n]}), g)
  {
    var n := |b| - 1;
    assert b[..n] == Remove(b, n);
    FindRemoved(b, n, g);
    FindIs(b, n);
  }

  lemma {:induction false} DropLinked(t: Table, s: Stamp)
    requires Linked(t) && s in t.nt
    ensures Linked(Table(t.timer - {s.fp}, t.nt - {s}))
  {
  }

  /** The bucket's own eviction. */
  ghost function Trim(b: Bucket, k: nat): Bucket {
    if |b| > k then b[..|b| - 1] else b
  }

  lemma {:induction false} EvictKeepsSame(b: Bucket, t: Table, k: nat)
    requires b != [] && Ordered(b) && SameSlots(b, t)
    ensures Ordered(Trim(b, k)) && SameSlots(Trim(b, k), IdealEvict(t, k))
  {
    LeastIsLast(b, t);
    if |b| > k {
      DropLinked(t, b[|b| - 1]);
      var b', t' := Trim(b, k), IdealEvict(t, k);
      forall g ensures Agree(b', t', g) {
        assert Agree(b, t, g);
        DropAgrees(b, t, g);
      }
    }
  }

  // ---------- runs ----------

  ghost predicate Single(c: Config) { c.Ok() && c.stages == 1 && c.len == 1 }

  lemma {:induction false} SingleWrite(nt: Slots, b: Bucket)
    requires |nt| == 1 && |nt[0]| == 1
    ensures Write(nt, 0, 0, b) == [[b]]
  {
    var r := Write(nt, 0, 0, b);
    assert r[0] == [b];
    assert r == [r[0]];
  }

  lemma {:induction false} SingleSettle(c: Config, nt: Slots, b: Bucket)
    requires Single(c) && Sized(c, nt)
    ensures SettleFirst(c, nt, 0, b).0 == Settle(c, nt, 0, 0, b).0 == [[Trim(b, c.k)]]
  {
    SingleWrite(nt, Trim(b, c.k));
  }

  /** With one stage of one bucket both kinds of update do the same. */
  lemma {:induction false} SingleUpdate(c: Config, nt: Slots, cur: Pending)
    requires Single(c) && Sized(c, nt) && -1 <= cur.stage < 1
    ensures Update(c, nt, cur).0 == [[Trim(Refresh(nt[0][0], cur.Slot()), c.k)]]
  {
    assert c.Bucket(cur.fp, 0) == 0;
    SingleSettle(c, nt, Refresh(nt[0][0], cur.Slot()));
  }

  /** Everything cached is older than everything waiting, and waiting stamps increase. */
  ghost predicate Timeline(b: Bucket, q: seq<Pending>, last: Stamp) {
    && (forall i, j :: 0 <= i < |b| && 0 <= j < |q| ==> AtOrBefore(b[i], q[j].Slot()))
    && (forall i, j :: 0 <= i < j < |q| ==> AtOrBefore(q[i].Slot(), q[j].Slot()))
    && (forall i :: 0 <= i < |b| ==> AtOrBefore(b[i], last))
    && (forall j :: 0 <= j < |q| ==> AtOrBefore(q[j].Slot(), last))
  }

  ghost predicate SameQueue(q: seq<Pending>, p: seq<Stamp>) {
    |q| == |p| && forall i :: 0 <= i < |q| ==> q[i].Slot() == p[i]
  }

  ghost predicate Related(c: Config, st: State, ideal: Ideal, last: Stamp) {
    && Single(c) && StateOk(c, st)
    && Ordered(st.nt[0][0]) && SameSlots(st.nt[0][0], ideal.t)
    && Timeline(st.nt[0][0], st.queue, last) && SameQueue(st.queue, ideal.queue)
    && st.miss == ideal.miss
  }

  lemma {:induction false} UpdateKeepsRelated(c: Config, st: State, ideal: Ideal, last: Stamp)
    requires Related(c, st, ideal, last) && st.queue != []
    ensures Related(c, st.(nt := Update(c, st.nt, st.queue[0]).0, queue := st.queue[1..]),
                    ideal.(t := IdealEvict(IdealTouch(ideal.t, ideal.queue[0]), c.k), queue := ideal.queue[1..]), last)
  {
    var b, cur := st.nt[0][0], st.queue[0];
    var s := cur.Slot();
    SingleUpdate(c, st.nt, cur);
    RefreshOrdered(b, s);
    RefreshKeepsSame(b, ideal.t, s);
    EvictKeepsSame(Refresh(b, s), IdealTouch(ideal.t, s), c.k);
    RefreshTimes(b, s, st.queue, last, c.k);
  }

  lemma {:induction false} RefreshTimes(b: Bucket, s: Stamp, q: seq<Pending>, last: Stamp, k: nat)
    requires Ordered(b) && Timeline(b, q, last) && q != [] && q[0].Slot() == s
    ensures Timeline(Trim(Refresh(b, s), k), q[1..], last)
  {
    BehindOrdered(b, s.fp);
    assert Refresh(b, s) == [s] + Behind(b, s.fp);
    var b' := Trim(Refresh(b, s), k);
    forall i | 0 <= i < |b'| ensures b'[i] == s || b'[i] in b {
    }
  }

  lemma {:induction false} DrainKeepsRelated(c: Config, st: State, ideal: Ideal, now: real, last: Stamp)
    requires Related(c, st, ideal, last)
    ensures Related(c, Drain(c, st, now), IdealDrain(c, ideal, now, c.k), last)
    decreases |st.queue|
  {
    if Due(c, st.queue, now) {
      UpdateKeepsRelated(c, st, ideal, last);
      DrainKeepsRelated(c, st.(nt := Update(c, st.nt, st.queue[0]).0, queue := st.queue[1..]),
                        ideal.(t := IdealEvict(IdealTouch(ideal.t, ideal.queue[0]), c.k), queue := ideal.queue[1..]),
                        now, last);
    }
  }

  lemma {:induction false} ArriveKeepsRelated(c: Config, st: State, ideal: Ideal, a: Arrival, last: Stamp)
    requires Related(c, st, ideal, last) && AtOrBefore(last, a.AsStamp())
    ensures Related(c, Arrive(c, st, a),
                    Ideal(ideal.t, ideal.queue + [Stamp(a.now, a.fp)],
                          if a.fp in ideal.t.timer then ideal.miss else ideal.miss + 1), a.AsStamp())
  {
    assert Agree(st.nt[0][0], ideal.t, a.fp);
    assert c.Bucket(a.fp, 0) == 0;
    assert StageOf(c, st.nt, a.fp, 1) == -1;
  }

  lemma {:induction false} RunsStayRelated(c: Config, s: seq<Arrival>)
    requires Single(c) && InStampOrder(s)
    ensures forall last :: (s != [] ==> last == Last(s).AsStamp()) ==> Related(c, Run(c, s), IdealRun(c, s, c.k), last)
  {
    if s == [] {
      forall last ensures Related(c, Run(c, s), IdealRun(c, s, c.k), last) {
        forall g ensures Agree([], Table(map[], {}), g) {
        }
      }
    } else {
      var t, a := Init(s), Last(s);
      RunsStayRelated(c, t);
      var last := if t == [] then Stamp(a.now - 1.0, 0) else Last(t).AsStamp();
      DrainKeepsRelated(c, Run(c, t), IdealRun(c, t, c.k), a.now, last);
      ArriveKeepsRelated(c, Drain(c, Run(c, t), a.now), IdealDrain(c, IdealRun(c, t, c.k), a.now, c.k), a, last);
    }
  }

  /** One stage of one bucket of k slots and the exact LRU of capacity k cache the same stamps
      and miss equally often, on every trace in stamp order and for every delay. */
  lemma {:induction false} SingleBucketIsExactLru(c: Config, s: seq<Arrival>)
    requires Single(c) && InStampOrder(s)
    ensures var st, ideal := Run(c, s), IdealRun(c, s, c.k);
            && st.miss == ideal.miss
            && ideal.t.nt == StampSet(st.nt[0][0]) && |ideal.t.nt| == |st.nt[0][0]|
            && ideal.t.timer.Keys == set x | x in st.nt[0][0] :: x.fp
  {
    RunsStayRelated(c, s);
    var last := if s == [] then Stamp(0.0, 0) else Last(s).AsStamp();
    var st, ideal := Run(c, s), IdealRun(c, s, c.k);
    assert Related(c, st, ideal, last);
    SameSize(st.nt[0][0], ideal.t);
    SameKeys(st.nt[0][0], ideal.t);
  }

  lemma {:induction false} SameKeys(b: Bucket, t: Table)
    requires SameSlots(b, t)
    ensures t.timer.Keys == set x | x in b :: x.fp
  {
    forall fp ensures fp in t.timer <==> exists x :: x in b && x.fp == fp {
      assert Agree(b, t, fp);
      if fp in t.timer {
        assert b[Find(b, fp)] in b;
      }
    }
  }
}

/** The exact LRU of LRUIndex, updated in place. */
module App2IdealCaches {
  import opened Options
  import opened Sequences
  import opened Stamps
  import opened App2Model
  import opened App2Simulation

  class App2Ideal {
    const c: Config
    const capacity: nat
    var timer: map<Fp, real>
    var nt: set<Stamp>
    var pendingQueue: seq<Stamp>
    var nMiss: nat

    ghost function Value(): Ideal
      reads this
    {
      Ideal(Table(timer, nt), pendingQueue, nMiss)
    }

    ghost predicate Valid()
      reads this
    {
      Linked(Table(timer, nt))
    }

    constructor (config: Config, n: nat)
      ensures Valid() && c == config && capacity == n && Value() == IdealRun(config, [], n)
    {
      c, capacity := config, n;
      timer, nt, pendingQueue, nMiss := map[], {}, [], 0;
    }

    /** One due access becomes the most recent entry (app2-ideal.cpp, lines 102-118). */
    method Apply(s: Stamp)
      requires Valid()
      modifies `timer, `nt
      ensures Valid() && Table(timer, nt) == IdealEvict(IdealTouch(old(Table(timer, nt)), s), capacity)
    {
      TouchLinked(Table(timer, nt), s);
      if s.fp in timer {
        assert Stamp(timer[s.fp], s.fp) in nt;
        nt := nt - {Stamp(timer[s.fp], s.fp)};
      }
      timer := timer[s.fp := s.ts];
      nt := nt + {s};
      if |nt| > capacity {
        var oldest := Least(nt);
        DropLinked(Table(timer, nt), oldest);
        assert oldest.fp in timer;
        timer := timer - {oldest.fp};
        nt := nt - {oldest};
      }
    }

    method Insert(a: Arrival)
      requires Valid()
      modifies this
      ensures Valid() && Value() == IdealStep(c, old(Value()), a, capacity)
    {
      ghost var goal := IdealDrain(c, Value(), a.now, capacity);
      while IdealDue(c, pendingQueue, a.now)
        invariant Valid() && IdealDrain(c, Value(), a.now, capacity) == goal
        decreases |pendingQueue|
      {
        ghost var st := Value();
        Apply(pendingQueue[0]);
        pendingQueue := pendingQueue[1..];
        assert Value() == st.(t := IdealEvict(IdealTouch(st.t, st.queue[0]), capacity), queue := st.queue[1..]);
      }
      if a.fp !in timer {
        nMiss := nMiss + 1;
      }
      pendingQueue := pendingQueue + [Stamp(a.now, a.fp)];
    }
  }
}
