/** The bucketed cache of LRUTable with placeholders, and the exact LRU it approximates. */
module App1Model {
  import opened Sequences
  import opened Stamps

  datatype Slot = Slot(fp: Fp, valid: bool, ts: real)

  datatype Stats = Stats(items: nat, miss: nat, hit: nat, pholder: nat)

  /** Slots per bucket, buckets, the delay until a placeholder becomes valid, the bucket hash. */
  datatype Config = Config(k: nat, buckets: nat, delta: real, hash: Fp -> nat) {
    ghost predicate Ok() { k > 0 && buckets > 0 }

    function Bucket(fp: Fp): (p: nat)
      requires buckets > 0
      ensures p < buckets
    {
      hash(fp) % buckets
    }
  }

  /** The first slot that carries fp, or the bucket's size. */
  function Find(b: seq<Slot>, fp: Fp): (i: nat)
    ensures i <= |b|
    ensures i < |b| ==> b[i].fp == fp
    ensures forall j :: 0 <= j < i ==> b[j].fp != fp
  {
    if b == [] || b[0].fp == fp then 0
    else
      var r := Find(b[1..], fp);
      assert forall j :: 1 <= j < r + 1 ==> b[j] == b[1..][j - 1];
      1 + r
  }

  /** deque::erase of the slot at i. */
  function Remove(b: seq<Slot>, i: nat): (r: seq<Slot>)
    requires i < |b|
    ensures |r| == |b| - 1
    ensures forall j :: 0 <= j < |r| ==> r[j] == if j < i then b[j] else b[j + 1]
  {
    b[..i] + b[i + 1..]
  }

  ghost predicate Distinct(b: seq<Slot>) {
    forall i, j :: 0 <= i < j < |b| ==> b[i].fp != b[j].fp
  }

  lemma {:induction false} FindIs(b: seq<Slot>, i: nat)
    requires i < |b| && forall j :: 0 <= j < i ==> b[j].fp != b[i].fp
    ensures Find(b, b[i].fp) == i
  {
  }

  lemma {:induction false} FindAbsent(b: seq<Slot>, fp: Fp)
    requires forall i :: 0 <= i < |b| ==> b[i].fp != fp
    ensures Find(b, fp) == |b|
  {
  }

  lemma {:induction false} FindInFront(s: Slot, r: seq<Slot>, g: Fp)
    ensures Find([s] + r, g) == if s.fp == g then 0 else 1 + Find(r, g)
  {
    assert ([s] + r)[1..] == r;
  }

  lemma {:induction false} FindRemoved(b: seq<Slot>, i: nat, g: Fp)
    requires Distinct(b) && i < |b|
    ensures var r := Remove(b, i);
            if g == b[i].fp || Find(b, g) == |b| then Find(r, g) == |r|
            else Find(r, g) < |r| && r[Find(r, g)] == b[Find(b, g)]
  {
    var r, m := Remove(b, i), Find(b, g);
    if g == b[i].fp || m == |b| {
      FindAbsent(r, g);
    } else {
      var j := if m < i then m else m - 1;
      assert r[j] == b[m];
      FindIs(r, j);
    }
  }

  lemma {:induction false} SameFind(a: seq<Slot>, b: seq<Slot>, fp: Fp)
    requires |a| == |b| && forall i :: 0 <= i < |a| ==> a[i].fp == b[i].fp
    ensures Find(a, fp) == Find(b, fp)
  {
    if a != [] && a[0].fp != fp {
      SameFind(a[1..], b[1..], fp);
    }
  }

  function StampOf(s: Slot): Stamp { Stamp(s.ts, s.fp) }

  ghost function StampSet(b: seq<Slot>): set<Stamp> {
    set i | 0 <= i < |b| :: StampOf(b[i])
  }

  // ---------- one bucket ----------

  function MarkValid(b: seq<Slot>, fp: Fp): seq<Slot> {
    var i := Find(b, fp);
    if i < |b| then b[i := b[i].(valid := true)] else b
  }

  /** The bucket before eviction when fp arrives. */
  function Enter(b: seq<Slot>, fp: Fp, now: real): seq<Slot> {
    var i := Find(b, fp);
    if i < |b| then [Slot(fp, b[i].valid, now)] + Remove(b, i)
    else [Slot(fp, false, now)] + b
  }

  function Evict(b: seq<Slot>, k: nat): seq<Slot> {
    if |b| > k then b[..|b| - 1] else b
  }

  function Count(st: Stats, b: seq<Slot>, fp: Fp): Stats {
    var i := Find(b, fp);
    if i == |b| then st.(items := st.items + 1, miss := st.miss + 1)
    else if b[i].valid then st.(items := st.items + 1, hit := st.hit + 1)
    else st.(items := st.items + 1, miss := st.miss + 1, pholder := st.pholder + 1)
  }

  // ---------- the whole cache ----------

  datatype State = State(nt: seq<seq<Slot>>, queue: seq<Stamp>, stats: Stats)

  ghost function Start(c: Config): State {
    State(seq(c.buckets, _ => []), [], Stats(0, 0, 0, 0))
  }

  predicate Due(c: Config, queue: seq<Stamp>, now: real) {
    queue != [] && now - queue[0].ts > c.delta
  }

  ghost function Drain(c: Config, st: State, now: real): (r: State)
    requires c.Ok() && |st.nt| == c.buckets
    ensures |r.nt| == c.buckets
    decreases |st.queue|
  {
    if Due(c, st.queue, now) then
      var fp := st.queue[0].fp;
      var p := c.Bucket(fp);
      Drain(c, st.(nt := st.nt[p := MarkValid(st.nt[p], fp)], queue := st.queue[1..]), now)
    else st
  }

  lemma {:induction false} DrainTakesDue(c: Config, st: State, now: real)
    requires c.Ok() && |st.nt| == c.buckets
    ensures DueTaken(st.queue, Drain(c, st, now).queue, now, c.delta)
    decreases |st.queue|
  {
    if st.queue != [] && now - st.queue[0].ts > c.delta {
      var fp := st.queue[0].fp;
      var p := c.Bucket(fp);
      var next := st.(nt := st.nt[p := MarkValid(st.nt[p], fp)], queue := st.queue[1..]);
      DrainTakesDue(c, next, now);
      TakeFirst(st.queue, Drain(c, next, now).queue, now, c.delta);
    }
  }

  ghost function Arrive(c: Config, st: State, a: Arrival): (r: State)
    requires c.Ok() && |st.nt| == c.buckets
    ensures |r.nt| == c.buckets
  {
    var p := c.Bucket(a.fp);
    var b := st.nt[p];
    State(st.nt[p := if Find(b, a.fp) < |b| then Enter(b, a.fp, a.now) else Evict(Enter(b, a.fp, a.now), c.k)],
          if Find(b, a.fp) < |b| then st.queue else st.queue + [Stamp(a.now, a.fp)],
          Count(st.stats, b, a.fp))
  }

  ghost function Step(c: Config, st: State, a: Arrival): (r: State)
    requires c.Ok() && |st.nt| == c.buckets
    ensures |r.nt| == c.buckets
  {
    Arrive(c, Drain(c, st, a.now), a)
  }

  ghost function Run(c: Config, s: seq<Arrival>): (r: State)
    requires c.Ok()
    ensures |r.nt| == c.buckets
  {
    if s == [] then Start(c) else Step(c, Run(c, Init(s)), Last(s))
  }

  // ---------- the exact LRU ----------

  /** Each cached fingerprint's last time, and each cached stamp's validity flag. */
  datatype Table = Table(timer: map<Fp, real>, nt: map<Stamp, bool>)

  datatype Ideal = Ideal(t: Table, queue: seq<Stamp>, stats: Stats)

  function Entry(t: Table, fp: Fp): Stamp
    requires fp in t.timer
  {
    Stamp(t.timer[fp], fp)
  }

  /** Every timed fingerprint has its entry, and every entry its time. */
  ghost predicate Linked(t: Table) {
    && (forall fp :: fp in t.timer ==> Entry(t, fp) in t.nt)
    && (forall s :: s in t.nt ==> s.fp in t.timer && t.timer[s.fp] == s.ts)
  }

  function IdealMark(t: Table, fp: Fp): Table {
    if fp in t.timer then t.(nt := t.nt[Entry(t, fp) := true]) else t
  }

  ghost function IdealDrain(c: Config, st: Ideal, now: real): Ideal
    decreases |st.queue|
  {
    if Due(c, st.queue, now)
    then IdealDrain(c, st.(t := IdealMark(st.t, st.queue[0].fp), queue := st.queue[1..]), now)
    else st
  }

  lemma {:induction false} IdealDrainTakesDue(c: Config, st: Ideal, now: real)
    ensures DueTaken(st.queue, IdealDrain(c, st, now).queue, now, c.delta)
    decreases |st.queue|
  {
    if st.queue != [] && now - st.queue[0].ts > c.delta {
      var next := st.(t := IdealMark(st.t, st.queue[0].fp), queue := st.queue[1..]);
      IdealDrainTakesDue(c, next, now);
      TakeFirst(st.queue, IdealDrain(c, next, now).queue, now, c.delta);
    }
  }

  /** A cached fingerprint's entry is moved to the new time. */
  ghost function IdealTouch(t: Table, a: Arrival): Table
    requires a.fp in t.timer && Entry(t, a.fp) in t.nt
  {
    var e := Entry(t, a.fp);
    Table(t.timer[a.fp := a.now], (t.nt - {e})[Stamp(a.now, a.fp) := t.nt[e]])
  }

  ghost function IdealAdd(t: Table, a: Arrival): Table {
    Table(t.timer[a.fp := a.now], t.nt[Stamp(a.now, a.fp) := false])
  }

  ghost function IdealEvict(t: Table, capacity: nat): Table {
    if |t.nt| > capacity then
      var oldest := Least(t.nt.Keys);
      Table(t.timer - {oldest.fp}, t.nt - {oldest})
    else t
  }

  ghost function IdealCount(st: Stats, t: Table, fp: Fp): Stats
    requires Linked(t)
  {
    if fp !in t.timer then st.(items := st.items + 1, miss := st.miss + 1)
    else if t.nt[Entry(t, fp)] then st.(items := st.items + 1, hit := st.hit + 1)
    else st.(items := st.items + 1, miss := st.miss + 1, pholder := st.pholder + 1)
  }

  ghost function IdealArrive(st: Ideal, a: Arrival, capacity: nat): Ideal
    requires Linked(st.t)
  {
    var stats := IdealCount(st.stats, st.t, a.fp);
    if a.fp in st.t.timer then Ideal(IdealTouch(st.t, a), st.queue, stats)
    else Ideal(IdealEvict(IdealAdd(st.t, a), capacity), st.queue + [Stamp(a.now, a.fp)], stats)
  }

  lemma {:induction false} IdealDrainLinked(c: Config, st: Ideal, now: real)
    requires Linked(st.t)
    ensures Linked(IdealDrain(c, st, now).t)
    decreases |st.queue|
  {
    if Due(c, st.queue, now) {
      IdealDrainLinked(c, st.(t := IdealMark(st.t, st.queue[0].fp), queue := st.queue[1..]), now);
    }
  }

  lemma {:induction false} IdealArriveLinked(st: Ideal, a: Arrival, capacity: nat)
    requires Linked(st.t)
    ensures Linked(IdealArrive(st, a, capacity).t)
  {
  }

  ghost function IdealStep(c: Config, st: Ideal, a: Arrival, capacity: nat): (r: Ideal)
    requires Linked(st.t)
    ensures Linked(r.t)
  {
    IdealDrainLinked(c, st, a.now);
    IdealArriveLinked(IdealDrain(c, st, a.now), a, capacity);
    IdealArrive(IdealDrain(c, st, a.now), a, capacity)
  }

  ghost function IdealRun(c: Config, s: seq<Arrival>, capacity: nat): (r: Ideal)
    ensures Linked(r.t)
  {
    if s == [] then Ideal(Table(map[], map[]), [], Stats(0, 0, 0, 0))
    else IdealStep(c, IdealRun(c, Init(s), capacity), Last(s), capacity)
  }
}

/** One bucket of the approximate cache is an exact LRU. */
module App1Simulation {
  import opened Sequences
  import opened Stamps
  import opened App1Model

  /** A bucket without duplicates, most recent first, nothing later than last. */
  ghost predicate Ordered(b: seq<Slot>, last: Stamp) {
    && (forall i, j :: 0 <= i < j < |b| ==> b[i].fp != b[j].fp && Before(StampOf(b[j]), StampOf(b[i])))
    && (forall i :: 0 <= i < |b| ==> AtOrBefore(StampOf(b[i]), last))
  }

  /** The exact LRU and the bucket agree on whether fp is cached, since when, and its flag. */
  ghost predicate Agree(b: seq<Slot>, t: Table, fp: Fp) {
    var i := Find(b, fp);
    && (fp in t.timer <==> i < |b|)
    && (i < |b| ==> t.timer[fp] == b[i].ts && StampOf(b[i]) in t.nt && t.nt[StampOf(b[i])] == b[i].valid)
  }

  ghost predicate SameSlots(b: seq<Slot>, t: Table) {
    Linked(t) && forall fp {:trigger Agree(b, t, fp)} :: Agree(b, t, fp)
  }

  ghost predicate Related(st: State, ideal: Ideal, last: Stamp) {
    && |st.nt| == 1
    && Ordered(st.nt[0], last) && SameSlots(st.nt[0], ideal.t)
    && st.queue == ideal.queue && st.stats == ideal.stats
  }

  // ---------- the drain ----------

  lemma {:induction false} MarkKeepsSame(b: seq<Slot>, t: Table, fp: Fp, last: Stamp)
    requires Ordered(b, last) && SameSlots(b, t)
    ensures Ordered(MarkValid(b, fp), last) && SameSlots(MarkValid(b, fp), IdealMark(t, fp))
  {
    var b', t' := MarkValid(b, fp), IdealMark(t, fp);
    assert Agree(b, t, fp);
    forall g ensures Agree(b', t', g) {
      assert Agree(b, t, g);
      SameFind(b, b', g);
    }
  }

  lemma {:induction false} DrainKeepsRelated(c: Config, st: State, ideal: Ideal, now: real, last: Stamp)
    requires c.Ok() && c.buckets == 1 && Related(st, ideal, last)
    ensures Related(Drain(c, st, now), IdealDrain(c, ideal, now), last)
    decreases |st.queue|
  {
    if Due(c, st.queue, now) {
      var fp := st.queue[0].fp;
      MarkKeepsSame(st.nt[0], ideal.t, fp, last);
      DrainKeepsRelated(c, st.(nt := st.nt[0 := MarkValid(st.nt[0], fp)], queue := st.queue[1..]),
                        ideal.(t := IdealMark(ideal.t, fp), queue := ideal.queue[1..]), now, last);
    }
  }

  // ---------- the arrival ----------

  lemma {:induction false} RemoveKeepsOrder(b: seq<Slot>, i: nat, last: Stamp)
    requires Ordered(b, last) && i < |b|
    ensures Ordered(Remove(b, i), last)
  {
  }

  /** Touching a fingerprint leaves the entries of all others alone. */
  lemma {:induction false} TouchElsewhere(t: Table, a: Arrival, s: Stamp)
    requires a.fp in t.timer && Entry(t, a.fp) in t.nt && s.fp != a.fp
    ensures var t' := IdealTouch(t, a);
            && (s.fp in t'.timer <==> s.fp in t.timer) && (s.fp in t.timer ==> t'.timer[s.fp] == t.timer[s.fp])
            && (s in t'.nt <==> s in t.nt) && (s in t.nt ==> t'.nt[s] == t.nt[s])
  {
  }

  /** The touched fingerprint: its slot comes first, with the validity it had. */
  lemma {:induction false} TouchAgreesSame(b: seq<Slot>, t: Table, a: Arrival, r: seq<Slot>)
    requires Find(b, a.fp) < |b| && a.fp in t.timer && Entry(t, a.fp) in t.nt && Agree(b, t, a.fp)
    ensures Agree([Slot(a.fp, b[Find(b, a.fp)].valid, a.now)] + r, IdealTouch(t, a), a.fp)
  {
    FindInFront(Slot(a.fp, b[Find(b, a.fp)].valid, a.now), r, a.fp);
  }

  /** Another fingerprint that is cached. */
  lemma {:induction false} TouchAgreesHit(b: seq<Slot>, t: Table, a: Arrival, s: Slot, last: Stamp, g: Fp)
    requires Ordered(b, last) && Find(b, a.fp) < |b| && s.fp == a.fp && g != a.fp && Find(b, g) < |b|
    requires a.fp in t.timer && Entry(t, a.fp) in t.nt && Agree(b, t, g)
    ensures Agree([s] + Remove(b, Find(b, a.fp)), IdealTouch(t, a), g)
  {
    var r := Remove(b, Find(b, a.fp));
    FindRemoved(b, Find(b, a.fp), g);
    FindInFront(s, r, g);
    TouchElsewhere(t, a, StampOf(b[Find(b, g)]));
    assert ([s] + r)[1 + Find(r, g)] == b[Find(b, g)];
  }

  /** Another fingerprint that is not. */
  lemma {:induction false} TouchAgreesMiss(b: seq<Slot>, t: Table, a: Arrival, s: Slot, last: Stamp, g: Fp)
    requires Ordered(b, last) && Find(b, a.fp) < |b| && s.fp == a.fp && g != a.fp && Find(b, g) == |b|
    requires a.fp in t.timer && Entry(t, a.fp) in t.nt && Agree(b, t, g)
    ensures Agree([s] + Remove(b, Find(b, a.fp)), IdealTouch(t, a), g)
  {
    FindRemoved(b, Find(b, a.fp), g);
    FindInFront(s, Remove(b, Find(b, a.fp)), g);
    TouchElsewhere(t, a, Stamp(a.now, g));
  }

  lemma {:induction false} TouchAgrees(b: seq<Slot>, t: Table, a: Arrival, last: Stamp, g: Fp)
    requires Ordered(b, last) && Find(b, a.fp) < |b|
    requires a.fp in t.timer && Entry(t, a.fp) in t.nt && Agree(b, t, a.fp) && Agree(b, t, g)
    ensures Agree(Enter(b, a.fp, a.now), IdealTouch(t, a), g)
  {
    var i := Find(b, a.fp);
    var s := Slot(a.fp, b[i].valid, a.now);
    assert Enter(b, a.fp, a.now) == [s] + Remove(b, i);
    if g == a.fp {
      TouchAgreesSame(b, t, a, Remove(b, i));
    } else if Find(b, g) < |b| {
      TouchAgreesHit(b, t, a, s, last, g);
    } else {
      TouchAgreesMiss(b, t, a, s, last, g);
    }
  }

  lemma {:induction false} TouchKeepsSame(b: seq<Slot>, t: Table, a: Arrival, last: Stamp)
    requires Ordered(b, last) && SameSlots(b, t) && AtOrBefore(last, a.AsStamp()) && Find(b, a.fp) < |b|
    ensures Ordered(Enter(b, a.fp, a.now), a.AsStamp())
    ensures a.fp in t.timer && Entry(t, a.fp) in t.nt && SameSlots(Enter(b, a.fp, a.now), IdealTouch(t, a))
  {
    var i := Find(b, a.fp);
    RemoveKeepsOrder(b, i, last);
    FindAbsentAfterRemove(b, i, last);
    FrontOrdered(Slot(a.fp, b[i].valid, a.now), Remove(b, i), last);
    assert Agree(b, t, a.fp);
    TouchKeepsLinked(t, a);
    forall g ensures Agree(Enter(b, a.fp, a.now), IdealTouch(t, a), g) {
      assert Agree(b, t, g);
      TouchAgrees(b, t, a, last, g);
    }
  }

  lemma {:induction false} TouchKeepsLinked(t: Table, a: Arrival)
    requires Linked(t) && a.fp in t.timer
    ensures Linked(IdealTouch(t, a))
  {
  }

  /** A later slot of a fingerprint not yet there goes in front. */
  lemma {:induction false} FrontOrdered(s: Slot, r: seq<Slot>, last: Stamp)
    requires Ordered(r, last) && AtOrBefore(last, StampOf(s)) && forall j :: 0 <= j < |r| ==> r[j].fp != s.fp
    ensures Ordered([s] + r, StampOf(s))
  {
  }

  lemma {:induction false} FindAbsentAfterRemove(b: seq<Slot>, i: nat, last: Stamp)
    requires Ordered(b, last) && i < |b|
    ensures forall j :: 0 <= j < |Remove(b, i)| ==>
              Remove(b, i)[j].fp != b[i].fp && AtOrBefore(StampOf(Remove(b, i)[j]), last)
  {
  }

  lemma {:induction false} AddAgrees(b: seq<Slot>, t: Table, a: Arrival, g: Fp)
    requires Find(b, a.fp) == |b| && Linked(t) && Agree(b, t, a.fp) && Agree(b, t, g)
    ensures Agree(Enter(b, a.fp, a.now), IdealAdd(t, a), g)
  {
    FindInFront(Slot(a.fp, false, a.now), b, g);
  }

  lemma {:induction false} AddKeepsLinked(t: Table, a: Arrival)
    requires Linked(t) && a.fp !in t.timer
    ensures Linked(IdealAdd(t, a))
  {
  }

  lemma {:induction false} AddKeepsSame(b: seq<Slot>, t: Table, a: Arrival, last: Stamp)
    requires Ordered(b, last) && SameSlots(b, t) && AtOrBefore(last, a.AsStamp()) && Find(b, a.fp) == |b|
    ensures Ordered(Enter(b, a.fp, a.now), a.AsStamp())
    ensures SameSlots(Enter(b, a.fp, a.now), IdealAdd(t, a))
  {
    FrontOrdered(Slot(a.fp, false, a.now), b, last);
    assert Agree(b, t, a.fp);
    AddKeepsLinked(t, a);
    forall g ensures Agree(Enter(b, a.fp, a.now), IdealAdd(t, a), g) {
      assert Agree(b, t, g);
      AddAgrees(b, t, a, g);
    }
  }

  // ---------- the eviction ----------

  lemma {:induction false} StampSetSize(b: seq<Slot>, last: Stamp)
    requires Ordered(b, last)
    ensures |StampSet(b)| == |b|
  {
    if b != [] {
      var r := b[..|b| - 1];
      StampSetSize(r, last);
      assert StampSet(b) == StampSet(r) + {StampOf(b[|b| - 1])};
      assert StampOf(b[|b| - 1]) !in StampSet(r);
    }
  }

  lemma {:induction false} SameSize(b: seq<Slot>, t: Table, last: Stamp)
    requires Ordered(b, last) && SameSlots(b, t)
    ensures t.nt.Keys == StampSet(b) && |t.nt| == |b|
  {
    forall i | 0 <= i < |b| ensures StampOf(b[i]) in t.nt {
      FindIs(b, i);
      assert Agree(b, t, b[i].fp);
    }
    forall s | s in t.nt ensures s in StampSet(b) {
      assert Agree(b, t, s.fp);
    }
    assert t.nt.Keys == StampSet(b);
    StampSetSize(b, last);
  }

  lemma {:induction false} EvictAgrees(b: seq<Slot>, t: Table, last: Stamp, g: Fp)
    requires b != [] && Ordered(b, last) && Linked(t) && Agree(b, t, g)
    ensures var n := |b| - 1;
            Agree(b[..n], Table(t.timer - {b[n].fp}, t.nt - {StampOf(b[n])}), g)
  {
    var n := |b| - 1;
    assert b[..n] == Remove(b, n);
    FindRemoved(b, n, g);
    FindIs(b, n);
  }

  /** The least entry of the exact LRU is the last slot of the bucket. */
  lemma {:induction false} LeastIsLast(b: seq<Slot>, t: Table, last: Stamp)
    requires b != [] && Ordered(b, last) && SameSlots(b, t)
    ensures t.nt.Keys != {} && Least(t.nt.Keys) == StampOf(b[|b| - 1]) && |t.nt| == |b|
  {
    var n := |b| - 1;
    SameSize(b, t, last);
    assert StampOf(b[n]) in StampSet(b);
    forall s | s in t.nt.Keys && s != StampOf(b[n]) ensures Before(StampOf(b[n]), s) {
      var i :| 0 <= i < |b| && s == StampOf(b[i]);
    }
    LeastIs(t.nt.Keys, StampOf(b[n]));
  }

  lemma {:induction false} DropKeepsLinked(t: Table, s: Stamp)
    requires Linked(t) && s in t.nt
    ensures Linked(Table(t.timer - {s.fp}, t.nt - {s}))
  {
  }

  lemma {:induction false} EvictKeepsSame(b: seq<Slot>, t: Table, k: nat, last: Stamp)
    requires Ordered(b, last) && SameSlots(b, t)
    ensures Ordered(Evict(b, k), last) && SameSlots(Evict(b, k), IdealEvict(t, k))
  {
    if b == [] {
      SameSize(b, t, last);
    } else {
      var n := |b| - 1;
      LeastIsLast(b, t, last);
      if |b| > k {
        DropKeepsLinked(t, StampOf(b[n]));
        forall g ensures Agree(b[..n], IdealEvict(t, k), g) {
          assert Agree(b, t, g);
          EvictAgrees(b, t, last, g);
        }
      }
    }
  }

  // ---------- whole runs ----------

  lemma {:induction false} ArriveKeepsRelated(c: Config, st: State, ideal: Ideal, a: Arrival, last: Stamp)
    requires c.Ok() && c.buckets == 1 && Related(st, ideal, last) && AtOrBefore(last, a.AsStamp())
    ensures Related(Arrive(c, st, a), IdealArrive(ideal, a, c.k), a.AsStamp())
  {
    var b := st.nt[0];
    assert Agree(b, ideal.t, a.fp);
    if Find(b, a.fp) < |b| {
      TouchKeepsSame(b, ideal.t, a, last);
    } else {
      AddKeepsSame(b, ideal.t, a, last);
      EvictKeepsSame(Enter(b, a.fp, a.now), IdealAdd(ideal.t, a), c.k, a.AsStamp());
    }
  }

  lemma {:induction false} RunsStayRelated(c: Config, s: seq<Arrival>)
    requires c.Ok() && c.buckets == 1 && InStampOrder(s)
    ensures forall last :: (s != [] ==> last == Last(s).AsStamp()) ==> Related(Run(c, s), IdealRun(c, s, c.k), last)
  {
    if s == [] {
      forall last ensures Related(Run(c, s), IdealRun(c, s, c.k), last) {
        forall g ensures Agree([], Table(map[], map[]), g) {
        }
      }
    } else {
      var t, a := Init(s), Last(s);
      RunsStayRelated(c, t);
      var last := if t == [] then Stamp(a.now - 1.0, 0) else Last(t).AsStamp();
      DrainKeepsRelated(c, Run(c, t), IdealRun(c, t, c.k), a.now, last);
      ArriveKeepsRelated(c, Drain(c, Run(c, t), a.now), IdealDrain(c, IdealRun(c, t, c.k), a.now), a, last);
    }
  }

  /** With one bucket of k slots the approximate cache and the exact LRU of capacity k agree, on
      every trace in stamp order and for every delay, on what is cached, on every flag,
      and on the counts of hits, placeholder hits and misses. */
  lemma {:induction false} OneBucketIsExactLru(c: Config, s: seq<Arrival>)
    requires c.Ok() && c.buckets == 1 && InStampOrder(s)
    ensures var st, ideal := Run(c, s), IdealRun(c, s, c.k);
            && st.stats == ideal.stats
            && (forall fp :: fp in ideal.t.timer <==> exists i :: 0 <= i < |st.nt[0]| && st.nt[0][i].fp == fp)
            && (forall i :: 0 <= i < |st.nt[0]| ==>
                  StampOf(st.nt[0][i]) in ideal.t.nt && ideal.t.nt[StampOf(st.nt[0][i])] == st.nt[0][i].valid)
            && |ideal.t.nt| == |st.nt[0]|
  {
    RunsStayRelated(c, s);
    var last := if s == [] then Stamp(0.0, 0) else Last(s).AsStamp();
    assert Related(Run(c, s), IdealRun(c, s, c.k), last);
    SameContents(Run(c, s).nt[0], IdealRun(c, s, c.k).t, last);
  }

  lemma {:induction false} SameContents(b: seq<Slot>, t: Table, last: Stamp)
    requires Ordered(b, last) && SameSlots(b, t)
    ensures |t.nt| == |b|
    ensures forall fp :: fp in t.timer <==> exists i :: 0 <= i < |b| && b[i].fp == fp
    ensures forall i :: 0 <= i < |b| ==> StampOf(b[i]) in t.nt && t.nt[StampOf(b[i])] == b[i].valid
  {
    SameSize(b, t, last);
    forall fp ensures fp in t.timer <==> exists i :: 0 <= i < |b| && b[i].fp == fp {
      assert Agree(b, t, fp);
    }
    forall i | 0 <= i < |b| ensures StampOf(b[i]) in t.nt && t.nt[StampOf(b[i])] == b[i].valid {
      FindIs(b, i);
      assert Agree(b, t, b[i].fp);
    }
  }

  /** Stamp order is needed: of two arrivals at the same time, the larger fingerprint first, the
      bucket keeps the later arrival and the exact LRU the larger fingerprint. */
  lemma {:induction false} EqualTimesPartThem(c: Config)
    requires c.k == 1 && c.buckets == 1 && c.delta >= 0.0
    ensures var s := [Arrival(2, 0.0), Arrival(1, 0.0)];
            Run(c, s).nt[0] == [Slot(1, false, 0.0)] && IdealRun(c, s, 1).t.timer == map[2 := 0.0]
  {
    var s := [Arrival(2, 0.0), Arrival(1, 0.0)];
    var s1 := Init(s);
    assert s1 == [Arrival(2, 0.0)] && Init(s1) == [];
    var f := Stamp(0.0, 2);
    FirstArrival(c);
    var st := State([[Slot(2, false, 0.0)]], [f], Stats(1, 1, 0, 0));
    assert Run(c, s1) == Step(c, Run(c, Init(s1)), Last(s1)) == st;
    assert Drain(c, st, 0.0) == st;
    SecondArrival(c, st);
    var ideal := Ideal(Table(map[2 := 0.0], map[f := false]), [f], Stats(1, 1, 0, 0));
    assert IdealRun(c, s1, 1) == IdealStep(c, IdealRun(c, Init(s1), 1), Last(s1), 1) == ideal;
    assert IdealDrain(c, ideal, 0.0) == ideal;
    SecondIdealArrival(ideal.t);
  }

  lemma {:induction false} FirstArrival(c: Config)
    requires c.k == 1 && c.buckets == 1 && c.delta >= 0.0
    ensures Step(c, Start(c), Arrival(2, 0.0)) == State([[Slot(2, false, 0.0)]], [Stamp(0.0, 2)], Stats(1, 1, 0, 0))
    ensures IdealStep(c, Ideal(Table(map[], map[]), [], Stats(0, 0, 0, 0)), Arrival(2, 0.0), 1)
         == Ideal(Table(map[2 := 0.0], map[Stamp(0.0, 2) := false]), [Stamp(0.0, 2)], Stats(1, 1, 0, 0))
  {
    var start := Start(c);
    assert start.nt == [[]] && Drain(c, start, 0.0) == start;
    assert c.Bucket(2) == 0;
    FindAbsent([], 2);
    assert Enter([], 2, 0.0) == [Slot(2, false, 0.0)];
    assert Arrive(c, start, Arrival(2, 0.0)).nt == [[Slot(2, false, 0.0)]];
    assert |map[Stamp(0.0, 2) := false]| == 1;
  }

  lemma {:induction false} SecondArrival(c: Config, st: State)
    requires c.k == 1 && c.buckets == 1 && |st.nt| == 1 && st.nt[0] == [Slot(2, false, 0.0)]
    ensures Arrive(c, st, Arrival(1, 0.0)).nt[0] == [Slot(1, false, 0.0)]
  {
    var b := st.nt[0];
    FindAbsent(b, 1);
    assert c.Bucket(1) == 0;
    var b' := Enter(b, 1, 0.0);
    assert b' == [Slot(1, false, 0.0)] + b;
    assert Evict(b', c.k) == [Slot(1, false, 0.0)];
  }

  lemma {:induction false} SecondIdealArrival(t: Table)
    requires t == Table(map[2 := 0.0], map[Stamp(0.0, 2) := false])
    ensures IdealEvict(IdealAdd(t, Arrival(1, 0.0)), 1).timer == map[2 := 0.0]
  {
    var e, f := Stamp(0.0, 1), Stamp(0.0, 2);
    var t' := IdealAdd(t, Arrival(1, 0.0));
    assert t'.nt.Keys == {e, f} && |t'.nt| == 2;
    LeastIs(t'.nt.Keys, e);
  }
}
