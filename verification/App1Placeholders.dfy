/** When a placeholder becomes valid, and what a packet counts as, told from the packets alone. */
module App1Placeholders {
  import opened Sequences
  import opened Stamps
  import opened Recency
  import opened App1Model
  import opened App1Simulation
  import opened App1Buckets

  // ---------- the history ----------

  /** Whether fp has a slot. */
  ghost predicate Cached(c: Config, nt: seq<seq<Slot>>, fp: Fp)
    requires c.Ok() && |nt| == c.buckets
  {
    exists i :: 0 <= i < |nt[c.Bucket(fp)]| && nt[c.Bucket(fp)][i].fp == fp
  }

  /** The packets that entered the cache: each came when its fingerprint had no slot. */
  ghost function Misses(c: Config, s: seq<Arrival>): seq<Stamp>
    requires c.Ok()
  {
    if s == [] then []
    else if Cached(c, Run(c, Init(s)).nt, Last(s).fp) then Misses(c, Init(s))
    else Misses(c, Init(s)) + [Last(s).AsStamp()]
  }

  /** When fp entered last. */
  ghost function Entered(m: seq<Stamp>, fp: Fp): real {
    if m == [] then 0.0 else if Last(m).fp == fp then Last(m).ts else Entered(Init(m), fp)
  }

  /** The placeholder of fp has become valid: more than delta ago fp entered, for the last time or so
      shortly before it that its answer was still under way then. */
  ghost predicate Answered(m: seq<Stamp>, fp: Fp, now: real, delta: real) {
    exists i :: 0 <= i < |m| && AnswersAt(m, i, fp, now, delta)
  }

  ghost predicate AnswersAt(m: seq<Stamp>, i: nat, fp: Fp, now: real, delta: real)
    requires i < |m|
  {
    m[i].fp == fp && now - m[i].ts > delta && (m[i].ts == Entered(m, fp) || Entered(m, fp) - m[i].ts <= delta)
  }

  lemma {:induction false} EnteredMore(m: seq<Stamp>, x: Stamp, fp: Fp)
    ensures Entered(m + [x], fp) == if x.fp == fp then x.ts else Entered(m, fp)
  {
    assert Init(m + [x]) == m && Last(m + [x]) == x;
  }

  // ---------- the queue ----------

  lemma {:induction false} MissesInTime(c: Config, s: seq<Arrival>)
    requires c.Ok() && InTime(s)
    ensures Sorted(Misses(c, s)) && forall x :: x in Misses(c, s) ==> s != [] && x.ts <= Last(s).now
  {
    if s != [] {
      MissesInTime(c, Init(s));
      var m, x := Misses(c, Init(s)), Last(s).AsStamp();
      assert forall y :: y in m ==> y.ts <= x.ts;
      assert Sorted(m + [x]);
    }
  }

  /** It entered with one of its misses. */
  lemma {:induction false} EnteredAt(m: seq<Stamp>, fp: Fp, i: nat) returns (j: nat)
    requires i < |m| && m[i].fp == fp
    ensures i <= j < |m| && m[j].fp == fp && Entered(m, fp) == m[j].ts
  {
    if Last(m).fp == fp {
      j := |m| - 1;
    } else {
      j := EnteredAt(Init(m), fp, i);
    }
  }

  /** At any moment from the last packet on, with what is due applied, those are waiting that entered
      at most delta ago. */
  lemma {:induction false} QueueIsRecentMisses(c: Config, s: seq<Arrival>, now: real)
    requires c.Ok() && InTime(s) && Past(s, now)
    ensures DueTaken(Misses(c, s), Drain(c, Run(c, s), now).queue, now, c.delta)
    decreases |s|
  {
    DrainTakesDue(c, Run(c, s), now);
    if s != [] {
      var t, a := Init(s), Last(s);
      var d := Drain(c, Run(c, t), a.now);
      QueueIsRecentMisses(c, t, a.now);
      DrainKeepsCached(c, Run(c, t), a.now, a.fp);
      var more := if Cached(c, Run(c, t).nt, a.fp) then [] else [a.AsStamp()];
      ArriveQueue(c, d, a);
      assert d.queue + [] == d.queue && Misses(c, t) + [] == Misses(c, t);
      DueTakenTwice(Misses(c, t), d.queue, more, Drain(c, Run(c, s), now).queue, a.now, now, c.delta);
    }
  }

  lemma {:induction false} ArriveQueue(c: Config, st: State, a: Arrival)
    requires c.Ok() && |st.nt| == c.buckets
    ensures Arrive(c, st, a).queue == st.queue + if Cached(c, st.nt, a.fp) then [] else [a.AsStamp()]
    ensures Cached(c, st.nt, a.fp) <==> Find(st.nt[c.Bucket(a.fp)], a.fp) < |st.nt[c.Bucket(a.fp)]|
  {
    var b := st.nt[c.Bucket(a.fp)];
    if Find(b, a.fp) < |b| { assert b[Find(b, a.fp)].fp == a.fp; }
  }

  // ---------- the flags ----------

  /** The first slot of fp is valid. */
  ghost predicate Flag(c: Config, nt: seq<seq<Slot>>, fp: Fp)
    requires c.Ok() && |nt| == c.buckets
  {
    exists i: nat :: IsFirst(nt[c.Bucket(fp)], i, fp) && nt[c.Bucket(fp)][i].valid
  }

  ghost predicate IsFirst(b: seq<Slot>, i: nat, fp: Fp) {
    i < |b| && b[i].fp == fp && forall j :: 0 <= j < i ==> b[j].fp != fp
  }

  lemma {:induction false} FlagIs(c: Config, nt: seq<seq<Slot>>, fp: Fp)
    requires c.Ok() && |nt| == c.buckets
    ensures var b := nt[c.Bucket(fp)];
            && (Cached(c, nt, fp) <==> Find(b, fp) < |b|)
            && (Flag(c, nt, fp) <==> Find(b, fp) < |b| && b[Find(b, fp)].valid)
  {
    var b := nt[c.Bucket(fp)];
    if Find(b, fp) < |b| { assert IsFirst(b, Find(b, fp), fp); }
    forall i: nat | IsFirst(b, i, fp) ensures Find(b, fp) == i {
      FindIs(b, i);
    }
  }

  /** Applying the first of the queue. */
  lemma {:induction false} MarkedFlag(c: Config, st: State, fp: Fp)
    requires c.Ok() && |st.nt| == c.buckets && st.queue != []
    ensures var nt := Marked(c, st).nt;
            && (Cached(c, nt, fp) <==> Cached(c, st.nt, fp))
            && (Cached(c, st.nt, fp) ==> (Flag(c, nt, fp) <==> Flag(c, st.nt, fp) || st.queue[0].fp == fp))
  {
    var nt, p := Marked(c, st).nt, c.Bucket(fp);
    FlagIs(c, st.nt, fp);
    FlagIs(c, nt, fp);
    SameFind(st.nt[p], nt[p], fp);
  }

  lemma {:induction false} DrainKeepsCached(c: Config, st: State, now: real, fp: Fp)
    requires c.Ok() && |st.nt| == c.buckets
    ensures Cached(c, Drain(c, st, now).nt, fp) <==> Cached(c, st.nt, fp)
    decreases |st.queue|
  {
    if Due(c, st.queue, now) {
      MarkedFlag(c, st, fp);
      DrainKeepsCached(c, Marked(c, st), now, fp);
    }
  }

  /** One of fp is in the queue that has waited for more than delta. */
  ghost predicate Waited(q: seq<Stamp>, fp: Fp, now: real, delta: real) {
    exists x :: x in q && x.fp == fp && now - x.ts > delta
  }

  lemma {:induction false} WaitedOther(q: seq<Stamp>, x: Stamp, fp: Fp, now: real, delta: real)
    requires x.fp != fp
    ensures Waited(q + [x], fp, now, delta) <==> Waited(q, fp, now, delta)
  {
    forall y: Stamp | y.fp == fp ensures y in q + [x] <==> y in q {
    }
  }

  /** A drain makes valid what was waiting and is not any more. */
  lemma {:induction false} DrainFlag(c: Config, st: State, now: real, fp: Fp)
    requires c.Ok() && |st.nt| == c.buckets && Cached(c, st.nt, fp) && Sorted(st.queue)
    ensures Flag(c, Drain(c, st, now).nt, fp) <==>
            Flag(c, st.nt, fp) || Waited(st.queue, fp, now, c.delta)
    decreases |st.queue|
  {
    DrainTakesDue(c, st, now);
    StillWaiting(st.queue, Drain(c, st, now).queue, now, c.delta);
    if Due(c, st.queue, now) {
      var q := st.queue;
      MarkedFlag(c, st, fp);
      DrainFlag(c, Marked(c, st), now, fp);
      assert q == [q[0]] + q[1..];
    }
  }

  lemma {:induction false} FindInPart(b: seq<Slot>, n: nat, fp: Fp)
    requires n <= |b| && Find(b[..n], fp) < n
    ensures Find(b, fp) == Find(b[..n], fp)
  {
    FindIs(b, Find(b[..n], fp));
  }

  /** An arrival gives its own fingerprint a slot, with the flag it had or as a placeholder, and takes
      no other's. */
  lemma {:induction false} ArriveFlag(c: Config, st: State, a: Arrival, fp: Fp)
    requires c.Ok() && |st.nt| == c.buckets && Distinct(st.nt[c.Bucket(a.fp)])
    requires Cached(c, Arrive(c, st, a).nt, fp)
    ensures fp != a.fp ==> Cached(c, st.nt, fp)
    ensures Flag(c, Arrive(c, st, a).nt, fp) <==> Cached(c, st.nt, fp) && Flag(c, st.nt, fp)
  {
    var nt, p := Arrive(c, st, a).nt, c.Bucket(a.fp);
    FlagIs(c, st.nt, fp);
    FlagIs(c, nt, fp);
    if c.Bucket(fp) == p {
      ArriveSlot(st.nt[p], a, c.k, fp);
    }
  }

  lemma {:induction false} ArriveSlot(b: seq<Slot>, a: Arrival, k: nat, fp: Fp)
    requires Distinct(b) && Find(After(b, a, k), fp) < |After(b, a, k)|
    ensures fp != a.fp ==> Find(b, fp) < |b|
    ensures After(b, a, k)[Find(After(b, a, k), fp)].valid == (Find(b, fp) < |b| && b[Find(b, fp)].valid)
  {
    if Find(b, a.fp) < |b| {
      HitSlot(b, a, fp);
    } else {
      MissSlot(b, a, k, fp);
    }
  }

  /** A bucket after an arrival. */
  function After(b: seq<Slot>, a: Arrival, k: nat): seq<Slot> {
    if Find(b, a.fp) < |b| then Enter(b, a.fp, a.now) else Evict(Enter(b, a.fp, a.now), k)
  }

  lemma {:induction false} HitSlot(b: seq<Slot>, a: Arrival, fp: Fp)
    requires Distinct(b) && Find(b, a.fp) < |b| && Find(Enter(b, a.fp, a.now), fp) < |b|
    ensures var e := Enter(b, a.fp, a.now);
            Find(b, fp) < |b| && |e| == |b| && e[Find(e, fp)].valid == b[Find(b, fp)].valid
  {
    var i := Find(b, a.fp);
    FindInFront(Slot(a.fp, b[i].valid, a.now), Remove(b, i), fp);
    FindRemoved(b, i, fp);
  }

  lemma {:induction false} MissSlot(b: seq<Slot>, a: Arrival, k: nat, fp: Fp)
    requires Find(b, a.fp) == |b|
    requires var e := Evict([Slot(a.fp, false, a.now)] + b, k); Find(e, fp) < |e|
    ensures var e := Evict([Slot(a.fp, false, a.now)] + b, k);
            && (fp != a.fp ==> Find(b, fp) < |b|)
            && e[Find(e, fp)].valid == (Find(b, fp) < |b| && b[Find(b, fp)].valid)
  {
    var e := [Slot(a.fp, false, a.now)] + b;
    FindInFront(Slot(a.fp, false, a.now), b, fp);
    if |e| > k { FindInPart(e, |e| - 1, fp); }
  }

  lemma {:induction false} RunDistinct(c: Config, s: seq<Arrival>, now: real, p: nat)
    requires c.Ok() && p < c.buckets
    ensures Distinct(Run(c, s).nt[p]) && Distinct(Drain(c, Run(c, s), now).nt[p])
    decreases |s|
  {
    if s == [] {
      assert Run(c, s).nt[p] == [];
    } else {
      RunDistinct(c, Init(s), Last(s).now, p);
      ArriveDistinct(c, Drain(c, Run(c, Init(s)), Last(s).now), Last(s), p);
    }
    DrainDistinct(c, Run(c, s), now, p);
  }

  lemma {:induction false} ArriveDistinct(c: Config, st: State, a: Arrival, p: nat)
    requires c.Ok() && p < c.buckets == |st.nt| && Distinct(st.nt[p])
    ensures Distinct(Arrive(c, st, a).nt[p])
  {
    var b := st.nt[p];
    var i := Find(b, a.fp);
    if i < |b| {
      forall j | 0 <= j < |b| - 1 ensures Remove(b, i)[j].fp != a.fp {
      }
    }
    assert Distinct(Enter(b, a.fp, a.now));
  }

  lemma {:induction false} DrainDistinct(c: Config, st: State, now: real, p: nat)
    requires c.Ok() && p < c.buckets == |st.nt| && Distinct(st.nt[p])
    ensures Distinct(Drain(c, st, now).nt[p])
    decreases |st.queue|
  {
    if Due(c, st.queue, now) {
      DrainDistinct(c, Marked(c, st), now, p);
    }
  }

  // ---------- the theorems ----------

  /** What had been answered stays so. */
  lemma {:induction false} AnsweredStays(m: seq<Stamp>, fp: Fp, t1: real, t2: real, delta: real)
    requires Answered(m, fp, t1, delta) && t1 <= t2
    ensures Answered(m, fp, t2, delta)
  {
    var i :| 0 <= i < |m| && AnswersAt(m, i, fp, t1, delta);
    assert AnswersAt(m, i, fp, t2, delta);
  }

  lemma {:induction false} AnsweredNow(m: seq<Stamp>, fp: Fp, i: nat, t1: real, t2: real, delta: real)
    requires i < |m| && m[i].fp == fp && t1 - m[i].ts <= delta && t2 - m[i].ts > delta
    requires forall x :: x in m ==> x.ts <= t1
    ensures Answered(m, fp, t2, delta)
  {
    var j := EnteredAt(m, fp, i);
    assert m[j] in m;
    assert AnswersAt(m, i, fp, t2, delta);
  }

  lemma {:induction false} WaitedAt(m: seq<Stamp>, q: seq<Stamp>, fp: Fp, t1: real, t2: real, delta: real)
    requires Sorted(m) && DueTaken(m, q, t1, delta)
    ensures Waited(q, fp, t2, delta) <==>
            exists i :: 0 <= i < |m| && m[i].fp == fp && t1 - m[i].ts <= delta && t2 - m[i].ts > delta
  {
    StillWaiting(m, q, t1, delta);
    var gone := |m| - |q|;
    assert forall i :: 0 <= i < |q| ==> q[i] == m[gone + i];
    forall i | gone <= i < |m| ensures m[i] in q {
      assert q[i - gone] == m[i];
    }
  }

  /** What had been answered, or waited and waits no more, is what has been answered now. */
  lemma {:induction false} AnsweredLater(m: seq<Stamp>, q: seq<Stamp>, fp: Fp, t1: real, t2: real, delta: real)
    requires Sorted(m) && DueTaken(m, q, t1, delta) && t1 <= t2 && forall x :: x in m ==> x.ts <= t1
    ensures Answered(m, fp, t2, delta) <==> Answered(m, fp, t1, delta) || Waited(q, fp, t2, delta)
  {
    WaitedAt(m, q, fp, t1, t2, delta);
    if Answered(m, fp, t2, delta) {
      var i :| 0 <= i < |m| && AnswersAt(m, i, fp, t2, delta);
      assert t1 - m[i].ts > delta ==> AnswersAt(m, i, fp, t1, delta);
    }
    if Answered(m, fp, t1, delta) {
      AnsweredStays(m, fp, t1, t2, delta);
    }
    if Waited(q, fp, t2, delta) {
      var i :| 0 <= i < |m| && m[i].fp == fp && t1 - m[i].ts <= delta && t2 - m[i].ts > delta;
      AnsweredNow(m, fp, i, t1, t2, delta);
    }
  }

  /** The same for a fingerprint that has just entered. */
  lemma {:induction false} AnsweredAnew(m: seq<Stamp>, q: seq<Stamp>, x: Stamp, t2: real, delta: real)
    requires Sorted(m) && DueTaken(m, q, x.ts, delta) && x.ts <= t2 && forall y :: y in m ==> y.ts <= x.ts
    ensures Answered(m + [x], x.fp, t2, delta) <==>
            Waited(q + [x], x.fp, t2, delta)
  {
    var all := m + [x];
    StillWaiting(m, q, x.ts, delta);
    EnteredMore(m, x, x.fp);
    var gone := |m| - |q|;
    assert forall i :: 0 <= i < |q| ==> q[i] == all[gone + i];
    if Answered(all, x.fp, t2, delta) {
      var i :| 0 <= i < |all| && AnswersAt(all, i, x.fp, t2, delta);
      if i < |m| && x.ts - m[i].ts <= delta {
        assert (q + [x])[i - gone] == all[i];
      } else {
        assert (q + [x])[|q|] == x;
      }
    }
    if Waited(q + [x], x.fp, t2, delta) {
      var y :| y in q + [x] && y.fp == x.fp && t2 - y.ts > delta;
      var i :| 0 <= i < |q + [x]| && (q + [x])[i] == y;
      assert AnswersAt(all, gone + i, x.fp, t2, delta);
    }
  }

  /** The last arrival and the drain behind it, as the flag of fp sees them. */
  lemma {:induction false} FlagOfStep(c: Config, s: seq<Arrival>, now: real, fp: Fp)
    requires c.Ok() && s != [] && InTime(s) && Past(s, now) && Cached(c, Run(c, s).nt, fp)
    ensures var t, a := Init(s), Last(s);
            var d := Drain(c, Run(c, t), a.now);
            var q := if Cached(c, Run(c, t).nt, a.fp) then d.queue else d.queue + [a.AsStamp()];
            && (fp != a.fp ==> Cached(c, Run(c, t).nt, fp))
            && (Flag(c, Drain(c, Run(c, s), now).nt, fp) <==>
                (Cached(c, Run(c, t).nt, fp) && Flag(c, d.nt, fp)) || Waited(q, fp, now, c.delta))
  {
    var t, a := Init(s), Last(s);
    var d := Drain(c, Run(c, t), a.now);
    QueueInTime(c, s);
    RunDistinct(c, t, a.now, c.Bucket(a.fp));
    DrainKeepsCached(c, Run(c, t), a.now, a.fp);
    DrainKeepsCached(c, Run(c, t), a.now, fp);
    ArriveQueue(c, d, a);
    assert d.queue + [] == d.queue;
    ArriveFlag(c, d, a, fp);
    DrainFlag(c, Run(c, s), now, fp);
  }

  /** For every delay, any number of buckets and any capacity: at any moment from the last packet on,
      with what is due applied, a cached fingerprint is valid if and only if it has been answered. */
  lemma {:induction false} ValidIffAnswered(c: Config, s: seq<Arrival>, now: real, fp: Fp)
    requires c.Ok() && InTime(s) && Past(s, now) && Cached(c, Run(c, s).nt, fp)
    ensures Flag(c, Drain(c, Run(c, s), now).nt, fp) <==> Answered(Misses(c, s), fp, now, c.delta)
    decreases |s|
  {
    if s != [] {
      var t, a := Init(s), Last(s);
      var m, q := Misses(c, t), Drain(c, Run(c, t), a.now).queue;
      QueueIsRecentMisses(c, t, a.now);
      MissesInTime(c, t);
      FlagOfStep(c, s, now, fp);
      if Cached(c, Run(c, t).nt, fp) {
        ValidIffAnswered(c, t, a.now, fp);
        AnsweredLater(m, q, fp, a.now, now, c.delta);
        if !Cached(c, Run(c, t).nt, a.fp) {
          AnsweredOther(m, a.AsStamp(), fp, now, c.delta);
          WaitedOther(q, a.AsStamp(), fp, now, c.delta);
        }
      } else {
        AnsweredAnew(m, q, a.AsStamp(), now, c.delta);
      }
    }
  }

  /** A miss of another fingerprint answers nothing. */
  lemma {:induction false} AnsweredOther(m: seq<Stamp>, x: Stamp, fp: Fp, now: real, delta: real)
    requires x.fp != fp
    ensures Answered(m + [x], fp, now, delta) <==> Answered(m, fp, now, delta)
  {
    EnteredMore(m, x, fp);
    if Answered(m, fp, now, delta) {
      var i :| 0 <= i < |m| && AnswersAt(m, i, fp, now, delta);
      assert AnswersAt(m + [x], i, fp, now, delta);
    }
    if Answered(m + [x], fp, now, delta) {
      var i :| 0 <= i < |m + [x]| && AnswersAt(m + [x], i, fp, now, delta);
      assert AnswersAt(m, i, fp, now, delta);
    }
  }

  /** A packet that finds no slot is a miss, one that finds a slot with the answer a hit, and one that
      finds a placeholder a miss and a placeholder hit. */
  function CountedAs(n: Stats, cached: bool, answered: bool): Stats {
    n.(items := n.items + 1,
       hit := if cached && answered then n.hit + 1 else n.hit,
       miss := if cached && answered then n.miss else n.miss + 1,
       pholder := if cached && !answered then n.pholder + 1 else n.pholder)
  }

  /** What a packet counts as. */
  lemma {:induction false} CountedByHistory(c: Config, s: seq<Arrival>)
    requires c.Ok() && s != [] && InTime(s)
    ensures var t, a := Init(s), Last(s);
            Run(c, s).stats ==
            CountedAs(Run(c, t).stats, Cached(c, Run(c, t).nt, a.fp), Answered(Misses(c, t), a.fp, a.now, c.delta))
  {
    var t, a := Init(s), Last(s);
    StatsOfStep(c, s);
    DrainKeepsCached(c, Run(c, t), a.now, a.fp);
    FlagIs(c, Drain(c, Run(c, t), a.now).nt, a.fp);
    if Cached(c, Run(c, t).nt, a.fp) {
      ValidIffAnswered(c, t, a.now, a.fp);
    }
  }

  /** A cached fingerprint that has missed once before is a hit if and only if it comes more than delta
      after that miss, and a placeholder otherwise. */
  lemma {:induction false} MissedOnce(c: Config, s: seq<Arrival>, i: nat)
    requires c.Ok() && s != [] && InTime(s) && Cached(c, Run(c, Init(s)).nt, Last(s).fp)
    requires var m := Misses(c, Init(s)); i < |m| && forall j :: 0 <= j < |m| ==> (m[j].fp == Last(s).fp <==> j == i)
    ensures var n, n', since := Run(c, Init(s)).stats, Run(c, s).stats, Last(s).now - Misses(c, Init(s))[i].ts;
            && n'.hit == n.hit + (if since > c.delta then 1 else 0)
            && n'.pholder == n.pholder + (if since > c.delta then 0 else 1)
            && n'.miss == n.miss + (if since > c.delta then 0 else 1)
  {
    var m := Misses(c, Init(s));
    CountedByHistory(c, s);
    var j := EnteredAt(m, Last(s).fp, i);
    assert AnswersAt(m, i, Last(s).fp, Last(s).now, c.delta) <==> Last(s).now - m[i].ts > c.delta;
  }

  // ---------- the exact LRU ----------

  /** The packets that entered the exact LRU. */
  ghost function IdealMisses(c: Config, s: seq<Arrival>, capacity: nat): seq<Stamp> {
    if s == [] then []
    else if Last(s).fp in IdealRun(c, Init(s), capacity).t.timer then IdealMisses(c, Init(s), capacity)
    else IdealMisses(c, Init(s), capacity) + [Last(s).AsStamp()]
  }

  lemma {:induction false} SameCached(c: Config, s: seq<Arrival>, fp: Fp)
    requires c.Ok() && c.buckets == 1 && InStampOrder(s)
    ensures fp in IdealRun(c, s, c.k).t.timer <==> Cached(c, Run(c, s).nt, fp)
  {
    OneBucketIsExactLru(c, s);
    assert c.Bucket(fp) == 0;
  }

  lemma {:induction false} SameStats(c: Config, s: seq<Arrival>)
    requires c.Ok() && c.buckets == 1 && InStampOrder(s)
    ensures IdealRun(c, s, c.k).stats == Run(c, s).stats
  {
    OneBucketIsExactLru(c, s);
  }

  lemma {:induction false} SameMisses(c: Config, s: seq<Arrival>)
    requires c.Ok() && c.buckets == 1 && InStampOrder(s)
    ensures IdealMisses(c, s, c.k) == Misses(c, s)
  {
    if s != [] {
      SameMisses(c, Init(s));
      SameCached(c, Init(s), Last(s).fp);
    }
  }

  /** What a packet counts as in the exact LRU, by the same rule. */
  lemma {:induction false} IdealCountedByHistory(c: Config, s: seq<Arrival>)
    requires c.Ok() && c.buckets == 1 && s != [] && InStampOrder(s)
    ensures var t, a := Init(s), Last(s);
            IdealRun(c, s, c.k).stats ==
            CountedAs(IdealRun(c, t, c.k).stats, a.fp in IdealRun(c, t, c.k).t.timer,
                      Answered(IdealMisses(c, t, c.k), a.fp, a.now, c.delta))
  {
    SameStats(c, s);
    SameStats(c, Init(s));
    SameCached(c, Init(s), Last(s).fp);
    SameMisses(c, Init(s));
    CountedByHistory(c, s);
  }

  // ---------- what is cached ----------

  function Fps(b: seq<Slot>): (o: seq<Fp>)
    ensures |o| == |b| && forall i :: 0 <= i < |b| ==> o[i] == b[i].fp
  {
    seq(|b|, i requires 0 <= i < |b| => b[i].fp)
  }

  function SentTo(c: Config, p: nat, s: seq<Arrival>): seq<Fp>
    requires c.buckets > 0
  {
    if s == [] then []
    else if c.Bucket(Last(s).fp) == p then SentTo(c, p, Init(s)) + [Last(s).fp]
    else SentTo(c, p, Init(s))
  }

  lemma {:induction false} DrainKeepsFps(c: Config, st: State, now: real, p: nat)
    requires c.Ok() && p < c.buckets == |st.nt|
    ensures Fps(Drain(c, st, now).nt[p]) == Fps(st.nt[p])
    decreases |st.queue|
  {
    if Due(c, st.queue, now) {
      DrainKeepsFps(c, Marked(c, st), now, p);
    }
  }

  /** Whatever the delay, each bucket holds the k fingerprints sent to it most recently, the most
      recent first. */
  lemma {:induction false} BucketIsRecent(c: Config, p: nat, s: seq<Arrival>)
    requires c.Ok() && p < c.buckets
    ensures MostRecent(Fps(Run(c, s).nt[p]), SentTo(c, p, s), c.k)
  {
    if s == [] {
      NoneSent<Fp>(c.k);
      assert Fps(Run(c, s).nt[p]) == [];
    } else {
      var t, a := Init(s), Last(s);
      var b := Drain(c, Run(c, t), a.now).nt[p];
      BucketIsRecent(c, p, t);
      DrainKeepsFps(c, Run(c, t), a.now, p);
      if c.Bucket(a.fp) == p {
        EnterIsRecent(b, SentTo(c, p, t), c.k, a);
      }
    }
  }

  lemma {:induction false} EnterIsRecent(b: seq<Slot>, t: seq<Fp>, k: nat, a: Arrival)
    requires MostRecent(Fps(b), t, k) && k > 0
    ensures var e := Enter(b, a.fp, a.now);
            MostRecent(Fps(if Find(b, a.fp) < |b| then e else Evict(e, k)), t + [a.fp], k)
  {
    var i, o, e := Find(b, a.fp), Fps(b), Enter(b, a.fp, a.now);
    if i < |b| {
      assert o[i] == a.fp;
      MoveToFront(o, t, k, i);
      assert Fps(e) == [a.fp] + (o[..i] + o[i + 1..]);
    } else {
      EnterFront(o, t, k, a.fp);
      assert Fps(Evict(e, k)) == [a.fp] + if |o| < k then o else o[..|o| - 1];
    }
  }
}
