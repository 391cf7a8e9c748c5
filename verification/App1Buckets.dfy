/** With any number of buckets each bucket is an exact LRU of its own packets. */
module App1Buckets {
  import opened Sequences
  import opened Stamps
  import opened App1Model
  import opened App1Simulation

  // ---------- a bucket on its own ----------

  /** The cache cut down to one bucket. */
  function One(c: Config): Config { c.(buckets := 1) }

  /** The packets of bucket p. */
  function Sub(c: Config, p: nat, s: seq<Arrival>): seq<Arrival>
    requires c.buckets > 0
  {
    if s == [] then []
    else if c.Bucket(Last(s).fp) == p then Sub(c, p, Init(s)) + [Last(s)]
    else Sub(c, p, Init(s))
  }

  /** What waits for bucket p. */
  function Mine(c: Config, p: nat, q: seq<Stamp>): seq<Stamp>
    requires c.buckets > 0
  {
    if q == [] then []
    else if c.Bucket(q[0].fp) == p then [q[0]] + Mine(c, p, q[1..])
    else Mine(c, p, q[1..])
  }

  /** Bucket p of a cache as a cache of its own. */
  ghost function View(c: Config, p: nat, st: State, stats: Stats): State
    requires p < c.buckets == |st.nt|
  {
    State([st.nt[p]], Mine(c, p, st.queue), stats)
  }

  lemma {:induction false} MineAppend(c: Config, p: nat, q: seq<Stamp>, x: Stamp)
    requires c.buckets > 0
    ensures Mine(c, p, q + [x]) == Mine(c, p, q) + if c.Bucket(x.fp) == p then [x] else []
  {
    if q == [] {
      assert (q + [x])[1..] == [];
    } else {
      assert (q + [x])[1..] == q[1..] + [x];
      MineAppend(c, p, q[1..], x);
    }
  }

  lemma {:induction false} MineIsLater(c: Config, p: nat, q: seq<Stamp>)
    requires c.buckets > 0 && Sorted(q) && Mine(c, p, q) != []
    ensures q != [] && q[0].ts <= Mine(c, p, q)[0].ts
  {
    if c.Bucket(q[0].fp) != p {
      MineIsLater(c, p, q[1..]);
    }
  }

  // ---------- draining ----------

  /** Draining the whole queue does to bucket p what draining its own part of the queue does. */
  lemma {:induction false} DrainViews(c: Config, p: nat, st: State, now: real, stats: Stats)
    requires c.Ok() && p < c.buckets == |st.nt| && Sorted(st.queue)
    ensures View(c, p, Drain(c, st, now), stats) == Drain(One(c), View(c, p, st, stats), now)
    decreases |st.queue|
  {
    if Due(c, st.queue, now) {
      var next := Marked(c, st);
      DrainViews(c, p, next, now, stats);
      if c.Bucket(st.queue[0].fp) == p {
        assert View(c, p, next, stats) == Marked(One(c), View(c, p, st, stats));
      } else {
        assert View(c, p, next, stats) == View(c, p, st, stats);
      }
    } else if Mine(c, p, st.queue) != [] {
      MineIsLater(c, p, st.queue);
    }
  }

  /** The first of the queue is applied. */
  ghost function Marked(c: Config, st: State): State
    requires c.Ok() && |st.nt| == c.buckets && st.queue != []
  {
    var p := c.Bucket(st.queue[0].fp);
    st.(nt := st.nt[p := MarkValid(st.nt[p], st.queue[0].fp)], queue := st.queue[1..])
  }

  /** A drain may be done in two. */
  lemma {:induction false} DrainTwice(c: Config, st: State, t1: real, t2: real)
    requires c.Ok() && |st.nt| == c.buckets && t1 <= t2
    ensures Drain(c, Drain(c, st, t1), t2) == Drain(c, st, t2)
    decreases |st.queue|
  {
    if Due(c, st.queue, t1) {
      DrainTwice(c, Marked(c, st), t1, t2);
    }
  }

  lemma {:induction false} DrainKeepsSorted(c: Config, st: State, now: real)
    requires c.Ok() && |st.nt| == c.buckets && Sorted(st.queue)
    ensures var r := Drain(c, st, now);
            Sorted(r.queue) && r.stats == st.stats && forall x :: x in r.queue ==> x in st.queue
    decreases |st.queue|
  {
    if Due(c, st.queue, now) {
      DrainKeepsSorted(c, Marked(c, st), now);
    }
  }

  // ---------- runs ----------

  /** No packet comes before an earlier one. */
  ghost predicate InTime(s: seq<Arrival>) {
    forall i, j :: 0 <= i < j < |s| ==> s[i].now <= s[j].now
  }

  ghost predicate Past(s: seq<Arrival>, now: real) { s != [] ==> Last(s).now <= now }

  lemma {:induction false} QueueInTime(c: Config, s: seq<Arrival>)
    requires c.Ok() && InTime(s)
    ensures Sorted(Run(c, s).queue) && forall x :: x in Run(c, s).queue ==> s != [] && x.ts <= Last(s).now
  {
    if s != [] {
      var t, a := Init(s), Last(s);
      QueueInTime(c, t);
      DrainKeepsSorted(c, Run(c, t), a.now);
      var q := Drain(c, Run(c, t), a.now).queue;
      assert forall x :: x in q ==> x.ts <= a.now;
      assert Run(c, s).queue == q || Run(c, s).queue == q + [Stamp(a.now, a.fp)];
    }
  }

  /** An arrival as its own bucket sees it, and as the others do. */
  lemma {:induction false} ArriveViews(c: Config, p: nat, st: State, a: Arrival, stats: Stats)
    requires c.Ok() && p < c.buckets == |st.nt|
    ensures c.Bucket(a.fp) == p ==>
              View(c, p, Arrive(c, st, a), Count(stats, st.nt[p], a.fp)) == Arrive(One(c), View(c, p, st, stats), a)
    ensures c.Bucket(a.fp) != p ==> View(c, p, Arrive(c, st, a), stats) == View(c, p, st, stats)
  {
    MineAppend(c, p, st.queue, Stamp(a.now, a.fp));
    assert One(c).Bucket(a.fp) == 0;
  }

  /** At any moment from the last packet on, with what is due applied, a bucket is the cache of one
      bucket that is given the packets of that bucket only. */
  lemma {:induction false} BucketIsOwnCache(c: Config, p: nat, s: seq<Arrival>, now: real)
    requires c.Ok() && p < c.buckets && InTime(s) && Past(s, now)
    ensures var own := Run(One(c), Sub(c, p, s));
            View(c, p, Drain(c, Run(c, s), now), own.stats) == Drain(One(c), own, now)
    decreases |s|
  {
    QueueInTime(c, s);
    if s == [] {
      assert View(c, p, Start(c), Stats(0, 0, 0, 0)) == Start(One(c));
    } else {
      var t, a := Init(s), Last(s);
      BucketIsOwnCache(c, p, t, a.now);
      var d, own := Drain(c, Run(c, t), a.now), Run(One(c), Sub(c, p, t));
      ArriveViews(c, p, d, a, own.stats);
      if c.Bucket(a.fp) == p {
        SubOfOwn(c, p, s);
        assert Run(One(c), Sub(c, p, s)) == Arrive(One(c), Drain(One(c), own, a.now), a);
        DrainViews(c, p, Run(c, s), now, Run(One(c), Sub(c, p, s)).stats);
      } else {
        DrainViews(c, p, Run(c, s), now, own.stats);
        DrainTwice(One(c), own, a.now, now);
      }
    }
  }

  lemma {:induction false} SubOfOwn(c: Config, p: nat, s: seq<Arrival>)
    requires c.buckets > 0 && s != [] && c.Bucket(Last(s).fp) == p
    ensures var sub := Sub(c, p, s); sub != [] && Init(sub) == Sub(c, p, Init(s)) && Last(sub) == Last(s)
  {
  }

  // ---------- the exact LRUs ----------

  lemma {:induction false} SubInStampOrder(c: Config, p: nat, s: seq<Arrival>)
    requires c.buckets > 0 && InStampOrder(s)
    ensures InStampOrder(Sub(c, p, s)) && forall a :: a in Sub(c, p, s) ==> a in s
  {
    if s != [] {
      SubInStampOrder(c, p, Init(s));
      var rest := Sub(c, p, Init(s));
      forall i | 0 <= i < |rest| ensures AtOrBefore(rest[i].AsStamp(), Last(s).AsStamp()) {
        assert rest[i] in Init(s);
        var j :| 0 <= j < |s| - 1 && s[j] == rest[i];
      }
    }
  }

  /** With any number of buckets, for every delay and every trace in stamp order: when a packet
      arrives at any later moment, each bucket holds what the exact LRU of capacity k holds that is
      given the packets of that bucket only, flags included. */
  lemma {:induction false} EachBucketIsExactLru(c: Config, p: nat, s: seq<Arrival>, now: real)
    requires c.Ok() && p < c.buckets && InStampOrder(s) && Past(s, now)
    ensures var b := Drain(c, Run(c, s), now).nt[p];
            var t := IdealDrain(One(c), IdealRun(One(c), Sub(c, p, s), c.k), now).t;
            && |t.nt| == |b|
            && (forall fp :: fp in t.timer <==> exists i :: 0 <= i < |b| && b[i].fp == fp)
            && (forall i :: 0 <= i < |b| ==> StampOf(b[i]) in t.nt && t.nt[StampOf(b[i])] == b[i].valid)
  {
    var sub := Sub(c, p, s);
    var own, ideal := Run(One(c), sub), IdealRun(One(c), sub, c.k);
    var last := if sub == [] then Stamp(0.0, 0) else Last(sub).AsStamp();
    BucketIsOwnCache(c, p, s, now);
    SubInStampOrder(c, p, s);
    RunsStayRelated(One(c), sub);
    assert Related(own, ideal, last);
    DrainKeepsRelated(One(c), own, ideal, now, last);
    SameContents(Drain(One(c), own, now).nt[0], IdealDrain(One(c), ideal, now).t, last);
  }

  function Plus(a: Stats, b: Stats): Stats {
    Stats(a.items + b.items, a.miss + b.miss, a.hit + b.hit, a.pholder + b.pholder)
  }

  ghost function Total(f: nat -> Stats, n: nat): Stats {
    if n == 0 then Stats(0, 0, 0, 0) else Plus(Total(f, n - 1), f(n - 1))
  }

  lemma {:induction false} TotalSame(f: nat -> Stats, g: nat -> Stats, n: nat)
    requires forall p :: 0 <= p < n ==> f(p) == g(p)
    ensures Total(f, n) == Total(g, n)
  {
    if n > 0 { TotalSame(f, g, n - 1); }
  }

  /** Only p counts anything, and by these slots. */
  lemma {:induction false} TotalCounts(f: nat -> Stats, g: nat -> Stats, n: nat, p: nat, b: seq<Slot>, fp: Fp)
    requires forall q :: 0 <= q < n ==> g(q) == if q == p then Count(f(q), b, fp) else f(q)
    ensures Total(g, n) == if p < n then Count(Total(f, n), b, fp) else Total(f, n)
  {
    if n > 0 { TotalCounts(f, g, n - 1, p, b, fp); }
  }

  /** What each bucket counts on its own, and what its exact LRU counts. */
  ghost function OwnStats(c: Config, s: seq<Arrival>): nat -> Stats
    requires c.Ok()
  {
    (p: nat) => Run(One(c), Sub(c, p, s)).stats
  }

  ghost function IdealStats(c: Config, s: seq<Arrival>): nat -> Stats
    requires c.Ok()
  {
    (p: nat) => IdealRun(One(c), Sub(c, p, s), c.k).stats
  }

  lemma {:induction false} OwnIsIdeal(c: Config, s: seq<Arrival>, p: nat)
    requires c.Ok() && InStampOrder(s)
    ensures OwnStats(c, s)(p) == IdealStats(c, s)(p)
  {
    SubInStampOrder(c, p, s);
    OneBucketIsExactLru(One(c), Sub(c, p, s));
  }

  lemma {:induction false} StatsOfStep(c: Config, s: seq<Arrival>)
    requires c.Ok() && s != [] && InTime(s)
    ensures var t, a := Init(s), Last(s);
            var p := c.Bucket(a.fp);
            Run(c, s).stats == Count(Run(c, t).stats, Drain(c, Run(c, t), a.now).nt[p], a.fp)
  {
    QueueInTime(c, Init(s));
    DrainKeepsSorted(c, Run(c, Init(s)), Last(s).now);
  }

  /** The slots that decide how the last arrival is counted. */
  ghost function Deciding(c: Config, s: seq<Arrival>): seq<Slot>
    requires c.Ok() && s != []
  {
    Drain(c, Run(c, Init(s)), Last(s).now).nt[c.Bucket(Last(s).fp)]
  }

  /** A bucket on its own counts its arrival by the same slots. */
  lemma {:induction false} CountedInBucket(c: Config, p: nat, s: seq<Arrival>)
    requires c.Ok() && s != [] && InTime(s) && p == c.Bucket(Last(s).fp)
    ensures Run(One(c), Sub(c, p, s)).stats == Count(Run(One(c), Sub(c, p, Init(s))).stats, Deciding(c, s), Last(s).fp)
  {
    var sub := Sub(c, p, s);
    SubOfOwn(c, p, s);
    SubInTime(c, p, s);
    StatsOfStep(One(c), sub);
    BucketIsOwnCache(c, p, Init(s), Last(s).now);
    assert One(c).Bucket(Last(s).fp) == 0;
  }

  lemma {:induction false} SubInTime(c: Config, p: nat, s: seq<Arrival>)
    requires c.buckets > 0 && InTime(s)
    ensures InTime(Sub(c, p, s)) && forall a :: a in Sub(c, p, s) ==> a in s
  {
    if s != [] {
      SubInTime(c, p, Init(s));
      var rest := Sub(c, p, Init(s));
      forall i | 0 <= i < |rest| ensures rest[i].now <= Last(s).now {
        assert rest[i] in Init(s);
        var j :| 0 <= j < |s| - 1 && s[j] == rest[i];
      }
    }
  }

  /** The counts of a cache are those of its buckets, added up. */
  lemma {:induction false} OwnStatsAddUp(c: Config, s: seq<Arrival>)
    requires c.Ok() && InTime(s)
    ensures Run(c, s).stats == Total(OwnStats(c, s), c.buckets)
  {
    if s == [] {
      NothingCounted(c, c.buckets);
    } else {
      var p, t, fp := c.Bucket(Last(s).fp), Init(s), Last(s).fp;
      OwnStatsAddUp(c, t);
      forall q | 0 <= q < c.buckets
        ensures OwnStats(c, s)(q) == if q == p then Count(OwnStats(c, t)(q), Deciding(c, s), fp) else OwnStats(c, t)(q)
      {
        if q == p { CountedInBucket(c, p, s); }
      }
      TotalCounts(OwnStats(c, t), OwnStats(c, s), c.buckets, p, Deciding(c, s), fp);
      StatsOfStep(c, s);
    }
  }

  /** The hits, placeholder hits and misses of the whole cache are those of the exact LRUs, one for
      each bucket, added up. */
  lemma {:induction false} CountsAreThoseOfExactLrus(c: Config, s: seq<Arrival>)
    requires c.Ok() && InStampOrder(s)
    ensures Run(c, s).stats == Total(IdealStats(c, s), c.buckets)
  {
    OwnStatsAddUp(c, s);
    forall p | 0 <= p < c.buckets ensures OwnStats(c, s)(p) == IdealStats(c, s)(p) {
      OwnIsIdeal(c, s, p);
    }
    TotalSame(OwnStats(c, s), IdealStats(c, s), c.buckets);
  }

  lemma {:induction false} NothingCounted(c: Config, n: nat)
    requires c.Ok()
    ensures Total(OwnStats(c, []), n) == Stats(0, 0, 0, 0)
  {
    if n > 0 { NothingCounted(c, n - 1); }
  }
}
