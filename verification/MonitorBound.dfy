/** No admitted byte is lost on the way to the CPU, and the error of the monitor's answers. */
module MonitorBounds {
  import opened TowerSketches
  import opened LruCaches
  import opened Sequences
  import opened Monitors
  import opened Recency

  // ---------- one bucket ----------

  ghost predicate Distinct(b: seq<Slot>) {
    forall i, j :: 0 <= i < j < |b| ==> b[i].fp != b[j].fp
  }

  function Sum(b: seq<Slot>): nat {
    if b == [] then 0 else b[0].cnt + Sum(b[1..])
  }

  lemma {:induction false} CountIs(b: seq<Slot>, i: nat)
    requires Distinct(b) && i < |b|
    ensures Count(b, b[i].fp) == b[i].cnt
  {
    FindIs(b, b[i].fp, i);
  }

  lemma {:induction false} CountAbsent(b: seq<Slot>, x: Fp)
    requires forall i :: 0 <= i < |b| ==> b[i].fp != x
    ensures Count(b, x) == 0
  {
    FindNothing(b, x);
  }

  lemma {:induction false} PutShape(b: seq<Slot>, fp: Fp, size: nat)
    requires Distinct(b) && |b| <= NSLOT
    ensures Distinct(Put(b, fp, size).0) && |Put(b, fp, size).0| <= NSLOT
    ensures forall s :: s in Put(b, fp, size).0 ==> s.fp == fp || s in b
    ensures var v := Put(b, fp, size).1; v.cnt != 0 ==> v in b
  {
  }

  /** Where every slot of the old bucket is found afterwards. */
  lemma {:induction false} PutKeepsCount(b: seq<Slot>, fp: Fp, size: nat, x: Fp)
    requires Distinct(b) && |b| <= NSLOT
    ensures var r := Put(b, fp, size);
            Count(r.0, x) + (if r.1.fp == x then r.1.cnt else 0) == Count(b, x) + if x == fp then size else 0
  {
    PutShape(b, fp, size);
    var r := Put(b, fp, size);
    var i, j := Find(b, fp), Find(b, x);
    if x == fp {
      assert r.0[0].fp == fp;
      CountIs(r.0, 0);
    } else if j == |b| {
      assert forall t :: 0 <= t < |r.0| ==> r.0[t].fp != x;
      CountAbsent(r.0, x);
    } else if i < |b| {
      var t := if j < i then j + 1 else j;
      assert r.0[t] == b[j];
      CountIs(r.0, t);
    } else if |b| == NSLOT && j == |b| - 1 {
      CountAbsent(r.0, x);
    } else {
      assert r.0[j + 1] == b[j];
      CountIs(r.0, j + 1);
    }
  }

  lemma {:induction false} SumAppend(a: seq<Slot>, b: seq<Slot>)
    ensures Sum(a + b) == Sum(a) + Sum(b)
  {
    if a == [] {
      assert a + b == b;
    } else {
      assert (a + b)[1..] == a[1..] + b;
      SumAppend(a[1..], b);
    }
  }

  lemma {:induction false} SumSplit(b: seq<Slot>, i: nat)
    requires i < |b|
    ensures Sum(b) == Sum(b[..i]) + b[i].cnt + Sum(b[i + 1..])
  {
    assert b == b[..i] + b[i..];
    SumAppend(b[..i], b[i..]);
    assert b[i..][1..] == b[i + 1..];
  }

  lemma {:induction false} SumFront(s: Slot, b: seq<Slot>)
    ensures Sum([s] + b) == s.cnt + Sum(b)
  {
    assert ([s] + b)[1..] == b;
  }

  lemma {:induction false} SumBack(b: seq<Slot>)
    requires b != []
    ensures Sum(b) == Sum(b[..|b| - 1]) + b[|b| - 1].cnt
  {
    SumSplit(b, |b| - 1);
  }

  lemma {:induction false} PutKeepsSum(b: seq<Slot>, fp: Fp, size: nat)
    requires |b| <= NSLOT
    ensures Sum(Put(b, fp, size).0) + Put(b, fp, size).1.cnt == Sum(b) + size
  {
    PutAtKeepsSum(b, fp, size, Find(b, fp));
  }

  lemma {:induction false} PutAtKeepsSum(b: seq<Slot>, fp: Fp, size: nat, i: nat)
    requires i <= |b| <= NSLOT
    ensures Sum(PutAt(b, fp, size, i).0) + PutAt(b, fp, size, i).1.cnt == Sum(b) + size
  {
    if i < |b| {
      SumHit(b, fp, size, i);
    } else if |b| + 1 > NSLOT {
      SumPushedOut(b, Slot(fp, size));
    } else {
      SumFront(Slot(fp, size), b);
    }
  }

  lemma {:induction false} SumPushedOut(b: seq<Slot>, s: Slot)
    requires b != []
    ensures Sum([s] + b[..|b| - 1]) + b[|b| - 1].cnt == Sum(b) + s.cnt
  {
    SumBack(b);
    SumFront(s, b[..|b| - 1]);
  }

  lemma {:induction false} SumHit(b: seq<Slot>, fp: Fp, size: nat, i: nat)
    requires i < |b|
    ensures Sum([Slot(fp, size + b[i].cnt)] + b[..i] + b[i + 1..]) == Sum(b) + size
  {
    var front := Slot(fp, size + b[i].cnt);
    SumSplit(b, i);
    SumAppend(b[..i], b[i + 1..]);
    SumFront(front, b[..i] + b[i + 1..]);
    assert [front] + b[..i] + b[i + 1..] == [front] + (b[..i] + b[i + 1..]);
  }

  // ---------- all buckets ----------

  function SumAll(nt: seq<seq<Slot>>): nat {
    if nt == [] then 0 else Sum(nt[0]) + SumAll(nt[1..])
  }

  lemma {:induction false} SumUpdate(nt: seq<seq<Slot>>, p: nat, b: seq<Slot>)
    requires p < |nt|
    ensures SumAll(nt[p := b]) + Sum(nt[p]) == SumAll(nt) + Sum(b)
  {
    if p == 0 {
      assert nt[p := b][1..] == nt[1..];
    } else {
      assert nt[p := b][1..] == nt[1..][p - 1 := b];
      SumUpdate(nt[1..], p - 1, b);
    }
  }

  lemma {:induction false} SumEmpty(nt: seq<seq<Slot>>)
    requires forall p :: 0 <= p < |nt| ==> nt[p] == []
    ensures SumAll(nt) == 0
  {
    if nt != [] {
      SumEmpty(nt[1..]);
    }
  }

  // ---------- the invariant of the pipeline ----------

  /** Fingerprints tell the flows of us apart. */
  ghost predicate Distinguishes(h: Hashes, us: set<Flow>) {
    forall f, g :: f in us && g in us && h.FpOf(f) == h.FpOf(g) ==> f == g
  }

  ghost predicate Sent(s: seq<Packet>, us: set<Flow>) {
    forall i :: 0 <= i < |s| ==> s[i].id in us
  }

  /** A slot of bucket p belongs to a flow that hashes there. */
  ghost predicate Owned(h: Hashes, us: set<Flow>, p: nat, slot: Slot) {
    exists f :: f in us && h.FpOf(f) == slot.fp && h.Bucket(f) == p
  }

  ghost predicate BucketOk(h: Hashes, us: set<Flow>, p: nat, b: seq<Slot>) {
    Distinct(b) && |b| <= NSLOT && forall s :: s in b ==> Owned(h, us, p, s)
  }

  ghost predicate CacheOk(h: Hashes, us: set<Flow>, nt: seq<seq<Slot>>) {
    |nt| == NBUCK && forall p {:trigger BucketOk(h, us, p, nt[p])} :: 0 <= p < NBUCK ==> BucketOk(h, us, p, nt[p])
  }

  /** An owned victim is always uploaded: the second sketch answers at least its count. */
  lemma {:induction false} VictimIsUploaded(env: Env, m: State, v: Slot)
    requires v.cnt != 0 && Grand(m.end) + v.cnt < WRAP
    ensures Upload(env, m, v).cpu == Send(m.cpu, v.fp, v.cnt)
  {
    GrandAppend(m.end, v.fp, v.cnt);
    TotalAppend(m.end, v.fp, v.cnt, v.fp);
    NeverUnderestimates(env.endHash, m.end + [(v.fp, v.cnt)], v.fp);
  }

  /** Caching a packet and uploading the victim adds its bytes to its own flow's and to no other's. */
  lemma {:induction false} CacheAndUpload(env: Env, us: set<Flow>, m: State, p: Packet, g: Flow)
    requires Distinguishes(env.h, us) && p.id in us && g in us && CacheOk(env.h, us, m.nt)
    requires Grand(m.end) + Put(m.nt[env.h.Bucket(p.id)], env.h.FpOf(p.id), p.size).1.cnt < WRAP
    ensures var r := Cache(env, m, p);
            Known(env, Upload(env, r.0, r.1), g) == Known(env, m, g) + if g == p.id then p.size else 0
  {
    var h, b := env.h, env.h.Bucket(p.id);
    var r := Cache(env, m, p);
    var v := r.1;
    var bucket, x := m.nt[b], h.FpOf(g);
    assert BucketOk(h, us, b, bucket);
    PutShape(bucket, h.FpOf(p.id), p.size);
    PutKeepsCount(bucket, h.FpOf(p.id), p.size, x);
    if v.cnt != 0 {
      VictimIsUploaded(env, r.0, v);
      assert Owned(h, us, b, v);
      if h.Bucket(g) != b {
        var u :| u in us && h.FpOf(u) == v.fp && h.Bucket(u) == b;
        assert v.fp != x;
      }
    }
  }

  lemma {:induction false} CacheStaysOk(env: Env, us: set<Flow>, m: State, p: Packet)
    requires p.id in us && CacheOk(env.h, us, m.nt)
    ensures CacheOk(env.h, us, Cache(env, m, p).0.nt)
  {
    var h, b := env.h, env.h.Bucket(p.id);
    var nt' := Cache(env, m, p).0.nt;
    assert BucketOk(h, us, b, m.nt[b]);
    PutShape(m.nt[b], h.FpOf(p.id), p.size);
    forall q | 0 <= q < NBUCK ensures BucketOk(h, us, q, nt'[q]) {
      assert BucketOk(h, us, q, m.nt[q]);
      if q == b {
        forall s | s in nt'[b] ensures Owned(h, us, b, s) {
          if s !in m.nt[b] {
            assert h.FpOf(p.id) == s.fp && h.Bucket(p.id) == b;
          }
        }
      }
    }
  }

  /** Counts only move: the slots and the second sketch hold no more than the stream sent. */
  lemma {:induction false} StepSum(env: Env, m: State, p: Packet)
    requires |m.nt| == NBUCK && forall q :: 0 <= q < NBUCK ==> |m.nt[q]| <= NSLOT
    ensures SumAll(Step(env, m, p).nt) + Grand(Step(env, m, p).end) <= SumAll(m.nt) + Grand(m.end) + p.size
    ensures Passes(env, m, p) ==>
              Grand(Roll(m, p).end) + Put(m.nt[env.h.Bucket(p.id)], env.h.FpOf(p.id), p.size).1.cnt
              <= SumAll(m.nt) + Grand(m.end) + p.size
  {
    if Passes(env, m, p) {
      var b := env.h.Bucket(p.id);
      var r := Put(m.nt[b], env.h.FpOf(p.id), p.size);
      PutKeepsSum(m.nt[b], env.h.FpOf(p.id), p.size);
      SumUpdate(m.nt, b, r.0);
      GrandAppend(Roll(m, p).end, r.1.fp, r.1.cnt);
    }
  }

  lemma {:induction false} StepCacheOk(env: Env, us: set<Flow>, m: State, p: Packet)
    requires p.id in us && CacheOk(env.h, us, m.nt)
    ensures CacheOk(env.h, us, Step(env, m, p).nt)
  {
    if Passes(env, m, p) {
      CacheStaysOk(env, us, Roll(m, p).(front := Roll(m, p).front + [(p.id, p.size)]), p);
    }
  }

  /** What one packet changes for a flow: the packet's own flow gains its bytes if it passes. */
  lemma {:induction false} StepKnown(env: Env, us: set<Flow>, m: State, p: Packet, g: Flow)
    requires Distinguishes(env.h, us) && p.id in us && g in us && CacheOk(env.h, us, m.nt)
    requires Grand(Step(env, m, p).end) < WRAP
    ensures Known(env, Step(env, m, p), g) == Known(env, m, g) + if g == p.id && Passes(env, m, p) then p.size else 0
  {
    if Passes(env, m, p) {
      var m2 := Roll(m, p).(front := Roll(m, p).front + [(p.id, p.size)]);
      var r := Cache(env, m2, p);
      GrandAppend(m2.end, r.1.fp, r.1.cnt);
      CacheAndUpload(env, us, m2, p, g);
    }
  }

  lemma {:induction false} SmallBuckets(h: Hashes, us: set<Flow>, nt: seq<seq<Slot>>)
    requires CacheOk(h, us, nt)
    ensures forall q :: 0 <= q < NBUCK ==> |nt[q]| <= NSLOT
  {
    forall q | 0 <= q < NBUCK ensures |nt[q]| <= NSLOT {
      assert BucketOk(h, us, q, nt[q]);
    }
  }

  lemma {:induction false} CountsFitStream(env: Env, us: set<Flow>, s: seq<Packet>)
    requires Distinguishes(env.h, us) && Sent(s, us)
    ensures CacheOk(env.h, us, Run(env, s).nt)
    ensures SumAll(Run(env, s).nt) + Grand(Run(env, s).end) <= AllBytes(s)
  {
    if s == [] {
      SumEmpty(Run(env, s).nt);
    } else {
      var m, p := Run(env, Init(s)), Last(s);
      CountsFitStream(env, us, Init(s));
      SmallBuckets(env.h, us, m.nt);
      StepSum(env, m, p);
      StepCacheOk(env, us, m, p);
    }
  }

  /** At every point what the cache and the CPU know about a flow is what the filter admitted. */
  lemma {:induction false} NothingAdmittedIsLost(env: Env, us: set<Flow>, s: seq<Packet>, g: Flow)
    requires Distinguishes(env.h, us) && Sent(s, us) && SketchesHold(env, s) && g in us
    ensures Known(env, Run(env, s), g) == Admitted(env, s, g)
  {
    if s != [] {
      NothingAdmittedIsLost(env, us, Init(s), g);
      CountsFitStream(env, us, Init(s));
      StepKnown(env, us, Run(env, Init(s)), Last(s), g);
    }
  }

  /** Streams below 2^32 bytes never overtax a sketch. */
  lemma {:induction false} SmallStreamsHold(env: Env, us: set<Flow>, s: seq<Packet>)
    requires Distinguishes(env.h, us) && Sent(s, us) && AllBytes(s) < WRAP
    ensures SketchesHold(env, s)
  {
    FrontIsPartOfStream(env, s);
    CountsFitStream(env, us, s);
    if s != [] {
      SmallStreamsHold(env, us, Init(s));
    }
  }

  // ---------- what is cached ----------

  /** The fingerprints that the filter let through to bucket p, in their order. */
  ghost function AdmittedTo(env: Env, s: seq<Packet>, p: nat): seq<Fp> {
    if s == [] then []
    else if env.h.Bucket(Last(s).id) == p && Passes(env, Run(env, Init(s)), Last(s))
    then AdmittedTo(env, Init(s), p) + [env.h.FpOf(Last(s).id)]
    else AdmittedTo(env, Init(s), p)
  }

  lemma {:induction false} StepBuckets(env: Env, m: State, x: Packet)
    requires |m.nt| == NBUCK
    ensures Step(env, m, x).nt ==
            if Passes(env, m, x) then m.nt[env.h.Bucket(x.id) := Put(m.nt[env.h.Bucket(x.id)], env.h.FpOf(x.id),
                                                            x.size).0]
            else m.nt
  {
    if Passes(env, m, x) {
      var m2 := Roll(m, x).(front := Roll(m, x).front + [(x.id, x.size)]);
      var r := Cache(env, m2, x);
      assert Step(env, m, x) == Upload(env, r.0, r.1);
    }
  }

  /** At any point of any stream a bucket holds the NSLOT fingerprints let through to it most
      recently, the most recent first. */
  lemma {:induction false} CacheIsRecent(env: Env, s: seq<Packet>, p: nat)
    requires p < NBUCK
    ensures MostRecent(Fps(Run(env, s).nt[p]), AdmittedTo(env, s, p), NSLOT)
  {
    if s == [] {
      NoneSent<Fp>(NSLOT);
      assert Fps(Run(env, s).nt[p]) == [];
    } else {
      var m, x := Run(env, Init(s)), Last(s);
      CacheIsRecent(env, Init(s), p);
      StepBuckets(env, m, x);
      PutIsRecent(m.nt[p], env.h.FpOf(x.id), x.size);
    }
  }

  /** So a fingerprint is cached if and only if it was let through, and fewer than NSLOT others to its
      bucket since. */
  lemma {:induction false} CachedIff(env: Env, s: seq<Packet>, p: nat, fp: Fp)
    requires p < NBUCK
    ensures fp in Fps(Run(env, s).nt[p]) <==>
            fp in AdmittedTo(env, s, p) && |Since(AdmittedTo(env, s, p), fp)| < NSLOT
  {
    CacheIsRecent(env, s, p);
    HeldIff(Fps(Run(env, s).nt[p]), AdmittedTo(env, s, p), NSLOT, fp);
  }

  // ---------- the error bound ----------

  /** The monitor never reports more than a flow sent, and misses at most THRESHOLD bytes in
      each window in which it sends. */
  lemma {:induction false} ErrorBound(env: Env, us: set<Flow>, s: seq<Packet>, f: Flow)
    requires Distinguishes(env.h, us) && Sent(s, us) && SketchesHold(env, s) && f in us
    ensures 0 <= Bytes(s, f) - Known(env, Run(env, s), f) <= THRESHOLD * |Windows(env, s, f)|
  {
    NothingAdmittedIsLost(env, us, s, f);
    HeldBackPerWindow(env, s, f);
  }
}
