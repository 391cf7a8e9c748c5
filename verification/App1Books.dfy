/** The bookkeeping of LRUTable's simulator (ts_order and dup_cntr) follows its buckets exactly. */
module App1Books {
  import opened Sequences
  import opened Stamps
  import opened App1Model

  /** A bucket holds no fingerprint twice and only fingerprints that hash to it. */
  ghost predicate Home(c: Config, p: nat, b: seq<Slot>)
    requires c.Ok()
  {
    Distinct(b) && forall i :: 0 <= i < |b| ==> c.Bucket(b[i].fp) == p
  }

  ghost predicate AllHome(c: Config, nt: seq<seq<Slot>>)
    requires c.Ok()
  {
    |nt| == c.buckets && forall p {:trigger Home(c, p, nt[p])} :: 0 <= p < c.buckets ==> Home(c, p, nt[p])
  }

  /** ts_order and dup_cntr say about fp what its bucket says. */
  ghost predicate Booked(b: seq<Slot>, ts: set<Stamp>, dup: map<Fp, nat>, fp: Fp) {
    var i := Find(b, fp);
    && (fp in dup <==> i < |b|)
    && (i < |b| ==> dup[fp] == 1 && StampOf(b[i]) in ts)
    && (forall x :: Stamp(x, fp) in ts ==> i < |b| && b[i].ts == x)
  }

  ghost predicate Books(c: Config, nt: seq<seq<Slot>>, ts: set<Stamp>, dup: map<Fp, nat>)
    requires c.Ok()
  {
    AllHome(c, nt) && forall fp {:trigger Booked(nt[c.Bucket(fp)], ts, dup, fp)} ::
        Booked(nt[c.Bucket(fp)], ts, dup, fp)
  }

  // ---------- the size of ts_order ----------

  ghost function StampsUpTo(nt: seq<seq<Slot>>, n: nat): set<Stamp>
    requires n <= |nt|
  {
    if n == 0 then {} else StampsUpTo(nt, n - 1) + StampSet(nt[n - 1])
  }

  lemma {:induction false} FewStamps(b: seq<Slot>)
    ensures |StampSet(b)| <= |b|
  {
    if b != [] {
      var r := b[..|b| - 1];
      FewStamps(r);
      assert StampSet(b) == StampSet(r) + {StampOf(b[|b| - 1])};
    }
  }

  lemma {:induction false} StampsFit(c: Config, nt: seq<seq<Slot>>, n: nat)
    requires c.Ok() && n <= |nt| && forall p :: 0 <= p < n ==> |nt[p]| <= c.k
    ensures |StampsUpTo(nt, n)| <= c.k * n
  {
    if n > 0 {
      StampsFit(c, nt, n - 1);
      FewStamps(nt[n - 1]);
      assert c.k * n == c.k * (n - 1) + c.k;
    }
  }

  lemma {:induction false} StampIsCounted(nt: seq<seq<Slot>>, n: nat, p: nat, i: nat)
    requires p < n <= |nt| && i < |nt[p]|
    ensures StampOf(nt[p][i]) in StampsUpTo(nt, n)
  {
    if p < n - 1 {
      StampIsCounted(nt, n - 1, p, i);
    }
  }

  /** The first assert of insert: ts_order never outgrows the cache. */
  lemma {:induction false} OrderFits(c: Config, nt: seq<seq<Slot>>, ts: set<Stamp>, dup: map<Fp, nat>)
    requires c.Ok() && Books(c, nt, ts, dup) && forall p :: 0 <= p < c.buckets ==> |nt[p]| <= c.k
    ensures |ts| <= c.k * c.buckets
  {
    var all := StampsUpTo(nt, c.buckets);
    forall s | s in ts ensures s in all {
      var p := c.Bucket(s.fp);
      assert Booked(nt[p], ts, dup, s.fp) && s == Stamp(s.ts, s.fp);
      StampIsCounted(nt, c.buckets, p, Find(nt[p], s.fp));
    }
    SubsetIsSmaller(ts, all);
    StampsFit(c, nt, c.buckets);
  }

  lemma {:induction false} SubsetIsSmaller<T>(a: set<T>, b: set<T>)
    requires a <= b
    ensures |a| <= |b|
  {
    if a != {} {
      var x :| x in a;
      SubsetIsSmaller(a - {x}, b - {x});
    }
  }

  // ---------- each change of a bucket and of the books ----------

  /** A change of one bucket that keeps its books for every fingerprint keeps all books. */
  lemma {:induction false} OneBucketChanged(c: Config, nt: seq<seq<Slot>>, ts: set<Stamp>, dup: map<Fp, nat>,
                         p: nat, b: seq<Slot>, ts': set<Stamp>, dup': map<Fp, nat>)
    requires c.Ok() && Books(c, nt, ts, dup) && p < c.buckets && Home(c, p, b)
    requires forall fp {:trigger Booked(b, ts', dup', fp)} :: c.Bucket(fp) == p ==> Booked(b, ts', dup', fp)
    requires forall fp :: c.Bucket(fp) != p ==> (fp in dup <==> fp in dup') && (fp in dup ==> dup[fp] == dup'[fp])
    requires forall s: Stamp :: c.Bucket(s.fp) != p ==> (s in ts <==> s in ts')
    ensures Books(c, nt[p := b], ts', dup')
  {
    var nt' := nt[p := b];
    forall q | 0 <= q < c.buckets ensures Home(c, q, nt'[q]) {
      assert Home(c, q, nt[q]);
    }
    forall fp ensures Booked(nt'[c.Bucket(fp)], ts', dup', fp) {
      assert Booked(nt[c.Bucket(fp)], ts, dup, fp);
      if c.Bucket(fp) == p {
        assert Booked(b, ts', dup', fp);
      }
    }
  }

  lemma {:induction false} MarkBooks(c: Config, nt: seq<seq<Slot>>, ts: set<Stamp>, dup: map<Fp, nat>, fp: Fp)
    requires c.Ok() && Books(c, nt, ts, dup)
    ensures var p := c.Bucket(fp); Books(c, nt[p := MarkValid(nt[p], fp)], ts, dup)
  {
    var p := c.Bucket(fp);
    var b, b' := nt[p], MarkValid(nt[p], fp);
    assert Home(c, p, b);
    forall g | c.Bucket(g) == p ensures Booked(b', ts, dup, g) {
      assert Booked(nt[c.Bucket(g)], ts, dup, g);
      SameFind(b, b', g);
    }
    OneBucketChanged(c, nt, ts, dup, p, b', ts, dup);
  }

  lemma {:induction false} RemoveHome(c: Config, p: nat, b: seq<Slot>, i: nat)
    requires c.Ok() && Home(c, p, b) && i < |b|
    ensures Home(c, p, Remove(b, i)) && forall j :: 0 <= j < |Remove(b, i)| ==> Remove(b, i)[j].fp != b[i].fp
  {
  }

  lemma {:induction false} FrontHome(c: Config, p: nat, s: Slot, r: seq<Slot>)
    requires c.Ok() && Home(c, p, r) && c.Bucket(s.fp) == p && forall j :: 0 <= j < |r| ==> r[j].fp != s.fp
    ensures Home(c, p, [s] + r)
  {
  }

  lemma {:induction false} HitBooked(b: seq<Slot>, ts: set<Stamp>, dup: map<Fp, nat>, s: Slot, g: Fp)
    requires Distinct(b) && Find(b, s.fp) < |b| && Booked(b, ts, dup, s.fp) && Booked(b, ts, dup, g)
    ensures Booked([s] + Remove(b, Find(b, s.fp)), ts - {StampOf(b[Find(b, s.fp)])} + {StampOf(s)}, dup, g)
  {
    var i := Find(b, s.fp);
    var r := Remove(b, i);
    FindRemoved(b, i, g);
    FindInFront(s, r, g);
    if g != s.fp {
      assert Find(r, g) < |r| ==> ([s] + r)[1 + Find(r, g)] == b[Find(b, g)];
    }
  }

  /** A hit: the old stamp is there to be replaced, and the books follow. */
  lemma {:induction false} HitBooks(c: Config, nt: seq<seq<Slot>>, ts: set<Stamp>, dup: map<Fp, nat>, fp: Fp, now: real)
    requires c.Ok() && Books(c, nt, ts, dup) && Find(nt[c.Bucket(fp)], fp) < |nt[c.Bucket(fp)]|
    ensures var p := c.Bucket(fp);
            var e := StampOf(nt[p][Find(nt[p], fp)]);
            e in ts && Books(c, nt[p := Enter(nt[p], fp, now)], ts - {e} + {Stamp(now, fp)}, dup)
  {
    var p := c.Bucket(fp);
    var b := nt[p];
    var i := Find(b, fp);
    var e, s := StampOf(b[i]), Slot(fp, b[i].valid, now);
    var ts' := ts - {e} + {Stamp(now, fp)};
    assert Home(c, p, b) && Booked(nt[c.Bucket(fp)], ts, dup, fp);
    RemoveHome(c, p, b, i);
    FrontHome(c, p, s, Remove(b, i));
    forall g | c.Bucket(g) == p ensures Booked([s] + Remove(b, i), ts', dup, g) {
      assert Booked(nt[c.Bucket(g)], ts, dup, g);
      HitBooked(b, ts, dup, s, g);
    }
    OneBucketChanged(c, nt, ts, dup, p, [s] + Remove(b, i), ts', dup);
  }

  /** A miss: the fingerprint is new to the books. */
  lemma {:induction false} MissBooks(c: Config, nt: seq<seq<Slot>>, ts: set<Stamp>, dup: map<Fp, nat>, fp: Fp,
                                     now: real)
    requires c.Ok() && Books(c, nt, ts, dup) && Find(nt[c.Bucket(fp)], fp) == |nt[c.Bucket(fp)]|
    ensures fp !in dup
    ensures var p := c.Bucket(fp);
            Books(c, nt[p := Enter(nt[p], fp, now)], ts + {Stamp(now, fp)}, dup[fp := 1])
  {
    var p := c.Bucket(fp);
    var b, s := nt[p], Slot(fp, false, now);
    var ts', dup' := ts + {Stamp(now, fp)}, dup[fp := 1];
    assert Home(c, p, b) && Booked(nt[c.Bucket(fp)], ts, dup, fp);
    FrontHome(c, p, s, b);
    forall g | c.Bucket(g) == p ensures Booked([s] + b, ts', dup', g) {
      assert Booked(nt[c.Bucket(g)], ts, dup, g);
      FindInFront(s, b, g);
    }
    OneBucketChanged(c, nt, ts, dup, p, [s] + b, ts', dup');
  }

  /** An eviction: the victim's stamp and count are there, its count drops to zero. */
  lemma {:induction false} EvictBooks(c: Config, nt: seq<seq<Slot>>, ts: set<Stamp>, dup: map<Fp, nat>, p: nat)
    requires c.Ok() && Books(c, nt, ts, dup) && p < c.buckets && nt[p] != []
    ensures var b := nt[p];
            var v := b[|b| - 1];
            && StampOf(v) in ts && v.fp in dup && dup[v.fp] == 1
            && Books(c, nt[p := b[..|b| - 1]], ts - {StampOf(v)}, dup - {v.fp})
  {
    var b := nt[p];
    var n := |b| - 1;
    var v := b[n];
    assert Home(c, p, b) && Booked(nt[c.Bucket(v.fp)], ts, dup, v.fp);
    FindIs(b, n);
    RemoveHome(c, p, b, n);
    assert b[..n] == Remove(b, n);
    forall g | c.Bucket(g) == p ensures Booked(b[..n], ts - {StampOf(v)}, dup - {v.fp}, g) {
      assert Booked(nt[c.Bucket(g)], ts, dup, g);
      FindRemoved(b, n, g);
    }
    OneBucketChanged(c, nt, ts, dup, p, b[..n], ts - {StampOf(v)}, dup - {v.fp});
  }
}
