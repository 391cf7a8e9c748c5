/** The two simulators of LRUTable as they run: state changed in place, insert by insert. */
module App1Caches {
  import opened Sequences
  import opened Stamps
  import opened App1Model
  import opened App1Books

  /** The counter of fp, zero when it has none. */
  function Copies(dup: map<Fp, nat>, fp: Fp): nat {
    if fp in dup then dup[fp] else 0
  }

  class App1 {
    const c: Config
    const nt: array<seq<Slot>>
    var pendingQueue: seq<Stamp>
    var tsOrder: set<Stamp>
    var dupCntr: map<Fp, nat>
    var stats: Stats

    ghost predicate Valid()
      reads this, nt
    {
      && c.Ok() && nt.Length == c.buckets
      && (forall p :: 0 <= p < c.buckets ==> |nt[p]| <= c.k)
      && Books(c, nt[..], tsOrder, dupCntr)
    }

    ghost function Value(): State
      reads this, nt
    {
      State(nt[..], pendingQueue, stats)
    }

    constructor (config: Config)
      requires config.Ok()
      ensures Valid() && c == config && Value() == Run(config, []) && fresh(nt)
    {
      c := config;
      nt := new seq<Slot>[config.buckets](_ => []);
      pendingQueue, tsOrder, dupCntr, stats := [], {}, map[], Stats(0, 0, 0, 0);
      new;
      assert nt[..] == Start(config).nt;
      forall p | 0 <= p < config.buckets ensures Home(config, p, nt[p]) {
      }
      forall fp ensures Booked(nt[..][config.Bucket(fp)], tsOrder, dupCntr, fp) {
      }
    }

    /** Placeholders whose delay is over become valid (app1.cpp, lines 122-140). */
    method DrainPending(now: real)
      requires Valid()
      modifies nt, `pendingQueue
      ensures Valid() && Value() == Drain(c, old(Value()), now)
      ensures DueTaken(old(pendingQueue), pendingQueue, now, c.delta)
    {
      DrainTakesDue(c, Value(), now);
      ghost var goal := Drain(c, Value(), now);
      while Due(c, pendingQueue, now)
        invariant Valid() && Drain(c, Value(), now) == goal
        decreases |pendingQueue|
      {
        var cur := pendingQueue[0];
        MarkBooks(c, nt[..], tsOrder, dupCntr, cur.fp);
        ghost var st := Value();
        MarkFirst(cur.fp);
        pendingQueue := pendingQueue[1..];
        assert Value() == st.(nt := nt[..], queue := st.queue[1..]);
      }
    }

    method MarkFirst(fp: Fp)
      requires c.Ok() && nt.Length == c.buckets
      modifies nt
      ensures nt[..] == old(nt[..])[c.Bucket(fp) := MarkValid(old(nt[c.Bucket(fp)]), fp)]
    {
      var pos := c.Bucket(fp);
      var i := 0;
      while i < |nt[pos]|
        invariant 0 <= i <= |nt[pos]| && nt[..] == old(nt[..])
        invariant forall j :: 0 <= j < i ==> nt[pos][j].fp != fp
      {
        if nt[pos][i].fp == fp {
          FindIs(nt[pos], i);
          nt[pos] := nt[pos][i := nt[pos][i].(valid := true)];
          return;
        }
        i := i + 1;
      }
      FindAbsent(nt[pos], fp);
      assert nt[..][pos := nt[pos]] == nt[..];
    }

    /** insert: pending placeholders first, then the packet itself. */
    method Insert(a: Arrival)
      requires Valid()
      modifies this, nt
      ensures Valid() && Value() == Step(c, old(Value()), a)
    {
      DrainPending(a.now);
      var fp, cur := a.fp, c.Bucket(a.fp);
      ghost var b := nt[cur];
      OrderFits(c, nt[..], tsOrder, dupCntr);
      assert |tsOrder| <= c.k * c.buckets;
      var i := 0;
      while i < |nt[cur]|
        invariant 0 <= i <= |b| && forall j :: 0 <= j < i ==> b[j].fp != fp
      {
        if nt[cur][i].fp == fp {
          FindIs(b, i);
          Hit(a, i);
          return;
        }
        i := i + 1;
      }
      FindAbsent(b, fp);
      Miss(a);
    }

    /** Lines 148-171 of app1.cpp, once the packet's fingerprint has been found in slot i. */
    method Hit(a: Arrival, i: nat)
      requires Valid() && i == Find(nt[c.Bucket(a.fp)], a.fp) < |nt[c.Bucket(a.fp)]|
      modifies `stats, `tsOrder, nt
      ensures Valid() && Value() == Arrive(c, old(Value()), a)
    {
      var fp, cur := a.fp, c.Bucket(a.fp);
      HitBooks(c, nt[..], tsOrder, dupCntr, fp, a.now);
      var slot := nt[cur][i];
      if !slot.valid {
        stats := stats.(items := stats.items + 1, miss := stats.miss + 1, pholder := stats.pholder + 1);
      } else {
        stats := stats.(items := stats.items + 1, hit := stats.hit + 1);
      }
      assert Stamp(slot.ts, fp) in tsOrder;
      tsOrder := tsOrder - {Stamp(slot.ts, fp)};
      tsOrder := tsOrder + {Stamp(a.now, fp)};
      nt[cur] := [Slot(fp, slot.valid, a.now)] + Remove(nt[cur], i);
    }

    /** Lines 148 and 173-199 of app1.cpp, when the fingerprint is not cached. */
    method Miss(a: Arrival)
      requires Valid() && Find(nt[c.Bucket(a.fp)], a.fp) == |nt[c.Bucket(a.fp)]|
      modifies `stats, `tsOrder, `dupCntr, `pendingQueue, nt
      ensures Valid() && Value() == Arrive(c, old(Value()), a)
    {
      var fp, cur := a.fp, c.Bucket(a.fp);
      ghost var st := nt[..];
      MissBooks(c, st, tsOrder, dupCntr, fp, a.now);
      nt[cur] := [Slot(fp, false, a.now)] + nt[cur];
      pendingQueue := pendingQueue + [Stamp(a.now, fp)];
      tsOrder := tsOrder + {Stamp(a.now, fp)};
      dupCntr := dupCntr[fp := Copies(dupCntr, fp) + 1];
      stats := stats.(items := stats.items + 1, miss := stats.miss + 1);
      assert nt[..] == st[cur := Enter(st[cur], fp, a.now)];
      EvictLast(cur);
    }

    /** An overfull bucket loses its last slot, with its entries in the books (app1.cpp, lines 183-199). */
    method EvictLast(cur: nat)
      requires nt.Length == c.buckets && c.Ok() && cur < c.buckets && |nt[cur]| <= c.k + 1
      requires (forall p :: 0 <= p < c.buckets && p != cur ==> |nt[p]| <= c.k) && Books(c, nt[..], tsOrder, dupCntr)
      modifies `tsOrder, `dupCntr, nt
      ensures Valid() && nt[..] == old(nt[..])[cur := Evict(old(nt[cur]), c.k)]
    {
      if |nt[cur]| > c.k {
        EvictBooks(c, nt[..], tsOrder, dupCntr, cur);
        var victim := nt[cur][|nt[cur]| - 1];
        assert Stamp(victim.ts, victim.fp) in tsOrder;
        assert victim.fp in dupCntr;
        ghost var dup := dupCntr;
        dupCntr := dupCntr[victim.fp := dupCntr[victim.fp] - 1];
        if dupCntr[victim.fp] == 0 {
          dupCntr := dupCntr - {victim.fp};
          tsOrder := tsOrder - {Stamp(victim.ts, victim.fp)};
        }
        assert dupCntr == dup - {victim.fp};
        nt[cur] := nt[cur][..|nt[cur]| - 1];
      }
      assert nt[..] == old(nt[..])[cur := nt[cur]];
    }
  }

  class App1Ideal {
    const c: Config
    const capacity: nat
    var timer: map<Fp, real>
    var nt: map<Stamp, bool>
    var pendingQueue: seq<Stamp>
    var stats: Stats

    ghost function Value(): Ideal
      reads this
    {
      Ideal(Table(timer, nt), pendingQueue, stats)
    }

    ghost predicate Valid()
      reads this
    {
      Linked(Table(timer, nt))
    }

    constructor (config: Config, n: nat)
      ensures Valid() && c == config && capacity == n && Value() == IdealRun(config, [], n)
    {
      c, capacity := config, n;
      timer, nt, pendingQueue, stats := map[], map[], [], Stats(0, 0, 0, 0);
    }

    method DrainPending(now: real)
      requires Valid()
      modifies `nt, `pendingQueue
      ensures Valid() && Value() == IdealDrain(c, old(Value()), now)
      ensures DueTaken(old(pendingQueue), pendingQueue, now, c.delta)
    {
      IdealDrainTakesDue(c, Value(), now);
      ghost var goal := IdealDrain(c, Value(), now);
      while Due(c, pendingQueue, now)
        invariant Valid() && IdealDrain(c, Value(), now) == goal
        decreases |pendingQueue|
      {
        var fp := pendingQueue[0].fp;
        if fp in timer {
          assert Stamp(timer[fp], fp) in nt;
          nt := nt[Stamp(timer[fp], fp) := true];
        }
        pendingQueue := pendingQueue[1..];
      }
    }

    method Insert(a: Arrival)
      requires Valid()
      modifies this
      ensures Valid() && Value() == IdealStep(c, old(Value()), a, capacity)
    {
      DrainPending(a.now);
      IdealArriveLinked(Value(), a, capacity);
      if a.fp in timer {
        Hit(a);
      } else {
        Miss(a);
      }
    }

    /** The entry moves from its old time to the new one (app1-ideal.cpp, lines 127-140). */
    method Hit(a: Arrival)
      requires Valid() && a.fp in timer
      modifies `timer, `nt, `stats
      ensures Value() == IdealArrive(old(Value()), a, capacity)
    {
      var it := Stamp(timer[a.fp], a.fp);
      assert it in nt;
      var valid := nt[it];
      if valid {
        stats := stats.(items := stats.items + 1, hit := stats.hit + 1);
      } else {
        stats := stats.(items := stats.items + 1, miss := stats.miss + 1, pholder := stats.pholder + 1);
      }
      timer := timer[a.fp := a.now];
      nt := nt - {it};
      nt := nt[Stamp(a.now, a.fp) := valid];
    }

    /** A new entry, and the oldest one out when there are too many (app1-ideal.cpp, lines 144-153). */
    method Miss(a: Arrival)
      requires Valid() && a.fp !in timer
      modifies `timer, `nt, `pendingQueue, `stats
      ensures Value() == IdealArrive(old(Value()), a, capacity)
    {
      stats := stats.(items := stats.items + 1, miss := stats.miss + 1);
      timer := timer[a.fp := a.now];
      nt := nt[Stamp(a.now, a.fp) := false];
      pendingQueue := pendingQueue + [Stamp(a.now, a.fp)];
      if |nt| > capacity {
        var it := Least(nt.Keys);
        assert it.fp in timer;
        timer := timer - {it.fp};
        nt := nt - {it};
      }
    }
  }
}
