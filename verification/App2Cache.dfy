/** The simulator of LRUIndex, updated in place, with its bookkeeping and all its asserts. */
module App2Caches {
  import opened Options
  import opened Sequences
  import opened Stamps
  import opened App2Model
  import opened App2Books
  import opened App2Moves

  class App2 {
    const c: Config
    const nt: array2<Bucket>
    var pendingQueue: seq<Pending>
    var tsOrder: set<Stamp>
    var dupCntr: map<Stamp, nat>
    var nMiss: nat

    ghost function Table(): Slots
      reads nt
    {
      seq(nt.Length0, i requires 0 <= i < nt.Length0 reads nt =>
        seq(nt.Length1, p requires 0 <= p < nt.Length1 reads nt => nt[i, p]))
    }

    ghost function Value(): State
      reads this, nt
    {
      State(Table(), pendingQueue, nMiss)
    }

    ghost predicate Shaped()
      reads this, nt
    {
      c.Ok() && nt.Length0 == c.stages && nt.Length1 == c.len
    }

    ghost predicate Valid()
      reads this, nt
    {
      && Shaped() && StageOk(c, pendingQueue)
      && Tidy(c, Table()) && Books(dupCntr, tsOrder, AllSlots(Table()))
    }

    constructor (config: Config)
      requires config.Ok()
      ensures Valid() && c == config && Value() == Run(config, []) && fresh(nt)
    {
      c := config;
      nt := new Bucket[config.stages, config.len]((_, _) => []);
      pendingQueue, tsOrder, dupCntr, nMiss := [], {}, map[], 0;
      new;
      forall i | 0 <= i < config.stages ensures Table()[i] == Start(config).nt[i] {
      }
      assert Table() == Start(config).nt;
      EmptyTable(config);
    }

    /** One bucket is replaced. */
    method Put(i: nat, p: nat, b: Bucket)
      requires i < nt.Length0 && p < nt.Length1
      modifies nt
      ensures Table() == Write(old(Table()), i, p, b)
    {
      nt[i, p] := b;
      ghost var t, u := Table(), Write(old(Table()), i, p, b);
      forall j | 0 <= j < nt.Length0 ensures t[j] == u[j] {
        forall q | 0 <= q < nt.Length1 ensures t[j][q] == u[j][q] {
        }
      }
    }

    /** A copy of s leaves the books, which must hold one. */
    method TakeOutOfBooks(s: Stamp, ghost m: multiset<Stamp>)
      requires Books(dupCntr, tsOrder, m) && s in m
      modifies `dupCntr, `tsOrder
      ensures Books(dupCntr, tsOrder, m - multiset{s})
    {
      DecBooks(dupCntr, tsOrder, m, s);
      assert s in dupCntr;
      ghost var dup, ts := dupCntr, tsOrder;
      dupCntr := dupCntr[s := dupCntr[s] - 1];
      if dupCntr[s] == 0 {
        dupCntr := dupCntr - {s};
        assert s in tsOrder;
        tsOrder := tsOrder - {s};
      }
      assert dupCntr == Dec(dup, s) && tsOrder == DecOrder(dup, ts, s);
    }

    /** The first place of fp in a bucket, or the bucket's size. */
    method Search(i: nat, p: nat, fp: Fp) returns (x: nat)
      requires i < nt.Length0 && p < nt.Length1
      ensures x == Find(Table()[i][p], fp)
    {
      x := 0;
      while x < |nt[i, p]|
        invariant 0 <= x <= |nt[i, p]| && forall y :: 0 <= y < x ==> nt[i, p][y].fp != fp
      {
        if nt[i, p][x].fp == fp {
          FindIs(nt[i, p], x);
          return;
        }
        x := x + 1;
      }
      FindAbsent(nt[i, p], fp);
    }

    /** The books for a slot that enters a bucket holding an older copy at x, if x is a place. */
    method BookRefresh(i: nat, p: nat, s: Stamp, x: nat)
      requires Valid() && i < c.stages && p < c.len && x == Find(Table()[i][p], s.fp)
      modifies `dupCntr, `tsOrder
      ensures Books(dupCntr, tsOrder, AllSlots(Table()) + multiset{s} - Bag(Replaced(Table()[i][p], s.fp)))
    {
      ghost var t := Table();
      ghost var m := AllSlots(t) + multiset{s};
      AddToBooks(s, AllSlots(t));
      ReplacedIsCounted(t, i, p, s.fp);
      assert t[i][p] == nt[i, p];
      var gone := if x < |nt[i, p]| then Some(nt[i, p][x]) else None;
      assert gone == Replaced(t[i][p], s.fp);
      assert Bag(gone) <= m;
      BookLeaving(gone, m);
    }

    method AddToBooks(s: Stamp, ghost m: multiset<Stamp>)
      requires Books(dupCntr, tsOrder, m)
      modifies `dupCntr, `tsOrder
      ensures Books(dupCntr, tsOrder, m + multiset{s})
    {
      IncBooks(dupCntr, tsOrder, m, s);
      dupCntr := Inc(dupCntr, s);
      tsOrder := tsOrder + {s};
    }

    /** The slot enters in front of its bucket and the books; an older copy of its fingerprint
        in the bucket leaves both (app2.cpp, lines 139-167 and 213-239). */
    method RefreshBucket(i: nat, s: Stamp)
      requires Valid() && i < c.stages
      modifies nt, `dupCntr, `tsOrder
      ensures var b := old(Table())[i][c.Bucket(s.fp, i)];
              && Table() == Write(old(Table()), i, c.Bucket(s.fp, i), Refresh(b, s))
              && Books(dupCntr, tsOrder, AllSlots(old(Table())) + multiset{s} - Bag(Replaced(b, s.fp)))
    {
      var p := c.Bucket(s.fp, i);
      var x := Search(i, p, s.fp);
      BookRefresh(i, p, s, x);
      assert Table()[i][p] == nt[i, p];
      if x < |nt[i, p]| {
        Put(i, p, [s] + Remove(nt[i, p], x));
      } else {
        Put(i, p, [s] + nt[i, p]);
      }
    }

    /** A slot pushed out of the first stage moves down until a bucket has room (app2.cpp, lines 175-191). */
    method PushDown(v: Stamp) returns (evicted: Option<Stamp>)
      requires Shaped()
      modifies nt
      ensures (Table(), evicted) == Cascade(c, old(Table()), 1, v)
    {
      ghost var goal := Cascade(c, Table(), 1, v);
      var cur := v;
      var i := 1;
      while i < c.stages
        invariant 1 <= i <= c.stages && Cascade(c, Table(), i, cur) == goal
      {
        var p := c.Bucket(cur.fp, i);
        assert Table()[i][p] == nt[i, p];
        if |nt[i, p]| < c.k {
          Put(i, p, nt[i, p] + [cur]);
          return None;
        }
        var last := nt[i, p][c.k - 1];
        Put(i, p, nt[i, p][c.k - 1 := cur]);
        cur := last;
        i := i + 1;
      }
      return Some(cur);
    }

    /** An overfull bucket gives up its last slot: to the next stages if it is in the first and
        the access had found nothing, out of the cache otherwise. */
    method SettleBucket(i: nat, p: nat, miss: bool, ghost t: Slots) returns (evicted: Option<Stamp>)
      requires Shaped() && i < c.stages && p < c.len && (miss ==> i == 0)
      requires Sized(c, t) && Table() == Write(t, i, p, nt[i, p])
      modifies nt
      ensures (Table(), evicted) == if miss then SettleFirst(c, t, p, old(nt[i, p]))
              else Settle(c, t, i, p, old(nt[i, p]))
    {
      evicted := None;
      ghost var b := nt[i, p];
      if |nt[i, p]| > c.k {
        var last := nt[i, p][|nt[i, p]| - 1];
        Put(i, p, nt[i, p][..|nt[i, p]| - 1]);
        WriteTwice(t, i, p, b, b[..|b| - 1]);
        if miss {
          evicted := PushDown(last);
        } else {
          evicted := Some(last);
        }
      }
    }

    /** The slots' part of an update, and the books for the slot that enters. */
    method MoveSlots(cur: Pending, ghost u: (Slots, Option<Stamp>), ghost m: multiset<Stamp>)
      returns (evicted: Option<Stamp>)
      requires Valid() && -1 <= cur.stage < c.stages && u == Update(c, Table(), cur)
      requires m == AllSlots(Table()) + multiset{cur.Slot()} - Bag(Displaced(c, Table(), cur))
      modifies nt, `dupCntr, `tsOrder
      ensures (Table(), evicted) == u && Books(dupCntr, tsOrder, m)
    {
      ghost var t := Table();
      var s := cur.Slot();
      var i := if cur.stage == -1 then 0 else cur.stage;
      var p := c.Bucket(s.fp, i);
      RefreshBucket(i, s);
      assert Table()[i][p] == nt[i, p];
      evicted := SettleBucket(i, p, cur.stage == -1, t);
    }

    /** The update of one waiting access (app2.cpp, lines 137-259). */
    method Apply(cur: Pending)
      requires Valid() && -1 <= cur.stage < c.stages
      modifies nt, `dupCntr, `tsOrder
      ensures Valid() && Table() == Update(c, old(Table()), cur).0
    {
      ghost var u, m := AfterUpdate(c, Table(), cur);
      MoveAndBook(cur, u, m);
    }

    /** The slots move, and what goes leaves the books. */
    method MoveAndBook(cur: Pending, ghost u: (Slots, Option<Stamp>), ghost m: multiset<Stamp>)
      requires Valid() && -1 <= cur.stage < c.stages && u == Update(c, Table(), cur)
      requires m == AllSlots(Table()) + multiset{cur.Slot()} - Bag(Displaced(c, Table(), cur)) && Bag(u.1) <= m
      modifies nt, `dupCntr, `tsOrder
      ensures Table() == u.0 && Books(dupCntr, tsOrder, m - Bag(u.1))
    {
      var evicted := MoveSlots(cur, u, m);
      BookLeaving(evicted, m);
    }

    /** A slot that was replaced or left the last stage leaves the books (app2.cpp, lines 153-162,
        193-208, 227-235 and 242-255). */
    method BookLeaving(gone: Option<Stamp>, ghost m: multiset<Stamp>)
      requires Books(dupCntr, tsOrder, m) && Bag(gone) <= m
      modifies `dupCntr, `tsOrder
      ensures Books(dupCntr, tsOrder, m - Bag(gone))
    {
      if gone.Some? {
        assert gone.value in Bag(gone);
        TakeOutOfBooks(gone.value, m);
      } else {
        assert m - Bag(gone) == m;
      }
    }

    method DrainPending(now: real)
      requires Valid()
      modifies nt, `dupCntr, `tsOrder, `pendingQueue
      ensures Valid() && Value() == Drain(c, old(Value()), now)
    {
      ghost var goal := Drain(c, Value(), now);
      while Due(c, pendingQueue, now)
        invariant Valid() && Drain(c, Value(), now) == goal
        decreases |pendingQueue|
      {
        ghost var st := Value();
        Apply(pendingQueue[0]);
        pendingQueue := pendingQueue[1..];
        assert Value() == st.(nt := Update(c, st.nt, st.queue[0]).0, queue := st.queue[1..]);
      }
    }

    /** insert: due updates first, then the lookup of the packet's fingerprint. */
    method Insert(a: Arrival)
      requires Valid()
      modifies this, nt
      ensures Valid() && Value() == Step(c, old(Value()), a)
      ensures nMiss == old(nMiss) + if IsCached(c, Table(), a.fp) then 0 else 1
      ensures pendingQueue != [] && var x := Last(pendingQueue);
              x.fp == a.fp && x.ts == a.now && FoundAt(c, Table(), a.fp, x.stage)
    {
      OrderFits(c, Table(), dupCntr, tsOrder);
      assert |tsOrder| <= c.k * c.stages * c.len;
      DrainPending(a.now);
      ghost var st := Value();
      var stage := Lookup(a.fp);
      pendingQueue := pendingQueue + [Pending(a.fp, stage, a.now)];
      if stage == -1 {
        nMiss := nMiss + 1;
      }
      assert Value() == Arrive(c, st, a);
    }

    /** The first stage that holds fp, or -1 (app2.cpp, lines 270-281). */
    method Lookup(fp: Fp) returns (stage: int)
      requires Shaped()
      ensures stage == StageOf(c, Table(), fp, 0) && FoundAt(c, Table(), fp, stage)
    {
      LookupFinds(c, Table(), fp, 0);
      var i := 0;
      while i < c.stages
        invariant 0 <= i <= c.stages && StageOf(c, Table(), fp, 0) == StageOf(c, Table(), fp, i)
      {
        var p := c.Bucket(fp, i);
        var x := Search(i, p, fp);
        assert Table()[i][p] == nt[i, p];
        if x < |nt[i, p]| {
          return i;
        }
        i := i + 1;
      }
      return -1;
    }
  }

  /** The slots after an update, and the books before the slot that goes has left them. */
  lemma {:induction false} AfterUpdate(c: Config, t: Slots, cur: Pending)
    returns (u: (Slots, Option<Stamp>), m: multiset<Stamp>)
    requires c.Ok() && Tidy(c, t) && -1 <= cur.stage < c.stages
    ensures u == Update(c, t, cur) && m == AllSlots(t) + multiset{cur.Slot()} - Bag(Displaced(c, t, cur))
    ensures Tidy(c, u.0) && Bag(u.1) <= m && AllSlots(u.0) == m - Bag(u.1)
  {
    UpdateTidy(c, t, cur);
    UpdateBooks(c, t, cur);
    u, m := Update(c, t, cur), AllSlots(t) + multiset{cur.Slot()} - Bag(Displaced(c, t, cur));
  }

  lemma {:induction false} WriteTwice(nt: Slots, i: nat, p: nat, a: Bucket, b: Bucket)
    requires i < |nt| && p < |nt[i]|
    ensures Write(Write(nt, i, p, a), i, p, b) == Write(nt, i, p, b)
  {
    assert nt[i][p := a][p := b] == nt[i][p := b];
  }

  lemma {:induction false} EmptyTable(c: Config)
    requires c.Ok()
    ensures Tidy(c, Start(c).nt) && AllSlots(Start(c).nt) == multiset{}
  {
    var nt := Start(c).nt;
    forall i, p | 0 <= i < c.stages && 0 <= p < c.len ensures BucketOk(c, i, p, nt[i][p]) {
    }
    EmptySlots(nt);
  }

  lemma {:induction false} EmptyStage(bs: seq<Bucket>)
    requires forall p :: 0 <= p < |bs| ==> bs[p] == []
    ensures StageSlots(bs) == multiset{}
  {
    if bs != [] {
      EmptyStage(bs[1..]);
    }
  }

  lemma {:induction false} EmptySlots(nt: Slots)
    requires forall i :: 0 <= i < |nt| ==> forall p :: 0 <= p < |nt[i]| ==> nt[i][p] == []
    ensures AllSlots(nt) == multiset{}
  {
    if nt != [] {
      EmptyStage(nt[0]);
      EmptySlots(nt[1..]);
    }
  }

  /** The slots of every bucket are among all slots. */
  lemma {:induction false} SlotIsCounted(nt: Slots, i: nat, p: nat)
    requires i < |nt| && p < |nt[i]|
    ensures multiset(nt[i][p]) <= AllSlots(nt)
  {
    WriteSlots(nt, i, p, []);
    Included(AllSlots(Write(nt, i, p, [])), multiset(nt[i][p]), AllSlots(nt));
  }

  lemma {:induction false} ReplacedIsCounted(nt: Slots, i: nat, p: nat, fp: Fp)
    requires i < |nt| && p < |nt[i]|
    ensures Bag(Replaced(nt[i][p], fp)) <= AllSlots(nt)
  {
    SlotIsCounted(nt, i, p);
    assert forall s :: s in nt[i][p] ==> s in multiset(nt[i][p]);
  }

  lemma {:induction false} Included<T>(x: multiset<T>, b: multiset<T>, m: multiset<T>)
    requires x + b == m + multiset([])
    ensures b <= m
  {
    forall s: T | true ensures b[s] <= m[s] {
      assert (x + b)[s] == (m + multiset([]))[s];
    }
  }
}
