/** The multi-stage cache of LRUIndex, whose updates take effect a delay later. */
module App2Model {
  import opened Options
  import opened Sequences
  import opened Stamps

  /** An access waiting for its update; stage is -1 when the fingerprint was not cached. */
  datatype Pending = Pending(fp: Fp, stage: int, ts: real) {
    function Slot(): Stamp { Stamp(ts, fp) }
  }

  /** Slots per bucket, stages, buckets per stage, the delay, the hash of a stage. */
  datatype Config = Config(k: nat, stages: nat, len: nat, delta: real, hash: (Fp, nat) -> nat) {
    ghost predicate Ok() { k > 0 && stages > 0 && len > 0 }

    function Bucket(fp: Fp, i: nat): (p: nat)
      requires len > 0
      ensures p < len
    {
      hash(fp, i) % len
    }
  }

  type Bucket = seq<Stamp>

  /** The slots of all stages: stage, bucket, place. */
  type Slots = seq<seq<Bucket>>

  ghost predicate Sized(c: Config, nt: Slots) {
    |nt| == c.stages && forall i :: 0 <= i < c.stages ==> |nt[i]| == c.len
  }

  function Find(b: Bucket, fp: Fp): (i: nat)
    ensures i <= |b|
    ensures i < |b| ==> b[i].fp == fp
    ensures forall j :: 0 <= j < i ==> b[j].fp != fp
  {
    if b == [] || b[0].fp == fp then 0
    else
      var r := Find(b[1..], fp);
      assert forall j :: 1 <= j < r + 1 ==> b[j] == b[1..][j - 1];
      1 + r
  }

  lemma {:induction false} FindIs(b: Bucket, i: nat)
    requires i < |b| && forall j :: 0 <= j < i ==> b[j].fp != b[i].fp
    ensures Find(b, b[i].fp) == i
  {
  }

  lemma {:induction false} FindAbsent(b: Bucket, fp: Fp)
    requires forall i :: 0 <= i < |b| ==> b[i].fp != fp
    ensures Find(b, fp) == |b|
  {
  }

  /** deque::erase of the slot at i. */
  function Remove(b: Bucket, i: nat): (r: Bucket)
    requires i < |b|
    ensures |r| == |b| - 1
    ensures forall j :: 0 <= j < |r| ==> r[j] == if j < i then b[j] else b[j + 1]
  {
    b[..i] + b[i + 1..]
  }

  /** A slot enters in front and replaces the first slot with its fingerprint. */
  function Refresh(b: Bucket, s: Stamp): Bucket {
    var i := Find(b, s.fp);
    if i < |b| then [s] + Remove(b, i) else [s] + b
  }

  ghost function Write(nt: Slots, i: nat, p: nat, b: Bucket): Slots
    requires i < |nt| && p < |nt[i]|
  {
    nt[i := nt[i][p := b]]
  }

  /** A slot pushed out of the first stage takes the last place of its bucket in each further
      full stage, until a bucket has room or the stages end. */
  ghost function Cascade(c: Config, nt: Slots, i: nat, v: Stamp): (r: (Slots, Option<Stamp>))
    requires c.Ok() && Sized(c, nt) && i <= c.stages
    ensures Sized(c, r.0)
    decreases c.stages - i
  {
    if i == c.stages then (nt, Some(v))
    else
      var p := c.Bucket(v.fp, i);
      var b := nt[i][p];
      if |b| < c.k then (Write(nt, i, p, b + [v]), None)
      else Cascade(c, Write(nt, i, p, b[c.k - 1 := v]), i + 1, b[c.k - 1])
  }

  /** A refreshed bucket of the first stage goes back; an overfull one starts a cascade. */
  ghost function SettleFirst(c: Config, nt: Slots, p: nat, b: Bucket): (r: (Slots, Option<Stamp>))
    requires c.Ok() && Sized(c, nt) && p < c.len
    ensures Sized(c, r.0)
  {
    if |b| > c.k then Cascade(c, Write(nt, 0, p, b[..|b| - 1]), 1, b[|b| - 1])
    else (Write(nt, 0, p, b), None)
  }

  /** A refreshed bucket of any stage goes back; the last slot of an overfull one is lost. */
  ghost function Settle(c: Config, nt: Slots, i: nat, p: nat, b: Bucket): (r: (Slots, Option<Stamp>))
    requires c.Ok() && Sized(c, nt) && i < c.stages && p < c.len
    ensures Sized(c, r.0)
  {
    if |b| > c.k then (Write(nt, i, p, b[..|b| - 1]), Some(b[|b| - 1]))
    else (Write(nt, i, p, b), None)
  }

  /** The update of an access that found nothing (app2.cpp, lines 137-210). */
  ghost function UpdateMiss(c: Config, nt: Slots, s: Stamp): (r: (Slots, Option<Stamp>))
    requires c.Ok() && Sized(c, nt)
    ensures Sized(c, r.0)
  {
    var p := c.Bucket(s.fp, 0);
    SettleFirst(c, nt, p, Refresh(nt[0][p], s))
  }

  /** The update of an access that found its fingerprint in stage i (app2.cpp, lines 211-259). */
  ghost function UpdateHit(c: Config, nt: Slots, i: nat, s: Stamp): (r: (Slots, Option<Stamp>))
    requires c.Ok() && Sized(c, nt) && i < c.stages
    ensures Sized(c, r.0)
  {
    var p := c.Bucket(s.fp, i);
    Settle(c, nt, i, p, Refresh(nt[i][p], s))
  }

  ghost predicate StageOk(c: Config, q: seq<Pending>) {
    forall i :: 0 <= i < |q| ==> -1 <= q[i].stage < c.stages
  }

  ghost function Update(c: Config, nt: Slots, cur: Pending): (r: (Slots, Option<Stamp>))
    requires c.Ok() && Sized(c, nt) && -1 <= cur.stage < c.stages
    ensures Sized(c, r.0)
  {
    if cur.stage == -1 then UpdateMiss(c, nt, cur.Slot()) else UpdateHit(c, nt, cur.stage, cur.Slot())
  }

  datatype State = State(nt: Slots, queue: seq<Pending>, miss: nat)

  ghost predicate StateOk(c: Config, st: State) {
    c.Ok() && Sized(c, st.nt) && StageOk(c, st.queue)
  }

  predicate Due(c: Config, queue: seq<Pending>, now: real) {
    queue != [] && now - queue[0].ts > c.delta
  }

  ghost function Drain(c: Config, st: State, now: real): (r: State)
    requires StateOk(c, st)
    ensures StateOk(c, r)
    decreases |st.queue|
  {
    if Due(c, st.queue, now)
    then Drain(c, st.(nt := Update(c, st.nt, st.queue[0]).0, queue := st.queue[1..]), now)
    else st
  }

  /** The first stage from i on whose bucket holds fp, or -1. */
  ghost function StageOf(c: Config, nt: Slots, fp: Fp, i: nat): (r: int)
    requires c.Ok() && Sized(c, nt) && i <= c.stages
    ensures -1 <= r < c.stages
    decreases c.stages - i
  {
    if i == c.stages then -1
    else if Find(nt[i][c.Bucket(fp, i)], fp) < |nt[i][c.Bucket(fp, i)]| then i
    else StageOf(c, nt, fp, i + 1)
  }

  ghost function Arrive(c: Config, st: State, a: Arrival): (r: State)
    requires StateOk(c, st)
    ensures StateOk(c, r)
  {
    var stage := StageOf(c, st.nt, a.fp, 0);
    State(st.nt, st.queue + [Pending(a.fp, stage, a.now)], if stage == -1 then st.miss + 1 else st.miss)
  }

  ghost function Step(c: Config, st: State, a: Arrival): (r: State)
    requires StateOk(c, st)
    ensures StateOk(c, r)
  {
    Arrive(c, Drain(c, st, a.now), a)
  }

  ghost function Start(c: Config): (r: State)
    requires c.Ok()
    ensures StateOk(c, r)
  {
    State(seq(c.stages, _ => seq(c.len, _ => [])), [], 0)
  }

  ghost function Run(c: Config, s: seq<Arrival>): (r: State)
    requires c.Ok()
    ensures StateOk(c, r)
  {
    if s == [] then Start(c) else Step(c, Run(c, Init(s)), Last(s))
  }
}

/** The counters dup_cntr and the order ts_order are exactly the slots of all stages. */
module App2Books {
  import opened Options
  import opened Sequences
  import opened Stamps
  import opened App2Model

  // ---------- all slots as a multiset ----------

  ghost function StageSlots(bs: seq<Bucket>): multiset<Stamp> {
    if bs == [] then multiset{} else multiset(bs[0]) + StageSlots(bs[1..])
  }

  ghost function AllSlots(nt: Slots): multiset<Stamp> {
    if nt == [] then multiset{} else StageSlots(nt[0]) + AllSlots(nt[1..])
  }

  lemma {:induction false} AddToBoth<T>(a: multiset<T>, x: multiset<T>, m: multiset<T>, y: multiset<T>, n: multiset<T>)
    requires x + m == y + n
    ensures a + x + m == a + y + n
  {
    forall s: T | true ensures (a + x + m)[s] == (a + y + n)[s] {
      assert (x + m)[s] == (y + n)[s];
    }
  }

  /** From x + m = y + n and m + d = n + e follows x + e = y + d. */
  lemma {:induction false} Exchange<T>(x: multiset<T>, m: multiset<T>, y: multiset<T>, n: multiset<T>, d: multiset<T>,
                                       e: multiset<T>)
    requires x + m == y + n && n + e == m + d
    ensures x + e == y + d
  {
    forall s: T | true ensures (x + e)[s] == (y + d)[s] {
      assert (x + m)[s] == (y + n)[s] && (n + e)[s] == (m + d)[s];
    }
  }

  lemma {:induction false} StageWrite(bs: seq<Bucket>, p: nat, b: Bucket)
    requires p < |bs|
    ensures StageSlots(bs[p := b]) + multiset(bs[p]) == StageSlots(bs) + multiset(b)
  {
    if p == 0 {
      assert bs[p := b][1..] == bs[1..];
    } else {
      var rest, rest' := bs[1..], bs[1..][p - 1 := b];
      assert bs[p := b][1..] == rest' && rest[p - 1] == bs[p];
      StageWrite(rest, p - 1, b);
      AddToBoth(multiset(bs[0]), StageSlots(rest'), multiset(bs[p]), StageSlots(rest), multiset(b));
    }
  }

  lemma {:induction false} WriteSlots(nt: Slots, i: nat, p: nat, b: Bucket)
    requires i < |nt| && p < |nt[i]|
    ensures AllSlots(Write(nt, i, p, b)) + multiset(nt[i][p]) == AllSlots(nt) + multiset(b)
  {
    if i == 0 {
      StageWrite(nt[0], p, b);
      assert Write(nt, i, p, b)[1..] == nt[1..];
      var x, y, rest := StageSlots(nt[0][p := b]), StageSlots(nt[0]), AllSlots(nt[1..]);
      AddToBoth(rest, x, multiset(nt[0][p]), y, multiset(b));
      assert rest + x == x + rest && rest + y == y + rest;
    } else {
      var rest := nt[1..];
      assert Write(nt, i, p, b)[1..] == Write(rest, i - 1, p, b) && rest[i - 1] == nt[i];
      WriteSlots(rest, i - 1, p, b);
      AddToBoth(StageSlots(nt[0]), AllSlots(Write(rest, i - 1, p, b)), multiset(nt[i][p]), AllSlots(rest), multiset(b));
    }
  }

  ghost function Bag(o: Option<Stamp>): multiset<Stamp> {
    match o
    case None => multiset{}
    case Some(s) => multiset{s}
  }

  /** The slot with fingerprint fp that a refresh replaces, if any. */
  ghost function Replaced(b: Bucket, fp: Fp): Option<Stamp> {
    var i := Find(b, fp);
    if i < |b| then Some(b[i]) else None
  }

  lemma {:induction false} RemoveBag(b: Bucket, i: nat)
    requires i < |b|
    ensures multiset(Remove(b, i)) + multiset{b[i]} == multiset(b)
  {
    assert b == b[..i] + [b[i]] + b[i + 1..];
  }

  lemma {:induction false} RefreshBag(b: Bucket, s: Stamp)
    ensures multiset(Refresh(b, s)) + Bag(Replaced(b, s.fp)) == multiset(b) + multiset{s}
  {
    var i := Find(b, s.fp);
    if i < |b| {
      RemoveBag(b, i);
    }
  }

  lemma {:induction false} DropLastBag(b: Bucket)
    requires b != []
    ensures multiset(b[..|b| - 1]) + multiset{b[|b| - 1]} == multiset(b)
  {
    assert b == b[..|b| - 1] + [b[|b| - 1]];
  }

  lemma {:induction false} SwapBag(b: Bucket, i: nat, v: Stamp)
    requires i < |b|
    ensures multiset(b[i := v]) + multiset{b[i]} == multiset(b) + multiset{v}
  {
  }

  lemma {:induction false} AppendBag(b: Bucket, v: Stamp)
    ensures multiset(b + [v]) + multiset{} == multiset(b) + multiset{v}
  {
  }

  /** The cascade moves slots between stages and loses only the one it hands back. */
  lemma {:induction false} CascadeBag(c: Config, nt: Slots, i: nat, v: Stamp)
    requires c.Ok() && Sized(c, nt) && i <= c.stages
    ensures var r := Cascade(c, nt, i, v); AllSlots(r.0) + Bag(r.1) == AllSlots(nt) + multiset{v}
    decreases c.stages - i
  {
    if i < c.stages {
      var p := c.Bucket(v.fp, i);
      if |nt[i][p]| < c.k {
        RoomBag(nt, i, p, v);
      } else {
        var mid, last := FullStep(c, nt, i, v);
        CascadeBag(c, mid, i + 1, last);
      }
    }
  }

  /** One full bucket of the cascade. */
  lemma {:induction false} FullStep(c: Config, nt: Slots, i: nat, v: Stamp) returns (mid: Slots, last: Stamp)
    requires c.Ok() && Sized(c, nt) && i < c.stages && |nt[i][c.Bucket(v.fp, i)]| >= c.k
    ensures Sized(c, mid) && Cascade(c, nt, i, v) == Cascade(c, mid, i + 1, last)
    ensures AllSlots(mid) + multiset{last} == AllSlots(nt) + multiset{v}
  {
    var p := c.Bucket(v.fp, i);
    var b := nt[i][p];
    mid, last := Write(nt, i, p, b[c.k - 1 := v]), b[c.k - 1];
    FullBag(nt, i, p, c.k - 1, v);
  }

  /** A bucket with room takes the slot. */
  lemma {:induction false} RoomBag(nt: Slots, i: nat, p: nat, v: Stamp)
    requires i < |nt| && p < |nt[i]|
    ensures AllSlots(Write(nt, i, p, nt[i][p] + [v])) + Bag(None) == AllSlots(nt) + multiset{v}
  {
    AppendBag(nt[i][p], v);
    ChangeBag(nt, i, p, nt[i][p] + [v], multiset{v}, multiset{});
  }

  /** A full bucket takes the slot for its last one. */
  lemma {:induction false} FullBag(nt: Slots, i: nat, p: nat, j: nat, v: Stamp)
    requires i < |nt| && p < |nt[i]| && j < |nt[i][p]|
    ensures AllSlots(Write(nt, i, p, nt[i][p][j := v])) + multiset{nt[i][p][j]} == AllSlots(nt) + multiset{v}
  {
    SwapBag(nt[i][p], j, v);
    ChangeBag(nt, i, p, nt[i][p][j := v], multiset{v}, multiset{nt[i][p][j]});
  }

  /** Changing one bucket by some slots in and some out changes all slots by the same. */
  lemma {:induction false} ChangeBag(nt: Slots, i: nat, p: nat, b: Bucket, d: multiset<Stamp>, e: multiset<Stamp>)
    requires i < |nt| && p < |nt[i]| && multiset(b) + e == multiset(nt[i][p]) + d
    ensures AllSlots(Write(nt, i, p, b)) + e == AllSlots(nt) + d
  {
    WriteSlots(nt, i, p, b);
    Exchange(AllSlots(Write(nt, i, p, b)), multiset(nt[i][p]), AllSlots(nt), multiset(b), d, e);
  }

  /** The slot an update replaces: the first with its fingerprint in the bucket it goes to. */
  ghost function Displaced(c: Config, nt: Slots, cur: Pending): Option<Stamp>
    requires c.Ok() && Sized(c, nt) && -1 <= cur.stage < c.stages
  {
    var i := if cur.stage == -1 then 0 else cur.stage;
    Replaced(nt[i][c.Bucket(cur.fp, i)], cur.fp)
  }

  /** Putting back a bucket that gained d and lost e. */
  lemma {:induction false} SettleBag(c: Config, nt: Slots, i: nat, p: nat, b: Bucket, d: multiset<Stamp>,
                                     e: multiset<Stamp>)
    requires c.Ok() && Sized(c, nt) && i < c.stages && p < c.len
    requires multiset(b) + e == multiset(nt[i][p]) + d
    ensures var r := Settle(c, nt, i, p, b); AllSlots(r.0) + Bag(r.1) + e == AllSlots(nt) + d
  {
    if |b| > c.k {
      var rest, last := b[..|b| - 1], b[|b| - 1];
      DropLastBag(b);
      Regroup(multiset(rest), multiset{last}, e, multiset(rest), multiset{last});
      assert multiset(b) == multiset(rest) + multiset{last};
      ChangeBag(nt, i, p, rest, d, multiset{last} + e);
      var x := AllSlots(Write(nt, i, p, rest));
      Regroup(x, multiset{last}, e, x, multiset{last});
    } else {
      ChangeBag(nt, i, p, b, d, e);
      NothingMore(AllSlots(Write(nt, i, p, b)), e);
    }
  }

  lemma {:induction false} SettleFirstBag(c: Config, nt: Slots, p: nat, b: Bucket, d: multiset<Stamp>,
                                          e: multiset<Stamp>)
    requires c.Ok() && Sized(c, nt) && p < c.len
    requires multiset(b) + e == multiset(nt[0][p]) + d
    ensures var r := SettleFirst(c, nt, p, b); AllSlots(r.0) + Bag(r.1) + e == AllSlots(nt) + d
  {
    SettleBag(c, nt, 0, p, b, d, e);
    if |b| > c.k {
      var mid, last := Write(nt, 0, p, b[..|b| - 1]), b[|b| - 1];
      CascadeBag(c, mid, 1, last);
      var r := Cascade(c, mid, 1, last);
      assert AllSlots(r.0) + Bag(r.1) == AllSlots(mid) + Bag(Some(last));
    }
  }

  lemma {:induction false} NothingMore(x: multiset<Stamp>, e: multiset<Stamp>)
    ensures x + Bag(None) + e == x + e
  {
  }

  /** What an update does to the slots: its own slot enters, the slot it replaces and the one
      pushed out of the cache leave. */
  lemma {:induction false} UpdateBag(c: Config, nt: Slots, cur: Pending)
    requires c.Ok() && Sized(c, nt) && -1 <= cur.stage < c.stages
    ensures var r := Update(c, nt, cur);
            AllSlots(r.0) + Bag(r.1) + Bag(Displaced(c, nt, cur)) == AllSlots(nt) + multiset{cur.Slot()}
  {
    var s := cur.Slot();
    var i := if cur.stage == -1 then 0 else cur.stage;
    var p := c.Bucket(s.fp, i);
    RefreshBag(nt[i][p], s);
    if cur.stage == -1 {
      SettleFirstBag(c, nt, p, Refresh(nt[0][p], s), multiset{s}, Bag(Displaced(c, nt, cur)));
    } else {
      SettleBag(c, nt, i, p, Refresh(nt[i][p], s), multiset{s}, Bag(Displaced(c, nt, cur)));
    }
  }

  lemma {:induction false} Regroup<T>(x: multiset<T>, d: multiset<T>, e: multiset<T>, y: multiset<T>, f: multiset<T>)
    requires x + d == y + f
    ensures x + d + e == y + (f + e)
  {
  }

  // ---------- the shape of the buckets ----------

  /** At most k slots, all of fingerprints that hash here, and no duplicates in the first stage. */
  ghost predicate BucketOk(c: Config, i: nat, p: nat, b: Bucket)
    requires c.Ok()
  {
    && |b| <= c.k
    && Home(c, i, p, b)
  }

  ghost predicate Home(c: Config, i: nat, p: nat, b: Bucket)
    requires c.Ok()
  {
    && (forall x :: 0 <= x < |b| ==> c.Bucket(b[x].fp, i) == p)
    && (i == 0 ==> forall x, y :: 0 <= x < y < |b| ==> b[x].fp != b[y].fp)
  }

  ghost predicate Tidy(c: Config, nt: Slots)
    requires c.Ok()
  {
    Sized(c, nt) && forall i, p {:trigger BucketOk(c, i, p, nt[i][p])} ::
      0 <= i < c.stages && 0 <= p < c.len ==> BucketOk(c, i, p, nt[i][p])
  }

  lemma {:induction false} WriteTidy(c: Config, nt: Slots, i: nat, p: nat, b: Bucket)
    requires c.Ok() && Tidy(c, nt) && i < c.stages && p < c.len && BucketOk(c, i, p, b)
    ensures Tidy(c, Write(nt, i, p, b))
  {
    var nt' := Write(nt, i, p, b);
    forall j, q | 0 <= j < c.stages && 0 <= q < c.len ensures BucketOk(c, j, q, nt'[j][q]) {
      assert BucketOk(c, j, q, nt[j][q]);
    }
  }

  lemma {:induction false} RemoveHome(c: Config, i: nat, p: nat, b: Bucket, x: nat)
    requires c.Ok() && Home(c, i, p, b) && x < |b|
    ensures Home(c, i, p, Remove(b, x))
    ensures i == 0 ==> forall y :: 0 <= y < |b| - 1 ==> Remove(b, x)[y].fp != b[x].fp
  {
  }

  lemma {:induction false} FrontHome(c: Config, i: nat, p: nat, s: Stamp, b: Bucket)
    requires c.Ok() && Home(c, i, p, b) && c.Bucket(s.fp, i) == p
    requires i == 0 ==> forall y :: 0 <= y < |b| ==> b[y].fp != s.fp
    ensures Home(c, i, p, [s] + b)
  {
  }

  lemma {:induction false} RefreshHome(c: Config, i: nat, p: nat, b: Bucket, s: Stamp)
    requires c.Ok() && BucketOk(c, i, p, b) && c.Bucket(s.fp, i) == p
    ensures Home(c, i, p, Refresh(b, s)) && 0 < |Refresh(b, s)| <= c.k + 1
  {
    var x := Find(b, s.fp);
    if x < |b| {
      RemoveHome(c, i, p, b, x);
      FrontHome(c, i, p, s, Remove(b, x));
    } else {
      FrontHome(c, i, p, s, b);
    }
  }

  lemma {:induction false} CascadeTidy(c: Config, nt: Slots, i: nat, v: Stamp)
    requires c.Ok() && Tidy(c, nt) && 0 < i <= c.stages
    ensures Tidy(c, Cascade(c, nt, i, v).0)
    decreases c.stages - i
  {
    if i < c.stages {
      var p := c.Bucket(v.fp, i);
      var b := nt[i][p];
      assert BucketOk(c, i, p, b);
      if |b| < c.k {
        WriteTidy(c, nt, i, p, b + [v]);
      } else {
        WriteTidy(c, nt, i, p, b[c.k - 1 := v]);
        CascadeTidy(c, Write(nt, i, p, b[c.k - 1 := v]), i + 1, b[c.k - 1]);
      }
    }
  }

  /** An update keeps every bucket within K slots at its own hash position, the first stage
      without duplicates. */
  lemma {:induction false} UpdateTidy(c: Config, nt: Slots, cur: Pending)
    requires c.Ok() && Tidy(c, nt) && -1 <= cur.stage < c.stages
    ensures Tidy(c, Update(c, nt, cur).0)
  {
    var s := cur.Slot();
    var i := if cur.stage == -1 then 0 else cur.stage;
    var p := c.Bucket(s.fp, i);
    var b := Refresh(nt[i][p], s);
    assert BucketOk(c, i, p, nt[i][p]);
    RefreshHome(c, i, p, nt[i][p], s);
    var b' := if |b| > c.k then b[..|b| - 1] else b;
    WriteTidy(c, nt, i, p, b');
    if cur.stage == -1 && |b| > c.k {
      CascadeTidy(c, Write(nt, 0, p, b'), 1, b[|b| - 1]);
    }
  }

  // ---------- the books ----------

  /** dup_cntr holds the multiplicity of every slot and ts_order its keys. */
  ghost predicate Books(dup: map<Stamp, nat>, ts: set<Stamp>, m: multiset<Stamp>) {
    ts == dup.Keys && forall s :: (s in dup <==> s in m) && (s in dup ==> dup[s] == m[s])
  }

  function Inc(dup: map<Stamp, nat>, s: Stamp): map<Stamp, nat> {
    if s in dup then dup[s := dup[s] + 1] else dup[s := 1]
  }

  lemma {:induction false} IncBooks(dup: map<Stamp, nat>, ts: set<Stamp>, m: multiset<Stamp>, s: Stamp)
    requires Books(dup, ts, m)
    ensures Books(Inc(dup, s), ts + {s}, m + multiset{s})
  {
  }

  /** Taking a copy of s out of the books. */
  function Dec(dup: map<Stamp, nat>, s: Stamp): map<Stamp, nat>
    requires s in dup && dup[s] > 0
  {
    if dup[s] == 1 then dup - {s} else dup[s := dup[s] - 1]
  }

  function DecOrder(dup: map<Stamp, nat>, ts: set<Stamp>, s: Stamp): set<Stamp>
    requires s in dup
  {
    if dup[s] == 1 then ts - {s} else ts
  }

  lemma {:induction false} DecBooks(dup: map<Stamp, nat>, ts: set<Stamp>, m: multiset<Stamp>, s: Stamp)
    requires Books(dup, ts, m) && s in m
    ensures s in dup && dup[s] > 0 && s in ts
    ensures Books(Dec(dup, s), DecOrder(dup, ts, s), m - multiset{s})
  {
  }

  lemma {:induction false} KeysOfBag(ts: set<Stamp>, m: multiset<Stamp>)
    requires forall s :: s in ts ==> s in m
    ensures |ts| <= |m|
  {
    if ts != {} {
      var s :| s in ts;
      KeysOfBag(ts - {s}, m[s := 0]);
      assert m == m[s := 0] + multiset{s}[s := m[s]];
    }
  }

  lemma {:induction false} OneMore(cap: nat, n: nat)
    ensures cap * (n + 1) == cap * n + cap
  {
  }

  lemma {:induction false} SwapFactors(a: nat, b: nat, d: nat)
    ensures a * b * d == a * d * b
  {
  }

  lemma {:induction false} StageFits(bs: seq<Bucket>, k: nat)
    requires forall p :: 0 <= p < |bs| ==> |bs[p]| <= k
    ensures |StageSlots(bs)| <= k * |bs|
  {
    if bs != [] {
      var rest := bs[1..];
      StageFits(rest, k);
      OneMore(k, |rest|);
    }
  }

  lemma {:induction false} SlotsFit(nt: Slots, cap: nat)
    requires forall i :: 0 <= i < |nt| ==> |StageSlots(nt[i])| <= cap
    ensures |AllSlots(nt)| <= cap * |nt|
  {
    if nt != [] {
      var rest := nt[1..];
      SlotsFit(rest, cap);
      OneMore(cap, |rest|);
    }
  }

  lemma {:induction false} StageOfTidyFits(c: Config, nt: Slots, i: nat)
    requires c.Ok() && Tidy(c, nt) && i < c.stages
    ensures |StageSlots(nt[i])| <= c.k * c.len
  {
    forall p | 0 <= p < c.len ensures |nt[i][p]| <= c.k {
      assert BucketOk(c, i, p, nt[i][p]);
    }
    StageFits(nt[i], c.k);
  }

  /** The first assert of insert: ts_order never outgrows the cache. */
  lemma {:induction false} OrderFits(c: Config, nt: Slots, dup: map<Stamp, nat>, ts: set<Stamp>)
    requires c.Ok() && Tidy(c, nt) && Books(dup, ts, AllSlots(nt))
    ensures |ts| <= c.k * c.stages * c.len
  {
    forall i | 0 <= i < |nt| ensures |StageSlots(nt[i])| <= c.k * c.len {
      StageOfTidyFits(c, nt, i);
    }
    SlotsFit(nt, c.k * c.len);
    KeysOfBag(ts, AllSlots(nt));
    SwapFactors(c.k, c.len, c.stages);
  }

  /** Each copy the update takes out of the books is there to be taken, so every unchecked find
      succeeds, and in the end the books match the new slots. */
  lemma {:induction false} UpdateBooks(c: Config, nt: Slots, cur: Pending)
    requires c.Ok() && Sized(c, nt) && -1 <= cur.stage < c.stages
    ensures var m := AllSlots(nt) + multiset{cur.Slot()};
            var gone, out := Bag(Displaced(c, nt, cur)), Bag(Update(c, nt, cur).1);
            && gone <= m && out <= m - gone
            && AllSlots(Update(c, nt, cur).0) == m - gone - out
  {
    UpdateBag(c, nt, cur);
    TakeOut(AllSlots(Update(c, nt, cur).0), Bag(Update(c, nt, cur).1), Bag(Displaced(c, nt, cur)),
            AllSlots(nt) + multiset{cur.Slot()});
  }

  lemma {:induction false} TakeOut<T>(x: multiset<T>, d: multiset<T>, e: multiset<T>, m: multiset<T>)
    requires x + d + e == m
    ensures e <= m && d <= m - e && x == m - e - d
  {
  }
}
