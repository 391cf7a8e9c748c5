/** What an update of LRUIndex's cache moves, slot by slot, when it takes effect, and what a lookup
    finds. */
module App2Moves {
  import opened Options
  import opened Sequences
  import opened Stamps
  import opened Recency
  import opened App2Model
  import opened App2Books

  // ---------- the lookup ----------

  ghost predicate HasFp(b: Bucket, fp: Fp) { exists x :: x in b && x.fp == fp }

  /** Stage i holds fp in the bucket that fp hashes to. */
  ghost predicate InStage(c: Config, nt: Slots, fp: Fp, i: nat)
    requires c.Ok() && Sized(c, nt) && i < c.stages
  {
    HasFp(nt[i][c.Bucket(fp, i)], fp)
  }

  ghost predicate IsCached(c: Config, nt: Slots, fp: Fp)
    requires c.Ok() && Sized(c, nt)
  {
    exists i :: 0 <= i < c.stages && InStage(c, nt, fp, i)
  }

  /** stage is the first that holds fp, or -1 if none does. */
  ghost predicate FoundAt(c: Config, nt: Slots, fp: Fp, stage: int)
    requires c.Ok() && Sized(c, nt)
  {
    if IsCached(c, nt, fp) then
      0 <= stage < c.stages && InStage(c, nt, fp, stage) && forall j :: 0 <= j < stage ==> !InStage(c, nt, fp, j)
    else stage == -1
  }

  /** A lookup answers -1 if no stage holds fp, and otherwise the first stage that does. */
  lemma {:induction false} LookupFinds(c: Config, nt: Slots, fp: Fp, i: nat)
    requires c.Ok() && Sized(c, nt) && i <= c.stages
    ensures var r := StageOf(c, nt, fp, i);
            && (r == -1 <==> forall j :: i <= j < c.stages ==> !InStage(c, nt, fp, j))
            && (r != -1 ==> i <= r && InStage(c, nt, fp, r) && forall j :: i <= j < r ==> !InStage(c, nt, fp, j))
    decreases c.stages - i
  {
    if i < c.stages {
      var b := nt[i][c.Bucket(fp, i)];
      if Find(b, fp) < |b| {
        assert b[Find(b, fp)] in b;
        assert InStage(c, nt, fp, i);
      }
      LookupFinds(c, nt, fp, i + 1);
    }
  }

  // ---------- the moves ----------

  /** s stands in front of b, and the first slot of b with its fingerprint is gone. */
  ghost predicate Refreshed(b: Bucket, s: Stamp, e: Bucket) {
    if HasFp(b, s.fp) then exists j :: 0 <= j < |b| && IsFirst(b, j, s.fp) && e == [s] + b[..j] + b[j + 1..]
    else e == [s] + b
  }

  ghost predicate IsFirst(b: Bucket, j: nat, fp: Fp)
    requires j < |b|
  {
    b[j].fp == fp && forall x :: 0 <= x < j ==> b[x].fp != fp
  }

  lemma {:induction false} RefreshIs(b: Bucket, s: Stamp)
    ensures Refreshed(b, s, Refresh(b, s))
  {
    var j := Find(b, s.fp);
    if j < |b| {
      assert b[j] in b && IsFirst(b, j, s.fp);
      assert Refresh(b, s) == [s] + b[..j] + b[j + 1..];
    }
  }

  /** Only bucket p of stage i differs. */
  ghost predicate OnlyBucket(c: Config, nt: Slots, nt': Slots, i: nat, p: nat, b: Bucket)
    requires c.Ok() && Sized(c, nt) && Sized(c, nt')
  {
    forall j, q :: 0 <= j < c.stages && 0 <= q < c.len ==> nt'[j][q] == if j == i && q == p then b else nt[j][q]
  }

  /** A full bucket takes v for its last slot. */
  ghost predicate GivesUp(b: Bucket, b': Bucket, v: Stamp, last: Stamp, k: nat) {
    |b| == k > 0 && last == b[k - 1] && b' == b[..k - 1] + [v]
  }

  /** A bucket with room takes v behind its slots. */
  ghost predicate TakesIn(b: Bucket, b': Bucket, v: Stamp, k: nat) {
    |b| < k && b' == b + [v]
  }

  /** vs[0] goes to stage i, what it pushes out to stage i + 1 as vs[1], and so on; the last finds
      room, or there is no further stage and it is out. */
  ghost predicate Moves(c: Config, nt: Slots, nt': Slots, i: nat, vs: seq<Stamp>, out: Option<Stamp>)
    requires c.Ok() && Sized(c, nt) && Sized(c, nt')
  {
    && vs != [] && i + |vs| - 1 <= c.stages
    && (forall j :: i <= j < i + |vs| - 1 ==>
          var p := c.Bucket(vs[j - i].fp, j); GivesUp(nt[j][p], nt'[j][p], vs[j - i], vs[j - i + 1], c.k))
    && (var j, v := i + |vs| - 1, Last(vs);
        if j == c.stages then out == Some(v)
        else out == None && var p := c.Bucket(v.fp, j); TakesIn(nt[j][p], nt'[j][p], v, c.k))
    && (forall j, q :: 0 <= j < c.stages && 0 <= q < c.len && !(i <= j < i + |vs| && q == c.Bucket(vs[j - i].fp, j)) ==>
          nt'[j][q] == nt[j][q])
  }

  ghost predicate Bounded(c: Config, nt: Slots)
    requires c.Ok() && Sized(c, nt)
  {
    forall i, p :: 0 <= i < c.stages && 0 <= p < c.len ==> |nt[i][p]| <= c.k
  }

  /** What the cascade does. */
  lemma {:induction false} CascadeMoves(c: Config, nt: Slots, i: nat, v: Stamp) returns (vs: seq<Stamp>)
    requires c.Ok() && Sized(c, nt) && Bounded(c, nt) && i <= c.stages
    ensures vs != [] && vs[0] == v
    ensures var r := Cascade(c, nt, i, v); Moves(c, nt, r.0, i, vs, r.1)
    decreases c.stages - i
  {
    if i == c.stages {
      vs := [v];
    } else {
      var p := c.Bucket(v.fp, i);
      var b := nt[i][p];
      if |b| < c.k {
        vs := [v];
        FindsRoom(c, nt, i, v);
      } else {
        var mid := Write(nt, i, p, b[c.k - 1 := v]);
        var more := CascadeMoves(c, mid, i + 1, b[c.k - 1]);
        vs := [v] + more;
        OneMoreMove(c, nt, mid, Cascade(c, nt, i, v).0, i, v, more, Cascade(c, nt, i, v).1);
      }
    }
  }

  lemma {:induction false} FindsRoom(c: Config, nt: Slots, i: nat, v: Stamp)
    requires c.Ok() && Sized(c, nt) && i < c.stages && |nt[i][c.Bucket(v.fp, i)]| < c.k
    ensures var p := c.Bucket(v.fp, i); Moves(c, nt, Write(nt, i, p, nt[i][p] + [v]), i, [v], None)
  {
  }

  lemma {:induction false} OneMoreMove(c: Config, nt: Slots, mid: Slots, nt': Slots, i: nat, v: Stamp,
                                       vs: seq<Stamp>, out: Option<Stamp>)
    requires c.Ok() && Sized(c, nt) && Sized(c, mid) && Sized(c, nt') && i < c.stages
    requires Moves(c, mid, nt', i + 1, vs, out)
    requires var p := c.Bucket(v.fp, i);
             GivesUp(nt[i][p], mid[i][p], v, vs[0], c.k) && OnlyBucket(c, nt, mid, i, p, mid[i][p])
    ensures Moves(c, nt, nt', i, [v] + vs, out)
  {
    var ws := [v] + vs;
    assert Last(ws) == Last(vs);
    forall j | i <= j < i + |ws| - 1
      ensures var p := c.Bucket(ws[j - i].fp, j); GivesUp(nt[j][p], nt'[j][p], ws[j - i], ws[j - i + 1], c.k)
    {
      if j > i { assert ws[j - i] == vs[j - (i + 1)]; }
    }
    forall j, q | 0 <= j < c.stages && 0 <= q < c.len && !(i <= j < i + |ws| && q == c.Bucket(ws[j - i].fp, j))
      ensures nt'[j][q] == nt[j][q]
    {
      if i < j < i + |ws| { assert ws[j - i] == vs[j - (i + 1)]; }
      assert nt'[j][q] == mid[j][q];
    }
  }

  /** One update: its slot goes to the front of its bucket in the stage where the lookup found its
      fingerprint, or in the first.  The last slot of a bucket that gets too big is out, unless
      nothing had been found; then it moves through the further stages. */
  ghost predicate Updated(c: Config, nt: Slots, cur: Pending, nt': Slots, out: Option<Stamp>, e: Bucket, vs: seq<Stamp>)
    requires c.Ok() && Sized(c, nt) && Sized(c, nt') && -1 <= cur.stage < c.stages
  {
    var i := if cur.stage == -1 then 0 else cur.stage;
    var p := c.Bucket(cur.fp, i);
    && Refreshed(nt[i][p], cur.Slot(), e)
    && if |e| <= c.k then OnlyBucket(c, nt, nt', i, p, e) && out == None
       else if cur.stage != -1 then OnlyBucket(c, nt, nt', i, p, e[..c.k]) && out == Some(e[c.k])
       else vs != [] && vs[0] == e[c.k] && Moves(c, nt[0 := nt[0][p := e[..c.k]]], nt', 1, vs, out)
  }

  lemma {:induction false} UpdateMoves(c: Config, nt: Slots, cur: Pending) returns (e: Bucket, vs: seq<Stamp>)
    requires c.Ok() && Tidy(c, nt) && -1 <= cur.stage < c.stages
    ensures var r := Update(c, nt, cur); Updated(c, nt, cur, r.0, r.1, e, vs)
  {
    var i := if cur.stage == -1 then 0 else cur.stage;
    var p, s := c.Bucket(cur.fp, i), cur.Slot();
    e, vs := Refresh(nt[i][p], s), [];
    RefreshIs(nt[i][p], s);
    TidyIsBounded(c, nt);
    RefreshSize(nt[i][p], s);
    if |e| > c.k && cur.stage == -1 {
      var mid := Write(nt, 0, p, e[..c.k]);
      vs := CascadeMoves(c, mid, 1, e[c.k]);
    }
  }

  lemma {:induction false} RefreshSize(b: Bucket, s: Stamp)
    ensures |b| <= |Refresh(b, s)| <= |b| + 1
  {
  }

  lemma {:induction false} TidyIsBounded(c: Config, nt: Slots)
    requires c.Ok() && Tidy(c, nt)
    ensures Bounded(c, nt)
  {
    forall i, p | 0 <= i < c.stages && 0 <= p < c.len ensures |nt[i][p]| <= c.k {
      assert BucketOk(c, i, p, nt[i][p]);
    }
  }

  // ---------- when an access takes effect ----------

  /** The accesses of a run with what each lookup answered. */
  ghost function History(c: Config, s: seq<Arrival>): (h: seq<Pending>)
    requires c.Ok()
    ensures |h| == |s| && StageOk(c, h)
  {
    if s == [] then [] else History(c, Init(s)) + [LookedUp(c, s)]
  }

  ghost function LookedUp(c: Config, s: seq<Arrival>): (cur: Pending)
    requires c.Ok() && s != []
    ensures -1 <= cur.stage < c.stages && cur.fp == Last(s).fp && cur.ts == Last(s).now
  {
    var nt := Drain(c, Run(c, Init(s)), Last(s).now).nt;
    Pending(Last(s).fp, StageOf(c, nt, Last(s).fp, 0), Last(s).now)
  }

  lemma {:induction false} HistoryAt(c: Config, s: seq<Arrival>, i: nat)
    requires c.Ok() && i < |s|
    ensures History(c, s)[i].fp == s[i].fp && History(c, s)[i].ts == s[i].now
  {
    var before, x := History(c, Init(s)), LookedUp(c, s);
    assert (before + [x])[i] == if i < |s| - 1 then before[i] else x;
    if i < |s| - 1 { HistoryAt(c, Init(s), i); }
  }

  /** The table after these updates, one after the other. */
  ghost function Updates(c: Config, h: seq<Pending>): (nt: Slots)
    requires c.Ok() && StageOk(c, h)
    ensures Sized(c, nt)
  {
    if h == [] then Start(c).nt else Update(c, Updates(c, Init(h)), Last(h)).0
  }

  /** Of all accesses so far the first n have taken effect and the others wait. */
  ghost predicate Effective(c: Config, all: seq<Pending>, st: State, n: nat)
    requires c.Ok() && StageOk(c, all)
  {
    n <= |all| && st.nt == Updates(c, all[..n]) && st.queue == all[n..]
  }

  /** The first of the queue takes effect. */
  ghost function Applied(c: Config, st: State): (next: State)
    requires StateOk(c, st) && st.queue != []
    ensures StateOk(c, next)
  {
    st.(nt := Update(c, st.nt, st.queue[0]).0, queue := st.queue[1..])
  }

  lemma {:induction false} EffectiveNext(c: Config, all: seq<Pending>, st: State, n: nat)
    requires StateOk(c, st) && StageOk(c, all) && Effective(c, all, st, n) && st.queue != []
    ensures n < |all| && st.queue[0] == all[n] && Effective(c, all, Applied(c, st), n + 1)
  {
    assert Init(all[..n + 1]) == all[..n] && Last(all[..n + 1]) == all[n];
  }

  lemma {:induction false} DrainTakesEffect(c: Config, all: seq<Pending>, st: State, n: nat, now: real) returns (m: nat)
    requires StateOk(c, st) && StageOk(c, all) && Effective(c, all, st, n)
    ensures n <= m && Effective(c, all, Drain(c, st, now), m) && PastFrom(all, n, m, now, c.delta)
    decreases |st.queue|
  {
    if Due(c, st.queue, now) {
      EffectiveNext(c, all, st, n);
      m := DrainTakesEffect(c, all, Applied(c, st), n + 1, now);
      assert Drain(c, st, now) == Drain(c, Applied(c, st), now);
      PastLonger(all, n, m, now, c.delta);
    } else {
      m := n;
      NothingPast(c, all, st, n, now);
    }
  }

  /** From the n-th on these lie more than delta back up to the m-th, which does not. */
  ghost predicate PastFrom(all: seq<Pending>, n: nat, m: nat, now: real, delta: real) {
    && m <= |all| && (forall i :: n <= i < m ==> now - all[i].ts > delta)
    && (m < |all| ==> now - all[m].ts <= delta)
  }

  lemma {:induction false} PastLonger(all: seq<Pending>, n: nat, m: nat, now: real, delta: real)
    requires n < |all| && now - all[n].ts > delta && PastFrom(all, n + 1, m, now, delta)
    ensures PastFrom(all, n, m, now, delta)
  {
  }

  lemma {:induction false} NothingPast(c: Config, all: seq<Pending>, st: State, n: nat, now: real)
    requires StateOk(c, st) && StageOk(c, all) && Effective(c, all, st, n)
    requires st.queue == [] || now - st.queue[0].ts <= c.delta
    ensures PastFrom(all, n, n, now, c.delta)
  {
  }

  /** No packet comes before an earlier one. */
  ghost predicate InTime(s: seq<Arrival>) {
    forall i, j :: 0 <= i < j < |s| ==> s[i].now <= s[j].now
  }

  /** At any moment from the last packet on, with what is due applied: the accesses that lie more than
      delta back have been applied, each once and in their order, and no others. */
  lemma {:induction false} EffectiveAfterDelta(c: Config, s: seq<Arrival>, now: real) returns (m: nat)
    requires c.Ok() && InTime(s) && (s != [] ==> Last(s).now <= now)
    ensures Effective(c, History(c, s), Drain(c, Run(c, s), now), m)
    ensures forall i :: 0 <= i < |s| ==> (i < m <==> now - s[i].now > c.delta)
    decreases |s|
  {
    var all := History(c, s);
    forall i | 0 <= i < |s| ensures all[i].fp == s[i].fp && all[i].ts == s[i].now {
      HistoryAt(c, s, i);
    }
    if s == [] {
      m := DrainTakesEffect(c, [], Start(c), 0, now);
    } else {
      var n := EffectiveAfterDelta(c, Init(s), Last(s).now);
      ArriveWaits(c, s, n);
      m := DrainTakesEffect(c, all, Run(c, s), n, now);
      SplitByTime(s, c.delta, Last(s).now, now, n, m);
    }
  }

  lemma {:induction false} SplitByTime(s: seq<Arrival>, delta: real, t1: real, t2: real, n: nat, m: nat)
    requires s != [] && InTime(s) && n <= m <= |s| && n < |s| && t1 <= t2
    requires forall i :: 0 <= i < n ==> t1 - Init(s)[i].now > delta
    requires forall i :: n <= i < m ==> t2 - s[i].now > delta
    requires m < |s| ==> t2 - s[m].now <= delta
    ensures forall i :: 0 <= i < |s| ==> (i < m <==> t2 - s[i].now > delta)
  {
    forall i | 0 <= i < n ensures t2 - s[i].now > delta {
      assert Init(s)[i] == s[i];
    }
  }

  /** An arrival only joins the queue. */
  lemma {:induction false} ArriveWaits(c: Config, s: seq<Arrival>, n: nat)
    requires c.Ok() && s != [] && Effective(c, History(c, Init(s)), Drain(c, Run(c, Init(s)), Last(s).now), n)
    ensures Effective(c, History(c, s), Run(c, s), n)
  {
    var before, all := History(c, Init(s)), History(c, s);
    assert all == before + [LookedUp(c, s)];
    assert all[..n] == before[..n] && all[n..] == before[n..] + [LookedUp(c, s)];
  }

  /** A packet is a miss if and only if its fingerprint is in no stage once the accesses more than
      delta before it have been applied. */
  lemma {:induction false} MissIffNotCached(c: Config, s: seq<Arrival>) returns (m: nat)
    requires c.Ok() && s != [] && InTime(s)
    ensures m < |s| && forall i :: 0 <= i < |s| - 1 ==> (i < m <==> Last(s).now - s[i].now > c.delta)
    ensures Run(c, s).miss
         == Run(c, Init(s)).miss + if IsCached(c, Updates(c, History(c, Init(s))[..m]), Last(s).fp) then 0 else 1
  {
    var t, a := Init(s), Last(s);
    m := EffectiveAfterDelta(c, t, a.now);
    forall i | 0 <= i < |s| - 1 ensures i < m <==> a.now - s[i].now > c.delta {
      assert t[i] == s[i];
    }
    DrainKeepsMiss(c, Run(c, t), a.now);
    LookupFinds(c, Drain(c, Run(c, t), a.now).nt, a.fp, 0);
  }

  lemma {:induction false} DrainKeepsMiss(c: Config, st: State, now: real)
    requires StateOk(c, st)
    ensures Drain(c, st, now).miss == st.miss
    decreases |st.queue|
  {
    if Due(c, st.queue, now) {
      DrainKeepsMiss(c, st.(nt := Update(c, st.nt, st.queue[0]).0, queue := st.queue[1..]), now);
    }
  }

  // ---------- the first stage ----------

  function Fps(b: Bucket): (o: seq<Fp>)
    ensures |o| == |b| && forall i :: 0 <= i < |b| ==> o[i] == b[i].fp
  {
    seq(|b|, i requires 0 <= i < |b| => b[i].fp)
  }

  /** The fingerprints that updates bring to bucket p of the first stage. */
  ghost function ToFirst(c: Config, h: seq<Pending>, p: nat): seq<Fp>
    requires c.Ok()
  {
    if h == [] then []
    else if Last(h).stage <= 0 && c.Bucket(Last(h).fp, 0) == p then ToFirst(c, Init(h), p) + [Last(h).fp]
    else ToFirst(c, Init(h), p)
  }

  lemma {:induction false} CascadeKeepsFirst(c: Config, nt: Slots, i: nat, v: Stamp)
    requires c.Ok() && Sized(c, nt) && 0 < i <= c.stages
    ensures Cascade(c, nt, i, v).0[0] == nt[0]
    decreases c.stages - i
  {
    if i < c.stages {
      var p := c.Bucket(v.fp, i);
      if |nt[i][p]| >= c.k {
        CascadeKeepsFirst(c, Write(nt, i, p, nt[i][p][c.k - 1 := v]), i + 1, nt[i][p][c.k - 1]);
      }
    }
  }

  function Cut(e: Bucket, k: nat): Bucket { if |e| > k then e[..|e| - 1] else e }

  lemma {:induction false} SettleFirstIs(c: Config, nt: Slots, p: nat, e: Bucket)
    requires c.Ok() && Sized(c, nt) && p < c.len
    ensures SettleFirst(c, nt, p, e).0[0] == nt[0][p := Cut(e, c.k)]
  {
    if |e| > c.k {
      CascadeKeepsFirst(c, Write(nt, 0, p, e[..|e| - 1]), 1, e[|e| - 1]);
    }
  }

  lemma {:induction false} SettleIs(c: Config, nt: Slots, i: nat, p: nat, e: Bucket)
    requires c.Ok() && Sized(c, nt) && i < c.stages && p < c.len
    ensures Settle(c, nt, i, p, e).0[0] == if i > 0 then nt[0] else nt[0][p := Cut(e, c.k)]
  {
  }

  /** What an update does to the first stage. */
  lemma {:induction false} UpdateFirst(c: Config, nt: Slots, cur: Pending)
    requires c.Ok() && Sized(c, nt) && -1 <= cur.stage < c.stages
    ensures var p := c.Bucket(cur.fp, 0);
            Update(c, nt, cur).0[0] ==
            if cur.stage > 0 then nt[0] else nt[0][p := Cut(Refresh(nt[0][p], cur.Slot()), c.k)]
  {
    if cur.stage == -1 {
      var p := c.Bucket(cur.fp, 0);
      SettleFirstIs(c, nt, p, Refresh(nt[0][p], cur.Slot()));
    } else {
      var p := c.Bucket(cur.fp, cur.stage);
      SettleIs(c, nt, cur.stage, p, Refresh(nt[cur.stage][p], cur.Slot()));
    }
  }

  lemma {:induction false} RefreshIsRecent(b: Bucket, t: seq<Fp>, k: nat, s: Stamp)
    requires MostRecent(Fps(b), t, k) && k > 0
    ensures MostRecent(Fps(Cut(Refresh(b, s), k)), t + [s.fp], k)
  {
    if Find(b, s.fp) < |b| {
      HeldIsRecent(b, t, k, s);
    } else {
      assert forall i :: 0 <= i < |b| ==> Fps(b)[i] != s.fp;
      EnterFront(Fps(b), t, k, s.fp);
      FpsOfCut(b, k, s);
    }
  }

  lemma {:induction false} HeldIsRecent(b: Bucket, t: seq<Fp>, k: nat, s: Stamp)
    requires MostRecent(Fps(b), t, k) && Find(b, s.fp) < |b|
    ensures MostRecent(Fps(Cut(Refresh(b, s), k)), t + [s.fp], k)
  {
    var j := Find(b, s.fp);
    assert Fps(b)[j] == s.fp;
    MoveToFront(Fps(b), t, k, j);
    FpsOfMoved(b, k, s, j);
  }

  lemma {:induction false} FpsOfMoved(b: Bucket, k: nat, s: Stamp, j: nat)
    requires |b| <= k && j == Find(b, s.fp) < |b|
    ensures Fps(Cut(Refresh(b, s), k)) == [s.fp] + (Fps(b)[..j] + Fps(b)[j + 1..])
  {
    var e, o := Refresh(b, s), [s.fp] + (Fps(b)[..j] + Fps(b)[j + 1..]);
    assert |e| == |b| && Cut(e, k) == e;
    forall x | 0 <= x < |b| ensures e[x].fp == o[x] {
    }
  }

  lemma {:induction false} FpsOfCut(b: Bucket, k: nat, s: Stamp)
    requires |b| <= k && k > 0
    ensures Fps(Cut([s] + b, k)) == [s.fp] + if |b| < k then Fps(b) else Fps(b)[..|b| - 1]
  {
  }

  /** Each bucket of the first stage holds the k fingerprints that updates brought to it most recently,
      the most recent first; with one stage these are all that hash to it. */
  lemma {:induction false} FirstStageIsRecent(c: Config, h: seq<Pending>, p: nat)
    requires c.Ok() && StageOk(c, h) && p < c.len
    ensures MostRecent(Fps(Updates(c, h)[0][p]), ToFirst(c, h, p), c.k)
  {
    if h == [] {
      NoneSent<Fp>(c.k);
      assert Fps(Updates(c, h)[0][p]) == [];
    } else {
      var nt, cur := Updates(c, Init(h)), Last(h);
      FirstStageIsRecent(c, Init(h), p);
      UpdateFirst(c, nt, cur);
      assert Updates(c, h)[0] == Update(c, nt, cur).0[0];
      if cur.stage <= 0 && c.Bucket(cur.fp, 0) == p {
        RefreshIsRecent(nt[0][p], ToFirst(c, Init(h), p), c.k, cur.Slot());
      } else {
        assert Updates(c, h)[0][p] == nt[0][p];
      }
    }
  }
}
