/** What a packet moves in the counter cache, and which packets the filter lets through. */
module App6Moves {
  import opened Options
  import opened Sequences
  import opened Recency
  import opened App6Model
  import opened App6Counts

  // ---------- the stages ----------

  /** The first slot of s's fingerprint gives its counter to s, which stands in front. */
  ghost predicate FindsIt(b: Bucket, b': Bucket, s: Slot) {
    exists j: nat :: FindsAt(b, b', s, j)
  }

  ghost predicate FindsAt(b: Bucket, b': Bucket, s: Slot, j: nat) {
    && j < |b| && b[j].fp == s.fp && (forall x :: 0 <= x < j ==> b[x].fp != s.fp)
    && b' == [Slot(s.fp, s.counter + b[j].counter)] + (b[..j] + b[j + 1..])
  }

  ghost predicate Lacks(b: Bucket, fp: Fp) { forall j :: 0 <= j < |b| ==> b[j].fp != fp }

  ghost predicate FindsRoom(b: Bucket, b': Bucket, s: Slot, k: nat) {
    Lacks(b, s.fp) && |b| < k && b' == [s] + b
  }

  ghost predicate PushesOut(b: Bucket, b': Bucket, s: Slot, last: Slot, k: nat) {
    Lacks(b, s.fp) && |b| == k > 0 && last == b[k - 1] && b' == [s] + b[..k - 1]
  }

  /** vs[0] enters stage i, what it pushes out enters stage i + 1 as vs[1], and so on; the last finds
      its fingerprint, or room, or there is no further stage and it is out.  It was a miss unless the
      last found its fingerprint. */
  ghost predicate Moves<K>(c: Config<K>, nt: Slots, nt': Slots, i: nat, vs: seq<Slot>, out: Option<Slot>, missed: bool)
    requires c.Ok() && Sized(c, nt) && Sized(c, nt')
  {
    && vs != [] && i + |vs| - 1 <= c.stages
    && (forall j :: i <= j < i + |vs| - 1 ==>
          var p := c.Place(vs[j - i].fp, j); PushesOut(nt[j][p], nt'[j][p], vs[j - i], vs[j - i + 1], c.k))
    && (var j, s := i + |vs| - 1, Last(vs);
        if j == c.stages then out == Some(s) && missed
        else
          var p := c.Place(s.fp, j);
          out == None && if missed then FindsRoom(nt[j][p], nt'[j][p], s, c.k) else FindsIt(nt[j][p], nt'[j][p], s))
    && (forall j, q :: 0 <= j < c.stages && 0 <= q < c.len && !(i <= j < i + |vs| && q == c.Place(vs[j - i].fp, j)) ==>
          nt'[j][q] == nt[j][q])
  }

  lemma {:induction false} ToFrontIs(b: Bucket, s: Slot)
    ensures var e := ToFront(b, s.fp, s.counter);
            if Lacks(b, s.fp) then e == [s] + b else FindsIt(b, e, s) && |e| == |b|
  {
    var j := Find(b, s.fp);
    if j < |b| {
      assert FindsAt(b, ToFront(b, s.fp, s.counter), s, j);
    }
  }

  lemma {:induction false} ToFrontPushes(b: Bucket, s: Slot, k: nat)
    requires |b| <= k && k > 0 && |ToFront(b, s.fp, s.counter)| > k
    ensures var e := ToFront(b, s.fp, s.counter); PushesOut(b, Init(e), s, Last(e), k)
  {
    ToFrontIs(b, s);
    assert Lacks(b, s.fp);
    assert Init([s] + b) == [s] + b[..k - 1];
  }

  /** What the stages do to a counter. */
  lemma {:induction false} CascadeMoves<K>(c: Config<K>, nt: Slots, i: nat, s: Slot) returns (vs: seq<Slot>)
    requires c.Ok() && Tidy(c, nt) && i <= c.stages
    ensures vs != [] && vs[0] == s
    ensures var r := Cascade(c, nt, i, s); Moves(c, nt, r.0, i, vs, r.1, r.2)
    decreases c.stages - i
  {
    vs := [s];
    if i < c.stages {
      var p := c.Place(s.fp, i);
      var b := nt[i][p];
      var e := ToFront(b, s.fp, s.counter);
      assert BucketOk(c, b, i, p);
      ToFrontIs(b, s);
      if |e| == |b| || |e| <= c.k {
        StopsHere(c, nt, i, s, e);
      } else {
        var mid, r := Write(nt, i, p, Init(e)), Cascade(c, nt, i, s);
        StageKeeps(c, nt, i, s);
        var more := CascadeMoves(c, mid, i + 1, Last(e));
        vs := [s] + more;
        ToFrontPushes(b, s, c.k);
        OneMoreMove(c, nt, mid, r.0, i, s, more, r.1, r.2);
      }
    }
  }

  lemma {:induction false} StopsHere<K>(c: Config<K>, nt: Slots, i: nat, s: Slot, e: Bucket)
    requires c.Ok() && Sized(c, nt) && i < c.stages
    requires var b := nt[i][c.Place(s.fp, i)];
             if |e| == |b| then FindsIt(b, e, s) else FindsRoom(b, e, s, c.k)
    ensures var p := c.Place(s.fp, i);
            Moves(c, nt, Write(nt, i, p, e), i, [s], None, |e| != |nt[i][p]|)
  {
  }

  lemma {:induction false} OneMoreMove<K>(c: Config<K>, nt: Slots, mid: Slots, nt': Slots, i: nat, s: Slot,
                                          vs: seq<Slot>, out: Option<Slot>, missed: bool)
    requires c.Ok() && Sized(c, nt) && Sized(c, mid) && Sized(c, nt') && i < c.stages
    requires Moves(c, mid, nt', i + 1, vs, out, missed)
    requires var p := c.Place(s.fp, i);
             PushesOut(nt[i][p], mid[i][p], s, vs[0], c.k) && mid == Write(nt, i, p, mid[i][p])
    ensures Moves(c, nt, nt', i, [s] + vs, out, missed)
  {
    var ws := [s] + vs;
    assert Last(ws) == Last(vs);
    forall j | i <= j < i + |ws| - 1
      ensures var p := c.Place(ws[j - i].fp, j); PushesOut(nt[j][p], nt'[j][p], ws[j - i], ws[j - i + 1], c.k)
    {
      if j > i { assert ws[j - i] == vs[j - (i + 1)]; }
    }
    forall j, q | 0 <= j < c.stages && 0 <= q < c.len && !(i <= j < i + |ws| && q == c.Place(ws[j - i].fp, j))
      ensures nt'[j][q] == nt[j][q]
    {
      if i < j < i + |ws| { assert ws[j - i] == vs[j - (i + 1)]; }
      assert nt'[j][q] == mid[j][q];
    }
  }

  // ---------- the filter ----------

  /** The item that opened the burst now going on at place p of the filter, or -1 for the burst that
      lasts from time zero: an item opens one when it comes more than the interval after the last. */
  function Opener<K>(c: Config<K>, trace: seq<Item<K>>, p: nat): (o: int)
    requires c.Ok()
    ensures -1 <= o < |trace|
  {
    if trace == [] then -1
    else
      var o := Opener(c, Init(trace), p);
      if FilterPlace(c, Last(trace)) == p && Last(trace).ts - OpenedAt(Init(trace), o) > c.interval then |trace| - 1
      else o
  }

  function OpenedAt<K>(trace: seq<Item<K>>, o: int): real
    requires -1 <= o < |trace|
  {
    if o == -1 then 0.0 else trace[o].ts
  }

  /** The items at place p behind the first n. */
  function After<K>(c: Config<K>, trace: seq<Item<K>>, n: nat, p: nat): nat
    requires c.Ok()
  {
    if |trace| <= n then 0 else After(c, Init(trace), n, p) + if FilterPlace(c, Last(trace)) == p then 1 else 0
  }

  /** What a place of the filter holds: when its burst was opened, and the size of the item that opened
      it and one for each item since. */
  lemma {:induction false} FilterByHistory<K>(c: Config<K>, trace: seq<Item<K>>, p: nat)
    requires c.Ok() && p < c.filterLen
    ensures var o := Opener(c, trace, p);
            Run(c, trace).filter[p]
            == FilterSlot(OpenedAt(trace, o), (if o == -1 then 0 else trace[o].size) + After(c, trace, o + 1, p))
  {
    if trace != [] {
      FilterByHistory(c, Init(trace), p);
      FilterOfStep(c, Run(c, Init(trace)), Last(trace), p);
    }
  }

  lemma {:induction false} FilterOfStep<K>(c: Config<K>, s: State, item: Item<K>, p: nat)
    requires c.Ok() && Fits(c, s) && p < c.filterLen
    ensures Insert(c, s, item).filter[p] ==
            if FilterPlace(c, item) != p then s.filter[p]
            else if item.ts - s.filter[p].ts <= c.interval then s.filter[p].(counter := s.filter[p].counter + 1)
            else FilterSlot(item.ts, item.size)
  {
  }

  /** An item belongs to the burst at its place. */
  predicate InBurst<K>(c: Config<K>, trace: seq<Item<K>>, item: Item<K>)
    requires c.Ok()
  {
    item.ts - OpenedAt(trace, Opener(c, trace, FilterPlace(c, item))) <= c.interval
  }

  /** And the burst is big enough. */
  predicate BigEnough<K>(c: Config<K>, trace: seq<Item<K>>, item: Item<K>)
    requires c.Ok()
  {
    var p := FilterPlace(c, item);
    var o := Opener(c, trace, p);
    (if o == -1 then 0 else trace[o].size) + After(c, trace, o + 1, p) + item.size >= c.threshold
  }

  /** Which items are let through, told from the items alone. */
  lemma {:induction false} AdmittedIff<K>(c: Config<K>, trace: seq<Item<K>>, item: Item<K>)
    requires c.Ok()
    ensures Admits(c, Run(c, trace), item) <==> InBurst(c, trace, item) && BigEnough(c, trace, item)
  {
    FilterByHistory(c, trace, FilterPlace(c, item));
  }

  /** The item has been sent through the stages, and its misses counted. */
  ghost predicate SentThrough<K>(c: Config<K>, s: State, r: State, fp: Fp, vs: seq<Slot>)
    requires c.Ok() && Fits(c, s) && Fits(c, r)
  {
    && vs != [] && vs[0] == Slot(fp, 1)
    && exists out, missed ::
         Moves(c, s.nt, r.nt, 0, vs, out, missed) && r.misses == s.misses + if missed then 1 else 0
  }

  lemma {:induction false} InsertSends<K>(c: Config<K>, s: State, item: Item<K>) returns (vs: seq<Slot>)
    requires c.Ok() && Fits(c, s) && Tidy(c, s.nt) && Admits(c, s, item)
    ensures var r := Insert(c, s, item);
            r.items == s.items + 1 && r.discarded == s.discarded && SentThrough(c, s, r, c.fingerprint(item.key), vs)
  {
    vs := CascadeMoves(c, s.nt, 0, Slot(c.fingerprint(item.key), 1));
    var r := Cascade(c, s.nt, 0, Slot(c.fingerprint(item.key), 1));
    assert Moves(c, s.nt, r.0, 0, vs, r.1, r.2);
    assert Insert(c, s, item).nt == r.0;
  }

  lemma {:induction false} InsertHolds<K>(c: Config<K>, s: State, item: Item<K>)
    requires c.Ok() && Fits(c, s) && !Admits(c, s, item)
    ensures var r, p := Insert(c, s, item), FilterPlace(c, item);
            && r.nt == s.nt && r.items == s.items && r.misses == s.misses
            && r.discarded == s.discarded + if item.ts - s.filter[p].ts <= c.interval then 1 else 0
  {
  }

  /** What an item does: it is counted, and it opens a burst, is discarded, or is sent through the
      stages. */
  lemma {:induction false} InsertByHistory<K>(c: Config<K>, trace: seq<Item<K>>, item: Item<K>) returns (vs: seq<Slot>)
    requires c.Ok()
    ensures var s, r := Run(c, trace), Insert(c, Run(c, trace), item);
            && r.total == s.total + 1
            && if InBurst(c, trace, item) && BigEnough(c, trace, item) then
                 r.items == s.items + 1 && r.discarded == s.discarded
                   && SentThrough(c, s, r, c.fingerprint(item.key), vs)
               else
                 && r.nt == s.nt && r.items == s.items && r.misses == s.misses
                 && r.discarded == s.discarded + if InBurst(c, trace, item) then 1 else 0
  {
    var s := Run(c, trace);
    AdmittedIff(c, trace, item);
    vs := [];
    if Admits(c, s, item) {
      CountsAreConserved(c, trace, 0);
      vs := InsertSends(c, s, item);
    } else {
      FilterByHistory(c, trace, FilterPlace(c, item));
      InsertHolds(c, s, item);
    }
  }

  // ---------- the first stage ----------

  function Fps(b: Bucket): (o: seq<Fp>)
    ensures |o| == |b| && forall i :: 0 <= i < |b| ==> o[i] == b[i].fp
  {
    seq(|b|, i requires 0 <= i < |b| => b[i].fp)
  }

  /** The fingerprints let through to bucket p of the first stage. */
  function AdmittedTo<K>(c: Config<K>, trace: seq<Item<K>>, p: nat): seq<Fp>
    requires c.Ok()
  {
    if trace == [] then []
    else
      var t, item := Init(trace), Last(trace);
      if InBurst(c, t, item) && BigEnough(c, t, item) && c.Place(c.fingerprint(item.key), 0) == p
      then AdmittedTo(c, t, p) + [c.fingerprint(item.key)]
      else AdmittedTo(c, t, p)
  }

  lemma {:induction false} CascadeFirst<K>(c: Config<K>, nt: Slots, s: Slot)
    requires c.Ok() && Sized(c, nt)
    ensures var p := c.Place(s.fp, 0);
            var e := ToFront(nt[0][p], s.fp, s.counter);
            Cascade(c, nt, 0, s).0[0] == nt[0][p := Kept(nt[0][p], e, c.k)]
  {
    var p := c.Place(s.fp, 0);
    var e := ToFront(nt[0][p], s.fp, s.counter);
    if |e| != |nt[0][p]| && |e| > c.k {
      CascadeKeepsFirst(c, Write(nt, 0, p, Init(e)), 1, Last(e));
    }
  }

  lemma {:induction false} CascadeKeepsFirst<K>(c: Config<K>, nt: Slots, i: nat, s: Slot)
    requires c.Ok() && Sized(c, nt) && 0 < i <= c.stages
    ensures Cascade(c, nt, i, s).0[0] == nt[0]
    decreases c.stages - i
  {
    if i < c.stages {
      var p := c.Place(s.fp, i);
      var e := ToFront(nt[i][p], s.fp, s.counter);
      if |e| != |nt[i][p]| && |e| > c.k {
        CascadeKeepsFirst(c, Write(nt, i, p, Init(e)), i + 1, Last(e));
      }
    }
  }

  /** What a bucket of k slots keeps. */
  function Kept(b: Bucket, e: Bucket, k: nat): Bucket { if |e| == |b| || |e| <= k then e else e[..|e| - 1] }

  lemma {:induction false} FrontIsRecent(b: Bucket, t: seq<Fp>, k: nat, fp: Fp, counter: int)
    requires MostRecent(Fps(b), t, k) && k > 0
    ensures MostRecent(Fps(Kept(b, ToFront(b, fp, counter), k)), t + [fp], k)
  {
    if Find(b, fp) < |b| {
      HeldIsRecent(b, t, k, fp, counter);
    } else {
      NewIsRecent(b, t, k, fp, counter);
    }
  }

  lemma {:induction false} HeldIsRecent(b: Bucket, t: seq<Fp>, k: nat, fp: Fp, counter: int)
    requires MostRecent(Fps(b), t, k) && Find(b, fp) < |b|
    ensures MostRecent(Fps(Kept(b, ToFront(b, fp, counter), k)), t + [fp], k)
  {
    var j := Find(b, fp);
    assert Fps(b)[j] == fp;
    MoveToFront(Fps(b), t, k, j);
    FpsOfMoved(b, fp, counter, j);
  }

  lemma {:induction false} NewIsRecent(b: Bucket, t: seq<Fp>, k: nat, fp: Fp, counter: int)
    requires MostRecent(Fps(b), t, k) && k > 0 && Find(b, fp) == |b|
    ensures MostRecent(Fps(Kept(b, ToFront(b, fp, counter), k)), t + [fp], k)
  {
    assert forall i :: 0 <= i < |b| ==> Fps(b)[i] != fp;
    EnterFront(Fps(b), t, k, fp);
    FpsOfNew(b, fp, counter, k);
  }

  lemma {:induction false} FpsOfMoved(b: Bucket, fp: Fp, counter: int, j: nat)
    requires j == Find(b, fp) < |b|
    ensures var e := ToFront(b, fp, counter); |e| == |b| && Fps(e) == [fp] + (Fps(b)[..j] + Fps(b)[j + 1..])
  {
    var e, o := ToFront(b, fp, counter), [fp] + (Fps(b)[..j] + Fps(b)[j + 1..]);
    forall x | 0 <= x < |b| ensures e[x].fp == o[x] {
    }
  }

  lemma {:induction false} FpsOfNew(b: Bucket, fp: Fp, counter: int, k: nat)
    requires Find(b, fp) == |b| <= k && k > 0
    ensures Fps(Kept(b, ToFront(b, fp, counter), k)) == [fp] + if |b| < k then Fps(b) else Fps(b)[..|b| - 1]
  {
  }

  /** Each bucket of the first stage holds the k fingerprints let through to it most recently, the most
      recent first. */
  lemma {:induction false} FirstStageIsRecent<K>(c: Config<K>, trace: seq<Item<K>>, p: nat)
    requires c.Ok() && p < c.len
    ensures MostRecent(Fps(Run(c, trace).nt[0][p]), AdmittedTo(c, trace, p), c.k)
  {
    if trace == [] {
      NoneSent<Fp>(c.k);
      assert Fps(Run(c, trace).nt[0][p]) == [];
    } else {
      var t, item := Init(trace), Last(trace);
      var s, fp := Run(c, t), c.fingerprint(item.key);
      FirstStageIsRecent(c, t, p);
      AdmittedIff(c, t, item);
      if Admits(c, s, item) {
        CascadeFirst(c, s.nt, Slot(fp, 1));
        if c.Place(fp, 0) == p {
          FrontIsRecent(s.nt[0][p], AdmittedTo(c, t, p), c.k, fp, 1);
        }
      }
    }
  }
}
