/** The multi-stage counter cache behind its filter: what an insertion does to it. */
module App6Model {
  import opened Options
  import opened Sequences

  type Fp = nat

  datatype Slot = Slot(fp: Fp, counter: int)

  type Bucket = seq<Slot>

  /** The slots of all stages: stage, bucket, place. */
  type Slots = seq<seq<Bucket>>

  datatype Item<K> = Item(key: K, ts: real, size: int)

  datatype FilterSlot = FilterSlot(ts: real, counter: int)

  /** Slots per bucket, stages, buckets per stage, size, interval and threshold of the filter, and
      the hash functions. */
  datatype Config<!K> = Config(k: nat, stages: nat, len: nat, filterLen: nat, interval: real, threshold: int,
                               hash: (Fp, nat) -> nat, fingerprint: K -> Fp, filterHash: K -> nat) {
    predicate Ok() { k > 0 && stages > 0 && len > 0 && filterLen > 0 }

    function Place(fp: Fp, i: nat): (p: nat)
      requires len > 0
      ensures p < len
    {
      hash(fp, i) % len
    }
  }

  function Find(b: Bucket, fp: Fp): (i: nat)
    ensures i <= |b| && (i < |b| ==> b[i].fp == fp)
    ensures forall j :: 0 <= j < i ==> b[j].fp != fp
  {
    if b == [] || b[0].fp == fp then 0
    else
      var r := Find(b[1..], fp);
      assert forall j :: 1 <= j < r + 1 ==> b[j] == b[1..][j - 1];
      1 + r
  }

  /** The bucket with fp and its counter in front: added to the counter of a slot that has fp
      already, which is moved, or in a new slot. */
  function ToFront(b: Bucket, fp: Fp, counter: int): Bucket {
    var j := Find(b, fp);
    if j < |b| then [Slot(fp, counter + b[j].counter)] + (b[..j] + b[j + 1..]) else [Slot(fp, counter)] + b
  }

  function Write(nt: Slots, i: nat, p: nat, b: Bucket): (r: Slots)
    requires i < |nt| && p < |nt[i]|
    ensures |r| == |nt| && |r[i]| == |nt[i]|
  {
    nt[i := nt[i][p := b]]
  }

  ghost predicate Sized<K>(c: Config<K>, nt: Slots) {
    |nt| == c.stages && forall i :: 0 <= i < c.stages ==> |nt[i]| == c.len
  }

  /** A counter enters stage i. What a full bucket gives up enters the next stage, unless it finds
      its fingerprint there; what the last stage gives up is dropped. Also says whether it was a miss. */
  function Cascade<K>(c: Config<K>, nt: Slots, i: nat, s: Slot): (r: (Slots, Option<Slot>, bool))
    requires c.Ok() && Sized(c, nt) && i <= c.stages
    ensures Sized(c, r.0)
    decreases c.stages - i
  {
    if i == c.stages then (nt, Some(s), true)
    else
      var p := c.Place(s.fp, i);
      var b := ToFront(nt[i][p], s.fp, s.counter);
      if |b| == |nt[i][p]| then (Write(nt, i, p, b), None, false)
      else if |b| <= c.k then (Write(nt, i, p, b), None, true)
      else Cascade(c, Write(nt, i, p, Init(b)), i + 1, Last(b))
  }

  /** The filter slot after an item, and whether the item is admitted to the cache. */
  function Filter<K>(c: Config<K>, f: FilterSlot, item: Item<K>): (FilterSlot, bool) {
    if item.ts - f.ts <= c.interval then (f.(counter := f.counter + 1), f.counter + item.size >= c.threshold)
    else (FilterSlot(item.ts, item.size), false)
  }

  /** The filter, the cache, the counters kept, and for the record what was dropped. */
  datatype State = State(filter: seq<FilterSlot>, nt: Slots, total: nat, items: nat, misses: nat, discarded: nat,
                         dropped: seq<Slot>)

  ghost predicate Fits<K>(c: Config<K>, s: State) { Sized(c, s.nt) && |s.filter| == c.filterLen }

  function Start<K>(c: Config<K>): State {
    State(seq(c.filterLen, _ => FilterSlot(0.0, 0)), seq(c.stages, _ => seq(c.len, _ => [])), 0, 0, 0, 0, [])
  }

  function FilterPlace<K>(c: Config<K>, item: Item<K>): (p: nat)
    requires c.Ok()
    ensures p < c.filterLen
  {
    c.filterHash(item.key) % c.filterLen
  }

  /** Whether the filter lets an item through. */
  function Admits<K>(c: Config<K>, s: State, item: Item<K>): bool
    requires c.Ok() && Fits(c, s)
  {
    Filter(c, s.filter[FilterPlace(c, item)], item).1
  }

  function Insert<K>(c: Config<K>, s: State, item: Item<K>): (r: State)
    requires c.Ok() && Fits(c, s)
    ensures Fits(c, r)
  {
    var p := FilterPlace(c, item);
    var f := Filter(c, s.filter[p], item);
    var s' := s.(filter := s.filter[p := f.0], total := s.total + 1);
    if f.1 then
      var r := Cascade(c, s.nt, 0, Slot(c.fingerprint(item.key), 1));
      s'.(nt := r.0, items := s.items + 1, misses := s.misses + if r.2 then 1 else 0,
          dropped := if r.1.Some? then s.dropped + [r.1.value] else s.dropped)
    else if item.ts - s.filter[p].ts <= c.interval then s'.(discarded := s.discarded + 1)
    else s'
  }

  function Run<K>(c: Config<K>, trace: seq<Item<K>>): (s: State)
    requires c.Ok()
    ensures Fits(c, s)
  {
    if trace == [] then Start(c) else Insert(c, Run(c, Init(trace)), Last(trace))
  }
}

/** Every admitted packet is counted exactly once. */
module App6Counts {
  import opened Options
  import opened Sequences
  import opened App6Model

  /** What the slots of a bucket count for g. */
  function Weight(b: Bucket, g: Fp): int {
    if b == [] then 0 else (if b[0].fp == g then b[0].counter else 0) + Weight(b[1..], g)
  }

  lemma {:induction false} WeightConcat(a: Bucket, b: Bucket, g: Fp)
    ensures Weight(a + b, g) == Weight(a, g) + Weight(b, g)
    decreases |a|
  {
    if a == [] {
      assert a + b == b;
    } else {
      assert (a + b)[1..] == a[1..] + b;
      WeightConcat(a[1..], b, g);
    }
  }

  lemma {:induction false} WeightOne(s: Slot, g: Fp)
    ensures Weight([s], g) == if s.fp == g then s.counter else 0
  {
    assert [s][1..] == [];
  }

  /** No fingerprint twice. */
  ghost predicate Distinct(b: Bucket) {
    forall j, k :: 0 <= j < k < |b| ==> b[j].fp != b[k].fp
  }

  /** Putting a counter in front of its bucket adds it, and to nothing else. */
  lemma {:induction false} ToFrontCounts(b: Bucket, fp: Fp, counter: int, g: Fp)
    ensures Weight(ToFront(b, fp, counter), g) == Weight(b, g) + if g == fp then counter else 0
  {
    var j := Find(b, fp);
    if j < |b| {
      var front, back := b[..j], b[j + 1..];
      assert b == front + ([b[j]] + back);
      WeightConcat(front, [b[j]] + back, g);
      WeightConcat([b[j]], back, g);
      WeightConcat(front, back, g);
      WeightConcat([Slot(fp, counter + b[j].counter)], front + back, g);
      WeightOne(b[j], g);
      WeightOne(Slot(fp, counter + b[j].counter), g);
    } else {
      WeightConcat([Slot(fp, counter)], b, g);
      WeightOne(Slot(fp, counter), g);
    }
  }

  lemma {:induction false} ToFrontDistinct(b: Bucket, fp: Fp, counter: int)
    requires Distinct(b)
    ensures var r := ToFront(b, fp, counter);
            Distinct(r) && |b| <= |r| <= |b| + 1 && (|r| == |b| <==> exists j :: 0 <= j < |b| && b[j].fp == fp)
    ensures forall s :: s in ToFront(b, fp, counter) ==> s.fp == fp || s in b
  {
    var j := Find(b, fp);
    var r := ToFront(b, fp, counter);
    if j < |b| {
      assert b[j].fp == fp;
      assert forall k :: 1 <= k < |r| ==> r[k] == if k <= j then b[k - 1] else b[k];
    } else {
      assert forall k :: 1 <= k < |r| ==> r[k] == b[k - 1];
    }
  }

  /** A bucket at place p of stage i: at most k slots, no fingerprint twice, each at its own place. */
  ghost predicate BucketOk<K>(c: Config<K>, b: Bucket, i: nat, p: nat)
    requires c.Ok()
  {
    |b| <= c.k && Distinct(b) && forall s :: s in b ==> c.Place(s.fp, i) == p
  }

  ghost predicate Tidy<K>(c: Config<K>, nt: Slots)
    requires c.Ok()
  {
    Sized(c, nt) && forall i, p {:trigger BucketOk(c, nt[i][p], i, p)} ::
        0 <= i < c.stages && 0 <= p < c.len ==> BucketOk(c, nt[i][p], i, p)
  }

  /** What the stages from i on count for g: g can only be at its own place in each. */
  function CountFrom<K>(c: Config<K>, nt: Slots, i: nat, g: Fp): int
    requires c.Ok() && |nt| == c.stages && (forall j :: 0 <= j < c.stages ==> |nt[j]| == c.len)
    decreases c.stages - i
  {
    if i >= c.stages then 0 else Weight(nt[i][c.Place(g, i)], g) + CountFrom(c, nt, i + 1, g)
  }

  /** Only stage i of the tables differs, and it counts delta more. */
  lemma {:induction false} CountChanged<K>(c: Config<K>, a: Slots, b: Slots, from: nat, i: nat, g: Fp)
    requires c.Ok() && Sized(c, a) && Sized(c, b) && from <= i < c.stages
    requires forall j :: 0 <= j < c.stages && j != i ==> a[j] == b[j]
    ensures CountFrom(c, b, from, g) - CountFrom(c, a, from, g)
            == Weight(b[i][c.Place(g, i)], g) - Weight(a[i][c.Place(g, i)], g)
    decreases i - from
  {
    if from < i {
      CountChanged(c, a, b, from + 1, i, g);
    } else {
      CountSame(c, a, b, i + 1, g);
    }
  }

  lemma {:induction false} CountSame<K>(c: Config<K>, a: Slots, b: Slots, from: nat, g: Fp)
    requires c.Ok() && Sized(c, a) && Sized(c, b)
    requires forall j :: from <= j < c.stages ==> a[j] == b[j]
    ensures CountFrom(c, a, from, g) == CountFrom(c, b, from, g)
    decreases c.stages - from
  {
    if from < c.stages { CountSame(c, a, b, from + 1, g); }
  }

  /** One stage: the bucket counts s more, less what it gives up. */
  lemma {:induction false} StageKeeps<K>(c: Config<K>, nt: Slots, i: nat, s: Slot)
    requires c.Ok() && Tidy(c, nt) && i < c.stages
    ensures var p := c.Place(s.fp, i);
            var b := ToFront(nt[i][p], s.fp, s.counter);
            && (|b| <= c.k ==> Tidy(c, Write(nt, i, p, b)))
            && (|b| > c.k ==> Tidy(c, Write(nt, i, p, Init(b))) && c.Place(Last(b).fp, i) == p)
  {
    var p := c.Place(s.fp, i);
    assert BucketOk(c, nt[i][p], i, p);
    ToFrontDistinct(nt[i][p], s.fp, s.counter);
    var b := ToFront(nt[i][p], s.fp, s.counter);
    assert Last(b) in b && forall x :: x in Init(b) ==> x in b;
    var kept := if |b| <= c.k then b else Init(b);
    assert BucketOk(c, kept, i, p);
    var nt' := Write(nt, i, p, kept);
    forall j, q | 0 <= j < c.stages && 0 <= q < c.len ensures BucketOk(c, nt'[j][q], j, q) {
      assert BucketOk(c, nt[j][q], j, q);
    }
  }

  lemma {:induction false} StageCounts<K>(c: Config<K>, nt: Slots, i: nat, s: Slot, g: Fp)
    requires c.Ok() && Tidy(c, nt) && i < c.stages
    ensures var p := c.Place(s.fp, i);
            var b := ToFront(nt[i][p], s.fp, s.counter);
            var plus := Weight([s], g);
            && (|b| <= c.k ==> CountFrom(c, Write(nt, i, p, b), 0, g) == CountFrom(c, nt, 0, g) + plus)
            && (|b| > c.k ==>
                CountFrom(c, Write(nt, i, p, Init(b)), 0, g) == CountFrom(c, nt, 0, g) + plus - Weight([Last(b)], g))
  {
    var p := c.Place(s.fp, i);
    var b := ToFront(nt[i][p], s.fp, s.counter);
    StageKeeps(c, nt, i, s);
    ToFrontCounts(nt[i][p], s.fp, s.counter, g);
    WeightOne(s, g);
    WeightOne(Last(b), g);
    var kept := if |b| <= c.k then b else Init(b);
    CountChanged(c, nt, Write(nt, i, p, kept), 0, i, g);
    assert b == Init(b) + [Last(b)];
    WeightConcat(Init(b), [Last(b)], g);
  }

  /** What was dropped, if anything, counts for g. */
  function Lost(s: Option<Slot>, g: Fp): int {
    if s.Some? then Weight([s.value], g) else 0
  }

  /** For every fingerprint, what the stages count and what they drop is what they counted before
      and what came in, however far the cascade goes. */
  lemma {:induction false} CascadeConserves<K>(c: Config<K>, nt: Slots, i: nat, s: Slot, g: Fp)
    requires c.Ok() && Tidy(c, nt) && i <= c.stages
    ensures var r := Cascade(c, nt, i, s);
            Tidy(c, r.0) && CountFrom(c, r.0, 0, g) + Lost(r.1, g) == CountFrom(c, nt, 0, g) + Weight([s], g)
    decreases c.stages - i
  {
    if i < c.stages {
      var p := c.Place(s.fp, i);
      assert BucketOk(c, nt[i][p], i, p);
      var b := ToFront(nt[i][p], s.fp, s.counter);
      StageKeeps(c, nt, i, s);
      StageCounts(c, nt, i, s, g);
      if |b| > c.k && |b| != |nt[i][p]| {
        CascadeConserves(c, Write(nt, i, p, Init(b)), i + 1, Last(b), g);
      }
    }
  }

  /** How many packets with fingerprint g the filter lets through. */
  function Admitted<K>(c: Config<K>, trace: seq<Item<K>>, g: Fp): nat
    requires c.Ok()
  {
    if trace == [] then 0
    else
      var item := Last(trace);
      Admitted(c, Init(trace), g) + if Admits(c, Run(c, Init(trace)), item) && c.fingerprint(item.key) == g then 1
        else 0
  }

  lemma {:induction false} EmptyCounts<K>(c: Config<K>, i: nat, g: Fp)
    requires c.Ok()
    ensures Tidy(c, Start(c).nt) && CountFrom(c, Start(c).nt, i, g) == 0
    decreases c.stages - i
  {
    var nt := Start(c).nt;
    forall j, q | 0 <= j < c.stages && 0 <= q < c.len ensures BucketOk(c, nt[j][q], j, q) {
      assert nt[j][q] == [];
    }
    if i < c.stages { EmptyCounts(c, i + 1, g); }
  }

  /** On every trace, with any number of stages: the counters of a fingerprint over all stages and
      what was dropped of it are the packets admitted for it; every bucket holds at most k slots,
      each at its own place and no fingerprint twice. */
  lemma {:induction false} CountsAreConserved<K>(c: Config<K>, trace: seq<Item<K>>, g: Fp)
    requires c.Ok()
    ensures var s := Run(c, trace);
            Tidy(c, s.nt) && CountFrom(c, s.nt, 0, g) + Weight(s.dropped, g) == Admitted(c, trace, g)
    decreases |trace|
  {
    if trace == [] {
      EmptyCounts(c, 0, g);
    } else {
      CountsAreConserved(c, Init(trace), g);
      var s, item := Run(c, Init(trace)), Last(trace);
      if Admits(c, s, item) {
        var one := Slot(c.fingerprint(item.key), 1);
        CascadeConserves(c, s.nt, 0, one, g);
        WeightOne(one, g);
        var lost := Cascade(c, s.nt, 0, one).1;
        if lost.Some? { WeightConcat(s.dropped, [lost.value], g); }
      }
    }
  }
}

/** The counter cache, updated in place. */
module App6Caches {
  import opened Options
  import opened Sequences
  import opened App6Model
  import opened App6Counts

  class App6<!K> {
    const c: Config<K>
    const filter: array<FilterSlot>
    const nt: array2<Bucket>
    var totalPacket: nat
    var disPacket: nat
    var nItems: nat
    var nMiss: nat
    ghost var dropped: seq<Slot>

    ghost function Table(): Slots
      reads nt
    {
      seq(nt.Length0, i requires 0 <= i < nt.Length0 reads nt =>
        seq(nt.Length1, p requires 0 <= p < nt.Length1 reads nt => nt[i, p]))
    }

    ghost function Value(): State
      reads this, filter, nt
    {
      State(filter[..], Table(), totalPacket, nItems, nMiss, disPacket, dropped)
    }

    ghost predicate Valid()
      reads this, filter, nt
    {
      && c.Ok() && nt.Length0 == c.stages && nt.Length1 == c.len && filter.Length == c.filterLen
      && Tidy(c, Table())
    }

    constructor (config: Config<K>)
      requires config.Ok()
      ensures Valid() && c == config && Value() == Run(config, []) && fresh(nt) && fresh(filter)
    {
      c := config;
      filter := new FilterSlot[config.filterLen](_ => FilterSlot(0.0, 0));
      nt := new Bucket[config.stages, config.len]((_, _) => []);
      totalPacket, disPacket, nItems, nMiss, dropped := 0, 0, 0, 0, [];
      new;
      forall i | 0 <= i < config.stages ensures Table()[i] == Start(config).nt[i] {
      }
      assert Table() == Start(config).nt;
      assert filter[..] == Start(config).filter;
      EmptyCounts(config, 0, 0);
    }

    /** One bucket is replaced. */
    method Put(i: nat, p: nat, b: Bucket)
      requires i < nt.Length0 && p < nt.Length1
      modifies nt
      ensures Table() == Write(old(Table()), i, p, b)
    {
      nt[i, p] := b;
      ghost var t, u := Table(), Write(old(Table()), i, p, b);
      forall j | 0 <= j < nt.Length0 ensures t[j] == u[j] {
        forall q | 0 <= q < nt.Length1 ensures t[j][q] == u[j][q] {
        }
      }
    }

    /** Searches a bucket for fp, adds up its counter and moves it to the front. */
    method Touch(b: Bucket, fp: Fp, counter: int) returns (hit: bool, r: Bucket)
      ensures r == ToFront(b, fp, counter) && (hit <==> Find(b, fp) < |b|)
      ensures |r| == |b| + if hit then 0 else 1
    {
      var j := 0;
      while j < |b|
        invariant 0 <= j <= |b| && j <= Find(b, fp)
      {
        if b[j].fp == fp {
          return true, [Slot(fp, counter + b[j].counter)] + (b[..j] + b[j + 1..]);
        }
        j := j + 1;
      }
      return false, [Slot(fp, counter)] + b;
    }

    /** Sends a counter through the stages. */
    method SendThrough(fp: Fp, counter: int) returns (missed: bool)
      requires Valid()
      modifies nt, `dropped
      ensures Valid()
      ensures var r := Cascade(c, old(Table()), 0, Slot(fp, counter));
              && Table() == r.0 && missed == r.2
              && dropped == if r.1.Some? then old(dropped) + [r.1.value] else old(dropped)
    {
      var curFp, curCounter, i := fp, counter, 0;
      while i < c.stages
        invariant 0 <= i <= c.stages && Valid() && dropped == old(dropped)
        invariant Cascade(c, Table(), i, Slot(curFp, curCounter)) == Cascade(c, old(Table()), 0, Slot(fp, counter))
      {
        var p := c.Place(curFp, i);
        StageKeeps(c, Table(), i, Slot(curFp, curCounter));
        assert nt[i, p] == Table()[i][p];
        var hit, b := Touch(nt[i, p], curFp, curCounter);
        if |b| <= c.k {
          TidySize(c, Table(), i, p);
          Put(i, p, b);
          return !hit;
        }
        TidySize(c, Table(), i, p);
        Put(i, p, Init(b));
        curFp, curCounter := Last(b).fp, Last(b).counter;
        i := i + 1;
      }
      dropped := dropped + [Slot(curFp, curCounter)];
      return true;
    }

    /** A packet. */
    method Insert(item: Item<K>)
      requires Valid()
      modifies this, filter, nt
      ensures Valid() && Value() == App6Model.Insert(c, old(Value()), item)
    {
      totalPacket := totalPacket + 1;
      var p := FilterPlace(c, item);
      var counter := filter[p].counter;
      if item.ts - filter[p].ts <= c.interval {
        counter := counter + item.size;
        filter[p] := filter[p].(counter := filter[p].counter + 1);
      } else {
        filter[p] := FilterSlot(item.ts, item.size);
        return;
      }
      if counter < c.threshold {
        disPacket := disPacket + 1;
        return;
      }
      nItems := nItems + 1;
      var missed := SendThrough(c.fingerprint(item.key), 1);
      if missed { nMiss := nMiss + 1; }
    }
  }

  lemma {:induction false} TidySize<K>(c: Config<K>, nt: Slots, i: nat, p: nat)
    requires c.Ok() && Tidy(c, nt) && i < c.stages && p < c.len
    ensures |nt[i][p]| <= c.k
  {
    assert BucketOk(c, nt[i][p], i, p);
  }
}
