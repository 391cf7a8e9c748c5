/** Sequences built from the front: all but the last element, and the last. */
module Sequences {
  function Init<T>(s: seq<T>): seq<T>
    requires s != []
  {
    s[..|s| - 1]
  }

  function Last<T>(s: seq<T>): T
    requires s != []
  {
    s[|s| - 1]
  }
}

/** What the cache simulators share: fingerprints, timestamps, and the order of the ordered containers. */
module Stamps {
  type Fp = nat

  /** A fingerprint with a time; ordered by time, then by fingerprint. */
  datatype Stamp = Stamp(ts: real, fp: Fp)

  predicate Before(a: Stamp, b: Stamp) {
    a.ts < b.ts || (a.ts == b.ts && a.fp < b.fp)
  }

  predicate AtOrBefore(a: Stamp, b: Stamp) { a == b || Before(a, b) }

  lemma {:induction false} LeastExists(s: set<Stamp>)
    requires s != {}
    ensures exists a :: a in s && forall b :: b in s ==> AtOrBefore(a, b)
  {
    var x :| x in s;
    if s == {x} {
      assert forall b :: b in s ==> AtOrBefore(x, b);
    } else {
      var rest := s - {x};
      LeastExists(rest);
      var a :| a in rest && forall b :: b in rest ==> AtOrBefore(a, b);
      var least := if Before(x, a) then x else a;
      forall b | b in s ensures AtOrBefore(least, b) {
        assert b == x || AtOrBefore(a, b);
      }
      assert least in s;
    }
  }

  /** begin() of an ordered container: its least element. */
  function Least(s: set<Stamp>): (a: Stamp)
    requires s != {}
    ensures a in s && forall b :: b in s ==> AtOrBefore(a, b)
  {
    LeastExists(s);
    var a :| a in s && forall b :: b in s ==> AtOrBefore(a, b);
    a
  }

  lemma {:induction false} LeastIs(s: set<Stamp>, a: Stamp)
    requires a in s && forall b :: b in s && b != a ==> Before(a, b)
    ensures Least(s) == a
  {
    assert AtOrBefore(Least(s), a);
  }

  /** A packet as the caches see it: its fingerprint and when it arrives. */
  datatype Arrival = Arrival(fp: Fp, now: real) {
    function AsStamp(): Stamp { Stamp(now, fp) }
  }

  /** Packets in the order of the ordered containers: by time, and at equal times by fingerprint. */
  ghost predicate InStampOrder(s: seq<Arrival>) {
    forall i, j :: 0 <= i < j < |s| ==> AtOrBefore(s[i].AsStamp(), s[j].AsStamp())
  }

  // ---------- what waits ----------

  /** From the front of a queue exactly those are taken that have waited for more than delta: each
      that is gone has, the first that is left has not. */
  ghost predicate DueTaken(before: seq<Stamp>, after: seq<Stamp>, now: real, delta: real) {
    && |after| <= |before| && after == before[|before| - |after|..]
    && (forall i :: 0 <= i < |before| - |after| ==> now - before[i].ts > delta)
    && (after != [] ==> now - after[0].ts <= delta)
  }

  ghost predicate Sorted(q: seq<Stamp>) {
    forall i, j :: 0 <= i < j < |q| ==> q[i].ts <= q[j].ts
  }

  lemma {:induction false} TakeFirst(q: seq<Stamp>, after: seq<Stamp>, now: real, delta: real)
    requires q != [] && now - q[0].ts > delta && DueTaken(q[1..], after, now, delta)
    ensures DueTaken(q, after, now, delta)
  {
    forall i | 0 <= i < |q| - |after| ensures now - q[i].ts > delta {
      assert i > 0 ==> q[1..][i - 1] == q[i];
    }
  }

  /** What waits at a later time, of what waited and of one more that came between. */
  lemma {:induction false} DueTakenTwice(all: seq<Stamp>, q: seq<Stamp>, more: seq<Stamp>, after: seq<Stamp>,
                                         t1: real, t2: real, delta: real)
    requires DueTaken(all, q, t1, delta) && DueTaken(q + more, after, t2, delta) && t1 <= t2
    ensures DueTaken(all + more, after, t2, delta)
  {
    var gone := |all| - |q|;
    forall i | 0 <= i < |all + more| - |after| ensures t2 - (all + more)[i].ts > delta {
      if i >= gone { assert (all + more)[i] == (q + more)[i - gone]; }
    }
    assert forall i :: 0 <= i < |q + more| ==> (q + more)[i] == (all + more)[gone + i];
  }

  /** In a queue in order of time all that are left have waited for at most delta. */
  lemma {:induction false} StillWaiting(before: seq<Stamp>, after: seq<Stamp>, now: real, delta: real)
    requires Sorted(before) && DueTaken(before, after, now, delta)
    ensures forall i :: 0 <= i < |before| ==> (i >= |before| - |after| <==> now - before[i].ts <= delta)
  {
    if after != [] {
      assert before[|before| - |after|] == after[0];
    }
  }
}
