/** The bucketed move-to-front cache of byte counts and the table the CPU keeps of its victims. */
module LruCaches {
  import opened Recency

  const NSLOT := 3
  const NBUCK := 12_500 / NSLOT

  datatype Flow = Flow(srcip: nat, destip: nat, srcport: nat, destport: nat, protocol: nat)

  type Fp = nat

  datatype Slot = Slot(fp: Fp, cnt: nat)

  /** The two seeded hashes of a header: its 32-bit fingerprint and its bucket. */
  datatype Hashes = Hashes(fpHash: Flow -> nat, posHash: Flow -> nat) {
    function FpOf(f: Flow): Fp { fpHash(f) % 0x1_0000_0000 }

    function Bucket(f: Flow): (p: nat)
      ensures p < NBUCK
    {
      posHash(f) % NBUCK
    }
  }

  /** The first slot of a bucket that carries fp, or the bucket's size. */
  function Find(b: seq<Slot>, fp: Fp): (i: nat)
    ensures i <= |b|
    ensures i < |b| ==> b[i].fp == fp
    ensures forall j :: 0 <= j < i ==> b[j].fp != fp
  {
    if b == [] || b[0].fp == fp then 0
    else
      var r := Find(b[1..], fp);
      assert forall j :: 1 <= j < r + 1 ==> b[j] == b[1..][j - 1];
      1 + r
  }

  /** A bucket after an insert, and the slot that fell out (cnt 0 when none did). */
  function Put(b: seq<Slot>, fp: Fp, size: nat): (seq<Slot>, Slot) {
    PutAt(b, fp, size, Find(b, fp))
  }

  /** The same when i is the place of fp in the bucket, or the bucket's size. */
  function PutAt(b: seq<Slot>, fp: Fp, size: nat, i: nat): (seq<Slot>, Slot)
    requires i <= |b|
  {
    if i < |b| then ([Slot(fp, size + b[i].cnt)] + b[..i] + b[i + 1..], Slot(0, 0))
    else if |b| + 1 > NSLOT then ([Slot(fp, size)] + b[..|b| - 1], b[|b| - 1])
    else ([Slot(fp, size)] + b, Slot(0, 0))
  }

  function Fps(b: seq<Slot>): (o: seq<Fp>)
    ensures |o| == |b| && forall i :: 0 <= i < |b| ==> o[i] == b[i].fp
  {
    seq(|b|, i requires 0 <= i < |b| => b[i].fp)
  }

  /** A bucket that holds the NSLOT fingerprints sent most recently goes on doing so, and what falls
      out of a full one is what was sent least recently. */
  lemma {:induction false} PutKeepsRecent(b: seq<Slot>, t: seq<Fp>, fp: Fp, size: nat)
    requires MostRecent(Fps(b), t, NSLOT)
    ensures MostRecent(Fps(Put(b, fp, size).0), t + [fp], NSLOT)
    ensures var victim := Put(b, fp, size).1;
            if fp !in Fps(b) && |b| == NSLOT then victim in b && forall s ::
                 s in b && s != victim ==> Later(t, s.fp, victim.fp)
            else victim == Slot(0, 0)
  {
    var i, o, r := Find(b, fp), Fps(b), Put(b, fp, size);
    if i < |b| {
      assert o[i] == fp;
      MoveToFront(o, t, NSLOT, i);
      assert Fps(r.0) == [fp] + (o[..i] + o[i + 1..]);
    } else {
      EnterFront(o, t, NSLOT, fp);
      assert Fps(r.0) == [fp] + if |o| < NSLOT then o else o[..|o| - 1];
      forall j | 0 <= j < |b| - 1 ensures Later(t, b[j].fp, b[|b| - 1].fp) {
        assert Later(t, o[j], o[|b| - 1]);
      }
    }
  }

  /** fp was sent: a bucket of the fingerprints sent most recently is one of them again. */
  ghost predicate KeepsRecent(b: seq<Slot>, b': seq<Slot>, fp: Fp) {
    forall t {:trigger MostRecent(Fps(b), t, NSLOT)} ::
      MostRecent(Fps(b), t, NSLOT) ==> MostRecent(Fps(b'), t + [fp], NSLOT)
  }

  lemma {:induction false} PutIsRecent(b: seq<Slot>, fp: Fp, size: nat)
    ensures KeepsRecent(b, Put(b, fp, size).0, fp)
  {
    forall t | MostRecent(Fps(b), t, NSLOT) ensures MostRecent(Fps(Put(b, fp, size).0), t + [fp], NSLOT) {
      PutKeepsRecent(b, t, fp, size);
    }
  }

  function Count(b: seq<Slot>, fp: Fp): nat {
    var i := Find(b, fp);
    if i < |b| then b[i].cnt else 0
  }

  function CpuCount(cpu: map<Fp, nat>, fp: Fp): nat {
    if fp in cpu then cpu[fp] else 0
  }

  function Send(cpu: map<Fp, nat>, fp: Fp, size: nat): map<Fp, nat> {
    cpu[fp := CpuCount(cpu, fp) + size]
  }

  class Lru {
    const h: Hashes
    const nt: array<seq<Slot>>
    var inCpu: map<Fp, nat>
    var upload: nat
    var nhit: nat

    ghost predicate Valid()
      reads this, nt
    {
      nt.Length == NBUCK
    }

    constructor (hashes: Hashes)
      ensures Valid() && fresh(nt) && h == hashes
      ensures nt[..] == seq(NBUCK, _ => []) && inCpu == map[] && upload == 100_000 / 8 * 8 && nhit == 0
    {
      h := hashes;
      nt := new seq<Slot>[NBUCK](_ => []);
      inCpu, upload, nhit := map[], 8 * (100_000 / 8), 0;
    }

    method SendToCpu(fp: Fp, size: nat)
      modifies `inCpu
      ensures inCpu == Send(old(inCpu), fp, size)
    {
      if fp !in inCpu {
        inCpu := inCpu[fp := size];
      } else {
        inCpu := inCpu[fp := inCpu[fp] + size];
      }
    }

    /** insert: a packet moves its flow's slot to the front of its bucket, or enters there and
        may push the last slot out. */
    method Insert(f: Flow, size: nat) returns (victim: Slot)
      requires Valid()
      modifies `upload, `nhit, nt
      ensures var p, r := h.Bucket(f), Put(old(nt[h.Bucket(f)]), h.FpOf(f), size);
              nt[..] == old(nt[..])[p := r.0] && victim == r.1
      ensures KeepsRecent(old(nt[h.Bucket(f)]), nt[h.Bucket(f)], h.FpOf(f))
      ensures var hit := Find(old(nt[h.Bucket(f)]), h.FpOf(f)) < |old(nt[h.Bucket(f)])|;
              nhit == old(nhit) + (if hit then 1 else 0) && upload == old(upload) + if hit then 0 else 13
    {
      var fp, pos := h.FpOf(f), h.Bucket(f);
      ghost var b := nt[pos];
      PutIsRecent(b, fp, size);
      nt[pos] := [Slot(fp, size)] + nt[pos];
      var i := 1;
      while i < |nt[pos]|
        invariant 1 <= i <= |nt[pos]|
        invariant nt[..] == old(nt[..])[pos := [Slot(fp, size)] + b]
        invariant nt[pos] == [Slot(fp, size)] + b
        invariant forall j :: 0 <= j < i - 1 ==> b[j].fp != fp
        invariant nhit == old(nhit) && upload == old(upload)
      {
        if nt[pos][i].fp == fp {
          FindIs(b, fp, i - 1);
          nt[pos] := nt[pos][0 := Slot(fp, size + nt[pos][i].cnt)];
          nt[pos] := nt[pos][..i] + nt[pos][i + 1..];
          nhit := nhit + 1;
          assert nt[pos] == Put(b, fp, size).0;
          return Slot(0, 0);
        }
        i := i + 1;
      }
      FindNothing(b, fp);
      upload := upload + 13;
      if |nt[pos]| > NSLOT {
        victim := nt[pos][|nt[pos]| - 1];
        nt[pos] := nt[pos][..|nt[pos]| - 1];
        assert nt[pos] == Put(b, fp, size).0;
        return;
      }
      return Slot(0, 0);
    }

    method Query(f: Flow) returns (rst: nat)
      requires Valid()
      ensures rst == Count(nt[h.Bucket(f)], h.FpOf(f)) + CpuCount(inCpu, h.FpOf(f))
    {
      var fp, pos := h.FpOf(f), h.Bucket(f);
      rst := 0;
      var i := 0;
      while i < |nt[pos]|
        invariant 0 <= i <= |nt[pos]| && rst == 0
        invariant forall j :: 0 <= j < i ==> nt[pos][j].fp != fp
      {
        if nt[pos][i].fp == fp {
          FindIs(nt[pos], fp, i);
          rst := rst + nt[pos][i].cnt;
          break;
        }
        i := i + 1;
      }
      if i == |nt[pos]| {
        FindNothing(nt[pos], fp);
      }
      if fp in inCpu {
        rst := rst + inCpu[fp];
      }
    }
  }

  lemma {:induction false} FindIs(b: seq<Slot>, fp: Fp, i: nat)
    requires i < |b| && b[i].fp == fp && forall j :: 0 <= j < i ==> b[j].fp != fp
    ensures Find(b, fp) == i
  {
  }

  lemma {:induction false} FindNothing(b: seq<Slot>, fp: Fp)
    requires forall j :: 0 <= j < |b| ==> b[j].fp != fp
    ensures Find(b, fp) == |b|
  {
  }
}
