/** Chains of entries: what links them, where they belong and what they hold. */
module DictChains {
  class Entry<K, V> {
    const key: K
    var val: V
    var next: Entry?<K, V>

    constructor (key: K, val: V)
      ensures this.key == key && this.val == val && next == null
    {
      this.key, this.val, next := key, val, null;
    }
  }

  type Chain<K, V> = seq<Entry<K, V>>

  ghost function EntryAt<K, V>(chain: Chain<K, V>, j: nat): Entry?<K, V> {
    if j < |chain| then chain[j] else null
  }

  /** The entries of the chain are linked in its order, from head to the end. */
  ghost predicate Linked<K, V>(head: Entry?<K, V>, chain: Chain<K, V>)
    reads chain`next
  {
    head == EntryAt(chain, 0) && forall j {:trigger chain[j]} ::
        0 <= j < |chain| ==> chain[j].next == EntryAt(chain, j + 1)
  }

  /** Every key of the chain belongs to slot i of n, and none is there twice. */
  ghost predicate Placed<K, V>(hash: K -> nat, n: nat, chain: Chain<K, V>, i: nat)
    requires n > 0
  {
    && (forall j :: 0 <= j < |chain| ==> hash(chain[j].key) % n == i)
    && (forall j, k :: 0 <= j < k < |chain| ==> chain[j].key != chain[k].key)
  }

  /** The chain holds bindings of m. */
  ghost predicate Held<K, V>(chain: Chain<K, V>, m: map<K, V>)
    reads chain`val
  {
    forall j :: 0 <= j < |chain| ==> chain[j].key in m && m[chain[j].key] == chain[j].val
  }

  ghost predicate HasKey<K, V>(chain: Chain<K, V>, key: K) {
    exists j :: 0 <= j < |chain| && chain[j].key == key
  }

  /** Every key of m is in the chain of its slot. */
  ghost predicate Complete<K(!new), V>(hash: K -> nat, chains: seq<Chain<K, V>>, m: map<K, V>)
    requires |chains| > 0
  {
    forall key {:trigger key in m} :: key in m ==> HasKey(chains[hash(key) % |chains|], key)
  }

  /** All there is to say about the chain of slot i of n, except how it is linked. */
  ghost predicate SlotOk<K, V>(hash: K -> nat, n: nat, chain: Chain<K, V>, i: nat, m: map<K, V>, repr: set<Entry<K, V>>)
    requires n > 0
    reads repr`val
  {
    (forall j :: 0 <= j < |chain| ==> chain[j] in repr) && Placed(hash, n, chain, i) && Held(chain, m)
  }

  /** A new binding elsewhere. */
  lemma {:induction false} OtherSlot<K, V>(hash: K -> nat, n: nat, chain: Chain<K, V>, i: nat, m: map<K, V>,
                                           repr: set<Entry<K, V>>, key: K, val: V)
    requires n > 0 && SlotOk(hash, n, chain, i, m, repr) && key !in m
    ensures SlotOk(hash, n, chain, i, m[key := val], repr)
  {
  }

  /** A new binding in front. */
  lemma {:induction false} FrontSlot<K, V>(hash: K -> nat, n: nat, chain: Chain<K, V>, i: nat, m: map<K, V>,
                                           repr: set<Entry<K, V>>, e: Entry<K, V>)
    requires n > 0 && SlotOk(hash, n, chain, i, m, repr) && e.key !in m && e in repr && hash(e.key) % n == i
    ensures SlotOk(hash, n, [e] + chain, i, m[e.key := e.val], repr)
  {
    assert !HasKey(chain, e.key);
    PlacedFront(hash, n, e, chain, i);
    assert forall j :: 1 <= j <= |chain| ==> ([e] + chain)[j] == chain[j - 1];
  }

  lemma {:induction false} LinkedTail<K, V>(head: Entry?<K, V>, chain: Chain<K, V>)
    requires Linked(head, chain) && chain != []
    ensures Linked(chain[0].next, chain[1..])
  {
    assert chain[0].next == EntryAt(chain, 1);
    assert forall j :: 0 <= j < |chain| - 1 ==> chain[1..][j] == chain[j + 1];
  }

  lemma {:induction false} LinkedFront<K, V>(e: Entry<K, V>, chain: Chain<K, V>)
    requires Linked(e.next, chain)
    ensures Linked(e, [e] + chain)
  {
    assert forall j :: 1 <= j <= |chain| ==> ([e] + chain)[j] == chain[j - 1];
  }

  lemma {:induction false} HasKeyFront<K, V>(e: Entry<K, V>, chain: Chain<K, V>, key: K)
    ensures HasKey([e] + chain, key) <==> e.key == key || HasKey(chain, key)
  {
    var all := [e] + chain;
    assert all[0] == e && forall j :: 1 <= j <= |chain| ==> all[j] == chain[j - 1];
    if e.key == key { assert all[0].key == key; }
    if HasKey(chain, key) {
      var j :| 0 <= j < |chain| && chain[j].key == key;
      assert all[j + 1].key == key;
    }
  }

  lemma {:induction false} PlacedTail<K, V>(hash: K -> nat, n: nat, chain: Chain<K, V>, i: nat)
    requires n > 0 && Placed(hash, n, chain, i) && chain != []
    ensures Placed(hash, n, chain[1..], i) && !HasKey(chain[1..], chain[0].key)
  {
    assert forall j :: 0 <= j < |chain| - 1 ==> chain[1..][j] == chain[j + 1];
  }

  lemma {:induction false} PlacedFront<K, V>(hash: K -> nat, n: nat, e: Entry<K, V>, chain: Chain<K, V>, i: nat)
    requires n > 0 && Placed(hash, n, chain, i) && hash(e.key) % n == i && !HasKey(chain, e.key)
    ensures Placed(hash, n, [e] + chain, i)
  {
    assert forall j :: 1 <= j <= |chain| ==> ([e] + chain)[j] == chain[j - 1];
  }
}

/** The chained hash table and its iterator. */
module Dicts {
  import opened Options
  import opened DictChains

  const INITIAL_SIZE := 4

  predicate PowerOfTwo(n: nat) {
    n == 1 || (n > 1 && n % 2 == 0 && PowerOfTwo(n / 2))
  }

  /** The least power of two from the initial size on that is not below size. */
  method NextPower(size: nat) returns (i: nat)
    ensures PowerOfTwo(i) && size <= i && INITIAL_SIZE <= i
    ensures i == INITIAL_SIZE || i < 2 * size
    ensures PowerOfTwo(size) && INITIAL_SIZE <= size ==> i == size
  {
    i := INITIAL_SIZE;
    assert PowerOfTwo(2) && PowerOfTwo(4);
    while i < size
      invariant INITIAL_SIZE <= i && PowerOfTwo(i) && (i == INITIAL_SIZE || i < 2 * size)
      invariant PowerOfTwo(size) && INITIAL_SIZE <= size ==> i <= size
    {
      PowersAreFarApart(i, size);
      assert 2 * i / 2 == i;
      i := 2 * i;
    }
  }

  lemma {:induction false} PowersAreFarApart(a: nat, b: nat)
    requires PowerOfTwo(a) && a < b
    ensures PowerOfTwo(b) ==> 2 * a <= b
    decreases b
  {
    if PowerOfTwo(b) && a > 1 { PowersAreFarApart(a / 2, b / 2); }
  }

  /** The chains hold m and nothing else, every binding in its slot. */
  ghost predicate AllSlotsOk<K(!new), V>(hash: K -> nat, chains: seq<Chain<K, V>>, m: map<K, V>, repr: set<Entry<K, V>>)
    requires |chains| > 0
    reads repr`val
  {
    && (forall i {:trigger SlotOk(hash, |chains|, chains[i], i, m, repr)} ::
        0 <= i < |chains| ==> SlotOk(hash, |chains|, chains[i], i, m, repr))
    && Complete(hash, chains, m)
  }

  /** An array of chains that holds m and nothing else. */
  ghost predicate TableOk<K(!new), V>(hash: K -> nat, t: array<Entry?<K, V>>, chains: seq<Chain<K, V>>, m: map<K, V>,
                                      repr: set<Entry<K, V>>)
    reads t, repr
  {
    && |chains| == t.Length > 0
    && AllSlotsOk(hash, chains, m, repr)
    && forall i {:trigger Linked(t[i], chains[i])} ::
         0 <= i < |chains| ==> SlotOk(hash, |chains|, chains[i], i, m, repr) && Linked(t[i], chains[i])
  }

  /** The bindings of a table with one more entry in front of its slot. */
  lemma {:induction false} FrontTable<K(!new), V>(hash: K -> nat, chains: seq<Chain<K, V>>, m: map<K, V>,
                                                  repr: set<Entry<K, V>>, e: Entry<K, V>, h: nat)
    requires |chains| > 0
    requires AllSlotsOk(hash, chains, m, repr) && e in repr && e.key !in m && h == hash(e.key) % |chains|
    ensures var next := chains[h := [e] + chains[h]];
            AllSlotsOk(hash, next, m[e.key := e.val], repr)
  {
    var next, m' := chains[h := [e] + chains[h]], m[e.key := e.val];
    FrontSlot(hash, |chains|, chains[h], h, m, repr, e);
    forall i | 0 <= i < |next| ensures SlotOk(hash, |chains|, next[i], i, m', repr) {
      if i != h { OtherSlot(hash, |chains|, chains[i], i, m, repr, e.key, e.val); }
    }
    forall key | key in m' ensures HasKey(next[hash(key) % |next|], key) {
      HasKeyFront(e, chains[h], key);
    }
  }

  /** The chains with e in front of its slot. */
  ghost function Fronted<K, V>(hash: K -> nat, chains: seq<Chain<K, V>>, e: Entry<K, V>): seq<Chain<K, V>>
    requires |chains| > 0
  {
    var h := hash(e.key) % |chains|;
    chains[h := [e] + chains[h]]
  }

  /** The entry becomes the first of its slot. */
  method PushFront<K(!new), V>(hash: K -> nat, t: array<Entry?<K, V>>, ghost chains: seq<Chain<K, V>>,
                               ghost m: map<K, V>, ghost repr: set<Entry<K, V>>, e: Entry<K, V>)
    requires TableOk(hash, t, chains, m, repr) && e in repr && e.key !in m
    modifies t, e`next
    ensures TableOk(hash, t, Fronted(hash, chains, e), m[e.key := e.val], repr)
  {
    var h := hash(e.key) % t.Length;
    AbsentEverywhere(hash, chains, m, repr, e);
    e.next := t[h];
    t[h] := e;
    LinkedFront(e, chains[h]);
    FrontTable(hash, chains, m, repr, e, h);
  }

  lemma {:induction false} AbsentEverywhere<K(!new), V>(hash: K -> nat, chains: seq<Chain<K, V>>, m: map<K, V>,
                                                        repr: set<Entry<K, V>>, e: Entry<K, V>)
    requires |chains| > 0
    requires AllSlotsOk(hash, chains, m, repr) && e.key !in m
    ensures forall i :: 0 <= i < |chains| ==> e !in chains[i]
  {
    forall i | 0 <= i < |chains| ensures e !in chains[i] {
      assert SlotOk(hash, |chains|, chains[i], i, m, repr);
    }
  }

  // ---------- rehashing ----------

  /** The bindings of a table without the first entry of slot i. */
  lemma {:induction false} TailTable<K(!new), V>(hash: K -> nat, chains: seq<Chain<K, V>>, m: map<K, V>,
                                                 repr: set<Entry<K, V>>, i: nat)
    requires |chains| > 0 && AllSlotsOk(hash, chains, m, repr)
    requires i < |chains| && chains[i] != []
    ensures var e, next := chains[i][0], chains[i := chains[i][1..]];
            && e.key in m && m[e.key] == e.val
            && AllSlotsOk(hash, next, m - {e.key}, repr)
  {
    var e, tail := chains[i][0], chains[i][1..];
    var next, m' := chains[i := tail], m - {e.key};
    assert SlotOk(hash, |chains|, chains[i], i, m, repr);
    PlacedTail(hash, |chains|, chains[i], i);
    assert chains[i] == [e] + tail;
    assert forall j :: 0 <= j < |tail| ==> tail[j] == chains[i][j + 1];
    forall q | 0 <= q < |next| ensures SlotOk(hash, |chains|, next[q], q, m', repr) {
      assert SlotOk(hash, |chains|, chains[q], q, m, repr);
      if q == i {
        assert forall j :: 0 <= j < |tail| ==> tail[j].key != e.key;
      }
    }
    forall key | key in m' ensures HasKey(next[hash(key) % |next|], key) {
      assert HasKey(chains[hash(key) % |chains|], key);
      HasKeyFront(e, tail, key);
    }
  }

  /** Of the two tables exactly one holds the binding of key, if there is one. */
  ghost predicate SharedAt<K, V>(a: map<K, V>, b: map<K, V>, all: map<K, V>, key: K) {
    && (key in all <==> key in a || key in b) && !(key in a && key in b)
    && (key in a ==> all[key] == a[key]) && (key in b ==> all[key] == b[key])
  }

  /** Two tables hold the bindings of one map between them. */
  ghost predicate Shared<K(!new), V>(a: map<K, V>, b: map<K, V>, all: map<K, V>) {
    forall key: K {:trigger SharedAt(a, b, all, key)} :: SharedAt(a, b, all, key)
  }

  lemma {:induction false} SharedMove<K(!new), V>(a: map<K, V>, b: map<K, V>, all: map<K, V>, key: K)
    requires Shared(a, b, all) && key in a
    ensures Shared(a - {key}, b[key := a[key]], all) && key !in b
  {
    var a', b' := a - {key}, b[key := a[key]];
    forall k: K ensures SharedAt(a', b', all, k) {
      assert SharedAt(a, b, all, k);
    }
    assert SharedAt(a, b, all, key);
  }

  lemma {:induction false} OneLess<K, V>(a: map<K, V>, key: K)
    requires key in a
    ensures |a - {key}| == |a| - 1
  {
    assert (a - {key}).Keys == a.Keys - {key};
    assert |a.Keys - {key}| == |a.Keys| - 1;
  }

  /** What is left when the first entry of slot i is about to move. */
  lemma {:induction false} MoveStep<K(!new), V>(hash: K -> nat, chains: seq<Chain<K, V>>, i: nat, e: Entry<K, V>,
                                                left: map<K, V>, moved: map<K, V>, all: map<K, V>,
                                                repr: set<Entry<K, V>>)
    requires |chains| > 0 && AllSlotsOk(hash, chains, left, repr) && Shared(left, moved, all)
    requires i < |chains| && Linked(e, chains[i])
    ensures var tail, next := chains[i][1..], chains[i := chains[i][1..]];
            && e.key in left && left[e.key] == e.val && e.key !in moved && e in repr && e !in tail
            && AllSlotsOk(hash, next, left - {e.key}, repr)
            && Shared(left - {e.key}, moved[e.key := e.val], all) && |left - {e.key}| == |left| - 1
            && Linked(e.next, tail)
  {
    TailTable(hash, chains, left, repr, i);
    SharedMove(left, moved, all, e.key);
    OneLess(left, e.key);
    LinkedTail(e, chains[i]);
    assert SlotOk(hash, |chains|, chains[i], i, left, repr);
    PlacedTail(hash, |chains|, chains[i], i);
  }

  /** An old table with the bindings left in it, and a new one with those moved. */
  ghost predicate Moving<K(!new), V>(hash: K -> nat, rest: seq<Chain<K, V>>, left: map<K, V>, t: array<Entry?<K, V>>,
                                     next: seq<Chain<K, V>>, moved: map<K, V>, all: map<K, V>, repr: set<Entry<K, V>>)
    reads t, repr
  {
    && |rest| > 0 && AllSlotsOk(hash, rest, left, repr)
    && TableOk(hash, t, next, moved, repr) && Shared(left, moved, all)
  }

  /** The tables differ in slot i only. */
  ghost predicate SameBut<K, V>(a: seq<Chain<K, V>>, b: seq<Chain<K, V>>, i: nat) {
    |a| == |b| && forall q {:trigger b[q]} :: 0 <= q < |a| && q != i ==> b[q] == a[q]
  }

  /** Moves the first entry of slot i to its slot in the new table. */
  method MoveOne<K(!new), V>(hash: K -> nat, he: Entry<K, V>, t: array<Entry?<K, V>>, ghost i: nat,
                             ghost rest: seq<Chain<K, V>>, ghost left: map<K, V>, ghost next: seq<Chain<K, V>>,
                             ghost moved: map<K, V>,
                             ghost all: map<K, V>, ghost repr: set<Entry<K, V>>)
    returns (nextHe: Entry?<K, V>, ghost rest': seq<Chain<K, V>>, ghost left': map<K, V>,
             ghost next': seq<Chain<K, V>>, ghost moved': map<K, V>)
    requires Moving(hash, rest, left, t, next, moved, all, repr) && i < |rest| && Linked(he, rest[i])
    modifies t, he`next
    ensures SameBut(rest, rest', i) && rest'[i] == rest[i][1..] && Linked(nextHe, rest'[i]) && |left'| + 1 == |left|
    ensures Moving(hash, rest', left', t, next', moved', all, repr)
  {
    nextHe := he.next;
    MoveStep(hash, rest, i, he, left, moved, all, repr);
    PushFront(hash, t, next, moved, repr, he);
    next' := Fronted(hash, next, he);
    rest', left', moved' := rest[i := rest[i][1..]], left - {he.key}, moved[he.key := he.val];
  }

  /** Moves the chain of slot i, entry by entry, to its slots in the new table. */
  method MoveChain<K(!new), V>(hash: K -> nat, head: Entry?<K, V>, t: array<Entry?<K, V>>, ghost i: nat,
                               ghost own: set<Entry<K, V>>,
                               ghost chains: seq<Chain<K, V>>, ghost left: map<K, V>, ghost next: seq<Chain<K, V>>,
                               ghost moved: map<K, V>,
                               ghost all: map<K, V>, ghost repr: set<Entry<K, V>>)
    returns (count: nat, ghost rest: seq<Chain<K, V>>, ghost left': map<K, V>, ghost next': seq<Chain<K, V>>,
             ghost moved': map<K, V>)
    requires Moving(hash, chains, left, t, next, moved, all, repr) && i < |chains| && Linked(head, chains[i])
    requires forall j :: 0 <= j < |chains[i]| ==> chains[i][j] in own
    modifies t, own`next
    ensures SameBut(chains, rest, i) && rest[i] == []
    ensures Moving(hash, rest, left', t, next', moved', all, repr) && |left'| + count == |left|
  {
    var he := head;
    count, rest, left', next', moved' := 0, chains, left, next, moved;
    while he != null
      invariant SameBut(chains, rest, i) && Linked(he, rest[i]) && |left'| + count == |left|
      invariant forall j :: 0 <= j < |rest[i]| ==> rest[i][j] in own
      invariant Moving(hash, rest, left', t, next', moved', all, repr)
      decreases |rest[i]|
    {
      assert he == rest[i][0] && he in own;
      he, rest, left', next', moved' := MoveOne(hash, he, t, i, rest, left', next', moved', all, repr);
      count := count + 1;
    }
    assert rest[i] == [];
  }

  lemma {:induction false} EmptyChains<K(!new), V>(hash: K -> nat, rest: seq<Chain<K, V>>, left: map<K, V>,
                                                   repr: set<Entry<K, V>>)
    requires |rest| > 0 && AllSlotsOk(hash, rest, left, repr)
    requires forall q :: 0 <= q < |rest| ==> rest[q] == []
    ensures left == map[]
  {
    assert forall key: K :: !HasKey<K, V>([], key);
  }

  lemma {:induction false} NothingLeft<K(!new), V>(left: map<K, V>, moved: map<K, V>, all: map<K, V>)
    requires Shared(left, moved, all) && left == map[]
    ensures moved == all
  {
    forall key: K ensures (key in moved <==> key in all) && (key in moved ==> moved[key] == all[key]) {
      assert SharedAt(left, moved, all, key);
    }
  }

  /** The chains of a table have no entry in common. */
  lemma {:induction false} OtherChain<K(!new), V>(hash: K -> nat, chains: seq<Chain<K, V>>, m: map<K, V>,
                                                  repr: set<Entry<K, V>>,
                                                  own: set<Entry<K, V>>, i: nat, q: nat)
    requires |chains| > 0 && AllSlotsOk(hash, chains, m, repr) && i < |chains| && q < |chains| && i != q
    requires forall e :: e in own ==> e in chains[i]
    ensures forall j :: 0 <= j < |chains[q]| ==> chains[q][j] !in own
  {
    assert SlotOk(hash, |chains|, chains[i], i, m, repr) && SlotOk(hash, |chains|, chains[q], q, m, repr);
  }

  /** The chains before slot i have moved, the others are as they were. */
  ghost predicate Underway<K(!new), V>(hash: K -> nat, table: array<Entry?<K, V>>, i: nat, rest: seq<Chain<K, V>>,
                                       left: map<K, V>,
                                       t: array<Entry?<K, V>>, next: seq<Chain<K, V>>, moved: map<K, V>,
                                       all: map<K, V>, repr: set<Entry<K, V>>)
    reads table, t, repr
  {
    && Moving(hash, rest, left, t, next, moved, all, repr) && i <= table.Length == |rest|
    && (forall q :: 0 <= q < i ==> rest[q] == [])
    && (forall q {:trigger Linked(table[q], rest[q])} :: i <= q < |rest| ==>
          SlotOk(hash, |rest|, rest[q], q, left, repr) && Linked(table[q], rest[q]))
  }

  method MoveSlot<K(!new), V>(hash: K -> nat, table: array<Entry?<K, V>>, i: nat, t: array<Entry?<K, V>>,
                              ghost rest: seq<Chain<K, V>>, ghost left: map<K, V>, ghost next: seq<Chain<K, V>>,
                              ghost moved: map<K, V>,
                              ghost all: map<K, V>, ghost repr: set<Entry<K, V>>)
    returns (count: nat, ghost rest': seq<Chain<K, V>>, ghost left': map<K, V>, ghost next': seq<Chain<K, V>>,
             ghost moved': map<K, V>)
    requires table != t && i < table.Length && Underway(hash, table, i, rest, left, t, next, moved, all, repr)
    modifies t, repr`next
    ensures Underway(hash, table, i + 1, rest', left', t, next', moved', all, repr) && |left'| + count == |left|
  {
    assert Linked(table[i], rest[i]) && SlotOk(hash, |rest|, rest[i], i, left, repr);
    ghost var own: set<Entry<K, V>> := set e: Entry<K, V> | e in rest[i];
    forall q | 0 <= q < |rest| && q != i ensures forall j :: 0 <= j < |rest[q]| ==> rest[q][j] !in own {
      OtherChain(hash, rest, left, repr, own, i, q);
    }
    count, rest', left', next', moved' := MoveChain(hash, table[i], t, i, own, rest, left, next, moved, all, repr);
    forall q | i + 1 <= q < |rest'| ensures SlotOk(hash, |rest'|, rest'[q], q, left', repr)
      && Linked(table[q], rest'[q]) {
      assert SlotOk(hash, |rest'|, rest'[q], q, left', repr) && rest'[q] == rest[q];
      assert old(Linked(table[q], rest[q]));
    }
  }

  /** Moves all chains. The count of entries still to move comes out as zero. */
  method MoveAll<K(!new), V>(hash: K -> nat, table: array<Entry?<K, V>>, t: array<Entry?<K, V>>, used: nat,
                             ghost chains: seq<Chain<K, V>>, ghost next: seq<Chain<K, V>>, ghost all: map<K, V>,
                             ghost repr: set<Entry<K, V>>)
    returns (n: nat, ghost next': seq<Chain<K, V>>)
    requires table != t && TableOk(hash, table, chains, all, repr) && TableOk(hash, t, next, map[], repr)
             && used == |all|
    modifies t, repr`next
    ensures n == 0 && TableOk(hash, t, next', all, repr)
  {
    var i := 0;
    n, next' := used, next;
    ghost var rest, left, moved := chains, all, map[];
    forall key: K ensures SharedAt(left, moved, all, key) {}
    while i < table.Length && n > 0
      invariant Underway(hash, table, i, rest, left, t, next', moved, all, repr) && n == |left|
      decreases table.Length - i
    {
      var count;
      count, rest, left, next', moved := MoveSlot(hash, table, i, t, rest, left, next', moved, all, repr);
      n := n - count;
      i := i + 1;
    }
    if n > 0 { EmptyChains(hash, rest, left, repr); }
    assert left.Keys == {};
    NothingLeft(left, moved, all);
  }

  lemma {:induction false} EmptyTable<K(!new), V>(hash: K -> nat, t: array<Entry?<K, V>>, next: seq<Chain<K, V>>,
                                                  repr: set<Entry<K, V>>)
    requires |next| == t.Length > 0 && forall i :: 0 <= i < t.Length ==> t[i] == null && next[i] == []
    ensures TableOk(hash, t, next, map[], repr)
  {
  }

  method NewTable<K(!new), V>(hash: K -> nat, size: nat, ghost repr: set<Entry<K, V>>)
    returns (t: array<Entry?<K, V>>, ghost next: seq<Chain<K, V>>)
    requires size > 0
    ensures fresh(t) && t.Length == size && TableOk(hash, t, next, map[], repr)
  {
    t := new Entry?<K, V>[size](_ => null);
    next := seq(size, _ => []);
    EmptyTable(hash, t, next, repr);
  }

  /** The entry de is at j in the chain and prevde is before it. */
  ghost predicate At<K, V>(de: Entry<K, V>, prevde: Entry?<K, V>, j: nat, chain: Chain<K, V>) {
    j < |chain| && de == chain[j] && prevde == (if j == 0 then null else chain[j - 1])
  }

  /** Follows a chain to the entry with the key. */
  method Search<K(==), V>(head: Entry?<K, V>, ghost chain: Chain<K, V>, key: K)
    returns (de: Entry?<K, V>, prevde: Entry?<K, V>, ghost j: nat)
    requires Linked(head, chain)
    ensures de == null ==> forall k :: 0 <= k < |chain| ==> chain[k].key != key
    ensures de != null ==> At(de, prevde, j, chain) && de.key == key
  {
    de, prevde, j := head, null, 0;
    while de != null
      invariant 0 <= j <= |chain| && de == EntryAt(chain, j) && prevde == (if j == 0 then null else chain[j - 1])
      invariant forall k :: 0 <= k < j ==> chain[k].key != key
      decreases |chain| - j
    {
      if de.key == key { return; }
      prevde := de;
      assert chain[j].next == EntryAt(chain, j + 1);
      de := de.next;
      j := j + 1;
    }
  }

  // ---------- the table ----------

  class Dict<K(==, !new), V> {
    const hash: K -> nat
    var table: array<Entry?<K, V>>
    var used: nat
    ghost var chains: seq<Chain<K, V>>
    ghost var contents: map<K, V>
    ghost var repr: set<Entry<K, V>>

    ghost predicate Valid()
      reads this, table, repr
    {
      && used == |contents| <= table.Length && |chains| == table.Length
      && (table.Length == 0 || (PowerOfTwo(table.Length) && INITIAL_SIZE <= table.Length))
      && (table.Length > 0 ==> TableOk(hash, table, chains, contents, repr))
    }

    ghost predicate InTable(e: Entry<K, V>)
      reads this
    {
      |chains| > 0 && e in chains[hash(e.key) % |chains|]
    }

    constructor (hash: K -> nat)
      ensures Valid() && contents == map[] && fresh(table) && repr == {} && this.hash == hash
    {
      this.hash := hash;
      table := new Entry?<K, V>[0];
      used, chains, contents, repr := 0, [], map[], {};
    }

    /** The entry with the key and the one before it, at j in the chain of its slot. */
    method Locate(key: K) returns (de: Entry?<K, V>, prevde: Entry?<K, V>, ghost j: nat)
      requires Valid() && table.Length > 0
      ensures de == null <==> key !in contents
      ensures de != null ==> At(de, prevde, j, chains[hash(key) % table.Length]) && de.key == key
    {
      var h := hash(key) % table.Length;
      ghost var chain := chains[h];
      assert Linked(table[h], chain);
      de, prevde, j := Search(table[h], chain, key);
      if de == null {
        AbsentKey(hash, chains, contents, repr, key);
      } else {
        HeldKey(hash, chains, contents, repr, h, j);
      }
    }

    /** The entry with the key, or none. */
    method Find(key: K) returns (he: Entry?<K, V>)
      requires Valid()
      ensures he == null <==> key !in contents
      ensures he != null ==> he in repr && he.key == key && he.val == contents[key] && InTable(he)
    {
      if table.Length == 0 { return null; }
      ghost var j;
      var prevde;
      he, prevde, j := Locate(key);
      if he != null { HeldKey(hash, chains, contents, repr, hash(key) % table.Length, j); }
    }

    /** Moves all entries to a new table that is big enough for size entries. */
    method Expand(size: nat) returns (ok: bool)
      requires Valid()
      modifies this, table, repr`next
      ensures Valid() && contents == old(contents) && repr == old(repr) && ok == (used <= size)
      ensures if ok then fresh(table) && size <= table.Length
              && (PowerOfTwo(size) && INITIAL_SIZE <= size ==> table.Length == size)
                         && (size <= INITIAL_SIZE ==> table.Length == INITIAL_SIZE)
              else table == old(table)
    {
      if used > size { return false; }
      var realsize := NextPower(size);
      var t, next := NewTable(hash, realsize, repr);
      if table.Length > 0 {
        var left;
        left, next := MoveAll(hash, table, t, used, chains, next, contents, repr);
        assert left == 0;
      } else {
        assert contents == map[];
      }
      table, chains := t, next;
      assert TableOk(hash, table, chains, contents, repr);
      return true;
    }

    /** Expands the table if it is empty or full. It never fails. */
    method ExpandIfNeeded() returns (ok: bool)
      requires Valid()
      modifies this, table, repr`next
      ensures Valid() && contents == old(contents) && repr == old(repr) && ok && used < table.Length
      ensures table == old(table) || fresh(table)
      ensures old(table.Length) == 0 ==> table.Length == INITIAL_SIZE
      ensures 0 < old(used) == old(table.Length) ==> table.Length == 2 * old(table.Length)
      ensures old(used) < old(table.Length) ==> table == old(table)
    {
      if table.Length == 0 {
        ok := Expand(INITIAL_SIZE);
        return;
      }
      if used == table.Length {
        assert 2 * table.Length / 2 == table.Length;
        ok := Expand(2 * table.Length);
        return;
      }
      return true;
    }

    /** The slot for a new entry with the key, unless there is one already. */
    method KeyIndex(key: K) returns (index: Option<nat>)
      requires Valid()
      modifies this, table, repr`next
      ensures Valid() && contents == old(contents) && repr == old(repr) && used < table.Length
      ensures table == old(table) || fresh(table)
      ensures index == if key in contents then None else Some(hash(key) % table.Length)
    {
      var ok := ExpandIfNeeded();
      if !ok { return None; }
      var he := Find(key);
      if he != null { return None; }
      return Some(hash(key) % table.Length);
    }

    /** Adds a binding, unless the key has one. */
    method Add(key: K, val: V) returns (ok: bool)
      requires Valid()
      modifies this, table, repr`next
      ensures Valid() && fresh(repr - old(repr)) && (table == old(table) || fresh(table))
      ensures ok == (key !in old(contents))
      ensures contents == if ok then old(contents)[key := val] else old(contents)
    {
      var index := KeyIndex(key);
      if index.None? { return false; }
      AddNew(key, val);
      return true;
    }

    method AddNew(key: K, val: V)
      requires Valid() && key !in contents && used < table.Length
      modifies this, table, repr`next
      ensures Valid() && fresh(repr - old(repr)) && table == old(table) && contents == old(contents)[key := val]
    {
      var entry := new Entry(key, val);
      ghost var before, held := chains, contents;
      MoreEntries(hash, table, before, held, repr, entry);
      OneMore(held, key, val);
      repr, contents, chains, used := repr + {entry}, held[key := val], Fronted(hash, before, entry), used + 1;
      PushFront(hash, table, before, held, repr, entry);
    }

    /** Sets the value of a key. */
    method Replace(key: K, val: V) returns (added: bool)
      requires Valid()
      modifies this, table, repr
      ensures Valid() && fresh(repr - old(repr)) && (table == old(table) || fresh(table))
      ensures contents == old(contents)[key := val] && added == (key !in old(contents))
    {
      added := Add(key, val);
      if added { return; }
      var entry := Find(key);
      SetValue(entry, val);
    }

    method SetValue(entry: Entry<K, V>, val: V)
      requires Valid() && entry in repr && entry.key in contents && InTable(entry)
      modifies this`contents, entry`val
      ensures Valid() && contents == old(contents)[entry.key := val]
    {
      ghost var held := contents;
      contents := held[entry.key := val];
      assert contents.Keys == held.Keys;
      PutValue(hash, table, chains, held, repr, entry, val);
    }

    /** Removes the binding of a key. The entry is unlinked; those behind it stay as they are. */
    method Delete(key: K) returns (ok: bool, ghost j: nat)
      requires Valid()
      modifies this`used, this`chains, this`contents, table, repr`next
      ensures Valid() && ok == (key in old(contents)) && contents == old(contents) - {key}
      ensures !ok ==> chains == old(chains)
      ensures ok ==> var h := hash(key) % table.Length;
                     && |old(chains)| == table.Length > 0 && j < |old(chains)[h]| && old(chains)[h][j].key == key
                     && chains == old(chains)[h := Without(old(chains)[h], j)]
                     && (forall k :: j < k < |old(chains)[h]| ==> old(chains)[h][k].next == old(chains[h][k].next))
    {
      j := 0;
      if table.Length == 0 {
        assert contents == map[];
        return false, 0;
      }
      var h := hash(key) % table.Length;
      var de, prevde;
      de, prevde, j := Locate(key);
      if de == null {
        assert contents - {key} == contents;
        return false, j;
      }
      Remove(h, de, prevde, j);
      return true, j;
    }

    method Remove(h: nat, de: Entry<K, V>, prevde: Entry?<K, V>, ghost j: nat)
      requires Valid() && h < |chains| && At(de, prevde, j, chains[h])
      modifies this`used, this`chains, this`contents, table, repr`next
      ensures Valid() && de.key in old(contents) && contents == old(contents) - {de.key}
      ensures chains == old(chains)[h := Without(old(chains)[h], j)]
      ensures forall k :: j < k < |old(chains)[h]| ==> old(chains)[h][k].next == old(chains[h][k].next)
    {
      HeldKey(hash, chains, contents, repr, h, j);
      OneLess(contents, de.key);
      ghost var before, held := chains, contents;
      chains, contents, used := chains[h := Without(chains[h], j)], contents - {de.key}, used - 1;
      RemoveAt(hash, table, h, de, prevde, before, held, repr, j);
    }
  }

  /** An entry of the table gets another value. */
  method PutValue<K(!new), V>(hash: K -> nat, t: array<Entry?<K, V>>, ghost chains: seq<Chain<K, V>>,
                              ghost m: map<K, V>, ghost repr: set<Entry<K, V>>, e: Entry<K, V>, val: V)
    requires TableOk(hash, t, chains, m, repr) && e in chains[hash(e.key) % |chains|]
    modifies e`val
    ensures TableOk(hash, t, chains, m[e.key := val], repr)
  {
    OnlyEntry(hash, chains, m, repr, e);
    forall i | 0 <= i < |chains| ensures PlacedIn(hash, |chains|, chains[i], i, repr) && HeldBut(chains[i], m, e) {
      assert SlotOk(hash, |chains|, chains[i], i, m, repr);
    }
    e.val := val;
    ghost var m' := m[e.key := val];
    forall i | 0 <= i < |chains| ensures SlotOk(hash, |chains|, chains[i], i, m', repr) {
      assert PlacedIn(hash, |chains|, chains[i], i, repr) && HeldBut(chains[i], m, e);
    }
  }

  ghost predicate PlacedIn<K, V>(hash: K -> nat, n: nat, chain: Chain<K, V>, i: nat, repr: set<Entry<K, V>>)
    requires n > 0
  {
    Placed(hash, n, chain, i) && forall j :: 0 <= j < |chain| ==> chain[j] in repr
  }

  /** The chain holds bindings of m, but for the value of e. */
  ghost predicate HeldBut<K, V>(chain: Chain<K, V>, m: map<K, V>, e: Entry<K, V>)
    reads (set x | x in chain && x != e)`val
  {
    forall j :: 0 <= j < |chain| ==> chain[j].key in m && (chain[j] != e ==> m[chain[j].key] == chain[j].val)
  }

  /** The link that leads to de, from the entry before it or from the slot, skips it. */
  method Skip<K, V>(t: array<Entry?<K, V>>, h: nat, de: Entry<K, V>, prevde: Entry?<K, V>)
    requires h < t.Length
    modifies t, (if prevde == null then {} else {prevde})`next
    ensures prevde != null ==> prevde.next == old(de.next)
    ensures forall i :: 0 <= i < t.Length ==> t[i] == if i == h && prevde == null then old(de.next) else old(t[i])
  {
    if prevde != null {
      prevde.next := de.next;
    } else {
      t[h] := de.next;
    }
  }

  /** The entry at j leaves the chain of slot h. */
  method RemoveAt<K(!new), V>(hash: K -> nat, t: array<Entry?<K, V>>, h: nat, de: Entry<K, V>,
                              prevde: Entry?<K, V>, ghost chains: seq<Chain<K, V>>, ghost m: map<K, V>,
                              ghost repr: set<Entry<K, V>>, ghost j: nat)
    requires TableOk(hash, t, chains, m, repr) && h < |chains| && j < |chains[h]|
    requires de == chains[h][j] && prevde == (if j == 0 then null else chains[h][j - 1])
    modifies t, (if prevde == null then {} else {prevde})`next
    ensures TableOk(hash, t, chains[h := Without(chains[h], j)], m - {de.key}, repr)
    ensures forall k :: 0 <= k < |chains[h]| && k + 1 != j ==> chains[h][k].next == old(chains[h][k].next)
  {
    SkipLinked(hash, t, h, de, prevde, chains, m, repr, j);
    RemovedTable(hash, t, chains, m, repr, h, j);
  }

  /** The links after the one before de has skipped it. */
  method SkipLinked<K(!new), V>(hash: K -> nat, t: array<Entry?<K, V>>, h: nat, de: Entry<K, V>,
                                prevde: Entry?<K, V>, ghost chains: seq<Chain<K, V>>, ghost m: map<K, V>,
                                ghost repr: set<Entry<K, V>>, ghost j: nat)
    requires TableOk(hash, t, chains, m, repr) && h < |chains| && j < |chains[h]|
    requires de == chains[h][j] && prevde == (if j == 0 then null else chains[h][j - 1])
    modifies t, (if prevde == null then {} else {prevde})`next
    ensures Linked(t[h], Without(chains[h], j))
    ensures forall i {:trigger Linked(t[i], chains[i])} :: 0 <= i < |chains| && i != h ==> Linked(t[i], chains[i])
    ensures forall k :: 0 <= k < |chains[h]| && k + 1 != j ==> chains[h][k].next == old(chains[h][k].next)
  {
    SlotLinks(hash, t, chains, m, repr, h, j);
    Skip(t, h, de, prevde);
    UnlinkedLinks(t[h], chains[h], j);
    forall i | 0 <= i < |chains| && i != h ensures Linked(t[i], chains[i]) {
      assert old(Linked(t[i], chains[i]));
    }
  }

  lemma {:induction false} RemovedTable<K(!new), V>(hash: K -> nat, t: array<Entry?<K, V>>,
                                                    chains: seq<Chain<K, V>>, m: map<K, V>,
                                                    repr: set<Entry<K, V>>, h: nat, j: nat)
    requires |chains| == t.Length > 0 && AllSlotsOk(hash, chains, m, repr) && h < |chains| && j < |chains[h]|
    requires forall i {:trigger Linked(t[i], chains[i])} :: 0 <= i < |chains| && i != h ==> Linked(t[i], chains[i])
    requires Linked(t[h], Without(chains[h], j))
    ensures TableOk(hash, t, chains[h := Without(chains[h], j)], m - {chains[h][j].key}, repr)
  {
    WithoutTable(hash, chains, m, repr, h, j);
    var next, m' := chains[h := Without(chains[h], j)], m - {chains[h][j].key};
    forall i | 0 <= i < |next| ensures SlotOk(hash, |next|, next[i], i, m', repr) && Linked(t[i], next[i]) {
      assert SlotOk(hash, |next|, next[i], i, m', repr);
      assert i != h ==> Linked(t[i], chains[i]);
    }
  }

  /** What is known of the links of slot h, and that its entries are in no other slot. */
  lemma {:induction false} SlotLinks<K(!new), V>(hash: K -> nat, t: array<Entry?<K, V>>, chains: seq<Chain<K, V>>,
                                                 m: map<K, V>, repr: set<Entry<K, V>>, h: nat, j: nat)
    requires TableOk(hash, t, chains, m, repr) && h < |chains| && j < |chains[h]|
    ensures t[h] == EntryAt(chains[h], 0)
    ensures forall k :: 0 <= k < |chains[h]| ==> chains[h][k].next == EntryAt(chains[h], k + 1)
    ensures j > 0 ==> forall k :: 0 <= k < |chains[h]| && k != j - 1 ==> chains[h][k] != chains[h][j - 1]
    ensures j > 0 ==> forall i :: 0 <= i < |chains| && i != h ==> chains[h][j - 1] !in chains[i]
  {
    assert Linked(t[h], chains[h]) && SlotOk(hash, |chains|, chains[h], h, m, repr);
    AbsentElsewhere(hash, chains, m, repr, h);
  }

  lemma {:induction false} HeldKey<K(!new), V>(hash: K -> nat, chains: seq<Chain<K, V>>, m: map<K, V>,
                                               repr: set<Entry<K, V>>, h: nat, j: nat)
    requires |chains| > 0 && AllSlotsOk(hash, chains, m, repr) && h < |chains| && j < |chains[h]|
    ensures chains[h][j].key in m && m[chains[h][j].key] == chains[h][j].val
    ensures forall k :: 0 <= k < |chains[h]| ==> chains[h][k] in repr
  {
    assert SlotOk(hash, |chains|, chains[h], h, m, repr);
  }

  lemma {:induction false} AbsentKey<K(!new), V>(hash: K -> nat, chains: seq<Chain<K, V>>, m: map<K, V>,
                                                 repr: set<Entry<K, V>>, key: K)
    requires |chains| > 0 && AllSlotsOk(hash, chains, m, repr)
    requires forall k :: 0 <= k < |chains[hash(key) % |chains|]| ==> chains[hash(key) % |chains|][k].key != key
    ensures key !in m
  {
    assert !HasKey(chains[hash(key) % |chains|], key);
  }

  /** A chain without its entry at j. */
  ghost function Without<K, V>(chain: Chain<K, V>, j: nat): (r: Chain<K, V>)
    requires j < |chain|
    ensures |r| == |chain| - 1
    ensures forall k :: 0 <= k < |r| ==> r[k] == if k < j then chain[k] else chain[k + 1]
  {
    chain[..j] + chain[j + 1..]
  }

  /** The entry at j was skipped by the link before it, or by the head. */
  lemma {:induction false} UnlinkedLinks<K, V>(head: Entry?<K, V>, chain: Chain<K, V>, j: nat)
    requires j < |chain| && head == (if j == 0 then EntryAt(chain, 1) else chain[0])
    requires forall k :: 0 <= k < |chain| && k + 1 != j ==> chain[k].next == EntryAt(chain, k + 1)
    requires j > 0 ==> chain[j - 1].next == EntryAt(chain, j + 1)
    ensures Linked(head, Without(chain, j))
  {
    var r := Without(chain, j);
    forall k | 0 <= k < |r| ensures r[k].next == EntryAt(r, k + 1) {
      if k + 1 < j {
        assert chain[k].next == EntryAt(chain, k + 1);
      } else if k >= j {
        assert chain[k + 1].next == EntryAt(chain, k + 2);
      }
    }
  }

  lemma {:induction false} AbsentElsewhere<K(!new), V>(hash: K -> nat, chains: seq<Chain<K, V>>, m: map<K, V>,
                                                       repr: set<Entry<K, V>>, h: nat)
    requires |chains| > 0 && AllSlotsOk(hash, chains, m, repr) && h < |chains|
    ensures forall i, k :: 0 <= i < |chains| && i != h && 0 <= k < |chains[h]| ==> chains[h][k] !in chains[i]
  {
    forall i, k | 0 <= i < |chains| && i != h && 0 <= k < |chains[h]| ensures chains[h][k] !in chains[i] {
      assert SlotOk(hash, |chains|, chains[i], i, m, repr) && SlotOk(hash, |chains|, chains[h], h, m, repr);
    }
  }

  lemma {:induction false} WithoutTable<K(!new), V>(hash: K -> nat, chains: seq<Chain<K, V>>, m: map<K, V>,
                                                    repr: set<Entry<K, V>>, h: nat, j: nat)
    requires |chains| > 0 && AllSlotsOk(hash, chains, m, repr) && h < |chains| && j < |chains[h]|
    ensures chains[h][j].key in m
    ensures AllSlotsOk(hash, chains[h := Without(chains[h], j)], m - {chains[h][j].key}, repr)
  {
    var chain, key := chains[h], chains[h][j].key;
    var rest, m' := Without(chain, j), m - {key};
    var next := chains[h := rest];
    assert SlotOk(hash, |chains|, chain, h, m, repr);
    forall i | 0 <= i < |next| ensures SlotOk(hash, |next|, next[i], i, m', repr) {
      assert SlotOk(hash, |chains|, chains[i], i, m, repr);
    }
    forall k | k in m' ensures HasKey(next[hash(k) % |next|], k) {
      assert HasKey(chains[hash(k) % |chains|], k);
      if hash(k) % |next| == h {
        var x :| 0 <= x < |chain| && chain[x].key == k;
        assert rest[if x < j then x else x - 1].key == k;
      }
    }
  }

  lemma {:induction false} OneMore<K, V>(m: map<K, V>, key: K, val: V)
    requires key !in m
    ensures |m[key := val]| == |m| + 1
  {
    assert m[key := val].Keys == m.Keys + {key};
  }

  /** No other entry has its key. */
  lemma {:induction false} OnlyEntry<K(!new), V>(hash: K -> nat, chains: seq<Chain<K, V>>, m: map<K, V>,
                                                 repr: set<Entry<K, V>>, e: Entry<K, V>)
    requires |chains| > 0 && AllSlotsOk(hash, chains, m, repr) && e in chains[hash(e.key) % |chains|]
    ensures forall i, j :: 0 <= i < |chains| && 0 <= j < |chains[i]| && chains[i][j].key == e.key ==> chains[i][j] == e
  {
    forall i, j | 0 <= i < |chains| && 0 <= j < |chains[i]| && chains[i][j].key == e.key ensures chains[i][j] == e {
      assert SlotOk(hash, |chains|, chains[i], i, m, repr);
    }
  }

  /** A new entry that no chain has yet. */
  lemma {:induction false} MoreEntries<K(!new), V>(hash: K -> nat, t: array<Entry?<K, V>>, chains: seq<Chain<K, V>>,
                                                   m: map<K, V>,
                                                   repr: set<Entry<K, V>>, e: Entry<K, V>)
    requires TableOk(hash, t, chains, m, repr)
    ensures TableOk(hash, t, chains, m, repr + {e})
  {
    forall i | 0 <= i < |chains| ensures SlotOk(hash, |chains|, chains[i], i, m, repr + {e})
      && Linked(t[i], chains[i]) {
      assert SlotOk(hash, |chains|, chains[i], i, m, repr) && Linked(t[i], chains[i]);
    }
  }

  // ---------- iteration ----------

  /** The entries of all slots from number i on. */
  ghost function EntriesFrom<K, V>(chains: seq<Chain<K, V>>, i: nat): seq<Entry<K, V>>
    decreases |chains| - i
  {
    if i >= |chains| then [] else chains[i] + EntriesFrom(chains, i + 1)
  }

  ghost predicate DistinctKeys<K, V>(entries: seq<Entry<K, V>>) {
    forall a, b :: 0 <= a < b < |entries| ==> entries[a].key != entries[b].key
  }

  /** The entries of a table are one for each binding, and no key has two. */
  lemma {:induction false} EachKeyOnce<K(!new), V>(hash: K -> nat, chains: seq<Chain<K, V>>, m: map<K, V>,
                                                   repr: set<Entry<K, V>>, i: nat)
    requires |chains| > 0 && AllSlotsOk(hash, chains, m, repr) && i <= |chains|
    ensures var entries := EntriesFrom(chains, i);
            && DistinctKeys(entries)
            && (forall e :: e in entries ==>
                e in repr && e.key in m && m[e.key] == e.val && hash(e.key) % |chains| >= i)
            && (forall key {:trigger key in m} :: key in m && hash(key) % |chains| >= i ==> HasKey(entries, key))
    decreases |chains| - i
  {
    if i < |chains| {
      EachKeyOnce(hash, chains, m, repr, i + 1);
      assert SlotOk(hash, |chains|, chains[i], i, m, repr);
      var front, back := chains[i], EntriesFrom(chains, i + 1);
      assert forall a :: 0 <= a < |back| ==> back[a] in back;
      forall key | key in m && hash(key) % |chains| >= i ensures HasKey(front + back, key) {
        HasKeyEither(front, back, key);
      }
    }
  }

  lemma {:induction false} HasKeyEither<K, V>(front: seq<Entry<K, V>>, back: seq<Entry<K, V>>, key: K)
    ensures HasKey(front, key) || HasKey(back, key) ==> HasKey(front + back, key)
  {
    if HasKey(front, key) {
      var j :| 0 <= j < |front| && front[j].key == key;
      assert (front + back)[j].key == key;
    } else if HasKey(back, key) {
      var j :| 0 <= j < |back| && back[j].key == key;
      assert (front + back)[|front| + j].key == key;
    }
  }
}
