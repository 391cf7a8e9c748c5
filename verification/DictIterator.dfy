/** Iterating over the hash table, and deleting what the iterator returns on the way. */
module DictIterators {
  import opened DictChains
  import opened Dicts

  class DictIterator<K(==, !new), V> {
    const ht: Dict<K, V>
    var index: int
    var entry: Entry?<K, V>
    var nextEntry: Entry?<K, V>
    /** Where in the chain of the slot the entries still to be returned begin. */
    ghost var from: nat

    ghost predicate Valid()
      reads this, ht, ht.repr
    {
      -1 <= index && (entry != null ==> Within() && Linked(nextEntry, Rest()))
    }

    /** The iterator is inside a slot of the table. */
    ghost predicate Within()
      reads this, ht
    {
      0 <= index < |ht.chains| && from <= |ht.chains[index]| && forall e :: e in Rest() ==> e in ht.repr
    }

    ghost function Rest(): Chain<K, V>
      requires 0 <= index < |ht.chains| && from <= |ht.chains[index]|
      reads this, ht
    {
      ht.chains[index][from..]
    }

    /** The entries still to be returned, in order. */
    ghost function Remaining(): seq<Entry<K, V>>
      requires Valid()
      reads this, ht, ht.repr
    {
      if entry == null then EntriesFrom(ht.chains, index + 1) else Rest() + EntriesFrom(ht.chains, index + 1)
    }

    /** The entry returned last is still in its chain. */
    ghost predicate AtEntry()
      requires Valid()
      reads this, ht, ht.repr
    {
      entry != null && from > 0 && ht.chains[index][from - 1] == entry
    }

    constructor (ht: Dict<K, V>)
      requires ht.Valid()
      ensures this.ht == ht && Valid() && Remaining() == EntriesFrom(ht.chains, 0)
    {
      this.ht := ht;
      index, entry, nextEntry, from := -1, null, null, 0;
    }

    /** The next entry, or none: each of those remaining comes out in turn, and then none for ever. */
    method Next() returns (he: Entry?<K, V>)
      requires Valid() && ht.Valid()
      modifies this
      ensures Valid()
      ensures if old(Remaining()) == [] then he == null && Remaining() == []
              else he == old(Remaining())[0] && Remaining() == old(Remaining())[1..] && entry == he && AtEntry()
    {
      var done := false;
      he := null;
      while !done
        invariant Valid() && ht.Valid()
        invariant if !done then Remaining() == old(Remaining())
                  else if old(Remaining()) == [] then he == null && Remaining() == []
                  else he == old(Remaining())[0] && Remaining() == old(Remaining())[1..] && entry == he && AtEntry()
        decreases !done, ht.table.Length - index, entry != null
      {
        done, he := TryNext();
      }
    }

    /** One round: an entry, or the end, or on to the next slot. */
    method TryNext() returns (done: bool, he: Entry?<K, V>)
      requires Valid() && ht.Valid()
      modifies this
      ensures Valid()
      ensures if !done then Remaining() == old(Remaining()) && entry == null && index < ht.table.Length
                            && (index > old(index) || (index == old(index) && old(entry) != null))
              else if old(Remaining()) == [] then he == null && Remaining() == []
              else he == old(Remaining())[0] && Remaining() == old(Remaining())[1..] && entry == he && AtEntry()
    {
      ghost var all := Remaining();
      var ended := Advance(all);
      if ended { return true, null; }
      if entry != null {
        Take(all);
        return true, entry;
      }
      assert Rest() == [] && [] + EntriesFrom(ht.chains, index + 1) == EntriesFrom(ht.chains, index + 1);
      return false, null;
    }

    /** On to the next link, or to the next slot if the chain has ended. */
    method Advance(ghost all: seq<Entry<K, V>>) returns (ended: bool)
      requires Valid() && ht.Valid() && all == Remaining()
      modifies this`index, this`entry, this`from
      ensures ended ==> all == [] && entry == null && index >= ht.table.Length && index >= 0
      ensures !ended ==> Within() && Linked(entry, Rest()) && all == Rest() + EntriesFrom(ht.chains, index + 1)
      ensures if old(entry) == null then index == old(index) + 1 else index == old(index)
    {
      if entry != null {
        entry := nextEntry;
        return false;
      }
      index := index + 1;
      if index >= ht.table.Length { return true; }
      entry, from := ht.table[index], 0;
      HeadOf(ht.hash, ht.table, ht.chains, ht.contents, ht.repr, index);
      assert Rest() == ht.chains[index];
      return false;
    }

    /** The entry the iterator has come to is the one to return. */
    method Take(ghost all: seq<Entry<K, V>>)
      requires -1 <= index && Within() && entry != null && Linked(entry, Rest())
      requires all == Rest() + EntriesFrom(ht.chains, index + 1)
      modifies this`nextEntry, this`from
      ensures Valid() && AtEntry() && all != [] && entry == all[0] && Remaining() == all[1..]
    {
      ghost var chain := Rest();
      nextEntry := entry.next;
      from := from + 1;
      LinkedTail(entry, chain);
      assert Rest() == chain[1..];
      DropFirst(chain, EntriesFrom(ht.chains, index + 1));
    }

    /** Deletes the entry returned last. The iteration goes on as if it were still there. */
    method DeleteReturned()
      requires Valid() && ht.Valid() && AtEntry()
      modifies `from, ht`used, ht`chains, ht`contents, ht.table, ht.repr`next
      ensures Valid() && ht.Valid() && Remaining() == old(Remaining())
      ensures ht.contents == old(ht.contents) - {entry.key}
    {
      ghost var rest, later := Rest(), EntriesFrom(ht.chains, index + 1);
      DeleteBefore(ht, entry.key, nextEntry, index, from - 1, rest);
      from := from - 1;
      assert Rest() == rest && EntriesFrom(ht.chains, index + 1) == later;
    }
  }

  /** Deletes the key of the entry at j of slot i. The chain behind it stays linked. */
  method DeleteBefore<K(==, !new), V>(ht: Dict<K, V>, key: K, next: Entry?<K, V>, ghost i: nat, ghost j: nat,
                                      ghost rest: Chain<K, V>)
    requires ht.Valid() && i < |ht.chains| && j < |ht.chains[i]| && ht.chains[i][j].key == key
    requires rest == ht.chains[i][j + 1..] && Linked(next, rest)
    modifies ht`used, ht`chains, ht`contents, ht.table, ht.repr`next
    ensures ht.Valid() && ht.contents == old(ht.contents) - {key} && Linked(next, rest)
    ensures |ht.chains| == |old(ht.chains)| && j <= |ht.chains[i]| && ht.chains[i][j..] == rest
    ensures EntriesFrom(ht.chains, i + 1) == EntriesFrom(old(ht.chains), i + 1)
  {
    ghost var chains := ht.chains;
    KeyPlace(ht.hash, chains, ht.contents, ht.repr, i, j);
    LinksOf(next, rest);
    var ok, at := ht.Delete(key);
    assert at == j;
    SuffixLinked(next, chains[i], j, rest);
    PiecesBehind(chains, ht.chains, i, j);
  }

  lemma {:induction false} LinksOf<K, V>(head: Entry?<K, V>, chain: Chain<K, V>)
    requires Linked(head, chain)
    ensures head == EntryAt(chain, 0) && forall k :: 0 <= k < |chain| ==> chain[k].next == EntryAt(chain, k + 1)
  {
  }

  lemma {:induction false} SuffixLinked<K, V>(head: Entry?<K, V>, chain: Chain<K, V>, j: nat, rest: Chain<K, V>)
    requires j < |chain| && rest == chain[j + 1..] && head == EntryAt(rest, 0)
    requires forall k :: j < k < |chain| ==> chain[k].next == EntryAt(chain, k + 1)
    ensures Linked(head, rest)
  {
    forall k | 0 <= k < |rest| ensures rest[k].next == EntryAt(rest, k + 1) {
      assert rest[k] == chain[j + 1 + k];
      assert chain[j + 1 + k].next == EntryAt(chain, j + 1 + k + 1);
    }
  }

  /** Behind the entry that is gone nothing has changed. */
  lemma {:induction false} PiecesBehind<K, V>(chains: seq<Chain<K, V>>, now: seq<Chain<K, V>>, i: nat, j: nat)
    requires i < |chains| && j < |chains[i]| && now == chains[i := Without(chains[i], j)]
    ensures now[i][j..] == chains[i][j + 1..] && EntriesFrom(now, i + 1) == EntriesFrom(chains, i + 1)
  {
    LaterEntries(chains, now, i + 1);
  }

  /** A key is at one place only, in its slot. */
  lemma {:induction false} KeyPlace<K(!new), V>(hash: K -> nat, chains: seq<Chain<K, V>>, m: map<K, V>,
                                                repr: set<Entry<K, V>>, i: nat, j: nat)
    requires |chains| > 0 && AllSlotsOk(hash, chains, m, repr) && i < |chains| && j < |chains[i]|
    ensures var key := chains[i][j].key;
            && key in m && hash(key) % |chains| == i
            && forall k :: 0 <= k < |chains[i]| && chains[i][k].key == key ==> k == j
  {
    assert SlotOk(hash, |chains|, chains[i], i, m, repr);
  }

  lemma {:induction false} LaterEntries<K, V>(a: seq<Chain<K, V>>, b: seq<Chain<K, V>>, i: nat)
    requires |a| == |b| && forall q :: i <= q < |a| ==> a[q] == b[q]
    ensures EntriesFrom(b, i) == EntriesFrom(a, i)
    decreases |a| - i
  {
    if i < |a| { LaterEntries(a, b, i + 1); }
  }

  lemma {:induction false} DropFirst<T>(a: seq<T>, b: seq<T>)
    requires a != []
    ensures (a + b)[1..] == a[1..] + b && (a + b)[0] == a[0]
  {
  }

  lemma {:induction false} HeadOf<K(!new), V>(hash: K -> nat, t: array<Entry?<K, V>>, chains: seq<Chain<K, V>>,
                                              m: map<K, V>, repr: set<Entry<K, V>>, i: nat)
    requires TableOk(hash, t, chains, m, repr) && i < |chains|
    ensures Linked(t[i], chains[i]) && forall e :: e in chains[i] ==> e in repr
  {
    assert Linked(t[i], chains[i]) && SlotOk(hash, |chains|, chains[i], i, m, repr);
  }

  // ---------- a whole iteration ----------

  /** What is left of m when the keys seen so far were dropped where drop says so. */
  ghost predicate Kept<K(!new), V>(m: map<K, V>, seen: seq<K>, drop: K -> bool, now: map<K, V>) {
    forall key: K {:trigger KeptAt(m, seen, drop, now, key)} :: KeptAt(m, seen, drop, now, key)
  }

  ghost predicate KeptAt<K(!new), V>(m: map<K, V>, seen: seq<K>, drop: K -> bool, now: map<K, V>, key: K) {
    && (key in now <==> key in m && !(drop(key) && key in seen))
    && (key in now ==> now[key] == m[key])
  }

  lemma {:induction false} KeptFurther<K(!new), V>(m: map<K, V>, seen: seq<K>, drop: K -> bool, now: map<K, V>, key: K)
    requires Kept(m, seen, drop, now)
    ensures Kept(m, seen + [key], drop, if drop(key) then now - {key} else now)
  {
    var seen', now' := seen + [key], if drop(key) then now - {key} else now;
    forall k: K ensures KeptAt(m, seen', drop, now', k) {
      assert KeptAt(m, seen, drop, now, k);
    }
  }

  ghost function Keys<K, V>(entries: seq<Entry<K, V>>): (keys: seq<K>)
    ensures |keys| == |entries| && forall i :: 0 <= i < |keys| ==> keys[i] == entries[i].key
  {
    seq(|entries|, i requires 0 <= i < |entries| => entries[i].key)
  }

  /** Every key of m is in keys exactly once, and no other. */
  ghost predicate Lists<K(!new), V>(keys: seq<K>, m: map<K, V>) {
    (forall a, b :: 0 <= a < b < |keys| ==> keys[a] != keys[b]) && forall key :: key in keys <==> key in m
  }

  lemma {:induction false} TableKeys<K(!new), V>(ht: Dict<K, V>)
    requires ht.Valid()
    ensures Lists(Keys(EntriesFrom(ht.chains, 0)), ht.contents)
  {
    var entries, m := EntriesFrom(ht.chains, 0), ht.contents;
    if |ht.chains| > 0 {
      EachKeyOnce(ht.hash, ht.chains, m, ht.repr, 0);
      assert forall i :: 0 <= i < |entries| ==> entries[i] in entries;
      forall key | key in m ensures key in Keys(entries) {
        assert HasKey(entries, key);
        var j :| 0 <= j < |entries| && entries[j].key == key;
        assert Keys(entries)[j] == key;
      }
    } else {
      assert m == map[];
    }
  }

  /** The entry just returned is deleted if drop says so, and the next one is fetched. */
  method Round<K(==, !new), V>(it: DictIterator<K, V>, ht: Dict<K, V>, he: Entry<K, V>, drop: K -> bool)
    returns (next: Entry?<K, V>)
    requires it.ht == ht && it.Valid() && ht.Valid() && it.entry == he && it.AtEntry()
    modifies it, ht`used, ht`chains, ht`contents, ht.table, ht.repr`next
    ensures it.Valid() && ht.Valid()
    ensures ht.contents == if drop(he.key) then old(ht.contents) - {he.key} else old(ht.contents)
    ensures if old(it.Remaining()) == [] then next == null
            else next == old(it.Remaining())[0] && it.Remaining() == old(it.Remaining())[1..] && it.entry == next
                 && it.AtEntry()
  {
    if drop(he.key) { it.DeleteReturned(); }
    next := it.Next();
  }

  /** Goes on from the first entry of an iteration. */
  method SweepFrom<K(==, !new), V>(it: DictIterator<K, V>, ht: Dict<K, V>, first: Entry?<K, V>, drop: K -> bool,
                                   ghost all: seq<Entry<K, V>>, ghost m: map<K, V>) returns (seen: seq<K>)
    requires it.ht == ht && it.Valid() && ht.Valid() && m == ht.contents
    requires Progress(all, [], first, it.Remaining()) && (first != null ==> it.entry == first && it.AtEntry())
    modifies it, ht`used, ht`chains, ht`contents, ht.table, ht.repr`next
    ensures ht.Valid() && seen == Keys(all) && Kept(m, seen, drop, ht.contents)
  {
    var he := first;
    ghost var before: seq<Entry<K, V>> := [];
    seen := [];
    forall key: K ensures KeptAt(m, seen, drop, ht.contents, key) {}
    while he != null
      invariant it.Valid() && ht.Valid() && Kept(m, seen, drop, ht.contents)
      invariant Progress(all, before, he, it.Remaining()) && seen == Keys(before)
      invariant he != null ==> it.entry == he && it.AtEntry()
      decreases |all| - |before|
    {
      var e: Entry<K, V> := he;
      KeptFurther(m, seen, drop, ht.contents, e.key);
      ProgressFurther(all, before, e, it.Remaining());
      seen, before := seen + [e.key], before + [e];
      he := Round(it, ht, e, drop);
    }
  }

  /** Iterates over the whole table and deletes, on the way, the keys that drop says. Every key of
      the table comes out exactly once, and exactly those are gone in the end. */
  method Sweep<K(==, !new), V>(ht: Dict<K, V>, drop: K -> bool) returns (seen: seq<K>)
    requires ht.Valid()
    modifies ht`used, ht`chains, ht`contents, ht.table, ht.repr`next
    ensures ht.Valid() && Lists(seen, old(ht.contents)) && Kept(old(ht.contents), seen, drop, ht.contents)
  {
    ghost var all := EntriesFrom(ht.chains, 0);
    TableKeys(ht);
    var it := new DictIterator(ht);
    var he := it.Next();
    ProgressStart(all, he, it.Remaining());
    seen := SweepFrom(it, ht, he, drop, all, ht.contents);
  }

  /** All entries: those before, the one at hand if there is one, and those remaining. */
  ghost predicate Progress<K, V>(all: seq<Entry<K, V>>, before: seq<Entry<K, V>>, he: Entry?<K, V>,
                                 remaining: seq<Entry<K, V>>) {
    if he == null then before == all else before + ([he] + remaining) == all
  }

  lemma {:induction false} ProgressStart<K, V>(all: seq<Entry<K, V>>, he: Entry?<K, V>, remaining: seq<Entry<K, V>>)
    requires if he == null then all == [] else all != [] && he == all[0] && remaining == all[1..]
    ensures Progress(all, [], he, remaining)
  {
    if he != null { assert all == [all[0]] + all[1..]; }
  }

  lemma {:induction false} ProgressFurther<K, V>(all: seq<Entry<K, V>>, before: seq<Entry<K, V>>, he: Entry<K, V>,
                                                 remaining: seq<Entry<K, V>>)
    requires Progress(all, before, he, remaining)
    ensures |before| < |all| && Keys(before + [he]) == Keys(before) + [he.key]
    ensures remaining == [] ==> Progress(all, before + [he], null, [])
    ensures remaining != [] ==> Progress(all, before + [he], remaining[0], remaining[1..])
  {
    if remaining != [] { assert remaining == [remaining[0]] + remaining[1..]; }
  }
}
