/** Keys, ordered key vectors and the search the tree uses on them. */
module OrderedKeys {
  // The tree only compares keys.  b_plus_tree.h keys it by strings in lexicographic order;
  // EmbeddingKeepsOrder maps these into the reals.
  type Key = real

  type Char = c: int | 0 <= c < 256

  /** operator< of std::string. */
  predicate Lexicographic(s: seq<Char>, t: seq<Char>) {
    if t == [] then false
    else s == [] || s[0] < t[0] || (s[0] == t[0] && Lexicographic(s[1..], t[1..]))
  }

  function Embedded(s: seq<Char>): (x: Key)
    ensures 0.0 <= x < 1.0
  {
    if s == [] then 0.0 else (s[0] as real + 1.0 + Embedded(s[1..])) / 257.0
  }

  /** Strings are ordered as the numbers they are mapped to, so different strings have different
      ones, and every statement about keys is one about strings. */
  lemma {:induction false} EmbeddingKeepsOrder(s: seq<Char>, t: seq<Char>)
    ensures Lexicographic(s, t) <==> Embedded(s) < Embedded(t)
    ensures s == t <==> Embedded(s) == Embedded(t)
  {
    if s != [] && t != [] {
      EmbeddingKeepsOrder(s[1..], t[1..]);
      assert s == [s[0]] + s[1..] && t == [t[0]] + t[1..];
    }
  }

  ghost predicate Sorted(s: seq<Key>) {
    forall i, j :: 0 <= i < j < |s| ==> s[i] < s[j]
  }

  /** std::lower_bound: the first position whose key is not below k. */
  function LowerBound(s: seq<Key>, k: Key): (p: nat)
    ensures p <= |s|
    ensures forall j :: 0 <= j < p ==> s[j] < k
    ensures p < |s| ==> k <= s[p]
  {
    if s == [] || k <= s[0] then 0
    else
      var r := LowerBound(s[1..], k);
      assert forall j :: 0 < j < r + 1 ==> s[j] == s[1..][j - 1];
      1 + r
  }

  lemma {:induction false} LowerBoundUnique(s: seq<Key>, k: Key, p: nat)
    requires Sorted(s) && p <= |s|
    requires p > 0 ==> s[p - 1] < k
    requires p < |s| ==> k <= s[p]
    ensures LowerBound(s, k) == p
  {
  }

  /** vector::insert of one element before position p. */
  function InsertAt<T>(s: seq<T>, p: nat, x: T): (r: seq<T>)
    requires p <= |s|
    ensures |r| == |s| + 1
    ensures forall j :: 0 <= j < |r| ==> r[j] == if j < p then s[j] else if j == p then x else s[j - 1]
  {
    s[..p] + [x] + s[p..]
  }

  lemma {:induction false} InsertSorted(s: seq<Key>, p: nat, x: Key)
    requires Sorted(s) && p <= |s|
    requires p > 0 ==> s[p - 1] < x
    requires p < |s| ==> x < s[p]
    ensures Sorted(InsertAt(s, p, x))
  {
    var r := InsertAt(s, p, x);
    forall i, j | 0 <= i < j < |r| ensures r[i] < r[j] {
      if j == p {
        assert s[i] <= s[p - 1];
      } else if i == p {
        assert s[p] <= s[j - 1];
      }
    }
  }
}

/** The heap of a B+ tree as a value, its invariant, and what descents through it find. */
module BPlusTreeState {
  import opened OrderedKeys

  /** A list of named fields; a missing record is the empty list. */
  type Value = seq<(string, string)>

  class Node {
    var isLeaf: bool
    var parent: Node?
    var key: seq<Key>
    var val: seq<Value>
    var child: seq<Node>

    constructor ()
      ensures isLeaf && parent == null && key == [] && val == [] && child == []
    {
      isLeaf, parent, key, val, child := true, null, [], [], [];
    }

    ghost function Fields(): Contents
      reads this
    {
      Contents(isLeaf, parent, key, val, child)
    }
  }

  /** The fields of one node. */
  datatype Contents = Contents(isLeaf: bool, parent: Node?, key: seq<Key>, val: seq<Value>, child: seq<Node>)

  datatype Bound = NegInf | Fin(k: Key) | PosInf

  ghost predicate Under(b: Bound, k: Key) { b.NegInf? || (b.Fin? && b.k < k) }

  ghost predicate AtMost(k: Key, b: Bound) { b.PosInf? || (b.Fin? && k <= b.k) }

  ghost predicate BoundLt(a: Bound, b: Bound) {
    match b
    case NegInf => false
    case Fin(k) => Under(a, k)
    case PosInf => !a.PosInf?
  }

  ghost predicate BoundLe(a: Bound, b: Bound) { a == b || BoundLt(a, b) }

  /** A node is responsible for the keys in (lo, hi]; level counts from the leaves. */
  datatype Range = Range(lo: Bound, hi: Bound, level: nat)

  ghost predicate Covers(r: Range, k: Key) { Under(r.lo, k) && AtMost(k, r.hi) }

  datatype State = State(store: map<Node, Contents>, range: map<Node, Range>, root: Node, depth: nat)

  // ---------- the invariant, node by node ----------

  ghost predicate ChildOk(st: State, n: Node, i: nat)
    requires n in st.store && n in st.range && i < |st.store[n].child| == |st.store[n].key| + 1
  {
    var v, r, c := st.store[n], st.range[n], st.store[n].child[i];
    && c in st.store && c in st.range
    && st.store[c].parent == n
    && st.range[c].level == r.level - 1
    && st.range[c].lo == (if i == 0 then r.lo else Fin(v.key[i - 1]))
    && st.range[c].hi == (if i == |v.key| then r.hi else Fin(v.key[i]))
  }

  ghost predicate KeysOk(v: Contents, r: Range) {
    && Sorted(v.key)
    && (forall i :: 0 <= i < |v.key| ==> Covers(r, v.key[i]))
    && BoundLt(r.lo, r.hi)
    && (v.isLeaf <==> r.level == 0)
    && (v.isLeaf ==> |v.val| == |v.key| && v.child == [] && (r.hi.Fin? ==> v.key != [] && v.key[|v.key| - 1] == r.hi.k))
    && (!v.isLeaf ==> v.val == [] && |v.child| == |v.key| + 1)
  }

  ghost predicate ParentOk(st: State, n: Node)
    requires n in st.store
  {
    var p := st.store[n].parent;
    if n == st.root then p == null
    else p != null && p in st.store && n in st.store[p].child
  }

  ghost predicate NodeOk(st: State, n: Node)
    requires n in st.store && n in st.range && st.root in st.range
  {
    var v := st.store[n];
    && KeysOk(v, st.range[n])
    && st.range[n].level <= st.range[st.root].level
    && ParentOk(st, n)
    && (forall i {:trigger ChildOk(st, n, i)} :: 0 <= i < |v.child| ==> ChildOk(st, n, i))
  }

  /** Everything but the node sizes. */
  ghost predicate Shape(st: State) {
    && st.store.Keys == st.range.Keys
    && st.root in st.store
    && st.depth > 0
    && st.range[st.root] == Range(NegInf, PosInf, st.depth - 1)
    && (forall n {:trigger NodeOk(st, n)} :: n in st.store ==> NodeOk(st, n))
  }

  /** Occupancy of a node in a tree of order m; only the node over may hold one key too many. */
  ghost predicate SizeOk(m: nat, st: State, n: Node, over: Node?)
    requires n in st.store
  {
    var v := st.store[n];
    && |v.key| <= (if n == over then m else m - 1)
    && (n != st.root ==> if v.isLeaf then m / 2 <= |v.key| else m - m / 2 - 1 <= |v.key|)
    && (n == st.root && !v.isLeaf ==> 1 <= |v.key|)
  }

  ghost predicate ValidBut(m: nat, st: State, over: Node?) {
    && m >= 2
    && Shape(st)
    && (forall n {:trigger SizeOk(m, st, n, over)} :: n in st.store ==> SizeOk(m, st, n, over))
  }

  /** The B+ tree invariant. */
  ghost predicate Valid(m: nat, st: State) { ValidBut(m, st, null) }

  // ---------- what is stored ----------

  ghost predicate Holds(st: State, n: Node, i: nat, k: Key, v: Value) {
    && n in st.store && st.store[n].isLeaf
    && i < |st.store[n].key| && i < |st.store[n].val|
    && st.store[n].key[i] == k && st.store[n].val[i] == v
  }

  /** The leaves hold exactly the bindings of m. */
  ghost predicate Represents(st: State, m: map<Key, Value>) {
    && (forall n, i, k, v :: n in st.store && Holds(st, n, i, k, v) ==> k in m && m[k] == v)
    && (forall k :: k in m ==> exists n, i :: n in st.store && Holds(st, n, i, k, m[k]))
  }

  // ---------- descents ----------

  /** The child index both descents take at an internal node. */
  ghost function Next(st: State, n: Node, k: Key): (c: Node)
    requires Shape(st) && n in st.store && !st.store[n].isLeaf
    ensures c in st.store && st.range[c].level == st.range[n].level - 1 && st.store[c].parent == n
  {
    var i := LowerBound(st.store[n].key, k);
    assert NodeOk(st, n) && ChildOk(st, n, i);
    st.store[n].child[i]
  }

  ghost function Descend(st: State, n: Node, k: Key): (leaf: Node)
    requires Shape(st) && n in st.store
    ensures leaf in st.store && st.store[leaf].isLeaf
    decreases st.range[n].level
  {
    if st.store[n].isLeaf then n else Descend(st, Next(st, n, k), k)
  }

  /** What a lookup of k that starts at n returns: line 57 of b_plus_tree.h
      only asks whether the search ran off the end of the leaf. */
  ghost function LookupFrom(st: State, n: Node, k: Key): Value
    requires Shape(st) && n in st.store
  {
    var leaf := st.store[Descend(st, n, k)];
    assert NodeOk(st, Descend(st, n, k));
    var i := LowerBound(leaf.key, k);
    if i == |leaf.key| then [] else leaf.val[i]
  }

  lemma {:induction false} NextCovers(st: State, n: Node, k: Key)
    requires Shape(st) && n in st.store && !st.store[n].isLeaf && Covers(st.range[n], k)
    ensures Covers(st.range[Next(st, n, k)], k)
  {
    var i := LowerBound(st.store[n].key, k);
    assert NodeOk(st, n) && ChildOk(st, n, i);
  }

  lemma {:induction false} DescendCovers(st: State, n: Node, k: Key)
    requires Shape(st) && n in st.store && Covers(st.range[n], k)
    ensures Covers(st.range[Descend(st, n, k)], k)
    decreases st.range[n].level
  {
    if !st.store[n].isLeaf {
      NextCovers(st, n, k);
      DescendCovers(st, Next(st, n, k), k);
    }
  }

  /** A child that covers k is the child a descent for k takes. */
  lemma {:induction false} NextIsCoveringChild(st: State, p: Node, i: nat, k: Key)
    requires Shape(st) && p in st.store && !st.store[p].isLeaf
    requires i < |st.store[p].child| == |st.store[p].key| + 1
    requires ChildOk(st, p, i) && Covers(st.range[st.store[p].child[i]], k)
    ensures LowerBound(st.store[p].key, k) == i
    ensures Next(st, p, k) == st.store[p].child[i]
    ensures Covers(st.range[p], k)
  {
    assert NodeOk(st, p);
    LowerBoundUnique(st.store[p].key, k, i);
    var r, key := st.range[p], st.store[p].key;
    if i > 0 { assert Covers(r, key[i - 1]); }
    if i < |key| { assert Covers(r, key[i]); }
  }

  /** The root's descent for k passes through every node whose range covers k. */
  lemma {:induction false} RootDescentPassesThrough(st: State, n: Node, k: Key)
    requires Shape(st) && n in st.store && Covers(st.range[n], k)
    ensures Descend(st, st.root, k) == Descend(st, n, k)
    decreases st.range[st.root].level - st.range[n].level
  {
    if n != st.root {
      assert NodeOk(st, n) && ParentOk(st, n);
      var p: Node := st.store[n].parent;
      var i :| 0 <= i < |st.store[p].child| && st.store[p].child[i] == n;
      assert NodeOk(st, p) && ChildOk(st, p, i);
      NextIsCoveringChild(st, p, i, k);
      RootDescentPassesThrough(st, p, k);
    }
  }

  /** Past the top of its range, a node's descent ends at its last leaf. */
  lemma {:induction false} DescendPastRange(st: State, n: Node, k: Key)
    requires Shape(st) && n in st.store && !AtMost(k, st.range[n].hi)
    ensures LookupFrom(st, n, k) == []
    decreases st.range[n].level
  {
    assert NodeOk(st, n);
    var key, r := st.store[n].key, st.range[n];
    forall i | 0 <= i < |key| ensures key[i] < k {
      assert Covers(r, key[i]);
    }
    assert LowerBound(key, k) == |key|;
    if !st.store[n].isLeaf {
      assert ChildOk(st, n, |key|);
      DescendPastRange(st, Next(st, n, k), k);
    }
  }

  /** A lookup may start at any node whose range starts below k: it answers as the
      root would, or, when k lies past the node's range, it answers nothing. */
  lemma {:induction false} LookupFromAnyNode(st: State, n: Node, k: Key)
    requires Shape(st) && n in st.store && Under(st.range[n].lo, k)
    ensures LookupFrom(st, n, k) == if AtMost(k, st.range[n].hi) then LookupFrom(st, st.root, k) else []
  {
    if AtMost(k, st.range[n].hi) {
      RootDescentPassesThrough(st, n, k);
    } else {
      DescendPastRange(st, n, k);
    }
  }

  /** A stored binding sits in the leaf that the root's descent reaches. */
  lemma {:induction false} StoredKeyIsReached(st: State, n: Node, i: nat, k: Key, v: Value)
    requires Shape(st) && Holds(st, n, i, k, v)
    ensures Descend(st, st.root, k) == n
  {
    assert NodeOk(st, n);
    assert Covers(st.range[n], st.store[n].key[i]);
    RootDescentPassesThrough(st, n, k);
  }

  /** x is the least key of m that is not below k. */
  ghost predicate IsLeastAtOrAbove(m: map<Key, Value>, k: Key, x: Key) {
    x in m && k <= x && forall y :: y in m && k <= y ==> x <= y
  }

  /** A lookup from the root returns the value of the least stored key at or above k,
      and nothing when every stored key is below k. */
  lemma {:induction false} RootLookup(st: State, m: map<Key, Value>, k: Key)
    requires Shape(st) && Represents(st, m)
    ensures (exists x :: x in m && k <= x) ==>
              exists x :: IsLeastAtOrAbove(m, k, x) && LookupFrom(st, st.root, k) == m[x]
    ensures (forall x :: x in m ==> x < k) ==> LookupFrom(st, st.root, k) == []
  {
    var n := Descend(st, st.root, k);
    DescendCovers(st, st.root, k);
    var i := LowerBound(st.store[n].key, k);
    if i < |st.store[n].key| {
      LeafAnswerIsLeast(st, m, n, k, i);
      assert IsLeastAtOrAbove(m, k, st.store[n].key[i]);
    } else {
      LastLeafIsExhausted(st, m, n, k);
    }
  }

  lemma {:induction false} LeafAnswerIsLeast(st: State, m: map<Key, Value>, n: Node, k: Key, i: nat)
    requires Shape(st) && Represents(st, m) && n in st.store && st.store[n].isLeaf
    requires Under(st.range[n].lo, k)
    requires i == LowerBound(st.store[n].key, k) < |st.store[n].key|
    ensures |st.store[n].val| == |st.store[n].key|
    ensures var x := st.store[n].key[i];
            IsLeastAtOrAbove(m, k, x) && m[x] == st.store[n].val[i]
  {
    assert NodeOk(st, n);
    var key := st.store[n].key;
    var x := key[i];
    assert Holds(st, n, i, x, st.store[n].val[i]);
    assert Covers(st.range[n], x);
    forall y | y in m && k <= y ensures x <= y {
      if y < x {
        InLeafBetween(st, m, n, k, x, y);
        assert false;
      }
    }
  }

  lemma {:induction false} LastLeafIsExhausted(st: State, m: map<Key, Value>, n: Node, k: Key)
    requires Shape(st) && Represents(st, m) && n in st.store && st.store[n].isLeaf
    requires Covers(st.range[n], k) && LowerBound(st.store[n].key, k) == |st.store[n].key|
    ensures forall y :: y in m ==> y < k
  {
    assert NodeOk(st, n);
    assert !st.range[n].hi.Fin?;
    forall y | y in m ensures y < k {
      if k <= y {
        InLeafBetween(st, m, n, k, y, y);
        assert false;
      }
    }
  }

  /** A stored key between two keys of a leaf's range is in that leaf. */
  lemma {:induction false} InLeafBetween(st: State, m: map<Key, Value>, n: Node, k: Key, x: Key, y: Key)
    requires Shape(st) && Represents(st, m) && n in st.store && st.store[n].isLeaf
    requires Under(st.range[n].lo, k) && AtMost(x, st.range[n].hi) && y in m && k <= y <= x
    ensures y in st.store[n].key
  {
    var l, j :| l in st.store && Holds(st, l, j, y, m[y]);
    StoredKeyIsReached(st, l, j, y, m[y]);
    RootDescentPassesThrough(st, n, y);
  }

  /** In particular a stored key is found, with its own value. */
  lemma {:induction false} StoredKeyIsFound(st: State, m: map<Key, Value>, k: Key)
    requires Shape(st) && Represents(st, m) && k in m
    ensures LookupFrom(st, st.root, k) == m[k]
  {
    RootLookup(st, m, k);
    var x :| IsLeastAtOrAbove(m, k, x) && LookupFrom(st, st.root, k) == m[x];
    assert x <= k;
  }
}
