/** What the invariant and the evolution of the tree mean for its users. */
module BPlusTreeTheorems {
  import opened OrderedKeys
  import opened BPlusTreeState
  import opened BPlusTreeSteps

  // ---------- the separators ----------

  /** All keys below a node. */
  ghost function SubtreeKeys(st: State, n: Node): set<Key>
    requires Shape(st) && n in st.store
    decreases st.range[n].level
  {
    assert NodeOk(st, n);
    if st.store[n].isLeaf then set k | k in st.store[n].key
    else ChildrenKeys(st, n, |st.store[n].child|)
  }

  /** All keys below the first i children of a node. */
  ghost function ChildrenKeys(st: State, n: Node, i: nat): set<Key>
    requires Shape(st) && n in st.store && !st.store[n].isLeaf && i <= |st.store[n].child|
    decreases st.range[n].level, i
  {
    assert NodeOk(st, n);
    if i == 0 then {}
    else
      assert ChildOk(st, n, i - 1);
      ChildrenKeys(st, n, i - 1) + SubtreeKeys(st, st.store[n].child[i - 1])
  }

  /** A node's range is exact at the top: it covers all keys below it, and when it has an
      upper end that end is one of them. */
  lemma {:induction false} SubtreeInRange(st: State, n: Node)
    requires Shape(st) && n in st.store
    ensures forall k :: k in SubtreeKeys(st, n) ==> Covers(st.range[n], k)
    ensures st.range[n].hi.Fin? ==> st.range[n].hi.k in SubtreeKeys(st, n)
    decreases st.range[n].level
  {
    assert NodeOk(st, n);
    var v := st.store[n];
    if !v.isLeaf {
      ChildrenInRange(st, n, |v.child|);
      var last := |v.child| - 1;
      assert ChildOk(st, n, last);
      SubtreeInRange(st, v.child[last]);
    }
  }

  lemma {:induction false} ChildrenInRange(st: State, n: Node, i: nat)
    requires Shape(st) && n in st.store && !st.store[n].isLeaf && i <= |st.store[n].child|
    ensures forall k :: k in ChildrenKeys(st, n, i) ==> Covers(st.range[n], k)
    decreases st.range[n].level, 0, i
  {
    assert NodeOk(st, n);
    var v := st.store[n];
    if i > 0 {
      assert ChildOk(st, n, i - 1);
      ChildrenInRange(st, n, i - 1);
      SubtreeInRange(st, v.child[i - 1]);
      if i > 1 { assert Covers(st.range[n], v.key[i - 2]); }
      if i <= |v.key| { assert Covers(st.range[n], v.key[i - 1]); }
    }
  }

  /** Every separator is the largest key of the subtree to its left, and every key of the
      subtree to its right is larger. */
  lemma {:induction false} SeparatorIsLargestOnLeft(st: State, n: Node, i: nat)
    requires Shape(st) && n in st.store && !st.store[n].isLeaf && i < |st.store[n].key|
    ensures |st.store[n].child| == |st.store[n].key| + 1
    ensures ChildOk(st, n, i) && ChildOk(st, n, i + 1)
    ensures var s := st.store[n].key[i];
            && s in SubtreeKeys(st, st.store[n].child[i])
            && (forall k :: k in SubtreeKeys(st, st.store[n].child[i]) ==> k <= s)
            && (forall k {:trigger k in SubtreeKeys(st, st.store[n].child[i + 1])} ::
                  k in SubtreeKeys(st, st.store[n].child[i + 1]) ==> s < k)
  {
    assert NodeOk(st, n) && ChildOk(st, n, i) && ChildOk(st, n, i + 1);
    SubtreeInRange(st, st.store[n].child[i]);
    SubtreeInRange(st, st.store[n].child[i + 1]);
  }

  // ---------- the depth ----------

  /** How many parent pointers lead from a node to the root. */
  ghost function Ancestors(st: State, n: Node): nat
    requires Shape(st) && n in st.store
    decreases st.range[st.root].level - st.range[n].level
  {
    assert NodeOk(st, n);
    if n == st.root then 0
    else
      assert ParentOk(st, n);
      ParentIsOneUp(st, n);
      1 + Ancestors(st, st.store[n].parent)
  }

  lemma {:induction false} ParentIsOneUp(st: State, n: Node)
    requires Shape(st) && n in st.store && n != st.root
    ensures var p := st.store[n].parent;
            p != null && p in st.store && st.range[p].level == st.range[n].level + 1 <= st.range[st.root].level
  {
    assert NodeOk(st, n) && ParentOk(st, n);
    var p: Node := st.store[n].parent;
    assert NodeOk(st, p);
    var i :| 0 <= i < |st.store[p].child| && st.store[p].child[i] == n;
    assert ChildOk(st, p, i);
  }

  /** All leaves are equally far from the root, at level depth. */
  lemma {:induction false} LeavesAtDepth(st: State, n: Node)
    requires Shape(st) && n in st.store
    ensures Ancestors(st, n) + st.range[n].level == st.depth - 1
    ensures st.store[n].isLeaf ==> Ancestors(st, n) == st.depth - 1
    decreases st.range[st.root].level - st.range[n].level
  {
    assert NodeOk(st, n);
    if n != st.root {
      ParentIsOneUp(st, n);
      LeavesAtDepth(st, st.store[n].parent);
    }
  }

  // ---------- remembered nodes over whole runs ----------

  /** One insert of a key not yet stored, as the tree's method promises it. */
  ghost predicate InsertStep(m: nat, a: State, ca: map<Key, Value>, k: Key, v: Value, b: State, cb: map<Key, Value>) {
    && Valid(m, a) && Represents(a, ca) && k !in ca
    && Valid(m, b) && Represents(b, cb) && cb == ca[k := v]
    && Later(a, b)
  }

  /** Entering the leaf and clearing the overflow make one such step. */
  lemma {:induction false} CompleteInsert(m: nat, a: State, ca: map<Key, Value>, k: Key, v: Value, mid: State, b: State,
                       cb: map<Key, Value>)
    requires Valid(m, a) && Represents(a, ca) && k !in ca
    requires mid.store.Keys == mid.range.Keys && Later(a, mid) && Later(mid, b)
    requires Valid(m, b) && Represents(b, cb) && cb == ca[k := v]
    ensures InsertStep(m, a, ca, k, v, b, cb)
  {
    LaterTransitive(a, mid, b);
  }

  /** A run of inserts: kv[i] leads from heap h[i] with contents c[i] to h[i + 1] and c[i + 1]. */
  ghost predicate Run(m: nat, h: seq<State>, c: seq<map<Key, Value>>, kv: seq<(Key, Value)>) {
    && |h| == |c| == |kv| + 1
    && Valid(m, h[0]) && Represents(h[0], c[0])
    && forall i :: 0 <= i < |kv| ==> InsertStep(m, h[i], c[i], kv[i].0, kv[i].1, h[i + 1], c[i + 1])
  }

  /** The contents after a run are the contents before it and every pair inserted. */
  ghost function Fold(c: map<Key, Value>, kv: seq<(Key, Value)>): map<Key, Value>
  {
    if kv == [] then c
    else Fold(c, kv[..|kv| - 1])[kv[|kv| - 1].0 := kv[|kv| - 1].1]
  }

  lemma {:induction false} RunKeeps(m: nat, h: seq<State>, c: seq<map<Key, Value>>, kv: seq<(Key, Value)>)
    requires Run(m, h, c, kv)
    ensures Valid(m, h[|kv|]) && Represents(h[|kv|], c[|kv|]) && Later(h[0], h[|kv|])
    ensures c[|kv|] == Fold(c[0], kv)
  {
    var n := |kv|;
    if n == 0 {
      assert Later(h[0], h[0]);
    } else {
      assert Run(m, h[..n], c[..n], kv[..n - 1]);
      RunKeeps(m, h[..n], c[..n], kv[..n - 1]);
      assert InsertStep(m, h[n - 1], c[n - 1], kv[n - 1].0, kv[n - 1].1, h[n], c[n]);
      LaterTransitive(h[0], h[n - 1], h[n]);
    }
  }

  /** n is on the way of a descent for k that starts at from. */
  ghost predicate Visits(st: State, from: Node, k: Key, n: Node)
    requires Shape(st) && from in st.store
    decreases st.range[from].level
  {
    n == from || (!st.store[from].isLeaf && Visits(st, Next(st, from, k), k, n))
  }

  lemma {:induction false} VisitedCovers(st: State, from: Node, k: Key, n: Node)
    requires Shape(st) && from in st.store && Covers(st.range[from], k) && Visits(st, from, k, n)
    ensures n in st.store && Covers(st.range[n], k)
    decreases st.range[from].level
  {
    if n != from {
      NextCovers(st, from, k);
      VisitedCovers(st, Next(st, from, k), k, n);
    }
  }

  /** With no insert in between, a lookup may start at any node an earlier lookup of the
      same key went through. */
  lemma {:induction false} FreshNodeIsExact(st: State, k: Key, n: Node)
    requires Shape(st) && Visits(st, st.root, k, n)
    ensures n in st.store && LookupFrom(st, n, k) == LookupFrom(st, st.root, k)
  {
    VisitedCovers(st, st.root, k, n);
    LookupFromAnyNode(st, n, k);
  }

  /** A descent never enters a range that starts at or above its key. */
  lemma {:induction false} VisitedUnder(st: State, from: Node, k: Key, n: Node)
    requires Shape(st) && from in st.store && Under(st.range[from].lo, k) && Visits(st, from, k, n)
    ensures n in st.store && Under(st.range[n].lo, k)
    decreases st.range[from].level
  {
    if n != from {
      var i := LowerBound(st.store[from].key, k);
      assert NodeOk(st, from) && ChildOk(st, from, i);
      VisitedUnder(st, Next(st, from, k), k, n);
    }
  }

  /** A node that a lookup went through and left to be remembered, and the heap it was in. */
  datatype Hop = Hop(at: nat, node: Node)

  /** Lookups of k over a run, each from where the one before was remembered: the first starts
      at the root, a later one at the node before, and any number of inserts lie in between. */
  ghost predicate Trail(h: seq<State>, k: Key, s: seq<Hop>)
    requires s != []
  {
    var x := s[|s| - 1];
    && x.at < |h| && Shape(h[x.at])
    && if |s| == 1 then Visits(h[x.at], h[x.at].root, k, x.node)
       else
         var y := s[|s| - 2];
         && Trail(h, k, s[..|s| - 1]) && y.at <= x.at
         && y.node in h[x.at].store && Visits(h[x.at], y.node, k, x.node)
  }

  /** Between two moments of a run the heap only evolves. */
  lemma {:induction false} LaterInRun(m: nat, h: seq<State>, c: seq<map<Key, Value>>, kv: seq<(Key, Value)>, i: nat,
                                      j: nat)
    requires Run(m, h, c, kv) && i <= j <= |kv|
    ensures Valid(m, h[i]) && Valid(m, h[j]) && Represents(h[j], c[j]) && Later(h[i], h[j])
  {
    if i > 0 {
      assert InsertStep(m, h[i - 1], c[i - 1], kv[i - 1].0, kv[i - 1].1, h[i], c[i]);
    }
    var h', c', kv' := h[i..j + 1], c[i..j + 1], kv[i..j];
    forall l | 0 <= l < |kv'| ensures InsertStep(m, h'[l], c'[l], kv'[l].0, kv'[l].1, h'[l + 1], c'[l + 1]) {
      assert InsertStep(m, h[i + l], c[i + l], kv[i + l].0, kv[i + l].1, h[i + l + 1], c[i + l + 1]);
    }
    RunKeeps(m, h', c', kv');
  }

  /** Wherever a trail leads, its key lies above the start of the node's range. */
  lemma {:induction false} TrailUnder(m: nat, h: seq<State>, c: seq<map<Key, Value>>, kv: seq<(Key, Value)>, k: Key,
                                      s: seq<Hop>)
    requires Run(m, h, c, kv) && s != [] && Trail(h, k, s)
    ensures var x := s[|s| - 1];
            x.at <= |kv| && Shape(h[x.at]) && x.node in h[x.at].store && Under(h[x.at].range[x.node].lo, k)
    decreases |s|
  {
    var x := s[|s| - 1];
    if |s| == 1 {
      VisitedUnder(h[x.at], h[x.at].root, k, x.node);
    } else {
      var y := s[|s| - 2];
      TrailUnder(m, h, c, kv, k, s[..|s| - 1]);
      LaterInRun(m, h, c, kv, y.at, x.at);
      assert NodeLater(h[y.at], h[x.at], y.node);
      VisitedUnder(h[x.at], y.node, k, x.node);
    }
  }

  /** A remembered node goes stale but stays harmless: however it was reached, at any later
      moment of the run a lookup that starts at it answers as a lookup from the root, or,
      exactly when its range has shrunk below k, it answers nothing. */
  lemma {:induction false} StaleNodeIsHarmless(m: nat, h: seq<State>, c: seq<map<Key, Value>>,
                                               kv: seq<(Key, Value)>, k: Key, s: seq<Hop>, now: nat)
    requires Run(m, h, c, kv) && s != [] && Trail(h, k, s) && s[|s| - 1].at <= now <= |kv|
    ensures var st, n := h[now], s[|s| - 1].node;
            && Shape(st) && n in st.store
            && LookupFrom(st, n, k) == if AtMost(k, st.range[n].hi) then LookupFrom(st, st.root, k) else []
  {
    var x := s[|s| - 1];
    TrailUnder(m, h, c, kv, k, s);
    LaterInRun(m, h, c, kv, x.at, now);
    assert NodeLater(h[x.at], h[now], x.node);
    LookupFromAnyNode(h[now], x.node, k);
  }

  /** In terms of what is stored: a remembered node never yields the value of another key for
      a stored one; it yields that key's value or nothing. */
  lemma {:induction false} StaleNodeNeverLies(m: nat, h: seq<State>, c: seq<map<Key, Value>>,
                                              kv: seq<(Key, Value)>, k: Key, s: seq<Hop>, now: nat)
    requires Run(m, h, c, kv) && s != [] && Trail(h, k, s) && s[|s| - 1].at <= now <= |kv|
    requires k in Fold(c[0], kv[..now])
    ensures Shape(h[now]) && s[|s| - 1].node in h[now].store
    ensures LookupFrom(h[now], s[|s| - 1].node, k) in {Fold(c[0], kv[..now])[k], []}
  {
    StaleNodeIsHarmless(m, h, c, kv, k, s, now);
    assert Run(m, h[..now + 1], c[..now + 1], kv[..now]);
    RunKeeps(m, h[..now + 1], c[..now + 1], kv[..now]);
    StoredKeyIsFound(h[now], c[now], k);
  }

  /** The root, and the last child of a node on the right edge. */
  ghost predicate OnRightEdge(st: State, n: Node)
    requires Shape(st) && n in st.store
    decreases st.range[st.root].level - st.range[n].level
  {
    assert NodeOk(st, n);
    n == st.root ||
    (ParentIsOneUp(st, n);
     var p: Node := st.store[n].parent;
     var child := st.store[p].child;
     child != [] && child[|child| - 1] == n && OnRightEdge(st, p))
  }

  lemma {:induction false} RightEdgeIsOpen(st: State, n: Node)
    requires Shape(st) && n in st.store
    ensures OnRightEdge(st, n) <==> st.range[n].hi.PosInf?
    decreases st.range[st.root].level - st.range[n].level
  {
    assert NodeOk(st, n);
    if n != st.root {
      ParentIsOneUp(st, n);
      var p: Node := st.store[n].parent;
      var i :| 0 <= i < |st.store[p].child| && st.store[p].child[i] == n;
      assert NodeOk(st, p) && ChildOk(st, p, i);
      DistinctChildren(st, p, i);
      RightEdgeIsOpen(st, p);
    }
  }

  /** Whether a remembered node still answers shows in the tree: it does if and only if it is on the
      right edge or some key below it is not below k. */
  lemma {:induction false} StaleNodeByItsKeys(m: nat, h: seq<State>, c: seq<map<Key, Value>>,
                                              kv: seq<(Key, Value)>, k: Key, s: seq<Hop>, now: nat)
    requires Run(m, h, c, kv) && s != [] && Trail(h, k, s) && s[|s| - 1].at <= now <= |kv|
    ensures var st, n := h[now], s[|s| - 1].node;
            && Shape(st) && n in st.store
            && LookupFrom(st, n, k) ==
               if OnRightEdge(st, n) || exists x :: x in SubtreeKeys(st, n) && k <= x then LookupFrom(st, st.root, k)
               else []
  {
    StaleNodeIsHarmless(m, h, c, kv, k, s, now);
    SubtreeInRange(h[now], s[|s| - 1].node);
    RightEdgeIsOpen(h[now], s[|s| - 1].node);
    assert NodeOk(h[now], s[|s| - 1].node);
  }

  /** Of a leaf the last key decides. */
  lemma {:induction false} StaleLeafByItsLastKey(m: nat, h: seq<State>, c: seq<map<Key, Value>>,
                                                 kv: seq<(Key, Value)>, k: Key, s: seq<Hop>, now: nat)
    requires Run(m, h, c, kv) && s != [] && Trail(h, k, s) && s[|s| - 1].at <= now <= |kv|
    requires var n := s[|s| - 1].node; n in h[now].store && h[now].store[n].isLeaf
    ensures var st, n := h[now], s[|s| - 1].node;
            var key := st.store[n].key;
            && Shape(st)
            && LookupFrom(st, n, k) ==
               if OnRightEdge(st, n) || (key != [] && k <= key[|key| - 1]) then LookupFrom(st, st.root, k) else []
  {
    StaleNodeIsHarmless(m, h, c, kv, k, s, now);
    RightEdgeIsOpen(h[now], s[|s| - 1].node);
    assert NodeOk(h[now], s[|s| - 1].node);
  }

  /** The empty answer does happen: in a tree of order 2 the first leaf, remembered by a
      lookup of 2 before 2 was inserted, misses 2 for good once 1 and 2 are both stored. */
  lemma {:induction false} StaleNodeCanMiss(h: seq<State>, c: seq<map<Key, Value>>, v: Value, w: Value)
    requires Run(2, h, c, [(1.0, v), (2.0, w)]) && c[0] == map[] && h[0].depth == 1
    ensures Visits(h[0], h[0].root, 2.0, h[0].root)
    ensures Shape(h[2]) && h[0].root in h[2].store && LookupFrom(h[2], h[0].root, 2.0) == []
    ensures LookupFrom(h[2], h[2].root, 2.0) == w
  {
    var kv := [(1.0, v), (2.0, w)];
    RunKeeps(2, h, c, kv);
    var n, st := h[0].root, h[2];
    assert InsertStep(2, h[0], c[0], kv[0].0, kv[0].1, h[1], c[1]);
    assert InsertStep(2, h[1], c[1], kv[1].0, kv[1].1, h[2], c[2]);
    StoredKeyIsFound(st, c[2], 1.0);
    StoredKeyIsFound(st, c[2], 2.0);
    assert NodeLater(h[0], st, n) && NodeOk(h[0], n) && NodeOk(st, n);
    assert SizeOk(2, st, n, null);
    if AtMost(2.0, st.range[n].hi) {
      BothInLeaf(st, c[2], n);
      assert false;
    }
    LookupFromAnyNode(st, n, 2.0);
  }

  lemma {:induction false} BothInLeaf(st: State, c: map<Key, Value>, n: Node)
    requires Shape(st) && Represents(st, c) && 1.0 in c && 2.0 in c
    requires n in st.store && st.store[n].isLeaf && st.range[n].lo == NegInf && AtMost(2.0, st.range[n].hi)
    ensures |st.store[n].key| >= 2
  {
    InLeafBetween(st, c, n, 1.0, 2.0, 1.0);
    InLeafBetween(st, c, n, 1.0, 2.0, 2.0);
  }
}
