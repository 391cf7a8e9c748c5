/** The three ways insert changes the heap, as functions on heap values, and what each keeps. */
module BPlusTreeSteps {
  import opened OrderedKeys
  import opened BPlusTreeState

  // ---------- how a tree may evolve ----------

  /** Nothing an earlier pointer relies on is lost: a node stays a node, keeps its kind and
      the bottom of its range, and its range only ever shrinks from the top. */
  ghost predicate NodeLater(a: State, b: State, n: Node)
    requires n in a.store && n in a.range
  {
    && n in b.store && n in b.range
    && b.store[n].isLeaf == a.store[n].isLeaf
    && b.range[n].lo == a.range[n].lo
    && b.range[n].level == a.range[n].level
    && BoundLe(b.range[n].hi, a.range[n].hi)
  }

  ghost predicate Later(a: State, b: State)
    requires a.store.Keys == a.range.Keys
  {
    forall n {:trigger NodeLater(a, b, n)} :: n in a.store ==> NodeLater(a, b, n)
  }

  lemma {:induction false} LaterTransitive(a: State, b: State, c: State)
    requires a.store.Keys == a.range.Keys && b.store.Keys == b.range.Keys
    requires Later(a, b) && Later(b, c)
    ensures Later(a, c)
  {
    forall n | n in a.store ensures NodeLater(a, c, n) {
      assert NodeLater(a, b, n) && NodeLater(b, c, n);
    }
  }

  // ---------- a key enters a leaf ----------

  ghost function PutInLeaf(st: State, n: Node, k: Key, v: Value): State
    requires n in st.store && |st.store[n].val| == |st.store[n].key|
  {
    var c := st.store[n];
    var p := LowerBound(c.key, k);
    st.(store := st.store[n := c.(key := InsertAt(c.key, p, k), val := InsertAt(c.val, p, v))])
  }

  lemma {:induction false} PutInLeafNode(m: nat, st: State, n: Node, k: Key, v: Value, x: Node)
    requires Valid(m, st) && n in st.store && st.store[n].isLeaf && |st.store[n].val| == |st.store[n].key|
    requires Covers(st.range[n], k) && k !in st.store[n].key && x in st.store
    ensures var t := PutInLeaf(st, n, k, v);
            NodeOk(t, x) && SizeOk(m, t, x, n) && NodeLater(st, t, x)
  {
    assert NodeOk(st, x) && SizeOk(m, st, x, null);
    if x == n {
      PutInLeafItself(st, n, k, v);
    } else {
      PutInLeafOther(st, n, k, v, x);
    }
  }

  /** The leaf gains the key and keeps its links. */
  lemma {:induction false} PutInLeafItself(st: State, n: Node, k: Key, v: Value)
    requires Shape(st) && n in st.store && st.store[n].isLeaf && |st.store[n].val| == |st.store[n].key|
    requires Covers(st.range[n], k) && k !in st.store[n].key
    ensures NodeOk(PutInLeaf(st, n, k, v), n) && NodeLater(st, PutInLeaf(st, n, k, v), n)
  {
    assert NodeOk(st, n);
    var t := PutInLeaf(st, n, k, v);
    InsertSorted(st.store[n].key, LowerBound(st.store[n].key, k), k);
    assert KeysOk(t.store[n], t.range[n]);
    assert ParentOk(t, n) by {
      assert ParentOk(st, n);
    }
  }

  /** Every other node sees the same children and the same parent. */
  lemma {:induction false} PutInLeafOther(st: State, n: Node, k: Key, v: Value, x: Node)
    requires Shape(st) && n in st.store && st.store[n].isLeaf && |st.store[n].val| == |st.store[n].key|
    requires x in st.store && x != n
    ensures NodeOk(PutInLeaf(st, n, k, v), x) && NodeLater(st, PutInLeaf(st, n, k, v), x)
  {
    assert NodeOk(st, x);
    var t := PutInLeaf(st, n, k, v);
    assert ParentOk(t, x) by {
      assert ParentOk(st, x);
    }
    forall i | 0 <= i < |t.store[x].child| ensures ChildOk(t, x, i) {
      assert ChildOk(st, x, i);
    }
  }

  lemma {:induction false} PutInLeafShape(m: nat, st: State, n: Node, k: Key, v: Value)
    requires Valid(m, st) && n in st.store && st.store[n].isLeaf
    requires Covers(st.range[n], k) && k !in st.store[n].key
    ensures |st.store[n].val| == |st.store[n].key|
    ensures ValidBut(m, PutInLeaf(st, n, k, v), n)
    ensures Later(st, PutInLeaf(st, n, k, v))
  {
    assert NodeOk(st, n);
    var t := PutInLeaf(st, n, k, v);
    forall x | x in st.store ensures NodeOk(t, x) && SizeOk(m, t, x, n) && NodeLater(st, t, x) {
      PutInLeafNode(m, st, n, k, v, x);
    }
  }

  lemma {:induction false} PutInLeafContents(st: State, n: Node, k: Key, v: Value, m: map<Key, Value>)
    requires Shape(st) && Represents(st, m) && n in st.store && st.store[n].isLeaf
    requires |st.store[n].val| == |st.store[n].key| && k !in m
    ensures Represents(PutInLeaf(st, n, k, v), m[k := v])
  {
    var t := PutInLeaf(st, n, k, v);
    var m' := m[k := v];
    var p := LowerBound(st.store[n].key, k);
    forall x, i, a, b | x in t.store && Holds(t, x, i, a, b) ensures a in m' && m'[a] == b {
      if x != n || i < p {
        assert Holds(st, x, i, a, b);
      } else if i > p {
        assert Holds(st, x, i - 1, a, b);
      }
    }
    forall a | a in m' ensures exists x, i :: x in t.store && Holds(t, x, i, a, m'[a]) {
      if a == k {
        assert Holds(t, n, p, k, v);
      } else {
        var x, i :| x in st.store && Holds(st, x, i, a, m[a]);
        assert Holds(t, x, if x == n && i >= p then i + 1 else i, a, m[a]);
      }
    }
  }

  /** The leaf the root's descent reaches is the right place for a key not yet stored. */
  lemma {:induction false} PutNewKey(m: nat, st: State, n: Node, k: Key, v: Value, c: map<Key, Value>)
    requires Valid(m, st) && Represents(st, c) && k !in c && n == Descend(st, st.root, k)
    ensures |st.store[n].val| == |st.store[n].key|
    ensures var t := PutInLeaf(st, n, k, v);
            ValidBut(m, t, n) && Represents(t, c[k := v]) && Later(st, t)
  {
    DescendCovers(st, st.root, k);
    assert NodeOk(st, n);
    forall i | 0 <= i < |st.store[n].key| ensures st.store[n].key[i] != k {
      assert Holds(st, n, i, st.store[n].key[i], st.store[n].val[i]);
    }
    PutInLeafShape(m, st, n, k, v);
    PutInLeafContents(st, n, k, v, c);
  }

  lemma {:induction false} NotOverfull(m: nat, st: State, n: Node)
    requires ValidBut(m, st, n) && n in st.store && |st.store[n].key| < m
    ensures Valid(m, st)
  {
    forall x | x in st.store ensures SizeOk(m, st, x, null) {
      assert SizeOk(m, st, x, n);
    }
  }

  // ---------- the tree grows a new root ----------

  /** Lines 129-135 of b_plus_tree.h: a new root whose only child is the old one. */
  ghost function Grow(st: State, root: Node): State
    requires st.root in st.store && st.root in st.range
  {
    var top := st.store[st.root];
    State(st.store[st.root := top.(parent := root)][root := Contents(false, null, [], [], [st.root])],
          st.range[root := Range(NegInf, PosInf, st.depth)],
          root, st.depth + 1)
  }

  lemma {:induction false} GrowShape(st: State, root: Node)
    requires Shape(st) && root !in st.store
    ensures Shape(Grow(st, root)) && Later(st, Grow(st, root))
  {
    var t := Grow(st, root);
    assert NodeOk(st, st.root);
    forall x | x in t.store ensures NodeOk(t, x) {
      if x != root {
        assert NodeOk(st, x);
        forall i | 0 <= i < |t.store[x].child| ensures ChildOk(t, x, i) {
          assert ChildOk(st, x, i);
        }
        assert ParentOk(st, x);
      } else {
        assert ChildOk(t, root, 0);
      }
    }
  }

  lemma {:induction false} GrowContents(st: State, root: Node, m: map<Key, Value>)
    requires st.root in st.store && st.root in st.range && root !in st.store && Represents(st, m)
    ensures Represents(Grow(st, root), m)
  {
    var t := Grow(st, root);
    forall x, i, k, v | x in t.store && Holds(t, x, i, k, v) ensures k in m && m[k] == v {
      assert Holds(st, x, i, k, v);
    }
    forall k | k in m ensures exists x, i :: x in t.store && Holds(t, x, i, k, m[k]) {
      var x, i :| x in st.store && Holds(st, x, i, k, m[k]);
      assert Holds(t, x, i, k, m[k]);
    }
  }

  // ---------- an overfull node is split ----------

  /** What the two branches of the split keep in the left node, move to the right node and
      send to the parent (b_plus_tree.h, lines 142-147 and 155-162). */
  ghost function LeftHalf(m: nat, c: Contents): Contents
    requires m >= 2 && |c.key| == m && (if c.isLeaf then |c.val| == m else |c.child| == m + 1)
  {
    if c.isLeaf then c.(key := c.key[..m / 2], val := c.val[..m / 2])
    else c.(key := c.key[..m / 2], child := c.child[..m / 2 + 1])
  }

  ghost function RightHalf(m: nat, c: Contents): Contents
    requires m >= 2 && |c.key| == m && (if c.isLeaf then |c.val| == m else |c.child| == m + 1)
  {
    if c.isLeaf then Contents(true, c.parent, c.key[m / 2..], c.val[m / 2..], [])
    else Contents(false, c.parent, c.key[m / 2 + 1..], [], c.child[m / 2 + 1..])
  }

  ghost function Separator(m: nat, c: Contents): Key
    requires m >= 2 && |c.key| == m
  {
    if c.isLeaf then c.key[m / 2 - 1] else c.key[m / 2]
  }

  /** n, child number i of p, has one key too many. */
  ghost predicate SplitAt(m: nat, st: State, n: Node, p: Node, i: nat) {
    && m >= 2 && Shape(st) && n in st.store && p in st.store && st.store[n].parent == p
    && i < |st.store[p].child| == |st.store[p].key| + 1 && st.store[p].child[i] == n
    && |st.store[n].key| == m
    && (if st.store[n].isLeaf then |st.store[n].val| == m else |st.store[n].child| == m + 1)
  }

  /** The fields of node x after n has been split and its new right sibling hung under p. */
  ghost function SplitFields(m: nat, st: State, n: Node, p: Node, i: nat, right: Node, x: Node): Contents
    requires SplitAt(m, st, n, p, i) && (x in st.store || x == right)
  {
    var c, pc := st.store[n], st.store[p];
    if x == right then RightHalf(m, c)
    else if x == n then LeftHalf(m, c)
    else if x == p then pc.(key := InsertAt(pc.key, i, Separator(m, c)), child := InsertAt(pc.child, i + 1, right))
    else if x in RightHalf(m, c).child then st.store[x].(parent := right)
    else st.store[x]
  }

  ghost function Split(m: nat, st: State, n: Node, p: Node, i: nat, right: Node): State
    requires SplitAt(m, st, n, p, i)
  {
    var r, sep := st.range[n], Separator(m, st.store[n]);
    State(map x | x in st.store.Keys + {right} :: SplitFields(m, st, n, p, i, right, x),
          st.range[n := Range(r.lo, Fin(sep), r.level)][right := Range(Fin(sep), r.hi, r.level)],
          st.root, st.depth)
  }

  lemma {:induction false} SplitFacts(m: nat, st: State, n: Node, p: Node, i: nat)
    requires SplitAt(m, st, n, p, i)
    ensures n != p && n != st.root && !st.store[p].isLeaf
    ensures ChildOk(st, p, i) && KeysOk(st.store[p], st.range[p]) && KeysOk(st.store[n], st.range[n])
    ensures BoundLt(st.range[n].lo, Fin(Separator(m, st.store[n])))
    ensures BoundLt(Fin(Separator(m, st.store[n])), st.range[n].hi)
    ensures p !in st.store[n].child && n !in st.store[n].child
  {
    assert NodeOk(st, p) && NodeOk(st, n);
    assert ChildOk(st, p, i);
    var c, r, h := st.store[n], st.range[n], m / 2;
    assert Covers(r, c.key[if c.isLeaf then h - 1 else h]);
    forall j | 0 <= j < |c.child| ensures c.child[j] != p && c.child[j] != n {
      assert ChildOk(st, n, j);
    }
    if c.isLeaf {
      assert Covers(r, c.key[h]) && c.key[h - 1] < c.key[h];
    } else {
      assert ChildOk(st, n, m);
      assert NodeOk(st, c.child[m]);
      assert c.key[h] <= c.key[m - 1];
    }
  }

  /** What cutting a node in two has to know of it. */
  lemma {:induction false} DetachFacts(m: nat, st: State, n: Node, p: Node, i: nat)
    requires SplitAt(m, st, n, p, i)
    ensures var c := st.store[n];
            && m >= 2 && |c.key| == m && n != p && (!c.isLeaf ==> c.val == [])
            && (if c.isLeaf then |c.val| == m && c.child == [] else |c.child| == m + 1)
            && (forall x :: x in RightHalf(m, c).child ==> x in st.store && x != n && x != p)
  {
    SplitFacts(m, st, n, p, i);
    var c := st.store[n];
    forall x | x in RightHalf(m, c).child ensures x in st.store && x != n && x != p {
      var j :| 0 <= j < |c.child| && c.child[j] == x;
      assert NodeOk(st, n) && ChildOk(st, n, j);
    }
  }

  /** The fields of a node other than the parent once the split node is cut. */
  lemma {:induction false} Detached(m: nat, st: State, n: Node, p: Node, i: nat, right: Node, x: Node, f: Contents)
    requires SplitAt(m, st, n, p, i) && x in st.store && x != p && x != right
    requires var c := st.store[n];
             f == if x == n then LeftHalf(m, c)
                  else st.store[x].(parent := if x in RightHalf(m, c).child then right else st.store[x].parent)
    ensures f == SplitFields(m, st, n, p, i, right, x)
  {
  }

  lemma {:induction false} HalvesOk(m: nat, st: State, n: Node, p: Node, i: nat)
    requires SplitAt(m, st, n, p, i)
    ensures var c, r, s := st.store[n], st.range[n], Separator(m, st.store[n]);
            && KeysOk(LeftHalf(m, c), Range(r.lo, Fin(s), r.level))
            && KeysOk(RightHalf(m, c), Range(Fin(s), r.hi, r.level))
  {
    SplitFacts(m, st, n, p, i);
    var c, r, h, s := st.store[n], st.range[n], m / 2, Separator(m, st.store[n]);
    var left, right := LeftHalf(m, c), RightHalf(m, c);
    forall j | 0 <= j < |left.key| ensures Covers(Range(r.lo, Fin(s), r.level), left.key[j]) {
      assert Covers(r, c.key[j]);
    }
    forall j | 0 <= j < |right.key| ensures Covers(Range(Fin(s), r.hi, r.level), right.key[j]) {
      assert Covers(r, c.key[j + m - |right.key|]);
    }
  }

  lemma {:induction false} ParentKeysOk(m: nat, st: State, n: Node, p: Node, i: nat)
    requires SplitAt(m, st, n, p, i)
    ensures var pc := st.store[p];
            KeysOk(pc.(key := InsertAt(pc.key, i, Separator(m, st.store[n])),
                       child := InsertAt(pc.child, i + 1, n)), st.range[p])
  {
    SplitFacts(m, st, n, p, i);
    var key, r, s := st.store[p].key, st.range[p], Separator(m, st.store[n]);
    InsertSorted(key, i, s);
    if i > 0 { assert Covers(r, key[i - 1]); }
    if i < |key| { assert Covers(r, key[i]); }
    var key' := InsertAt(key, i, s);
    forall j | 0 <= j < |key'| ensures Covers(r, key'[j]) {
      if j < i { assert Covers(r, key[j]); } else if j > i { assert Covers(r, key[j - 1]); }
    }
  }

  /** Where the children of the split node end up. */
  lemma {:induction false} SplitChildren(m: nat, st: State, n: Node, p: Node, i: nat, right: Node, x: Node)
    requires SplitAt(m, st, n, p, i) && right !in st.store
    requires x == n || x == right
    ensures var t := Split(m, st, n, p, i, right);
            forall j :: 0 <= j < |t.store[x].child| && |t.store[x].child| == |t.store[x].key| + 1 ==> ChildOk(t, x, j)
  {
    var t := Split(m, st, n, p, i, right);
    forall j | 0 <= j < |t.store[x].child| && |t.store[x].child| == |t.store[x].key| + 1 ensures ChildOk(t, x, j) {
      if x == n {
        SplitLeftChild(m, st, n, p, i, right, j);
      } else {
        SplitRightChild(m, st, n, p, i, right, j);
      }
    }
  }

  lemma {:induction false} SplitLeftChild(m: nat, st: State, n: Node, p: Node, i: nat, right: Node, j: nat)
    requires SplitAt(m, st, n, p, i) && right !in st.store
    requires var c := Split(m, st, n, p, i, right).store[n]; j < |c.child| == |c.key| + 1
    ensures ChildOk(Split(m, st, n, p, i, right), n, j)
  {
    SplitFacts(m, st, n, p, i);
    var t := Split(m, st, n, p, i, right);
    var c, h := st.store[n], m / 2;
    assert NodeOk(st, n) && ChildOk(st, n, j);
    assert t.store[n].child[j] == c.child[j];
    DistinctChildren(st, n, j);
    assert c.child[j] !in c.child[h + 1..];
  }

  lemma {:induction false} SplitRightChild(m: nat, st: State, n: Node, p: Node, i: nat, right: Node, j: nat)
    requires SplitAt(m, st, n, p, i) && right !in st.store
    requires var c := Split(m, st, n, p, i, right).store[right]; j < |c.child| == |c.key| + 1
    ensures ChildOk(Split(m, st, n, p, i, right), right, j)
  {
    SplitFacts(m, st, n, p, i);
    var t := Split(m, st, n, p, i, right);
    var j0 := j + m / 2 + 1;
    assert NodeOk(st, n) && ChildOk(st, n, j0);
    assert t.store[right].child[j] == st.store[n].child[j0];
  }

  /** A node's children are all different. */
  lemma {:induction false} DistinctChildren(st: State, n: Node, i: nat)
    requires Shape(st) && n in st.store && i < |st.store[n].child|
    ensures forall j :: 0 <= j < |st.store[n].child| && j != i ==> st.store[n].child[j] != st.store[n].child[i]
  {
    var c := st.store[n];
    assert NodeOk(st, n) && ChildOk(st, n, i);
    forall j | 0 <= j < |c.child| && j != i ensures c.child[j] != c.child[i] {
      assert ChildOk(st, n, j);
      if i < j {
        assert Covers(st.range[n], c.key[j - 1]);
      } else {
        assert Covers(st.range[n], c.key[i - 1]);
      }
    }
  }

  /** A sibling of the split node keeps its parent and its range. */
  lemma {:induction false} SplitSibling(m: nat, st: State, n: Node, p: Node, i: nat, right: Node, j: nat)
    requires SplitAt(m, st, n, p, i) && right !in st.store && j <= |st.store[p].key|
    ensures ChildOk(st, p, j)
    ensures var t, c := Split(m, st, n, p, i, right), st.store[p].child[j];
            c in t.store && c != right && c != p && t.store[c].parent == p
              && (j != i ==> c != n && t.range[c] == st.range[c])
  {
    SplitFacts(m, st, n, p, i);
    assert NodeOk(st, p) && ChildOk(st, p, j);
    var t, c := Split(m, st, n, p, i, right), st.store[p].child[j];
    assert t.store[c] == SplitFields(m, st, n, p, i, right, c);
    NotMoved(st, n, c);
    DistinctChildren(st, p, i);
  }

  lemma {:induction false} SplitParentChild(m: nat, st: State, n: Node, p: Node, i: nat, right: Node, j: nat)
    requires SplitAt(m, st, n, p, i) && right !in st.store && j <= |st.store[p].key| + 1
    ensures var t := Split(m, st, n, p, i, right);
            |t.store[p].child| == |t.store[p].key| + 1 == |st.store[p].key| + 2 && ChildOk(t, p, j)
  {
    SplitFacts(m, st, n, p, i);
    var t := Split(m, st, n, p, i, right);
    assert t.store[p] == SplitFields(m, st, n, p, i, right, p);
    if j == i || j == i + 1 {
      SplitParentHalves(m, st, n, p, i, right);
    } else if j < i {
      SplitParentBefore(m, st, n, p, i, right, j);
    } else {
      SplitParentAfter(m, st, n, p, i, right, j);
    }
  }

  lemma {:induction false} SplitParentHalves(m: nat, st: State, n: Node, p: Node, i: nat, right: Node)
    requires SplitAt(m, st, n, p, i) && right !in st.store
    ensures var t := Split(m, st, n, p, i, right);
            |t.store[p].child| == |t.store[p].key| + 1 >= i + 2 && ChildOk(t, p, i) && ChildOk(t, p, i + 1)
  {
    SplitFacts(m, st, n, p, i);
    var t := Split(m, st, n, p, i, right);
    var key, key' := st.store[p].key, t.store[p].key;
    assert t.store[p] == SplitFields(m, st, n, p, i, right, p) && t.range[p] == st.range[p];
    SplitSibling(m, st, n, p, i, right, i);
    assert t.store[p].child[i] == n;
    assert i > 0 ==> key'[i - 1] == key[i - 1];
    assert t.store[p].child[i + 1] == right && t.store[right] == RightHalf(m, st.store[n]);
    assert i + 1 < |key'| ==> key'[i + 1] == key[i];
  }

  lemma {:induction false} SplitParentBefore(m: nat, st: State, n: Node, p: Node, i: nat, right: Node, j: nat)
    requires SplitAt(m, st, n, p, i) && right !in st.store && j < i
    ensures var t := Split(m, st, n, p, i, right); |t.store[p].child| == |t.store[p].key| + 1 > j && ChildOk(t, p, j)
  {
    SplitFacts(m, st, n, p, i);
    var t := Split(m, st, n, p, i, right);
    var key, key' := st.store[p].key, t.store[p].key;
    assert t.store[p] == SplitFields(m, st, n, p, i, right, p) && t.range[p] == st.range[p];
    SplitSibling(m, st, n, p, i, right, j);
    assert t.store[p].child[j] == st.store[p].child[j];
    assert key'[j] == key[j] && (j > 0 ==> key'[j - 1] == key[j - 1]);
  }

  lemma {:induction false} SplitParentAfter(m: nat, st: State, n: Node, p: Node, i: nat, right: Node, j: nat)
    requires SplitAt(m, st, n, p, i) && right !in st.store && i + 1 < j <= |st.store[p].key| + 1
    ensures var t := Split(m, st, n, p, i, right); |t.store[p].child| == |t.store[p].key| + 1 > j && ChildOk(t, p, j)
  {
    SplitFacts(m, st, n, p, i);
    var t := Split(m, st, n, p, i, right);
    var key, key' := st.store[p].key, t.store[p].key;
    assert t.store[p] == SplitFields(m, st, n, p, i, right, p) && t.range[p] == st.range[p];
    SplitSibling(m, st, n, p, i, right, j - 1);
    assert t.store[p].child[j] == st.store[p].child[j - 1];
    assert key'[j - 1] == key[j - 2] && (j < |key'| ==> key'[j] == key[j - 1]);
  }

  lemma {:induction false} SplitParentChildren(m: nat, st: State, n: Node, p: Node, i: nat, right: Node)
    requires SplitAt(m, st, n, p, i) && right !in st.store
    ensures var t := Split(m, st, n, p, i, right);
            && |t.store[p].child| == |t.store[p].key| + 1
            && forall j {:trigger ChildOk(t, p, j)} :: 0 <= j < |t.store[p].child| ==> ChildOk(t, p, j)
  {
    SplitParentChild(m, st, n, p, i, right, 0);
    var t := Split(m, st, n, p, i, right);
    forall j | 0 <= j < |t.store[p].child| ensures ChildOk(t, p, j) {
      SplitParentChild(m, st, n, p, i, right, j);
    }
  }

  lemma {:induction false} NotMoved(st: State, n: Node, x: Node)
    requires Shape(st) && n in st.store && x in st.store && st.store[x].parent != n
    ensures x !in st.store[n].child
  {
    assert NodeOk(st, n);
    forall j | 0 <= j < |st.store[n].child| ensures st.store[n].child[j] != x {
      assert ChildOk(st, n, j);
    }
  }

  /** Every node that is not split, not its parent and not new keeps its children. */
  lemma {:induction false} SplitOtherChildren(m: nat, st: State, n: Node, p: Node, i: nat, right: Node, x: Node)
    requires SplitAt(m, st, n, p, i) && right !in st.store
    requires x in st.store && x != n && x != p
    ensures var t := Split(m, st, n, p, i, right);
            forall j :: 0 <= j < |t.store[x].child| ==> |t.store[x].child| == |t.store[x].key| + 1 && ChildOk(t, x, j)
  {
    SplitFacts(m, st, n, p, i);
    assert NodeOk(st, x);
    var t := Split(m, st, n, p, i, right);
    if |t.store[x].child| > 0 {
      forall j | 0 <= j < |t.store[x].child| ensures ChildOk(t, x, j) {
        assert ChildOk(st, x, j);
        NotMoved(st, n, st.store[x].child[j]);
      }
    }
  }

  /** A child of the split node finds itself among its parent's children again. */
  lemma {:induction false} SplitLinkOfChild(m: nat, st: State, n: Node, p: Node, i: nat, right: Node, x: Node)
    requires SplitAt(m, st, n, p, i) && right !in st.store
    requires x in st.store && st.store[x].parent == n
    ensures ParentOk(Split(m, st, n, p, i, right), x)
  {
    SplitFacts(m, st, n, p, i);
    assert NodeOk(st, x) && ParentOk(st, x) && NodeOk(st, n);
    var t := Split(m, st, n, p, i, right);
    var c := st.store[n];
    assert x != n && x != p && x != right && x != st.root;
    assert t.store[x] == SplitFields(m, st, n, p, i, right, x);
    var j :| 0 <= j < |c.child| && c.child[j] == x;
    DistinctChildren(st, n, j);
    if j > m / 2 {
      assert RightHalf(m, c).child[j - m / 2 - 1] == x;
    } else {
      assert LeftHalf(m, c).child[j] == x;
    }
  }

  lemma {:induction false} SplitLinkOfOther(m: nat, st: State, n: Node, p: Node, i: nat, right: Node, x: Node)
    requires SplitAt(m, st, n, p, i) && right !in st.store
    requires x in st.store && st.store[x].parent != n
    ensures ParentOk(Split(m, st, n, p, i, right), x)
  {
    SplitFacts(m, st, n, p, i);
    assert NodeOk(st, x) && ParentOk(st, x);
    NotMoved(st, n, x);
    var t := Split(m, st, n, p, i, right);
    assert t.store[x].parent == st.store[x].parent;
    if x != st.root {
      var q: Node := st.store[x].parent;
      var child, child' := st.store[q].child, t.store[q].child;
      var j :| 0 <= j < |child| && child[j] == x;
      assert child'[if q == p && j > i then j + 1 else j] == x;
    }
  }

  lemma {:induction false} SplitParentLinks(m: nat, st: State, n: Node, p: Node, i: nat, right: Node, x: Node)
    requires SplitAt(m, st, n, p, i) && right !in st.store
    requires x in st.store || x == right
    ensures ParentOk(Split(m, st, n, p, i, right), x)
  {
    if x == right {
      SplitFacts(m, st, n, p, i);
      var t := Split(m, st, n, p, i, right);
      assert t.store[p].child[i + 1] == right && t.store[right] == RightHalf(m, st.store[n]);
      assert st.root in st.store;
    } else if st.store[x].parent == n {
      SplitLinkOfChild(m, st, n, p, i, right, x);
    } else {
      SplitLinkOfOther(m, st, n, p, i, right, x);
    }
  }

  lemma {:induction false} SplitNodeOk(m: nat, st: State, n: Node, p: Node, i: nat, right: Node, x: Node)
    requires SplitAt(m, st, n, p, i) && right !in st.store
    requires x in st.store || x == right
    ensures NodeOk(Split(m, st, n, p, i, right), x)
  {
    if x == n || x == right {
      SplitHalfNodeOk(m, st, n, p, i, right, x);
    } else if x == p {
      SplitParentNodeOk(m, st, n, p, i, right);
    } else {
      SplitFacts(m, st, n, p, i);
      SplitParentLinks(m, st, n, p, i, right, x);
      assert NodeOk(st, x);
      SplitOtherChildren(m, st, n, p, i, right, x);
    }
  }

  lemma {:induction false} SplitHalfNodeOk(m: nat, st: State, n: Node, p: Node, i: nat, right: Node, x: Node)
    requires SplitAt(m, st, n, p, i) && right !in st.store
    requires x == n || x == right
    ensures NodeOk(Split(m, st, n, p, i, right), x)
  {
    SplitFacts(m, st, n, p, i);
    SplitParentLinks(m, st, n, p, i, right, x);
    HalvesOk(m, st, n, p, i);
    SplitChildren(m, st, n, p, i, right, x);
    assert NodeOk(st, n);
  }

  lemma {:induction false} SplitParentNodeOk(m: nat, st: State, n: Node, p: Node, i: nat, right: Node)
    requires SplitAt(m, st, n, p, i) && right !in st.store
    ensures NodeOk(Split(m, st, n, p, i, right), p)
  {
    SplitFacts(m, st, n, p, i);
    SplitParentLinks(m, st, n, p, i, right, p);
    assert NodeOk(st, p);
    ParentKeysOk(m, st, n, p, i);
    SplitParentChildren(m, st, n, p, i, right);
  }

  lemma {:induction false} SplitNodeLater(m: nat, st: State, n: Node, p: Node, i: nat, right: Node, x: Node)
    requires SplitAt(m, st, n, p, i) && right !in st.store && x in st.store
    ensures NodeLater(st, Split(m, st, n, p, i, right), x)
  {
    SplitFacts(m, st, n, p, i);
    var t := Split(m, st, n, p, i, right);
    assert t.store[x] == SplitFields(m, st, n, p, i, right, x);
  }

  /** Splitting keeps the shape and only shrinks ranges from the top. */
  lemma {:induction false} SplitShape(m: nat, st: State, n: Node, p: Node, i: nat, right: Node)
    requires SplitAt(m, st, n, p, i) && right !in st.store
    ensures Shape(Split(m, st, n, p, i, right)) && Later(st, Split(m, st, n, p, i, right))
  {
    var t := Split(m, st, n, p, i, right);
    SplitFacts(m, st, n, p, i);
    forall x | x in t.store ensures NodeOk(t, x) {
      SplitNodeOk(m, st, n, p, i, right, x);
    }
    forall x | x in st.store ensures NodeLater(st, t, x) {
      SplitNodeLater(m, st, n, p, i, right, x);
    }
  }

  lemma {:induction false} SplitContents(m: nat, st: State, n: Node, p: Node, i: nat, right: Node, c: map<Key, Value>)
    requires SplitAt(m, st, n, p, i) && right !in st.store && Represents(st, c)
    ensures Represents(Split(m, st, n, p, i, right), c)
  {
    var t := Split(m, st, n, p, i, right);
    SplitFacts(m, st, n, p, i);
    var h := m / 2;
    forall x, j: nat, k, v | x in t.store && Holds(t, x, j, k, v) ensures k in c && c[k] == v {
      if x == right {
        assert Holds(st, n, j + h, k, v);
      } else {
        assert Holds(st, x, j, k, v);
      }
    }
    forall k | k in c ensures exists x, j :: x in t.store && Holds(t, x, j, k, c[k]) {
      var x, j: nat :| x in st.store && Holds(st, x, j, k, c[k]);
      if x == n && j >= h {
        assert Holds(t, right, j - h, k, c[k]);
      } else {
        assert Holds(t, x, j, k, c[k]);
      }
    }
  }

  /** After the split only the parent can hold one key too many. */
  lemma {:induction false} SplitSizes(m: nat, st: State, n: Node, p: Node, i: nat, right: Node)
    requires SplitAt(m, st, n, p, i) && right !in st.store
    requires forall x {:trigger SizeOk(m, st, x, n)} :: x in st.store && x != p ==> SizeOk(m, st, x, n)
    requires |st.store[p].key| < m && (p != st.root ==> m - m / 2 - 1 <= |st.store[p].key|)
    ensures ValidBut(m, Split(m, st, n, p, i, right), p)
  {
    var t := Split(m, st, n, p, i, right);
    SplitFacts(m, st, n, p, i);
    SplitShape(m, st, n, p, i, right);
    forall x | x in t.store ensures SizeOk(m, t, x, p) {
      if x != right && x != p {
        assert SizeOk(m, st, x, n);
      }
    }
  }

  /** The key that overflow searches the parent for lands on the split child's own position. */
  lemma {:induction false} SplitPosition(m: nat, st: State, n: Node, p: Node, i: nat)
    requires SplitAt(m, st, n, p, i)
    ensures var c := st.store[n];
            LowerBound(st.store[p].key, c.key[m / 2]) == i
  {
    SplitFacts(m, st, n, p, i);
    assert NodeOk(st, n) && NodeOk(st, p);
    assert Covers(st.range[n], st.store[n].key[m / 2]);
    NextIsCoveringChild(st, p, i, st.store[n].key[m / 2]);
  }

  /** Every node but the root is some child of its parent, so an overfull one can be split there. */
  lemma {:induction false} OverfullHasParent(m: nat, st: State, n: Node) returns (i: nat)
    requires m >= 2 && Shape(st) && n in st.store && n != st.root && |st.store[n].key| == m
    ensures var p := st.store[n].parent; p != null && SplitAt(m, st, n, p, i)
    ensures st.range[st.store[n].parent].level == st.range[n].level + 1
  {
    assert NodeOk(st, n) && ParentOk(st, n);
    var p: Node := st.store[n].parent;
    assert NodeOk(st, p);
    i :| 0 <= i < |st.store[p].child| && st.store[p].child[i] == n;
    assert ChildOk(st, p, i);
  }

  // ---------- one round of overflow ----------

  /** The tree as the split finds it: with a new root above n when n was the root. */
  ghost function Rooted(st: State, n: Node, root: Node): State
    requires st.root in st.store && st.root in st.range
  {
    if n == st.root then Grow(st, root) else st
  }

  lemma {:induction false} RootedFacts(m: nat, st: State, n: Node, root: Node, c: map<Key, Value>) returns (i: nat)
    requires ValidBut(m, st, n) && Represents(st, c) && n in st.store && |st.store[n].key| >= m
    requires n == st.root ==> root !in st.store
    ensures var t := Rooted(st, n, root);
            && Shape(t) && Represents(t, c) && Later(st, t) && n in t.store
            && var p := t.store[n].parent;
               && p != null && SplitAt(m, t, n, p, i)
               && (forall x {:trigger SizeOk(m, t, x, n)} :: x in t.store && x != p ==> SizeOk(m, t, x, n))
               && |t.store[p].key| < m && (p != t.root ==> m - m / 2 - 1 <= |t.store[p].key|)
               && t.range[p].level == t.range[n].level + 1
               && (n == st.root ==> p == root && t.store[p].key == [])
               && (n != st.root ==> p == st.store[n].parent)
  {
    var t := Rooted(st, n, root);
    assert NodeOk(st, n) && SizeOk(m, st, n, n);
    if n == st.root {
      GrowShape(st, root);
      GrowContents(st, root, c);
    }
    i := OverfullHasParent(m, t, n);
    var p := t.store[n].parent;
    forall x | x in t.store && x != p ensures SizeOk(m, t, x, n) {
      assert SizeOk(m, st, x, n);
    }
    if n != st.root {
      assert NodeOk(st, p) && SizeOk(m, st, p, n);
      assert ChildOk(st, p, i);
    }
  }

  lemma {:induction false} SplitTarget(m: nat, st: State, n: Node, root: Node, c: map<Key, Value>) returns (i: nat)
    requires ValidBut(m, st, n) && Represents(st, c) && n in st.store && |st.store[n].key| >= m
    requires n == st.root ==> root !in st.store
    ensures var t := Rooted(st, n, root);
            n in t.store && t.store[n].parent != null && SplitAt(m, t, n, t.store[n].parent, i)
  {
    i := RootedFacts(m, st, n, root, c);
  }

  /** What overflow has left to do: the levels above n, and one more while n is overfull. */
  ghost function Work(m: nat, st: State, n: Node): nat
    requires Shape(st) && n in st.store
  {
    assert NodeOk(st, n);
    2 * (st.range[st.root].level - st.range[n].level) + (if |st.store[n].key| >= m then 1 else 0)
  }

  /** What a round of overflow must achieve: the same contents, every promise to earlier
      pointers kept, at most p overfull, and less left to do. */
  ghost predicate Progress(m: nat, st: State, n: Node, u: State, p: Node, c: map<Key, Value>) {
    && ValidBut(m, st, n) && n in st.store && ValidBut(m, u, p) && p in u.store
    && Represents(u, c) && Later(st, u) && Work(m, u, p) < Work(m, st, n)
  }

  lemma {:induction false} RoundWorks(m: nat, st: State, n: Node, root: Node, i: nat, right: Node, c: map<Key, Value>)
    requires ValidBut(m, st, n) && Represents(st, c) && n in st.store && |st.store[n].key| >= m
    requires n == st.root ==> root !in st.store
    requires var t := Rooted(st, n, root);
             n in t.store && t.store[n].parent != null && SplitAt(m, t, n, t.store[n].parent, i) && right !in t.store
    requires var t := Rooted(st, n, root);
             Shape(Split(m, t, n, t.store[n].parent, i, right))
    ensures var t := Rooted(st, n, root);
            var p: Node := t.store[n].parent;
            p in t.store && Work(m, Split(m, t, n, p, i, right), p) < Work(m, st, n)
  {
    var _ := RootedFacts(m, st, n, root, c);
    var t := Rooted(st, n, root);
    var p: Node := t.store[n].parent;
    SplitFacts(m, t, n, p, i);
    assert NodeOk(st, n);
    var u := Split(m, t, n, p, i, right);
    assert u.store[p] == SplitFields(m, t, n, p, i, right, p);
    assert u.range[p] == t.range[p] && t.range[n] == st.range[n];
  }

  lemma {:induction false} OverflowRound(m: nat, st: State, n: Node, root: Node, i: nat, right: Node,
                                         c: map<Key, Value>)
    requires ValidBut(m, st, n) && Represents(st, c) && n in st.store && |st.store[n].key| >= m
    requires n == st.root ==> root !in st.store
    requires var t := Rooted(st, n, root);
             n in t.store && t.store[n].parent != null && SplitAt(m, t, n, t.store[n].parent, i) && right !in t.store
    ensures var t := Rooted(st, n, root);
            var p: Node := t.store[n].parent;
            Progress(m, st, n, Split(m, t, n, p, i, right), p, c)
  {
    var _ := RootedFacts(m, st, n, root, c);
    var t := Rooted(st, n, root);
    var p: Node := t.store[n].parent;
    SplitShape(m, t, n, p, i, right);
    SplitSizes(m, t, n, p, i, right);
    SplitContents(m, t, n, p, i, right, c);
    LaterTransitive(st, t, Split(m, t, n, p, i, right));
    RoundWorks(m, st, n, root, i, right, c);
  }
}
