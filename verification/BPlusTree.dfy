/** The tree itself: nodes changed in place, a mutable root, descents by loops. */
module BPlusTrees {
  import opened OrderedKeys
  import opened BPlusTreeState
  import opened BPlusTreeSteps
  import opened BPlusTreeTheorems

  class BPlusTree {
    const M: nat
    var root: Node
    var depth: nat
    ghost var nodes: set<Node>
    ghost var range: map<Node, Range>
    ghost var contents: map<Key, Value>

    /** The heap of the tree as a value. */
    ghost function Heap(): State
      reads `nodes, `range, `root, `depth, nodes
    {
      State(map n | n in nodes :: n.Fields(), range, root, depth)
    }

    ghost predicate Invariant()
      reads this, nodes
    {
      Valid(M, Heap()) && Represents(Heap(), contents)
    }

    constructor (order: nat)
      requires order >= 2
      ensures Invariant() && fresh(nodes) && M == order && contents == map[] && depth == 1
    {
      M := order;
      var r := new Node();
      root := r;
      depth := 1;
      nodes := {r};
      range := map[r := Range(NegInf, PosInf, 0)];
      contents := map[];
      new;
      assert NodeOk(Heap(), r) && SizeOk(M, Heap(), r, null);
    }

    /** The descent both insert and lookup start with. */
    method FindLeaf(start: Node, k: Key) returns (cur: Node)
      requires Shape(Heap()) && start in nodes
      ensures cur == Descend(Heap(), start, k)
    {
      cur := start;
      ghost var st := Heap();
      while !cur.isLeaf
        invariant Heap() == st && cur in nodes && Descend(st, cur, k) == Descend(st, start, k)
        decreases range[cur].level
      {
        ghost var next := Next(st, cur, k);
        assert NodeOk(st, cur);
        cur := cur.child[LowerBound(cur.key, k)];
        assert cur == next;
      }
    }

    /** insert: a key not yet stored becomes bound to its value and nothing else changes. */
    method Insert(k: Key, v: Value)
      requires Invariant() && k !in contents
      modifies `root, `depth, `nodes, `range, `contents, nodes
      ensures Invariant() && contents == old(contents)[k := v]
      ensures InsertStep(M, old(Heap()), old(contents), k, v, Heap(), contents)
      ensures old(nodes) <= nodes && forall x :: x in nodes ==> x in old(nodes) || fresh(x)
    {
      ghost var st, c := Heap(), contents;
      var cur := FindLeaf(root, k);
      assert Heap() == st;
      EnterLeaf(cur, k, v);
      ghost var st1 := Heap();
      Overflow(cur);
      CompleteInsert(M, st, c, k, v, st1, Heap(), contents);
    }

    /** The new pair goes to the same place of both vectors of the leaf (b_plus_tree.h, lines 37-40). */
    method EnterLeaf(cur: Node, k: Key, v: Value)
      requires Invariant() && k !in contents && cur == Descend(Heap(), root, k)
      modifies `contents, cur`key, cur`val
      ensures contents == old(contents)[k := v]
      ensures cur in nodes && ValidBut(M, Heap(), cur) && Represents(Heap(), contents)
      ensures Later(old(Heap()), Heap())
    {
      ghost var st := Heap();
      PutNewKey(M, st, cur, k, v, contents);
      var p := LowerBound(cur.key, k);
      cur.key := InsertAt(cur.key, p, k);
      cur.val := InsertAt(cur.val, p, v);
      contents := contents[k := v];
      ghost var t, u := Heap(), PutInLeaf(st, cur, k, v);
      forall x | x in t.store ensures t.store[x] == u.store[x] {
        assert t.store[x] == x.Fields() && st.store[x] == old(x.Fields());
      }
      assert t.store == u.store;
      assert t == u;
    }

    /** overflow: splits cur while it holds M keys, then looks at its parent. */
    method Overflow(cur: Node)
      requires cur in nodes && ValidBut(M, Heap(), cur) && Represents(Heap(), contents)
      modifies `root, `depth, `nodes, `range, nodes
      ensures Invariant()
      ensures old(nodes) <= nodes && forall x :: x in nodes ==> x in old(nodes) || fresh(x)
      ensures Later(old(Heap()), Heap())
      decreases Work(M, Heap(), cur)
    {
      ghost var st := Heap();
      if |cur.key| >= M {
        var p := SplitOnce(cur);
        ghost var st1, grown := Heap(), nodes;
        Overflow(p);
        LaterTransitive(st, st1, Heap());
        forall x | x in nodes ensures x in old(nodes) || fresh(x) {
          if x in grown {
            assert x in old(nodes) || fresh(x);
          }
        }
      } else {
        NotOverfull(M, st, cur);
      }
    }

    /** One round: cur, under a new root if it was the root, is split below its parent. */
    method SplitOnce(cur: Node) returns (p: Node)
      requires cur in nodes && ValidBut(M, Heap(), cur) && Represents(Heap(), contents) && |cur.key| >= M
      modifies `root, `depth, `nodes, `range, nodes
      ensures old(nodes) <= nodes && forall x :: x in nodes ==> x in old(nodes) || fresh(x)
      ensures Progress(M, old(Heap()), cur, Heap(), p, contents)
    {
      ghost var st := Heap();
      EnsureParent(cur);
      ghost var st1, top := Heap(), root;
      ghost var i := SplitTarget(M, st, cur, top, contents);
      p := cur.parent;
      ghost var right := SplitNode(cur, i);
      assert Heap() == Split(M, st1, cur, p, i, right);
      OverflowRound(M, st, cur, top, i, right, contents);
    }

    /** When cur is the root a fresh root takes it as its only child (b_plus_tree.h, lines 129-135). */
    method EnsureParent(cur: Node)
      requires cur in nodes && cur in range && root in nodes && root in range
      modifies `root, `depth, `nodes, `range, cur`parent
      ensures old(nodes) <= nodes && forall x :: x in nodes ==> x in old(nodes) || fresh(x)
      ensures cur == old(root) ==> fresh(root)
      ensures Heap() == Rooted(old(Heap()), cur, root)
    {
      if cur == root {
        ghost var st := Heap();
        var r := new Node();
        r.isLeaf := false;
        r.child := r.child + [cur];
        cur.parent := r;
        root, depth := r, depth + 1;
        nodes, range := nodes + {r}, range[r := Range(NegInf, PosInf, st.depth)];
        ghost var t := Heap();
        forall x | x in t.store ensures t.store[x] == Grow(st, r).store[x] {
          assert t.store[x] == x.Fields();
          assert x != r ==> st.store[x] == old(x.Fields());
        }
        assert t.store == Grow(st, r).store;
      }
    }

    /** Moves the upper half of cur to a new right sibling and the separator to the parent. */
    method SplitNode(cur: Node, ghost i: nat) returns (ghost right: Node)
      requires cur in nodes && cur.parent != null && SplitAt(M, Heap(), cur, cur.parent, i)
      modifies `nodes, `range, nodes
      ensures fresh(right) && nodes == old(nodes) + {right}
      ensures Heap() == Split(M, old(Heap()), cur, old(cur.parent), i, right)
    {
      ghost var st := Heap();
      var p: Node := cur.parent;
      SplitFacts(M, st, cur, p, i);
      SplitPosition(M, st, cur, p, i);
      var newNode, sought, sep := Detach(cur, p, i);
      label Detached:
      Hang(p, sought, sep, newNode);
      assert p.Fields() == SplitFields(M, st, cur, p, i, newNode, p);
      nodes := nodes + {newNode};
      ghost var r := range[cur];
      range := range[cur := Range(r.lo, Fin(sep), r.level)][newNode := Range(Fin(sep), r.hi, r.level)];
      right := newNode;
      ghost var t, u := Heap(), Split(M, st, cur, p, i, right);
      forall x | x in t.store ensures t.store[x] == SplitFields(M, st, cur, p, i, right, x) {
        assert t.store[x] == x.Fields();
        if x != p {
          assert x.Fields() == old@Detached(x.Fields());
        }
      }
      assert t.store == u.store;
    }

    /** The new node becomes the child behind the place where the key belongs. */
    method Hang(p: Node, sought: Key, sep: Key, newNode: Node)
      requires |p.child| == |p.key| + 1
      modifies p`key, p`child
      ensures var i := LowerBound(old(p.key), sought);
              && p.key == InsertAt(old(p.key), i, sep)
              && p.child == InsertAt(old(p.child), i + 1, newNode)
    {
      var pos := LowerBound(p.key, sought);
      p.key := InsertAt(p.key, pos, sep);
      p.child := InsertAt(p.child, pos + 1, newNode);
    }

    /** The part of the split below the parent: cur is cut and its upper children change parent. */
    method Detach(cur: Node, ghost p: Node, ghost i: nat) returns (newNode: Node, sought: Key, sep: Key)
      requires cur in nodes && SplitAt(M, Heap(), cur, p, i)
      modifies nodes
      ensures fresh(newNode)
      ensures sep == Separator(M, old(cur.Fields())) && sought == old(cur.key)[M / 2]
      ensures newNode.Fields() == SplitFields(M, old(Heap()), cur, p, i, newNode, newNode)
      ensures forall x :: x in nodes && x != p ==> x.Fields() == SplitFields(M, old(Heap()), cur, p, i, newNode, x)
      ensures p.Fields() == old(p.Fields())
    {
      ghost var st := Heap();
      ghost var was, moved := st.store[cur], RightHalf(M, st.store[cur]).child;
      DetachFacts(M, st, cur, p, i);
      newNode, sought, sep := Halve(cur);
      assert newNode.Fields().child == moved && forall x :: x in moved ==> x in nodes;
      label Halved:
      Adopt(newNode);
      forall x | x in nodes && x != p ensures x.Fields() == SplitFields(M, st, cur, p, i, newNode, x) {
        assert x != cur ==> st.store[x] == old(x.Fields()) == old@Halved(x.Fields());
        assert x.Fields() == old@Halved(x.Fields()).(parent := x.parent);
        Detached(M, st, cur, p, i, newNode, x, x.Fields());
      }
    }

    /** Cuts cur in two; the separator is the last key kept by a leaf, the middle key of an
        inner node, and sought is the key the parent is searched for. */
    method Halve(cur: Node) returns (newNode: Node, sought: Key, sep: Key)
      requires M >= 2 && |cur.key| == M
               && (if cur.isLeaf then |cur.val| == M && cur.child == [] else |cur.child| == M + 1)
      requires !cur.isLeaf ==> cur.val == []
      modifies cur
      ensures fresh(newNode)
      ensures cur.Fields() == LeftHalf(M, old(cur.Fields()))
      ensures newNode.Fields() == RightHalf(M, old(cur.Fields()))
      ensures sep == Separator(M, old(cur.Fields())) && sought == old(cur.key)[M / 2]
    {
      newNode := new Node();
      newNode.parent := cur.parent;
      newNode.isLeaf := cur.isLeaf;
      if cur.isLeaf {
        newNode.key := cur.key[M / 2..];
        cur.key := cur.key[..M / 2];
        newNode.val := cur.val[M / 2..];
        cur.val := cur.val[..M / 2];
        sought, sep := newNode.key[0], cur.key[|cur.key| - 1];
      } else {
        newNode.key := cur.key[M / 2 + 1..];
        sought, sep := cur.key[M / 2], cur.key[M / 2];
        cur.key := cur.key[..M / 2];
        newNode.child := cur.child[M / 2 + 1..];
        cur.child := cur.child[..M / 2 + 1];
      }
    }

    /** lookup: starts at the remembered node, or at the root when there is none, and leaves
        the leaf it ended in to be remembered. */
    method Lookup(k: Key, start: Node?) returns (v: Value, cur: Node)
      requires Invariant() && (start != null ==> start in nodes)
      ensures var from := if start == null then root else start;
              cur == Descend(Heap(), from, k) && v == LookupFrom(Heap(), from, k)
    {
      cur := FindLeaf(if start == null then root else start, k);
      assert NodeOk(Heap(), cur);
      var i := LowerBound(cur.key, k);
      if i == |cur.key| {
        return [], cur;
      }
      return cur.val[i], cur;
    }
  }

  /** A tree of order 2 that stores 1 and 2 after a lookup of 2 has left its leaf behind. */
  method StoreTwo(v: Value, w: Value)
    returns (tree: BPlusTree, leaf: Node)
    ensures tree.Invariant() && leaf in tree.nodes
    ensures LookupFrom(tree.Heap(), leaf, 2.0) == [] && LookupFrom(tree.Heap(), tree.root, 2.0) == w
  {
    tree := new BPlusTree(2);
    ghost var h0 := tree.Heap();
    leaf := FirstLeaf(tree);
    tree.Insert(1.0, v);
    ghost var h1, c1 := tree.Heap(), tree.contents;
    tree.Insert(2.0, w);
    ghost var h, c := [h0, h1, tree.Heap()], [map[], c1, tree.contents];
    TwoSteps(h, c, v, w);
    StaleNodeCanMiss(h, c, v, w);
  }

  /** In a tree that is one leaf every lookup ends in the root. */
  method FirstLeaf(tree: BPlusTree) returns (leaf: Node)
    requires tree.Invariant() && tree.depth == 1
    ensures leaf == tree.root && leaf in tree.nodes
  {
    assert NodeOk(tree.Heap(), tree.root);
    leaf := tree.FindLeaf(tree.root, 2.0);
  }

  lemma {:induction false} TwoSteps(h: seq<State>, c: seq<map<Key, Value>>, v: Value, w: Value)
    requires |h| == |c| == 3
    requires InsertStep(2, h[0], c[0], 1.0, v, h[1], c[1]) && InsertStep(2, h[1], c[1], 2.0, w, h[2], c[2])
    ensures Run(2, h, c, [(1.0, v), (2.0, w)])
  {
  }

  /** The run StaleNodeCanMiss speaks of: the leaf a first lookup of 2 left to be remembered no
      longer finds it once 1 and 2 are stored, and the root does. */
  method RememberedLeafMisses(v: Value, w: Value) returns (stale: Value, found: Value)
    ensures stale == [] && found == w
  {
    var tree, leaf := StoreTwo(v, w);
    ghost var st := tree.Heap();
    stale, leaf := tree.Lookup(2.0, leaf);
    assert tree.Heap() == st;
    found, leaf := tree.Lookup(2.0, null);
  }

  /** The new right sibling becomes the parent of the children it was given (b_plus_tree.h, lines 163-164). */
  method Adopt(parent: Node)
    modifies parent.child`parent
    ensures forall c :: c in parent.child ==> c.parent == parent
  {
    var j := 0;
    while j < |parent.child|
      invariant 0 <= j <= |parent.child|
      invariant forall i :: 0 <= i < j ==> parent.child[i].parent == parent
    {
      parent.child[j].parent := parent;
      j := j + 1;
    }
  }
}
