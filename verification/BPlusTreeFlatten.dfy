/** Flattening the top levels of the tree into one fat node for the switch. */
module BPlusTreeFlatten {
  import opened OrderedKeys
  import opened BPlusTreeState
  import opened BPlusTrees

  // ---------- rounds of descent ----------

  /** The node i rounds of descent for k lead to. */
  ghost function Walk(st: State, n: Node, k: Key, i: nat): (r: Node)
    requires Shape(st) && n in st.store && i <= st.range[n].level
    ensures r in st.store && st.range[r].level == st.range[n].level - i
    decreases i
  {
    if i == 0 then n
    else
      assert NodeOk(st, n);
      Walk(st, Next(st, n, k), k, i - 1)
  }

  lemma {:induction false} WalkOneMore(st: State, n: Node, k: Key, i: nat)
    requires Shape(st) && n in st.store && i < st.range[n].level
    ensures !st.store[Walk(st, n, k, i)].isLeaf
    ensures Walk(st, n, k, i + 1) == Next(st, Walk(st, n, k, i), k)
    decreases i
  {
    assert NodeOk(st, n);
    if i > 0 {
      WalkOneMore(st, Next(st, n, k), k, i - 1);
    }
  }

  /** A node that covers k is the node of its level on the root's descent for k. */
  lemma {:induction false} CoveringNodeIsWalkedTo(st: State, n: Node, k: Key)
    requires Shape(st) && n in st.store && Covers(st.range[n], k)
    ensures st.range[n].level <= st.range[st.root].level
    ensures Walk(st, st.root, k, st.range[st.root].level - st.range[n].level) == n
    decreases st.range[st.root].level - st.range[n].level
  {
    assert NodeOk(st, n);
    if n != st.root {
      assert ParentOk(st, n);
      var p: Node := st.store[n].parent;
      var i :| 0 <= i < |st.store[p].child| && st.store[p].child[i] == n;
      assert NodeOk(st, p) && ChildOk(st, p, i);
      NextIsCoveringChild(st, p, i, k);
      CoveringNodeIsWalkedTo(st, p, k);
      WalkOneMore(st, st.root, k, st.range[st.root].level - st.range[p].level);
    } else {
      assert Walk(st, st.root, k, 0) == n;
    }
  }

  // ---------- layers ----------

  /** Nodes of one level from the left, with the upper ends of their ranges as keys;
      the last key may still be missing. */
  ghost predicate Chain(st: State, level: int, ns: seq<Node>, ks: seq<Key>) {
    && |ks| <= |ns| <= |ks| + 1
    && (forall t :: 0 <= t < |ns| ==> Link(st, level, ns, ks, t))
  }

  ghost predicate Link(st: State, level: int, ns: seq<Node>, ks: seq<Key>, t: nat)
    requires t < |ns| && |ns| <= |ks| + 1
  {
    && ns[t] in st.store && ns[t] in st.range
    && st.range[ns[t]].level == level
    && st.range[ns[t]].lo == (if t == 0 then NegInf else Fin(ks[t - 1]))
    && (t < |ks| ==> st.range[ns[t]].hi == Fin(ks[t]))
  }

  /** A whole layer: one key fewer than nodes, the last node open at the top. */
  ghost predicate Layer(st: State, i: nat, ns: seq<Node>, ks: seq<Key>) {
    && |ns| == |ks| + 1
    && Chain(st, st.depth - 1 - i, ns, ks)
    && ns[|ks|] in st.range && st.range[ns[|ks|]].hi == PosInf
  }

  lemma {:induction false} LayerSorted(st: State, i: nat, ns: seq<Node>, ks: seq<Key>)
    requires Shape(st) && Layer(st, i, ns, ks)
    ensures Sorted(ks)
  {
    forall a, b | 0 <= a < b < |ks| ensures ks[a] < ks[b] {
      KeysClimb(st, i, ns, ks, a, b);
    }
  }

  lemma {:induction false} KeysClimb(st: State, i: nat, ns: seq<Node>, ks: seq<Key>, a: nat, b: nat)
    requires Shape(st) && Layer(st, i, ns, ks) && a < b < |ks|
    ensures ks[a] < ks[b]
    decreases b
  {
    assert Link(st, st.depth - 1 - i, ns, ks, b);
    assert NodeOk(st, ns[b]);
    if a < b - 1 {
      KeysClimb(st, i, ns, ks, a, b - 1);
    }
  }

  /** One search of a layer's keys selects the node i rounds of descent lead to. */
  lemma {:induction false} LayerRoutes(st: State, i: nat, ns: seq<Node>, ks: seq<Key>, k: Key)
    requires Shape(st) && Layer(st, i, ns, ks) && i < st.depth
    ensures LowerBound(ks, k) < |ns|
    ensures ns[LowerBound(ks, k)] == Walk(st, st.root, k, i)
  {
    var t := LowerBound(ks, k);
    assert Link(st, st.depth - 1 - i, ns, ks, t);
    assert Covers(st.range[ns[t]], k);
    CoveringNodeIsWalkedTo(st, ns[t], k);
  }

  /** Appending one inner node's keys and children to the next layer. */
  lemma {:induction false} AppendNode(st: State, n: Node, ns: seq<Node>, ks: seq<Key>)
    requires Shape(st) && n in st.store && !st.store[n].isLeaf && |ns| == |ks|
    requires Chain(st, st.range[n].level - 1, ns, ks)
    requires st.range[n].lo == if ks == [] then NegInf else Fin(ks[|ks| - 1])
    ensures var v := st.store[n];
            && Chain(st, st.range[n].level - 1, ns + v.child, ks + v.key)
            && |v.child| == |v.key| + 1
            && var last := v.child[|v.child| - 1];
               last in st.range && st.range[last].hi == st.range[n].hi
  {
    assert NodeOk(st, n);
    var v, level := st.store[n], st.range[n].level - 1;
    var ns', ks' := ns + v.child, ks + v.key;
    forall t | 0 <= t < |ns'| ensures Link(st, level, ns', ks', t) {
      if t < |ns| {
        assert Link(st, level, ns, ks, t);
      } else {
        assert ChildOk(st, n, t - |ns|);
      }
    }
    assert Link(st, level, ns', ks', |ns'| - 1) && ChildOk(st, n, |v.key|);
  }

  lemma {:induction false} AppendKey(st: State, level: int, ns: seq<Node>, ks: seq<Key>, k: Key)
    requires Chain(st, level, ns, ks) && |ns| == |ks| + 1 && st.range.Keys == st.store.Keys
    requires ns[|ks|] in st.store && st.range[ns[|ks|]].hi == Fin(k)
    ensures Chain(st, level, ns, ks + [k])
  {
    var ks' := ks + [k];
    forall t | 0 <= t < |ns| ensures Link(st, level, ns, ks', t) {
      assert Link(st, level, ns, ks, t);
    }
  }

  /** How far the next layer has come when j nodes of a layer have been flattened into it. */
  ghost predicate Flattened(st: State, i: nat, ns: seq<Node>, ks: seq<Key>, j: nat, ns': seq<Node>, ks': seq<Key>)
    requires Layer(st, i, ns, ks) && j <= |ns|
  {
    && Chain(st, st.depth - 2 - i, ns', ks')
    && (if j == |ns| then |ns'| == |ks'| + 1 && ns'[|ks'|] in st.range && st.range[ns'[|ks'|]].hi == PosInf
        else |ns'| == |ks'| && (if j == 0 then ks' == [] else ks' != [] && ks'[|ks'| - 1] == ks[j - 1]))
  }

  lemma {:induction false} FlattenOne(st: State, i: nat, ns: seq<Node>, ks: seq<Key>, j: nat, ns': seq<Node>,
                                      ks': seq<Key>)
    requires Shape(st) && Layer(st, i, ns, ks) && i + 1 < st.depth && j < |ns| && Flattened(st, i, ns, ks, j, ns', ks')
    ensures ns[j] in st.store
    ensures var v := st.store[ns[j]];
            Flattened(st, i, ns, ks, j + 1, ns' + v.child, if j < |ks| then ks' + v.key + [ks[j]] else ks' + v.key)
  {
    assert Link(st, st.depth - 1 - i, ns, ks, j);
    var n := ns[j];
    assert NodeOk(st, n);
    AppendNode(st, n, ns', ks');
    var v := st.store[n];
    var ns2, ks2 := ns' + v.child, ks' + v.key;
    assert Link(st, st.depth - 2 - i, ns2, ks2, |ns2| - 1);
    if j < |ks| {
      AppendKey(st, st.depth - 2 - i, ns2, ks2, ks[j]);
    }
  }

  /** load2switch (b_plus_tree.h, lines 65-82): layer after layer, down to compressDepth. */
  method FlattenTop(tree: BPlusTree, compressDepth: nat)
    returns (cachedNodes: seq<seq<Node>>, cachedKeys: seq<seq<Key>>)
    requires tree.Invariant() && compressDepth + 2 <= tree.depth
    ensures |cachedNodes| == |cachedKeys| == compressDepth + 1
    ensures forall i :: 0 <= i <= compressDepth ==>
              Sorted(cachedKeys[i]) && |cachedKeys[i]| + 1 == |cachedNodes[i]|
    ensures forall i, k: Key :: 0 <= i <= compressDepth ==>
              cachedNodes[i][LowerBound(cachedKeys[i], k)] == Walk(tree.Heap(), tree.root, k, i)
  {
    ghost var st := tree.Heap();
    cachedNodes, cachedKeys := [[tree.root]], [[]];
    assert Link(st, st.depth - 1, cachedNodes[0], cachedKeys[0], 0);
    var i := 1;
    while i <= compressDepth
      invariant 1 <= i <= compressDepth + 1
      invariant |cachedNodes| == |cachedKeys| == i
      invariant forall l :: 0 <= l < i ==> Layer(st, l, cachedNodes[l], cachedKeys[l])
    {
      var ns, ks := FlattenLayer(tree, i - 1, cachedNodes[i - 1], cachedKeys[i - 1]);
      cachedNodes, cachedKeys := cachedNodes + [ns], cachedKeys + [ks];
      i := i + 1;
    }
    forall l | 0 <= l <= compressDepth ensures Sorted(cachedKeys[l]) {
      LayerSorted(st, l, cachedNodes[l], cachedKeys[l]);
    }
    forall l, k: Key | 0 <= l <= compressDepth
      ensures cachedNodes[l][LowerBound(cachedKeys[l], k)] == Walk(st, tree.root, k, l)
    {
      LayerRoutes(st, l, cachedNodes[l], cachedKeys[l], k);
    }
  }

  /** The inner loop: one layer is flattened into the next (b_plus_tree.h, lines 73-82). */
  method FlattenLayer(tree: BPlusTree, ghost i: nat, nodes: seq<Node>, keys: seq<Key>)
    returns (ns: seq<Node>, ks: seq<Key>)
    requires tree.Invariant() && i + 1 < tree.depth && Layer(tree.Heap(), i, nodes, keys)
    ensures Layer(tree.Heap(), i + 1, ns, ks)
  {
    ghost var st := tree.Heap();
    ns, ks := [], [];
    var j := 0;
    while j < |nodes|
      invariant 0 <= j <= |nodes| && Flattened(st, i, nodes, keys, j, ns, ks)
    {
      FlattenOne(st, i, nodes, keys, j, ns, ks);
      ks := ks + nodes[j].key;
      if j < |keys| {
        ks := ks + [keys[j]];
      }
      ns := ns + nodes[j].child;
      j := j + 1;
    }
  }
}
