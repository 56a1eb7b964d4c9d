/**
 * The interval multi-tree as the pointer program it is, on the same node heap as AvlTreeImpl:
 * a node's value is its Payload (the stored interval's end, the subtreeEnd and the values
 * vector), and its key is the stored interval's begin. Every heap method is proved to build the
 * subtree the corresponding function of IntervalTreeSpec computes and to touch only the nodes of
 * the subtree it was given; the query appends into the caller's vector in place.
 */
module IntervalTreeImpl {
  import opened AvlTreeSpec
  import opened AvlTreeImpl
  import opened IntervalTreeSpec

  /** The caller's output vector, which the query appends to. */
  class ValueVector<V> {
    var elems: seq<V>

    constructor ()
      ensures elems == []
    {
      elems := [];
    }

    /** Appends one value at the back. */
    method PushBack(v: V)
      modifies this
      ensures elems == old(elems) + [v]
    {
      elems := elems + [v];
    }
  }

  // ---------------------------------------------------------------------------------------------
  // Facts used by the methods

  /** Rewriting the payload of a subtree's root changes nothing else. */
  lemma {:induction false} SetPayload<V>(h: Heap<Payload<V>>, p: NodePtr, t: ITree<V>, s: Layout, d: Payload<V>)
    requires Realizes(h, p, t, s) && t.Branch?
    ensures var h' := h[s.addr := h[s.addr].(value := d)];
      && Realizes(h', p, t.(value := d), s)
      && Replaced(h, h', s, s)
  {
    var h' := h[s.addr := h[s.addr].(value := d)];
    OwnsCell(s);
    RealizedInHeap(h, p, t, s);
    RealizesFrame(h, h', h[s.addr].left, t.left, s.left);
    RealizesFrame(h, h', h[s.addr].right, t.right, s.right);
  }

  /** Both children of the node at `a` are null or live. */
  ghost predicate LinksIn<V>(h: Heap<V>, a: nat)
    requires a in h
  {
    (h[a].left.Ptr? ==> h[a].left.addr in h) && (h[a].right.Ptr? ==> h[a].right.addr in h)
  }

  /** The subtreeEnd the node at `a` gets from its own end and its children's subtreeEnds. */
  ghost function HeapSubtreeEnd<V>(h: Heap<Payload<V>>, a: nat): int
    requires a in h && LinksIn(h, a)
  {
    var n := h[a];
    var withLeft := if n.left.Ptr? then Max(n.value.end, h[n.left.addr].value.subtreeEnd) else n.value.end;
    if n.right.Ptr? then Max(withLeft, h[n.right.addr].value.subtreeEnd) else withLeft
  }

  /** On a realized subtree, recomputing the root's subtreeEnd in the heap realizes
      IntervalTreeSpec.AdjustSubtreeMax of that subtree, in place. */
  lemma {:induction false} AdjustRealized<V>(h: Heap<Payload<V>>, p: NodePtr, n: ITree<V>, s: Layout)
    requires Realizes(h, p, n, s) && n.Branch?
    ensures p.Ptr? && p.addr in h && LinksIn(h, p.addr)
    ensures HeapSubtreeEnd(h, p.addr) == IntervalTreeSpec.AdjustSubtreeMax(n).value.subtreeEnd
    ensures var h' := h[p.addr := h[p.addr].(value := h[p.addr].value.(subtreeEnd := HeapSubtreeEnd(h, p.addr)))];
      && Realizes(h', p, IntervalTreeSpec.AdjustSubtreeMax(n), s)
      && Replaced(h, h', s, s)
  {
    assert Realizes(h, h[s.addr].left, n.left, s.left);
    assert Realizes(h, h[s.addr].right, n.right, s.right);
    SetPayload(h, p, n, s, IntervalTreeSpec.AdjustSubtreeMax(n).value);
  }

  /** The left rotation of a rotatable tree, node by node: the demoted node keeps its entry and
      covers its new children, the new root keeps its entry and covers the demoted node. */
  lemma {:induction false} RotateLeftNodes<V>(t: ITree<V>)
    requires Rotatable(t, true)
    ensures var vx := t.value.(subtreeEnd := CoverEnd(t.value.end, t.left, t.right.left));
      var hx := 1 + Max(Height(t.left), Height(t.right.left));
      var vy := t.right.value.(subtreeEnd :=
        CoverEnd(t.right.value.end, Branch(t.left, t.key, vx, t.height, t.right.left), t.right.right));
      IntervalTreeSpec.RotateLeft(t) ==
        Branch(Branch(t.left, t.key, vx, hx, t.right.left), t.right.key, vy, 1 + Max(hx, Height(t.right.right)), t.right.right)
  {
  }

  /** The mirror image of RotateLeftNodes. */
  lemma {:induction false} RotateRightNodes<V>(t: ITree<V>)
    requires Rotatable(t, false)
    ensures var vy := t.value.(subtreeEnd := CoverEnd(t.value.end, t.left.right, t.right));
      var hy := 1 + Max(Height(t.left.right), Height(t.right));
      var vx := t.left.value.(subtreeEnd :=
        CoverEnd(t.left.value.end, t.left.left, Branch(t.left.right, t.key, vy, t.height, t.right)));
      IntervalTreeSpec.RotateRight(t) ==
        Branch(t.left.left, t.left.key, vx, 1 + Max(Height(t.left.left), hy), Branch(t.left.right, t.key, vy, hy, t.right))
  {
  }

  /** Where a double rotation after an insertion of begin `k` below `m` would be chosen, the
      inner node it needs exists. */
  ghost predicate InsertRotatable<V>(m: ITree<V>, k: int)
    requires m.Branch?
  {
    && (Balance(m) < -1 && m.left.key < k ==> m.left.right.Branch?)
    && (1 < Balance(m) && k < m.right.key ==> m.right.left.Branch?)
  }

  /** Giving a freshly allocated node for [i.begin, i.end) height 1 and the single value `v`
      builds the tree that inserting into an empty subtree describes. */
  lemma NewLeaf<V>(h0: Heap<Payload<V>>, hn: Heap<Payload<V>>, a: nat, i: Interval, v: V)
    requires a !in h0 && hn == h0[a := Node(Null, Null, 0, i.begin, Payload(i.end, i.end, []))]
    ensures var h1 := hn[a := hn[a].(height := 1)];
      var h2 := h1[a := h1[a].(value := h1[a].value.(values := h1[a].value.values + [v]))];
      && Realizes(h2, Ptr(a), IntervalTreeSpec.Insert(Empty, i, v), Cell(Nil, a, Nil))
      && Replaced(h0, h2, Nil, Cell(Nil, a, Nil))
  {
  }

  /** Filling a freshly allocated node with the values `vs` and the left child `lp` gives the
      node the successor's copy is. */
  lemma FillNode<V>(h0: Heap<Payload<V>>, hn: Heap<Payload<V>>, a: nat, k: int, e: int, vs: seq<V>, lp: NodePtr)
    requires hn == h0[a := Node(Null, Null, 0, k, Payload(e, e, []))]
    ensures var h1 := hn[a := hn[a].(value := hn[a].value.(values := vs))];
      h1[a := h1[a].(left := lp)] == h0[a := Node(lp, Null, 0, k, Payload(e, e, vs))]
  {
  }

  /** After an insertion into a child of a balanced node, a double rotation's inner node exists. */
  lemma {:induction false} InsertRotationsPossible<V>(t: ITree<V>, i: Interval, v: V, n: ITree<V>)
    requires t.Branch? && HeightsOk(t) && Balanced(t)
    requires || (i.begin < t.key && n == t.(left := IntervalTreeSpec.Insert(t.left, i, v)))
             || (t.key < i.begin && n == t.(right := IntervalTreeSpec.Insert(t.right, i, v)))
    ensures InsertRotatable(AdjustSubtreeMax(Fix(n)), i.begin)
  {
    ShapeKeeps(t);
    ShapeHeight(t.left);
    ShapeHeight(t.right);
    if i.begin < t.key {
      var l' := IntervalTreeSpec.Insert(t.left, i, v);
      AvlTreeSpec.InsertLeftRotationsPossible(Shape(t), i.begin, i.end);
      ShapeInsert(t.left, i, v);
      ShapeHeight(l');
      var sn := Fix(Shape(t).(left := AvlTreeSpec.Insert(Shape(t).left, i.begin, i.end)));
      assert sn.left == Shape(l') && sn.right == Shape(t.right);
      assert l'.Branch? ==> Shape(l').right.Branch? == l'.right.Branch? && Shape(l').key == l'.key;
    } else {
      var r' := IntervalTreeSpec.Insert(t.right, i, v);
      AvlTreeSpec.InsertRightRotationsPossible(Shape(t), i.begin, i.end);
      ShapeInsert(t.right, i, v);
      ShapeHeight(r');
      var sn := Fix(Shape(t).(right := AvlTreeSpec.Insert(Shape(t).right, i.begin, i.end)));
      assert sn.left == Shape(t.left) && sn.right == Shape(r');
      assert r'.Branch? ==> Shape(r').left.Branch? == r'.left.Branch? && Shape(r').key == r'.key;
    }
  }

  /** Recomputing a height and a subtreeEnd and rebalancing keeps the number of nodes. */
  lemma {:induction false} RetraceKeepsSize<V>(n: ITree<V>, k: int)
    requires n.Branch?
    ensures Size(IntervalTreeSpec.RebalanceInsert(AdjustSubtreeMax(Fix(n)), k)) == Size(n)
    ensures Size(IntervalTreeSpec.RebalanceRemove(AdjustSubtreeMax(Fix(n)))) == Size(n)
  {
    var m := AdjustSubtreeMax(Fix(n));
    ShapeRebalance(m, k);
    ShapeKeeps(m);
    ShapeKeeps(n);
    ShapeKeeps(IntervalTreeSpec.RebalanceInsert(m, k));
    ShapeKeeps(IntervalTreeSpec.RebalanceRemove(m));
    RebalanceKeepsContents(Shape(m), k);
  }

  // ---------------------------------------------------------------------------------------------
  // The tree object

  class IntervalMultiTree<V> {
    /** The heap of nodes this tree owns, by address. */
    var nodes: Heap<Payload<V>>
    /** The next address the allocator hands out. */
    var nextAddr: nat
    var root: NodePtr
    var nodesCount: int
    /** The subtree value the nodes from `root` hold, and where they are. */
    ghost var tree: ITree<V>
    ghost var layout: Layout

    /** The allocator's bookkeeping: no live node sits at or above the next address. */
    ghost predicate ArenaOk()
      reads this
    {
      forall a :: a in nodes ==> a < nextAddr
    }

    /** The tree invariant: the live nodes are exactly the tree's nodes, the counter counts
        them, and they hold an AVL search tree on begins whose subtreeEnds are all correct. */
    ghost predicate Valid()
      reads this
    {
      && ArenaOk()
      && Realizes(nodes, root, tree, layout)
      && (forall a :: a in nodes <==> Owns(layout, a))
      && nodesCount == Size(tree)
      && IntervalTreeSpec.Valid(tree)
    }

    constructor ()
      ensures Valid() && tree == Empty
    {
      nodes := map[];
      nextAddr := 0;
      root := Null;
      nodesCount := 0;
      tree := Empty;
      layout := Nil;
    }

    /** Allocates a node with null children, height 0, the interval [k, e), subtreeEnd e and no
        values, and counts it. */
    method NewNode(k: int, e: int) returns (p: NodePtr)
      requires ArenaOk()
      modifies this`nodes, this`nextAddr, this`nodesCount
      ensures ArenaOk()
      ensures p.Ptr? && p.addr !in old(nodes)
      ensures nodes == old(nodes)[p.addr := Node(Null, Null, 0, k, Payload(e, e, []))]
      ensures nodesCount == old(nodesCount) + 1
    {
      p := Ptr(nextAddr);
      nodes := nodes[nextAddr := Node(Null, Null, 0, k, Payload(e, e, []))];
      nextAddr := nextAddr + 1;
      nodesCount := nodesCount + 1;
    }

    /** Frees a node and uncounts it. */
    method DeleteNode(p: NodePtr)
      requires ArenaOk() && p.Ptr? && p.addr in nodes
      modifies this`nodes, this`nodesCount
      ensures ArenaOk()
      ensures nodes == old(nodes) - {p.addr}
      ensures nodesCount == old(nodesCount) - 1
    {
      nodes := nodes - {p.addr};
      nodesCount := nodesCount - 1;
    }

    /** The number of live nodes, which is the number of distinct begins stored. */
    function GetNodesCount(): (r: int)
      reads this
      requires Valid()
      ensures r == |nodes| && r == Size(tree) && r == |Keys(tree)|
    {
      LayoutCount(nodes, root, tree, layout);
      assert nodes.Keys == Addrs(layout);
      SizeIsKeyCount(tree);
      nodesCount
    }

    /** The stored height of a subtree; a null pointer has height 0. */
    function NodeHeight(p: NodePtr): int
      reads this
      requires p.Null? || p.addr in nodes
    {
      if p.Null? then 0 else nodes[p.addr].height
    }

    /** Right height minus left height of a node; on a realized subtree it is Balance. */
    function NodeBalance(p: NodePtr, ghost t: ITree<V>, ghost s: Layout): (r: int)
      reads this
      requires Realizes(nodes, p, t, s) && t.Branch?
      ensures r == Balance(t)
    {
      assert Realizes(nodes, nodes[p.addr].left, t.left, s.left);
      assert Realizes(nodes, nodes[p.addr].right, t.right, s.right);
      NodeHeight(nodes[p.addr].right) - NodeHeight(nodes[p.addr].left)
    }

    /** Follows left children from a non-null node to the node holding the subtree's smallest
        begin. */
    method GetLeftermost(p: NodePtr, ghost t: ITree<V>, ghost s: Layout) returns (m: NodePtr)
      requires Realizes(nodes, p, t, s) && t.Branch?
      ensures m.Ptr? && m.addr in nodes
      ensures nodes[m.addr].key == Leftmost(t).key && nodes[m.addr].value == Leftmost(t).value
    {
      m := p;
      ghost var ct, cs := t, s;
      while nodes[m.addr].left.Ptr?
        invariant Realizes(nodes, m, ct, cs) && ct.Branch? && Leftmost(ct) == Leftmost(t)
        decreases ct
      {
        m := nodes[m.addr].left;
        ct, cs := ct.left, cs.left;
      }
    }

    /** Recomputes the subtreeEnd of the node at `p` from its own end and its children's
        subtreeEnds; nothing else changes. AdjustRealized relates it to the tree. */
    method AdjustSubtreeMax(p: NodePtr)
      requires p.Ptr? && p.addr in nodes && LinksIn(nodes, p.addr)
      modifies this`nodes
      ensures nodes == old(nodes)[p.addr := old(nodes)[p.addr].(value :=
        old(nodes)[p.addr].value.(subtreeEnd := HeapSubtreeEnd(old(nodes), p.addr)))]
    {
      var node := nodes[p.addr];
      var subtreeEnd := node.value.end;
      if node.left.Ptr? {
        subtreeEnd := Max(subtreeEnd, nodes[node.left.addr].value.subtreeEnd);
      }
      if node.right.Ptr? {
        subtreeEnd := Max(subtreeEnd, nodes[node.right.addr].value.subtreeEnd);
      }
      nodes := nodes[p.addr := node.(value := node.value.(subtreeEnd := subtreeEnd))];
    }

    /** Left rotation at `x`: its right child becomes the subtree's root; the subtreeEnds of the
        demoted node and then of the new root are recomputed, then their heights. */
    method LeftRotate(x: NodePtr, ghost t: ITree<V>, ghost s: Layout) returns (y: NodePtr)
      requires Realizes(nodes, x, t, s) && Rotatable(t, true)
      modifies this`nodes
      ensures Realizes(nodes, y, IntervalTreeSpec.RotateLeft(t), RotateLeftLayout(s))
      ensures Replaced(old(nodes), nodes, s, RotateLeftLayout(s))
      ensures nodes.Keys == old(nodes).Keys
    {
      ghost var h0 := nodes;
      RotateLeftLinks(h0, x, t, s);
      y := nodes[x.addr].right;
      var t2 := nodes[y.addr].left;
      nodes := nodes[y.addr := nodes[y.addr].(left := x)];
      nodes := nodes[x.addr := nodes[x.addr].(right := t2)];
      AdjustSubtreeMax(x);
      ghost var vx := t.value.(subtreeEnd := CoverEnd(t.value.end, t.left, t.right.left));
      assert nodes[x.addr].value == vx;
      AdjustSubtreeMax(y);
      ghost var vy := t.right.value.(subtreeEnd :=
        CoverEnd(t.right.value.end, Branch(t.left, t.key, vx, t.height, t.right.left), t.right.right));
      assert nodes[y.addr].value == vy;
      nodes := nodes[x.addr := nodes[x.addr].(height :=
        Max(NodeHeight(nodes[x.addr].left), NodeHeight(nodes[x.addr].right)) + 1)];
      ghost var hx: nat := 1 + Max(Height(t.left), Height(t.right.left));
      assert nodes[x.addr].height == hx;
      nodes := nodes[y.addr := nodes[y.addr].(height :=
        Max(NodeHeight(nodes[y.addr].left), NodeHeight(nodes[y.addr].right)) + 1)];
      ghost var hy: nat := 1 + Max(hx, Height(t.right.right));
      assert nodes[y.addr].height == hy;
      RotateLeftUpper(h0, nodes, x, t, s, vx, hx, vy, hy);
      RotateLeftNodes(t);
    }

    /** Right rotation at `y`: its left child becomes the subtree's root; the subtreeEnds of the
        demoted node and then of the new root are recomputed, then their heights. */
    method RightRotate(y: NodePtr, ghost t: ITree<V>, ghost s: Layout) returns (x: NodePtr)
      requires Realizes(nodes, y, t, s) && Rotatable(t, false)
      modifies this`nodes
      ensures Realizes(nodes, x, IntervalTreeSpec.RotateRight(t), RotateRightLayout(s))
      ensures Replaced(old(nodes), nodes, s, RotateRightLayout(s))
      ensures nodes.Keys == old(nodes).Keys
    {
      ghost var h0 := nodes;
      RotateRightLinks(h0, y, t, s);
      x := nodes[y.addr].left;
      var t2 := nodes[x.addr].right;
      nodes := nodes[x.addr := nodes[x.addr].(right := y)];
      nodes := nodes[y.addr := nodes[y.addr].(left := t2)];
      AdjustSubtreeMax(y);
      ghost var vy := t.value.(subtreeEnd := CoverEnd(t.value.end, t.left.right, t.right));
      assert nodes[y.addr].value == vy;
      AdjustSubtreeMax(x);
      ghost var vx := t.left.value.(subtreeEnd :=
        CoverEnd(t.left.value.end, t.left.left, Branch(t.left.right, t.key, vy, t.height, t.right)));
      assert nodes[x.addr].value == vx;
      nodes := nodes[y.addr := nodes[y.addr].(height :=
        Max(NodeHeight(nodes[y.addr].left), NodeHeight(nodes[y.addr].right)) + 1)];
      ghost var hy: nat := 1 + Max(Height(t.left.right), Height(t.right));
      assert nodes[y.addr].height == hy;
      nodes := nodes[x.addr := nodes[x.addr].(height :=
        Max(NodeHeight(nodes[x.addr].left), NodeHeight(nodes[x.addr].right)) + 1)];
      ghost var hx: nat := 1 + Max(Height(t.left.left), hy);
      assert nodes[x.addr].height == hx;
      RotateRightUpper(h0, nodes, y, t, s, vx, hx, vy, hy);
      RotateRightNodes(t);
    }

    /** The double rotation for a left-heavy node whose left child leans right: the left child
        is rotated left, then the node right. */
    method LeftRightRotate(p: NodePtr, ghost n: ITree<V>, ghost s: Layout) returns (r: NodePtr)
      requires Realizes(nodes, p, n, s) && n.Branch? && Rotatable(n.left, true)
      modifies this`nodes
      ensures Realizes(nodes, r, IntervalTreeSpec.RotateRight(n.(left := IntervalTreeSpec.RotateLeft(n.left))),
                       RotateRightLayout(s.(left := RotateLeftLayout(s.left))))
      ensures Replaced(old(nodes), nodes, s, RotateRightLayout(s.(left := RotateLeftLayout(s.left))))
      ensures nodes.Keys == old(nodes).Keys
    {
      ghost var h0 := nodes;
      var l := LeftRotate(nodes[p.addr].left, n.left, s.left);
      LinkLeft(h0, nodes, p, n, s, l, IntervalTreeSpec.RotateLeft(n.left), RotateLeftLayout(s.left));
      nodes := nodes[p.addr := nodes[p.addr].(left := l)];
      ghost var h1 := nodes;
      ghost var s1 := s.(left := RotateLeftLayout(s.left));
      r := RightRotate(p, n.(left := IntervalTreeSpec.RotateLeft(n.left)), s1);
      ReplacedTrans(h0, h1, nodes, s, s1, RotateRightLayout(s1));
    }

    /** The mirror image of LeftRightRotate. */
    method RightLeftRotate(p: NodePtr, ghost n: ITree<V>, ghost s: Layout) returns (r: NodePtr)
      requires Realizes(nodes, p, n, s) && n.Branch? && Rotatable(n.right, false)
      modifies this`nodes
      ensures Realizes(nodes, r, IntervalTreeSpec.RotateLeft(n.(right := IntervalTreeSpec.RotateRight(n.right))),
                       RotateLeftLayout(s.(right := RotateRightLayout(s.right))))
      ensures Replaced(old(nodes), nodes, s, RotateLeftLayout(s.(right := RotateRightLayout(s.right))))
      ensures nodes.Keys == old(nodes).Keys
    {
      ghost var h0 := nodes;
      var rr := RightRotate(nodes[p.addr].right, n.right, s.right);
      LinkRight(h0, nodes, p, n, s, rr, IntervalTreeSpec.RotateRight(n.right), RotateRightLayout(s.right));
      nodes := nodes[p.addr := nodes[p.addr].(right := rr)];
      ghost var h1 := nodes;
      ghost var s1 := s.(right := RotateRightLayout(s.right));
      r := LeftRotate(p, n.(right := IntervalTreeSpec.RotateRight(n.right)), s1);
      ReplacedTrans(h0, h1, nodes, s, s1, RotateLeftLayout(s1));
    }

    /** The rebalancing after an insertion below `p`, whose height and subtreeEnd are already
        recomputed; the balance is read from the node. */
    method RebalanceAfterInsert(p: NodePtr, k: int, ghost n: ITree<V>, ghost s: Layout)
      returns (r: NodePtr, ghost s': Layout)
      requires Realizes(nodes, p, n, s) && n.Branch?
      requires InsertRotatable(n, k)
      modifies this`nodes
      ensures Realizes(nodes, r, IntervalTreeSpec.RebalanceInsert(n, k), s')
      ensures Replaced(old(nodes), nodes, s, s')
      ensures nodes.Keys == old(nodes).Keys
    {
      IntervalTreeSpec.RebalanceInsertCases(n, k);
      var balance := NodeBalance(p, n, s);
      var lp, rp := nodes[p.addr].left, nodes[p.addr].right;
      assert Realizes(nodes, lp, n.left, s.left) && Realizes(nodes, rp, n.right, s.right);
      if balance < -1 && k < nodes[lp.addr].key {
        r := RightRotate(p, n, s);
        s' := RotateRightLayout(s);
      } else if 1 < balance && nodes[rp.addr].key < k {
        r := LeftRotate(p, n, s);
        s' := RotateLeftLayout(s);
      } else if balance < -1 && nodes[lp.addr].key < k {
        r := LeftRightRotate(p, n, s);
        s' := RotateRightLayout(s.(left := RotateLeftLayout(s.left)));
      } else if 1 < balance && k < nodes[rp.addr].key {
        r := RightLeftRotate(p, n, s);
        s' := RotateLeftLayout(s.(right := RotateRightLayout(s.right)));
      } else {
        r, s' := p, s;
        RealizedInHeap(nodes, p, n, s);
      }
    }

    /** The rebalancing after a removal at or below `p`, whose height and subtreeEnd are already
        recomputed; `balance` is the node's balance, read before its subtreeEnd was. */
    method RebalanceAfterRemove(p: NodePtr, balance: int, ghost n: ITree<V>, ghost s: Layout)
      returns (r: NodePtr, ghost s': Layout)
      requires Realizes(nodes, p, n, s) && n.Branch? && balance == Balance(n)
      modifies this`nodes
      ensures Realizes(nodes, r, IntervalTreeSpec.RebalanceRemove(n), s')
      ensures Replaced(old(nodes), nodes, s, s')
      ensures nodes.Keys == old(nodes).Keys
    {
      IntervalTreeSpec.RebalanceRemoveCases(n);
      var lp, rp := nodes[p.addr].left, nodes[p.addr].right;
      assert Realizes(nodes, lp, n.left, s.left) && Realizes(nodes, rp, n.right, s.right);
      if balance < -1 && NodeBalance(lp, n.left, s.left) <= 0 {
        r := RightRotate(p, n, s);
        s' := RotateRightLayout(s);
      } else if 1 < balance && 0 <= NodeBalance(rp, n.right, s.right) {
        r := LeftRotate(p, n, s);
        s' := RotateLeftLayout(s);
      } else if balance < -1 && 0 < NodeBalance(lp, n.left, s.left) {
        r := LeftRightRotate(p, n, s);
        s' := RotateRightLayout(s.(left := RotateLeftLayout(s.left)));
      } else if 1 < balance && NodeBalance(rp, n.right, s.right) < 0 {
        r := RightLeftRotate(p, n, s);
        s' := RotateLeftLayout(s.(right := RotateRightLayout(s.right)));
      } else {
        r, s' := p, s;
        RealizedInHeap(nodes, p, n, s);
      }
    }

    /** Recomputes the stored height of the node at `p` from its children's heights. */
    method UpdateHeight(p: NodePtr, ghost n: ITree<V>, ghost s: Layout)
      requires Realizes(nodes, p, n, s) && n.Branch?
      modifies this`nodes
      ensures Realizes(nodes, p, Fix(n), s)
      ensures Replaced(old(nodes), nodes, s, s)
      ensures nodes.Keys == old(nodes).Keys
    {
      assert Realizes(nodes, nodes[p.addr].left, n.left, s.left);
      assert Realizes(nodes, nodes[p.addr].right, n.right, s.right);
      var hgt := 1 + Max(NodeHeight(nodes[p.addr].left), NodeHeight(nodes[p.addr].right));
      SetHeight(nodes, p, n, s, hgt);
      nodes := nodes[p.addr := nodes[p.addr].(height := hgt)];
    }

    /** Inserts the interval `i` with value `v` into the subtree at `p` and returns the subtree's
        new root: a new begin gets a new leaf, a begin already present gets `v` appended to its
        node's values. */
    method SubtreeInsert(p: NodePtr, i: Interval, v: V, ghost t: ITree<V>, ghost s: Layout)
      returns (r: NodePtr, ghost s': Layout)
      requires ArenaOk() && Realizes(nodes, p, t, s) && HeightsOk(t) && Balanced(t)
      modifies this`nodes, this`nextAddr, this`nodesCount
      ensures ArenaOk() && Realizes(nodes, r, IntervalTreeSpec.Insert(t, i, v), s')
      ensures nodesCount == old(nodesCount) + Size(IntervalTreeSpec.Insert(t, i, v)) - Size(t)
      ensures Replaced(old(nodes), nodes, s, s')
      decreases t
    {
      if p.Null? {
        ghost var h := nodes;
        r := NewNode(i.begin, i.end);
        NewLeaf(h, nodes, r.addr, i, v);
        nodes := nodes[r.addr := nodes[r.addr].(height := 1)];
        nodes := nodes[r.addr := nodes[r.addr].(value := nodes[r.addr].value.(values := nodes[r.addr].value.values + [v]))];
        s' := Cell(Nil, r.addr, Nil);
        return;
      }
      ghost var h0 := nodes;
      RealizedInHeap(h0, p, t, s);
      IntervalTreeSpec.InsertStep(t, i, v);
      ghost var n: ITree<V>;
      if i.begin < nodes[p.addr].key {
        var l; ghost var sl;
        l, sl := SubtreeInsert(nodes[p.addr].left, i, v, t.left, s.left);
        LinkLeft(h0, nodes, p, t, s, l, IntervalTreeSpec.Insert(t.left, i, v), sl);
        nodes := nodes[p.addr := nodes[p.addr].(left := l)];
        n, s' := t.(left := IntervalTreeSpec.Insert(t.left, i, v)), s.(left := sl);
        assert nodesCount == old(nodesCount) + Size(n) - Size(t);
      } else if nodes[p.addr].key < i.begin {
        var rr; ghost var sr;
        rr, sr := SubtreeInsert(nodes[p.addr].right, i, v, t.right, s.right);
        LinkRight(h0, nodes, p, t, s, rr, IntervalTreeSpec.Insert(t.right, i, v), sr);
        nodes := nodes[p.addr := nodes[p.addr].(right := rr)];
        n, s' := t.(right := IntervalTreeSpec.Insert(t.right, i, v)), s.(right := sr);
        assert nodesCount == old(nodesCount) + Size(n) - Size(t);
      } else {
        var d := nodes[p.addr].value;
        SetPayload(nodes, p, t, s, d.(values := d.values + [v]));
        nodes := nodes[p.addr := nodes[p.addr].(value := d.(values := d.values + [v]))];
        r, s' := p, s;
        return;
      }
      InsertRotationsPossible(t, i, v, n);
      ghost var h1 := nodes;
      ghost var s1 := s';
      r, s' := RetraceInsert(p, i.begin, n, s');
      ReplacedTrans(h0, h1, nodes, s, s1, s');
    }

    /** The way back up after an insertion below `p`: the node's height, then its subtreeEnd,
        are recomputed, then the node is rebalanced. */
    method RetraceInsert(p: NodePtr, k: int, ghost n: ITree<V>, ghost s: Layout)
      returns (r: NodePtr, ghost s': Layout)
      requires ArenaOk() && Realizes(nodes, p, n, s) && n.Branch?
      requires InsertRotatable(IntervalTreeSpec.AdjustSubtreeMax(Fix(n)), k)
      modifies this`nodes
      ensures ArenaOk()
      ensures Realizes(nodes, r, IntervalTreeSpec.RebalanceInsert(IntervalTreeSpec.AdjustSubtreeMax(Fix(n)), k), s')
      ensures Size(IntervalTreeSpec.RebalanceInsert(IntervalTreeSpec.AdjustSubtreeMax(Fix(n)), k)) == Size(n)
      ensures Replaced(old(nodes), nodes, s, s')
    {
      RetraceKeepsSize(n, k);
      UpdateHeight(p, n, s);
      ghost var h1 := nodes;
      AdjustRealized(nodes, p, Fix(n), s);
      AdjustSubtreeMax(p);
      ghost var h2 := nodes;
      ReplacedTrans(old(nodes), h1, h2, s, s, s);
      r, s' := RebalanceAfterInsert(p, k, IntervalTreeSpec.AdjustSubtreeMax(Fix(n)), s);
      ReplacedTrans(old(nodes), h2, nodes, s, s, s');
    }

    /** Removes the node whose begin is `i`'s begin, with all its values, from the subtree at
        `p` and returns the subtree's new root; an absent begin leaves the subtree as it is. */
    method SubtreeRemove(p: NodePtr, i: Interval, ghost t: ITree<V>, ghost s: Layout)
      returns (r: NodePtr, ghost s': Layout)
      requires ArenaOk() && Realizes(nodes, p, t, s) && HeightsOk(t) && Balanced(t)
      modifies this`nodes, this`nextAddr, this`nodesCount
      ensures ArenaOk() && Realizes(nodes, r, IntervalTreeSpec.Remove(t, i), s')
      ensures nodesCount == old(nodesCount) + Size(IntervalTreeSpec.Remove(t, i)) - Size(t)
      ensures Replaced(old(nodes), nodes, s, s')
      decreases t, 2
    {
      if p.Null? {
        return p, s;
      }
      ghost var h0 := nodes;
      RealizedInHeap(h0, p, t, s);
      IntervalTreeSpec.RemoveStep(t, i);
      var newRoot := p;
      ghost var n: ITree<V>;
      ghost var ns: Layout;
      if i.begin < nodes[p.addr].key {
        var l; ghost var sl;
        l, sl := SubtreeRemove(nodes[p.addr].left, i, t.left, s.left);
        LinkLeft(h0, nodes, p, t, s, l, IntervalTreeSpec.Remove(t.left, i), sl);
        nodes := nodes[p.addr := nodes[p.addr].(left := l)];
        n, ns := t.(left := IntervalTreeSpec.Remove(t.left, i)), s.(left := sl);
        assert nodesCount == old(nodesCount) + Size(n) - Size(t);
      } else if nodes[p.addr].key < i.begin {
        var rr; ghost var sr;
        rr, sr := SubtreeRemove(nodes[p.addr].right, i, t.right, s.right);
        LinkRight(h0, nodes, p, t, s, rr, IntervalTreeSpec.Remove(t.right, i), sr);
        nodes := nodes[p.addr := nodes[p.addr].(right := rr)];
        n, ns := t.(right := IntervalTreeSpec.Remove(t.right, i)), s.(right := sr);
        assert nodesCount == old(nodesCount) + Size(n) - Size(t);
      } else {
        newRoot, ns := RemoveRootNode(p, t, s);
        n := IntervalTreeSpec.Unlink(t);
      }
      if newRoot.Ptr? {
        ghost var h1 := nodes;
        r, s' := RetraceRemove(newRoot, n, ns);
        ReplacedTrans(h0, h1, nodes, s, ns, s');
      } else {
        r, s' := newRoot, ns;
      }
    }

    /** The way back up after a removal at or below `p`: the node's height is recomputed and its
        balance read, then its subtreeEnd is recomputed, then the node is rebalanced. */
    method RetraceRemove(p: NodePtr, ghost n: ITree<V>, ghost s: Layout)
      returns (r: NodePtr, ghost s': Layout)
      requires ArenaOk() && Realizes(nodes, p, n, s) && n.Branch?
      modifies this`nodes
      ensures ArenaOk()
      ensures Realizes(nodes, r, IntervalTreeSpec.RebalanceRemove(IntervalTreeSpec.AdjustSubtreeMax(Fix(n))), s')
      ensures Size(IntervalTreeSpec.RebalanceRemove(IntervalTreeSpec.AdjustSubtreeMax(Fix(n)))) == Size(n)
      ensures Replaced(old(nodes), nodes, s, s')
    {
      RetraceKeepsSize(n, 0);
      UpdateHeight(p, n, s);
      ghost var h1 := nodes;
      var balance := NodeBalance(p, Fix(n), s);
      AdjustRealized(nodes, p, Fix(n), s);
      AdjustSubtreeMax(p);
      ghost var h2 := nodes;
      ReplacedTrans(old(nodes), h1, h2, s, s, s);
      r, s' := RebalanceAfterRemove(p, balance, IntervalTreeSpec.AdjustSubtreeMax(Fix(n)), s);
      ReplacedTrans(old(nodes), h2, nodes, s, s, s');
    }

    /** Frees the node at `p`, whose begin is the one being removed, and returns what takes its
        place: its only child, or a fresh node holding the in-order successor's interval and
        values above the left subtree and the right subtree without the successor. */
    method RemoveRootNode(p: NodePtr, ghost t: ITree<V>, ghost s: Layout) returns (r: NodePtr, ghost s': Layout)
      requires ArenaOk() && Realizes(nodes, p, t, s) && t.Branch? && HeightsOk(t) && Balanced(t)
      modifies this`nodes, this`nextAddr, this`nodesCount
      ensures ArenaOk() && Realizes(nodes, r, IntervalTreeSpec.Unlink(t), s')
      ensures nodesCount == old(nodesCount) + Size(IntervalTreeSpec.Unlink(t)) - Size(t)
      ensures Replaced(old(nodes), nodes, s, s')
      decreases t, 1
    {
      ghost var h0 := nodes;
      var lp, rp := nodes[p.addr].left, nodes[p.addr].right;
      if lp.Null? {
        DropRoot(h0, p, t, s, true);
        r, s' := rp, s.right;
      } else if rp.Null? {
        DropRoot(h0, p, t, s, false);
        r, s' := lp, s.left;
      } else {
        r, s' := NewSuccessorRoot(p, t, s);
      }
      DeleteNode(p);
    }

    /** The two-children case of RemoveRootNode before the old node is freed: a fresh node gets
        the successor's interval and a copy of its values, the left subtree, and the right
        subtree without the successor. */
    method NewSuccessorRoot(p: NodePtr, ghost t: ITree<V>, ghost s: Layout) returns (r: NodePtr, ghost s': Layout)
      requires ArenaOk() && Realizes(nodes, p, t, s) && t.Branch? && HeightsOk(t) && Balanced(t)
      requires t.left.Branch? && t.right.Branch?
      modifies this`nodes, this`nextAddr, this`nodesCount
      ensures ArenaOk() && p.addr in nodes
      ensures nodesCount == old(nodesCount) + 1 + Size(IntervalTreeSpec.Unlink(t)) - Size(t)
      ensures Realizes(nodes - {p.addr}, r, IntervalTreeSpec.Unlink(t), s')
      ensures Replaced(old(nodes), nodes - {p.addr}, s, s')
      decreases t, 0
    {
      ghost var h0 := nodes;
      var lp, rp := nodes[p.addr].left, nodes[p.addr].right;
      var leftermost := GetLeftermost(rp, t.right, s.right);
      var mi := Interval(nodes[leftermost.addr].key, nodes[leftermost.addr].value.end);
      var mvs := nodes[leftermost.addr].value.values;
      r := NewNode(mi.begin, mi.end);
      FillNode(h0, nodes, r.addr, mi.begin, mi.end, mvs, lp);
      nodes := nodes[r.addr := nodes[r.addr].(value := nodes[r.addr].value.(values := mvs))];
      nodes := nodes[r.addr := nodes[r.addr].(left := lp)];
      ghost var h2 := nodes;
      ghost var mv := Payload(mi.end, mi.end, mvs);
      AllocFrame(h0, h2, rp, t.right, s.right, r.addr, Node(lp, Null, 0, mi.begin, mv));
      var rr; ghost var sr;
      rr, sr := SubtreeRemove(rp, mi, t.right, s.right);
      ReplaceRoot(h0, h2, nodes, p, t, s, r.addr, mi.begin, mv, rr, IntervalTreeSpec.Remove(t.right, mi), sr);
      nodes := nodes[r.addr := nodes[r.addr].(right := rr)];
      s' := Cell(s.left, r.addr, sr);
    }

    /** Inserts the interval `i` with value `v`. The value is filed under the interval already
        stored with i's begin, if there is one. */
    method Insert(i: Interval, v: V)
      requires Valid()
      modifies this
      ensures Valid()
      ensures tree == IntervalTreeSpec.Insert(old(tree), i, v)
      ensures multiset(Entries(tree)) == multiset(Entries(old(tree))) + multiset{(StoredInterval(old(tree), i), v)}
    {
      InsertValid(tree, i, v);
      var r; ghost var s;
      ghost var h0, s0 := nodes, layout;
      r, s := SubtreeInsert(root, i, v, tree, layout);
      ReplacedWhole(h0, nodes, s0, s);
      root, layout, tree := r, s, IntervalTreeSpec.Insert(tree, i, v);
    }

    /** Removes the node whose begin is `i`'s begin, with every value stored there; an absent
        begin changes nothing. */
    method Remove(i: Interval)
      requires Valid()
      modifies this
      ensures Valid()
      ensures tree == IntervalTreeSpec.Remove(old(tree), i)
      ensures Entries(tree) == WithoutBegin(Entries(old(tree)), i.begin)
    {
      ghost var t' := IntervalTreeSpec.Remove(tree, i);
      RemoveValid(tree, i);
      var r; ghost var s;
      ghost var h0, s0 := nodes, layout;
      r, s := SubtreeRemove(root, i, tree, layout);
      ReplacedWhole(h0, nodes, s0, s);
      root, layout, tree := r, s, t';
    }

    /** Appends to `acc` the values of the subtree at `p` whose intervals contain `point`, by
        the pruned descent QueryValues describes. */
    method SubtreeCollectQueryValues(p: NodePtr, point: int, acc: ValueVector<V>, ghost t: ITree<V>, ghost s: Layout)
      requires Realizes(nodes, p, t, s)
      modifies acc
      ensures acc.elems == old(acc.elems) + QueryValues(t, point)
      decreases t
    {
      if p.Null? {
        assert t.Empty?;
        return;
      }
      var node := nodes[p.addr];
      assert node.key == t.key && node.value == t.value;
      assert Realizes(nodes, node.left, t.left, s.left) && Realizes(nodes, node.right, t.right, s.right);
      ghost var own := if Contains(Interval(t.key, t.value.end), point) then t.value.values else [];
      if Contains(Interval(node.key, node.value.end), point) {
        var j := 0;
        while j < |node.value.values|
          invariant 0 <= j <= |node.value.values|
          invariant acc.elems == old(acc.elems) + node.value.values[..j]
        {
          acc.PushBack(node.value.values[j]);
          j := j + 1;
        }
        assert node.value.values[..j] == node.value.values;
      }
      ghost var e0 := acc.elems;
      assert e0 == old(acc.elems) + own;
      ghost var fromLeft := if point < t.value.subtreeEnd then QueryValues(t.left, point) else [];
      if point < node.value.subtreeEnd {
        SubtreeCollectQueryValues(node.left, point, acc, t.left, s.left);
      }
      ghost var e1 := acc.elems;
      assert e1 == e0 + fromLeft;
      ghost var fromRight := if t.key < point && point < t.value.subtreeEnd then QueryValues(t.right, point) else [];
      if node.key < point && point < node.value.subtreeEnd {
        SubtreeCollectQueryValues(node.right, point, acc, t.right, s.right);
      }
      assert acc.elems == e1 + fromRight;
      assert QueryValues(t, point) == own + fromLeft + fromRight;
      Regroup(old(acc.elems), own, fromLeft, fromRight);
    }

    /** Appends to `acc` every value stored under an interval that contains `point`. */
    method CollectQueryValues(point: int, acc: ValueVector<V>)
      requires Valid()
      modifies acc
      ensures acc.elems == old(acc.elems) + QueryValues(tree, point)
      ensures multiset(acc.elems) == multiset(old(acc.elems)) + multiset(Scan(Entries(tree), point))
    {
      QueryIsScan(tree, point);
      SubtreeCollectQueryValues(root, point, acc, tree, layout);
    }
  }
}
