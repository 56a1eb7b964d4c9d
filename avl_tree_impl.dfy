/**
 * The key/value AVL tree as the pointer program it is: nodes live in a heap, each node holds
 * its children's pointers, the key, the value and a stored height, and every operation works
 * by allocating, rewriting and freeing nodes.
 *
 * The heap is an arena `nodes` from addresses to nodes; a `NodePtr` is the null pointer or an
 * address. `Realizes(h, p, t, s)` says that the nodes reachable from `p` in heap `h` form exactly
 * the subtree value `t` of AvlTreeSpec, as a tree (no node shared, no cycle), at the addresses
 * the layout `s` records. Every heap method below is proved to build the subtree the
 * corresponding function of AvlTreeSpec computes, and to touch only the nodes of the subtree it
 * was given (`Replaced`).
 */
module AvlTreeImpl {
  import opened AvlTreeSpec

  datatype NodePtr = Null | Ptr(addr: nat)

  /** One heap node: child pointers, stored height, key and value. */
  datatype Node<V> = Node(left: NodePtr, right: NodePtr, height: int, key: int, value: V)

  type Heap<V> = map<nat, Node<V>>

  /** The addresses of a subtree's nodes, arranged as the subtree is. */
  datatype Layout = Nil | Cell(left: Layout, addr: nat, right: Layout)

  /** Whether `a` is the address of one of the nodes of `s`. */
  ghost predicate Owns(s: Layout, a: nat)
  {
    match s
    case Nil => false
    case Cell(l, b, r) => a == b || Owns(l, a) || Owns(r, a)
  }

  /** No address belongs to both layouts. */
  ghost predicate Disjoint(s0: Layout, s1: Layout)
  {
    forall a :: Owns(s0, a) ==> !Owns(s1, a)
  }

  /** The addresses of `s` as a set, for counting them. */
  ghost function Addrs(s: Layout): set<nat>
  {
    match s
    case Nil => {}
    case Cell(l, a, r) => Addrs(l) + {a} + Addrs(r)
  }

  /** The nodes at the addresses of `s`, reached from `p`, hold exactly the subtree `t`, and no
      node occurs twice. */
  ghost predicate Realizes<V>(h: Heap<V>, p: NodePtr, t: Tree<V>, s: Layout)
    decreases t
  {
    match t
    case Empty => p.Null? && s.Nil?
    case Branch(l, k, v, ht, r) =>
      && s.Cell? && p == Ptr(s.addr) && s.addr in h
      && h[s.addr].key == k && h[s.addr].value == v && h[s.addr].height == ht
      && Realizes(h, h[s.addr].left, l, s.left) && Realizes(h, h[s.addr].right, r, s.right)
      && !Owns(s.left, s.addr) && !Owns(s.right, s.addr) && Disjoint(s.left, s.right)
  }

  /** Going from heap `h0` to `h1` replaced the nodes of `s0` by the nodes of `s1`, each of which
      is a node of `s0` or a newly allocated one, and left every other node as it was. */
  ghost predicate Replaced<V>(h0: Heap<V>, h1: Heap<V>, s0: Layout, s1: Layout)
  {
    && (forall a :: a in h1 <==> (a in h0 && !Owns(s0, a)) || Owns(s1, a))
    && (forall a :: Owns(s1, a) ==> Owns(s0, a) || a !in h0)
    && (forall a :: a in h0 && !Owns(s0, a) ==> h1[a] == h0[a])
  }

  // ---------------------------------------------------------------------------------------------
  // Facts about the heap relation

  /** The addresses of a cell are its own and its two sides'. */
  lemma OwnsCell(s: Layout)
    requires s.Cell?
    ensures forall a :: Owns(s, a) <==> a == s.addr || Owns(s.left, a) || Owns(s.right, a)
  {
  }

  /** A realized subtree lies inside the heap. */
  lemma {:induction false} RealizedInHeap<V>(h: Heap<V>, p: NodePtr, t: Tree<V>, s: Layout)
    requires Realizes(h, p, t, s)
    ensures forall a :: Owns(s, a) ==> a in h
    decreases t
  {
    match t
    case Empty =>
    case Branch(l, _, _, _, r) =>
      OwnsCell(s);
      RealizedInHeap(h, h[s.addr].left, l, s.left);
      RealizedInHeap(h, h[s.addr].right, r, s.right);
  }

  /** `Addrs` collects exactly the addresses a layout owns. */
  lemma {:induction false} AddrsOwns(s: Layout)
    ensures forall a :: a in Addrs(s) <==> Owns(s, a)
  {
    match s
    case Nil =>
    case Cell(l, _, r) =>
      AddrsOwns(l);
      AddrsOwns(r);
  }

  /** A cell whose own address and two sides do not overlap has one address more than its
      sides together. */
  lemma CountCell(s: Layout)
    requires s.Cell? && !Owns(s.left, s.addr) && !Owns(s.right, s.addr) && Disjoint(s.left, s.right)
    ensures |Addrs(s)| == |Addrs(s.left)| + |Addrs(s.right)| + 1
  {
    AddrsOwns(s.left);
    AddrsOwns(s.right);
    var fl, fr := Addrs(s.left), Addrs(s.right);
    AddOne(fl, s.addr);
    var fa := fl + {s.addr};
    assert fa !! fr by {
      forall a | a in fa ensures a !in fr {
        assert a == s.addr || Owns(s.left, a);
      }
    }
    DisjointUnion(fa, fr);
  }

  /** A realized subtree has one address per branch. */
  lemma {:induction false} LayoutCount<V>(h: Heap<V>, p: NodePtr, t: Tree<V>, s: Layout)
    requires Realizes(h, p, t, s)
    ensures forall a :: a in Addrs(s) <==> Owns(s, a)
    ensures |Addrs(s)| == Size(t)
    decreases t
  {
    AddrsOwns(s);
    match t
    case Empty =>
    case Branch(l, _, _, _, r) =>
      LayoutCount(h, h[s.addr].left, l, s.left);
      LayoutCount(h, h[s.addr].right, r, s.right);
      CountCell(s);
  }

  /** A realized subtree only depends on its own nodes. */
  lemma {:induction false} RealizesFrame<V>(h: Heap<V>, h': Heap<V>, p: NodePtr, t: Tree<V>, s: Layout)
    requires Realizes(h, p, t, s)
    requires forall a :: Owns(s, a) ==> a in h && a in h' && h'[a] == h[a]
    ensures Realizes(h', p, t, s)
    decreases t
  {
    match t
    case Empty =>
    case Branch(l, _, _, _, r) =>
      OwnsCell(s);
      RealizesFrame(h, h', h[s.addr].left, l, s.left);
      RealizesFrame(h, h', h[s.addr].right, r, s.right);
  }

  /** Allocating a node at a fresh address leaves every realized subtree as it was. */
  lemma {:induction false} AllocFrame<V>(h0: Heap<V>, h1: Heap<V>, p: NodePtr, t: Tree<V>, s: Layout, a: nat, x: Node<V>)
    requires Realizes(h0, p, t, s) && a !in h0 && h1 == h0[a := x]
    ensures Realizes(h1, p, t, s)
  {
    RealizedInHeap(h0, p, t, s);
    RealizesFrame(h0, h1, p, t, s);
  }

  lemma {:induction false} ReplacedTrans<V>(h0: Heap<V>, h1: Heap<V>, h2: Heap<V>, s0: Layout, s1: Layout, s2: Layout)
    requires Replaced(h0, h1, s0, s1) && Replaced(h1, h2, s1, s2)
    ensures Replaced(h0, h2, s0, s2)
  {
  }

  /** When the nodes of a heap are exactly those of a layout, replacing that layout's nodes
      leaves a heap whose nodes are exactly those of the new layout. */
  lemma ReplacedWhole<V>(h0: Heap<V>, h1: Heap<V>, s0: Layout, s1: Layout)
    requires (forall a :: a in h0 <==> Owns(s0, a)) && Replaced(h0, h1, s0, s1)
    ensures forall a :: a in h1 <==> Owns(s1, a)
  {
  }

  /** Giving a freshly allocated node for `k` and `v` height 1 builds the tree that inserting
      into an empty subtree describes. */
  lemma AllocLeaf<V>(h0: Heap<V>, hn: Heap<V>, a: nat, k: int, v: V)
    requires a !in h0 && hn == h0[a := Node(Null, Null, 0, k, v)]
    ensures var h1 := hn[a := hn[a].(height := 1)];
      Realizes(h1, Ptr(a), AvlTreeSpec.Insert(Empty, k, v), Cell(Nil, a, Nil)) && Replaced(h0, h1, Nil, Cell(Nil, a, Nil))
  {
  }

  /** Writing the pointer to a rebuilt left subtree into its parent rebuilds the parent. */
  lemma {:induction false} LinkLeft<V>(h0: Heap<V>, h1: Heap<V>, p: NodePtr, t: Tree<V>, s: Layout, lp: NodePtr, l: Tree<V>, sl: Layout)
    requires Realizes(h0, p, t, s) && t.Branch?
    requires Realizes(h1, lp, l, sl)
    requires Replaced(h0, h1, s.left, sl)
    ensures s.addr in h1 && h1[s.addr] == h0[s.addr]
    ensures var h2 := h1[s.addr := h1[s.addr].(left := lp)];
      && Realizes(h2, p, t.(left := l), s.(left := sl))
      && Replaced(h0, h2, s, s.(left := sl))
  {
    var n := h0[s.addr];
    OwnsCell(s);
    OwnsCell(s.(left := sl));
    RealizedInHeap(h0, p, t, s);
    RealizedInHeap(h1, lp, l, sl);
    RealizesFrame(h0, h1, n.right, t.right, s.right);
    var h2 := h1[s.addr := h1[s.addr].(left := lp)];
    RealizesFrame(h1, h2, lp, l, sl);
    RealizesFrame(h1, h2, n.right, t.right, s.right);
  }

  /** The mirror image of LinkLeft. */
  lemma {:induction false} LinkRight<V>(h0: Heap<V>, h1: Heap<V>, p: NodePtr, t: Tree<V>, s: Layout, rp: NodePtr, r: Tree<V>, sr: Layout)
    requires Realizes(h0, p, t, s) && t.Branch?
    requires Realizes(h1, rp, r, sr)
    requires Replaced(h0, h1, s.right, sr)
    ensures s.addr in h1 && h1[s.addr] == h0[s.addr]
    ensures var h2 := h1[s.addr := h1[s.addr].(right := rp)];
      && Realizes(h2, p, t.(right := r), s.(right := sr))
      && Replaced(h0, h2, s, s.(right := sr))
  {
    var n := h0[s.addr];
    OwnsCell(s);
    OwnsCell(s.(right := sr));
    RealizedInHeap(h0, p, t, s);
    RealizedInHeap(h1, rp, r, sr);
    RealizesFrame(h0, h1, n.left, t.left, s.left);
    var h2 := h1[s.addr := h1[s.addr].(right := rp)];
    RealizesFrame(h1, h2, rp, r, sr);
    RealizesFrame(h1, h2, n.left, t.left, s.left);
  }

  /** Rewriting the stored height of a subtree's root changes nothing else. */
  lemma {:induction false} SetHeight<V>(h: Heap<V>, p: NodePtr, t: Tree<V>, s: Layout, x: nat)
    requires Realizes(h, p, t, s) && t.Branch?
    ensures var h' := h[s.addr := h[s.addr].(height := x)];
      && Realizes(h', p, t.(height := x), s)
      && Replaced(h, h', s, s)
  {
    var h' := h[s.addr := h[s.addr].(height := x)];
    OwnsCell(s);
    RealizedInHeap(h, p, t, s);
    RealizesFrame(h, h', h[s.addr].left, t.left, s.left);
    RealizesFrame(h, h', h[s.addr].right, t.right, s.right);
  }

  /** The layout after a left rotation, following RotateLeft. */
  function RotateLeftLayout(s: Layout): (s': Layout)
    ensures forall a :: Owns(s', a) <==> Owns(s, a)
  {
    match s
    case Cell(a, x, Cell(b, y, c)) => Cell(Cell(a, x, b), y, c)
    case _ => s
  }

  /** The layout after a right rotation, following RotateRight. */
  function RotateRightLayout(s: Layout): (s': Layout)
    ensures forall a :: Owns(s', a) <==> Owns(s, a)
  {
    match s
    case Cell(Cell(a, x, b), y, c) => Cell(a, x, Cell(b, y, c))
    case _ => s
  }

  /** A subtree avoiding the two nodes `x` and `y` survives any change to those two. */
  lemma {:induction false} FrameExcept<V>(h0: Heap<V>, h1: Heap<V>, q: NodePtr, t: Tree<V>, s: Layout, x: nat, y: nat)
    requires Realizes(h0, q, t, s) && !Owns(s, x) && !Owns(s, y)
    requires forall a :: a in h0 && a != x && a != y ==> a in h1 && h1[a] == h0[a]
    ensures Realizes(h1, q, t, s)
  {
    RealizedInHeap(h0, q, t, s);
    RealizesFrame(h0, h1, q, t, s);
  }

  /** During a left rotation at `s.addr` only the two rotated nodes change: the three subtrees
      that move keep their nodes. */
  lemma {:induction false} RotateLeftFrame<V>(h0: Heap<V>, h1: Heap<V>, x: NodePtr, t: Tree<V>, s: Layout)
    requires Realizes(h0, x, t, s) && Rotatable(t, true) && s.Cell? && s.right.Cell?
    requires forall a :: a in h0 && a != s.addr && a != s.right.addr ==> a in h1 && h1[a] == h0[a]
    ensures s.addr != s.right.addr && s.right.addr in h0
    ensures Realizes(h1, h0[s.addr].left, t.left, s.left)
    ensures Realizes(h1, h0[s.right.addr].left, t.right.left, s.right.left)
    ensures Realizes(h1, h0[s.right.addr].right, t.right.right, s.right.right)
  {
    var n := h0[s.addr];
    assert Realizes(h0, n.right, t.right, s.right);
    var m := h0[s.right.addr];
    OwnsCell(s.right);
    FrameExcept(h0, h1, n.left, t.left, s.left, s.addr, s.right.addr);
    FrameExcept(h0, h1, m.left, t.right.left, s.right.left, s.addr, s.right.addr);
    FrameExcept(h0, h1, m.right, t.right.right, s.right.right, s.addr, s.right.addr);
  }

  /** Once a left rotation has relinked the demoted node, that node holds the left part of the
      rotation, with the value `vx` and the height `hx` it has been given so far. */
  lemma {:induction false} RotateLeftLower<V>(h0: Heap<V>, h1: Heap<V>, x: NodePtr, t: Tree<V>, s: Layout, vx: V, hx: nat)
    requires Realizes(h0, x, t, s) && Rotatable(t, true) && s.Cell? && s.right.Cell?
    requires forall a :: a in h0 && a != s.addr && a != s.right.addr ==> a in h1 && h1[a] == h0[a]
    requires s.right.addr in h0 && s.addr in h1
    requires h1[s.addr] == h0[s.addr].(right := h0[s.right.addr].left, height := hx, value := vx)
    ensures Realizes(h1, x, Branch(t.left, t.key, vx, hx, t.right.left), Cell(s.left, s.addr, s.right.left))
  {
    RotateLeftFrame(h0, h1, x, t, s);
    OwnsCell(s.right);
  }

  /** Once a left rotation has relinked both nodes, they hold the rotated subtree, with the values
      and heights the two nodes have been given so far. */
  lemma {:induction false} RotateLeftUpper<V>(h0: Heap<V>, h1: Heap<V>, x: NodePtr, t: Tree<V>, s: Layout,
                                               vx: V, hx: nat, vy: V, hy: nat)
    requires Realizes(h0, x, t, s) && Rotatable(t, true) && s.Cell? && s.right.Cell?
    requires forall a :: a in h0 && a != s.addr && a != s.right.addr ==> a in h1 && h1[a] == h0[a]
    requires s.right.addr in h0 && h1.Keys == h0.Keys
    requires h1[s.addr] == h0[s.addr].(right := h0[s.right.addr].left, height := hx, value := vx)
    requires h1[s.right.addr] == h0[s.right.addr].(left := x, height := hy, value := vy)
    ensures Realizes(h1, h0[s.addr].right,
                     Branch(Branch(t.left, t.key, vx, hx, t.right.left), t.right.key, vy, hy, t.right.right),
                     RotateLeftLayout(s))
    ensures Replaced(h0, h1, s, RotateLeftLayout(s))
  {
    RotateLeftFrame(h0, h1, x, t, s);
    RotateLeftLower(h0, h1, x, t, s, vx, hx);
    OwnsCell(s);
    OwnsCell(s.right);
    OwnsCell(Cell(s.left, s.addr, s.right.left));
    RealizedInHeap(h0, x, t, s);
    SameKeysReplaced(h0, h1, s, RotateLeftLayout(s), s.addr, s.right.addr);
  }

  /** Rewriting two nodes of `s` in place, with `s'` holding the same nodes, replaces `s` by
      `s'`. */
  lemma {:induction false} SameKeysReplaced<V>(h0: Heap<V>, h1: Heap<V>, s: Layout, s': Layout, x: nat, y: nat)
    requires Owns(s, x) && Owns(s, y) && h1.Keys == h0.Keys
    requires forall a :: Owns(s, a) ==> a in h0
    requires forall a :: Owns(s', a) <==> Owns(s, a)
    requires forall a :: a in h0 && a != x && a != y ==> a in h1 && h1[a] == h0[a]
    ensures Replaced(h0, h1, s, s')
  {
  }

  /** The mirror image of RotateLeftFrame. */
  lemma {:induction false} RotateRightFrame<V>(h0: Heap<V>, h1: Heap<V>, y: NodePtr, t: Tree<V>, s: Layout)
    requires Realizes(h0, y, t, s) && Rotatable(t, false) && s.Cell? && s.left.Cell?
    requires forall a :: a in h0 && a != s.addr && a != s.left.addr ==> a in h1 && h1[a] == h0[a]
    ensures s.addr != s.left.addr && s.left.addr in h0
    ensures Realizes(h1, h0[s.addr].right, t.right, s.right)
    ensures Realizes(h1, h0[s.left.addr].left, t.left.left, s.left.left)
    ensures Realizes(h1, h0[s.left.addr].right, t.left.right, s.left.right)
  {
    var n := h0[s.addr];
    assert Realizes(h0, n.left, t.left, s.left);
    var m := h0[s.left.addr];
    OwnsCell(s.left);
    FrameExcept(h0, h1, n.right, t.right, s.right, s.addr, s.left.addr);
    FrameExcept(h0, h1, m.left, t.left.left, s.left.left, s.addr, s.left.addr);
    FrameExcept(h0, h1, m.right, t.left.right, s.left.right, s.addr, s.left.addr);
  }

  /** The mirror image of RotateLeftLower. */
  lemma {:induction false} RotateRightLower<V>(h0: Heap<V>, h1: Heap<V>, y: NodePtr, t: Tree<V>, s: Layout, vy: V, hy: nat)
    requires Realizes(h0, y, t, s) && Rotatable(t, false) && s.Cell? && s.left.Cell?
    requires forall a :: a in h0 && a != s.addr && a != s.left.addr ==> a in h1 && h1[a] == h0[a]
    requires s.left.addr in h0 && s.addr in h1
    requires h1[s.addr] == h0[s.addr].(left := h0[s.left.addr].right, height := hy, value := vy)
    ensures Realizes(h1, y, Branch(t.left.right, t.key, vy, hy, t.right), Cell(s.left.right, s.addr, s.right))
  {
    RotateRightFrame(h0, h1, y, t, s);
    OwnsCell(s.left);
  }

  /** The mirror image of RotateLeftUpper. */
  lemma {:induction false} RotateRightUpper<V>(h0: Heap<V>, h1: Heap<V>, y: NodePtr, t: Tree<V>, s: Layout,
                                                vx: V, hx: nat, vy: V, hy: nat)
    requires Realizes(h0, y, t, s) && Rotatable(t, false) && s.Cell? && s.left.Cell?
    requires forall a :: a in h0 && a != s.addr && a != s.left.addr ==> a in h1 && h1[a] == h0[a]
    requires s.left.addr in h0 && h1.Keys == h0.Keys
    requires h1[s.addr] == h0[s.addr].(left := h0[s.left.addr].right, height := hy, value := vy)
    requires h1[s.left.addr] == h0[s.left.addr].(right := y, height := hx, value := vx)
    ensures Realizes(h1, h0[s.addr].left,
                     Branch(t.left.left, t.left.key, vx, hx, Branch(t.left.right, t.key, vy, hy, t.right)),
                     RotateRightLayout(s))
    ensures Replaced(h0, h1, s, RotateRightLayout(s))
  {
    RotateRightFrame(h0, h1, y, t, s);
    RotateRightLower(h0, h1, y, t, s, vy, hy);
    OwnsCell(s);
    OwnsCell(s.left);
    OwnsCell(Cell(s.left.right, s.addr, s.right));
    RealizedInHeap(h0, y, t, s);
    SameKeysReplaced(h0, h1, s, RotateRightLayout(s), s.addr, s.left.addr);
  }

  /** The pointer `q` of heap `h` leads to a node holding the root of `c`, or is null when `c` is
      empty, and that node is neither `x` nor `y`. */
  ghost predicate PointsAside<V>(h: Heap<V>, q: NodePtr, c: Tree<V>, x: nat, y: nat)
  {
    && (q.Null? <==> c.Empty?)
    && (q.Ptr? ==> q.addr in h && q.addr != x && q.addr != y && c.Branch?
                   && h[q.addr].value == c.value && h[q.addr].height == c.height)
  }

  lemma {:induction false} PointsAsideOf<V>(h: Heap<V>, q: NodePtr, c: Tree<V>, s: Layout, x: nat, y: nat)
    requires Realizes(h, q, c, s) && !Owns(s, x) && !Owns(s, y)
    ensures PointsAside(h, q, c, x, y)
  {
    if q.Ptr? { OwnsCell(s); }
  }

  /** Before a left rotation at `x`, the three links the rotation moves lead to the three subtrees
      that move, none of which holds a rotated node. */
  lemma {:induction false} RotateLeftLinks<V>(h0: Heap<V>, x: NodePtr, t: Tree<V>, s: Layout)
    requires Realizes(h0, x, t, s) && Rotatable(t, true)
    ensures s.Cell? && s.right.Cell? && x == Ptr(s.addr) && h0[s.addr].right == Ptr(s.right.addr)
    ensures s.addr != s.right.addr && s.right.addr in h0
    ensures PointsAside(h0, h0[s.addr].left, t.left, s.addr, s.right.addr)
    ensures PointsAside(h0, h0[s.right.addr].left, t.right.left, s.addr, s.right.addr)
    ensures PointsAside(h0, h0[s.right.addr].right, t.right.right, s.addr, s.right.addr)
  {
    OwnsCell(s);
    OwnsCell(s.right);
    var l, m := h0[s.addr].left, h0[s.right.addr];
    PointsAsideOf(h0, l, t.left, s.left, s.addr, s.right.addr);
    PointsAsideOf(h0, m.left, t.right.left, s.right.left, s.addr, s.right.addr);
    PointsAsideOf(h0, m.right, t.right.right, s.right.right, s.addr, s.right.addr);
  }

  /** The mirror image of RotateLeftLinks. */
  lemma {:induction false} RotateRightLinks<V>(h0: Heap<V>, y: NodePtr, t: Tree<V>, s: Layout)
    requires Realizes(h0, y, t, s) && Rotatable(t, false)
    ensures s.Cell? && s.left.Cell? && y == Ptr(s.addr) && h0[s.addr].left == Ptr(s.left.addr)
    ensures s.addr != s.left.addr && s.left.addr in h0
    ensures PointsAside(h0, h0[s.addr].right, t.right, s.addr, s.left.addr)
    ensures PointsAside(h0, h0[s.left.addr].left, t.left.left, s.addr, s.left.addr)
    ensures PointsAside(h0, h0[s.left.addr].right, t.left.right, s.addr, s.left.addr)
  {
    OwnsCell(s);
    OwnsCell(s.left);
    var r, m := h0[s.addr].right, h0[s.left.addr];
    PointsAsideOf(h0, r, t.right, s.right, s.addr, s.left.addr);
    PointsAsideOf(h0, m.left, t.left.left, s.left.left, s.addr, s.left.addr);
    PointsAsideOf(h0, m.right, t.left.right, s.left.right, s.addr, s.left.addr);
  }

  /** Freeing a node with at most one child leaves that child's subtree in its place. */
  lemma {:induction false} DropRoot<V>(h0: Heap<V>, p: NodePtr, t: Tree<V>, s: Layout, toRight: bool)
    requires Realizes(h0, p, t, s) && t.Branch?
    requires if toRight then t.left.Empty? else t.right.Empty?
    ensures var c := if toRight then h0[s.addr].right else h0[s.addr].left;
      var ct := if toRight then t.right else t.left;
      var cs := if toRight then s.right else s.left;
      Realizes(h0 - {s.addr}, c, ct, cs) && Replaced(h0, h0 - {s.addr}, s, cs)
  {
    var c := if toRight then h0[s.addr].right else h0[s.addr].left;
    var ct := if toRight then t.right else t.left;
    var cs := if toRight then s.right else s.left;
    OwnsCell(s);
    RealizedInHeap(h0, p, t, s);
    RealizesFrame(h0, h0 - {s.addr}, c, ct, cs);
  }

  /** The two-children case of a removal: the fresh node `a` that takes the removed node's place
      gets the old left subtree and the rebuilt right subtree, and the old node is freed. */
  lemma {:induction false} ReplaceRoot<V>(h0: Heap<V>, h2: Heap<V>, h3: Heap<V>, p: NodePtr, t: Tree<V>, s: Layout,
                       a: nat, mk: int, mv: V, rr: NodePtr, r: Tree<V>, sr: Layout)
    requires Realizes(h0, p, t, s) && t.Branch?
    requires a !in h0 && h2 == h0[a := Node(h0[s.addr].left, Null, 0, mk, mv)]
    requires Realizes(h3, rr, r, sr) && Replaced(h2, h3, s.right, sr)
    ensures a in h3
    ensures var h5 := h3[a := h3[a].(right := rr)] - {s.addr};
      && Realizes(h5, Ptr(a), Branch(t.left, mk, mv, 0, r), Cell(s.left, a, sr))
      && Replaced(h0, h5, s, Cell(s.left, a, sr))
  {
    OwnsCell(s);
    OwnsCell(Cell(s.left, a, sr));
    RealizedInHeap(h0, p, t, s);
    RealizedInHeap(h3, rr, r, sr);
    var h5 := h3[a := h3[a].(right := rr)] - {s.addr};
    RealizesFrame(h0, h5, h0[s.addr].left, t.left, s.left);
    RealizesFrame(h3, h5, rr, r, sr);
  }

  /** Which rotation RebalanceInsert performs, case by case. */
  lemma {:induction false} RebalanceInsertCases<V>(n: Tree<V>, k: int)
    requires n.Branch?
    ensures Balance(n) < -1 ==> n.left.Branch?
    ensures 1 < Balance(n) ==> n.right.Branch?
    ensures Balance(n) < -1 && k < n.left.key ==> RebalanceInsert(n, k) == RotateRight(n)
    ensures 1 < Balance(n) && n.right.key < k ==> RebalanceInsert(n, k) == RotateLeft(n)
    ensures Balance(n) < -1 && n.left.key < k ==>
      RebalanceInsert(n, k) == RotateRight(n.(left := RotateLeft(n.left)))
    ensures 1 < Balance(n) && k < n.right.key ==>
      RebalanceInsert(n, k) == RotateLeft(n.(right := RotateRight(n.right)))
    ensures -1 <= Balance(n) <= 1 ==> RebalanceInsert(n, k) == n
    ensures Balance(n) < -1 && n.left.key == k ==> RebalanceInsert(n, k) == n
    ensures 1 < Balance(n) && n.right.key == k ==> RebalanceInsert(n, k) == n
  {
  }

  /** One level of Insert, as SubtreeInsert takes it apart. */
  lemma {:induction false} InsertStep<V>(t: Tree<V>, k: int, v: V)
    requires t.Branch?
    ensures k < t.key ==> Insert(t, k, v) == RebalanceInsert(Fix(t.(left := Insert(t.left, k, v))), k)
    ensures t.key < k ==> Insert(t, k, v) == RebalanceInsert(Fix(t.(right := Insert(t.right, k, v))), k)
    ensures k == t.key ==> Insert(t, k, v) == t
  {
  }

  /** One level of Remove, as SubtreeRemove takes it apart. */
  lemma {:induction false} RemoveStep<V>(t: Tree<V>, k: int)
    requires t.Branch?
    ensures k < t.key ==> Remove(t, k) == RebalanceRemove(Fix(t.(left := Remove(t.left, k))))
    ensures t.key < k ==> Remove(t, k) == RebalanceRemove(Fix(t.(right := Remove(t.right, k))))
    ensures k == t.key ==> Remove(t, k) == if Unlink(t).Empty? then Empty else RebalanceRemove(Fix(Unlink(t)))
  {
  }

  /** Which rotation RebalanceRemove performs, case by case. */
  lemma {:induction false} RebalanceRemoveCases<V>(n: Tree<V>)
    requires n.Branch?
    ensures Balance(n) < -1 ==> n.left.Branch?
    ensures 1 < Balance(n) ==> n.right.Branch?
    ensures Balance(n) < -1 && Balance(n.left) <= 0 ==> RebalanceRemove(n) == RotateRight(n)
    ensures 1 < Balance(n) && 0 <= Balance(n.right) ==> RebalanceRemove(n) == RotateLeft(n)
    ensures Balance(n) < -1 && 0 < Balance(n.left) ==>
      n.left.right.Branch? && RebalanceRemove(n) == RotateRight(n.(left := RotateLeft(n.left)))
    ensures 1 < Balance(n) && Balance(n.right) < 0 ==>
      n.right.left.Branch? && RebalanceRemove(n) == RotateLeft(n.(right := RotateRight(n.right)))
    ensures -1 <= Balance(n) <= 1 ==> RebalanceRemove(n) == n
  {
  }

  // ---------------------------------------------------------------------------------------------
  // The tree object

  class AvlTree<V> {
    /** The heap of nodes this tree owns, by address. */
    var nodes: Heap<V>
    /** The next address the allocator hands out. */
    var nextAddr: nat
    var root: NodePtr
    var nodesCount: int
    /** The subtree value the nodes from `root` hold, and where they are. */
    ghost var tree: Tree<V>
    ghost var layout: Layout

    /** The allocator's bookkeeping: no live node sits at or above the next address. */
    ghost predicate ArenaOk()
      reads this
    {
      forall a :: a in nodes ==> a < nextAddr
    }

    /** The tree invariant: the live nodes are exactly the tree's nodes, the counter counts
        them, and they hold an AVL search tree. */
    ghost predicate Valid()
      reads this
    {
      && ArenaOk()
      && Realizes(nodes, root, tree, layout)
      && (forall a :: a in nodes <==> Owns(layout, a))
      && nodesCount == Size(tree)
      && Avl(tree)
    }

    constructor ()
      ensures Valid() && tree == Empty
    {
      nodes := map[];
      nextAddr := 0;
      root := Null;
      nodesCount := 0;
      tree := Empty;
      layout := Nil;
    }

    /** Allocates a node with null children and height 0, and counts it. */
    method NewNode(k: int, v: V) returns (p: NodePtr)
      requires ArenaOk()
      modifies this`nodes, this`nextAddr, this`nodesCount
      ensures ArenaOk()
      ensures p.Ptr? && p.addr !in old(nodes)
      ensures nodes == old(nodes)[p.addr := Node(Null, Null, 0, k, v)]
      ensures nodesCount == old(nodesCount) + 1
    {
      p := Ptr(nextAddr);
      nodes := nodes[nextAddr := Node(Null, Null, 0, k, v)];
      nextAddr := nextAddr + 1;
      nodesCount := nodesCount + 1;
    }

    /** Frees a node and uncounts it. */
    method DeleteNode(p: NodePtr)
      requires ArenaOk() && p.Ptr? && p.addr in nodes
      modifies this`nodes, this`nodesCount
      ensures ArenaOk()
      ensures nodes == old(nodes) - {p.addr}
      ensures nodesCount == old(nodesCount) - 1
    {
      nodes := nodes - {p.addr};
      nodesCount := nodesCount - 1;
    }

    /** The number of live nodes, which is the number of keys in the tree. */
    function GetNodesCount(): (r: int)
      reads this
      requires Valid()
      ensures r == |nodes| && r == Size(tree) && r == |Keys(tree)|
    {
      LayoutCount(nodes, root, tree, layout);
      assert nodes.Keys == Addrs(layout);
      SizeIsKeyCount(tree);
      nodesCount
    }

    /** The stored height of a subtree; a null pointer has height 0. */
    function NodeHeight(p: NodePtr): int
      reads this
      requires p.Null? || p.addr in nodes
    {
      if p.Null? then 0 else nodes[p.addr].height
    }

    /** Right height minus left height of a node; on a realized subtree it is Balance. */
    function NodeBalance(p: NodePtr, ghost t: Tree<V>, ghost s: Layout): (r: int)
      reads this
      requires Realizes(nodes, p, t, s) && t.Branch?
      ensures r == Balance(t)
    {
      assert Realizes(nodes, nodes[p.addr].left, t.left, s.left);
      assert Realizes(nodes, nodes[p.addr].right, t.right, s.right);
      NodeHeight(nodes[p.addr].right) - NodeHeight(nodes[p.addr].left)
    }

    /** Follows left children from a non-null node to the node holding the subtree's smallest
        key. */
    method GetLeftermost(p: NodePtr, ghost t: Tree<V>, ghost s: Layout) returns (m: NodePtr)
      requires Realizes(nodes, p, t, s) && t.Branch?
      ensures m.Ptr? && m.addr in nodes
      ensures nodes[m.addr].key == Leftmost(t).key && nodes[m.addr].value == Leftmost(t).value
    {
      m := p;
      ghost var ct, cs := t, s;
      while nodes[m.addr].left.Ptr?
        invariant Realizes(nodes, m, ct, cs) && ct.Branch? && Leftmost(ct) == Leftmost(t)
        decreases ct
      {
        m := nodes[m.addr].left;
        ct, cs := ct.left, cs.left;
      }
    }

    /** Left rotation at `x`: its right child becomes the subtree's root. */
    method LeftRotate(x: NodePtr, ghost t: Tree<V>, ghost s: Layout) returns (y: NodePtr)
      requires Realizes(nodes, x, t, s) && Rotatable(t, true)
      modifies this`nodes
      ensures Realizes(nodes, y, RotateLeft(t), RotateLeftLayout(s))
      ensures Replaced(old(nodes), nodes, s, RotateLeftLayout(s))
      ensures nodes.Keys == old(nodes).Keys
    {
      ghost var h0 := nodes;
      RotateLeftLinks(h0, x, t, s);
      y := nodes[x.addr].right;
      var t2 := nodes[y.addr].left;
      nodes := nodes[y.addr := nodes[y.addr].(left := x)];
      nodes := nodes[x.addr := nodes[x.addr].(right := t2)];
      nodes := nodes[x.addr := nodes[x.addr].(height :=
        Max(NodeHeight(nodes[x.addr].left), NodeHeight(nodes[x.addr].right)) + 1)];
      ghost var hx: nat := 1 + Max(Height(t.left), Height(t.right.left));
      assert nodes[x.addr].height == hx;
      nodes := nodes[y.addr := nodes[y.addr].(height :=
        Max(NodeHeight(nodes[y.addr].left), NodeHeight(nodes[y.addr].right)) + 1)];
      ghost var hy: nat := 1 + Max(hx, Height(t.right.right));
      assert nodes[y.addr].height == hy;
      RotateLeftUpper(h0, nodes, x, t, s, t.value, hx, t.right.value, hy);
    }

    /** Right rotation at `y`: its left child becomes the subtree's root. */
    method RightRotate(y: NodePtr, ghost t: Tree<V>, ghost s: Layout) returns (x: NodePtr)
      requires Realizes(nodes, y, t, s) && Rotatable(t, false)
      modifies this`nodes
      ensures Realizes(nodes, x, RotateRight(t), RotateRightLayout(s))
      ensures Replaced(old(nodes), nodes, s, RotateRightLayout(s))
      ensures nodes.Keys == old(nodes).Keys
    {
      ghost var h0 := nodes;
      RotateRightLinks(h0, y, t, s);
      x := nodes[y.addr].left;
      var t2 := nodes[x.addr].right;
      nodes := nodes[x.addr := nodes[x.addr].(right := y)];
      nodes := nodes[y.addr := nodes[y.addr].(left := t2)];
      nodes := nodes[y.addr := nodes[y.addr].(height :=
        Max(NodeHeight(nodes[y.addr].left), NodeHeight(nodes[y.addr].right)) + 1)];
      ghost var hy: nat := 1 + Max(Height(t.left.right), Height(t.right));
      assert nodes[y.addr].height == hy;
      nodes := nodes[x.addr := nodes[x.addr].(height :=
        Max(NodeHeight(nodes[x.addr].left), NodeHeight(nodes[x.addr].right)) + 1)];
      ghost var hx: nat := 1 + Max(Height(t.left.left), hy);
      assert nodes[x.addr].height == hx;
      RotateRightUpper(h0, nodes, y, t, s, t.left.value, hx, t.value, hy);
    }

    /** The double rotation for a left-heavy node whose left child leans right: the left child
        is rotated left, then the node right. */
    method LeftRightRotate(p: NodePtr, ghost n: Tree<V>, ghost s: Layout) returns (r: NodePtr)
      requires Realizes(nodes, p, n, s) && n.Branch? && Rotatable(n.left, true)
      modifies this`nodes
      ensures Realizes(nodes, r, RotateRight(n.(left := RotateLeft(n.left))),
                       RotateRightLayout(s.(left := RotateLeftLayout(s.left))))
      ensures Replaced(old(nodes), nodes, s, RotateRightLayout(s.(left := RotateLeftLayout(s.left))))
      ensures nodes.Keys == old(nodes).Keys
    {
      ghost var h0 := nodes;
      var l := LeftRotate(nodes[p.addr].left, n.left, s.left);
      LinkLeft(h0, nodes, p, n, s, l, RotateLeft(n.left), RotateLeftLayout(s.left));
      nodes := nodes[p.addr := nodes[p.addr].(left := l)];
      ghost var h1 := nodes;
      ghost var s1 := s.(left := RotateLeftLayout(s.left));
      r := RightRotate(p, n.(left := RotateLeft(n.left)), s1);
      ReplacedTrans(h0, h1, nodes, s, s1, RotateRightLayout(s1));
    }

    /** The mirror image of LeftRightRotate. */
    method RightLeftRotate(p: NodePtr, ghost n: Tree<V>, ghost s: Layout) returns (r: NodePtr)
      requires Realizes(nodes, p, n, s) && n.Branch? && Rotatable(n.right, false)
      modifies this`nodes
      ensures Realizes(nodes, r, RotateLeft(n.(right := RotateRight(n.right))),
                       RotateLeftLayout(s.(right := RotateRightLayout(s.right))))
      ensures Replaced(old(nodes), nodes, s, RotateLeftLayout(s.(right := RotateRightLayout(s.right))))
      ensures nodes.Keys == old(nodes).Keys
    {
      ghost var h0 := nodes;
      var rr := RightRotate(nodes[p.addr].right, n.right, s.right);
      LinkRight(h0, nodes, p, n, s, rr, RotateRight(n.right), RotateRightLayout(s.right));
      nodes := nodes[p.addr := nodes[p.addr].(right := rr)];
      ghost var h1 := nodes;
      ghost var s1 := s.(right := RotateRightLayout(s.right));
      r := LeftRotate(p, n.(right := RotateRight(n.right)), s1);
      ReplacedTrans(h0, h1, nodes, s, s1, RotateLeftLayout(s1));
    }

    /** The rebalancing after an insertion below `p`, whose height is already recomputed. */
    method RebalanceAfterInsert(p: NodePtr, k: int, ghost n: Tree<V>, ghost s: Layout)
      returns (r: NodePtr, ghost s': Layout)
      requires Realizes(nodes, p, n, s) && n.Branch?
      requires Balance(n) < -1 && n.left.key < k ==> n.left.right.Branch?
      requires 1 < Balance(n) && k < n.right.key ==> n.right.left.Branch?
      modifies this`nodes
      ensures Realizes(nodes, r, RebalanceInsert(n, k), s')
      ensures Replaced(old(nodes), nodes, s, s')
      ensures nodes.Keys == old(nodes).Keys
    {
      RebalanceInsertCases(n, k);
      var balance := NodeBalance(p, n, s);
      var lp, rp := nodes[p.addr].left, nodes[p.addr].right;
      assert Realizes(nodes, lp, n.left, s.left) && Realizes(nodes, rp, n.right, s.right);
      if balance < -1 && k < nodes[lp.addr].key {
        r := RightRotate(p, n, s);
        s' := RotateRightLayout(s);
      } else if 1 < balance && nodes[rp.addr].key < k {
        r := LeftRotate(p, n, s);
        s' := RotateLeftLayout(s);
      } else if balance < -1 && nodes[lp.addr].key < k {
        r := LeftRightRotate(p, n, s);
        s' := RotateRightLayout(s.(left := RotateLeftLayout(s.left)));
      } else if 1 < balance && k < nodes[rp.addr].key {
        r := RightLeftRotate(p, n, s);
        s' := RotateLeftLayout(s.(right := RotateRightLayout(s.right)));
      } else {
        r, s' := p, s;
        RealizedInHeap(nodes, p, n, s);
      }
    }

    /** The rebalancing after a removal below `p`, whose height is already recomputed. */
    method RebalanceAfterRemove(p: NodePtr, ghost n: Tree<V>, ghost s: Layout)
      returns (r: NodePtr, ghost s': Layout)
      requires Realizes(nodes, p, n, s) && n.Branch?
      modifies this`nodes
      ensures Realizes(nodes, r, RebalanceRemove(n), s')
      ensures Replaced(old(nodes), nodes, s, s')
      ensures nodes.Keys == old(nodes).Keys
    {
      RebalanceRemoveCases(n);
      var balance := NodeBalance(p, n, s);
      var lp, rp := nodes[p.addr].left, nodes[p.addr].right;
      assert Realizes(nodes, lp, n.left, s.left) && Realizes(nodes, rp, n.right, s.right);
      if balance < -1 && NodeBalance(lp, n.left, s.left) <= 0 {
        r := RightRotate(p, n, s);
        s' := RotateRightLayout(s);
      } else if 1 < balance && 0 <= NodeBalance(rp, n.right, s.right) {
        r := LeftRotate(p, n, s);
        s' := RotateLeftLayout(s);
      } else if balance < -1 && 0 < NodeBalance(lp, n.left, s.left) {
        r := LeftRightRotate(p, n, s);
        s' := RotateRightLayout(s.(left := RotateLeftLayout(s.left)));
      } else if 1 < balance && NodeBalance(rp, n.right, s.right) < 0 {
        r := RightLeftRotate(p, n, s);
        s' := RotateLeftLayout(s.(right := RotateRightLayout(s.right)));
      } else {
        r, s' := p, s;
        RealizedInHeap(nodes, p, n, s);
      }
    }

    /** Recomputes the stored height of the node at `p` from its children's heights. */
    method UpdateHeight(p: NodePtr, ghost n: Tree<V>, ghost s: Layout)
      requires Realizes(nodes, p, n, s) && n.Branch?
      modifies this`nodes
      ensures Realizes(nodes, p, Fix(n), s)
      ensures Replaced(old(nodes), nodes, s, s)
      ensures nodes.Keys == old(nodes).Keys
    {
      assert Realizes(nodes, nodes[p.addr].left, n.left, s.left);
      assert Realizes(nodes, nodes[p.addr].right, n.right, s.right);
      var hgt := 1 + Max(NodeHeight(nodes[p.addr].left), NodeHeight(nodes[p.addr].right));
      SetHeight(nodes, p, n, s, hgt);
      nodes := nodes[p.addr := nodes[p.addr].(height := hgt)];
    }

    /** Inserts `k` with value `v` into the subtree at `p` and returns the subtree's new root;
        a key already present leaves the subtree as it is. */
    method SubtreeInsert(p: NodePtr, k: int, v: V, ghost t: Tree<V>, ghost s: Layout)
      returns (r: NodePtr, ghost s': Layout)
      requires ArenaOk() && Realizes(nodes, p, t, s) && HeightsOk(t) && Balanced(t)
      modifies this`nodes, this`nextAddr, this`nodesCount
      ensures ArenaOk() && Realizes(nodes, r, AvlTreeSpec.Insert(t, k, v), s')
      ensures nodesCount == old(nodesCount) + Size(AvlTreeSpec.Insert(t, k, v)) - Size(t)
      ensures Replaced(old(nodes), nodes, s, s')
      decreases t
    {
      if p.Null? {
        ghost var h := nodes;
        r := NewNode(k, v);
        AllocLeaf(h, nodes, r.addr, k, v);
        nodes := nodes[r.addr := nodes[r.addr].(height := 1)];
        s' := Cell(Nil, r.addr, Nil);
        return;
      }
      ghost var h0 := nodes;
      RealizedInHeap(h0, p, t, s);
      InsertStep(t, k, v);
      ghost var n: Tree<V>;
      if k < nodes[p.addr].key {
        var l; ghost var sl;
        l, sl := SubtreeInsert(nodes[p.addr].left, k, v, t.left, s.left);
        LinkLeft(h0, nodes, p, t, s, l, AvlTreeSpec.Insert(t.left, k, v), sl);
        nodes := nodes[p.addr := nodes[p.addr].(left := l)];
        n, s' := t.(left := AvlTreeSpec.Insert(t.left, k, v)), s.(left := sl);
        assert nodesCount == old(nodesCount) + Size(n) - Size(t);
        InsertLeftRotationsPossible(t, k, v);
      } else if nodes[p.addr].key < k {
        var rr; ghost var sr;
        rr, sr := SubtreeInsert(nodes[p.addr].right, k, v, t.right, s.right);
        LinkRight(h0, nodes, p, t, s, rr, AvlTreeSpec.Insert(t.right, k, v), sr);
        nodes := nodes[p.addr := nodes[p.addr].(right := rr)];
        n, s' := t.(right := AvlTreeSpec.Insert(t.right, k, v)), s.(right := sr);
        assert nodesCount == old(nodesCount) + Size(n) - Size(t);
        InsertRightRotationsPossible(t, k, v);
      } else {
        r, s' := p, s;
        return;
      }
      ghost var h1 := nodes;
      ghost var s1 := s';
      r, s' := RetraceInsert(p, k, n, s');
      ReplacedTrans(h0, h1, nodes, s, s1, s');
    }

    /** The way back up after an insertion below `p`: the node's height is recomputed, then the
        node is rebalanced. */
    method RetraceInsert(p: NodePtr, k: int, ghost n: Tree<V>, ghost s: Layout)
      returns (r: NodePtr, ghost s': Layout)
      requires ArenaOk() && Realizes(nodes, p, n, s) && n.Branch?
      requires Balance(Fix(n)) < -1 && Fix(n).left.key < k ==> Fix(n).left.right.Branch?
      requires 1 < Balance(Fix(n)) && k < Fix(n).right.key ==> Fix(n).right.left.Branch?
      modifies this`nodes
      ensures ArenaOk() && Realizes(nodes, r, RebalanceInsert(Fix(n), k), s')
      ensures Size(RebalanceInsert(Fix(n), k)) == Size(n)
      ensures Replaced(old(nodes), nodes, s, s')
    {
      RebalanceKeepsContents(Fix(n), k);
      UpdateHeight(p, n, s);
      ghost var h1 := nodes;
      r, s' := RebalanceAfterInsert(p, k, Fix(n), s);
      ReplacedTrans(old(nodes), h1, nodes, s, s, s');
    }

    /** Removes `k` from the subtree at `p` and returns the subtree's new root; an absent key
        leaves the subtree as it is. */
    method SubtreeRemove(p: NodePtr, k: int, ghost t: Tree<V>, ghost s: Layout)
      returns (r: NodePtr, ghost s': Layout)
      requires ArenaOk() && Realizes(nodes, p, t, s) && HeightsOk(t) && Balanced(t)
      modifies this`nodes, this`nextAddr, this`nodesCount
      ensures ArenaOk() && Realizes(nodes, r, AvlTreeSpec.Remove(t, k), s')
      ensures nodesCount == old(nodesCount) + Size(AvlTreeSpec.Remove(t, k)) - Size(t)
      ensures Replaced(old(nodes), nodes, s, s')
      decreases t, 2
    {
      if p.Null? {
        return p, s;
      }
      ghost var h0 := nodes;
      RealizedInHeap(h0, p, t, s);
      RemoveStep(t, k);
      var newRoot := p;
      ghost var n: Tree<V>;
      ghost var ns: Layout;
      if k < nodes[p.addr].key {
        var l; ghost var sl;
        l, sl := SubtreeRemove(nodes[p.addr].left, k, t.left, s.left);
        LinkLeft(h0, nodes, p, t, s, l, AvlTreeSpec.Remove(t.left, k), sl);
        nodes := nodes[p.addr := nodes[p.addr].(left := l)];
        n, ns := t.(left := AvlTreeSpec.Remove(t.left, k)), s.(left := sl);
        assert nodesCount == old(nodesCount) + Size(n) - Size(t);
      } else if nodes[p.addr].key < k {
        var rr; ghost var sr;
        rr, sr := SubtreeRemove(nodes[p.addr].right, k, t.right, s.right);
        LinkRight(h0, nodes, p, t, s, rr, AvlTreeSpec.Remove(t.right, k), sr);
        nodes := nodes[p.addr := nodes[p.addr].(right := rr)];
        n, ns := t.(right := AvlTreeSpec.Remove(t.right, k)), s.(right := sr);
        assert nodesCount == old(nodesCount) + Size(n) - Size(t);
      } else {
        newRoot, ns := RemoveRootNode(p, t, s);
        n := Unlink(t);
      }
      if newRoot.Ptr? {
        ghost var h1 := nodes;
        r, s' := RetraceRemove(newRoot, n, ns);
        ReplacedTrans(h0, h1, nodes, s, ns, s');
      } else {
        r, s' := newRoot, ns;
      }
    }

    /** The way back up after a removal at or below `newRoot`: the node's height is recomputed,
        then the node is rebalanced. */
    method RetraceRemove(p: NodePtr, ghost n: Tree<V>, ghost s: Layout)
      returns (r: NodePtr, ghost s': Layout)
      requires ArenaOk() && Realizes(nodes, p, n, s) && n.Branch?
      modifies this`nodes
      ensures ArenaOk() && Realizes(nodes, r, RebalanceRemove(Fix(n)), s')
      ensures Size(RebalanceRemove(Fix(n))) == Size(n)
      ensures Replaced(old(nodes), nodes, s, s')
    {
      RebalanceKeepsContents(Fix(n), 0);
      UpdateHeight(p, n, s);
      ghost var h1 := nodes;
      r, s' := RebalanceAfterRemove(p, Fix(n), s);
      ReplacedTrans(old(nodes), h1, nodes, s, s, s');
    }

    /** Frees the node at `p`, which holds the key being removed, and returns what takes its
        place: its only child, or a fresh node holding the in-order successor's key and value
        above the left subtree and the right subtree without the successor. */
    method RemoveRootNode(p: NodePtr, ghost t: Tree<V>, ghost s: Layout) returns (r: NodePtr, ghost s': Layout)
      requires ArenaOk() && Realizes(nodes, p, t, s) && t.Branch? && HeightsOk(t) && Balanced(t)
      modifies this`nodes, this`nextAddr, this`nodesCount
      ensures ArenaOk() && Realizes(nodes, r, Unlink(t), s')
      ensures nodesCount == old(nodesCount) + Size(Unlink(t)) - Size(t)
      ensures Replaced(old(nodes), nodes, s, s')
      decreases t, 1
    {
      ghost var h0 := nodes;
      var lp, rp := nodes[p.addr].left, nodes[p.addr].right;
      if lp.Null? {
        DropRoot(h0, p, t, s, true);
        r, s' := rp, s.right;
      } else if rp.Null? {
        DropRoot(h0, p, t, s, false);
        r, s' := lp, s.left;
      } else {
        r, s' := NewSuccessorRoot(p, t, s);
      }
      DeleteNode(p);
    }

    /** The two-children case of RemoveRootNode before the old node is freed: a fresh node with
        the successor's key and value gets the left subtree and the right subtree without the
        successor. */
    method NewSuccessorRoot(p: NodePtr, ghost t: Tree<V>, ghost s: Layout) returns (r: NodePtr, ghost s': Layout)
      requires ArenaOk() && Realizes(nodes, p, t, s) && t.Branch? && HeightsOk(t) && Balanced(t)
      requires t.left.Branch? && t.right.Branch?
      modifies this`nodes, this`nextAddr, this`nodesCount
      ensures ArenaOk() && p.addr in nodes
      ensures nodesCount == old(nodesCount) + 1 + Size(Unlink(t)) - Size(t)
      ensures Realizes(nodes - {p.addr}, r, Unlink(t), s')
      ensures Replaced(old(nodes), nodes - {p.addr}, s, s')
      decreases t, 0
    {
      ghost var h0 := nodes;
      var lp, rp := nodes[p.addr].left, nodes[p.addr].right;
      var leftermost := GetLeftermost(rp, t.right, s.right);
      var mk, mv := nodes[leftermost.addr].key, nodes[leftermost.addr].value;
      r := NewNode(mk, mv);
      nodes := nodes[r.addr := nodes[r.addr].(left := lp)];
      ghost var h2 := nodes;
      assert h2 == h0[r.addr := Node(lp, Null, 0, mk, mv)];
      AllocFrame(h0, h2, rp, t.right, s.right, r.addr, Node(lp, Null, 0, mk, mv));
      var rr; ghost var sr;
      rr, sr := SubtreeRemove(rp, mk, t.right, s.right);
      ReplaceRoot(h0, h2, nodes, p, t, s, r.addr, mk, mv, rr, AvlTreeSpec.Remove(t.right, mk), sr);
      nodes := nodes[r.addr := nodes[r.addr].(right := rr)];
      s' := Cell(s.left, r.addr, sr);
    }

    /** The height of the whole tree. */
    function GetHeight(): (r: int)
      reads this
      requires Valid()
      ensures r == Height(tree)
    {
      NodeHeight(root)
    }

    /** Inserts `k` with value `v`; a key already present keeps its old value. */
    method Insert(k: int, v: V)
      requires Valid()
      modifies this
      ensures Valid()
      ensures tree == AvlTreeSpec.Insert(old(tree), k, v)
    {
      InsertAvl(tree, k, v);
      var r; ghost var s;
      ghost var h0, s0 := nodes, layout;
      r, s := SubtreeInsert(root, k, v, tree, layout);
      ReplacedWhole(h0, nodes, s0, s);
      root, layout, tree := r, s, AvlTreeSpec.Insert(tree, k, v);
    }

    /** Removes `k` and its value; an absent key changes nothing. */
    method Remove(k: int)
      requires Valid()
      modifies this
      ensures Valid()
      ensures tree == AvlTreeSpec.Remove(old(tree), k)
    {
      ghost var t' := AvlTreeSpec.Remove(tree, k);
      RemoveAvl(tree, k);
      var r; ghost var s;
      ghost var h0, s0 := nodes, layout;
      r, s := SubtreeRemove(root, k, tree, layout);
      ReplacedWhole(h0, nodes, s0, s);
      root, layout, tree := r, s, t';
    }

    /** Looks `k` up by descending from the root. */
    method Find(k: int) returns (r: Option<V>)
      requires Valid()
      ensures r == Lookup(tree, k)
      ensures r.Some? <==> k in Keys(tree)
      ensures r.Some? ==> (k, r.value) in Pairs(tree)
    {
      LookupPairs(tree, k);
      var node := root;
      ghost var ct, cs := tree, layout;
      while node.Ptr?
        invariant Realizes(nodes, node, ct, cs)
        invariant Lookup(ct, k) == Lookup(tree, k)
        decreases ct
      {
        if k < nodes[node.addr].key {
          node := nodes[node.addr].left;
          ct, cs := ct.left, cs.left;
        } else if nodes[node.addr].key < k {
          node := nodes[node.addr].right;
          ct, cs := ct.right, cs.right;
        } else {
          return Some(nodes[node.addr].value);
        }
      }
      return None;
    }
  }
}
