/**
 * The node-level algorithms of the key/value AVL tree, stated on subtrees as values.
 *
 * A `Tree` is what the nodes reachable from one node pointer hold: every branch carries the
 * key, the value and the height field stored in its node. The functions below follow the
 * pointer code step by step (which heights are recomputed, in which order, which case of the
 * rebalancing applies), so that the heap methods in AvlTreeImpl can be proved to compute exactly
 * them. The lemmas state what the algorithms promise: search-tree order, correct heights, AVL
 * balance, and the effect on the key/value content.
 */
module AvlTreeSpec {

  datatype Option<T> = None | Some(value: T)

  datatype Tree<V> = Empty | Branch(left: Tree<V>, key: int, value: V, height: nat, right: Tree<V>)

  function Max(a: int, b: int): int { if a > b then a else b }

  /** The stored height of a subtree; an absent subtree has height 0. */
  function Height<V>(t: Tree<V>): nat { if t.Empty? then 0 else t.height }

  /** Right height minus left height: negative means left-heavy. */
  function Balance<V>(t: Tree<V>): int
    requires t.Branch?
  {
    Height(t.right) - Height(t.left)
  }

  /** Recomputes the root's height from its children's stored heights. */
  function Fix<V>(t: Tree<V>): Tree<V>
    requires t.Branch?
  {
    t.(height := 1 + Max(Height(t.left), Height(t.right)))
  }

  /** Left rotation: the right child becomes the root; the demoted node's height is recomputed
      first and the new root's from it. A tree without a right child is returned as it is. */
  function RotateLeft<V>(t: Tree<V>): Tree<V>
  {
    match t
    case Branch(a, xk, xv, xh, Branch(b, yk, yv, yh, c)) =>
      Fix(Branch(Fix(Branch(a, xk, xv, xh, b)), yk, yv, yh, c))
    case _ => t
  }

  /** Right rotation, the mirror image of RotateLeft. */
  function RotateRight<V>(t: Tree<V>): Tree<V>
  {
    match t
    case Branch(Branch(a, xk, xv, xh, b), yk, yv, yh, c) =>
      Fix(Branch(a, xk, xv, xh, Fix(Branch(b, yk, yv, yh, c))))
    case _ => t
  }

  predicate Rotatable<V>(t: Tree<V>, toLeft: bool)
  {
    t.Branch? && (if toLeft then t.right.Branch? else t.left.Branch?)
  }

  /** The rebalancing step after an insertion of key k below n (whose height is already fixed):
      the case is chosen by comparing k with the heavy child's key. */
  function RebalanceInsert<V>(n: Tree<V>, k: int): Tree<V>
    requires n.Branch?
  {
    var b := Balance(n);
    if b < -1 && k < n.left.key then RotateRight(n)
    else if 1 < b && n.right.key < k then RotateLeft(n)
    else if b < -1 && n.left.key < k then RotateRight(n.(left := RotateLeft(n.left)))
    else if 1 < b && k < n.right.key then RotateLeft(n.(right := RotateRight(n.right)))
    else n
  }

  /** Recursive insertion; a key that is already present leaves the subtree as it is. */
  function Insert<V>(t: Tree<V>, k: int, v: V): Tree<V>
  {
    match t
    case Empty => Branch(Empty, k, v, 1, Empty)
    case Branch(l, key, val, h, r) =>
      if k < key then RebalanceInsert(Fix(Branch(Insert(l, k, v), key, val, h, r)), k)
      else if key < k then RebalanceInsert(Fix(Branch(l, key, val, h, Insert(r, k, v))), k)
      else t
  }

  /** The node reached by following left children from the root of a non-empty subtree. */
  function Leftmost<V>(t: Tree<V>): (m: Tree<V>)
    requires t.Branch?
    ensures m.Branch? && m.left.Empty?
  {
    if t.left.Empty? then t else Leftmost(t.left)
  }

  /** The rebalancing step after a removal: the case is chosen by the heavy child's balance. */
  function RebalanceRemove<V>(n: Tree<V>): Tree<V>
    requires n.Branch?
  {
    var b := Balance(n);
    if b < -1 && Balance(n.left) <= 0 then RotateRight(n)
    else if 1 < b && 0 <= Balance(n.right) then RotateLeft(n)
    else if b < -1 && 0 < Balance(n.left) then RotateRight(n.(left := RotateLeft(n.left)))
    else if 1 < b && Balance(n.right) < 0 then RotateLeft(n.(right := RotateRight(n.right)))
    else n
  }

  /** The subtree that replaces a node holding the removed key: its right child, its left child,
      or a fresh node (height 0 until fixed) holding the in-order successor's key and value. */
  function Unlink<V>(t: Tree<V>): Tree<V>
    requires t.Branch?
    decreases t, 0
  {
    if t.left.Empty? then t.right
    else if t.right.Empty? then t.left
    else
      var m := Leftmost(t.right);
      Branch(t.left, m.key, m.value, 0, Remove(t.right, m.key))
  }

  /** Recursive removal; a key that is absent leaves the subtree as it is. */
  function Remove<V>(t: Tree<V>, k: int): Tree<V>
    decreases t, 1
  {
    match t
    case Empty => Empty
    case Branch(l, key, val, h, r) =>
      var newRoot :=
        if k < key then Branch(Remove(l, k), key, val, h, r)
        else if key < k then Branch(l, key, val, h, Remove(r, k))
        else Unlink(t);
      if newRoot.Empty? then Empty else RebalanceRemove(Fix(newRoot))
  }

  // ---------------------------------------------------------------------------------------------
  // What a subtree means, and the invariants of the tree

  function Size<V>(t: Tree<V>): nat
  {
    match t
    case Empty => 0
    case Branch(l, _, _, _, r) => Size(l) + 1 + Size(r)
  }

  function Keys<V>(t: Tree<V>): set<int>
  {
    match t
    case Empty => {}
    case Branch(l, k, _, _, r) => Keys(l) + {k} + Keys(r)
  }

  /** The key/value pairs in key order (an in-order traversal). */
  function InOrder<V>(t: Tree<V>): seq<(int, V)>
  {
    match t
    case Empty => []
    case Branch(l, k, v, _, r) => InOrder(l) + [(k, v)] + InOrder(r)
  }

  /** The key/value pairs the subtree holds. */
  ghost function Pairs<V>(t: Tree<V>): set<(int, V)>
  {
    match t
    case Empty => {}
    case Branch(l, k, v, _, r) => Pairs(l) + {(k, v)} + Pairs(r)
  }

  /** The pairs of `ps` whose key is not `k`. */
  ghost function WithoutKey<V>(ps: set<(int, V)>, k: int): set<(int, V)>
  {
    set p | p in ps && p.0 != k
  }

  /** Strict search-tree order on keys. */
  ghost predicate Bst<V>(t: Tree<V>)
  {
    match t
    case Empty => true
    case Branch(l, k, _, _, r) =>
      && Bst(l) && Bst(r)
      && (forall x :: x in Keys(l) ==> x < k)
      && (forall x :: x in Keys(r) ==> k < x)
  }

  /** Every stored height is 1 + the larger stored height of the children. */
  ghost predicate HeightsOk<V>(t: Tree<V>)
  {
    match t
    case Empty => true
    case Branch(l, _, _, h, r) => HeightsOk(l) && HeightsOk(r) && h == 1 + Max(Height(l), Height(r))
  }

  /** The AVL condition at every node. */
  ghost predicate Balanced<V>(t: Tree<V>)
  {
    match t
    case Empty => true
    case Branch(l, _, _, _, r) => Balanced(l) && Balanced(r) && -1 <= Height(r) - Height(l) <= 1
  }

  ghost predicate Avl<V>(t: Tree<V>)
  {
    Bst(t) && HeightsOk(t) && Balanced(t)
  }

  /** The value a search for k finds: descend left below smaller keys, right below larger. */
  function Lookup<V>(t: Tree<V>, k: int): Option<V>
  {
    match t
    case Empty => None
    case Branch(l, key, v, _, r) =>
      if k < key then Lookup(l, k) else if key < k then Lookup(r, k) else Some(v)
  }

  // ---------------------------------------------------------------------------------------------
  // Basic facts

  lemma {:induction false} PairsHaveKeys<V>(t: Tree<V>)
    ensures forall p :: p in Pairs(t) ==> p.0 in Keys(t)
  {
    match t
    case Empty =>
    case Branch(l, _, _, _, r) => PairsHaveKeys(l); PairsHaveKeys(r);
  }

  /** In a search tree a key is paired with one value only. */
  lemma {:induction false} PairsUnique<V>(t: Tree<V>, k: int, v1: V, v2: V)
    requires Bst(t) && (k, v1) in Pairs(t) && (k, v2) in Pairs(t)
    ensures v1 == v2
  {
    match t
    case Branch(l, key, _, _, r) =>
      PairsHaveKeys(l);
      PairsHaveKeys(r);
      if k < key {
        PairsUnique(l, k, v1, v2);
      } else if key < k {
        PairsUnique(r, k, v1, v2);
      }
  }

  lemma {:induction false} SizeIsKeyCount<V>(t: Tree<V>)
    requires Bst(t)
    ensures Size(t) == |Keys(t)|
  {
    match t
    case Empty =>
    case Branch(l, k, _, _, r) =>
      SizeIsKeyCount(l);
      SizeIsKeyCount(r);
      var fl := Keys(l) + {k};
      AddOne(Keys(l), k);
      assert fl !! Keys(r) by {
        forall x | x in fl ensures x !in Keys(r) { }
      }
      DisjointUnion(fl, Keys(r));
  }

  /** Cardinality of a disjoint union. */
  lemma {:induction false} DisjointUnion<T>(a: set<T>, b: set<T>)
    requires a !! b
    ensures |a + b| == |a| + |b|
  {
  }

  /** Cardinality after adding a new element. */
  lemma {:induction false} AddOne<T>(a: set<T>, x: T)
    requires x !in a
    ensures |a + {x}| == |a| + 1
  {
  }

  // ---------------------------------------------------------------------------------------------
  // Rotations

  /** Both rotations keep the in-order key/value sequence. */
  lemma {:induction false} RotationsKeepInOrder<V>(t: Tree<V>)
    ensures InOrder(RotateLeft(t)) == InOrder(t)
    ensures InOrder(RotateRight(t)) == InOrder(t)
  {
    match t
    case Empty =>
    case Branch(l, xk, xv, _, r) =>
      if r.Branch? {
        var a, b, c := InOrder(l), InOrder(r.left), InOrder(r.right);
        assert InOrder(RotateLeft(t)) == (a + [(xk, xv)] + b) + [(r.key, r.value)] + c;
        assert InOrder(t) == a + [(xk, xv)] + (b + [(r.key, r.value)] + c);
      }
      if l.Branch? {
        var a, b, c := InOrder(l.left), InOrder(l.right), InOrder(r);
        assert InOrder(RotateRight(t)) == a + [(l.key, l.value)] + (b + [(xk, xv)] + c);
        assert InOrder(t) == (a + [(l.key, l.value)] + b) + [(xk, xv)] + c;
      }
  }

  /** Both rotations keep the keys, the key/value pairs and the node count. */
  lemma {:induction false} RotationsKeepPairs<V>(t: Tree<V>)
    ensures Keys(RotateLeft(t)) == Keys(t) && Pairs(RotateLeft(t)) == Pairs(t) && Size(RotateLeft(t)) == Size(t)
    ensures Keys(RotateRight(t)) == Keys(t) && Pairs(RotateRight(t)) == Pairs(t) && Size(RotateRight(t)) == Size(t)
  {
  }

  lemma {:induction false} RotateLeftKeepsBst<V>(t: Tree<V>)
    requires Bst(t)
    ensures Bst(RotateLeft(t))
  {
    match t
    case Empty =>
    case Branch(a, xk, xv, xh, r) =>
      if r.Branch? {
        assert Keys(r) == Keys(r.left) + {r.key} + Keys(r.right);
        assert forall z :: z in Keys(r.left) ==> xk < z;
        var x := Fix(Branch(a, xk, xv, xh, r.left));
        assert Bst(x);
        assert Keys(x) == Keys(a) + {xk} + Keys(r.left);
        assert forall z :: z in Keys(x) ==> z < r.key;
      }
  }

  lemma {:induction false} RotateRightKeepsBst<V>(t: Tree<V>)
    requires Bst(t)
    ensures Bst(RotateRight(t))
  {
    match t
    case Empty =>
    case Branch(l, yk, yv, yh, c) =>
      if l.Branch? {
        assert Keys(l) == Keys(l.left) + {l.key} + Keys(l.right);
        assert forall z :: z in Keys(l.right) ==> z < yk;
        var y := Fix(Branch(l.right, yk, yv, yh, c));
        assert Bst(y);
        assert Keys(y) == Keys(l.right) + {yk} + Keys(c);
        assert forall z :: z in Keys(y) ==> l.key < z;
      }
  }

  /** Recomputing the demoted node's height before the new root's makes every height correct,
      whatever the two rotated nodes stored before. */
  lemma {:induction false} RotationsFixHeights<V>(t: Tree<V>)
    ensures Rotatable(t, true) && HeightsOk(t.left) && HeightsOk(t.right.left) && HeightsOk(t.right.right)
            ==> HeightsOk(RotateLeft(t))
    ensures Rotatable(t, false) && HeightsOk(t.left.left) && HeightsOk(t.left.right) && HeightsOk(t.right)
            ==> HeightsOk(RotateRight(t))
  {
  }

  // The four shapes in which a node two levels out of balance is repaired.

  lemma {:induction false} SingleRightOk<V>(n: Tree<V>)
    requires n.Branch? && n.left.Branch?
    requires HeightsOk(n.left) && Balanced(n.left) && HeightsOk(n.right) && Balanced(n.right)
    requires Height(n.left) == Height(n.right) + 2 && Balance(n.left) <= 0
    ensures HeightsOk(RotateRight(n)) && Balanced(RotateRight(n))
    ensures Height(RotateRight(n)) == Height(n.right) + 3 + Balance(n.left)
  {
  }

  lemma {:induction false} SingleLeftOk<V>(n: Tree<V>)
    requires n.Branch? && n.right.Branch?
    requires HeightsOk(n.left) && Balanced(n.left) && HeightsOk(n.right) && Balanced(n.right)
    requires Height(n.right) == Height(n.left) + 2 && 0 <= Balance(n.right)
    ensures HeightsOk(RotateLeft(n)) && Balanced(RotateLeft(n))
    ensures Height(RotateLeft(n)) == Height(n.left) + 3 - Balance(n.right)
  {
  }

  lemma {:induction false} DoubleLeftRightOk<V>(n: Tree<V>)
    requires n.Branch? && n.left.Branch?
    requires HeightsOk(n.left) && Balanced(n.left) && HeightsOk(n.right) && Balanced(n.right)
    requires Height(n.left) == Height(n.right) + 2 && Balance(n.left) == 1
    ensures n.left.right.Branch?
    ensures HeightsOk(RotateRight(n.(left := RotateLeft(n.left))))
    ensures Balanced(RotateRight(n.(left := RotateLeft(n.left))))
    ensures Height(RotateRight(n.(left := RotateLeft(n.left)))) == Height(n.right) + 2
  {
    var l := n.left;
    var lr := l.right;
    assert lr.Branch?;
    var rl := RotateLeft(l);
    assert rl == Fix(Branch(Fix(Branch(l.left, l.key, l.value, l.height, lr.left)), lr.key, lr.value, lr.height, lr.right));
  }

  lemma {:induction false} DoubleRightLeftOk<V>(n: Tree<V>)
    requires n.Branch? && n.right.Branch?
    requires HeightsOk(n.left) && Balanced(n.left) && HeightsOk(n.right) && Balanced(n.right)
    requires Height(n.right) == Height(n.left) + 2 && Balance(n.right) == -1
    ensures n.right.left.Branch?
    ensures HeightsOk(RotateLeft(n.(right := RotateRight(n.right))))
    ensures Balanced(RotateLeft(n.(right := RotateRight(n.right))))
    ensures Height(RotateLeft(n.(right := RotateRight(n.right)))) == Height(n.left) + 2
  {
    var r := n.right;
    var rl := r.left;
    assert rl.Branch?;
    var rr := RotateRight(r);
    assert rr == Fix(Branch(rl.left, rl.key, rl.value, rl.height, Fix(Branch(rl.right, r.key, r.value, r.height, r.right))));
  }

  /** A double rotation is two single rotations, so it keeps keys, pairs, count and order too. */
  lemma {:induction false} DoubleRotationsKeep<V>(n: Tree<V>)
    requires n.Branch? && Bst(n)
    ensures var m := RotateRight(n.(left := RotateLeft(n.left)));
      Bst(m) && Keys(m) == Keys(n) && Pairs(m) == Pairs(n) && Size(m) == Size(n)
    ensures var m := RotateLeft(n.(right := RotateRight(n.right)));
      Bst(m) && Keys(m) == Keys(n) && Pairs(m) == Pairs(n) && Size(m) == Size(n)
  {
    var m1 := n.(left := RotateLeft(n.left));
    RotateLeftKeepsBst(n.left);
    RotationsKeepPairs(n.left);
    assert Bst(m1);
    RotateRightKeepsBst(m1);
    RotationsKeepPairs(m1);
    var m2 := n.(right := RotateRight(n.right));
    RotateRightKeepsBst(n.right);
    RotationsKeepPairs(n.right);
    assert Bst(m2);
    RotateLeftKeepsBst(m2);
    RotationsKeepPairs(m2);
  }

  /** Both rebalancing steps only rotate, so they keep keys, pairs, node count and search order. */
  lemma {:induction false} RebalanceInsertKeeps<V>(n: Tree<V>, k: int)
    requires n.Branch? && Bst(n)
    ensures Bst(RebalanceInsert(n, k)) && Keys(RebalanceInsert(n, k)) == Keys(n)
    ensures Pairs(RebalanceInsert(n, k)) == Pairs(n) && Size(RebalanceInsert(n, k)) == Size(n)
  {
    RotateLeftKeepsBst(n);
    RotateRightKeepsBst(n);
    RotationsKeepPairs(n);
    DoubleRotationsKeep(n);
  }

  lemma {:induction false} RebalanceRemoveKeeps<V>(n: Tree<V>)
    requires n.Branch? && Bst(n)
    ensures Bst(RebalanceRemove(n)) && Keys(RebalanceRemove(n)) == Keys(n)
    ensures Pairs(RebalanceRemove(n)) == Pairs(n) && Size(RebalanceRemove(n)) == Size(n)
  {
    RotateLeftKeepsBst(n);
    RotateRightKeepsBst(n);
    RotationsKeepPairs(n);
    DoubleRotationsKeep(n);
  }

  /** Recomputing a height and both rebalancing steps keep the node count and the pairs, search
      order or not. */
  lemma {:induction false} RebalanceKeepsContents<V>(n: Tree<V>, k: int)
    requires n.Branch?
    ensures Size(Fix(n)) == Size(n) && Pairs(Fix(n)) == Pairs(n)
    ensures Size(RebalanceInsert(n, k)) == Size(n) && Size(RebalanceRemove(n)) == Size(n)
    ensures Pairs(RebalanceInsert(n, k)) == Pairs(n) && Pairs(RebalanceRemove(n)) == Pairs(n)
  {
    RotationsKeepPairs(n);
    RotationsKeepPairs(n.left);
    RotationsKeepPairs(n.right);
    RotationsKeepPairs(n.(left := RotateLeft(n.left)));
    RotationsKeepPairs(n.(right := RotateRight(n.right)));
  }

  // ---------------------------------------------------------------------------------------------
  // Insertion

  /** Insertion adds the pair (k, v) unless k is present, in which case the pairs stay. */
  lemma {:induction false} InsertPairs<V>(t: Tree<V>, k: int, v: V)
    requires Bst(t)
    ensures Bst(Insert(t, k, v))
    ensures Keys(Insert(t, k, v)) == Keys(t) + {k}
    ensures Pairs(Insert(t, k, v)) == if k in Keys(t) then Pairs(t) else Pairs(t) + {(k, v)}
  {
    match t
    case Empty =>
    case Branch(l, key, val, h, r) =>
      if k < key {
        InsertPairs(l, k, v);
        InsertPairsLeft(t, k, v, Insert(l, k, v));
      } else if key < k {
        InsertPairs(r, k, v);
        InsertPairsRight(t, k, v, Insert(r, k, v));
      }
  }

  /** One level of InsertPairs on the left: replacing the left child of `t` by `c`, which holds
      that child's pairs with (k, v) added when k is new, and rebalancing gives `t`'s pairs with
      (k, v) added when k is new. */
  lemma InsertPairsLeft<V>(t: Tree<V>, k: int, v: V, c: Tree<V>)
    requires t.Branch? && Bst(t) && Bst(c) && k < t.key
    requires Keys(c) == Keys(t.left) + {k}
    requires Pairs(c) == if k in Keys(t.left) then Pairs(t.left) else Pairs(t.left) + {(k, v)}
    ensures var n := RebalanceInsert(Fix(t.(left := c)), k);
      && Bst(n) && Keys(n) == Keys(t) + {k}
      && Pairs(n) == if k in Keys(t) then Pairs(t) else Pairs(t) + {(k, v)}
  {
    var Branch(l, key, val, h, r) := t;
    var n := Fix(Branch(c, key, val, h, r));
    assert Bst(n);
    assert k in Keys(t) <==> k in Keys(l);
    RebalanceInsertKeeps(n, k);
  }

  /** The mirror image of InsertPairsLeft. */
  lemma InsertPairsRight<V>(t: Tree<V>, k: int, v: V, c: Tree<V>)
    requires t.Branch? && Bst(t) && Bst(c) && t.key < k
    requires Keys(c) == Keys(t.right) + {k}
    requires Pairs(c) == if k in Keys(t.right) then Pairs(t.right) else Pairs(t.right) + {(k, v)}
    ensures var n := RebalanceInsert(Fix(t.(right := c)), k);
      && Bst(n) && Keys(n) == Keys(t) + {k}
      && Pairs(n) == if k in Keys(t) then Pairs(t) else Pairs(t) + {(k, v)}
  {
    var Branch(l, key, val, h, r) := t;
    var n := Fix(Branch(l, key, val, h, c));
    assert Bst(n);
    assert k in Keys(t) <==> k in Keys(r);
    RebalanceInsertKeeps(n, k);
  }

  /** The rebalancing after an insertion repairs the node, given how the heavy child grew. */
  lemma {:induction false} RebalanceInsertOk<V>(n: Tree<V>, k: int)
    requires n.Branch? && HeightsOk(n) && Balanced(n.left) && Balanced(n.right)
    requires -2 <= Balance(n) <= 2
    requires Balance(n) == -2 ==>
      n.left.Branch? && ((k < n.left.key && Balance(n.left) == -1) || (n.left.key < k && Balance(n.left) == 1))
    requires Balance(n) == 2 ==>
      n.right.Branch? && ((n.right.key < k && Balance(n.right) == 1) || (k < n.right.key && Balance(n.right) == -1))
    ensures HeightsOk(RebalanceInsert(n, k)) && Balanced(RebalanceInsert(n, k))
    ensures -1 <= Balance(n) <= 1 ==> RebalanceInsert(n, k) == n
    ensures (Balance(n) == -2 || Balance(n) == 2) ==> Height(RebalanceInsert(n, k)) == Height(n) - 1
  {
    if Balance(n) == -2 {
      if k < n.left.key { SingleRightOk(n); } else { DoubleLeftRightOk(n); }
    } else if Balance(n) == 2 {
      if n.right.key < k { SingleLeftOk(n); } else { DoubleRightLeftOk(n); }
    }
  }

  /** Insertion keeps heights correct and the tree balanced; the height grows by at most one,
      and when it grows the root is unchanged and leans towards the side k went down. */
  lemma {:induction false} InsertBalanced<V>(t: Tree<V>, k: int, v: V)
    requires HeightsOk(t) && Balanced(t)
    ensures HeightsOk(Insert(t, k, v)) && Balanced(Insert(t, k, v))
    ensures Height(t) <= Height(Insert(t, k, v)) <= Height(t) + 1
    ensures Height(Insert(t, k, v)) == Height(t) + 1 && t.Branch? ==>
      && Insert(t, k, v).key == t.key
      && (k < t.key ==> Balance(Insert(t, k, v)) == -1)
      && (t.key < k ==> Balance(Insert(t, k, v)) == 1)
      && k != t.key
  {
    match t
    case Empty =>
    case Branch(l, key, val, h, r) =>
      if k < key {
        InsertBalanced(l, k, v);
        var n := Fix(Branch(Insert(l, k, v), key, val, h, r));
        RebalanceInsertOk(n, k);
      } else if key < k {
        InsertBalanced(r, k, v);
        var n := Fix(Branch(l, key, val, h, Insert(r, k, v)));
        RebalanceInsertOk(n, k);
      }
  }

  /** Each rotation an insertion into the left subtree asks for is possible: the tree never
      leans right, and a left-right case has the grandchild it rotates. */
  lemma {:induction false} InsertLeftRotationsPossible<V>(t: Tree<V>, k: int, v: V)
    requires t.Branch? && HeightsOk(t) && Balanced(t) && k < t.key
    ensures var n := Fix(t.(left := Insert(t.left, k, v)));
      && Balance(n) <= 1
      && (Balance(n) < -1 && n.left.key < k ==> n.left.right.Branch?)
  {
    InsertBalanced(t.left, k, v);
    var l' := Insert(t.left, k, v);
    var n := Fix(t.(left := l'));
    assert n.left == l' && n.right == t.right;
    if Balance(n) < -1 && l'.key < k {
      assert t.left.Branch? && Height(l') == Height(t.left) + 1;
      assert Balance(l') == 1;
    }
  }

  /** The mirror image of InsertLeftRotationsPossible. */
  lemma {:induction false} InsertRightRotationsPossible<V>(t: Tree<V>, k: int, v: V)
    requires t.Branch? && HeightsOk(t) && Balanced(t) && t.key < k
    ensures var n := Fix(t.(right := Insert(t.right, k, v)));
      && -1 <= Balance(n)
      && (1 < Balance(n) && k < n.right.key ==> n.right.left.Branch?)
  {
    InsertBalanced(t.right, k, v);
    var r' := Insert(t.right, k, v);
    var n := Fix(t.(right := r'));
    assert n.left == t.left && n.right == r';
    if 1 < Balance(n) && k < r'.key {
      assert t.right.Branch? && Height(r') == Height(t.right) + 1;
      assert Balance(r') == -1;
    }
  }

  /** Inserting a key that is already present changes nothing: no node, no value, no height. */
  lemma {:induction false} InsertPresentUnchanged<V>(t: Tree<V>, k: int, v: V)
    requires Avl(t) && k in Keys(t)
    ensures Insert(t, k, v) == t
  {
    match t
    case Branch(l, key, val, h, r) =>
      if k < key {
        InsertPresentUnchanged(l, k, v);
        assert Fix(Branch(l, key, val, h, r)) == t;
      } else if key < k {
        InsertPresentUnchanged(r, k, v);
        assert Fix(Branch(l, key, val, h, r)) == t;
      }
  }

  /** Insertion keeps every invariant of the tree; a new key costs exactly one node. */
  lemma {:induction false} InsertAvl<V>(t: Tree<V>, k: int, v: V)
    requires Avl(t)
    ensures Avl(Insert(t, k, v))
    ensures Size(Insert(t, k, v)) == if k in Keys(t) then Size(t) else Size(t) + 1
  {
    InsertPairs(t, k, v);
    InsertBalanced(t, k, v);
    SizeIsKeyCount(t);
    SizeIsKeyCount(Insert(t, k, v));
    if k !in Keys(t) {
      assert |Keys(t) + {k}| == |Keys(t)| + 1;
    } else {
      assert Keys(t) + {k} == Keys(t);
    }
  }

  // ---------------------------------------------------------------------------------------------
  // Removal

  /** The leftmost node of a search tree holds its smallest key, with that key's value. */
  lemma {:induction false} LeftmostIsMinimum<V>(t: Tree<V>)
    requires t.Branch? && Bst(t)
    ensures Leftmost(t).key in Keys(t)
    ensures forall x :: x in Keys(t) ==> Leftmost(t).key <= x
    ensures (Leftmost(t).key, Leftmost(t).value) in Pairs(t)
  {
    if t.left.Branch? {
      LeftmostIsMinimum(t.left);
    }
  }

  /** Removal keeps the search order and takes out exactly the key k. */
  lemma {:induction false} RemoveKeys<V>(t: Tree<V>, k: int)
    requires Bst(t)
    ensures Bst(Remove(t, k))
    ensures Keys(Remove(t, k)) == Keys(t) - {k}
    decreases t, 1
  {
    match t
    case Empty =>
    case Branch(l, key, val, h, r) =>
      var newRoot :=
        if k < key then Branch(Remove(l, k), key, val, h, r)
        else if key < k then Branch(l, key, val, h, Remove(r, k))
        else Unlink(t);
      if k < key {
        RemoveKeys(l, k);
        assert forall x :: x in Keys(Remove(l, k)) ==> x < key;
      } else if key < k {
        RemoveKeys(r, k);
        assert forall x :: x in Keys(Remove(r, k)) ==> key < x;
      } else {
        UnlinkKeys(t);
      }
      assert Bst(newRoot) && Keys(newRoot) == Keys(t) - {k};
      if newRoot.Branch? {
        RebalanceRemoveKeeps(Fix(newRoot));
      }
  }

  lemma {:induction false} UnlinkKeys<V>(t: Tree<V>)
    requires t.Branch? && Bst(t)
    ensures Bst(Unlink(t))
    ensures Keys(Unlink(t)) == Keys(t) - {t.key}
    decreases t, 0
  {
    if t.left.Branch? && t.right.Branch? {
      var m := Leftmost(t.right);
      LeftmostIsMinimum(t.right);
      RemoveKeys(t.right, m.key);
      assert forall x :: x in Keys(t.left) ==> x < m.key;
      assert forall x :: x in Keys(Remove(t.right, m.key)) ==> m.key < x;
    }
  }

  /** Removal takes out exactly the key k, with its value; every other pair stays. */
  lemma {:induction false} RemovePairs<V>(t: Tree<V>, k: int)
    requires Bst(t)
    ensures Pairs(Remove(t, k)) == WithoutKey(Pairs(t), k)
    decreases t, 1
  {
    match t
    case Empty =>
      assert WithoutKey(Pairs(t), k) == {};
    case Branch(l, key, val, h, r) =>
      var newRoot :=
        if k < key then Branch(Remove(l, k), key, val, h, r)
        else if key < k then Branch(l, key, val, h, Remove(r, k))
        else Unlink(t);
      WithoutKeyUnion(Pairs(l), {(key, val)}, Pairs(r), k);
      if k < key {
        RemovePairs(l, k);
        PairsHaveKeys(r);
        WithoutAbsentKey({(key, val)}, k);
        WithoutAbsentKey(Pairs(r), k);
      } else if key < k {
        RemovePairs(r, k);
        PairsHaveKeys(l);
        WithoutAbsentKey({(key, val)}, k);
        WithoutAbsentKey(Pairs(l), k);
      } else {
        UnlinkPairs(t);
      }
      assert Pairs(newRoot) == WithoutKey(Pairs(t), k);
      if newRoot.Branch? {
        RebalanceKeepsContents(Fix(newRoot), k);
      }
  }

  lemma {:induction false} UnlinkPairs<V>(t: Tree<V>)
    requires t.Branch? && Bst(t)
    ensures Pairs(Unlink(t)) == WithoutKey(Pairs(t), t.key)
    decreases t, 0
  {
    var l, r := t.left, t.right;
    PairsHaveKeys(l);
    PairsHaveKeys(r);
    WithoutKeyUnion(Pairs(l), {(t.key, t.value)}, Pairs(r), t.key);
    WithoutAbsentKey(Pairs(l), t.key);
    WithoutAbsentKey(Pairs(r), t.key);
    assert WithoutKey({(t.key, t.value)}, t.key) == {};
    if l.Branch? && r.Branch? {
      var m := Leftmost(r);
      LeftmostIsMinimum(r);
      RemovePairs(r, m.key);
      forall y | (m.key, y) in Pairs(r)
        ensures y == m.value
      {
        PairsUnique(r, m.key, y, m.value);
      }
      SplitKey(Pairs(r), m.key, m.value);
      assert Pairs(Unlink(t)) == Pairs(l) + ({(m.key, m.value)} + WithoutKey(Pairs(r), m.key));
    }
  }

  /** Taking a key out of a union takes it out of each part. */
  lemma WithoutKeyUnion<V>(a: set<(int, V)>, b: set<(int, V)>, c: set<(int, V)>, k: int)
    ensures WithoutKey(a + b + c, k) == WithoutKey(a, k) + WithoutKey(b, k) + WithoutKey(c, k)
  {
  }

  lemma WithoutAbsentKey<V>(a: set<(int, V)>, k: int)
    requires forall p :: p in a ==> p.0 != k
    ensures WithoutKey(a, k) == a
  {
  }

  /** A set in which `k` has the single value `v` is (k, v) next to the pairs without `k`. */
  lemma SplitKey<V>(a: set<(int, V)>, k: int, v: V)
    requires (k, v) in a && forall y :: (k, y) in a ==> y == v
    ensures a == {(k, v)} + WithoutKey(a, k)
  {
    forall p | p in a
      ensures p in {(k, v)} + WithoutKey(a, k)
    {
      if p.0 == k {
        assert (k, p.1) in a;
      }
    }
  }

  /** The rebalancing after a removal repairs a node whose children differ by up to two. */
  lemma {:induction false} RebalanceRemoveOk<V>(n: Tree<V>)
    requires n.Branch? && HeightsOk(n) && Balanced(n.left) && Balanced(n.right)
    requires -2 <= Balance(n) <= 2
    ensures HeightsOk(RebalanceRemove(n)) && Balanced(RebalanceRemove(n))
    ensures -1 <= Balance(n) <= 1 ==> RebalanceRemove(n) == n
    ensures Height(n) - 1 <= Height(RebalanceRemove(n)) <= Height(n)
  {
    if Balance(n) == -2 {
      if Balance(n.left) <= 0 { SingleRightOk(n); } else { DoubleLeftRightOk(n); }
    } else if Balance(n) == 2 {
      if 0 <= Balance(n.right) { SingleLeftOk(n); } else { DoubleRightLeftOk(n); }
    }
  }

  /** Removal keeps heights correct and the tree balanced; the height drops by at most one. */
  lemma {:induction false} RemoveBalanced<V>(t: Tree<V>, k: int)
    requires HeightsOk(t) && Balanced(t)
    ensures HeightsOk(Remove(t, k)) && Balanced(Remove(t, k))
    ensures Height(t) - 1 <= Height(Remove(t, k)) <= Height(t)
    decreases t, 1
  {
    match t
    case Empty =>
    case Branch(l, key, val, h, r) =>
      if k < key {
        RemoveBalanced(l, k);
        RetraceAfterRemove(Branch(Remove(l, k), key, val, h, r), Height(t));
      } else if key < k {
        RemoveBalanced(r, k);
        RetraceAfterRemove(Branch(l, key, val, h, Remove(r, k)), Height(t));
      } else {
        UnlinkBalanced(t);
        if Unlink(t).Branch? {
          RetraceAfterRemove(Unlink(t), Height(t));
        }
      }
  }

  /** The retracing step of Remove at a node whose children are valid AVL trees, whose balance is
      off by at most two, and whose height is `ht` or one less (exactly `ht` when off by two):
      the result is a valid AVL tree of height `ht` or one less. */
  lemma RetraceAfterRemove<V>(m: Tree<V>, ht: int)
    requires m.Branch? && HeightsOk(m.left) && Balanced(m.left) && HeightsOk(m.right) && Balanced(m.right)
    requires -2 <= Balance(m) <= 2
    requires ht - 1 <= Height(Fix(m)) <= ht
    requires (Balance(m) == -2 || Balance(m) == 2) ==> Height(Fix(m)) == ht
    ensures HeightsOk(RebalanceRemove(Fix(m))) && Balanced(RebalanceRemove(Fix(m)))
    ensures ht - 1 <= Height(RebalanceRemove(Fix(m))) <= ht
  {
    RebalanceRemoveOk(Fix(m));
  }

  lemma {:induction false} UnlinkBalanced<V>(t: Tree<V>)
    requires t.Branch? && HeightsOk(t) && Balanced(t)
    ensures Unlink(t).Empty? ==> Height(t) == 1
    ensures Unlink(t).Branch? ==>
      && HeightsOk(Unlink(t).left) && Balanced(Unlink(t).left)
      && HeightsOk(Unlink(t).right) && Balanced(Unlink(t).right)
      && -2 <= Balance(Unlink(t)) <= 2
      && Height(t) - 1 <= Height(Fix(Unlink(t))) <= Height(t)
      && ((Balance(Unlink(t)) == -2 || Balance(Unlink(t)) == 2) ==> Height(Fix(Unlink(t))) == Height(t))
    decreases t, 0
  {
    if t.left.Branch? && t.right.Branch? {
      RemoveBalanced(t.right, Leftmost(t.right).key);
    }
  }

  /** Removal keeps every invariant of the tree; a present key costs exactly one node. */
  lemma {:induction false} RemoveAvl<V>(t: Tree<V>, k: int)
    requires Avl(t)
    ensures Avl(Remove(t, k))
    ensures Size(Remove(t, k)) == if k in Keys(t) then Size(t) - 1 else Size(t)
  {
    RemoveKeys(t, k);
    RemoveBalanced(t, k);
    SizeIsKeyCount(t);
    SizeIsKeyCount(Remove(t, k));
    if k in Keys(t) {
      assert Keys(t) == (Keys(t) - {k}) + {k};
      assert |Keys(t)| == |Keys(t) - {k}| + 1;
    }
  }

  /** Each rotation the removal asks for is possible. */
  lemma {:induction false} RemoveRotationsPossible<V>(n: Tree<V>)
    requires n.Branch?
    ensures Balance(n) < -1 ==> n.left.Branch?
    ensures Balance(n) < -1 && 0 < Balance(n.left) ==> n.left.right.Branch?
    ensures 1 < Balance(n) ==> n.right.Branch?
    ensures 1 < Balance(n) && Balance(n.right) < 0 ==> n.right.left.Branch?
  {
  }

  /** Removing an absent key returns the subtree unchanged. */
  lemma {:induction false} RemoveAbsentUnchanged<V>(t: Tree<V>, k: int)
    requires Avl(t) && k !in Keys(t)
    ensures Remove(t, k) == t
  {
    match t
    case Empty =>
    case Branch(l, key, val, h, r) =>
      if k < key {
        RemoveAbsentUnchanged(l, k);
        assert Fix(Branch(l, key, val, h, r)) == t;
      } else {
        RemoveAbsentUnchanged(r, k);
        assert Fix(Branch(l, key, val, h, r)) == t;
      }
  }

  // ---------------------------------------------------------------------------------------------
  // The tree as a map

  /** In a search tree, the search finds exactly the keys present, each with its paired value. */
  lemma {:induction false} LookupPairs<V>(t: Tree<V>, k: int)
    requires Bst(t)
    ensures Lookup(t, k).Some? <==> k in Keys(t)
    ensures Lookup(t, k).Some? ==> (k, Lookup(t, k).value) in Pairs(t)
  {
    match t
    case Empty =>
    case Branch(l, key, _, _, r) =>
      if k < key {
        LookupPairs(l, k);
      } else if key < k {
        LookupPairs(r, k);
      }
  }

  /** After inserting k with v, a search finds v under a new key k, and finds what it found
      before under every other key and under a key already present. */
  lemma LookupAfterInsert<V>(t: Tree<V>, k: int, v: V, k': int)
    requires Bst(t)
    ensures Lookup(Insert(t, k, v), k') == if k' == k && k !in Keys(t) then Some(v) else Lookup(t, k')
  {
    var t' := Insert(t, k, v);
    InsertPairs(t, k, v);
    LookupPairs(t, k');
    LookupPairs(t', k');
    if Lookup(t', k').Some? {
      var w := Lookup(t', k').value;
      if k' == k && k !in Keys(t) {
        PairsHaveKeys(t);
        PairsUnique(t', k, w, v);
      } else {
        PairsHaveKeys(t);
        assert (k', w) in Pairs(t);
        PairsUnique(t, k', w, Lookup(t, k').value);
      }
    }
  }

  /** After removing k, a search finds nothing under k and what it found before elsewhere. */
  lemma LookupAfterRemove<V>(t: Tree<V>, k: int, k': int)
    requires Bst(t)
    ensures Lookup(Remove(t, k), k') == if k' == k then None else Lookup(t, k')
  {
    var t' := Remove(t, k);
    RemoveKeys(t, k);
    RemovePairs(t, k);
    LookupPairs(t, k');
    LookupPairs(t', k');
    if Lookup(t', k').Some? {
      var w := Lookup(t', k').value;
      assert (k', w) in Pairs(t);
      PairsUnique(t, k', w, Lookup(t, k').value);
    }
  }

  // ---------------------------------------------------------------------------------------------
  // Height bound and a concrete scenario

  /** The fewest nodes an AVL tree of height h can have. */
  function MinSize(h: nat): nat
  {
    if h == 0 then 0 else if h == 1 then 1 else 1 + MinSize(h - 1) + MinSize(h - 2)
  }

  lemma {:induction false} MinSizeMonotone(a: nat, b: nat)
    requires a <= b
    ensures MinSize(a) <= MinSize(b)
    decreases b
  {
    if a < b {
      MinSizeMonotone(a, b - 1);
    }
  }

  lemma {:induction false} SizeAtLeastMinSize<V>(t: Tree<V>)
    requires HeightsOk(t) && Balanced(t)
    ensures MinSize(Height(t)) <= Size(t)
  {
    match t
    case Empty =>
    case Branch(l, _, _, h, r) =>
      SizeAtLeastMinSize(l);
      SizeAtLeastMinSize(r);
      if h >= 2 {
        if Height(l) >= Height(r) {
          MinSizeMonotone(h - 2, Height(r));
        } else {
          MinSizeMonotone(h - 2, Height(l));
        }
      }
  }

  /** A balanced tree of at most 64 nodes has height at most 8: height 9 needs 88 nodes. */
  lemma {:induction false} HeightBound64<V>(t: Tree<V>)
    requires HeightsOk(t) && Balanced(t) && Size(t) <= 64
    ensures Height(t) <= 8
  {
    SizeAtLeastMinSize(t);
    if Height(t) > 8 {
      MinSizeMonotone(9, Height(t));
    }
  }

  /** Fewer than 54 nodes keep a balanced tree within height 7: height 8 needs 54 nodes. */
  lemma {:induction false} HeightBound53<V>(t: Tree<V>)
    requires HeightsOk(t) && Balanced(t) && Size(t) < 54
    ensures Height(t) <= 7
  {
    SizeAtLeastMinSize(t);
    if Height(t) > 7 {
      MinSizeMonotone(8, Height(t));
    }
  }

  /** MinSize(15) == 1596, computed one height at a time from the two below it. */
  lemma MinSize15()
    ensures MinSize(14) == 986 && MinSize(15) == 1596
  {
    assert MinSize(8) == 54 && MinSize(9) == 88;
    assert MinSize(10) == 143 && MinSize(11) == 232;
    assert MinSize(12) == 376 && MinSize(13) == 609;
  }

  /** A balanced tree of at most 1000 nodes has height at most 14: height 15 needs 1596 nodes. */
  lemma {:induction false} HeightBound1000<V>(t: Tree<V>)
    requires HeightsOk(t) && Balanced(t) && Size(t) <= 1000
    ensures Height(t) <= 14
  {
    SizeAtLeastMinSize(t);
    if Height(t) > 14 {
      MinSize15();
      MinSizeMonotone(15, Height(t));
    }
  }

  /** Inserts pairs (key, key) one after another, as the tests do. */
  function InsertKeys(t: Tree<int>, ks: seq<int>): Tree<int>
    decreases |ks|
  {
    if ks == [] then t else InsertKeys(Insert(t, ks[0], ks[0]), ks[1..])
  }

  /** The tree that inserting 4, 2, 5, 3, 1, 0 builds, step by step. */
  lemma {:induction false} LeftLeftTree()
    ensures InsertKeys(Empty, [4, 2, 5, 3, 1, 0]) ==
      Branch(Branch(Branch(Empty, 0, 0, 1, Empty), 1, 1, 2, Empty), 2, 2, 3,
             Branch(Branch(Empty, 3, 3, 1, Empty), 4, 4, 2, Branch(Empty, 5, 5, 1, Empty)))
  {
    var leaf3 := Branch(Empty, 3, 3, 1, Empty);
    var leaf5 := Branch(Empty, 5, 5, 1, Empty);
    var t1 := Insert(Empty, 4, 4);
    var t2 := Insert(t1, 2, 2);
    var t3 := Insert(t2, 5, 5);
    assert InsertKeys(Empty, [4, 2, 5, 3, 1, 0]) == InsertKeys(t3, [3, 1, 0]);
    var t4 := Insert(t3, 3, 3);
    assert t4 == Branch(Branch(Empty, 2, 2, 2, leaf3), 4, 4, 3, leaf5);
    var t5 := Insert(t4, 1, 1);
    var t6 := Insert(t5, 0, 0);
    assert InsertKeys(t3, [3, 1, 0]) == t6;
  }

  /** Height and contents of the tree `LeftLeftTree` describes. */
  lemma LeftLeftFacts(t: Tree<int>)
    requires t == Branch(Branch(Branch(Empty, 0, 0, 1, Empty), 1, 1, 2, Empty), 2, 2, 3,
                         Branch(Branch(Empty, 3, 3, 1, Empty), 4, 4, 2, Branch(Empty, 5, 5, 1, Empty)))
    ensures Height(t) == 3
    ensures Pairs(t) == {(0, 0), (1, 1), (2, 2), (3, 3), (4, 4), (5, 5)}
  {
    assert Pairs(t.left) == {(0, 0), (1, 1)};
    assert Pairs(t.right) == {(3, 3), (4, 4), (5, 5)};
  }

  /** Inserting 4, 2, 5, 3, 1, 0 performs a left-left rotation and ends at height 3. */
  lemma {:induction false} LeftLeftScenario()
    ensures Height(InsertKeys(Empty, [4, 2, 5, 3, 1, 0])) == 3
    ensures Pairs(InsertKeys(Empty, [4, 2, 5, 3, 1, 0])) == {(0, 0), (1, 1), (2, 2), (3, 3), (4, 4), (5, 5)}
  {
    LeftLeftTree();
    LeftLeftFacts(InsertKeys(Empty, [4, 2, 5, 3, 1, 0]));
  }
}
