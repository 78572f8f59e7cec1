/**
 * The AVL tree: nodes that also store their height, the height and
 * balance-factor helpers, the two single rotations, and the recursive
 * insertion that recomputes heights on the way back up and rebalances with
 * the LL, RR, LR or RL case.
 */
module Avl {
  import opened Trees

  /** An AVL node extends the shared node shape with its stored height. */
  type AvlNode<V> = Tree<V, nat>

  /** A new node is a leaf of height 1. */
  function NewLeaf<V>(k: int, v: V): (r: AvlNode<V>)
    ensures r.Node? && Keys(r) == {k} && Height(r) == 1 && IsAvl(r)
    ensures Entries(r) == [(k, v)]
  {
    Node(Nil, k, v, Nil, 1)
  }

  /** The stored height of a node, 0 for the empty tree. */
  function Height<V>(t: AvlNode<V>): (h: nat)
    ensures t.Nil? ==> h == 0
  {
    if t.Nil? then 0 else t.ext
  }

  /** The height a tree actually has: the number of nodes on its longest branch. */
  ghost function TrueHeight<V, X>(t: Tree<V, X>): nat
  {
    match t
    case Nil => 0
    case Node(l, _, _, r, _) => 1 + Max(TrueHeight(l), TrueHeight(r))
  }

  function Max(a: int, b: int): int
  {
    if a < b then b else a
  }

  /** Every node stores one more than the larger of its children's stored heights. */
  ghost predicate HeightsOk<V>(t: AvlNode<V>)
  {
    match t
    case Nil => true
    case Node(l, _, _, r, h) => HeightsOk(l) && HeightsOk(r) && h == 1 + Max(Height(l), Height(r))
  }

  /** When every stored height is correct, the stored height is the true height. */
  lemma {:induction false} StoredHeightIsTrue<V>(t: AvlNode<V>)
    requires HeightsOk(t)
    ensures Height(t) == TrueHeight(t)
  {
    match t
    case Nil =>
    case Node(l, _, _, r, _) =>
      StoredHeightIsTrue(l);
      StoredHeightIsTrue(r);
  }

  /**
   * The balance factor: the left child's height minus the right child's,
   * 0 for the empty tree.
   */
  function BalanceFactor<V>(t: AvlNode<V>): (b: int)
    ensures t.Nil? ==> b == 0
    ensures t.Node? && HeightsOk(t) ==> b == TrueHeight(t.left) - TrueHeight(t.right)
  {
    if t.Nil? then 0
    else
      HeightsAreTrue(t);
      Height(t.left) - Height(t.right)
  }

  lemma HeightsAreTrue<V>(t: AvlNode<V>)
    requires t.Node?
    ensures HeightsOk(t) ==> Height(t.left) == TrueHeight(t.left) && Height(t.right) == TrueHeight(t.right)
  {
    if HeightsOk(t) {
      StoredHeightIsTrue(t.left);
      StoredHeightIsTrue(t.right);
    }
  }

  /** Every node's balance factor lies between -1 and 1. */
  ghost predicate Balanced<V>(t: AvlNode<V>)
  {
    match t
    case Nil => true
    case Node(l, _, _, r, _) => Balanced(l) && Balanced(r) && -1 <= BalanceFactor(t) <= 1
  }

  /** The AVL invariant: search-tree ordering, correct heights, balance. */
  ghost predicate IsAvl<V>(t: AvlNode<V>)
  {
    IsBst(t) && HeightsOk(t) && Balanced(t)
  }

  /**
   * Recompute a node's height from its children's stored heights. Only the
   * height changes; the node's height is correct afterwards when its
   * children's are, and recomputing a correct height changes nothing.
   */
  function UpdateHeight<V>(t: AvlNode<V>): (r: AvlNode<V>)
    requires t.Node?
    ensures r.Node? && r.left == t.left && r.right == t.right && r.key == t.key && r.value == t.value
    ensures Entries(r) == Entries(t)
    ensures HeightsOk(t.left) && HeightsOk(t.right) ==> HeightsOk(r)
    ensures HeightsOk(t) ==> r == t
  {
    t.(ext := 1 + Max(Height(t.left), Height(t.right)))
  }

  /**
   * Right rotation of `z` around its left child `y`: `y` becomes the
   * subtree's root, `z` its right child, and `y`'s former right subtree
   * becomes `z`'s left one; `z`'s height is recomputed before `y`'s.
   */
  function RotateRight<V>(z: AvlNode<V>): (r: AvlNode<V>)
    requires z.Node? && z.left.Node?
    ensures r.Node? && r.key == z.left.key && r.right.Node? && r.right.key == z.key
    ensures Inorder(r) == Inorder(z) && Keys(r) == Keys(z)
    ensures Entries(r) == Entries(z)
    ensures IsBst(z) ==> IsBst(r)
    ensures HeightsOk(z.left.left) && HeightsOk(z.left.right) && HeightsOk(z.right) ==> HeightsOk(r)
  {
    var y := z.left;
    var t2 := y.right;
    var z' := UpdateHeight(z.(left := t2));
    var r := UpdateHeight(y.(right := z'));
    Regrouped(Inorder(y.left), y.key, Inorder(t2), z.key, Inorder(z.right));
    Regrouped(Entries(y.left), (y.key, y.value), Entries(t2), (z.key, z.value), Entries(z.right));
    SameInorderSameOrder(z, r);
    r
  }

  /** Left rotation: the mirror image of `RotateRight`. */
  function RotateLeft<V>(z: AvlNode<V>): (r: AvlNode<V>)
    requires z.Node? && z.right.Node?
    ensures r.Node? && r.key == z.right.key && r.left.Node? && r.left.key == z.key
    ensures Inorder(r) == Inorder(z) && Keys(r) == Keys(z)
    ensures Entries(r) == Entries(z)
    ensures IsBst(z) ==> IsBst(r)
    ensures HeightsOk(z.right.right) && HeightsOk(z.right.left) && HeightsOk(z.left) ==> HeightsOk(r)
  {
    var y := z.right;
    var t2 := y.left;
    var z' := UpdateHeight(z.(right := t2));
    var r := UpdateHeight(y.(left := z'));
    Regrouped(Inorder(z.left), z.key, Inorder(t2), y.key, Inorder(y.right));
    Regrouped(Entries(z.left), (z.key, z.value), Entries(t2), (y.key, y.value), Entries(y.right));
    SameInorderSameOrder(z, r);
    r
  }

  /** The regrouping a rotation performs on an in-order sequence. */
  lemma Regrouped<T>(a: seq<T>, x: T, b: seq<T>, y: T, c: seq<T>)
    ensures a + [x] + b + [y] + c == a + [x] + (b + [y] + c)
  {
  }

  /** Two trees with the same in-order sequence have the same keys, and one is a search tree iff the other is. */
  lemma SameInorderSameOrder<V>(a: AvlNode<V>, b: AvlNode<V>)
    requires Inorder(a) == Inorder(b)
    ensures Keys(a) == Keys(b) && (IsBst(a) <==> IsBst(b))
  {
    BstIffInorderIncreasing(a);
    BstIffInorderIncreasing(b);
    TraversalKeys(a);
    TraversalKeys(b);
  }

  /**
   * The rotations `Rebalance` may perform on `n` after inserting `k` have
   * the children they need: a left-right case needs the left child's right
   * child, a right-left case the right child's left child.
   */
  ghost predicate RotationsDefined<V>(n: AvlNode<V>, k: int)
    requires n.Node?
  {
    var fb := Height(n.left) - Height(n.right);
    && (fb > 1 && k > n.left.key ==> n.left.right.Node?)
    && (fb < -1 && k < n.right.key ==> n.right.left.Node?)
  }

  /**
   * The second half of the recursive insertion, applied to a node whose
   * child has just been replaced: recompute its height, take its balance
   * factor, and apply the first case that matches — RR (single left
   * rotation), LL (single right rotation), LR (rotate the left child left,
   * then the node right), RL (rotate the right child right, then the node
   * left) — comparing the inserted key with the heavy child's key.
   * Whatever the case, the in-order sequence of keys is unchanged.
   */
  function Rebalance<V>(n: AvlNode<V>, k: int): (r: AvlNode<V>)
    requires n.Node? && RotationsDefined(n, k)
    ensures r.Node? && Inorder(r) == Inorder(n) && Keys(r) == Keys(n)
    ensures Entries(r) == Entries(n)
    ensures IsBst(n) ==> IsBst(r)
  {
    var no := UpdateHeight(n);
    var fb := BalanceFactor(no);
    if fb < -1 && k > no.right.key then
      RotateLeft(no)
    else if fb > 1 && k < no.left.key then
      RotateRight(no)
    else if fb > 1 && k > no.left.key then
      var no' := no.(left := RotateLeft(no.left));
      assert Inorder(no') == Inorder(no) && Entries(no') == Entries(no);
      SameInorderSameOrder(no, no');
      RotateRight(no')
    else if fb < -1 && k < no.right.key then
      var no' := no.(right := RotateRight(no.right));
      assert Inorder(no') == Inorder(no) && Entries(no') == Entries(no);
      SameInorderSameOrder(no, no');
      RotateLeft(no')
    else
      no
  }

  /**
   * What an insertion into an AVL tree `t` guarantees of its result `r`:
   * `r` is an AVL tree holding exactly the keys of `t` and `k`; a duplicate
   * key leaves `t` as it was; the height grows by at most one; and when it
   * grows, no rotation happened at the root and the root leans towards the
   * side `k` went to.
   */
  ghost predicate InsertPost<V>(t: AvlNode<V>, k: int, r: AvlNode<V>)
  {
    && r.Node? && IsAvl(r)
    && Keys(r) == Keys(t) + {k}
    && (k in Keys(t) ==> r == t)
    && (Height(r) == Height(t) || Height(r) == Height(t) + 1)
    && (t.Node? && Height(r) == Height(t) + 1 ==>
          && r.key == t.key
          && (k < t.key ==> BalanceFactor(r) == 1)
          && (k > t.key ==> BalanceFactor(r) == -1))
  }

  /**
   * The recursive insertion: a new leaf in an empty slot; a duplicate key
   * returns the subtree unchanged; otherwise insert into the child on `k`'s
   * side and rebalance the node. On an AVL tree the result is again one;
   * a new key comes with `v`, and every other key keeps its value.
   */
  function InsertRec<V>(t: AvlNode<V>, k: int, v: V): (r: AvlNode<V>)
    requires IsAvl(t)
    ensures InsertPost(t, k, r)
    ensures k !in Keys(t) ==> multiset(Entries(r)) == multiset(Entries(t)) + multiset{(k, v)}
  {
    match t
    case Nil => NewLeaf(k, v)
    case Node(l, key, val, rt, h) =>
      AvlChildren(t);
      if k < key then
        var l' := InsertRec(l, k, v);
        LeftInsertRebalances(t, k, v, l');
        Rebalance(t.(left := l'), k)
      else if k > key then
        var rt' := InsertRec(rt, k, v);
        RightInsertRebalances(t, k, v, rt');
        Rebalance(t.(right := rt'), k)
      else
        t
  }

  /**
   * One more entry in a child is one more entry in the node, whichever side
   * the child is on.
   */
  lemma ChildGainsEntry<T>(c: seq<T>, c': seq<T>, m: T, d: seq<T>, gained: bool, e: T)
    requires gained ==> multiset(c') == multiset(c) + multiset{e}
    ensures gained ==> multiset(c' + [m] + d) == multiset(c + [m] + d) + multiset{e}
    ensures gained ==> multiset(d + [m] + c') == multiset(d + [m] + c) + multiset{e}
  {
  }

  /** With one entry added, entries for any other key are the same. */
  lemma OtherEntriesKept<V>(t: AvlNode<V>, r: AvlNode<V>, k: int, v: V, j: int, x: V)
    requires multiset(Entries(r)) == multiset(Entries(t)) + multiset{(k, v)} && j != k
    ensures (j, x) in Entries(r) <==> (j, x) in Entries(t)
  {
    assert (j, x) in Entries(r) <==> (j, x) in multiset(Entries(r));
    assert (j, x) in Entries(t) <==> (j, x) in multiset(Entries(t));
  }

  /**
   * Of two search trees, one holding the other's entries plus `(k, v)`:
   * search finds `k` with `v` in it, and agrees on every other key.
   */
  lemma AddedEntrySearches<V>(t: AvlNode<V>, r: AvlNode<V>, k: int, v: V)
    requires IsBst(t) && IsBst(r)
    requires multiset(Entries(r)) == multiset(Entries(t)) + multiset{(k, v)}
    ensures Finds(r, k, v)
    ensures forall j :: j != k ==> SearchesAgree(r, t, j)
  {
    assert (k, v) in multiset(Entries(r));
    FindsIffEntry(r, k, v);
    forall j | j != k
      ensures SearchesAgree(r, t, j)
    {
      if Search(r, j).Node? {
        var x := Search(r, j).value;
        FindsIffEntry(r, j, x);
        OtherEntriesKept(t, r, k, v, j, x);
        FindsIffEntry(t, j, x);
      }
      if Search(t, j).Node? {
        var x := Search(t, j).value;
        FindsIffEntry(t, j, x);
        OtherEntriesKept(t, r, k, v, j, x);
        FindsIffEntry(r, j, x);
      }
    }
  }

  /**
   * Searching after an insertion into an AVL tree: a new key is found with
   * the value inserted, an existing key leaves the tree as it was, and every
   * other key is found with exactly the value it had.
   */
  lemma InsertRecFinds<V>(t: AvlNode<V>, k: int, v: V)
    requires IsAvl(t)
    ensures k !in Keys(t) ==> Finds(InsertRec(t, k, v), k, v)
    ensures k in Keys(t) ==> InsertRec(t, k, v) == t
    ensures forall j :: j != k ==> SearchesAgree(InsertRec(t, k, v), t, j)
  {
    var r := InsertRec(t, k, v);
    if k !in Keys(t) {
      AddedEntrySearches(t, r, k, v);
    } else {
      forall j | j != k
        ensures SearchesAgree(r, t, j)
      {
      }
    }
  }

  // ---------------------------------------------------------------------
  // The balance proof
  // ---------------------------------------------------------------------

  /** Facts every AVL node gives about its children. */
  lemma AvlChildren<V>(t: AvlNode<V>)
    requires t.Node? && IsAvl(t)
    ensures IsAvl(t.left) && IsAvl(t.right)
    ensures Height(t) == 1 + Max(Height(t.left), Height(t.right))
    ensures -1 <= Height(t.left) - Height(t.right) <= 1
  {
  }

  /** A tree with a positive stored height is a node. */
  lemma PositiveHeightIsNode<V>(t: AvlNode<V>)
    requires Height(t) >= 1
    ensures t.Node?
  {
  }

  /** LL case: a left child two higher than the right and leaning left is fixed by one right rotation. */
  lemma SingleRightFixes<V>(no: AvlNode<V>)
    requires no.Node? && no.left.Node?
    requires IsAvl(no.left) && IsAvl(no.right)
    requires Height(no.left) == Height(no.right) + 2
    requires BalanceFactor(no.left) == 1
    ensures HeightsOk(RotateRight(no)) && Balanced(RotateRight(no))
    ensures Height(RotateRight(no)) == Height(no.right) + 2
  {
    var y := no.left;
    AvlChildren(y);
    var c := Height(no.right);
    var r := RotateRight(no);
    assert r.right == UpdateHeight(no.(left := y.right));
    assert Height(r.right) == c + 1;
    assert r.left == y.left;
  }

  /** RR case: the mirror image of `SingleRightFixes`. */
  lemma SingleLeftFixes<V>(no: AvlNode<V>)
    requires no.Node? && no.right.Node?
    requires IsAvl(no.left) && IsAvl(no.right)
    requires Height(no.right) == Height(no.left) + 2
    requires BalanceFactor(no.right) == -1
    ensures HeightsOk(RotateLeft(no)) && Balanced(RotateLeft(no))
    ensures Height(RotateLeft(no)) == Height(no.left) + 2
  {
    var y := no.right;
    AvlChildren(y);
    var c := Height(no.left);
    var r := RotateLeft(no);
    assert r.left == UpdateHeight(no.(right := y.left));
    assert Height(r.left) == c + 1;
    assert r.right == y.right;
  }

  /** LR case: a left child two higher than the right and leaning right is fixed by two rotations. */
  lemma DoubleLeftRightFixes<V>(no: AvlNode<V>)
    requires no.Node? && no.left.Node?
    requires IsAvl(no.left) && IsAvl(no.right)
    requires Height(no.left) == Height(no.right) + 2
    requires BalanceFactor(no.left) == -1
    ensures no.left.right.Node?
    ensures var no' := no.(left := RotateLeft(no.left));
      HeightsOk(RotateRight(no')) && Balanced(RotateRight(no')) &&
      Height(RotateRight(no')) == Height(no.right) + 2
  {
    var y := no.left;
    AvlChildren(y);
    var c := Height(no.right);
    assert Height(y.left) == c && Height(y.right) == c + 1;
    var g := y.right;
    AvlChildren(g);
    var y' := RotateLeft(y);
    assert y'.left == UpdateHeight(y.(right := g.left));
    assert y'.right == g.right;
    assert Height(y'.left) == c + 1;
    var no' := no.(left := y');
    var r := RotateRight(no');
    assert r.left == y'.left;
    assert r.right == UpdateHeight(no'.(left := g.right));
    assert Height(r.right) == c + 1;
    assert HeightsOk(y'.left);
  }

  /** RL case: the mirror image of `DoubleLeftRightFixes`. */
  lemma DoubleRightLeftFixes<V>(no: AvlNode<V>)
    requires no.Node? && no.right.Node?
    requires IsAvl(no.left) && IsAvl(no.right)
    requires Height(no.right) == Height(no.left) + 2
    requires BalanceFactor(no.right) == 1
    ensures no.right.left.Node?
    ensures var no' := no.(right := RotateRight(no.right));
      HeightsOk(RotateLeft(no')) && Balanced(RotateLeft(no')) &&
      Height(RotateLeft(no')) == Height(no.left) + 2
  {
    var y := no.right;
    AvlChildren(y);
    var c := Height(no.left);
    assert Height(y.right) == c && Height(y.left) == c + 1;
    var g := y.left;
    AvlChildren(g);
    var y' := RotateRight(y);
    assert y'.right == UpdateHeight(y.(left := g.right));
    assert y'.left == g.left;
    assert Height(y'.right) == c + 1;
    var no' := no.(right := y');
    var r := RotateLeft(no');
    assert r.right == y'.right;
    assert r.left == UpdateHeight(no'.(right := g.left));
    assert Height(r.left) == c + 1;
    assert HeightsOk(y'.right);
  }

  /** Inserting on the left of an AVL node and rebalancing it keeps the insertion guarantees. */
  lemma LeftInsertRebalances<V>(t: AvlNode<V>, k: int, v: V, l': AvlNode<V>)
    requires t.Node? && IsAvl(t) && k < t.key
    requires InsertPost(t.left, k, l')
    requires k !in Keys(t.left) ==> multiset(Entries(l')) == multiset(Entries(t.left)) + multiset{(k, v)}
    ensures RotationsDefined(t.(left := l'), k)
    ensures InsertPost(t, k, Rebalance(t.(left := l'), k))
    ensures k !in Keys(t) ==> multiset(Entries(Rebalance(t.(left := l'), k))) == multiset(Entries(t)) + multiset{(k, v)}
  {
    ChildGainsEntry(Entries(t.left), Entries(l'), (t.key, t.value), Entries(t.right), k !in Keys(t.left), (k, v));
    AvlChildren(t);
    var n := t.(left := l');
    assert BalanceFactor(UpdateHeight(n)) == Height(l') - Height(t.right);
    if Height(l') > Height(t.right) + 1 {
      var r := LeftHeavyFixed(t, k, l');
    } else {
      LeftNotHeavy(t, k, l');
    }
  }

  /**
   * What a left child that grew two higher than the right one looks like:
   * the insertion went below its root, on the side the balance factor names.
   */
  lemma LeftHeavyShape<V>(t: AvlNode<V>, k: int, l': AvlNode<V>)
    requires t.Node? && IsAvl(t) && k < t.key
    requires InsertPost(t.left, k, l')
    requires Height(l') > Height(t.right) + 1
    ensures k !in Keys(t) && IsBst(t.(left := l')) && Keys(t.(left := l')) == Keys(t) + {k}
    ensures l'.Node? && IsAvl(l') && IsAvl(t.right) && k != l'.key
    ensures Height(l') == Height(t.right) + 2 == Height(t)
    ensures k < l'.key ==> BalanceFactor(l') == 1
    ensures k > l'.key ==> BalanceFactor(l') == -1
  {
    AvlChildren(t);
    var L, R := t.left, t.right;
    assert k !in Keys(R) by {
      assert forall x :: x in Keys(R) ==> t.key < x;
    }
    assert k !in Keys(L);
    assert Height(l') == Height(L) + 1 == Height(R) + 2;
    PositiveHeightIsNode(L);
    assert l'.key == L.key;
    assert IsBst(t.(left := l'));
  }

  /** LL and LR: the left side grew two higher than the right; one of the two rotations restores balance. */
  lemma LeftHeavyFixed<V>(t: AvlNode<V>, k: int, l': AvlNode<V>) returns (r: AvlNode<V>)
    requires t.Node? && IsAvl(t) && k < t.key
    requires InsertPost(t.left, k, l')
    requires Height(l') > Height(t.right) + 1
    ensures RotationsDefined(t.(left := l'), k)
    ensures r == Rebalance(t.(left := l'), k)
    ensures InsertPost(t, k, r)
  {
    LeftHeavyShape(t, k, l');
    var no := UpdateHeight(t.(left := l'));
    if k < l'.key {
      SingleRightFixes(no);
    } else {
      DoubleLeftRightFixes(no);
    }
    r := Rebalance(t.(left := l'), k);
  }

  /** No rotation on the left: the node only gets its height recomputed. */
  lemma LeftNotHeavy<V>(t: AvlNode<V>, k: int, l': AvlNode<V>)
    requires t.Node? && IsAvl(t) && k < t.key
    requires InsertPost(t.left, k, l')
    requires Height(l') <= Height(t.right) + 1
    ensures RotationsDefined(t.(left := l'), k)
    ensures Rebalance(t.(left := l'), k) == UpdateHeight(t.(left := l'))
    ensures InsertPost(t, k, UpdateHeight(t.(left := l')))
  {
    AvlChildren(t);
    var L, R := t.left, t.right;
    var n := t.(left := l');
    var no := UpdateHeight(n);
    assert k !in Keys(R) by {
      assert forall x :: x in Keys(R) ==> t.key < x;
    }
    if k in Keys(t) {
      assert k in Keys(L);
      assert l' == L && n == t;
    }
    assert IsBst(n);
    assert Balanced(no);
  }

  /** Inserting on the right of an AVL node and rebalancing it keeps the insertion guarantees. */
  lemma RightInsertRebalances<V>(t: AvlNode<V>, k: int, v: V, r': AvlNode<V>)
    requires t.Node? && IsAvl(t) && k > t.key
    requires InsertPost(t.right, k, r')
    requires k !in Keys(t.right) ==> multiset(Entries(r')) == multiset(Entries(t.right)) + multiset{(k, v)}
    ensures RotationsDefined(t.(right := r'), k)
    ensures InsertPost(t, k, Rebalance(t.(right := r'), k))
    ensures k !in Keys(t) ==> multiset(Entries(Rebalance(t.(right := r'), k))) == multiset(Entries(t)) + multiset{(k, v)}
  {
    ChildGainsEntry(Entries(t.right), Entries(r'), (t.key, t.value), Entries(t.left), k !in Keys(t.right), (k, v));
    AvlChildren(t);
    var n := t.(right := r');
    assert BalanceFactor(UpdateHeight(n)) == Height(t.left) - Height(r');
    if Height(r') > Height(t.left) + 1 {
      var r := RightHeavyFixed(t, k, r');
    } else {
      RightNotHeavy(t, k, r');
    }
  }

  /** The mirror image of `LeftHeavyShape`. */
  lemma RightHeavyShape<V>(t: AvlNode<V>, k: int, r': AvlNode<V>)
    requires t.Node? && IsAvl(t) && k > t.key
    requires InsertPost(t.right, k, r')
    requires Height(r') > Height(t.left) + 1
    ensures k !in Keys(t) && IsBst(t.(right := r')) && Keys(t.(right := r')) == Keys(t) + {k}
    ensures r'.Node? && IsAvl(r') && IsAvl(t.left) && k != r'.key
    ensures Height(r') == Height(t.left) + 2 == Height(t)
    ensures k > r'.key ==> BalanceFactor(r') == -1
    ensures k < r'.key ==> BalanceFactor(r') == 1
  {
    AvlChildren(t);
    var L, R := t.left, t.right;
    assert k !in Keys(L) by {
      assert forall x :: x in Keys(L) ==> x < t.key;
    }
    assert k !in Keys(R);
    assert Height(r') == Height(R) + 1 == Height(L) + 2;
    PositiveHeightIsNode(R);
    assert r'.key == R.key;
    assert IsBst(t.(right := r'));
  }

  /** RR and RL: the mirror image of `LeftHeavyFixed`. */
  lemma RightHeavyFixed<V>(t: AvlNode<V>, k: int, r': AvlNode<V>) returns (r: AvlNode<V>)
    requires t.Node? && IsAvl(t) && k > t.key
    requires InsertPost(t.right, k, r')
    requires Height(r') > Height(t.left) + 1
    ensures RotationsDefined(t.(right := r'), k)
    ensures r == Rebalance(t.(right := r'), k)
    ensures InsertPost(t, k, r)
  {
    RightHeavyShape(t, k, r');
    var no := UpdateHeight(t.(right := r'));
    if k > r'.key {
      SingleLeftFixes(no);
    } else {
      DoubleRightLeftFixes(no);
    }
    r := Rebalance(t.(right := r'), k);
  }

  /** No rotation on the right: the mirror image of `LeftNotHeavy`. */
  lemma RightNotHeavy<V>(t: AvlNode<V>, k: int, r': AvlNode<V>)
    requires t.Node? && IsAvl(t) && k > t.key
    requires InsertPost(t.right, k, r')
    requires Height(r') <= Height(t.left) + 1
    ensures RotationsDefined(t.(right := r'), k)
    ensures Rebalance(t.(right := r'), k) == UpdateHeight(t.(right := r'))
    ensures InsertPost(t, k, UpdateHeight(t.(right := r')))
  {
    AvlChildren(t);
    var L, R := t.left, t.right;
    var n := t.(right := r');
    var no := UpdateHeight(n);
    assert k !in Keys(L) by {
      assert forall x :: x in Keys(L) ==> x < t.key;
    }
    if k in Keys(t) {
      assert k in Keys(R);
      assert r' == R && n == t;
    }
    assert IsBst(n);
    assert Balanced(no);
  }

  /** The tree object: its root, `Nil` while the tree is empty. */
  class AvlTree<V> {
    var root: AvlNode<V>

    ghost predicate Valid()
      reads this
    {
      IsAvl(root)
    }

    constructor ()
      ensures Valid() && root == Nil
    {
      root := Nil;
    }

    /** Insert a key with its value and replace the root by the rebalanced subtree. */
    method Insert(k: int, v: V)
      requires Valid()
      modifies this
      ensures Valid()
      ensures root == InsertRec(old(root), k, v)
      ensures Keys(root) == old(Keys(root)) + {k}
      ensures k in old(Keys(root)) ==> root == old(root)
      ensures k !in old(Keys(root)) ==> Finds(root, k, v)
      ensures forall j :: j != k ==> SearchesAgree(root, old(root), j)
      ensures Height(root) <= old(Height(root)) + 1
    {
      InsertRecFinds(root, k, v);
      root := InsertRec(root, k, v);
    }
  }
}
