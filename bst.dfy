/**
 * The unbalanced binary search tree: insertion that ignores duplicate keys,
 * and the tree object whose root it replaces.
 */
module Bst {
  import opened Trees

  /** A basic node extends the shared node shape with nothing. */
  type BstTree<V> = Tree<V, ()>

  /** A freshly created node: the key and value, no children. */
  function Leaf<V>(k: int, v: V): (r: BstTree<V>)
    ensures Keys(r) == {k} && IsBst(r) && Inorder(r) == [k]
  {
    Node(Nil, k, v, Nil, ())
  }

  /**
   * The recursive insertion: goes left on a smaller key and right on a
   * larger one, installs a new leaf in the empty child slot it reaches, and
   * leaves the tree as it is when the key is already there.
   */
  function InsertNode<V>(t: BstTree<V>, k: int, v: V): (r: BstTree<V>)
    ensures r.Node? && Keys(r) == Keys(t) + {k}
    ensures IsBst(t) ==> IsBst(r)
  {
    match t
    case Nil => Leaf(k, v)
    case Node(l, key, val, rt, x) =>
      if k < key then Node(InsertNode(l, k, v), key, val, rt, x)
      else if k > key then Node(l, key, val, InsertNode(rt, k, v), x)
      else t
  }

  /**
   * On a search tree, inserting a key that is already stored changes
   * nothing: in particular the stored value is not overwritten.
   */
  lemma {:induction false} InsertDuplicate<V>(t: BstTree<V>, k: int, v: V)
    requires IsBst(t) && k in Keys(t)
    ensures InsertNode(t, k, v) == t
  {
    match t
    case Node(l, key, _, r, _) =>
      if k < key {
        InsertDuplicate(l, k, v);
      } else if k > key {
        InsertDuplicate(r, k, v);
      }
  }

  /** On a search tree, inserting adds one node exactly when the key is new. */
  lemma {:induction false} InsertSize<V>(t: BstTree<V>, k: int, v: V)
    requires IsBst(t)
    ensures Size(InsertNode(t, k, v)) == if k in Keys(t) then Size(t) else Size(t) + 1
  {
    match t
    case Nil =>
    case Node(l, key, _, r, _) =>
      if k < key {
        InsertSize(l, k, v);
      } else if k > key {
        InsertSize(r, k, v);
      }
  }

  /**
   * After an insertion into a search tree, search finds the key; it finds
   * the new value if the key was new and the old node otherwise.
   */
  lemma {:induction false} SearchAfterInsert<V>(t: BstTree<V>, k: int, v: V)
    requires IsBst(t)
    ensures Search(InsertNode(t, k, v), k).Node?
    ensures k !in Keys(t) ==> Search(InsertNode(t, k, v), k) == Leaf(k, v)
    ensures k in Keys(t) ==> Search(InsertNode(t, k, v), k) == Search(t, k)
  {
    InsertDuplicateIfPresent(t, k, v);
    match t
    case Nil =>
    case Node(l, key, _, r, _) =>
      if k < key {
        SearchAfterInsert(l, k, v);
      } else if k > key {
        SearchAfterInsert(r, k, v);
      }
  }

  /** Inserting one key does not change what search finds for another. */
  lemma {:induction false} SearchOtherAfterInsert<V>(t: BstTree<V>, k: int, v: V, j: int)
    requires IsBst(t) && j != k
    ensures Search(InsertNode(t, k, v), j).Node? == Search(t, j).Node?
    ensures Search(t, j).Node? ==> Search(InsertNode(t, k, v), j).value == Search(t, j).value
  {
    match t
    case Nil =>
    case Node(l, key, _, r, _) =>
      if j == key {
      } else if j < key {
        if k < key {
          SearchOtherAfterInsert(l, k, v, j);
        }
      } else {
        if k > key {
          SearchOtherAfterInsert(r, k, v, j);
        }
      }
  }

  /** The tree object: its root, `Nil` while the tree is empty. */
  class BinarySearchTree<V> {
    var root: BstTree<V>

    ghost predicate Valid()
      reads this
    {
      IsBst(root)
    }

    constructor ()
      ensures Valid() && root == Nil
    {
      root := Nil;
    }

    /**
     * Insert a key with its value. An empty tree gets a new root leaf;
     * otherwise the recursive insertion installs the leaf below the root.
     */
    method Insert(k: int, v: V)
      requires Valid()
      modifies this
      ensures Valid()
      ensures old(root).Nil? ==> root == Leaf(k, v)
      ensures root == InsertNode(old(root), k, v)
      ensures Keys(root) == old(Keys(root)) + {k}
      ensures k in old(Keys(root)) ==> root == old(root)
    {
      if root.Nil? {
        root := Leaf(k, v);
        return;
      }
      InsertDuplicateIfPresent(root, k, v);
      root := InsertNode(root, k, v);
    }
  }

  lemma InsertDuplicateIfPresent<V>(t: BstTree<V>, k: int, v: V)
    requires IsBst(t)
    ensures k in Keys(t) ==> InsertNode(t, k, v) == t
  {
    if k in Keys(t) {
      InsertDuplicate(t, k, v);
    }
  }
}
