/**
 * The node shape shared by the unbalanced binary search tree and the AVL
 * tree, with the read-only operations both trees use: search by key and the
 * three depth-first traversals.
 *
 * A node holds an integer key, an opaque value, two child links and an
 * extension `ext`: the basic node extends nothing (`X = ()`), the AVL node
 * extends it with its stored height (`X = nat`).
 */
module Trees {

  datatype Tree<V, X> =
    | Nil
    | Node(left: Tree<V, X>, key: int, value: V, right: Tree<V, X>, ext: X)

  /** The set of keys stored in `t`. */
  function Keys<V, X>(t: Tree<V, X>): set<int>
  {
    match t
    case Nil => {}
    case Node(l, k, _, r, _) => Keys(l) + {k} + Keys(r)
  }

  /** The keys of `t`, counted with multiplicity. */
  function KeyBag<V, X>(t: Tree<V, X>): multiset<int>
  {
    match t
    case Nil => multiset{}
    case Node(l, k, _, r, _) => KeyBag(l) + multiset{k} + KeyBag(r)
  }

  /** The number of nodes of `t`. */
  function Size<V, X>(t: Tree<V, X>): nat
  {
    match t
    case Nil => 0
    case Node(l, _, _, r, _) => Size(l) + 1 + Size(r)
  }

  /** `s` is `t` or a subtree hanging somewhere below it. */
  ghost predicate Subtree<V, X>(s: Tree<V, X>, t: Tree<V, X>)
  {
    s == t || (t.Node? && (Subtree(s, t.left) || Subtree(s, t.right)))
  }

  /**
   * The search-tree ordering: at every node, every key of the left subtree
   * is smaller than the node's key and every key of the right subtree is
   * larger.
   */
  ghost predicate IsBst<V, X>(t: Tree<V, X>)
  {
    match t
    case Nil => true
    case Node(l, k, _, r, _) =>
      && IsBst(l) && IsBst(r)
      && (forall x :: x in Keys(l) ==> x < k)
      && (forall x :: x in Keys(r) ==> k < x)
  }

  /** The elements of a sequence, as a set. */
  function Elems(s: seq<int>): set<int>
  {
    set x | x in s
  }

  ghost predicate StrictlyIncreasing(s: seq<int>)
  {
    forall i, j :: 0 <= i < j < |s| ==> s[i] < s[j]
  }

  ghost predicate NoDuplicates(s: seq<int>)
  {
    forall i, j :: 0 <= i < j < |s| ==> s[i] != s[j]
  }

  /**
   * Search by key: descends left when the key is smaller than the node's,
   * right otherwise, and returns the node holding the key or `Nil`.
   * Whatever the shape of `t`, a node it returns holds `k` and is a subtree
   * of `t`.
   */
  function Search<V, X>(t: Tree<V, X>, k: int): (r: Tree<V, X>)
    ensures r.Node? ==> r.key == k && Subtree(r, t) && k in Keys(t)
  {
    if t.Nil? || t.key == k then t
    else if k < t.key then Search(t.left, k)
    else Search(t.right, k)
  }

  /** In-order traversal: left subtree, node, right subtree. */
  function Inorder<V, X>(t: Tree<V, X>): (r: seq<int>)
    ensures |r| == Size(t)
  {
    match t
    case Nil => []
    case Node(l, k, _, rt, _) => Inorder(l) + [k] + Inorder(rt)
  }

  /** Pre-order traversal: node, left subtree, right subtree. */
  function Preorder<V, X>(t: Tree<V, X>): (r: seq<int>)
    ensures |r| == Size(t)
    ensures t.Node? ==> r[0] == t.key
  {
    match t
    case Nil => []
    case Node(l, k, _, rt, _) => [k] + Preorder(l) + Preorder(rt)
  }

  /** Post-order traversal: left subtree, right subtree, node. */
  function Postorder<V, X>(t: Tree<V, X>): (r: seq<int>)
    ensures |r| == Size(t)
    ensures t.Node? ==> r[|r| - 1] == t.key
  {
    match t
    case Nil => []
    case Node(l, k, _, rt, _) => Postorder(l) + Postorder(rt) + [k]
  }

  /**
   * The (key, value) pairs of `t` in in-order position: what a reader of
   * the tree can find in it, as opposed to how it is shaped.
   */
  function Entries<V, X>(t: Tree<V, X>): (r: seq<(int, V)>)
    ensures |r| == Size(t)
  {
    match t
    case Nil => []
    case Node(l, k, v, rt, _) => Entries(l) + [(k, v)] + Entries(rt)
  }

  /** Search for `j` in `t` returns a node, and that node holds `x`. */
  ghost predicate Finds<V, X>(t: Tree<V, X>, j: int, x: V)
  {
    Search(t, j).Node? && Search(t, j).value == x
  }

  /** Search for `j` misses in both trees, or finds the same value in both. */
  ghost predicate SearchesAgree<V, X>(a: Tree<V, X>, b: Tree<V, X>, j: int)
  {
    && Search(a, j).Node? == Search(b, j).Node?
    && (Search(a, j).Node? ==> Search(a, j).value == Search(b, j).value)
  }

  // ---------------------------------------------------------------------
  // Facts about the ordering, search and traversals
  // ---------------------------------------------------------------------

  /** Every traversal lists the keys of the tree, each as often as it occurs. */
  lemma {:induction false} TraversalBags<V, X>(t: Tree<V, X>)
    ensures multiset(Inorder(t)) == KeyBag(t)
    ensures multiset(Preorder(t)) == KeyBag(t)
    ensures multiset(Postorder(t)) == KeyBag(t)
  {
    match t
    case Nil =>
    case Node(l, _, _, r, _) =>
      TraversalBags(l);
      TraversalBags(r);
  }

  /** The key set is the support of the key bag. */
  lemma {:induction false} KeysAreBagSupport<V, X>(t: Tree<V, X>)
    ensures forall x :: x in Keys(t) <==> x in KeyBag(t)
  {
    match t
    case Nil =>
    case Node(l, _, _, r, _) =>
      KeysAreBagSupport(l);
      KeysAreBagSupport(r);
  }

  /** Every traversal lists exactly the keys of the tree. */
  lemma {:induction false} TraversalKeys<V, X>(t: Tree<V, X>)
    ensures Elems(Inorder(t)) == Keys(t)
    ensures Elems(Preorder(t)) == Keys(t)
    ensures Elems(Postorder(t)) == Keys(t)
  {
    KeysAreBagSupport(t);
    TraversalBags(t);
    ElemsOfBag(Inorder(t), KeyBag(t));
    ElemsOfBag(Preorder(t), KeyBag(t));
    ElemsOfBag(Postorder(t), KeyBag(t));
    SetsAgree(Elems(Inorder(t)), Keys(t));
    SetsAgree(Elems(Preorder(t)), Keys(t));
    SetsAgree(Elems(Postorder(t)), Keys(t));
  }

  lemma SetsAgree(a: set<int>, b: set<int>)
    requires forall x :: x in a <==> x in b
    ensures a == b
  {
    assert forall x :: x in a ==> x in b;
    assert forall x :: x in b ==> x in a;
    assert a <= b;
    assert b <= a;
  }

  lemma ElemsOfBag(s: seq<int>, b: multiset<int>)
    requires multiset(s) == b
    ensures forall x :: x in Elems(s) <==> x in b
  {
    forall x ensures x in Elems(s) <==> x in b {
      assert x in s <==> x in multiset(s);
    }
  }

  /** How strict increase splits around a middle element. */
  lemma IncreasingAround(sl: seq<int>, k: int, sr: seq<int>)
    ensures StrictlyIncreasing(sl + [k] + sr) <==>
      && StrictlyIncreasing(sl) && StrictlyIncreasing(sr)
      && (forall x :: x in sl ==> x < k)
      && (forall x :: x in sr ==> k < x)
  {
    var s := sl + [k] + sr;
    var n := |sl|;
    assert forall i :: 0 <= i < n ==> s[i] == sl[i];
    assert s[n] == k;
    assert forall i :: 0 <= i < |sr| ==> s[n + 1 + i] == sr[i];
    if StrictlyIncreasing(s) {
      forall i, j | 0 <= i < j < |sr| ensures sr[i] < sr[j] {
        assert s[n + 1 + i] < s[n + 1 + j];
      }
      forall x | x in sl ensures x < k {
        var i :| 0 <= i < n && sl[i] == x;
        assert s[i] < s[n];
      }
      forall x | x in sr ensures k < x {
        var i :| 0 <= i < |sr| && sr[i] == x;
        assert s[n] < s[n + 1 + i];
      }
    }
    if && StrictlyIncreasing(sl) && StrictlyIncreasing(sr)
       && (forall x :: x in sl ==> x < k)
       && (forall x :: x in sr ==> k < x)
    {
      forall i, j | 0 <= i < j < |s| ensures s[i] < s[j] {
        if j < n {
        } else if i < n {
          assert s[i] in sl;
          if j > n { assert s[j] == sr[j - n - 1]; assert s[j] in sr; }
        } else if i == n {
          assert s[j] == sr[j - n - 1];
          assert s[j] in sr;
        } else {
          assert s[i] == sr[i - n - 1] && s[j] == sr[j - n - 1];
        }
      }
    }
  }

  /**
   * A tree is a search tree exactly when its in-order traversal is strictly
   * increasing.
   */
  lemma {:induction false} BstIffInorderIncreasing<V, X>(t: Tree<V, X>)
    ensures IsBst(t) <==> StrictlyIncreasing(Inorder(t))
  {
    match t
    case Nil =>
    case Node(l, k, _, r, _) =>
      BstIffInorderIncreasing(l);
      BstIffInorderIncreasing(r);
      TraversalKeys(l);
      TraversalKeys(r);
      IncreasingAround(Inorder(l), k, Inorder(r));
      assert forall x :: x in Inorder(l) <==> x in Keys(l);
      assert forall x :: x in Inorder(r) <==> x in Keys(r);
  }

  /** On a search tree the in-order traversal is strictly increasing. */
  lemma InorderSorted<V, X>(t: Tree<V, X>)
    requires IsBst(t)
    ensures StrictlyIncreasing(Inorder(t))
  {
    BstIffInorderIncreasing(t);
  }

  /**
   * On a search tree every traversal lists every key exactly once, so the
   * three are permutations of one another of length `Size(t)`.
   */
  lemma TraversalsArePermutations<V, X>(t: Tree<V, X>)
    requires IsBst(t)
    ensures NoDuplicates(Inorder(t)) && NoDuplicates(Preorder(t)) && NoDuplicates(Postorder(t))
    ensures multiset(Preorder(t)) == multiset(Inorder(t)) == multiset(Postorder(t))
    ensures |Preorder(t)| == |Inorder(t)| == |Postorder(t)| == Size(t) == |Keys(t)|
  {
    InorderSorted(t);
    TraversalBags(t);
    var s := Inorder(t);
    DistinctFromBag(s, Preorder(t));
    DistinctFromBag(s, Postorder(t));
    TraversalKeys(t);
    DistinctCardinality(s);
  }

  /** A sequence with the same elements, counted, as a strictly increasing one has no duplicates. */
  lemma DistinctFromBag(s: seq<int>, p: seq<int>)
    requires StrictlyIncreasing(s) && multiset(p) == multiset(s)
    ensures NoDuplicates(p)
  {
    forall i, j | 0 <= i < j < |p| ensures p[i] != p[j] {
      if p[i] == p[j] {
        var x := p[i];
        assert multiset(p[..i]) + multiset(p[i..j]) + multiset(p[j..]) == multiset(p) by {
          assert p == p[..i] + p[i..j] + p[j..];
        }
        assert p[i..j][0] == x && p[j..][0] == x;
        assert multiset(p)[x] >= 2;
        CountAtMostOne(s, x);
      }
    }
  }

  lemma {:induction false} CountAtMostOne(s: seq<int>, x: int)
    requires StrictlyIncreasing(s)
    ensures multiset(s)[x] <= 1
  {
    if s != [] {
      CountAtMostOne(s[1..], x);
      assert s == [s[0]] + s[1..];
      if s[0] == x {
        assert x !in s[1..] by {
          forall i | 0 <= i < |s[1..]| ensures s[1..][i] != x {
            assert s[1..][i] == s[i + 1];
          }
        }
      }
    }
  }

  /** A duplicate-free sequence has as many distinct elements as entries. */
  lemma {:induction false} DistinctCardinality(s: seq<int>)
    requires NoDuplicates(s)
    ensures |Elems(s)| == |s|
  {
    if s != [] {
      var t := s[1..];
      assert NoDuplicates(t) by {
        forall i, j | 0 <= i < j < |t| ensures t[i] != t[j] {
          assert t[i] == s[i + 1] && t[j] == s[j + 1];
        }
      }
      DistinctCardinality(t);
      assert s == [s[0]] + t;
      assert s[0] !in t by {
        forall i | 0 <= i < |t| ensures t[i] != s[0] {
          assert t[i] == s[i + 1];
        }
      }
      assert Elems(s) == {s[0]} + Elems(t);
    }
  }

  /**
   * On a search tree, search finds a node exactly when the key is stored,
   * and then returns the subtree rooted at that key.
   */
  lemma {:induction false} SearchComplete<V, X>(t: Tree<V, X>, k: int)
    requires IsBst(t)
    ensures Search(t, k).Node? <==> k in Keys(t)
  {
    match t
    case Nil =>
    case Node(l, key, _, r, _) =>
      if k < key {
        SearchComplete(l, k);
      } else if k > key {
        SearchComplete(r, k);
      }
  }

  /** Every entry's key is a key of the tree. */
  lemma {:induction false} EntryKeys<V, X>(t: Tree<V, X>, j: int, x: V)
    requires (j, x) in Entries(t)
    ensures j in Keys(t)
  {
    match t
    case Node(l, _, _, r, _) =>
      if (j, x) in Entries(l) {
        EntryKeys(l, j, x);
      } else if (j, x) in Entries(r) {
        EntryKeys(r, j, x);
      }
  }

  /**
   * On a search tree, search finds `j` holding `x` exactly when `(j, x)` is
   * one of the tree's entries: two search trees with the same entries
   * answer every search alike.
   */
  lemma {:induction false} FindsIffEntry<V, X>(t: Tree<V, X>, j: int, x: V)
    requires IsBst(t)
    ensures Finds(t, j, x) <==> (j, x) in Entries(t)
  {
    match t
    case Nil =>
    case Node(l, k, _, r, _) =>
      if (j, x) in Entries(l) {
        EntryKeys(l, j, x);
      }
      if (j, x) in Entries(r) {
        EntryKeys(r, j, x);
      }
      if j < k {
        FindsIffEntry(l, j, x);
      } else if j > k {
        FindsIffEntry(r, j, x);
      }
  }
}
