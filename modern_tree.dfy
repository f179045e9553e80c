/**
 * The mutating operations of the polymorphic tree (src/modern/Node.java) on
 * values. A child is either a `Node` or an `Empty` object; `Leaf` stands for
 * the latter, which is assumed to behave as an empty map: size 0, `get`
 * answers null, `put` answers a fresh one-node tree and the three deletions
 * answer the empty tree. Node.java stores whatever value it is given, null
 * included, so values are `Option<V>`.
 *
 * `put`, `min` and `max` walk the tree exactly as BST.java's helpers do and
 * are `SwTree.Put`, `SwTree.MinNode` and `SwTree.MaxNode`. The deletions differ:
 * `deleteMin` and `deleteMax` never touch a cached size, and the two-child
 * `delete` builds a fresh node whose size is the old size minus one.
 */
module ModernTree {
  import opened Failures
  import opened Trees
  import SwTree

  /** `get(K)` on a non-null key: the stored value, or null (None) once the walk reaches an `Empty`. */
  function Lookup<V>(t: Tree<Option<V>>, k: int): (r: Option<V>)
    ensures Ordered(t) ==> r == if k in Contents(t) then Contents(t)[k] else None
  {
    match t
    case Leaf => None
    case Node(key, v, _, l, rt) =>
      if k == key then v
      else if k < key then Lookup(l, k)
      else Lookup(rt, k)
  }

  /** `deleteMin()`: unlink the leftmost node; the nodes passed keep their cached sizes. */
  function DeleteMin<V>(t: Tree<V>): (r: Tree<V>)
    requires t.Node?
    ensures Count(r) == Count(t) - 1
  {
    if t.left.Leaf? then t.right
    else Node(t.key, t.value, t.size, DeleteMin(t.left), t.right)
  }

  /** `deleteMax()`: unlink the rightmost node; the nodes passed keep their cached sizes. */
  function DeleteMax<V>(t: Tree<V>): (r: Tree<V>)
    requires t.Node?
    ensures Count(r) == Count(t) - 1
  {
    if t.right.Leaf? then t.left
    else Node(t.key, t.value, t.size, t.left, DeleteMax(t.right))
  }

  /**
   * `delete(K)` on a non-null key. A two-child node is replaced by a new node
   * holding the minimum of its right subtree, the old left subtree, the right
   * subtree after `deleteMin`, and the old size minus one.
   */
  function Delete<V>(t: Tree<Option<V>>, k: int): (r: Tree<Option<V>>)
    ensures Count(r) <= Count(t)
  {
    match t
    case Leaf => Leaf
    case Node(key, val, s, l, rt) =>
      if k < key then
        var l' := Delete(l, k);
        Node(key, val, Size(l') + Size(rt) + 1, l', rt)
      else if k > key then
        var rt' := Delete(rt, k);
        Node(key, val, Size(l) + Size(rt') + 1, l, rt')
      else if rt.Leaf? then l
      else if l.Leaf? then rt
      else
        var m := SwTree.MinNode(rt).key;
        var v := Lookup(rt, m);
        Node(m, v, s - 1, l, DeleteMin(rt))
  }

  /** After `put(k, v)` on an ordered tree, `get(k)` answers `v` and every other key answers as before. */
  lemma PutLookup<V>(t: Tree<Option<V>>, k: int, v: Option<V>, j: int)
    requires Ordered(t)
    ensures Ordered(SwTree.Put(t, k, v))
    ensures Lookup(SwTree.Put(t, k, v), j) == if j == k then v else Lookup(t, j)
  {
    SwTree.PutOrdered(t, k, v);
    SwTree.PutContents(t, k, v);
  }

  // ----- agreement with BST.java: the two variants differ only in cached sizes -----

  /** Apart from cached sizes, `deleteMin` here builds the tree BST.java's `deleteMin` builds. */
  lemma {:induction false} DeleteMinAgrees<V>(t: Tree<V>)
    requires t.Node?
    ensures Unsized(DeleteMin(t)) == Unsized(SwTree.DeleteMin(t))
  {
    if t.left.Node? { DeleteMinAgrees(t.left); }
  }

  /** Apart from cached sizes, `deleteMax` here builds the tree BST.java's `deleteMax` builds. */
  lemma {:induction false} DeleteMaxAgrees<V>(t: Tree<V>)
    requires t.Node?
    ensures Unsized(DeleteMax(t)) == Unsized(SwTree.DeleteMax(t))
  {
    if t.right.Node? { DeleteMaxAgrees(t.right); }
  }

  /**
   * Apart from cached sizes, `delete` here builds the tree BST.java's `delete`
   * builds: in the two-child case `right.get(right.min())` is the successor's value.
   */
  lemma {:induction false} DeleteAgrees<V>(t: Tree<Option<V>>, k: int)
    requires Ordered(t)
    ensures Unsized(Delete(t, k)) == Unsized(SwTree.Delete(t, k))
  {
    match t
    case Leaf =>
    case Node(key, _, _, l, rt) =>
      if k < key { DeleteAgrees(l, k); }
      else if k > key { DeleteAgrees(rt, k); }
      else if l.Node? && rt.Node? { DeleteMinAgrees(rt); }
  }

  /** `deleteMin` keeps the ordering and removes exactly the minimum key. */
  lemma DeleteMinCorrect<V>(t: Tree<V>)
    requires t.Node? && Ordered(t)
    ensures Ordered(DeleteMin(t)) && Contents(DeleteMin(t)) == Contents(t) - {SwTree.MinNode(t).key}
  {
    DeleteMinAgrees(t);
    SwTree.DeleteMinOrdered(t);
    SwTree.DeleteMinContents(t);
  }

  /** `deleteMax` keeps the ordering and removes exactly the maximum key. */
  lemma DeleteMaxCorrect<V>(t: Tree<V>)
    requires t.Node? && Ordered(t)
    ensures Ordered(DeleteMax(t)) && Contents(DeleteMax(t)) == Contents(t) - {SwTree.MaxNode(t).key}
  {
    DeleteMaxAgrees(t);
    SwTree.DeleteMaxOrdered(t);
    SwTree.DeleteMaxContents(t);
  }

  /** `delete` keeps the ordering and removes exactly the pair under `k`, if there is one. */
  lemma DeleteCorrect<V>(t: Tree<Option<V>>, k: int)
    requires Ordered(t)
    ensures Ordered(Delete(t, k)) && Contents(Delete(t, k)) == Contents(t) - {k}
  {
    DeleteAgrees(t, k);
    SwTree.DeleteOrdered(t, k);
    SwTree.DeleteContents(t, k);
  }

  // ----- what the cached sizes still guarantee -----

  /** Every cached size is at least the number of nodes below and at it: sizes may be stale, never short. */
  predicate SizesCover<V>(t: Tree<V>)
  {
    match t
    case Leaf => true
    case Node(_, _, s, l, r) => s >= Count(t) && SizesCover(l) && SizesCover(r)
  }

  /** Correct bookkeeping is the special case where every size is exact. */
  lemma {:induction false} SizesOkCover<V>(t: Tree<V>)
    requires SizesOk(t)
    ensures SizesCover(t)
  {
    match t
    case Leaf =>
    case Node(_, _, _, l, r) =>
      SizesOkCover(l);
      SizesOkCover(r);
      SizeIsCount(l);
      SizeIsCount(r);
  }

  /** `put` recomputes sizes from its children's cached sizes, so it never makes one short. */
  lemma {:induction false} PutCovers<V>(t: Tree<V>, k: int, v: V)
    requires SizesCover(t)
    ensures SizesCover(SwTree.Put(t, k, v))
  {
    match t
    case Leaf =>
    case Node(key, _, _, l, rt) =>
      if k < key { PutCovers(l, k, v); } else if k > key { PutCovers(rt, k, v); }
  }

  /** `deleteMin` leaves sizes too large but never too small. */
  lemma {:induction false} DeleteMinCovers<V>(t: Tree<V>)
    requires t.Node? && SizesCover(t)
    ensures SizesCover(DeleteMin(t))
  {
    if t.left.Node? { DeleteMinCovers(t.left); }
  }

  /** `deleteMax` leaves sizes too large but never too small. */
  lemma {:induction false} DeleteMaxCovers<V>(t: Tree<V>)
    requires t.Node? && SizesCover(t)
    ensures SizesCover(DeleteMax(t))
  {
    if t.right.Node? { DeleteMaxCovers(t.right); }
  }

  /** `delete` leaves sizes too large but never too small. */
  lemma {:induction false} DeleteCovers<V>(t: Tree<Option<V>>, k: int)
    requires SizesCover(t)
    ensures SizesCover(Delete(t, k))
  {
    match t
    case Leaf =>
    case Node(key, _, _, l, rt) =>
      if k < key { DeleteCovers(l, k); }
      else if k > key { DeleteCovers(rt, k); }
      else if l.Node? && rt.Node? { DeleteMinCovers(rt); }
  }

  // ----- stale sizes: the code as written -----

  /**
   * After `deleteMin` on a node with a left child the root still reports its
   * old size, one more than the entries left, even in a perfectly kept tree.
   */
  lemma DeleteMinStaleRoot<V>(t: Tree<V>)
    requires SizesOk(t) && t.Node? && t.left.Node?
    ensures Size(DeleteMin(t)) == Size(t) == Count(DeleteMin(t)) + 1
    ensures !SizesOk(DeleteMin(t))
  {
    SizeIsCount(t);
  }

  /** The mirror image for `deleteMax`. */
  lemma DeleteMaxStaleRoot<V>(t: Tree<V>)
    requires SizesOk(t) && t.Node? && t.right.Node?
    ensures Size(DeleteMax(t)) == Size(t) == Count(DeleteMax(t)) + 1
    ensures !SizesOk(DeleteMax(t))
  {
    SizeIsCount(t);
  }

  /**
   * Deleting a two-child node whose right child has a left child: the new
   * root's size is right, but the right subtree reports one entry too many,
   * so the new root no longer equals one plus its children's sizes.
   */
  lemma DeleteTwoChildStale<V>(t: Tree<Option<V>>)
    requires SizesOk(t) && t.Node? && t.left.Node? && t.right.Node? && t.right.left.Node?
    ensures var d := Delete(t, t.key);
      d.Node? && Size(d) == Count(d) && Size(d.right) == Count(d.right) + 1 && !SizesOk(d)
  {
    SizeIsCount(t);
    SizeIsCount(t.right);
  }

  // ----- the demonstration in Node.java's main -----

  /**
   * The demonstration's six string keys, compared as Java compares strings:
   * any six integers in the same order stand for them.
   */
  predicate DemoKeys(alice: int, mary: int, susan: int, ursula: int, vera: int, zena: int)
  {
    alice < mary < susan < ursula < vera < zena
  }

  /** The tree after the six insertions that start from `new Node("Mary", 10)`. */
  function DemoInserted(alice: int, mary: int, susan: int, ursula: int, vera: int, zena: int): Tree<Option<int>>
  {
    SwTree.Put(SwTree.Put(SwTree.Put(SwTree.Put(SwTree.Put(
      Node(mary, Some(10), 1, Leaf, Leaf),
      alice, Some(30)), vera, Some(60)), susan, Some(20)), zena, Some(40)), ursula, Some(50))
  }

  lemma DemoInsertions(alice: int, mary: int, susan: int, ursula: int, vera: int, zena: int)
    requires DemoKeys(alice, mary, susan, ursula, vera, zena)
    ensures DemoInserted(alice, mary, susan, ursula, vera, zena) ==
      Node(mary, Some(10), 6, Node(alice, Some(30), 1, Leaf, Leaf),
        Node(vera, Some(60), 4,
          Node(susan, Some(20), 2, Leaf, Node(ursula, Some(50), 1, Leaf, Leaf)),
          Node(zena, Some(40), 1, Leaf, Leaf)))
  {
    var a := Node(alice, Some(30), 1, Leaf, Leaf);
    var s := Node(susan, Some(20), 1, Leaf, Leaf);
    var z := Node(zena, Some(40), 1, Leaf, Leaf);
    var m1 := SwTree.Put(Node(mary, Some(10), 1, Leaf, Leaf), alice, Some(30));
    assert SwTree.Put(Leaf, alice, Some(30)) == a;
    assert m1 == Node(mary, Some(10), 2, a, Leaf);
    var m2 := SwTree.Put(m1, vera, Some(60));
    assert SwTree.Put(Leaf, vera, Some(60)) == Node(vera, Some(60), 1, Leaf, Leaf);
    assert m2 == Node(mary, Some(10), 3, a, Node(vera, Some(60), 1, Leaf, Leaf));
    var m3 := SwTree.Put(m2, susan, Some(20));
    assert SwTree.Put(Node(vera, Some(60), 1, Leaf, Leaf), susan, Some(20)) == Node(vera, Some(60), 2, s, Leaf);
    assert m3 == Node(mary, Some(10), 4, a, Node(vera, Some(60), 2, s, Leaf));
    var m4 := SwTree.Put(m3, zena, Some(40));
    assert SwTree.Put(Node(vera, Some(60), 2, s, Leaf), zena, Some(40)) == Node(vera, Some(60), 3, s, z);
    assert m4 == Node(mary, Some(10), 5, a, Node(vera, Some(60), 3, s, z));
    var u := Node(ursula, Some(50), 1, Leaf, Leaf);
    assert SwTree.Put(s, ursula, Some(50)) == Node(susan, Some(20), 2, Leaf, u);
    assert SwTree.Put(Node(vera, Some(60), 3, s, z), ursula, Some(50))
      == Node(vera, Some(60), 4, Node(susan, Some(20), 2, Leaf, u), z);
  }

  /** `delete("Mary")`: Mary has two children, so Susan, the minimum on her right, is promoted. */
  lemma DemoDeleteMary(alice: int, mary: int, susan: int, ursula: int, vera: int, zena: int)
    requires DemoKeys(alice, mary, susan, ursula, vera, zena)
    ensures Delete(DemoInserted(alice, mary, susan, ursula, vera, zena), mary) ==
      Node(susan, Some(20), 5, Node(alice, Some(30), 1, Leaf, Leaf),
        Node(vera, Some(60), 4, Node(ursula, Some(50), 1, Leaf, Leaf), Node(zena, Some(40), 1, Leaf, Leaf)))
  {
    DemoInsertions(alice, mary, susan, ursula, vera, zena);
    var u := Node(ursula, Some(50), 1, Leaf, Leaf);
    var z := Node(zena, Some(40), 1, Leaf, Leaf);
    var vs := Node(vera, Some(60), 4, Node(susan, Some(20), 2, Leaf, u), z);
    assert SwTree.MinNode(vs).key == susan;
    assert Lookup(vs, susan) == Some(20);
    assert DeleteMin(vs) == Node(vera, Some(60), 4, u, z);
  }

  /** `delete("Zena")`: a leaf is unlinked and the sizes on its path are recomputed. */
  lemma DemoDeleteZena(alice: int, mary: int, susan: int, ursula: int, vera: int, zena: int)
    requires DemoKeys(alice, mary, susan, ursula, vera, zena)
    ensures Delete(Delete(DemoInserted(alice, mary, susan, ursula, vera, zena), mary), zena) ==
      Node(susan, Some(20), 4, Node(alice, Some(30), 1, Leaf, Leaf),
        Node(vera, Some(60), 2, Node(ursula, Some(50), 1, Leaf, Leaf), Leaf))
  {
    DemoDeleteMary(alice, mary, susan, ursula, vera, zena);
    var u := Node(ursula, Some(50), 1, Leaf, Leaf);
    var z := Node(zena, Some(40), 1, Leaf, Leaf);
    assert Delete(z, zena) == Leaf;
    assert Delete(Node(vera, Some(60), 4, u, z), zena) == Node(vera, Some(60), 2, u, Leaf);
  }

  /**
   * After `delete("Mary")` the map has size 5, Susan at the root over Alice
   * and Vera, and Vera's cached size 4 is stale (3 nodes); after
   * `delete("Zena")` the size is 4 and the maximum is Vera.
   */
  lemma Demo(alice: int, mary: int, susan: int, ursula: int, vera: int, zena: int)
    requires DemoKeys(alice, mary, susan, ursula, vera, zena)
    ensures var d1 := Delete(DemoInserted(alice, mary, susan, ursula, vera, zena), mary);
            var d2 := Delete(d1, zena);
            Size(DemoInserted(alice, mary, susan, ursula, vera, zena)) == 6 &&
            d1.Node? && d1.key == susan && d1.left.Node? && d1.left.key == alice &&
            d1.right.Node? && d1.right.key == vera &&
            Size(d1) == 5 && mary !in Keys(d1) && SwTree.MinNode(d1).key == alice &&
            Size(d1.right) == 4 && Count(d1.right) == 3 &&
            Size(d2) == 4 && Count(d2) == 4 && SwTree.MaxNode(d2).key == vera
  {
    DemoInsertions(alice, mary, susan, ursula, vera, zena);
    DemoDeleteMary(alice, mary, susan, ursula, vera, zena);
    DemoDeleteZena(alice, mary, susan, ursula, vera, zena);
  }
}
