/**
 * The recursive helpers of the algs4-style `BST` (src/sw/BST.java) on
 * values: each mutating helper takes a subtree and returns the subtree
 * that replaces it, recomputing the cached size of every node it passes.
 */
module SwTree {
  import opened Failures
  import opened Trees

  /** `get(Node, K)`: follow the comparison path; `None` where it falls off the tree. */
  function Get<V>(t: Tree<V>, k: int): (r: Option<V>)
    ensures Ordered(t) ==> r == if k in Contents(t) then Some(Contents(t)[k]) else None
  {
    match t
    case Leaf => None
    case Node(key, v, _, l, rt) =>
      if k == key then Some(v)
      else if k < key then Get(l, k)
      else Get(rt, k)
  }

  /** `min(Node)`: the leftmost node. */
  function MinNode<V>(t: Tree<V>): (m: Tree<V>)
    requires t.Node?
    ensures m.Node? && m.left.Leaf? && m.key in Keys(t)
    ensures Ordered(t) ==> Ordered(m) && (forall x :: x in Keys(t) ==> m.key <= x) && Contents(t)[m.key] == m.value
  {
    if t.left.Leaf? then t else MinNode(t.left)
  }

  /** `max(Node)`: the rightmost node. */
  function MaxNode<V>(t: Tree<V>): (m: Tree<V>)
    requires t.Node?
    ensures m.Node? && m.right.Leaf? && m.key in Keys(t)
    ensures Ordered(t) ==> Ordered(m) && (forall x :: x in Keys(t) ==> x <= m.key) && Contents(t)[m.key] == m.value
  {
    if t.right.Leaf? then t else MaxNode(t.right)
  }

  /** `floor(Node, K)`: the node holding the largest key at most `k`, `Leaf` for none. */
  function Floor<V>(t: Tree<V>, k: int): (r: Tree<V>)
    ensures r.Node? ==> r.key in Keys(t) && r.key <= k
    ensures Ordered(t) ==> (r.Leaf? <==> forall x :: x in Keys(t) ==> k < x)
    ensures Ordered(t) && r.Node? ==> IsFloor(Keys(t), k, r.key) && Contents(t)[r.key] == r.value
  {
    match t
    case Leaf => Leaf
    case Node(key, _, _, l, rt) =>
      if k == key then t
      else if k < key then Floor(l, k)
      else
        var f := Floor(rt, k);
        if f.Node? then f else t
  }

  /** `ceiling(Node, K)`: the node holding the smallest key at least `k`, `Leaf` for none. */
  function Ceiling<V>(t: Tree<V>, k: int): (r: Tree<V>)
    ensures r.Node? ==> r.key in Keys(t) && k <= r.key
    ensures Ordered(t) ==> (r.Leaf? <==> forall x :: x in Keys(t) ==> x < k)
    ensures Ordered(t) && r.Node? ==> IsCeiling(Keys(t), k, r.key) && Contents(t)[r.key] == r.value
  {
    match t
    case Leaf => Leaf
    case Node(key, _, _, l, rt) =>
      if k == key then t
      else if k < key then
        var c := Ceiling(l, k);
        if c.Node? then c else t
      else Ceiling(rt, k)
  }

  /** `put(Node, K, V)`: insert below the path or overwrite in place, then recompute sizes. */
  function Put<V>(t: Tree<V>, k: int, v: V): (r: Tree<V>)
    ensures r.Node? && Keys(r) == Keys(t) + {k}
  {
    match t
    case Leaf => Node(k, v, 1, Leaf, Leaf)
    case Node(key, val, _, l, rt) =>
      if k < key then
        var l' := Put(l, k, v);
        Node(key, val, 1 + Size(l') + Size(rt), l', rt)
      else if k > key then
        var rt' := Put(rt, k, v);
        Node(key, val, 1 + Size(l) + Size(rt'), l, rt')
      else
        Node(key, v, 1 + Size(l) + Size(rt), l, rt)
  }

  /** `deleteMin(Node)`: unlink the leftmost node, recomputing sizes on the way up. */
  function DeleteMin<V>(t: Tree<V>): (r: Tree<V>)
    requires t.Node?
    ensures Count(r) == Count(t) - 1 && Keys(r) <= Keys(t)
  {
    if t.left.Leaf? then t.right
    else
      var l := DeleteMin(t.left);
      Node(t.key, t.value, Size(l) + Size(t.right) + 1, l, t.right)
  }

  /** `deleteMax(Node)`: unlink the rightmost node, recomputing sizes on the way up. */
  function DeleteMax<V>(t: Tree<V>): (r: Tree<V>)
    requires t.Node?
    ensures Count(r) == Count(t) - 1 && Keys(r) <= Keys(t)
  {
    if t.right.Leaf? then t.left
    else
      var rt := DeleteMax(t.right);
      Node(t.key, t.value, Size(t.left) + Size(rt) + 1, t.left, rt)
  }

  /**
   * `delete(Node, K)`: a node with at most one child is replaced by that
   * child; a node with two children is replaced by the minimum node of its
   * right subtree, which takes over both subtrees.
   */
  function Delete<V>(t: Tree<V>, k: int): (r: Tree<V>)
    ensures Keys(r) <= Keys(t)
  {
    match t
    case Leaf => Leaf
    case Node(key, val, _, l, rt) =>
      if k < key then
        var l' := Delete(l, k);
        Node(key, val, Size(l') + Size(rt) + 1, l', rt)
      else if k > key then
        var rt' := Delete(rt, k);
        Node(key, val, Size(l) + Size(rt') + 1, l, rt')
      else if rt.Leaf? then l
      else if l.Leaf? then rt
      else
        var m := MinNode(rt);
        var rt' := DeleteMin(rt);
        Node(m.key, m.value, Size(l) + Size(rt') + 1, l, rt')
  }

  // ----- put -----

  /** Insertion keeps the search-tree ordering. */
  lemma {:induction false} PutOrdered<V>(t: Tree<V>, k: int, v: V)
    requires Ordered(t)
    ensures Ordered(Put(t, k, v))
  {
    match t
    case Leaf =>
    case Node(key, _, _, l, rt) =>
      if k < key { PutOrdered(l, k, v); } else if k > key { PutOrdered(rt, k, v); }
  }

  /** Insertion stores `v` under `k` and leaves every other pair as it was. */
  lemma {:induction false} PutContents<V>(t: Tree<V>, k: int, v: V)
    requires Ordered(t)
    ensures Contents(Put(t, k, v)) == Contents(t)[k := v]
  {
    match t
    case Leaf =>
    case Node(key, val, _, l, rt) =>
      if k < key {
        assert Contents(Put(t, k, v)) == (Contents(Put(l, k, v)) + Contents(rt))[key := val];
        PutContents(l, k, v);
        assert k !in Keys(rt);
        UpdateBelowLeft(Contents(l), Contents(rt), key, val, k, v);
      } else if k > key {
        assert Contents(Put(t, k, v)) == (Contents(l) + Contents(Put(rt, k, v)))[key := val];
        PutContents(rt, k, v);
        UpdateBelowRight(Contents(l), Contents(rt), key, val, k, v);
      }
  }

  /** Insertion recomputes the cached size of every node on its path. */
  lemma {:induction false} PutSizes<V>(t: Tree<V>, k: int, v: V)
    requires SizesOk(t)
    ensures SizesOk(Put(t, k, v))
  {
    match t
    case Leaf =>
    case Node(key, _, _, l, rt) =>
      if k < key { PutSizes(l, k, v); } else if k > key { PutSizes(rt, k, v); }
  }

  /** Overwriting a stored key changes no link and no cached size: only the value. */
  lemma {:induction false} PutPresentKeepsShape<V>(t: Tree<V>, k: int, v: V)
    requires Ordered(t) && SizesOk(t) && k in Keys(t)
    ensures Shape(Put(t, k, v)) == Shape(t)
  {
    match t
    case Node(key, _, _, l, rt) =>
      if k < key { PutPresentKeepsShape(l, k, v); } else if k > key { PutPresentKeepsShape(rt, k, v); }
  }

  /** Putting the same pair twice yields the tree that putting it once does. */
  lemma {:induction false} PutIdempotent<V>(t: Tree<V>, k: int, v: V)
    ensures Put(Put(t, k, v), k, v) == Put(t, k, v)
  {
    match t
    case Leaf =>
    case Node(key, _, _, l, rt) =>
      if k < key { PutIdempotent(l, k, v); } else if k > key { PutIdempotent(rt, k, v); }
  }

  // ----- deleteMin / deleteMax -----

  /** Removing the leftmost node keeps the ordering. */
  lemma {:induction false} DeleteMinOrdered<V>(t: Tree<V>)
    requires t.Node? && Ordered(t)
    ensures Ordered(DeleteMin(t))
  {
    if t.left.Node? { DeleteMinOrdered(t.left); }
  }

  /** Removing the leftmost node removes exactly the minimum key. */
  lemma {:induction false} DeleteMinContents<V>(t: Tree<V>)
    requires t.Node? && Ordered(t)
    ensures Contents(DeleteMin(t)) == Contents(t) - {MinNode(t).key}
  {
    var key, val, l, rt := t.key, t.value, t.left, t.right;
    if l.Node? {
      var m := MinNode(l).key;
      assert Contents(DeleteMin(t)) == (Contents(DeleteMin(l)) + Contents(rt))[key := val];
      DeleteMinContents(l);
      assert m !in Keys(rt);
      RemoveBelowLeft(Contents(l), Contents(rt), key, val, m);
    } else {
      assert Contents(t) == (map[] + Contents(rt))[key := val];
      EmptyUnion(Contents(rt));
      RemoveRoot(map[], Contents(rt), key, val);
    }
  }

  /** `deleteMin` recomputes the cached size of every node it passes. */
  lemma {:induction false} DeleteMinSizes<V>(t: Tree<V>)
    requires t.Node? && SizesOk(t)
    ensures SizesOk(DeleteMin(t))
  {
    if t.left.Node? { DeleteMinSizes(t.left); }
  }

  /** Removing the rightmost node keeps the ordering. */
  lemma {:induction false} DeleteMaxOrdered<V>(t: Tree<V>)
    requires t.Node? && Ordered(t)
    ensures Ordered(DeleteMax(t))
  {
    if t.right.Node? { DeleteMaxOrdered(t.right); }
  }

  /** Removing the rightmost node removes exactly the maximum key. */
  lemma {:induction false} DeleteMaxContents<V>(t: Tree<V>)
    requires t.Node? && Ordered(t)
    ensures Contents(DeleteMax(t)) == Contents(t) - {MaxNode(t).key}
  {
    var key, val, l, rt := t.key, t.value, t.left, t.right;
    if rt.Node? {
      var m := MaxNode(rt).key;
      assert Contents(DeleteMax(t)) == (Contents(l) + Contents(DeleteMax(rt)))[key := val];
      DeleteMaxContents(rt);
      assert m !in Keys(l);
      RemoveBelowRight(Contents(l), Contents(rt), key, val, m);
    } else {
      assert Contents(t) == (Contents(l) + map[])[key := val];
      EmptyUnion(Contents(l));
      RemoveRoot(Contents(l), map[], key, val);
    }
  }

  /** `deleteMax` recomputes the cached size of every node it passes. */
  lemma {:induction false} DeleteMaxSizes<V>(t: Tree<V>)
    requires t.Node? && SizesOk(t)
    ensures SizesOk(DeleteMax(t))
  {
    if t.right.Node? { DeleteMaxSizes(t.right); }
  }

  // ----- delete -----

  /** Deletion keeps the ordering; in the two-child case the successor sits between the subtrees. */
  lemma {:induction false} DeleteOrdered<V>(t: Tree<V>, k: int)
    requires Ordered(t)
    ensures Ordered(Delete(t, k))
  {
    match t
    case Leaf =>
    case Node(key, _, _, l, rt) =>
      if k < key { DeleteOrdered(l, k); }
      else if k > key { DeleteOrdered(rt, k); }
      else if l.Node? && rt.Node? {
        var m := MinNode(rt);
        DeleteMinOrdered(rt);
        DeleteMinContents(rt);
        forall x | x in Keys(DeleteMin(rt)) ensures m.key < x {
          assert x in Contents(DeleteMin(rt));
        }
      }
  }

  /** Deletion removes exactly the pair stored under `k`, and nothing when `k` is absent. */
  lemma {:induction false} DeleteContents<V>(t: Tree<V>, k: int)
    requires Ordered(t)
    ensures Contents(Delete(t, k)) == Contents(t) - {k}
  {
    match t
    case Leaf =>
    case Node(key, val, _, l, rt) =>
      if k < key {
        assert Contents(Delete(t, k)) == (Contents(Delete(l, k)) + Contents(rt))[key := val];
        DeleteContents(l, k);
        assert k !in Keys(rt);
        RemoveBelowLeft(Contents(l), Contents(rt), key, val, k);
      } else if k > key {
        assert Contents(Delete(t, k)) == (Contents(l) + Contents(Delete(rt, k)))[key := val];
        DeleteContents(rt, k);
        assert k !in Keys(l);
        RemoveBelowRight(Contents(l), Contents(rt), key, val, k);
      } else {
        assert key !in Keys(l) && key !in Keys(rt);
        RemoveRoot(Contents(l), Contents(rt), key, val);
        if rt.Leaf? {
          EmptyUnion(Contents(l));
        } else if l.Leaf? {
          EmptyUnion(Contents(rt));
        } else {
          var m := MinNode(rt);
          assert Contents(Delete(t, k)) == (Contents(l) + Contents(DeleteMin(rt)))[m.key := m.value];
          DeleteMinContents(rt);
          assert m.key !in Keys(l);
          Promote(Contents(l), Contents(rt), m.key);
        }
      }
  }

  /** Deletion recomputes the cached size of every node it passes. */
  lemma {:induction false} DeleteSizes<V>(t: Tree<V>, k: int)
    requires SizesOk(t)
    ensures SizesOk(Delete(t, k))
  {
    match t
    case Leaf =>
    case Node(key, _, _, l, rt) =>
      if k < key { DeleteSizes(l, k); }
      else if k > key { DeleteSizes(rt, k); }
      else if l.Node? && rt.Node? { DeleteMinSizes(rt); }
  }

  /** Deleting an absent key rebuilds exactly the tree it was given. */
  lemma {:induction false} DeleteAbsent<V>(t: Tree<V>, k: int)
    requires SizesOk(t) && k !in Keys(t)
    ensures Delete(t, k) == t
  {
    match t
    case Leaf =>
    case Node(key, _, _, l, rt) =>
      if k < key { DeleteAbsent(l, k); } else { DeleteAbsent(rt, k); }
  }

  /** In the two-child case the promoted key is the in-order successor of the deleted one. */
  lemma PromotesSuccessor<V>(t: Tree<V>)
    requires Ordered(t) && t.Node? && t.left.Node? && t.right.Node?
    ensures Delete(t, t.key).Node?
    ensures var s := Delete(t, t.key).key;
      t.key < s && s in Keys(t) && forall x :: x in Keys(t) && t.key < x ==> s <= x
    ensures var d := Delete(t, t.key);
      d.key == MinNode(t.right).key && d.value == Contents(t)[d.key] && d.left == t.left
  {
  }
}
