/**
 * The polymorphic tree of src/modern/Node.java on the heap. Every child is
 * an `OrderedMap` object, either a `Node` or an `Empty`; here a null child
 * stands for an `Empty` (assumed stateless, so the one `Empty` a fresh node
 * shares between both children needs no object of its own). The mutators
 * are methods that overwrite this node's fields and return the subtree that
 * replaces it; each is proved against the matching function of `ModernTree`
 * (or of `SwTree` where the two files walk the tree the same way).
 */
module ModernNode {
  import opened Failures
  import Trees
  import SwTree
  import ModernTree

  class Node<V> {
    var key: int
    var value: Option<V>
    var size: int
    var left: Node?<V>
    var right: Node?<V>
    ghost var Repr: set<object>
    ghost var model: Trees.Tree<Option<V>>

    /** The children own disjoint sets of nodes, and `model` mirrors the fields. */
    ghost predicate Valid()
      reads this, Repr
      decreases Repr
    {
      this in Repr &&
      (left != null ==> left in Repr && left.Repr <= Repr && this !in left.Repr && left.Valid()) &&
      (right != null ==> right in Repr && right.Repr <= Repr && this !in right.Repr && right.Valid()) &&
      (left != null && right != null ==> left.Repr !! right.Repr) &&
      model == Trees.Node(key, value, size, ModelOf(left), ModelOf(right))
    }

    /** `Node(K, V)`: a one-entry map with size 1 and two empty children. */
    constructor (key: int, value: Option<V>)
      ensures Valid() && fresh(Repr)
      ensures model == Trees.Node(key, value, 1, Trees.Leaf, Trees.Leaf)
    {
      this.key := key;
      this.value := value;
      this.left := null;
      this.right := null;
      this.size := 1;
      Repr := {this};
      model := Trees.Node(key, value, 1, Trees.Leaf, Trees.Leaf);
    }

    /** `Node(K, V, int, OrderedMap, OrderedMap)`: a node above two existing subtrees, with the size it is given. */
    constructor Full(key: int, value: Option<V>, size: int, left: Node?<V>, right: Node?<V>)
      requires left != null ==> left.Valid()
      requires right != null ==> right.Valid()
      requires left != null && right != null ==> left.Repr !! right.Repr
      ensures Valid() && fresh(Repr - ReprOf(left) - ReprOf(right))
      ensures model == Trees.Node(key, value, size, ModelOf(left), ModelOf(right))
    {
      this.key := key;
      this.value := value;
      this.size := size;
      this.left := left;
      this.right := right;
      Repr := {this} + ReprOf(left) + ReprOf(right);
      model := Trees.Node(key, value, size, ModelOf(left), ModelOf(right));
    }

    /** `size()`: the cached field, which is the number of entries only while the sizes are kept. */
    function Size(): (n: int)
      reads this, Repr
      requires Valid()
      ensures n == Trees.Size(model)
      ensures ModernTree.SizesCover(model) ==> n >= Trees.Count(model)
      ensures Trees.SizesOk(model) && Trees.Ordered(model) ==> n == |Trees.Contents(model)|
    {
      EntriesWhenKept(model);
      size
    }

    /** `isEmpty()`: a node always holds at least its own entry. */
    function IsEmpty(): (b: bool)
      reads this, Repr
      requires Valid()
      ensures !b && key in Trees.Contents(model)
    {
      false
    }

    /** `get(K)`: a null key throws; an `Empty` child answers null. */
    function Get(key: Option<int>): (r: Result<Option<V>>)
      reads this, Repr
      requires Valid()
      decreases Repr
      ensures key.None? ==> r == Err(IllegalArgument)
      ensures key.Some? ==> r == Ok(ModernTree.Lookup(model, key.value))
      ensures key.Some? && Trees.Ordered(model) ==>
        r == Ok(if key.value in Trees.Contents(model) then Trees.Contents(model)[key.value] else None)
    {
      if key.None? then Err(IllegalArgument)
      else if key.value == this.key then Ok(value)
      else if key.value < this.key then
        (if left == null then Ok(None) else left.Get(key))
      else
        (if right == null then Ok(None) else right.Get(key))
    }

    /**
     * `contains(K)`: `get(key) != null`, so a key this map stores with a
     * null value is reported absent.
     */
    function Contains(key: Option<int>): (r: Result<bool>)
      reads this, Repr
      requires Valid()
      ensures key.None? ==> r == Err(IllegalArgument)
      ensures key.Some? ==> r == Ok(ModernTree.Lookup(model, key.value).Some?)
      ensures key.Some? && Trees.Ordered(model) ==>
        r == Ok(key.value in Trees.Contents(model) && Trees.Contents(model)[key.value].Some?)
    {
      match Get(key)
      case Ok(v) => Ok(v.Some?)
      case Err(e) => Err(e)
    }

    /** `min()`: the key of the leftmost node. */
    function Min(): (m: int)
      reads this, Repr
      requires Valid()
      decreases Repr
      ensures m == SwTree.MinNode(model).key
      ensures Trees.Ordered(model) ==> m in Trees.Keys(model) && forall x :: x in Trees.Keys(model) ==> m <= x
    {
      if left == null then key else left.Min()
    }

    /** `max()`: the key of the rightmost node. */
    function Max(): (m: int)
      reads this, Repr
      requires Valid()
      decreases Repr
      ensures m == SwTree.MaxNode(model).key
      ensures Trees.Ordered(model) ==> m in Trees.Keys(model) && forall x :: x in Trees.Keys(model) ==> x <= m
    {
      if right == null then key else right.Max()
    }

    /** `floor(K)`: left unimplemented; always null. */
    function Floor(key: Option<int>): (r: Option<int>)
      ensures r.None?
    {
      None
    }

    /** `ceiling(K)`: left unimplemented; always null. */
    function Ceiling(key: Option<int>): (r: Option<int>)
      ensures r.None?
    {
      None
    }

    /**
     * The step the mutators end with: this node is re-linked above `l` and
     * `r` and given the cached size `s`; footprint and model follow.
     */
    method Link(l: Node?<V>, r: Node?<V>, s: int)
      requires l != null ==> l.Valid() && this !in l.Repr
      requires r != null ==> r.Valid() && this !in r.Repr
      requires l != null && r != null ==> l.Repr !! r.Repr
      modifies this
      ensures Valid() && left == l && right == r
      ensures Repr == {this} + ReprOf(l) + ReprOf(r)
      ensures model == Trees.Node(old(key), old(value), s, ModelOf(l), ModelOf(r))
    {
      left, right, size := l, r, s;
      Repr, model := {this} + ReprOf(l) + ReprOf(r), Trees.Node(key, value, s, ModelOf(l), ModelOf(r));
    }

    /**
     * `put(K, V)`: a null key throws; otherwise the entry is set on the
     * search path (an `Empty` child becomes a fresh node), the size is
     * recomputed and this node is returned.
     */
    method Put(key: Option<int>, value: Option<V>) returns (r: Result<Node<V>>)
      requires Valid()
      modifies Repr
      decreases Repr
      ensures key.None? ==> r == Err(IllegalArgument) && Valid() && model == old(model)
      ensures key.Some? ==> r == Ok(this) && Valid() && fresh(Repr - old(Repr))
      ensures key.Some? ==> model == SwTree.Put(old(model), key.value, value)
    {
      if key.None? {
        return Err(IllegalArgument);
      }
      var l, rt := left, right;
      if key.value == this.key {
        this.value := value;
      } else if key.value < this.key {
        if l == null {
          l := new Node(key.value, value);
        } else {
          var res := l.Put(key, value);
          l := res.value;
        }
      } else {
        if rt == null {
          rt := new Node(key.value, value);
        } else {
          var res := rt.Put(key, value);
          rt := res.value;
        }
      }
      Link(l, rt, 1 + SizeOf(l) + SizeOf(rt));
      r := Ok(this);
    }

    /** `deleteMin()`: unlinks the leftmost node; no cached size is touched. */
    method DeleteMin() returns (r: Node?<V>)
      requires Valid()
      modifies Repr
      decreases Repr
      ensures r != null ==> r.Valid()
      ensures ModelOf(r) == ModernTree.DeleteMin(old(model))
      ensures ReprOf(r) <= old(Repr)
    {
      if left == null {
        return right;
      }
      var l := left.DeleteMin();
      Link(l, right, size);
      r := this;
    }

    /** `deleteMax()`: unlinks the rightmost node; no cached size is touched. */
    method DeleteMax() returns (r: Node?<V>)
      requires Valid()
      modifies Repr
      decreases Repr
      ensures r != null ==> r.Valid()
      ensures ModelOf(r) == ModernTree.DeleteMax(old(model))
      ensures ReprOf(r) <= old(Repr)
    {
      if right == null {
        return left;
      }
      var rt := right.DeleteMax();
      Link(left, rt, size);
      r := this;
    }

    /**
     * The two-child case of `delete(K)`: a new node takes the minimum of the
     * right subtree, its value, the left subtree, the right subtree after
     * `deleteMin()`, and this node's size minus one.
     */
    method ReplaceBySuccessor() returns (n: Node<V>)
      requires Valid() && left != null && right != null
      modifies Repr
      ensures fresh(n) && n.Valid() && fresh(n.Repr - old(Repr))
      ensures n.model == ModernTree.Delete(old(model), old(key))
    {
      var k := right.Min();
      var v := right.Get(Some(k));
      var newRight := right.DeleteMin();
      // `this.size()` is the field, which `right.deleteMin()` does not reach.
      n := new Node.Full(k, v.value, size - 1, left, newRight);
    }

    /**
     * `delete(K)`: a null key throws; otherwise the key is removed from the
     * subtree and the subtree that replaces this node is returned (an
     * `Empty` child answers itself, here null).
     */
    method Delete(key: Option<int>) returns (r: Result<Node?<V>>)
      requires Valid()
      modifies Repr
      decreases Repr
      ensures key.None? ==> r == Err(IllegalArgument) && Valid() && model == old(model)
      ensures key.Some? ==> r.Ok? && (r.value != null ==> r.value.Valid() && fresh(r.value.Repr - old(Repr)))
      ensures key.Some? ==> ModelOf(r.value) == ModernTree.Delete(old(model), key.value)
      ensures key.Some? && key.value == old(this.key) && old(left) != null && old(right) != null ==>
        r.value != null && fresh(r.value)
    {
      if key.None? {
        return Err(IllegalArgument);
      }
      if key.value < this.key {
        var l := null;
        if left != null {
          var res := left.Delete(key);
          l := res.value;
        }
        Link(l, right, SizeOf(l) + SizeOf(right) + 1);
        r := Ok(this);
      } else if key.value > this.key {
        var rt := null;
        if right != null {
          var res := right.Delete(key);
          rt := res.value;
        }
        Link(left, rt, SizeOf(left) + SizeOf(rt) + 1);
        r := Ok(this);
      } else if right == null {
        r := Ok(left);
      } else if left == null {
        r := Ok(right);
      } else {
        var n := ReplaceBySuccessor();
        r := Ok(n);
      }
    }
  }

  /** While ordering and sizes are kept, the root's cached size is the number of entries. */
  lemma EntriesWhenKept<V>(t: Trees.Tree<V>)
    ensures Trees.SizesOk(t) && Trees.Ordered(t) ==> Trees.Size(t) == |Trees.Contents(t)|
  {
    if Trees.SizesOk(t) && Trees.Ordered(t) {
      Trees.SizeIsEntries(t);
    }
  }

  /** The value a possibly-`Empty` child denotes. */
  ghost function ModelOf<V>(x: Node?<V>): Trees.Tree<Option<V>>
    reads x
  {
    if x == null then Trees.Leaf else x.model
  }

  /** The nodes of a possibly-`Empty` child. */
  ghost function ReprOf<V>(x: Node?<V>): set<object>
    reads x
  {
    if x == null then {} else x.Repr
  }

  /** `size(OrderedMap)` / `child.size()`: an `Empty` child has size 0. */
  function SizeOf<V>(x: Node?<V>): (n: int)
    reads x, if x == null then {} else x.Repr
    requires x != null ==> x.Valid()
    ensures n == Trees.Size(ModelOf(x))
  {
    if x == null then 0 else x.Size()
  }
}
