/**
 * The algs4-style `BST` (src/sw/BST.java) on the heap: nodes are objects
 * whose fields the recursive helpers overwrite, and each helper returns the
 * node that the caller links back in (`root = ...`, `x.left = ...`).
 *
 * A node's ghost `model` is the value its subtree denotes and `Repr` is the
 * set of nodes in that subtree. Each helper is proved against the matching
 * function of `SwTree`; the map's invariants (search-tree ordering and
 * correct cached sizes) live in `BST.Valid`.
 */
module SwBst {
  import opened Failures
  import Trees
  import SwTree

  class Node<V> {
    var key: int
    var value: V
    var left: Node?<V>
    var right: Node?<V>
    var size: int
    ghost var Repr: set<object>
    ghost var model: Trees.Tree<V>

    /** The children own disjoint sets of nodes, and `model` mirrors the fields. */
    ghost predicate Valid()
      reads this, Repr
      decreases Repr
    {
      this in Repr &&
      (left != null ==> left in Repr && left.Repr <= Repr && this !in left.Repr && left.Valid()) &&
      (right != null ==> right in Repr && right.Repr <= Repr && this !in right.Repr && right.Valid()) &&
      (left != null && right != null ==> left.Repr !! right.Repr) &&
      model == Trees.Node(key, value, size, ModelOf(left), ModelOf(right))
    }

    /** `Node(K, V, int)`: a node with null children and the given cached size. */
    constructor (key: int, value: V, size: int)
      ensures Valid() && fresh(Repr)
      ensures model == Trees.Node(key, value, size, Trees.Leaf, Trees.Leaf)
    {
      this.key := key;
      this.value := value;
      this.size := size;
      left := null;
      right := null;
      Repr := {this};
      model := Trees.Node(key, value, size, Trees.Leaf, Trees.Leaf);
    }
  }

  /** The value a possibly-null subtree denotes. */
  ghost function ModelOf<V>(x: Node?<V>): Trees.Tree<V>
    reads x
  {
    if x == null then Trees.Leaf else x.model
  }

  /** The nodes of a possibly-null subtree. */
  ghost function ReprOf<V>(x: Node?<V>): set<object>
    reads x
  {
    if x == null then {} else x.Repr
  }

  /** A missing key becomes the exception `get(Node, K)` throws. */
  function OrThrow<V>(o: Option<V>): Result<V>
  {
    match o
    case Some(v) => Ok(v)
    case None => Err(NoSuchElement)
  }

  /** `size(Node)`: 0 for null, the cached field otherwise. */
  function SizeOf<V>(x: Node?<V>): (n: int)
    reads x, if x == null then {} else x.Repr
    requires x != null ==> x.Valid()
    ensures n == Trees.Size(ModelOf(x))
  {
    if x == null then 0 else x.size
  }

  /** `get(Node, K)`: follows the comparison path and throws where it falls off the tree. */
  function GetFrom<V>(x: Node?<V>, k: int): (r: Result<V>)
    reads x, if x == null then {} else x.Repr
    requires x != null ==> x.Valid()
    decreases ReprOf(x)
    ensures r == OrThrow(SwTree.Get(ModelOf(x), k))
  {
    if x == null then Err(NoSuchElement)
    else if k == x.key then Ok(x.value)
    else if k < x.key then GetFrom(x.left, k)
    else GetFrom(x.right, k)
  }

  /** `min(Node)`: the leftmost node of a non-null subtree. */
  function MinOf<V>(x: Node<V>): (m: Node<V>)
    reads x, x.Repr
    requires x.Valid()
    decreases x.Repr
    ensures m in x.Repr && m.Repr <= x.Repr && m.Valid() && m.model == SwTree.MinNode(x.model)
  {
    if x.left == null then x else MinOf(x.left)
  }

  /** `max(Node)`: the rightmost node of a non-null subtree. */
  function MaxOf<V>(x: Node<V>): (m: Node<V>)
    reads x, x.Repr
    requires x.Valid()
    decreases x.Repr
    ensures m in x.Repr && m.Repr <= x.Repr && m.Valid() && m.model == SwTree.MaxNode(x.model)
  {
    if x.right == null then x else MaxOf(x.right)
  }

  /** `floor(Node, K)`: the node with the largest key at most `k`, or null. */
  function FloorOf<V>(x: Node?<V>, k: int): (r: Node?<V>)
    reads x, if x == null then {} else x.Repr
    requires x != null ==> x.Valid()
    decreases ReprOf(x)
    ensures r != null ==> r in ReprOf(x) && r.Repr <= ReprOf(x) && r.Valid()
    ensures ModelOf(r) == SwTree.Floor(ModelOf(x), k)
  {
    if x == null then null
    else if k == x.key then x
    else if k < x.key then FloorOf(x.left, k)
    else
      var t := FloorOf(x.right, k);
      if t != null then t else x
  }

  /** `ceiling(Node, K)`: the node with the smallest key at least `k`, or null. */
  function CeilingOf<V>(x: Node?<V>, k: int): (r: Node?<V>)
    reads x, if x == null then {} else x.Repr
    requires x != null ==> x.Valid()
    decreases ReprOf(x)
    ensures r != null ==> r in ReprOf(x) && r.Repr <= ReprOf(x) && r.Valid()
    ensures ModelOf(r) == SwTree.Ceiling(ModelOf(x), k)
  {
    if x == null then null
    else if k == x.key then x
    else if k < x.key then
      var t := CeilingOf(x.left, k);
      if t != null then t else x
    else CeilingOf(x.right, k)
  }

  /**
   * The step every mutating helper ends with: `x` is re-linked above `l` and
   * `r` and its cached size is recomputed from theirs; its footprint and
   * model follow its fields.
   */
  method Link<V>(x: Node<V>, l: Node?<V>, r: Node?<V>)
    requires l != null ==> l.Valid() && x !in l.Repr
    requires r != null ==> r.Valid() && x !in r.Repr
    requires l != null && r != null ==> l.Repr !! r.Repr
    modifies x
    ensures x.Valid() && x.left == l && x.right == r
    ensures x.Repr == {x} + ReprOf(l) + ReprOf(r)
    ensures x.model == Trees.Node(old(x.key), old(x.value), Trees.Size(ModelOf(l)) + Trees.Size(ModelOf(r)) + 1, ModelOf(l), ModelOf(r))
  {
    var n := SizeOf(l) + SizeOf(r) + 1;
    x.left, x.right, x.size := l, r, n;
    x.Repr, x.model := {x} + ReprOf(l) + ReprOf(r), Trees.Node(x.key, x.value, n, ModelOf(l), ModelOf(r));
  }

  /** `put(Node, K, V)`: overwrites fields on the search path and returns the subtree's root. */
  method PutInto<V>(x: Node?<V>, k: int, v: V) returns (r: Node<V>)
    requires x != null ==> x.Valid()
    modifies ReprOf(x)
    decreases ReprOf(x)
    ensures r.Valid() && fresh(r.Repr - old(ReprOf(x)))
    ensures r.model == SwTree.Put(old(ModelOf(x)), k, v)
  {
    if x == null {
      r := new Node(k, v, 1);
      return;
    }
    ghost var t := x.model;
    var left, right := x.left, x.right;
    if k < x.key {
      left := PutInto(left, k, v);
    } else if k > x.key {
      right := PutInto(right, k, v);
    } else {
      x.value := v;
    }
    Link(x, left, right);
    r := x;
  }

  /**
   * `deleteMin(Node)`: unlinks the leftmost node, which is itself left
   * untouched, and recomputes the sizes of the nodes above it.
   */
  method DeleteMinOf<V>(x: Node<V>) returns (r: Node?<V>)
    requires x.Valid()
    modifies x.Repr
    decreases x.Repr
    ensures r != null ==> r.Valid()
    ensures ModelOf(r) == SwTree.DeleteMin(old(x.model))
    ensures ReprOf(r) <= old(x.Repr) && old(MinOf(x)) !in ReprOf(r)
    ensures unchanged(old(MinOf(x)))
  {
    if x.left == null {
      return x.right;
    }
    var left := DeleteMinOf(x.left);
    Link(x, left, x.right);
    r := x;
  }

  /** `deleteMax(Node)`: unlinks the rightmost node and recomputes the sizes above it. */
  method DeleteMaxOf<V>(x: Node<V>) returns (r: Node?<V>)
    requires x.Valid()
    modifies x.Repr
    decreases x.Repr
    ensures r != null ==> r.Valid()
    ensures ModelOf(r) == SwTree.DeleteMax(old(x.model))
    ensures ReprOf(r) <= old(x.Repr)
  {
    if x.right == null {
      return x.left;
    }
    var right := DeleteMaxOf(x.right);
    Link(x, x.left, right);
    r := x;
  }

  /**
   * The two-child case of `delete(Node, K)`: the existing minimum node of
   * `x.right` is unlinked there and re-linked above both of `x`'s subtrees
   * (no node is allocated).
   */
  method ReplaceBySuccessor<V>(x: Node<V>) returns (r: Node<V>)
    requires x.Valid() && x.left != null && x.right != null
    modifies x.Repr
    ensures r.Valid() && r.Repr <= old(x.Repr)
    ensures r.model == SwTree.Delete(old(x.model), old(x.key))
    ensures r == old(MinOf(x.right))
  {
    var t := x;
    r := MinOf(t.right);
    var right := DeleteMinOf(t.right);
    Link(r, t.left, right);
  }

  /** `delete(Node, K)`: removes `k` from the subtree and returns the subtree's new root. */
  method DeleteFrom<V>(x: Node?<V>, k: int) returns (r: Node?<V>)
    requires x != null ==> x.Valid()
    modifies ReprOf(x)
    decreases ReprOf(x)
    ensures r != null ==> r.Valid()
    ensures ModelOf(r) == SwTree.Delete(old(ModelOf(x)), k)
    ensures ReprOf(r) <= old(ReprOf(x))
  {
    if x == null {
      return null;
    }
    if k < x.key {
      var left := DeleteFrom(x.left, k);
      Link(x, left, x.right);
      r := x;
    } else if k > x.key {
      var right := DeleteFrom(x.right, k);
      Link(x, x.left, right);
      r := x;
    } else if x.right == null {
      r := x.left;
    } else if x.left == null {
      r := x.right;
    } else {
      r := ReplaceBySuccessor(x);
    }
  }

  /**
   * `BST<K, V>`: the map object that owns the root. Its invariant is the
   * search-tree ordering and correct cached sizes of the tree it denotes.
   * Stored values are never null: `put` with a null value deletes instead.
   */
  class BST<V> {
    var root: Node?<V>
    ghost var Repr: set<object>

    ghost predicate Valid()
      reads this, Repr
    {
      this in Repr &&
      (root != null ==> root in Repr && root.Repr <= Repr && this !in root.Repr && root.Valid()) &&
      Trees.Ordered(ModelOf(root)) && Trees.SizesOk(ModelOf(root))
    }

    /** The tree the map denotes. */
    ghost function Model(): Trees.Tree<V>
      reads this, root
    {
      ModelOf(root)
    }

    /** The key/value pairs the map holds. */
    ghost function Contents(): map<int, V>
      reads this, root
    {
      Trees.Contents(Model())
    }

    /** The implicit constructor: an empty map. */
    constructor ()
      ensures Valid() && fresh(Repr) && Contents() == map[]
    {
      root := null;
      Repr := {this};
    }

    /** `size()`: the number of entries. */
    function Size(): (n: int)
      reads Repr
      requires Valid()
      ensures n == |Contents()|
    {
      Trees.SizeIsEntries(Model());
      SizeOf(root)
    }

    /** `isEmpty()`. */
    function IsEmpty(): (b: bool)
      reads Repr
      requires Valid()
      ensures b <==> Contents() == map[]
    {
      Size() == 0
    }

    /** `get(K)`: a null key is rejected, an absent key throws. */
    function Get(key: Option<int>): (r: Result<V>)
      reads Repr
      requires Valid()
      ensures key.None? ==> r == Err(IllegalArgument)
      ensures key.Some? ==> (r.Ok? <==> key.value in Contents())
      ensures key.Some? && r.Ok? ==> r.value == Contents()[key.value]
      ensures key.Some? && r.Err? ==> r.error == NoSuchElement
    {
      if key.None? then Err(IllegalArgument) else GetFrom(root, key.value)
    }

    /**
     * `contains(K)` as written: `get(key) != null`. Stored values are never
     * null, and `get` throws on an absent key, so the answer is never false.
     */
    function Contains(key: Option<int>): (r: Result<bool>)
      reads Repr
      requires Valid()
      ensures key.None? ==> r == Err(IllegalArgument)
      ensures key.Some? ==> (r == Ok(true) <==> key.value in Contents())
      ensures key.Some? && key.value !in Contents() ==> r == Err(NoSuchElement)
      ensures r != Ok(false)
    {
      match Get(key)
      case Ok(_) => Ok(true)
      case Err(e) => Err(e)
    }

    /** `contains(K)` as an ordered map promises it: membership, and no exception for an absent key. */
    function ContainsIntended(key: Option<int>): (r: Result<bool>)
      reads Repr
      requires Valid()
      ensures key.None? ==> r == Err(IllegalArgument)
      ensures key.Some? ==> r == Ok(key.value in Contents())
    {
      if key.None? then Err(IllegalArgument)
      else Ok(GetFrom(root, key.value).Ok?)
    }

    /** `min()`: the smallest key; an empty map throws. */
    function Min(): (r: Result<int>)
      reads Repr
      requires Valid()
      ensures r.Err? <==> Contents() == map[]
      ensures r.Err? ==> r.error == NoSuchElement
      ensures r.Ok? ==> r.value in Contents() && forall x :: x in Contents() ==> r.value <= x
    {
      if IsEmpty() then Err(NoSuchElement) else Ok(MinOf(root).key)
    }

    /** `max()`: the largest key; an empty map throws. */
    function Max(): (r: Result<int>)
      reads Repr
      requires Valid()
      ensures r.Err? <==> Contents() == map[]
      ensures r.Err? ==> r.error == NoSuchElement
      ensures r.Ok? ==> r.value in Contents() && forall x :: x in Contents() ==> x <= r.value
    {
      if IsEmpty() then Err(NoSuchElement) else Ok(MaxOf(root).key)
    }

    /** `floor(K)`: the largest key at most `key`; null key, empty map and no such key each throw. */
    function Floor(key: Option<int>): (r: Result<int>)
      reads Repr
      requires Valid()
      ensures key.None? ==> r == Err(IllegalArgument)
      ensures key.Some? ==> (r.Ok? <==> exists x :: x in Contents() && x <= key.value)
      ensures key.Some? && r.Ok? ==> Trees.IsFloor(Contents().Keys, key.value, r.value)
      ensures key.Some? && r.Err? ==> r.error == NoSuchElement
    {
      if key.None? then Err(IllegalArgument)
      else if IsEmpty() then Err(NoSuchElement)
      else
        var x := FloorOf(root, key.value);
        if x == null then Err(NoSuchElement) else Ok(x.key)
    }

    /** `ceiling(K)`: the smallest key at least `key`; null key, empty map and no such key each throw. */
    function Ceiling(key: Option<int>): (r: Result<int>)
      reads Repr
      requires Valid()
      ensures key.None? ==> r == Err(IllegalArgument)
      ensures key.Some? ==> (r.Ok? <==> exists x :: x in Contents() && key.value <= x)
      ensures key.Some? && r.Ok? ==> Trees.IsCeiling(Contents().Keys, key.value, r.value)
      ensures key.Some? && r.Err? ==> r.error == NoSuchElement
    {
      if key.None? then Err(IllegalArgument)
      else if IsEmpty() then Err(NoSuchElement)
      else
        var x := CeilingOf(root, key.value);
        if x == null then Err(NoSuchElement) else Ok(x.key)
    }

    /** `put(K, V)`: a null key throws, a null value deletes the key, otherwise the entry is set. */
    method Put(key: Option<int>, value: Option<V>) returns (r: Result<()>)
      requires Valid()
      modifies Repr
      ensures Valid() && fresh(Repr - old(Repr))
      ensures key.None? ==> r == Err(IllegalArgument) && Model() == old(Model())
      ensures key.Some? && value.Some? ==> r == Ok(()) && Model() == SwTree.Put(old(Model()), key.value, value.value)
      ensures key.Some? && value.None? ==> r == Ok(()) && Model() == SwTree.Delete(old(Model()), key.value)
      ensures key.Some? && value.Some? ==> Contents() == old(Contents())[key.value := value.value]
      ensures key.Some? && value.None? ==> Contents() == old(Contents()) - {key.value}
    {
      if key.None? {
        return Err(IllegalArgument);
      }
      if value.None? {
        r := Delete(key);
        return;
      }
      ghost var t := Model();
      root := PutInto(root, key.value, value.value);
      Repr := Repr + root.Repr;
      SwTree.PutOrdered(t, key.value, value.value);
      SwTree.PutSizes(t, key.value, value.value);
      SwTree.PutContents(t, key.value, value.value);
      r := Ok(());
    }

    /** `deleteMin()`: an empty map throws; otherwise the smallest key is removed. */
    method DeleteMin() returns (r: Result<()>)
      requires Valid()
      modifies Repr
      ensures Valid() && Repr <= old(Repr)
      ensures r.Err? <==> old(Contents()) == map[]
      ensures r.Err? ==> r.error == NoSuchElement && Model() == old(Model())
      ensures r.Ok? ==> Model() == SwTree.DeleteMin(old(Model()))
      ensures r.Ok? ==> Contents() == old(Contents()) - {SwTree.MinNode(old(Model())).key}
    {
      if IsEmpty() {
        return Err(NoSuchElement);
      }
      DeleteMinAtRoot();
      r := Ok(());
    }

    /** `root = deleteMin(root)` on a non-empty map. */
    method DeleteMinAtRoot()
      requires Valid() && root != null
      modifies Repr
      ensures Valid() && Repr <= old(Repr)
      ensures Model() == SwTree.DeleteMin(old(Model()))
      ensures Contents() == old(Contents()) - {SwTree.MinNode(old(Model())).key}
    {
      ghost var t := Model();
      root := DeleteMinOf(root);
      SwTree.DeleteMinOrdered(t);
      SwTree.DeleteMinSizes(t);
      SwTree.DeleteMinContents(t);
    }

    /** `deleteMax()`: an empty map throws; otherwise the largest key is removed. */
    method DeleteMax() returns (r: Result<()>)
      requires Valid()
      modifies Repr
      ensures Valid() && Repr <= old(Repr)
      ensures r.Err? <==> old(Contents()) == map[]
      ensures r.Err? ==> r.error == NoSuchElement && Model() == old(Model())
      ensures r.Ok? ==> Model() == SwTree.DeleteMax(old(Model()))
      ensures r.Ok? ==> Contents() == old(Contents()) - {SwTree.MaxNode(old(Model())).key}
    {
      if IsEmpty() {
        return Err(NoSuchElement);
      }
      DeleteMaxAtRoot();
      r := Ok(());
    }

    /** `root = deleteMax(root)` on a non-empty map. */
    method DeleteMaxAtRoot()
      requires Valid() && root != null
      modifies Repr
      ensures Valid() && Repr <= old(Repr)
      ensures Model() == SwTree.DeleteMax(old(Model()))
      ensures Contents() == old(Contents()) - {SwTree.MaxNode(old(Model())).key}
    {
      ghost var t := Model();
      root := DeleteMaxOf(root);
      SwTree.DeleteMaxOrdered(t);
      SwTree.DeleteMaxSizes(t);
      SwTree.DeleteMaxContents(t);
    }

    /** `delete(K)`: a null key throws; otherwise the key is removed if present. */
    method Delete(key: Option<int>) returns (r: Result<()>)
      requires Valid()
      modifies Repr
      ensures Valid() && Repr <= old(Repr)
      ensures key.None? ==> r == Err(IllegalArgument) && Model() == old(Model())
      ensures key.Some? ==> r == Ok(()) && Model() == SwTree.Delete(old(Model()), key.value)
      ensures key.Some? ==> Contents() == old(Contents()) - {key.value}
      ensures key.Some? && key.value !in old(Contents()) ==> Model() == old(Model())
    {
      if key.None? {
        return Err(IllegalArgument);
      }
      ghost var t := Model();
      root := DeleteFrom(root, key.value);
      SwTree.DeleteOrdered(t, key.value);
      SwTree.DeleteSizes(t, key.value);
      SwTree.DeleteContents(t, key.value);
      if key.value !in Trees.Keys(t) {
        SwTree.DeleteAbsent(t, key.value);
      }
      r := Ok(());
    }
  }
}
