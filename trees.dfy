/**
 * The value a binary search tree denotes, shared by both implementations:
 * a subtree is either absent (`Leaf`: a null child, or an `Empty` object)
 * or a node with a key, a value, a cached subtree size and two children.
 */
module Trees {

  datatype Tree<V> = Leaf | Node(key: int, value: V, size: int, left: Tree<V>, right: Tree<V>)

  /** The keys stored in a subtree. */
  function Keys<V>(t: Tree<V>): set<int>
  {
    match t
    case Leaf => {}
    case Node(k, _, _, l, r) => Keys(l) + {k} + Keys(r)
  }

  /** The key/value pairs stored in a subtree (a node's own pair wins over its children's). */
  function Contents<V>(t: Tree<V>): (m: map<int, V>)
    ensures m.Keys == Keys(t)
  {
    match t
    case Leaf => map[]
    case Node(k, v, _, l, r) => (Contents(l) + Contents(r))[k := v]
  }

  /** The number of nodes actually present. */
  function Count<V>(t: Tree<V>): nat
  {
    match t
    case Leaf => 0
    case Node(_, _, _, l, r) => 1 + Count(l) + Count(r)
  }

  /** The cached size as a caller reads it: 0 for an absent child, the node's field otherwise. */
  function Size<V>(t: Tree<V>): int
  {
    match t
    case Leaf => 0
    case Node(_, _, s, _, _) => s
  }

  /** Search-tree ordering: left keys are smaller, right keys are larger, at every node. */
  predicate Ordered<V>(t: Tree<V>)
  {
    match t
    case Leaf => true
    case Node(k, _, _, l, r) =>
      Ordered(l) && Ordered(r) &&
      (forall x :: x in Keys(l) ==> x < k) &&
      (forall x :: x in Keys(r) ==> k < x)
  }

  /** Size bookkeeping: every node caches one plus its children's sizes. */
  predicate SizesOk<V>(t: Tree<V>)
  {
    match t
    case Leaf => true
    case Node(_, _, s, l, r) => s == 1 + Size(l) + Size(r) && SizesOk(l) && SizesOk(r)
  }

  /** The tree with every value erased: keys, cached sizes and links only. */
  function Shape<V>(t: Tree<V>): Tree<()>
  {
    match t
    case Leaf => Leaf
    case Node(k, _, s, l, r) => Node(k, (), s, Shape(l), Shape(r))
  }

  /** The tree with every cached size erased: keys, values and links only. */
  function Unsized<V>(t: Tree<V>): (u: Tree<V>)
    ensures Keys(u) == Keys(t) && Contents(u) == Contents(t) && Count(u) == Count(t)
    ensures Ordered(u) == Ordered(t)
  {
    match t
    case Leaf => Leaf
    case Node(k, v, _, l, r) => Node(k, v, 0, Unsized(l), Unsized(r))
  }

  /** `f` is the largest key of `s` that is at most `k`. */
  predicate IsFloor(s: set<int>, k: int, f: int)
  {
    f in s && f <= k && forall x :: x in s && x <= k ==> x <= f
  }

  /** `c` is the smallest key of `s` that is at least `k`. */
  predicate IsCeiling(s: set<int>, k: int, c: int)
  {
    c in s && k <= c && forall x :: x in s && k <= x ==> c <= x
  }

  /** With correct bookkeeping the cached size is the number of nodes. */
  lemma {:induction false} SizeIsCount<V>(t: Tree<V>)
    requires SizesOk(t)
    ensures Size(t) == Count(t)
  {
    match t
    case Leaf =>
    case Node(_, _, _, l, r) =>
      SizeIsCount(l);
      SizeIsCount(r);
  }

  /** In an ordered tree no key is stored twice, so the node count is the number of keys. */
  lemma {:induction false} CountIsCardinality<V>(t: Tree<V>)
    requires Ordered(t)
    ensures Count(t) == |Keys(t)|
  {
    match t
    case Leaf =>
    case Node(k, _, _, l, r) =>
      CountIsCardinality(l);
      CountIsCardinality(r);
      assert Keys(l) !! Keys(r) by {
        forall x | x in Keys(l) ensures x !in Keys(r) { }
      }
      DisjointCardinality(Keys(l), Keys(r), k);
  }

  /** Joining two disjoint key sets and one fresh key adds their sizes and one. */
  lemma DisjointCardinality(a: set<int>, b: set<int>, k: int)
    requires a !! b && k !in a && k !in b
    ensures |a + {k} + b| == |a| + |b| + 1
  {
    assert |a + b| == |a| + |b|;
    assert a + {k} + b == (a + b) + {k};
  }

  /** The cached size at the root of a well-kept ordered tree is the number of entries. */
  lemma SizeIsEntries<V>(t: Tree<V>)
    requires Ordered(t) && SizesOk(t)
    ensures Size(t) == |Contents(t)|
  {
    SizeIsCount(t);
    CountIsCardinality(t);
    assert |Contents(t).Keys| == |Contents(t)|;
  }

  // Map identities used when a subtree's contents change below a node.

  lemma UpdateBelowLeft<V>(a: map<int, V>, b: map<int, V>, key: int, val: V, k: int, v: V)
    requires k !in b && k != key
    ensures (a[k := v] + b)[key := val] == ((a + b)[key := val])[k := v]
  {
  }

  lemma UpdateBelowRight<V>(a: map<int, V>, b: map<int, V>, key: int, val: V, k: int, v: V)
    requires k != key
    ensures (a + b[k := v])[key := val] == ((a + b)[key := val])[k := v]
  {
  }

  lemma RemoveBelowLeft<V>(a: map<int, V>, b: map<int, V>, key: int, val: V, k: int)
    requires k !in b && k != key
    ensures ((a - {k}) + b)[key := val] == ((a + b)[key := val]) - {k}
  {
  }

  lemma RemoveBelowRight<V>(a: map<int, V>, b: map<int, V>, key: int, val: V, k: int)
    requires k !in a && k != key
    ensures (a + (b - {k}))[key := val] == ((a + b)[key := val]) - {k}
  {
  }

  lemma RemoveRoot<V>(a: map<int, V>, b: map<int, V>, key: int, val: V)
    requires key !in a && key !in b
    ensures (a + b)[key := val] - {key} == a + b
  {
  }

  lemma Promote<V>(a: map<int, V>, b: map<int, V>, m: int)
    requires m in b && m !in a
    ensures (a + (b - {m}))[m := b[m]] == a + b
  {
  }

  lemma EmptyUnion<V>(b: map<int, V>)
    ensures map[] + b == b && b + map[] == b
  {
  }
}
