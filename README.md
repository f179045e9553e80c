# Two mutable binary-search-tree ordered maps, modelled in Dafny

The repository holds two unbalanced binary search trees that map totally
ordered keys to values. Every node caches the size of its subtree.

* `src/sw/BST.java` is the algs4-style tree. A `BST` object owns a `root`
  field, children are null or nodes, and the private recursive helpers
  (`put`, `deleteMin`, `deleteMax`, `delete`) overwrite node fields in place.
  Each helper returns the subtree root for its caller to link back in. A
  two-child `delete` re-links the existing successor node into the vacated
  position.
* `src/modern/Node.java` is the non-empty half of a polymorphic tree. Its
  children are `OrderedMap` objects, either a `Node` or an `Empty`. Each
  mutator returns the map that replaces the node. `floor` and `ceiling` are
  stubs. `deleteMin` and `deleteMax` never touch a cached size. A two-child
  `delete` allocates a fresh node whose size is the old one minus one.

The project has three layers:

* `failures.dfy` (module `Failures`) has `Option`, for Java's null, and
  `Result`, for a returned value or a thrown `IllegalArgumentException` /
  `NoSuchElementException`.
* `trees.dfy`, `sw_tree.dfy` and `modern_tree.dfy` (modules `Trees`, `SwTree`
  and `ModernTree`) describe the trees as values. The datatype is
  `Tree<V> = Leaf | Node(key, value, size, left, right)`. `Keys`, `Contents`
  (a map), `Count` and the cached `Size` say what a tree denotes. `Ordered`
  is the search-tree invariant and `SizesOk` is the size bookkeeping. Each
  recursive helper of both files is a function, and the lemmas prove what
  the helpers guarantee.
* `sw_bst.dfy` and `modern_node.dfy` (modules `SwBst` and `ModernNode`) are
  the heap versions: classes with the source's fields. Each has a ghost
  `model` (the `Tree` a node denotes) and a ghost `Repr` (the nodes it
  owns). Every mutating method is proved to leave the structure well formed
  and to build `model == F(old(model))`, where `F` is the value-layer
  function whose properties are proved.

Keys are `int`, and `compareTo` is integer comparison. A null key is
`Option<int>.None` at every public entry point. BST.java never stores a null
value: `put(k, null)` deletes `k`. Node.java stores whatever it is given, so
its values are `Option<V>`.

`Empty.java` is not part of this model. A null child stands for an `Empty`,
which is assumed to behave as follows:

* it is stateless;
* `size()` is 0 and `isEmpty()` is true;
* `get` answers null;
* `put(k, v)` answers `new Node(k, v)`;
* `delete`, `deleteMin` and `deleteMax` answer the empty map itself.

Node.java is inconsistent about cached sizes. Its own `put`
(src/modern/Node.java:107) and `delete` (src/modern/Node.java:147) recompute
`size` on the way back up, as every mutating helper of BST.java does
(src/sw/BST.java:87, 170, 184, 208). Its `deleteMin` and `deleteMax` do not.
The model follows the code as written (see "## Findings").

## Model

| member | source | states |
|---|---|---|
| Trees.SizeIsCount | src/sw/BST.java:87 | with correct bookkeeping a node's cached size is the number of nodes in its subtree |
| Trees.CountIsCardinality | src/sw/BST.java:37-44 | an ordered tree stores no key twice, so its node count is the number of distinct keys |
| Trees.SizeIsEntries | src/sw/BST.java:37-44 | in an ordered tree with correct sizes the root's cached size is the number of key/value pairs |
| Trees.Unsized | src/modern/Node.java:111-127 | erasing cached sizes keeps keys, contents, node count and ordering |
| SwTree.Get | src/sw/BST.java:56-63 | on an ordered tree the comparison walk finds exactly the value stored under the key, and falls off the tree exactly when the key is absent |
| SwTree.MinNode | src/sw/BST.java:110-115 | the leftmost node has no left child, and in an ordered tree holds the smallest key with its stored value |
| SwTree.MaxNode | src/sw/BST.java:97-102 | the rightmost node has no right child, and in an ordered tree holds the largest key with its stored value |
| SwTree.Floor | src/sw/BST.java:128-136 | the answer is null exactly when every key is above `k`; otherwise it is the largest key at most `k` (checked against the whole key set) with its value |
| SwTree.Ceiling | src/sw/BST.java:149-159 | the answer is null exactly when every key is below `k`; otherwise it is the smallest key at least `k` with its value |
| SwTree.Put | src/sw/BST.java:81-89 | the result is a node whose key set is the old one plus `k` |
| SwTree.DeleteMin | src/sw/BST.java:167-172 | exactly one node goes and no key is added |
| SwTree.DeleteMax | src/sw/BST.java:180-186 | exactly one node goes and no key is added |
| SwTree.Delete | src/sw/BST.java:194-210 | no key is added |
| SwTree.PutOrdered | src/sw/BST.java:81-89 | `put` keeps the search-tree ordering |
| SwTree.PutContents | src/sw/BST.java:81-89 | after `put(k, v)` the map is the old map with `k` bound to `v`: `get(k) == v` and every other key keeps its value |
| SwTree.PutSizes | src/sw/BST.java:87 | `put` keeps every cached size equal to one plus its children's |
| SwTree.PutPresentKeepsShape | src/sw/BST.java:86-87 | `put` on a present key changes only that value: keys, links and all sizes are unchanged |
| SwTree.PutIdempotent | src/sw/BST.java:81-89 | a second identical `put` changes nothing |
| SwTree.DeleteMinOrdered | src/sw/BST.java:167-172 | `deleteMin` keeps the ordering |
| SwTree.DeleteMinContents | src/sw/BST.java:167-172 | `deleteMin` removes exactly the minimum key's pair |
| SwTree.DeleteMinSizes | src/sw/BST.java:170 | `deleteMin` keeps the size bookkeeping |
| SwTree.DeleteMaxOrdered | src/sw/BST.java:180-186 | `deleteMax` keeps the ordering |
| SwTree.DeleteMaxContents | src/sw/BST.java:180-186 | `deleteMax` removes exactly the maximum key's pair |
| SwTree.DeleteMaxSizes | src/sw/BST.java:184 | `deleteMax` keeps the size bookkeeping |
| SwTree.DeleteOrdered | src/sw/BST.java:194-210 | `delete` keeps the ordering, including when the successor is promoted |
| SwTree.DeleteContents | src/sw/BST.java:194-210 | `delete(k)` removes exactly the pair under `k` and keeps every other pair |
| SwTree.DeleteSizes | src/sw/BST.java:208 | `delete` keeps the size bookkeeping |
| SwTree.DeleteAbsent | src/sw/BST.java:194-210 | deleting an absent key returns the tree unchanged |
| SwTree.PromotesSuccessor | src/sw/BST.java:203-207 | a two-child delete puts the minimum of the right subtree, the in-order successor, at the vacated root, with that key's stored value and the original left subtree |
| ModernTree.Lookup | src/modern/Node.java:61-69 | on an ordered tree the walk answers the stored value (possibly null) or null for an absent key |
| ModernTree.DeleteMin | src/modern/Node.java:111-118 | exactly one node goes |
| ModernTree.DeleteMax | src/modern/Node.java:120-127 | exactly one node goes |
| ModernTree.Delete | src/modern/Node.java:129-149 | the node count never grows |
| ModernTree.PutLookup | src/modern/Node.java:99-109 | after `put(k, v)` on an ordered tree the ordering holds, `get(k)` answers `v` and every other key answers as before |
| ModernTree.DeleteMinAgrees | src/modern/Node.java:111-118 | apart from cached sizes, `deleteMin` builds the same tree as BST.java's |
| ModernTree.DeleteMaxAgrees | src/modern/Node.java:120-127 | apart from cached sizes, `deleteMax` builds the same tree as BST.java's |
| ModernTree.DeleteAgrees | src/modern/Node.java:129-149 | on an ordered tree, apart from cached sizes, `delete` builds the same tree as BST.java's |
| ModernTree.DeleteMinCorrect | src/modern/Node.java:111-118 | `deleteMin` keeps the ordering and removes exactly the minimum key |
| ModernTree.DeleteMaxCorrect | src/modern/Node.java:120-127 | `deleteMax` keeps the ordering and removes exactly the maximum key |
| ModernTree.DeleteCorrect | src/modern/Node.java:129-149 | `delete(k)` keeps the ordering and removes exactly the pair under `k` |
| ModernTree.SizesOkCover | src/modern/Node.java:107 | exact sizes are in particular never too small |
| ModernTree.PutCovers | src/modern/Node.java:107 | `put` never makes a cached size smaller than its subtree's node count |
| ModernTree.DeleteMinCovers | src/modern/Node.java:111-118 | stale sizes left by `deleteMin` are too large, never too small |
| ModernTree.DeleteMaxCovers | src/modern/Node.java:120-127 | stale sizes left by `deleteMax` are too large, never too small |
| ModernTree.DeleteCovers | src/modern/Node.java:129-149 | stale sizes left by `delete` are too large, never too small |
| ModernTree.DeleteMinStaleRoot | src/modern/Node.java:111-118 | on a correctly sized tree with a left child, the root keeps its old size, one more than the entries left, and the bookkeeping is broken |
| ModernTree.DeleteMaxStaleRoot | src/modern/Node.java:120-127 | the mirror image for `deleteMax` |
| ModernTree.DeleteTwoChildStale | src/modern/Node.java:142-145 | after a two-child delete the new root's size is right but its right subtree reports one entry too many |
| ModernTree.DemoInsertions | src/modern/Node.java:152-157 | the six insertions of the demonstration build the tree drawn in its comment (Mary over Alice and Vera, size 6) |
| ModernTree.DemoDeleteMary | src/modern/Node.java:158 | deleting Mary promotes Susan over Alice and Vera, with size 5 |
| ModernTree.DemoDeleteZena | src/modern/Node.java:161 | deleting Zena then leaves size 4 |
| ModernTree.Demo | src/modern/Node.java:152-162 | sizes 6, 5 and 4; Mary is gone and Alice is the minimum; Vera's cached size is stale (4 for 3 nodes); afterwards the maximum is Vera |
| SwBst.Node.constructor | src/sw/BST.java:28-34 | a new node has null children and the size it is given |
| SwBst.SizeOf | src/sw/BST.java:41-44 | a null subtree has size 0, a node its cached field |
| SwBst.GetFrom | src/sw/BST.java:56-63 | the heap walk answers what the value-level `get` answers, throwing `NoSuchElementException` where it falls off the tree |
| SwBst.MinOf | src/sw/BST.java:110-115 | the returned node belongs to the subtree and is its leftmost node |
| SwBst.MaxOf | src/sw/BST.java:97-102 | the returned node belongs to the subtree and is its rightmost node |
| SwBst.FloorOf | src/sw/BST.java:128-136 | the returned node, if any, belongs to the subtree and denotes the value-level floor |
| SwBst.CeilingOf | src/sw/BST.java:149-159 | the returned node, if any, belongs to the subtree and denotes the value-level ceiling |
| SwBst.Link | src/sw/BST.java:84-87 | re-linking a node above two disjoint well-formed subtrees and recomputing its size gives a well-formed node above them |
| SwBst.PutInto | src/sw/BST.java:81-89 | in-place `put` yields a well-formed subtree denoting `SwTree.Put` of the old one, allocating only new nodes |
| SwBst.DeleteMinOf | src/sw/BST.java:167-172 | in-place `deleteMin` yields `SwTree.DeleteMin` of the old subtree; the unlinked node is untouched and no longer in the subtree |
| SwBst.DeleteMaxOf | src/sw/BST.java:180-186 | in-place `deleteMax` yields `SwTree.DeleteMax` of the old subtree |
| SwBst.ReplaceBySuccessor | src/sw/BST.java:201-208 | the existing minimum node of the right subtree becomes the new subtree root, denoting `SwTree.Delete` of the old subtree |
| SwBst.DeleteFrom | src/sw/BST.java:194-210 | in-place `delete` yields `SwTree.Delete` of the old subtree, within the old nodes |
| SwBst.BST.constructor | src/sw/BST.java:10-12 | a new map is empty |
| SwBst.BST.Size | src/sw/BST.java:37-39 | `size()` is the number of entries |
| SwBst.BST.IsEmpty | src/sw/BST.java:46-48 | `isEmpty()` holds exactly when there are no entries |
| SwBst.BST.Get | src/sw/BST.java:50-54 | a null key throws `IllegalArgumentException`; a present key answers its value; an absent key throws `NoSuchElementException` |
| SwBst.BST.Contains | src/sw/BST.java:65-69 | as written: true for a present key, `NoSuchElementException` for an absent one, never false |
| SwBst.BST.ContainsIntended | src/sw/BST.java:65-69 | the intended `contains`: answers membership, and throws only for a null key |
| SwBst.BST.Min | src/sw/BST.java:104-108 | throws exactly on an empty map; otherwise a stored key no larger than any other |
| SwBst.BST.Max | src/sw/BST.java:91-95 | throws exactly on an empty map; otherwise a stored key no smaller than any other |
| SwBst.BST.Floor | src/sw/BST.java:117-126 | a null key throws `IllegalArgumentException`; succeeds exactly when some key is at most the query, with the largest such key; otherwise throws `NoSuchElementException` |
| SwBst.BST.Ceiling | src/sw/BST.java:138-147 | a null key throws `IllegalArgumentException`; succeeds exactly when some key is at least the query, with the smallest such key; otherwise throws `NoSuchElementException` |
| SwBst.BST.Put | src/sw/BST.java:71-79 | a null key throws and changes nothing; a null value is exactly `delete(k)`; otherwise the map becomes old map with `k` bound to the value; the invariant is kept |
| SwBst.BST.DeleteMin | src/sw/BST.java:161-165 | throws exactly on an empty map and then changes nothing; otherwise removes exactly the minimum key, keeping the invariant |
| SwBst.BST.DeleteMinAtRoot | src/sw/BST.java:164 | `root = deleteMin(root)` removes the minimum key and keeps ordering and sizes |
| SwBst.BST.DeleteMax | src/sw/BST.java:174-178 | throws exactly on an empty map and then changes nothing; otherwise removes exactly the maximum key, keeping the invariant |
| SwBst.BST.DeleteMaxAtRoot | src/sw/BST.java:177 | `root = deleteMax(root)` removes the maximum key and keeps ordering and sizes |
| SwBst.BST.Delete | src/sw/BST.java:188-192 | a null key throws and changes nothing; otherwise the pair under the key goes, every other pair stays, and an absent key leaves the tree as it was |
| ModernNode.Node.constructor | src/modern/Node.java:16-22 | a new node has size 1 and two empty children |
| ModernNode.Node.Full | src/modern/Node.java:24-30 | a node built above two existing subtrees denotes them with the size it is given |
| ModernNode.Node.Size | src/modern/Node.java:32-34 | `size()` is the cached field; it is the number of entries while ordering and sizes are kept, and never smaller than the node count while no size is short |
| ModernNode.EntriesWhenKept | src/modern/Node.java:32-34 | in an ordered tree with correct sizes the root's cached size is the number of entries |
| ModernNode.SizeOf | src/modern/Node.java:36-38 | an `Empty` child has size 0, a node its cached field |
| ModernNode.Node.IsEmpty | src/modern/Node.java:40-42 | a node is never empty: it holds its own key |
| ModernNode.Node.Get | src/modern/Node.java:61-69 | a null key throws; otherwise the answer is the stored value (possibly null), or null for an absent key |
| ModernNode.Node.Contains | src/modern/Node.java:71-75 | a null key throws; otherwise true exactly when the comparison walk finds a non-null value, which on an ordered tree means the key is stored with a non-null value |
| ModernNode.Node.Min | src/modern/Node.java:77-82 | the leftmost key, which in an ordered tree is the smallest |
| ModernNode.Node.Max | src/modern/Node.java:84-89 | the rightmost key, which in an ordered tree is the largest |
| ModernNode.Node.Floor | src/modern/Node.java:91-93 | the stub always answers null |
| ModernNode.Node.Ceiling | src/modern/Node.java:95-97 | the stub always answers null |
| ModernNode.Node.Link | src/modern/Node.java:104-107 | re-linking this node above two disjoint well-formed subtrees with a given size gives a well-formed node |
| ModernNode.Node.Put | src/modern/Node.java:99-109 | a null key throws and changes nothing; otherwise this node is returned, well formed, denoting `SwTree.Put` of the old tree |
| ModernNode.Node.DeleteMin | src/modern/Node.java:111-118 | returns a well-formed subtree denoting `ModernTree.DeleteMin` of the old one (sizes untouched) |
| ModernNode.Node.DeleteMax | src/modern/Node.java:120-127 | returns a well-formed subtree denoting `ModernTree.DeleteMax` of the old one (sizes untouched) |
| ModernNode.Node.ReplaceBySuccessor | src/modern/Node.java:142-145 | a freshly allocated node, denoting the two-child case of `ModernTree.Delete`, replaces this one |
| ModernNode.Node.Delete | src/modern/Node.java:129-149 | a null key throws and changes nothing; otherwise the returned subtree is well formed and denotes `ModernTree.Delete` of the old one; deleting a two-child node's own key returns a freshly allocated node |

## Left out

- `toString`, `toStringKV` and `kvToString` (src/sw/BST.java:212-236, src/modern/Node.java:44-59) only format strings.
- BST.java's `main` (src/sw/BST.java:238-245) only prints. Node.java's `main` appears as the `ModernTree.Demo` lemmas. Its string keys become any six integers in the same order, and its output is not modelled.
- `OrderedMap.java` is an interface with no logic.
- The four-argument constructor of BST.java's `Node` (src/sw/BST.java:21-26) is never called.
- `Empty.java` is not part of this model. Its behaviour is the assumption stated above, and a null child stands for it. Because an `Empty` is assumed stateless, the `Empty` object a new node shares between both children (src/modern/Node.java:19-20) is not modelled.
- Generic keys: keys are `int`, and `compareTo` is integer comparison.
- Exception messages are not modelled; only the exception class is.
- Cached sizes are unbounded integers, so Java's 32-bit `int` overflow is not modelled. It would need more than 2^31 nodes.
- Node.java methods return `OrderedMap`. The model returns `Node?`, with null meaning an `Empty`, and a call on an `Empty` child becomes a null test.
- ModernNode.Node.Get, ModernNode.Node.Contains, ModernNode.Node.Min, ModernNode.Node.Max: for every tree these state the result of the comparison walk; that this is the stored value, or the smallest or largest key, is stated for ordered trees only. Node.java has no class invariant making every `Node` ordered, and its public five-argument constructor (src/modern/Node.java:24-30) accepts any subtrees. A tree is ordered when it is built from `Node(K, V)` by `put` and `delete` (ModernTree.PutLookup, ModernTree.DeleteCorrect).
- SwBst.DeleteFrom, SwBst.DeleteMaxOf: the footprint is stated as a subset of the old nodes, not as exactly the old nodes minus the one unlinked.

## Findings

| source | as written | input that shows it | evidently intended | confidence | as-written member | corrected member |
|---|---|---|---|---|---|---|
| src/sw/BST.java:65-69 | `contains` is `get(key) != null`, but `get` throws `NoSuchElementException` on an absent key (lines 57-58) | `contains(k)` on any map without `k`, e.g. a new `BST` | `contains` answers false for an absent key | not executed | SwBst.BST.Contains | SwBst.BST.ContainsIntended |
| src/modern/Node.java:111-127 | `deleteMin`/`deleteMax` re-link the child but never recompute `size` on the path | a root with a left child, e.g. Mary (size 2) over Alice: after `deleteMin` the root still reports size 2 for 1 entry | every node on the path gets `size = size(left) + size(right) + 1`, as in BST.java:170 and 184 | not executed | ModernTree.DeleteMinStaleRoot | SwTree.DeleteMinSizes |
| src/modern/Node.java:142-145 | the fresh node gets `this.size() - 1`, but `newRight = right.deleteMin()` keeps its stale sizes | the demonstration: after `delete("Mary")` Vera reports size 4 over 3 nodes | sizes inside the new right subtree are recomputed as well | not executed | ModernTree.DeleteTwoChildStale | SwTree.DeleteSizes |

The corrected definitions are BST.java's own helpers, `SwTree.DeleteMin`,
`SwTree.DeleteMax` and `SwTree.Delete`. For these, `SwTree.DeleteMinSizes`,
`SwTree.DeleteMaxSizes` and `SwTree.DeleteSizes` prove that the bookkeeping
survives. The agreement lemmas `ModernTree.DeleteMinAgrees`,
`ModernTree.DeleteMaxAgrees` and `ModernTree.DeleteAgrees` show that
Node.java's versions differ from them only in the cached sizes. The heap
class `ModernNode.Node` models Node.java as written. `ModernTree.DeleteCovers`
and its companions show what survives there: every stale size is too large,
never too small.
