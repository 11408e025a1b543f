# Ordered tree container of `cxx` (tree.h), modelled in Dafny

`tree.h` defines `std::tree<T>`, a rooted, ordered, multi-child tree over any
type `T` that has `==` and `!=`. It has three parts:

- `tree::node`: a payload, a parent pointer and a vector of children. The
  children are held by value and kept in insertion order.
- `tree::_iterator`: a pre-order iterator built on a stack of pending nodes.
- `tree`: owns a root node. It has `begin`/`end`, a depth-first `search`,
  and wrappers that forward `append`, `remove`, `index` and `operator[]` to
  the root.

The model has four modules:

- `TreeNode` (node.dfy). A node is the value
  `Node(data, hasParent, children)`. The parent pointer is kept only as
  "has a parent". The module holds the node operations and the lemmas that
  connect them (`append` with `index`, `operator[]` and `remove`).
- `Traversal` (traversal.dfy). It defines both depth-first orders as
  functions: left-to-right pre-order (`PreOrder`) and right-to-left
  pre-order (`RevPreOrder`). `Pending` gives what a stack of pending nodes
  still yields; the top of a stack is its last element. The module also
  holds the lemmas about these orders.
- `PreOrderIterator` (iterator.dfy). The iterator is a class whose stack is
  a `seq` field. `Advance` pops the top node and then pushes its children
  from last to first, in a loop.
- `Trees` (tree.dfy). The tree is a class whose `root` field is updated in
  place by `Append` and `Remove`. `Search` is a `while` loop over a local
  stack. `Traverse` is the range-based `for` that `begin`/`end` exist for.

Several source lines are not valid C++. The model follows their evident
intent:

- `node::append` (tree.h:93-96) writes through a const reference, and
  `tree::append` calls a `_root.push_back` that does not exist
  (tree.h:240-243). Modelled: push the child at the end of the root's
  children and mark it as having a parent.
- `node::remove` calls `vector::remove`, which does not exist
  (tree.h:99-101). Modelled: erase the first child whose payload equals the
  argument, as `erase(find(...))` would. If no child matches, nothing
  changes.
- `index` returns a `std::find` iterator as `unsigned` (tree.h:104-106).
  Modelled: the 0-based position of the first match, or the number of
  children when there is no match.
- `operator*` uses `->` on a node (tree.h:179). Modelled: the payload of the
  top node.
- `_iterator(node)` tests `if (node)`, and `end()` passes `nullptr`
  (tree.h:157-159, 220). Modelled: the constructor takes an optional node,
  and `end()` has an empty stack.
- `_iterator::operator==` reads `other.nodes` without the call parentheses
  (tree.h:168). Modelled: `std::stack`'s `==`, which compares the two stacks
  element by element with the node's `==`, so by payload only.
- `_iterator::operator++` writes `current->children()` on a node, and takes
  `rbegin()` and `rend()` from two separate copies of the children, since
  `children()` returns the vector by value (tree.h:82, 187-190). As written,
  the loop compares iterators into different temporaries. Modelled: one pass
  over the popped node's children from the last to the first.
- `tree::index` names `_root.children` without the call parentheses
  (tree.h:252). Modelled: `index` over the root's children.
- `tree::operator[]` applies `make_shared<node>` to the `shared_ptr<node>`
  that the root's `operator[]` returns (tree.h:258). Modelled: the root's
  `operator[]`, yielding a copy of the child or `out_of_range`.

Other facts about the source that the model keeps:

- **Search order.** `search` pushes children in forward order (tree.h:233),
  so it visits nodes in right-to-left pre-order. The iterator visits them
  left to right (tree.h:189). When two nodes carry the same value, `search`
  can return a different one from the first the iterator reaches.
  `Traversal.SearchOrderDiffersFromIteration` gives a concrete tree where
  this happens. Search still finds a node whenever one carries the value.
- **Return values.** `remove` returns `void`. `index` returns the number of
  children when nothing matches.
- **No empty tree and no cycle check.** The only `tree` constructors are
  `tree(data)` and `tree(node)` (tree.h:208-212), so a tree always has a
  root. `append` has no cycle check. Cycles cannot arise anyway, because
  children are held by value.

## Model

| member | source | states |
|---|---|---|
| `TreeNode.Leaf` | tree.h:73-75 | a node made from a payload alone has that payload, is a root and is a leaf |
| `TreeNode.WithParent` | tree.h:76-78 | a node made from a payload and a parent pointer is a leaf, and is a root exactly when the pointer is null |
| `TreeNode.Node.IsLeaf` | tree.h:110-112 | a node is a leaf exactly when it has no children, so exactly when `operator[]` rejects index 0 |
| `TreeNode.Node.IsRoot` | tree.h:116-118 | a node is a root exactly when its parent pointer is null |
| `TreeNode.Node.Eq` | tree.h:122-124 | two nodes are `==` exactly when they agree once their children and parent are ignored, i.e. on the payload |
| `TreeNode.Node.Ne` | tree.h:128-130 | `!=` holds exactly when `==` does not |
| `TreeNode.EqualityIsPayloadOnly` | tree.h:120-130 | node `==` holds exactly when the payloads are equal, regardless of children and parent; `!=` is its negation |
| `TreeNode.Node.Append` | tree.h:92-96 | the children grow by exactly one; the old children keep their values and order; the new last child has the appended child's payload and children and is no longer a root; the node is no longer a leaf |
| `TreeNode.Node.Index` | tree.h:103-106 | the result is in `[0, size]`; if it is below `size`, that child equals the argument; every earlier child differs from it (`std::find` semantics) |
| `TreeNode.FindFirst` | tree.h:105 | `std::find` with the node's `==`: the first equal position, or the length when there is none |
| `TreeNode.Node.Remove` | tree.h:98-101 | never adds children; leaves the node unchanged when no child equals the argument; otherwise removes exactly the first equal child and keeps the others in their relative order |
| `TreeNode.Node.At` | tree.h:132-139 | fails with `out_of_range` exactly when `idx >= size`; otherwise yields child `idx` |
| `TreeNode.AppendThenIndex` | tree.h:93-106 | after `append`, `index` of the appended child is its old first match if there was one, and otherwise the new last position |
| `TreeNode.AppendThenAt` | tree.h:134-139 | after `append`, `operator[]` at the old size yields the appended child marked as parented, and the earlier positions are unchanged |
| `TreeNode.RemoveUndoesAppend` | tree.h:93-101 | appending a child whose payload is not yet among the children and then removing it restores the node |
| `TreeNode.IndexThenAt` | tree.h:104-139 | a position that `index` finds below `size` is accepted by `operator[]`, and the child there equals the argument |
| `TreeNode.RemoveDropsOne` | tree.h:99-101 | when a match exists, `remove` takes out exactly one child, the first match; the children as a multiset lose exactly that child |
| `Traversal.FirstWithData` | tree.h:227-236 | the first node in a sequence carrying a payload; it is absent exactly when no node carries it |
| `Traversal.PreOrderLength` | tree.h:186-192 | both depth-first orders list exactly as many nodes as the tree has |
| `Traversal.SameNodes` | tree.h:224-237 | the right-to-left order that `search` uses visits the same nodes, with the same multiplicities, as the iterator's left-to-right pre-order |
| `Traversal.PendingReversed` | tree.h:189-190 | children pushed last-to-first come off the stack in left-to-right pre-order |
| `Traversal.ForestRevAppend` | tree.h:233-234 | children pushed first-to-last come off the stack in right-to-left pre-order, ahead of what was below them |
| `Traversal.StepPending` | tree.h:186-192 | one `++` yields the first pending node, which is the top of the stack, and leaves exactly the rest of the pre-order pending |
| `Traversal.IterationFromRoot` | tree.h:186-192 | from the stack `[root]`, `k` increments leave exactly the pre-order after its first `k` nodes pending; the stack is empty exactly after as many increments as there are nodes |
| `Traversal.AppendPreOrder` | tree.h:93-96 | after `append`, pre-order yields the old payloads and then the appended subtree's payloads; the node count grows by the subtree's size |
| `Traversal.RemoveCount` | tree.h:99-101 | removing a present child drops exactly that child's subtree from the node count |
| `Traversal.SearchOrderDiffersFromIteration` | tree.h:224-237 | on a root with two children that both carry 1, `search` meets the second child first and the iterator meets the first child first |
| `PreOrderIterator.Iterator.constructor` | tree.h:157-159 | the stack holds the given node, or nothing when there is no node |
| `PreOrderIterator.Iterator.Equal` | tree.h:166-169 | two iterators are equal exactly when their stacks list the same payloads; an iterator equals one with an empty stack exactly when its own stack is empty |
| `PreOrderIterator.Iterator.NotEqual` | tree.h:172-175 | `!=` holds exactly when the stacks' payload lists differ |
| `PreOrderIterator.Iterator.Current` | tree.h:178-179 | `*it` is the payload of the next pending node in pre-order |
| `PreOrderIterator.Iterator.Advance` | tree.h:185-192 | the top is popped and its children are pushed last-to-first; the pending pre-order loses exactly its first node |
| `PreOrderIterator.Iterator.PostAdvance` | tree.h:194-199 | returns a copy of the iterator as it was and then advances |
| `Trees.Tree.constructor` | tree.h:207-210 | the root is made from the payload alone: a root and a leaf, and the tree has one node |
| `Trees.Tree.FromRoot` | tree.h:211-212 | the given node becomes the root unchanged |
| `Trees.Tree.Begin` | tree.h:215-216 | the stack holds just the root, so the whole pre-order is pending |
| `Trees.Tree.End` | tree.h:219-220 | the stack is empty |
| `Trees.Tree.Traverse` | tree.h:214-220 | iterating from `begin()` until the iterator equals `end()` yields the payloads in left-to-right pre-order, after exactly as many increments as the tree has nodes |
| `Trees.Tree.Search` | tree.h:222-237 | terminates; returns the first node, in right-to-left pre-order, carrying `x`; any returned node carries `x` and belongs to the tree; the result is null exactly when no node carries `x` |
| `Trees.SearchResult` | tree.h:224-237 | the first match in right-to-left pre-order is sound and complete with respect to the tree's nodes |
| `Trees.Tree.Append` | tree.h:239-243 | the root becomes the root with the child appended; the node count grows by the child's subtree size |
| `Trees.Tree.Remove` | tree.h:245-248 | the root becomes the root with the first matching child removed; it never gains children |
| `Trees.Tree.Index` | tree.h:250-253 | `index` on the root's children: in `[0, size]`, the first equal child, or `size` |
| `Trees.Tree.At` | tree.h:255-259 | `operator[]` on the root's children: fails exactly when `idx >= size`, and otherwise yields that child |

## Left out

- print.h and format.h are not part of this model. They only wrap
  `std::cout`, `fwrite`, `fprintf` and `snprintf`/`swprintf`, so their
  behaviour lives in the C library.
- The default constructor `node()` (tree.h:72) is not modelled. It
  default-constructs an arbitrary `T`, which a generic model has no value
  for. Otherwise it is `Leaf` applied to that value.
- The getters `children()`, `parent()` and `data()` (tree.h:80-90) and
  `_iterator::nodes()` (tree.h:161-163) are the datatype's and the class's
  fields, read directly.
- The parent pointer is modelled only as "has a parent". These are not
  modelled: which node it points to, the `make_shared` copies returned by
  `operator[]` and `search`, and the raw pointer from `_iterator::operator->`
  (tree.h:183).
- Node-level `append` and `remove` update a node in place in the source.
  Here they return the updated node value. Aliasing between a node and
  copies of it is not modelled. At the tree level, `Tree.Append` and
  `Tree.Remove` do update `root` in place.
- Positions and `unsigned int` indices are unbounded naturals. Wrap-around
  at 2^32 children is not modelled.
- Using an iterator after the tree it came from has been changed is not
  modelled, because the iterator keeps its own copies of the nodes.
  Dereferencing or incrementing an iterator whose stack is empty is
  undefined in the source, and it is a precondition here.
- The C++20 concept `__is_cmp` and the iterator tag typedefs
  (tree.h:46-53, 145-150) are type-level only. Dafny's `T(==)` plays the
  role of the concept.
- `T`'s own `==` and `!=` are taken to be Dafny's equality on `T` and its
  negation. The concept asks only that both operators exist and return
  something convertible to `bool`. So a `T` whose `==` is not an equivalence
  relation, or whose `!=` is not the negation of its `==`, is not modelled.
  A floating-point NaN is one example: it is not equal to itself. The
  contracts below depend on this assumption.
- `TreeNode.Node.Ne`, `TreeNode.EqualityIsPayloadOnly`: that `!=` is the
  negation of `==` holds only under this assumption. The source calls `T`'s
  own `!=` (tree.h:128-129).
- `TreeNode.Node.Index`: that every child before the result differs from the
  argument relies on `!=` being the negation of `==`.
- `Trees.Tree.Search`: completeness relies on `==` being reflexive. For
  example, with a floating-point `T` the source's `search(NaN)` returns null
  even when a node holds NaN.
