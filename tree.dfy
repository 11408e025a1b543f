/**
 * The tree container of tree.h (`tree`): it owns one root node, updated in
 * place by `append` and `remove`; the other operations read it.
 */
module Trees {
  import opened Wrappers
  import opened TreeNode
  import opened Traversal
  import opened PreOrderIterator

  class Tree<T(==)> {
    var root: Node<T>

    /** `tree(data)`: a root built from the payload alone. */
    constructor (data: T)
      ensures root == Leaf(data)
      ensures root.IsRoot() && root.IsLeaf() && Count(root) == 1
    {
      root := Leaf(data);
    }

    /** `tree(node)`: the given node becomes the root, as it is. */
    constructor FromRoot(r: Node<T>)
      ensures root == r
    {
      root := r;
    }

    /** `begin()`: an iterator whose stack holds the root, so the whole pre-order is pending. */
    method Begin() returns (it: Iterator<T>)
      ensures fresh(it) && it.nodes == [root]
      ensures Pending(it.nodes) == PreOrder(root)
    {
      it := new Iterator(Some(root));
      assert [root][..0] == [];
    }

    /** `end()`: an iterator with an empty stack. */
    method End() returns (it: Iterator<T>)
      ensures fresh(it) && it.nodes == []
    {
      it := new Iterator(None);
    }

    /**
     * A range-based `for` over `begin()`/`end()`: the loop advances until the
     * iterator compares equal to `end()`, collecting each `*it`. It yields the
     * payloads in left-to-right pre-order and stops after exactly as many
     * advances as the tree has nodes.
     */
    method Traverse() returns (values: seq<T>, steps: nat)
      ensures values == Values(PreOrder(root))
      ensures steps == Count(root)
    {
      var it := Begin();
      var last := End();
      values, steps := [], 0;
      PreOrderLength(root);
      while !it.Equal(last)
        invariant fresh(it) && it != last && last.nodes == []
        invariant values + Values(Pending(it.nodes)) == Values(PreOrder(root))
        invariant steps + |Pending(it.nodes)| == Count(root)
        decreases |Pending(it.nodes)|
      {
        ghost var pending := Pending(it.nodes);
        var v := it.Current();
        values := values + [v];
        it.Advance();
        steps := steps + 1;
        ValuesAppend([pending[0]], pending[1..]);
        assert [pending[0]] + pending[1..] == pending;
      }
      PendingEmpty(it.nodes);
    }

    /**
     * `search`: a depth-first walk over an explicit stack seeded with the
     * root, returning a copy of the first node whose payload is `x`, or null.
     * Children are pushed in forward order, so the walk is a RIGHT-to-left
     * pre-order, unlike the iterator's; any node carrying `x` is found.
     */
    method Search(x: T) returns (r: Option<Node<T>>)
      ensures r == FirstWithData(RevPreOrder(root), x)
      ensures r.Some? ==> r.value.data == x && r.value in PreOrder(root)
      ensures r.None? <==> x !in Values(PreOrder(root))
    {
      var stack := [root];
      assert ForestRevPreOrder(stack) == RevPreOrder(root) by {
        assert stack[..0] == [];
      }
      while stack != []
        invariant FirstWithData(ForestRevPreOrder(stack), x) == FirstWithData(RevPreOrder(root), x)
        decreases |ForestRevPreOrder(stack)|
      {
        ghost var before := stack;
        var current := stack[|stack| - 1];
        stack := stack[..|stack| - 1];
        ghost var rest := stack;
        ghost var tail := ForestRevPreOrder(current.children) + ForestRevPreOrder(rest);
        assert ForestRevPreOrder(before) == [current] + tail;
        if current.data == x {
          r := Some(current);
          SearchResult(root, x, r);
          return;
        }
        assert ([current] + tail)[1..] == tail;
        var i := 0;
        while i < |current.children|
          invariant 0 <= i <= |current.children|
          invariant stack == rest + current.children[..i]
        {
          stack := stack + [current.children[i]];
          i := i + 1;
          assert current.children[..i] == current.children[..i - 1] + [current.children[i - 1]];
        }
        assert current.children[..i] == current.children;
        ForestRevAppend(rest, current.children);
      }
      r := None;
      SearchResult(root, x, r);
    }

    /** `append` on the tree: appends to the root (the source's `_root.push_back` means `_root.append`). */
    method Append(child: Node<T>)
      modifies this
      ensures root == old(root).Append(child)
      ensures Count(root) == old(Count(root)) + Count(child)
    {
      AppendPreOrder(root, child);
      root := root.Append(child);
    }

    /** `remove` on the tree: removes from the root's children only. */
    method Remove(child: Node<T>)
      modifies this
      ensures root == old(root).Remove(child)
      ensures |root.children| <= |old(root).children|
    {
      root := root.Remove(child);
    }

    /**
     * `index` on the tree: the first match among the root's children, or
     * their number. The source names `_root.children` without the call
     * parentheses; the root's children are meant.
     */
    function Index(child: Node<T>): (k: nat)
      reads this
      ensures k <= |root.children|
      ensures k < |root.children| ==> root.children[k].Eq(child)
      ensures forall j :: 0 <= j < k ==> root.children[j].Ne(child)
    {
      root.Index(child)
    }

    /**
     * `operator[]` on the tree: bounds-checked access to the root's children.
     * The source applies `make_shared<node>` to the pointer the root's
     * `operator[]` returns; the child itself, copied, is meant.
     */
    function At(idx: nat): (r: Result<Node<T>, TreeError>)
      reads this
      ensures r.Err? <==> idx >= |root.children|
      ensures r.Ok? ==> r.value == root.children[idx]
    {
      root.At(idx)
    }
  }

  /** What `search`'s result says about the tree, whichever order found it. */
  lemma SearchResult<T>(root: Node<T>, x: T, r: Option<Node<T>>)
    requires r == FirstWithData(RevPreOrder(root), x)
    ensures r.Some? ==> r.value.data == x && r.value in PreOrder(root)
    ensures r.None? <==> x !in Values(PreOrder(root))
  {
    SameNodes(root);
    var pre, rev := PreOrder(root), RevPreOrder(root);
    if r.Some? {
      assert r.value in multiset(rev);
    } else {
      forall i | 0 <= i < |pre| ensures pre[i].data != x {
        assert pre[i] in multiset(rev);
      }
    }
    if x in Values(pre) {
      var i :| 0 <= i < |pre| && Values(pre)[i] == x;
      assert pre[i] in multiset(rev);
    }
  }
}
