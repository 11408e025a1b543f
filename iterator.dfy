/**
 * The pre-order iterator of tree.h (`tree::_iterator`): a stack of pending
 * nodes. The stack is a sequence whose LAST element is the top.
 */
module PreOrderIterator {
  import opened Wrappers
  import opened TreeNode
  import opened Traversal

  /** `==` on the two stacks: same height, and element-wise equal payloads. */
  predicate SameData<T(==)>(a: seq<Node<T>>, b: seq<Node<T>>) {
    |a| == |b| && forall i :: 0 <= i < |a| ==> a[i].Eq(b[i])
  }

  class Iterator<T(==)> {
    var nodes: seq<Node<T>>

    /**
     * `_iterator(node)`: pushes the node, or nothing for the null passed by
     * `end()`. The source tests `if (node)` on a node and passes `nullptr`
     * for a node; an absent node stands for that null.
     */
    constructor (start: Option<Node<T>>)
      ensures nodes == if start.Some? then [start.value] else []
    {
      nodes := if start.Some? then [start.value] else [];
    }

    /**
     * `operator==`: the stacks compare equal element-wise, by payload; so an
     * iterator equals one with an empty stack exactly when its own is empty.
     */
    function Equal(other: Iterator<T>): (b: bool)
      reads this, other
      ensures b <==> Values(nodes) == Values(other.nodes)
      ensures other.nodes == [] ==> (b <==> nodes == [])
    {
      SameData(nodes, other.nodes)
    }

    /** `operator!=`: the negation of `==`. */
    function NotEqual(other: Iterator<T>): (b: bool)
      reads this, other
      ensures b <==> Values(nodes) != Values(other.nodes)
    {
      !Equal(other)
    }

    /**
     * `operator*`: the payload of the top node, which is the next node of
     * the pre-order still pending. Dereferencing an empty stack is undefined
     * in the source, hence the precondition.
     */
    function Current(): (v: T)
      reads this
      requires nodes != []
      ensures v == Values(Pending(nodes))[0]
    {
      StepPending(nodes);
      nodes[|nodes| - 1].data
    }

    /**
     * Prefix `operator++`: pops the top node and pushes its children from the
     * last to the first, so that the first child is on top. The pending
     * pre-order loses exactly its first node. `top()` on an empty stack is
     * undefined in the source, hence the precondition. The source writes
     * `current->children()` on a node, and takes `rbegin()` and `rend()` from
     * two separate copies of the children (the getter returns the vector by
     * value); the evident intent, one pass over the popped node's children
     * from the last to the first, is modelled.
     */
    method Advance()
      requires nodes != []
      modifies this
      ensures nodes == Step(old(nodes))
      ensures Pending(nodes) == old(Pending(nodes))[1..]
    {
      var current := nodes[|nodes| - 1];
      nodes := nodes[..|nodes| - 1];
      ghost var rest := nodes;
      var i := |current.children|;
      while i > 0
        invariant 0 <= i <= |current.children|
        invariant nodes == rest + Reversed(current.children[i..])
      {
        i := i - 1;
        assert current.children[i..][1..] == current.children[i + 1..];
        nodes := nodes + [current.children[i]];
      }
      assert current.children[0..] == current.children;
      StepPending(old(nodes));
    }

    /** Postfix `operator++`: a copy of the iterator as it was, then an advance. */
    method PostAdvance() returns (before: Iterator<T>)
      requires nodes != []
      modifies this
      ensures fresh(before) && before.nodes == old(nodes)
      ensures nodes == Step(old(nodes))
    {
      before := new Iterator(None);
      before.nodes := nodes;
      Advance();
    }
  }
}
