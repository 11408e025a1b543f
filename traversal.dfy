/**
 * The two depth-first orders of tree.h, as functions of a tree or of a
 * stack of pending nodes (the top of a stack is its LAST element):
 *  - left-to-right pre-order, which the iterator yields, because `++`
 *    pushes a node's children in reverse;
 *  - right-to-left pre-order, which `search` visits, because it pushes the
 *    children in forward order.
 */
module Traversal {
  import opened Wrappers
  import opened TreeNode

  /** Number of nodes in the tree rooted at `n`. */
  function Count<T>(n: Node<T>): nat
    decreases n, 1
  {
    1 + ForestCount(n.children)
  }

  function ForestCount<T>(cs: seq<Node<T>>): nat
    decreases cs, 0
  {
    if cs == [] then 0 else Count(cs[0]) + ForestCount(cs[1..])
  }

  /** Left-to-right pre-order: a node, then each child's subtree from the first child on. */
  function PreOrder<T>(n: Node<T>): seq<Node<T>>
    decreases n, 1
  {
    [n] + ForestPreOrder(n.children)
  }

  function ForestPreOrder<T>(cs: seq<Node<T>>): seq<Node<T>>
    decreases cs, 0
  {
    if cs == [] then [] else PreOrder(cs[0]) + ForestPreOrder(cs[1..])
  }

  /** Right-to-left pre-order: a node, then each child's subtree from the last child on. */
  function RevPreOrder<T>(n: Node<T>): seq<Node<T>>
    decreases n, 1
  {
    [n] + ForestRevPreOrder(n.children)
  }

  /**
   * The order in which `search` pops the nodes of a stack whose top is the
   * last element; for a node's children pushed in forward order this is the
   * right-to-left order of their subtrees.
   */
  function ForestRevPreOrder<T>(cs: seq<Node<T>>): seq<Node<T>>
    decreases cs, 0
  {
    if cs == [] then []
    else RevPreOrder(cs[|cs| - 1]) + ForestRevPreOrder(cs[..|cs| - 1])
  }

  /** The payloads of a sequence of nodes. */
  function Values<T>(s: seq<Node<T>>): (v: seq<T>)
    ensures |v| == |s| && forall i :: 0 <= i < |s| ==> v[i] == s[i].data
  {
    if s == [] then [] else [s[0].data] + Values(s[1..])
  }

  function Reversed<X>(s: seq<X>): seq<X> {
    if s == [] then [] else Reversed(s[1..]) + [s[0]]
  }

  /**
   * The nodes an iterator with stack `stack` still yields, in order: the top
   * node's subtree in pre-order, then the rest of the stack's.
   */
  function Pending<T>(stack: seq<Node<T>>): seq<Node<T>> {
    if stack == [] then []
    else PreOrder(stack[|stack| - 1]) + Pending(stack[..|stack| - 1])
  }

  /** The stack after one `++`: the top is popped and its children pushed in reverse. */
  function Step<T>(stack: seq<Node<T>>): seq<Node<T>>
    requires stack != []
  {
    stack[..|stack| - 1] + Reversed(stack[|stack| - 1].children)
  }

  /** The first node of `s` whose payload is `x`, if any. */
  function FirstWithData<T(==)>(s: seq<Node<T>>, x: T): (r: Option<Node<T>>)
    ensures r.Some? ==> r.value in s && r.value.data == x
    ensures r.Some? ==> exists k :: 0 <= k < |s| && s[k] == r.value &&
                                    forall j :: 0 <= j < k ==> s[j].data != x
    ensures r.None? <==> forall i :: 0 <= i < |s| ==> s[i].data != x
  {
    if s == [] then None
    else if s[0].data == x then Some(s[0])
    else
      var r := FirstWithData(s[1..], x);
      assert forall i :: 1 <= i < |s| ==> s[i] == s[1..][i - 1];
      r
  }

  /** The stack after `k` steps of `++`. */
  function Advanced<T>(stack: seq<Node<T>>, k: nat): seq<Node<T>>
    requires k <= |Pending(stack)|
    decreases k
  {
    if k == 0 then stack
    else
      StepPending(stack);
      Advanced(Step(stack), k - 1)
  }

  /** A tree of `Count(n)` nodes has exactly `Count(n)` entries in either order. */
  lemma {:induction false} PreOrderLength<T>(n: Node<T>)
    ensures |PreOrder(n)| == Count(n) && |RevPreOrder(n)| == Count(n)
    decreases n, 1
  {
    ForestPreOrderLength(n.children);
  }

  lemma {:induction false} ForestPreOrderLength<T>(cs: seq<Node<T>>)
    ensures |ForestPreOrder(cs)| == ForestCount(cs)
    ensures |ForestRevPreOrder(cs)| == ForestCount(cs)
    decreases cs, 0
  {
    if cs != [] {
      PreOrderLength(cs[0]);
      ForestPreOrderLength(cs[1..]);
      PreOrderLength(cs[|cs| - 1]);
      ForestPreOrderLength(cs[..|cs| - 1]);
      ForestCountSnoc(cs[..|cs| - 1], cs[|cs| - 1]);
      assert cs[..|cs| - 1] + [cs[|cs| - 1]] == cs;
    }
  }

  lemma {:induction false} ForestCountSnoc<T>(cs: seq<Node<T>>, c: Node<T>)
    ensures ForestCount(cs + [c]) == ForestCount(cs) + Count(c)
  {
    if cs == [] {
      assert [c][1..] == [];
    } else {
      assert (cs + [c])[1..] == cs[1..] + [c];
      ForestCountSnoc(cs[1..], c);
    }
  }

  lemma {:induction false} ForestPreOrderSnoc<T>(cs: seq<Node<T>>, c: Node<T>)
    ensures ForestPreOrder(cs + [c]) == ForestPreOrder(cs) + PreOrder(c)
  {
    if cs == [] {
      assert [c][1..] == [];
    } else {
      assert (cs + [c])[1..] == cs[1..] + [c];
      ForestPreOrderSnoc(cs[1..], c);
    }
  }

  /** Both orders visit the same nodes, the same number of times. */
  lemma {:induction false} SameNodes<T>(n: Node<T>)
    ensures multiset(RevPreOrder(n)) == multiset(PreOrder(n))
    decreases n, 1
  {
    SameForestNodes(n.children);
  }

  lemma {:induction false} SameForestNodes<T>(cs: seq<Node<T>>)
    ensures multiset(ForestRevPreOrder(cs)) == multiset(ForestPreOrder(cs))
    decreases cs, 0
  {
    if cs != [] {
      var init, last := cs[..|cs| - 1], cs[|cs| - 1];
      SameNodes(last);
      SameForestNodes(init);
      ForestPreOrderSnoc(init, last);
      assert init + [last] == cs;
    }
  }

  /** Pushing `b` on top of `a` yields `b`'s pending nodes first. */
  lemma {:induction false} PendingAppend<T>(a: seq<Node<T>>, b: seq<Node<T>>)
    ensures Pending(a + b) == Pending(b) + Pending(a)
    decreases |b|
  {
    if b != [] {
      var ab := a + b;
      assert ab[|ab| - 1] == b[|b| - 1];
      assert ab[..|ab| - 1] == a + b[..|b| - 1];
      PendingAppend(a, b[..|b| - 1]);
    } else {
      assert a + b == a;
    }
  }

  /** Children pushed in reverse come off the stack in left-to-right pre-order. */
  lemma {:induction false} PendingReversed<T>(cs: seq<Node<T>>)
    ensures Pending(Reversed(cs)) == ForestPreOrder(cs)
  {
    if cs != [] {
      PendingReversed(cs[1..]);
      PendingAppend(Reversed(cs[1..]), [cs[0]]);
      assert Pending([cs[0]]) == PreOrder(cs[0]) by {
        assert [cs[0]][..0] == [];
      }
    }
  }

  /** The same for `search`'s stack: children pushed forward come off in right-to-left pre-order. */
  lemma {:induction false} ForestRevAppend<T>(a: seq<Node<T>>, b: seq<Node<T>>)
    ensures ForestRevPreOrder(a + b) == ForestRevPreOrder(b) + ForestRevPreOrder(a)
    decreases |b|
  {
    if b != [] {
      var ab := a + b;
      assert ab[|ab| - 1] == b[|b| - 1];
      assert ab[..|ab| - 1] == a + b[..|b| - 1];
      ForestRevAppend(a, b[..|b| - 1]);
    } else {
      assert a + b == a;
    }
  }

  /**
   * One `++` yields the top node, which is the first pending node, and
   * leaves exactly the rest pending.
   */
  lemma {:induction false} StepPending<T>(stack: seq<Node<T>>)
    requires stack != []
    ensures Pending(stack) != [] && Pending(stack)[0] == stack[|stack| - 1]
    ensures Pending(Step(stack)) == Pending(stack)[1..]
  {
    var top, rest := stack[|stack| - 1], stack[..|stack| - 1];
    var tail := ForestPreOrder(top.children) + Pending(rest);
    assert Pending(stack) == [top] + tail;
    PendingAppend(rest, Reversed(top.children));
    PendingReversed(top.children);
    assert Pending(Step(stack)) == tail;
    assert ([top] + tail)[1..] == tail;
  }

  /** Nothing is pending exactly when the stack is empty. */
  lemma PendingEmpty<T>(stack: seq<Node<T>>)
    ensures Pending(stack) == [] <==> stack == []
  {
  }

  /**
   * From the stack `[root]`, `k` steps of `++` have yielded the first `k`
   * nodes of the pre-order; after `Count(root)` steps the stack is empty.
   */
  lemma {:induction false} IterationFromRoot<T>(root: Node<T>, k: nat)
    requires k <= Count(root)
    ensures Pending([root]) == PreOrder(root)
    ensures k <= |Pending([root])|
    ensures Pending(Advanced([root], k)) == PreOrder(root)[k..]
    ensures Advanced([root], k) == [] <==> k == Count(root)
  {
    assert [root][..0] == [];
    PreOrderLength(root);
    AdvancedPending([root], k);
    PendingEmpty(Advanced([root], k));
  }

  lemma {:induction false} AdvancedPending<T>(stack: seq<Node<T>>, k: nat)
    requires k <= |Pending(stack)|
    ensures Pending(Advanced(stack, k)) == Pending(stack)[k..]
    decreases k
  {
    if k > 0 {
      StepPending(stack);
      AdvancedPending(Step(stack), k - 1);
    }
  }

  /** `append` adds the appended subtree's nodes; the iterator reaches them last. */
  lemma {:induction false} AppendPreOrder<T>(n: Node<T>, child: Node<T>)
    ensures Values(PreOrder(n.Append(child))) == Values(PreOrder(n)) + Values(PreOrder(child))
    ensures Count(n.Append(child)) == Count(n) + Count(child)
  {
    var c := child.(hasParent := true);
    var m := n.Append(child);
    assert m.children == n.children + [c];
    ForestPreOrderSnoc(n.children, c);
    ForestCountSnoc(n.children, c);
    calc {
      Values(PreOrder(m));
      Values([m] + ForestPreOrder(n.children) + PreOrder(c));
      { ValuesAppend([m] + ForestPreOrder(n.children), PreOrder(c)); }
      Values([m] + ForestPreOrder(n.children)) + Values(PreOrder(c));
      { assert Values([m] + ForestPreOrder(n.children)) == Values(PreOrder(n)); }
      Values(PreOrder(n)) + Values(PreOrder(c));
      { assert Values(PreOrder(c)) == Values(PreOrder(child)); }
      Values(PreOrder(n)) + Values(PreOrder(child));
    }
  }

  lemma ValuesAppend<T>(a: seq<Node<T>>, b: seq<Node<T>>)
    ensures Values(a + b) == Values(a) + Values(b)
  {
  }

  /** `remove` of a present child drops exactly that child's subtree from the node count. */
  lemma {:induction false} RemoveCount<T>(n: Node<T>, child: Node<T>)
    requires n.Index(child) < |n.children|
    ensures Count(n.Remove(child)) == Count(n) - Count(n.children[n.Index(child)])
  {
    var k := n.Index(child);
    var cs := n.children;
    ForestCountAppend(cs[..k], cs[k..]);
    ForestCountAppend(cs[..k], cs[k + 1..]);
    assert cs[..k] + cs[k..] == cs;
    assert cs[k..][1..] == cs[k + 1..];
  }

  lemma {:induction false} ForestCountAppend<T>(a: seq<Node<T>>, b: seq<Node<T>>)
    ensures ForestCount(a + b) == ForestCount(a) + ForestCount(b)
  {
    if a != [] {
      assert (a + b)[1..] == a[1..] + b;
      ForestCountAppend(a[1..], b);
    } else {
      assert a + b == b;
    }
  }

  /**
   * The first match in `search`'s order need not be the first match in the
   * iterator's: with two children both carrying 1, `search` meets the
   * second child first.
   */
  lemma SearchOrderDiffersFromIteration()
    ensures var a, b := Node(1, true, []), Node(1, true, [Node(2, true, [])]);
            var t := Node(0, false, [a, b]);
            FirstWithData(RevPreOrder(t), 1) == Some(b) &&
            FirstWithData(PreOrder(t), 1) == Some(a)
  {
    var c := Node(2, true, []);
    var a, b := Node(1, true, []), Node(1, true, [c]);
    var t := Node(0, false, [a, b]);
    assert RevPreOrder(a) == [a];
    assert RevPreOrder(c) == [c];
    assert ForestRevPreOrder([c]) == [c] by { assert [c][..0] == []; }
    assert RevPreOrder(b) == [b, c];
    assert ForestRevPreOrder([a]) == [a] by { assert [a][..0] == []; }
    assert [a, b][..1] == [a];
    assert RevPreOrder(t) == [t, b, c, a];
    assert PreOrder(a) == [a];
    assert [a, b][1..] == [b];
    assert ForestPreOrder([b]) == PreOrder(b) by { assert [b][1..] == []; }
    assert PreOrder(t) == [t, a] + PreOrder(b);
  }
}
