/** Optional values and results with an error, for null returns and exceptions. */
module Wrappers {
  datatype Option<T> = None | Some(value: T)

  datatype Result<T, E> = Ok(value: T) | Err(error: E)
}

/**
 * The node of the generic ordered tree (`tree::node` in tree.h).
 *
 * A node holds a payload, a "has a parent" mark standing in for the parent
 * pointer, and its children by value, in insertion order. Because children
 * are held by value, a node is a value here and acyclicity is structural.
 */
module TreeNode {
  import opened Wrappers

  /** The exception `operator[]` throws: `std::out_of_range`. */
  datatype TreeError = OutOfRange

  /**
   * `hasParent` is true exactly when the source's `_parent` pointer is not
   * null; which node the pointer designates is not modelled.
   */
  datatype Node<T(==)> = Node(data: T, hasParent: bool, children: seq<Node<T>>)
  {
    /** `is_leaf`: no children, so that `operator[]` rejects every index, 0 included. */
    function IsLeaf(): (b: bool)
      ensures b <==> At(0).Err?
    {
      children == []
    }

    /** `is_root`: the parent pointer is null. */
    function IsRoot(): (b: bool)
      ensures b <==> !hasParent
    {
      !hasParent
    }

    /**
     * `operator==`: compares the payloads with `T`'s `==`, so two nodes are
     * equal exactly when they agree once children and parent are ignored.
     */
    function Eq(o: Node<T>): (b: bool)
      ensures b <==> this.(children := [], hasParent := false) == o.(children := [], hasParent := false)
    {
      data == o.data
    }

    /** `operator!=`: compares the payloads with `T`'s `!=`, the negation of `==`. */
    function Ne(o: Node<T>): (b: bool)
      ensures b <==> !Eq(o)
    {
      data != o.data
    }

    /**
     * `append`: the child goes to the end of the children, marked as having
     * a parent. The source writes through a const reference and builds the
     * parent pointer with `make_shared<node>(this)`; the evident intent is
     * modelled.
     */
    function Append(child: Node<T>): (r: Node<T>)
      ensures r.data == data && r.hasParent == hasParent
      ensures |r.children| == |children| + 1
      ensures r.children[..|children|] == children
      ensures r.children[|children|].data == child.data
      ensures r.children[|children|].children == child.children
      ensures !r.children[|children|].IsRoot() && !r.IsLeaf()
    {
      this.(children := children + [child.(hasParent := true)])
    }

    /**
     * `index`: the position `std::find` reaches, i.e. that of the first
     * child equal (by payload) to `child`, or the number of children when
     * there is none.
     */
    function Index(child: Node<T>): (k: nat)
      ensures k <= |children|
      ensures k < |children| ==> children[k].Eq(child)
      ensures forall j :: 0 <= j < k ==> children[j].Ne(child)
    {
      FindFirst(children, child)
    }

    /**
     * `remove`: the source calls a `vector::remove` that does not exist; this
     * model erases the FIRST child equal (by payload) to `child`, as
     * `erase(find(...))` would, and leaves the children alone when none is.
     */
    function Remove(child: Node<T>): (r: Node<T>)
      ensures r.data == data && r.hasParent == hasParent
      ensures |r.children| <= |children|
      ensures (forall j :: 0 <= j < |children| ==> children[j].Ne(child)) ==> r == this
      ensures forall k ::
                (0 <= k < |children| && children[k].Eq(child) &&
                 forall j :: 0 <= j < k ==> children[j].Ne(child))
                ==> r.children == children[..k] + children[k + 1..]
    {
      var k := Index(child);
      if k == |children| then this
      else this.(children := children[..k] + children[k + 1..])
    }

    /** `operator[]`: a copy of child `idx`, or `out_of_range` past the end. */
    function At(idx: nat): (r: Result<Node<T>, TreeError>)
      ensures r.Err? <==> idx >= |children|
      ensures r.Err? ==> r.error == OutOfRange
      ensures r.Ok? ==> r.value == children[idx]
    {
      if idx >= |children| then Err(OutOfRange) else Ok(children[idx])
    }
  }

  /** `node(data)`: a node with no parent and no children. */
  function Leaf<T(==)>(data: T): (n: Node<T>)
    ensures n.data == data && n.IsRoot() && n.IsLeaf()
  {
    Node(data, false, [])
  }

  /** `node(data, parent)`: a childless node; a root exactly when `parent` is null. */
  function WithParent<T(==)>(data: T, hasParent: bool): (n: Node<T>)
    ensures n.data == data && n.IsLeaf()
    ensures n.IsRoot() <==> !hasParent
  {
    Node(data, hasParent, [])
  }

  /** `std::find` over a vector of nodes, comparing with the node's `==`. */
  function FindFirst<T(==)>(cs: seq<Node<T>>, x: Node<T>): (k: nat)
    ensures k <= |cs|
    ensures k < |cs| ==> cs[k].Eq(x)
    ensures forall j :: 0 <= j < k ==> cs[j].Ne(x)
  {
    if cs == [] then 0
    else if cs[0].Eq(x) then 0
    else 1 + FindFirst(cs[1..], x)
  }

  /** Node equality ignores children and parent; `!=` is its negation. */
  lemma EqualityIsPayloadOnly<T>(a: Node<T>, b: Node<T>, cs: seq<Node<T>>, p: bool)
    ensures a.Eq(b) <==> a.data == b.data
    ensures a.Eq(b) <==> a.(children := cs, hasParent := p).Eq(b)
    ensures a.Ne(b) <==> !a.Eq(b)
  {
  }

  /** After `append`, the index of the appended child is its old first match or the new last slot. */
  lemma AppendThenIndex<T>(n: Node<T>, child: Node<T>)
    ensures n.Append(child).Index(child) == n.Index(child)
  {
  }

  /** After `append`, `operator[]` at the old size yields the appended child, marked as parented. */
  lemma AppendThenAt<T>(n: Node<T>, child: Node<T>)
    ensures n.Append(child).At(|n.children|) == Ok(child.(hasParent := true))
    ensures forall i :: 0 <= i < |n.children| ==> n.Append(child).At(i) == n.At(i)
  {
  }

  /** `remove` undoes an `append` of a child whose payload was not yet among the children. */
  lemma RemoveUndoesAppend<T>(n: Node<T>, child: Node<T>)
    requires n.Index(child) == |n.children|
    ensures n.Append(child).Remove(child) == n
  {
  }

  /** A position found by `index` is one `operator[]` accepts, and it yields an equal child. */
  lemma IndexThenAt<T>(n: Node<T>, child: Node<T>)
    requires n.Index(child) < |n.children|
    ensures n.At(n.Index(child)).Ok?
    ensures n.At(n.Index(child)).value.Eq(child)
  {
  }

  /** `remove` takes out exactly one child, the first match, when there is one. */
  lemma {:induction false} RemoveDropsOne<T>(n: Node<T>, child: Node<T>)
    requires n.Index(child) < |n.children|
    ensures |n.Remove(child).children| == |n.children| - 1
    ensures multiset(n.Remove(child).children) + multiset{n.children[n.Index(child)]} == multiset(n.children)
  {
    var k := n.Index(child);
    var cs := n.children;
    assert cs == cs[..k] + [cs[k]] + cs[k + 1..];
  }
}
