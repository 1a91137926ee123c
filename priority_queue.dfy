/** A max-priority queue kept as a leftist heap.  Compare is `<` on integers,
    so the root holds an element that no other element is greater than. */
module PriorityQueues {
  import opened Exceptions

  /** A heap node holds its element `x`, its distance `d` to the nearest
      missing child (cached), and two subheaps. */
  datatype Heap = Leaf | Node(x: int, d: int, l: Heap, r: Heap)

  function NodeCount(t: Heap): nat
  {
    if t.Leaf? then 0 else 1 + NodeCount(t.l) + NodeCount(t.r)
  }

  function Elems(t: Heap): multiset<int>
  {
    if t.Leaf? then multiset{} else multiset{t.x} + Elems(t.l) + Elems(t.r)
  }

  /** `TreeDist`: the cached distance, -1 for an empty heap. */
  function TreeDist(t: Heap): (d: int)
    ensures t.Leaf? ==> d == -1
    ensures t.Node? ==> d == t.d
  {
    if t.Leaf? then -1 else t.d
  }

  /** The null-path length computed from the shape alone. */
  function NullPath(t: Heap): int
  {
    if t.Leaf? then -1 else 1 + (if NullPath(t.l) < NullPath(t.r) then NullPath(t.l) else NullPath(t.r))
  }

  /** Nothing in `t` is greater than its root, at every node. */
  ghost predicate HeapOrdered(t: Heap)
  {
    t.Node? ==>
      (t.l.Node? ==> t.l.x <= t.x) && (t.r.Node? ==> t.r.x <= t.x)
      && HeapOrdered(t.l) && HeapOrdered(t.r)
  }

  /** The leftist property: the left child is at least as distant as the
      right child, and `d` is one more than the right child's distance. */
  ghost predicate Leftist(t: Heap)
  {
    t.Node? ==>
      TreeDist(t.l) >= TreeDist(t.r) && t.d == TreeDist(t.r) + 1
      && Leftist(t.l) && Leftist(t.r)
  }

  /** An element no element of `m` exceeds. */
  ghost predicate IsMax(v: int, m: multiset<int>)
  {
    v in m && forall y :: y in m ==> y <= v
  }

  lemma {:induction false} NodeCountIsCardinality(t: Heap)
    ensures NodeCount(t) == |Elems(t)|
  {
    if t.Node? {
      NodeCountIsCardinality(t.l);
      NodeCountIsCardinality(t.r);
    }
  }

  /** In a heap-ordered heap the root is the greatest element. */
  lemma {:induction false} RootIsMax(t: Heap)
    requires HeapOrdered(t) && t.Node?
    ensures IsMax(t.x, Elems(t))
  {
    if t.l.Node? {
      RootIsMax(t.l);
    }
    if t.r.Node? {
      RootIsMax(t.r);
    }
  }

  /** Under the leftist property the cached distance is the null-path length
      and the right spine is the shortest path to a missing child. */
  lemma {:induction false} CachedDistIsNullPath(t: Heap)
    requires Leftist(t)
    ensures TreeDist(t) == NullPath(t)
  {
    if t.Node? {
      CachedDistIsNullPath(t.l);
      CachedDistIsNullPath(t.r);
    }
  }

  /** `TreeMerge(t1, t2)`: the root with the greater element stays on top
      and its right subheap is merged with the other heap. */
  function TreeMerge(t1: Heap, t2: Heap): (t: Heap)
    decreases NodeCount(t1) + NodeCount(t2), 1
    ensures Elems(t) == Elems(t1) + Elems(t2)
    ensures NodeCount(t) == NodeCount(t1) + NodeCount(t2)
    ensures t.Node? ==> (t1.Node? && t.x == t1.x) || (t2.Node? && t.x == t2.x)
    ensures HeapOrdered(t1) && HeapOrdered(t2) ==> HeapOrdered(t)
    ensures Leftist(t1) && Leftist(t2) ==> Leftist(t)
  {
    if t1.Leaf? then t2
    else if t2.Leaf? then t1
    else if t1.x < t2.x then MergeUnder(t2, t1)
    else MergeUnder(t1, t2)
  }

  /** The non-empty case of `TreeMerge`, after the swap that puts the heap
      with the greater root first. */
  function MergeUnder(a: Heap, b: Heap): (t: Heap)
    requires a.Node? && b.Node? && b.x <= a.x
    decreases NodeCount(a) + NodeCount(b), 0
    ensures Elems(t) == Elems(a) + Elems(b)
    ensures NodeCount(t) == NodeCount(a) + NodeCount(b)
    ensures t.Node? && t.x == a.x
    ensures HeapOrdered(a) && HeapOrdered(b) ==> HeapOrdered(t)
    ensures Leftist(a) && Leftist(b) ==> Leftist(t)
  {
    var m := TreeMerge(a.r, b);
    assert HeapOrdered(a) ==> HeapOrdered(a.l) && HeapOrdered(a.r) && (a.r.Node? ==> a.r.x <= a.x);
    assert Leftist(a) ==> Leftist(a.l) && Leftist(a.r);
    Attach(a.x, a.l, m)
  }

  /** Builds a node over two subheaps, putting the more distant one on the
      left and caching the new distance. */
  function Attach(x: int, u: Heap, v: Heap): (t: Heap)
    ensures t.Node? && t.x == x
    ensures Elems(t) == multiset{x} + Elems(u) + Elems(v)
    ensures NodeCount(t) == 1 + NodeCount(u) + NodeCount(v)
    ensures HeapOrdered(u) && HeapOrdered(v) && (u.Node? ==> u.x <= x) && (v.Node? ==> v.x <= x)
            ==> HeapOrdered(t)
    ensures Leftist(u) && Leftist(v) ==> Leftist(t)
  {
    if TreeDist(u) < TreeDist(v) then Node(x, TreeDist(u) + 1, v, u)
    else Node(x, TreeDist(v) + 1, u, v)
  }

  class PriorityQueue {
    var root: Heap
    var n: nat

    /** `n` counts the nodes, and the tree is a leftist max-heap. */
    ghost predicate Valid()
      reads this
    {
      n == NodeCount(root) && HeapOrdered(root) && Leftist(root)
    }

    /** The elements held. */
    ghost function Contents(): multiset<int>
      reads this
    {
      Elems(root)
    }

    constructor ()
      ensures Valid() && Contents() == multiset{}
    {
      root, n := Leaf, 0;
    }

    method Top() returns (r: Result<int>)
      requires Valid()
      ensures r.Err? <==> Contents() == multiset{}
      ensures r.Err? ==> r.error == ContainerIsEmpty
      ensures r.Ok? ==> IsMax(r.value, Contents())
    {
      NodeCountIsCardinality(root);
      if n == 0 {
        return Err(ContainerIsEmpty);
      }
      RootIsMax(root);
      return Ok(root.x);
    }

    method Push(e: int)
      requires Valid()
      modifies this
      ensures Valid()
      ensures Contents() == old(Contents()) + multiset{e} && n == old(n) + 1
    {
      n := n + 1;
      var p := Attach(e, Leaf, Leaf);
      root := TreeMerge(root, p);
    }

    /** Removes one occurrence of the greatest element. */
    method Pop() returns (o: Outcome)
      requires Valid()
      modifies this
      ensures Valid()
      ensures o.Fail? <==> old(Contents()) == multiset{}
      ensures o.Fail? ==> o.error == ContainerIsEmpty && Contents() == old(Contents())
      ensures o.Done? ==> old(root).Node? && IsMax(old(root).x, old(Contents()))
      ensures o.Done? ==> Contents() + multiset{old(root).x} == old(Contents()) && n == old(n) - 1
    {
      NodeCountIsCardinality(root);
      if n == 0 {
        return Fail(ContainerIsEmpty);
      }
      RootIsMax(root);
      n := n - 1;
      var tmp := root;
      root := TreeMerge(tmp.l, tmp.r);
      return Done;
    }

    function Size(): (k: nat)
      reads this
      requires Valid()
      ensures k == |Contents()|
    {
      NodeCountIsCardinality(root);
      n
    }

    function Empty(): (b: bool)
      reads this
      requires Valid()
      ensures b <==> Contents() == multiset{}
    {
      NodeCountIsCardinality(root);
      n == 0
    }

    /** Moves every element of `other` into this queue and leaves `other` empty. */
    method Merge(other: PriorityQueue)
      requires Valid() && other.Valid() && other != this
      modifies this, other
      ensures Valid() && other.Valid()
      ensures Contents() == old(Contents()) + old(other.Contents()) && n == old(n) + old(other.n)
      ensures other.Contents() == multiset{} && other.n == 0
    {
      n := n + other.n;
      root := TreeMerge(root, other.root);
      other.root := Leaf;
      other.n := 0;
    }
  }
}
