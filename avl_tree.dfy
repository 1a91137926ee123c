/** The nodes of the ordered map: a binary search tree on integer keys
    (compared with `<`, so two keys are equivalent exactly when they are
    equal) whose nodes cache their subtree size `sizeT` and height `h`, kept
    balanced by the four AVL rotations, with recursive insertion, removal
    and order-statistics lookup.  A tree is a value here: a rewritten child
    pointer is a new subtree returned to the caller. */
module AvlTrees {

  /** `Empty` is a null child; a node carries its key, its mapped value,
      its two subtrees and the cached `sizeT` and `h`. */
  datatype Tree<V> = Empty | Node(l: Tree<V>, key: int, val: V, r: Tree<V>, sizeT: nat, h: int)

  function Max(a: int, b: int): int
  {
    if a > b then a else b
  }

  /** `GetSizeT`: the cached size, 0 for a null child. */
  function GetSizeT<V>(t: Tree<V>): (s: nat)
    ensures t.Empty? ==> s == 0
    ensures t.Node? ==> s == t.sizeT
  {
    if t.Empty? then 0 else t.sizeT
  }

  /** `GetH`: the cached height, -1 for a null child. */
  function GetH<V>(t: Tree<V>): (h: int)
    ensures t.Empty? ==> h == -1
    ensures t.Node? ==> h == t.h
  {
    if t.Empty? then -1 else t.h
  }

  /** A node built from its parts with `Update` applied: its caches are
      recomputed from its children's. */
  function Update<V>(l: Tree<V>, key: int, val: V, r: Tree<V>): (t: Tree<V>)
    ensures t.Node? && t.l == l && t.key == key && t.val == val && t.r == r
    ensures GetSizeT(t) == GetSizeT(l) + GetSizeT(r) + 1
    ensures GetH(t) == Max(GetH(l), GetH(r)) + 1
  {
    Node(l, key, val, r, GetSizeT(l) + GetSizeT(r) + 1, Max(GetH(l), GetH(r)) + 1)
  }

  // ------------------------------------------------- reference definitions

  /** The number of nodes. */
  function NodeCount<V>(t: Tree<V>): nat
  {
    if t.Empty? then 0 else NodeCount(t.l) + NodeCount(t.r) + 1
  }

  /** The height, counting edges: -1 for the empty tree. */
  function Height<V>(t: Tree<V>): int
  {
    if t.Empty? then -1 else Max(Height(t.l), Height(t.r)) + 1
  }

  /** The keys of a tree. */
  function Keys<V>(t: Tree<V>): set<int>
  {
    if t.Empty? then {} else Keys(t.l) + {t.key} + Keys(t.r)
  }

  /** The keys in left-to-right (in-order) order. */
  function InOrder<V>(t: Tree<V>): seq<int>
  {
    if t.Empty? then [] else InOrder(t.l) + [t.key] + InOrder(t.r)
  }

  /** The key-to-value mapping a tree stores. */
  function Model<V>(t: Tree<V>): map<int, V>
  {
    if t.Empty? then map[] else (Model(t.l) + Model(t.r))[t.key := t.val]
  }

  // ------------------------------------------------------------ invariants

  /** Every node's caches satisfy the `Update` equations and its children's
      heights differ by at most one. */
  ghost predicate Balanced<V>(t: Tree<V>)
  {
    t.Empty? ||
    (Balanced(t.l) && Balanced(t.r)
     && t.sizeT == GetSizeT(t.l) + GetSizeT(t.r) + 1
     && t.h == Max(GetH(t.l), GetH(t.r)) + 1
     && -1 <= GetH(t.l) - GetH(t.r) <= 1)
  }

  /** The search-tree order: every key on the left of a node is smaller than
      the node's, every key on its right larger. */
  ghost predicate Ordered<V>(t: Tree<V>)
  {
    t.Empty? ||
    (Ordered(t.l) && Ordered(t.r)
     && (forall x :: x in Keys(t.l) ==> x < t.key)
     && (forall x :: x in Keys(t.r) ==> t.key < x))
  }

  /** A well-formed AVL search tree. */
  ghost predicate IsAvl<V>(t: Tree<V>)
  {
    Balanced(t) && Ordered(t)
  }

  /** A strictly increasing sequence of keys. */
  ghost predicate Increasing(s: seq<int>)
  {
    forall i, j :: 0 <= i < j < |s| ==> s[i] < s[j]
  }

  // ------------------------------------------------- facts about the model

  /** The caches hold the true size and height. */
  lemma {:induction false} CachesAreTrue<V>(t: Tree<V>)
    requires Balanced(t)
    ensures GetSizeT(t) == NodeCount(t) && GetH(t) == Height(t)
  {
    if t.Node? {
      CachesAreTrue(t.l);
      CachesAreTrue(t.r);
    }
  }

  /** Cached heights start at -1 for the empty tree and 0 for a leaf. */
  lemma {:induction false} HeightAtLeast<V>(t: Tree<V>)
    requires Balanced(t)
    ensures GetH(t) >= -1 && (t.Node? ==> GetH(t) >= 0)
  {
    if t.Node? {
      HeightAtLeast(t.l);
    }
  }

  /** The in-order sequence holds exactly the keys, once each, and one per node. */
  lemma {:induction false} InOrderKeys<V>(t: Tree<V>)
    ensures forall x :: x in InOrder(t) <==> x in Keys(t)
    ensures |InOrder(t)| == NodeCount(t)
  {
    if t.Node? {
      InOrderKeys(t.l);
      InOrderKeys(t.r);
    }
  }

  /** A search tree lists its keys in increasing order. */
  lemma {:induction false} OrderedIsIncreasing<V>(t: Tree<V>)
    requires Ordered(t)
    ensures Increasing(InOrder(t))
  {
    if t.Node? {
      OrderedIsIncreasing(t.l);
      OrderedIsIncreasing(t.r);
      InOrderKeys(t.l);
      InOrderKeys(t.r);
      var s := InOrder(t);
      var n := |InOrder(t.l)|;
      forall i | 0 <= i < |s|
        ensures i < n ==> s[i] in Keys(t.l)
        ensures i == n ==> s[i] == t.key
        ensures i > n ==> s[i] in Keys(t.r)
      {
        if i < n {
          assert s[i] == InOrder(t.l)[i];
        } else if i > n {
          assert s[i] == InOrder(t.r)[i - n - 1];
        }
      }
      forall i, j | 0 <= i < j < |s|
        ensures s[i] < s[j]
      {
        if i > n {
          assert s[i] == InOrder(t.r)[i - n - 1] && s[j] == InOrder(t.r)[j - n - 1];
        } else if j < n {
          assert s[i] == InOrder(t.l)[i] && s[j] == InOrder(t.l)[j];
        }
      }
    }
  }

  /** The stored keys are the keys of the mapping. */
  lemma {:induction false} ModelKeys<V>(t: Tree<V>)
    ensures Model(t).Keys == Keys(t)
  {
    if t.Node? {
      ModelKeys(t.l);
      ModelKeys(t.r);
    }
  }

  /** Two increasing sequences with the same elements are equal. */
  lemma {:induction false} IncreasingUnique(s: seq<int>, u: seq<int>)
    requires Increasing(s) && Increasing(u)
    requires forall x :: x in s <==> x in u
    ensures s == u
    decreases |s|
  {
    if s != [] {
      assert s[0] in s;
    }
    if u != [] {
      assert u[0] in u;
    }
    if s != [] && u != [] {
      assert s[0] == u[0];
      forall x | x in s[1..]
        ensures x in u[1..]
      {
        assert x in u && x != u[0];
      }
      forall x | x in u[1..]
        ensures x in s[1..]
      {
        assert x in s && x != s[0];
      }
      IncreasingUnique(s[1..], u[1..]);
      assert s == [s[0]] + s[1..] && u == [u[0]] + u[1..];
    }
  }

  /** The number of nodes an AVL tree of height `h` needs at least. */
  function MinNodes(h: int): nat
    decreases h
  {
    if h < 0 then 0 else if h == 0 then 1 else MinNodes(h - 1) + MinNodes(h - 2) + 1
  }

  lemma {:induction false} MinNodesMonotone(h: int, g: int)
    requires h <= g
    ensures MinNodes(h) <= MinNodes(g)
    decreases g - h
  {
    if h < g {
      MinNodesMonotone(h, g - 1);
    }
  }

  /** The balance invariant keeps a tree of height `h` at least `MinNodes(h)`
      nodes large, which grows exponentially in `h`. */
  lemma {:induction false} AvlIsDense<V>(t: Tree<V>)
    requires Balanced(t)
    ensures GetH(t) >= -1 && NodeCount(t) >= MinNodes(GetH(t))
  {
    if t.Node? {
      AvlIsDense(t.l);
      AvlIsDense(t.r);
      var h, hl, hr := t.h, GetH(t.l), GetH(t.r);
      assert NodeCount(t) == NodeCount(t.l) + NodeCount(t.r) + 1;
      if h > 0 {
        assert MinNodes(h) == MinNodes(h - 1) + MinNodes(h - 2) + 1;
        if hl >= hr {
          assert hl == h - 1;
          MinNodesMonotone(h - 2, hr);
        } else {
          assert hr == h - 1;
          MinNodesMonotone(h - 2, hl);
        }
      }
    }
  }

  function Pow2(n: nat): nat
  {
    if n == 0 then 1 else 2 * Pow2(n - 1)
  }

  /** `MinNodes(h) + 1` at least doubles every two levels. */
  lemma {:induction false} MinNodesExponential(h: int)
    requires h >= -1
    ensures MinNodes(h) + 1 >= Pow2((h + 1) / 2)
    decreases h
  {
    if h >= 1 {
      MinNodesExponential(h - 2);
      MinNodesMonotone(h - 2, h - 1);
      assert (h + 1) / 2 == (h - 1) / 2 + 1;
    }
  }

  /** The height of an AVL tree with `n` nodes is logarithmic in `n`:
      `2^((h + 1) / 2) <= n + 1`. */
  lemma {:induction false} AvlHeightBound<V>(t: Tree<V>)
    requires Balanced(t)
    ensures GetH(t) >= -1 && Pow2((GetH(t) + 1) / 2) <= NodeCount(t) + 1
  {
    AvlIsDense(t);
    MinNodesExponential(GetH(t));
  }

  // ------------------------------------------------------------- rotations

  /** `t->Update()` on a node: its caches recomputed from its children. */
  function Refresh<V>(t: Tree<V>): (r: Tree<V>)
    requires t.Node?
    ensures Keys(r) == Keys(t) && InOrder(r) == InOrder(t) && Model(r) == Model(t)
    ensures Balanced(t) ==> r == t
  {
    Update(t.l, t.key, t.val, t.r)
  }

  /** Moving the pivot: `lt` is `((a x b) y c)` and `rt` is `(a x (b y c))`,
      whatever their caches.  Both have the same search order, and then the
      same mapping. */
  lemma {:induction false} Pivot<V>(lt: Tree<V>, rt: Tree<V>)
    requires lt.Node? && lt.l.Node? && rt.Node? && rt.r.Node?
    requires lt.l.l == rt.l && lt.l.key == rt.key && lt.l.val == rt.val && lt.l.r == rt.r.l
    requires lt.key == rt.r.key && lt.val == rt.r.val && lt.r == rt.r.r
    ensures Ordered(lt) <==> Ordered(rt)
    ensures Ordered(lt) ==> Model(lt) == Model(rt)
  {
    var a, x, b, y, c := rt.l, rt.key, lt.l.r, lt.key, lt.r;
    assert Keys(lt.l) == Keys(a) + {x} + Keys(b);
    assert Keys(rt.r) == Keys(b) + {y} + Keys(c);
    if Ordered(rt) {
      assert Ordered(rt.r);
      assert y in Keys(rt.r);
      assert Ordered(lt.l);
      assert Ordered(lt);
    }
    if Ordered(lt) {
      assert Ordered(lt.l);
      assert x in Keys(lt.l);
      assert Ordered(rt.r);
      assert Ordered(rt);
      PivotModel(a, x, rt.val, b, y, lt.val, c);
      assert Model(lt) == Model(Update(Update(a, x, rt.val, b), y, lt.val, c));
      assert Model(rt) == Model(Update(a, x, rt.val, Update(b, y, lt.val, c)));
    }
  }

  /** Keys being apart, moving the pivot keeps the stored mapping. */
  lemma {:induction false} PivotModel<V>(a: Tree<V>, x: int, vx: V, b: Tree<V>, y: int, vy: V, c: Tree<V>)
    requires x < y
    requires forall k :: k in Keys(a) ==> k < x
    requires forall k :: k in Keys(b) ==> x < k < y
    requires forall k :: k in Keys(c) ==> y < k
    ensures Model(Update(Update(a, x, vx, b), y, vy, c)) == Model(Update(a, x, vx, Update(b, y, vy, c)))
  {
    ModelKeys(a);
    ModelKeys(b);
    ModelKeys(c);
    var ma, mb, mc := Model(a), Model(b), Model(c);
    var u := ((ma + mb)[x := vx] + mc)[y := vy];
    var w := (ma + (mb + mc)[y := vy])[x := vx];
    assert Model(Update(a, x, vx, b)) == (ma + mb)[x := vx];
    assert Model(Update(b, y, vy, c)) == (mb + mc)[y := vy];
    assert u.Keys == w.Keys;
    forall k | k in u
      ensures u[k] == w[k]
    {
      if k == x || k == y {
      } else if k in ma {
        assert k !in mb && k !in mc;
      } else if k in mb {
        assert k !in mc;
      }
    }
  }

  /** `LL`: the left child becomes the root. */
  function LL<V>(t: Tree<V>): (r: Tree<V>)
    requires t.Node? && t.l.Node?
    ensures InOrder(r) == InOrder(t) && Keys(r) == Keys(t)
    ensures Ordered(t) ==> Ordered(r) && Model(r) == Model(t)
  {
    var t1 := t.l;
    var u := Update(t1.l, t1.key, t1.val, Update(t1.r, t.key, t.val, t.r));
    Pivot(t, u);
    u
  }

  /** `RR`: the right child becomes the root. */
  function RR<V>(t: Tree<V>): (r: Tree<V>)
    requires t.Node? && t.r.Node?
    ensures InOrder(r) == InOrder(t) && Keys(r) == Keys(t)
    ensures Ordered(t) ==> Ordered(r) && Model(r) == Model(t)
  {
    var t1 := t.r;
    var u := Update(Update(t.l, t.key, t.val, t1.l), t1.key, t1.val, t1.r);
    Pivot(u, t);
    u
  }

  /** `LR`: `RR` on the left child, then `LL`. */
  function LR<V>(t: Tree<V>): (r: Tree<V>)
    requires t.Node? && t.l.Node? && t.l.r.Node?
    ensures InOrder(r) == InOrder(t) && Keys(r) == Keys(t)
    ensures Ordered(t) ==> Ordered(r) && Model(r) == Model(t)
  {
    LL(t.(l := RR(t.l)))
  }

  /** `RL`: `LL` on the right child, then `RR`. */
  function RL<V>(t: Tree<V>): (r: Tree<V>)
    requires t.Node? && t.r.Node? && t.r.l.Node?
    ensures InOrder(r) == InOrder(t) && Keys(r) == Keys(t)
    ensures Ordered(t) ==> Ordered(r) && Model(r) == Model(t)
  {
    RR(t.(r := LL(t.r)))
  }

  /** `LL` repairs a node whose left side is two levels too high, when the
      left child does not lean right. */
  lemma {:induction false} LLFix<V>(t: Tree<V>)
    requires t.Node? && t.l.Node? && Balanced(t.l) && Balanced(t.r)
    requires GetH(t.l) == GetH(t.r) + 2 && GetH(t.l.l) >= GetH(t.l.r)
    ensures Balanced(LL(t))
    ensures GetH(LL(t)) == if GetH(t.l.l) == GetH(t.l.r) then GetH(t.l) + 1 else GetH(t.l)
    ensures GetSizeT(LL(t)) == GetSizeT(t.l) + GetSizeT(t.r) + 1
  {
    assert Balanced(LL(t).r);
  }

  /** `RR` repairs a node whose right side is two levels too high, when the
      right child does not lean left. */
  lemma {:induction false} RRFix<V>(t: Tree<V>)
    requires t.Node? && t.r.Node? && Balanced(t.l) && Balanced(t.r)
    requires GetH(t.r) == GetH(t.l) + 2 && GetH(t.r.r) >= GetH(t.r.l)
    ensures Balanced(RR(t))
    ensures GetH(RR(t)) == if GetH(t.r.r) == GetH(t.r.l) then GetH(t.r) + 1 else GetH(t.r)
    ensures GetSizeT(RR(t)) == GetSizeT(t.l) + GetSizeT(t.r) + 1
  {
    assert Balanced(RR(t).l);
  }

  /** `LR` repairs a node whose left side is two levels too high, when the
      left child leans right. */
  lemma {:induction false} LRFix<V>(t: Tree<V>)
    requires t.Node? && t.l.Node? && t.l.r.Node? && Balanced(t.l) && Balanced(t.r)
    requires GetH(t.l) == GetH(t.r) + 2 && GetH(t.l.r) == GetH(t.l.l) + 1
    ensures Balanced(LR(t)) && GetH(LR(t)) == GetH(t.l)
    ensures GetSizeT(LR(t)) == GetSizeT(t.l) + GetSizeT(t.r) + 1
  {
    assert Balanced(LR(t).l);
    assert Balanced(LR(t).r);
  }

  /** `RL` repairs a node whose right side is two levels too high, when the
      right child leans left. */
  lemma {:induction false} RLFix<V>(t: Tree<V>)
    requires t.Node? && t.r.Node? && t.r.l.Node? && Balanced(t.l) && Balanced(t.r)
    requires GetH(t.r) == GetH(t.l) + 2 && GetH(t.r.l) == GetH(t.r.r) + 1
    ensures Balanced(RL(t)) && GetH(RL(t)) == GetH(t.r)
    ensures GetSizeT(RL(t)) == GetSizeT(t.l) + GetSizeT(t.r) + 1
  {
    assert Balanced(RL(t).l);
    assert Balanced(RL(t).r);
  }

  // ------------------------------------------------------------- insertion

  /** After an insertion that raised a subtree, its root is the old root and
      it leans towards the side that received the key. */
  ghost predicate Raised<V>(t: Tree<V>, r: Tree<V>, k: int)
  {
    GetH(r) == GetH(t) + 1 && t.Node? ==>
      r.Node? && r.key == t.key
      && (k < t.key ==> GetH(r.l) == GetH(r.r) + 1)
      && (t.key < k ==> GetH(r.r) == GetH(r.l) + 1)
  }

  /** `Insert` on the tree: the key goes in as a new leaf, and every node on
      the way back up is rebalanced by one rotation when its sides' heights
      differ by two, then has its caches updated.  The key is absent:
      the map looks it up first. */
  function InsertTree<V>(t: Tree<V>, k: int, v: V): (r: Tree<V>)
    requires IsAvl(t) && k !in Keys(t)
    ensures IsAvl(r) && Keys(r) == Keys(t) + {k} && Model(r) == Model(t)[k := v]
    ensures GetH(t) <= GetH(r) <= GetH(t) + 1 && Raised(t, r, k)
    ensures GetSizeT(r) == GetSizeT(t) + 1
    decreases t
  {
    if t.Empty? then
      Node(Empty, k, v, Empty, 1, 0)
    else if k < t.key then
      InsertLeft(t, InsertTree(t.l, k, v), k, v)
    else
      InsertRight(t, InsertTree(t.r, k, v), k, v)
  }

  /** The rest of `Insert` once the key went into the left subtree, now `l`. */
  function InsertLeft<V>(t: Tree<V>, l: Tree<V>, k: int, v: V): (r: Tree<V>)
    requires t.Node? && IsAvl(t) && k < t.key && k !in Keys(t)
    requires IsAvl(l) && Keys(l) == Keys(t.l) + {k} && Model(l) == Model(t.l)[k := v]
    requires GetH(t.l) <= GetH(l) <= GetH(t.l) + 1 && Raised(t.l, l, k)
    requires GetSizeT(l) == GetSizeT(t.l) + 1
    ensures IsAvl(r) && Keys(r) == Keys(t) + {k} && Model(r) == Model(t)[k := v]
    ensures GetH(t) <= GetH(r) <= GetH(t) + 1 && Raised(t, r, k)
    ensures GetSizeT(r) == GetSizeT(t) + 1
  {
    InsertedLeft(t, l, k, v);
    HeightAtLeast(t.r);
    if GetH(l) - GetH(t.r) == 2 then RotateLeftHigh(t, l, k) else Refresh(t.(l := l))
  }

  /** The rotation `Insert` does on a node whose left side, now `l`, grew
      two levels higher than its right: `LL` when the key went left of
      `l`'s root, `LR` when it went right. */
  function RotateLeftHigh<V>(t: Tree<V>, l: Tree<V>, k: int): (r: Tree<V>)
    requires t.Node? && IsAvl(t) && Ordered(t.(l := l)) && k !in Keys(t) && k in Keys(l)
    requires Balanced(l) && GetH(l) == GetH(t.l) + 1 && Raised(t.l, l, k)
    requires GetSizeT(l) == GetSizeT(t.l) + 1 && GetH(l) - GetH(t.r) == 2
    ensures IsAvl(r) && Keys(r) == Keys(t.(l := l)) && Model(r) == Model(t.(l := l))
    ensures GetH(r) == GetH(t) && GetSizeT(r) == GetSizeT(t) + 1
  {
    HeightAtLeast(t.r);
    var t1 := t.(l := l);
    assert t.l.Node? && l.key == t.l.key && t.l.key in Keys(t.l);
    if k < l.key then
      LLFix(t1);
      Refresh(LL(t1))
    else
      HeightAtLeast(l.l);
      LRFix(t1);
      Refresh(LR(t1))
  }

  /** The rest of `Insert` once the key went into the right subtree, now `rr`. */
  function InsertRight<V>(t: Tree<V>, rr: Tree<V>, k: int, v: V): (r: Tree<V>)
    requires t.Node? && IsAvl(t) && t.key < k && k !in Keys(t)
    requires IsAvl(rr) && Keys(rr) == Keys(t.r) + {k} && Model(rr) == Model(t.r)[k := v]
    requires GetH(t.r) <= GetH(rr) <= GetH(t.r) + 1 && Raised(t.r, rr, k)
    requires GetSizeT(rr) == GetSizeT(t.r) + 1
    ensures IsAvl(r) && Keys(r) == Keys(t) + {k} && Model(r) == Model(t)[k := v]
    ensures GetH(t) <= GetH(r) <= GetH(t) + 1 && Raised(t, r, k)
    ensures GetSizeT(r) == GetSizeT(t) + 1
  {
    InsertedRight(t, rr, k, v);
    HeightAtLeast(t.l);
    if GetH(rr) - GetH(t.l) == 2 then RotateRightHigh(t, rr, k) else Refresh(t.(r := rr))
  }

  /** The rotation `Insert` does on a node whose right side, now `rr`, grew
      two levels higher than its left: `RR` when the key went right of
      `rr`'s root, `RL` when it went left. */
  function RotateRightHigh<V>(t: Tree<V>, rr: Tree<V>, k: int): (r: Tree<V>)
    requires t.Node? && IsAvl(t) && Ordered(t.(r := rr)) && k !in Keys(t) && k in Keys(rr)
    requires Balanced(rr) && GetH(rr) == GetH(t.r) + 1 && Raised(t.r, rr, k)
    requires GetSizeT(rr) == GetSizeT(t.r) + 1 && GetH(rr) - GetH(t.l) == 2
    ensures IsAvl(r) && Keys(r) == Keys(t.(r := rr)) && Model(r) == Model(t.(r := rr))
    ensures GetH(r) == GetH(t) && GetSizeT(r) == GetSizeT(t) + 1
  {
    HeightAtLeast(t.l);
    var t1 := t.(r := rr);
    assert t.r.Node? && rr.key == t.r.key && t.r.key in Keys(t.r);
    if rr.key < k then
      RRFix(t1);
      Refresh(RR(t1))
    else
      HeightAtLeast(rr.r);
      RLFix(t1);
      Refresh(RL(t1))
  }

  /** The facts about a node whose left subtree received the key. */
  lemma {:induction false} InsertedLeft<V>(t: Tree<V>, l: Tree<V>, k: int, v: V)
    requires t.Node? && IsAvl(t) && k < t.key
    requires IsAvl(l) && Keys(l) == Keys(t.l) + {k} && Model(l) == Model(t.l)[k := v]
    requires GetH(t.l) <= GetH(l) <= GetH(t.l) + 1 && Raised(t.l, l, k)
    ensures Ordered(t.(l := l)) && Model(t.(l := l)) == Model(t)[k := v]
  {
    ModelKeys(t.r);
    AddLeft(Model(t.l), Model(t.r), t.key, t.val, k, v);
  }

  /** The facts about a node whose right subtree received the key. */
  lemma {:induction false} InsertedRight<V>(t: Tree<V>, r: Tree<V>, k: int, v: V)
    requires t.Node? && IsAvl(t) && t.key < k
    requires IsAvl(r) && Keys(r) == Keys(t.r) + {k} && Model(r) == Model(t.r)[k := v]
    requires GetH(t.r) <= GetH(r) <= GetH(t.r) + 1 && Raised(t.r, r, k)
    ensures Ordered(t.(r := r)) && Model(t.(r := r)) == Model(t)[k := v]
  {
    AddRight(Model(t.l), Model(t.r), t.key, t.val, k, v);
  }

  // --------------------------------------------------------------- removal

  /** The leftmost node of a non-empty tree, which holds its smallest key. */
  function Leftmost<V>(t: Tree<V>): (m: Tree<V>)
    requires t.Node?
    ensures m.Node? && m.l.Empty? && m.key in Keys(t)
    ensures Ordered(t) ==> (forall x :: x in Keys(t) ==> m.key <= x)
    ensures Ordered(t) ==> m.key in Model(t) && Model(t)[m.key] == m.val
  {
    ModelKeys(t.l);
    ModelKeys(t.r);
    if t.l.Empty? then t else Leftmost(t.l)
  }

  /** The code of `Remove` after a removal from the left subtree, now `l`:
      `stop` says whether that subtree kept its height.  The node's caches
      are updated, and a node whose right side became two levels higher is
      rotated; the result says whether the whole subtree kept its height. */
  function RebalanceLeft<V>(l: Tree<V>, key: int, val: V, r: Tree<V>, stop: bool): (res: (Tree<V>, bool))
    requires Balanced(l) && Balanced(r)
    requires var hl := if stop then GetH(l) else GetH(l) + 1; -1 <= hl - GetH(r) <= 1
    ensures var hl := if stop then GetH(l) else GetH(l) + 1;
            Balanced(res.0) && GetH(res.0) == (if res.1 then Max(hl, GetH(r)) + 1 else Max(hl, GetH(r)))
    ensures stop ==> res == (Update(l, key, val, r), true)
    ensures InOrder(res.0) == InOrder(l) + [key] + InOrder(r)
    ensures GetSizeT(res.0) == GetSizeT(l) + GetSizeT(r) + 1
    ensures Ordered(Update(l, key, val, r)) ==> Ordered(res.0) && Model(res.0) == Model(Update(l, key, val, r))
  {
    var t1 := Update(l, key, val, r);
    HeightAtLeast(l);
    HeightAtLeast(r);
    if stop then (t1, true)
    else
      var bf := GetH(t1.l) - GetH(t1.r) + 1;
      if bf == 0 then (t1, true)
      else if bf == 1 then (t1, false)
      else if bf == -1 then
        HeightAtLeast(r.l);
        HeightAtLeast(r.r);
        var bfr := GetH(t1.r.l) - GetH(t1.r.r);
        if bfr == 0 then
          RRFix(t1);
          (RR(t1), true)
        else if bfr == -1 then
          RRFix(t1);
          (RR(t1), false)
        else
          RLFix(t1);
          (RL(t1), false)
      else
        assert false;
        (t1, true)
  }

  /** The code of `Remove` after a removal from the right subtree, now `r`. */
  function RebalanceRight<V>(l: Tree<V>, key: int, val: V, r: Tree<V>, stop: bool): (res: (Tree<V>, bool))
    requires Balanced(l) && Balanced(r)
    requires var hr := if stop then GetH(r) else GetH(r) + 1; -1 <= GetH(l) - hr <= 1
    ensures var hr := if stop then GetH(r) else GetH(r) + 1;
            Balanced(res.0) && GetH(res.0) == (if res.1 then Max(GetH(l), hr) + 1 else Max(GetH(l), hr))
    ensures stop ==> res == (Update(l, key, val, r), true)
    ensures InOrder(res.0) == InOrder(l) + [key] + InOrder(r)
    ensures GetSizeT(res.0) == GetSizeT(l) + GetSizeT(r) + 1
    ensures Ordered(Update(l, key, val, r)) ==> Ordered(res.0) && Model(res.0) == Model(Update(l, key, val, r))
  {
    var t1 := Update(l, key, val, r);
    HeightAtLeast(l);
    HeightAtLeast(r);
    if stop then (t1, true)
    else
      var bf := GetH(t1.l) - GetH(t1.r) - 1;
      if bf == 0 then (t1, true)
      else if bf == -1 then (t1, false)
      else if bf == 1 then
        HeightAtLeast(l.l);
        HeightAtLeast(l.r);
        var bfl := GetH(t1.l.l) - GetH(t1.l.r);
        if bfl == 0 then
          LLFix(t1);
          (LL(t1), true)
        else if bfl == 1 then
          LLFix(t1);
          (LL(t1), false)
        else
          LRFix(t1);
          (LR(t1), false)
      else
        assert false;
        (t1, true)
  }

  /** `Remove` on the tree: the node holding `x` goes; one with two children
      is replaced by the leftmost node of its right subtree, which is
      removed from there first.  The second component is `Remove`'s result:
      whether the subtree kept its height. */
  function RemoveTree<V>(t: Tree<V>, x: int): (res: (Tree<V>, bool))
    requires IsAvl(t)
    ensures IsAvl(res.0) && Keys(res.0) == Keys(t) - {x} && Model(res.0) == Model(t) - {x}
    ensures GetH(res.0) == if res.1 then GetH(t) else GetH(t) - 1
    ensures GetSizeT(res.0) == if x in Keys(t) then GetSizeT(t) - 1 else GetSizeT(t)
    ensures x !in Keys(t) ==> res == (t, true)
    decreases t
  {
    if t.Empty? then (t, true)
    else if x < t.key then RemoveLeft(t, x, RemoveTree(t.l, x))
    else if t.key < x then RemoveRight(t, x, RemoveTree(t.r, x))
    else if t.l.Node? && t.r.Node? then
      var m := Leftmost(t.r);
      RemoveRoot(t, m, RemoveTree(t.r, m.key))
    else
      RemovedLeaf(t);
      (if t.l.Node? then t.l else t.r, false)
  }

  /** `Remove` once `x` went from the left subtree, with result `sub`. */
  function RemoveLeft<V>(t: Tree<V>, x: int, sub: (Tree<V>, bool)): (res: (Tree<V>, bool))
    requires t.Node? && IsAvl(t) && x < t.key
    requires IsAvl(sub.0) && Keys(sub.0) == Keys(t.l) - {x} && Model(sub.0) == Model(t.l) - {x}
    requires GetH(sub.0) == if sub.1 then GetH(t.l) else GetH(t.l) - 1
    requires GetSizeT(sub.0) == if x in Keys(t.l) then GetSizeT(t.l) - 1 else GetSizeT(t.l)
    requires x !in Keys(t.l) ==> sub == (t.l, true)
    ensures IsAvl(res.0) && Keys(res.0) == Keys(t) - {x} && Model(res.0) == Model(t) - {x}
    ensures GetH(res.0) == if res.1 then GetH(t) else GetH(t) - 1
    ensures GetSizeT(res.0) == if x in Keys(t) then GetSizeT(t) - 1 else GetSizeT(t)
    ensures x !in Keys(t) ==> res == (t, true)
  {
    RemovedLeft(t, x, sub.0);
    RebalanceLeft(sub.0, t.key, t.val, t.r, sub.1)
  }

  /** `Remove` once `x` went from the right subtree, with result `sub`. */
  function RemoveRight<V>(t: Tree<V>, x: int, sub: (Tree<V>, bool)): (res: (Tree<V>, bool))
    requires t.Node? && IsAvl(t) && t.key < x
    requires IsAvl(sub.0) && Keys(sub.0) == Keys(t.r) - {x} && Model(sub.0) == Model(t.r) - {x}
    requires GetH(sub.0) == if sub.1 then GetH(t.r) else GetH(t.r) - 1
    requires GetSizeT(sub.0) == if x in Keys(t.r) then GetSizeT(t.r) - 1 else GetSizeT(t.r)
    requires x !in Keys(t.r) ==> sub == (t.r, true)
    ensures IsAvl(res.0) && Keys(res.0) == Keys(t) - {x} && Model(res.0) == Model(t) - {x}
    ensures GetH(res.0) == if res.1 then GetH(t) else GetH(t) - 1
    ensures GetSizeT(res.0) == if x in Keys(t) then GetSizeT(t) - 1 else GetSizeT(t)
    ensures x !in Keys(t) ==> res == (t, true)
  {
    RemovedRight(t, x, sub.0);
    RebalanceRight(t.l, t.key, t.val, sub.0, sub.1)
  }

  /** `Remove` of the key of a node with two children, once its successor
      `m` went from the right subtree, with result `sub`. */
  function RemoveRoot<V>(t: Tree<V>, m: Tree<V>, sub: (Tree<V>, bool)): (res: (Tree<V>, bool))
    requires t.Node? && IsAvl(t) && t.l.Node? && t.r.Node? && m == Leftmost(t.r)
    requires IsAvl(sub.0) && Keys(sub.0) == Keys(t.r) - {m.key} && Model(sub.0) == Model(t.r) - {m.key}
    requires GetH(sub.0) == if sub.1 then GetH(t.r) else GetH(t.r) - 1
    requires GetSizeT(sub.0) == GetSizeT(t.r) - 1
    ensures IsAvl(res.0) && Keys(res.0) == Keys(t) - {t.key} && Model(res.0) == Model(t) - {t.key}
    ensures GetH(res.0) == if res.1 then GetH(t) else GetH(t) - 1
    ensures GetSizeT(res.0) == GetSizeT(t) - 1
  {
    RemovedRoot(t, m, sub.0);
    RebalanceRight(t.l, m.key, m.val, sub.0, sub.1)
  }

  lemma {:induction false} RemovedLeft<V>(t: Tree<V>, x: int, l: Tree<V>)
    requires t.Node? && IsAvl(t) && x < t.key
    requires IsAvl(l) && Keys(l) == Keys(t.l) - {x} && Model(l) == Model(t.l) - {x}
    ensures Ordered(Update(l, t.key, t.val, t.r))
    ensures Keys(Update(l, t.key, t.val, t.r)) == Keys(t) - {x}
    ensures Model(Update(l, t.key, t.val, t.r)) == Model(t) - {x}
    ensures x in Keys(t) <==> x in Keys(t.l)
  {
    ModelKeys(t.r);
    DropLeft(Model(t.l), Model(t.r), t.key, t.val, x);
  }

  lemma {:induction false} RemovedRight<V>(t: Tree<V>, x: int, r: Tree<V>)
    requires t.Node? && IsAvl(t) && t.key < x
    requires IsAvl(r) && Keys(r) == Keys(t.r) - {x} && Model(r) == Model(t.r) - {x}
    ensures Ordered(Update(t.l, t.key, t.val, r))
    ensures Keys(Update(t.l, t.key, t.val, r)) == Keys(t) - {x}
    ensures Model(Update(t.l, t.key, t.val, r)) == Model(t) - {x}
    ensures x in Keys(t) <==> x in Keys(t.r)
  {
    ModelKeys(t.l);
    DropRight(Model(t.l), Model(t.r), t.key, t.val, x);
  }

  /** A node with two children rebuilt around its successor `m`. */
  lemma {:induction false} RemovedRoot<V>(t: Tree<V>, m: Tree<V>, r: Tree<V>)
    requires t.Node? && IsAvl(t) && t.r.Node? && m == Leftmost(t.r)
    requires IsAvl(r) && Keys(r) == Keys(t.r) - {m.key} && Model(r) == Model(t.r) - {m.key}
    ensures Ordered(Update(t.l, m.key, m.val, r))
    ensures Keys(Update(t.l, m.key, m.val, r)) == Keys(t) - {t.key}
    ensures Model(Update(t.l, m.key, m.val, r)) == Model(t) - {t.key}
  {
    RootOrdered(t, m, r);
    ModelKeys(t.l);
    ModelKeys(t.r);
    DropRoot(Model(t.l), Model(t.r), t.key, t.val, m.key, m.val);
  }

  lemma {:induction false} RootOrdered<V>(t: Tree<V>, m: Tree<V>, r: Tree<V>)
    requires t.Node? && IsAvl(t) && t.r.Node? && m == Leftmost(t.r)
    requires Ordered(r) && Keys(r) == Keys(t.r) - {m.key}
    ensures Ordered(Update(t.l, m.key, m.val, r))
  {
    assert t.key < m.key;
    forall y | y in Keys(t.l)
      ensures y < m.key
    {
      assert y < t.key;
    }
    forall y | y in Keys(r)
      ensures m.key < y
    {
      assert y in Keys(t.r) && y != m.key;
    }
  }

  /** A node with at most one child is replaced by that child. */
  lemma {:induction false} RemovedLeaf<V>(t: Tree<V>)
    requires t.Node? && IsAvl(t) && (t.l.Empty? || t.r.Empty?)
    ensures var c := if t.l.Node? then t.l else t.r;
            Keys(c) == Keys(t) - {t.key} && Model(c) == Model(t) - {t.key}
            && GetH(c) == GetH(t) - 1 && GetSizeT(c) == GetSizeT(t) - 1
  {
    ModelKeys(t.l);
    ModelKeys(t.r);
    HeightAtLeast(t.l);
    HeightAtLeast(t.r);
  }

  lemma {:induction false} DropLeft<V>(a: map<int, V>, b: map<int, V>, k: int, v: V, x: int)
    requires x != k && x !in b
    ensures ((a - {x}) + b)[k := v] == ((a + b)[k := v]) - {x}
  {
  }

  lemma {:induction false} DropRight<V>(a: map<int, V>, b: map<int, V>, k: int, v: V, x: int)
    requires x != k && x !in a
    ensures (a + (b - {x}))[k := v] == ((a + b)[k := v]) - {x}
  {
  }

  lemma {:induction false} DropRoot<V>(a: map<int, V>, b: map<int, V>, k: int, v: V, m: int, vm: V)
    requires k !in a && k !in b && m in b && b[m] == vm && m !in a
    ensures (a + (b - {m}))[m := vm] == ((a + b)[k := v]) - {k}
  {
  }

  lemma {:induction false} AddLeft<V>(a: map<int, V>, b: map<int, V>, key: int, val: V, k: int, v: V)
    requires k != key && k !in b
    ensures (a[k := v] + b)[key := val] == ((a + b)[key := val])[k := v]
  {
  }

  lemma {:induction false} AddRight<V>(a: map<int, V>, b: map<int, V>, key: int, val: V, k: int, v: V)
    requires k != key
    ensures (a + b[k := v])[key := val] == ((a + b)[key := val])[k := v]
  {
  }

  // ------------------------------------------------------ order statistics

  /** `GetKth`: the node holding the `k`-th smallest key (from 1). */
  function GetKth<V>(t: Tree<V>, k: int): (r: Tree<V>)
    requires Balanced(t) && 1 <= k <= GetSizeT(t)
    ensures r.Node? && k <= |InOrder(t)| && r.key == InOrder(t)[k - 1]
    ensures Ordered(t) ==> r.key in Model(t) && Model(t)[r.key] == r.val
    decreases t
  {
    CachesAreTrue(t.l);
    CachesAreTrue(t.r);
    InOrderKeys(t.l);
    InOrderKeys(t.r);
    ModelKeys(t.l);
    ModelKeys(t.r);
    if k <= GetSizeT(t.l) then
      GetKth(t.l, k)
    else if k - GetSizeT(t.l) == 1 then
      t
    else
      GetKth(t.r, k - GetSizeT(t.l) - 1)
  }

  /** The mapped value of the node holding key `k`, looked up by key: the
      model names a node by its key. */
  function ValueAt<V>(t: Tree<V>, k: int): (r: V)
    requires Ordered(t) && k in Keys(t)
    ensures k in Model(t) && r == Model(t)[k]
    decreases t
  {
    ModelKeys(t.l);
    ModelKeys(t.r);
    if k < t.key then ValueAt(t.l, k)
    else if t.key < k then ValueAt(t.r, k)
    else t.val
  }
}
