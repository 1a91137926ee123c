/** The ordered map: an AVL tree of nodes that are also threaded, through
    their `prev` and `next` fields, into a list in key order that ends at
    the permanent node `pastTheEnd`.  A node is named by its key, which is
    unique in the map; `next` and `prev` hold the thread fields of every
    node, and `beginA` names the first node. */
module Maps {
  import opened Exceptions
  import opened AvlTrees

  /** A node of the map, named by its key, or `pastTheEnd`. */
  datatype Pos = NodeAt(key: int) | PastTheEnd

  /** A `prev` field: a node's key, or null. */
  datatype Link = Null | To(key: int)

  /** An iterator: its container and the node it names. */
  datatype MapIter = MapIter(ctn: object?, p: Pos)

  /** The node after position `j` of the key list `s`. */
  function NextOf(s: seq<int>, j: int): Pos
    requires 0 <= j < |s|
  {
    if j + 1 < |s| then NodeAt(s[j + 1]) else PastTheEnd
  }

  /** The node before position `j` of the key list `s`. */
  function PrevOf(s: seq<int>, j: int): Link
    requires 0 <= j < |s|
  {
    if j > 0 then To(s[j - 1]) else Null
  }

  /** The thread lists the nodes with keys `s`, in order: each node's `next`
      is the following node (`pastTheEnd` after the last), its `prev` the
      preceding one (null before the first), `pastTheEnd.prev` is the last
      node and `beginA` the first (`pastTheEnd` when there is none).  There
      are fields for these nodes and for `pastTheEnd` only. */
  ghost predicate Threaded(s: seq<int>, next: map<int, Pos>, prev: map<Pos, Link>, beginA: Pos)
  {
    Fields(s, next, prev) && NextLinks(s, next) && PrevLinks(s, prev) && EndLinks(s, prev, beginA)
  }

  ghost predicate Fields(s: seq<int>, next: map<int, Pos>, prev: map<Pos, Link>)
  {
    NextDomain(s, next) && PrevDomain(s, prev)
  }

  ghost predicate NextDomain(s: seq<int>, next: map<int, Pos>)
  {
    forall x :: x in next <==> x in s
  }

  ghost predicate PrevDomain(s: seq<int>, prev: map<Pos, Link>)
  {
    forall p :: p in prev <==> p == PastTheEnd || (p.NodeAt? && p.key in s)
  }

  ghost predicate NextLinks(s: seq<int>, next: map<int, Pos>)
  {
    forall j {:trigger next[s[j]]} :: 0 <= j < |s| ==> s[j] in next && next[s[j]] == NextOf(s, j)
  }

  ghost predicate PrevLinks(s: seq<int>, prev: map<Pos, Link>)
  {
    forall j {:trigger prev[NodeAt(s[j])]} :: 0 <= j < |s| ==> NodeAt(s[j]) in prev && prev[NodeAt(s[j])] == PrevOf(s, j)
  }

  ghost predicate EndLinks(s: seq<int>, prev: map<Pos, Link>, beginA: Pos)
  {
    PastTheEnd in prev
    && prev[PastTheEnd] == (if s == [] then Null else To(s[|s| - 1]))
    && beginA == (if s == [] then PastTheEnd else NodeAt(s[0]))
  }

  /** The `next` field of the node at position `j`. */
  lemma {:induction false} NextAt(s: seq<int>, next: map<int, Pos>, j: int)
    requires NextLinks(s, next) && 0 <= j < |s|
    ensures s[j] in next && next[s[j]] == NextOf(s, j)
  {
  }

  lemma {:induction false} PrevAt(s: seq<int>, prev: map<Pos, Link>, j: int)
    requires PrevLinks(s, prev) && 0 <= j < |s|
    ensures NodeAt(s[j]) in prev && prev[NodeAt(s[j])] == PrevOf(s, j)
  {
  }

  /** The thread of a single node `k`, made from that of an empty list. */
  lemma {:induction false} FirstLink(k: int, next: map<int, Pos>, prev: map<Pos, Link>)
    requires Threaded([], next, prev, PastTheEnd)
    ensures Threaded([k], next[k := PastTheEnd], prev[NodeAt(k) := Null][PastTheEnd := To(k)], NodeAt(k))
  {
    var s := [k];
    assert forall x :: x in s <==> x == k;
  }

  /** The position of key `x` in an increasing key list. */
  lemma {:induction false} IndexOfKey(s: seq<int>, x: int) returns (j: int)
    requires Increasing(s) && x in s
    ensures 0 <= j < |s| && s[j] == x
    ensures forall i :: 0 <= i < |s| && s[i] == x ==> i == j
  {
    j :| 0 <= j < |s| && s[j] == x;
  }

  /** `k` inserted at position `i` of `s`, where it keeps the order. */
  lemma {:induction false} InsertedAt(s: seq<int>, i: int, k: int)
    requires Increasing(s) && 0 <= i <= |s|
    requires (forall j :: 0 <= j < i ==> s[j] < k) && (forall j :: i <= j < |s| ==> k < s[j])
    ensures var s' := s[..i] + [k] + s[i..];
            |s'| == |s| + 1 && s'[i] == k && k !in s
            && (forall j :: 0 <= j < i ==> s'[j] == s[j])
            && (forall j :: i < j < |s'| ==> s'[j] == s[j - 1])
            && (forall x :: x in s' <==> x == k || x in s)
            && Increasing(s')
  {
    var s' := s[..i] + [k] + s[i..];
    assert forall j :: 0 <= j < i ==> s'[j] == s[j];
    assert forall j :: i < j < |s'| ==> s'[j] == s[j - 1];
    assert forall j :: 0 <= j < |s| ==> s[j] != k;
    forall x
      ensures x in s' <==> x == k || x in s
    {
      if x in s {
        var j :| 0 <= j < |s| && s[j] == x;
        assert s'[if j < i then j else j + 1] == x;
      }
    }
    forall a, b | 0 <= a < b < |s'|
      ensures s'[a] < s'[b]
    {
      if a < i && b > i {
        assert s[a] < k < s[b - 1];
      }
    }
  }

  /** Linking a new node `k` in between positions `i - 1` and `i`: the code
      that gives it `pv = prev` and `nx = next`, points `pv.next` and
      `nx.prev` back at it, and makes it `beginA` when it comes first. */
  lemma {:induction false} LinkKeeps(s: seq<int>, i: int, k: int, next: map<int, Pos>, prev: map<Pos, Link>, beginA: Pos,
                  pv: Link, nx: Pos)
    requires Increasing(s) && Threaded(s, next, prev, beginA) && 0 <= i <= |s|
    requires (forall j :: 0 <= j < i ==> s[j] < k) && (forall j :: i <= j < |s| ==> k < s[j])
    requires pv == (if i > 0 then To(s[i - 1]) else Null)
    requires nx == (if i < |s| then NodeAt(s[i]) else PastTheEnd)
    ensures var next1 := next[k := nx];
            var next2 := if pv.To? then next1[pv.key := NodeAt(k)] else next1;
            var prev2 := prev[NodeAt(k) := pv][nx := To(k)];
            Increasing(s[..i] + [k] + s[i..])
            && Threaded(s[..i] + [k] + s[i..], next2, prev2, if i == 0 then NodeAt(k) else beginA)
  {
    InsertedAt(s, i, k);
    LinkNext(s, i, k, next, pv, nx);
    LinkPrev(s, i, k, prev, pv, nx);
    LinkFields(s, i, k, next, prev, pv, nx);
    LinkEnds(s, i, k, prev, beginA, pv, nx);
  }

  lemma {:induction false} LinkFields(s: seq<int>, i: int, k: int, next: map<int, Pos>, prev: map<Pos, Link>, pv: Link, nx: Pos)
    requires Increasing(s) && Fields(s, next, prev) && 0 <= i <= |s|
    requires (forall j :: 0 <= j < i ==> s[j] < k) && (forall j :: i <= j < |s| ==> k < s[j])
    requires pv == (if i > 0 then To(s[i - 1]) else Null)
    requires nx == (if i < |s| then NodeAt(s[i]) else PastTheEnd)
    ensures var next1 := next[k := nx];
            Fields(s[..i] + [k] + s[i..], if pv.To? then next1[pv.key := NodeAt(k)] else next1,
                   prev[NodeAt(k) := pv][nx := To(k)])
  {
    InsertedAt(s, i, k);
    if i > 0 {
      assert s[i - 1] in s;
    }
    if i < |s| {
      assert s[i] in s;
    }
  }

  lemma {:induction false} LinkEnds(s: seq<int>, i: int, k: int, prev: map<Pos, Link>, beginA: Pos, pv: Link, nx: Pos)
    requires EndLinks(s, prev, beginA) && 0 <= i <= |s|
    requires pv == (if i > 0 then To(s[i - 1]) else Null)
    requires nx == (if i < |s| then NodeAt(s[i]) else PastTheEnd)
    ensures EndLinks(s[..i] + [k] + s[i..], prev[NodeAt(k) := pv][nx := To(k)], if i == 0 then NodeAt(k) else beginA)
  {
    var s' := s[..i] + [k] + s[i..];
    assert s'[i] == k;
    if i > 0 {
      assert s'[0] == s[0];
    }
    if i < |s| {
      assert s'[|s'| - 1] == s[|s| - 1];
    }
  }

  lemma {:induction false} LinkNext(s: seq<int>, i: int, k: int, next: map<int, Pos>, pv: Link, nx: Pos)
    requires Increasing(s) && NextLinks(s, next) && 0 <= i <= |s|
    requires (forall j :: 0 <= j < i ==> s[j] < k) && (forall j :: i <= j < |s| ==> k < s[j])
    requires pv == (if i > 0 then To(s[i - 1]) else Null)
    requires nx == (if i < |s| then NodeAt(s[i]) else PastTheEnd)
    ensures var next1 := next[k := nx];
            NextLinks(s[..i] + [k] + s[i..], if pv.To? then next1[pv.key := NodeAt(k)] else next1)
  {
    InsertedAt(s, i, k);
    var s' := s[..i] + [k] + s[i..];
    var next1 := next[k := nx];
    var next2 := if pv.To? then next1[pv.key := NodeAt(k)] else next1;
    forall j | 0 <= j < |s'|
      ensures s'[j] in next2 && next2[s'[j]] == NextOf(s', j)
    {
      if j < i - 1 {
        assert s[j] < s[i - 1];
      } else if j > i {
        assert s'[j] == s[j - 1];
      }
    }
  }

  lemma {:induction false} LinkPrev(s: seq<int>, i: int, k: int, prev: map<Pos, Link>, pv: Link, nx: Pos)
    requires Increasing(s) && PrevLinks(s, prev) && 0 <= i <= |s|
    requires (forall j :: 0 <= j < i ==> s[j] < k) && (forall j :: i <= j < |s| ==> k < s[j])
    requires pv == (if i > 0 then To(s[i - 1]) else Null)
    requires nx == (if i < |s| then NodeAt(s[i]) else PastTheEnd)
    ensures PrevLinks(s[..i] + [k] + s[i..], prev[NodeAt(k) := pv][nx := To(k)])
  {
    InsertedAt(s, i, k);
    var s' := s[..i] + [k] + s[i..];
    var prev2 := prev[NodeAt(k) := pv][nx := To(k)];
    forall j | 0 <= j < |s'|
      ensures NodeAt(s'[j]) in prev2 && prev2[NodeAt(s'[j])] == PrevOf(s', j)
    {
      if j < i {
        if i < |s| {
          assert s[j] < s[i];
        }
      } else if j > i + 1 {
        assert s'[j] == s[j - 1] && s[i] < s[j - 1];
      }
    }
  }

  /** The list `s` without its position `j`. */
  lemma {:induction false} DeletedAt(s: seq<int>, j: int)
    requires Increasing(s) && 0 <= j < |s|
    ensures var s' := s[..j] + s[j + 1..];
            |s'| == |s| - 1
            && (forall i :: 0 <= i < j ==> s'[i] == s[i])
            && (forall i :: j <= i < |s'| ==> s'[i] == s[i + 1])
            && (forall y :: y in s' <==> y != s[j] && y in s)
            && Increasing(s')
  {
    var s' := s[..j] + s[j + 1..];
    var x := s[j];
    assert forall i :: 0 <= i < j ==> s'[i] == s[i];
    assert forall i :: j <= i < |s'| ==> s'[i] == s[i + 1];
    forall y
      ensures y in s' <==> y != x && y in s
    {
      if y in s {
        var i :| 0 <= i < |s| && s[i] == y;
        if i < j {
          assert s'[i] == y;
        } else if i > j {
          assert s'[i - 1] == y;
        }
      }
      if y in s' {
        var i :| 0 <= i < |s'| && s'[i] == y;
        if i < j {
          assert s[i] == y && s[i] < x;
        } else {
          assert s[i + 1] == y && x < s[i + 1];
        }
      }
    }
  }

  /** Unlinking the node at position `j`: `pastTheEnd` or the next node
      takes its `prev`, the previous node (if any) its `next`, `beginA`
      moves on when it was first, and the node's own fields go. */
  lemma {:induction false} UnlinkKeeps(s: seq<int>, j: int, next: map<int, Pos>, prev: map<Pos, Link>, beginA: Pos)
    requires Increasing(s) && Threaded(s, next, prev, beginA) && 0 <= j < |s|
    ensures var x := s[j];
            var nx := next[x];
            var pv := prev[NodeAt(x)];
            var next1 := if pv.To? then next[pv.key := nx] else next;
            var prev1 := prev[nx := pv];
            Increasing(s[..j] + s[j + 1..])
            && Threaded(s[..j] + s[j + 1..], next1 - {x}, prev1 - {NodeAt(x)},
                        if beginA == NodeAt(x) then nx else beginA)
  {
    DeletedAt(s, j);
    UnlinkNext(s, j, next, prev[NodeAt(s[j])]);
    UnlinkPrev(s, j, prev, next[s[j]]);
    UnlinkFields(s, j, next, prev, prev[NodeAt(s[j])], next[s[j]]);
    UnlinkEnds(s, j, prev, beginA, next[s[j]]);
  }

  lemma {:induction false} UnlinkFields(s: seq<int>, j: int, next: map<int, Pos>, prev: map<Pos, Link>, pv: Link, nx: Pos)
    requires Increasing(s) && Fields(s, next, prev) && 0 <= j < |s|
    requires pv == PrevOf(s, j) && nx == NextOf(s, j)
    ensures var x := s[j];
            Fields(s[..j] + s[j + 1..], (if pv.To? then next[pv.key := nx] else next) - {x},
                   prev[nx := pv] - {NodeAt(x)})
  {
    DeletedAt(s, j);
    UnlinkNextDomain(s, j, next, pv, nx);
    UnlinkPrevDomain(s, j, prev, pv, nx);
  }

  /** The keys with a `next` field after the unlinking are the others. */
  lemma {:induction false} UnlinkNextDomain(s: seq<int>, j: int, next: map<int, Pos>, pv: Link, nx: Pos)
    requires Increasing(s) && NextDomain(s, next) && 0 <= j < |s|
    requires pv == PrevOf(s, j)
    ensures NextDomain(s[..j] + s[j + 1..], (if pv.To? then next[pv.key := nx] else next) - {s[j]})
  {
    DeletedAt(s, j);
    var x := s[j];
    var s' := s[..j] + s[j + 1..];
    var next1 := (if pv.To? then next[pv.key := nx] else next) - {x};
    if j > 0 {
      assert s[j - 1] in s && s[j - 1] < x;
    }
    forall y
      ensures y in next1 <==> y in s'
    {
    }
  }

  /** The nodes with a `prev` field after the unlinking are the others and
      `pastTheEnd`. */
  lemma {:induction false} UnlinkPrevDomain(s: seq<int>, j: int, prev: map<Pos, Link>, pv: Link, nx: Pos)
    requires Increasing(s) && PrevDomain(s, prev) && 0 <= j < |s|
    requires nx == NextOf(s, j)
    ensures PrevDomain(s[..j] + s[j + 1..], prev[nx := pv] - {NodeAt(s[j])})
  {
    DeletedAt(s, j);
    var x := s[j];
    var s' := s[..j] + s[j + 1..];
    var prev1 := prev[nx := pv] - {NodeAt(x)};
    if j + 1 < |s| {
      assert s[j + 1] in s && x < s[j + 1];
    }
    forall p
      ensures p in prev1 <==> p == PastTheEnd || (p.NodeAt? && p.key in s')
    {
    }
  }

  lemma {:induction false} UnlinkEnds(s: seq<int>, j: int, prev: map<Pos, Link>, beginA: Pos, nx: Pos)
    requires Increasing(s) && EndLinks(s, prev, beginA) && PrevDomain(s, prev) && PrevLinks(s, prev) && 0 <= j < |s|
    requires nx == NextOf(s, j)
    ensures var x := s[j];
            EndLinks(s[..j] + s[j + 1..], prev[nx := prev[NodeAt(x)]] - {NodeAt(x)},
                     if beginA == NodeAt(x) then nx else beginA)
  {
    var s' := s[..j] + s[j + 1..];
    if j > 0 {
      assert s[0] < s[j] && s'[0] == s[0];
    } else if s' != [] {
      assert s'[0] == s[1];
    }
    if j + 1 < |s| {
      assert s'[|s'| - 1] == s[|s| - 1];
    } else if j > 0 {
      assert s'[|s'| - 1] == s[j - 1];
    }
  }

  lemma {:induction false} UnlinkNext(s: seq<int>, j: int, next: map<int, Pos>, pv: Link)
    requires Increasing(s) && NextLinks(s, next) && 0 <= j < |s| && s[j] in next
    requires pv == PrevOf(s, j)
    ensures var x := s[j];
            var next1 := if pv.To? then next[pv.key := next[x]] else next;
            NextLinks(s[..j] + s[j + 1..], next1 - {x})
  {
    DeletedAt(s, j);
    var x := s[j];
    var s' := s[..j] + s[j + 1..];
    var next1 := if pv.To? then next[pv.key := next[x]] else next;
    forall i | 0 <= i < |s'|
      ensures s'[i] in next1 - {x} && (next1 - {x})[s'[i]] == NextOf(s', i)
    {
      if i < j - 1 {
        NextAt(s, next, i);
        assert s[i] < s[j - 1] < x;
        assert s'[i] == s[i] && next1[s[i]] == next[s[i]] == NextOf(s, i);
      } else if i == j - 1 {
        assert s'[i] == s[i] && next1[s[i]] == next[x] == NextOf(s, j);
      } else {
        NextAt(s, next, i + 1);
        assert s'[i] == s[i + 1] && x < s[i + 1];
        assert next1[s[i + 1]] == next[s[i + 1]] == NextOf(s, i + 1);
      }
    }
  }

  lemma {:induction false} UnlinkPrev(s: seq<int>, j: int, prev: map<Pos, Link>, nx: Pos)
    requires Increasing(s) && PrevLinks(s, prev) && 0 <= j < |s| && NodeAt(s[j]) in prev
    requires nx == NextOf(s, j)
    ensures var x := s[j];
            PrevLinks(s[..j] + s[j + 1..], prev[nx := prev[NodeAt(x)]] - {NodeAt(x)})
  {
    DeletedAt(s, j);
    var x := s[j];
    var s' := s[..j] + s[j + 1..];
    var prev1 := prev[nx := prev[NodeAt(x)]];
    forall i | 0 <= i < |s'|
      ensures NodeAt(s'[i]) in prev1 - {NodeAt(x)} && (prev1 - {NodeAt(x)})[NodeAt(s'[i])] == PrevOf(s', i)
    {
      if i < j {
        assert s'[i] == s[i] && s[i] < x;
        if j + 1 < |s| {
          assert s[i] < s[j + 1];
        }
        assert prev1[NodeAt(s[i])] == prev[NodeAt(s[i])] == PrevOf(s, i);
      } else if i > j {
        assert s'[i] == s[i + 1] && s[j + 1] < s[i + 1] && x < s[i + 1];
        assert prev1[NodeAt(s[i + 1])] == prev[NodeAt(s[i + 1])] == PrevOf(s, i + 1);
      } else {
        assert s'[i] == s[i + 1] && x < s[i + 1] && nx == NodeAt(s[i + 1]);
        assert prev1[NodeAt(s[i + 1])] == prev[NodeAt(x)] == PrevOf(s, j);
      }
    }
  }

  /** Where a new key goes in an increasing list: after the smaller keys,
      before the larger ones. */
  lemma {:induction false} InsertionPoint(s: seq<int>, k: int) returns (i: int)
    requires Increasing(s) && k !in s
    ensures 0 <= i <= |s|
    ensures (forall j :: 0 <= j < i ==> s[j] < k) && (forall j :: i <= j < |s| ==> k < s[j])
    decreases |s|
  {
    if s == [] || k < s[0] {
      i := 0;
    } else {
      assert s[0] in s;
      var i' := InsertionPoint(s[1..], k);
      assert forall j :: 1 <= j <= i' ==> s[j] == s[1..][j - 1];
      assert forall j :: i' + 1 <= j < |s| ==> s[j] == s[1..][j - 1];
      i := i' + 1;
    }
  }

  /** The position of key `x` in a list holding it once. */
  ghost function IndexIn(s: seq<int>, x: int): (j: nat)
    requires x in s
    ensures j < |s| && s[j] == x && x !in s[..j]
  {
    if s[0] == x then 0 else
      assert x in s[1..];
      var j := IndexIn(s[1..], x);
      assert s[..j + 1] == [s[0]] + s[1..][..j];
      j + 1
  }

  /** The parts of a slice `s[a..b]` that reads `u + [k] + w`. */
  lemma {:induction false} SliceParts(s: seq<int>, a: int, b: int, u: seq<int>, k: int, w: seq<int>)
    requires 0 <= a <= b <= |s| && s[a..b] == u + [k] + w
    ensures var c := a + |u|;
            c < b && u == s[a..c] && s[c] == k && w == s[c + 1..b]
  {
    assert forall j :: a <= j < b ==> s[j] == (u + [k] + w)[j - a];
    assert forall j :: a <= j < a + |u| ==> s[j] == u[j - a];
    assert forall j :: a + |u| + 1 <= j < b ==> s[j] == w[j - a - |u| - 1];
  }

  /** A subtree whose keys are the slice `s[a..b]`: its children and its key
      are the matching parts of the slice. */
  lemma {:induction false} InOrderSlice<V>(t: Tree<V>, s: seq<int>, a: int, b: int)
    requires t.Node? && 0 <= a <= b <= |s| && InOrder(t) == s[a..b]
    ensures var c := a + |InOrder(t.l)|;
            c < b && InOrder(t.l) == s[a..c] && s[c] == t.key && InOrder(t.r) == s[c + 1..b]
  {
    SliceParts(s, a, b, InOrder(t.l), t.key, InOrder(t.r));
  }

  /** Where `Remove` goes down to the left: `x` is in the left subtree,
      and is its leftmost key when it was the leftmost key of `t`. */
  lemma {:induction false} RemoveGoesLeft<V>(t: Tree<V>, x: int, orig: bool)
    requires t.Node? && IsAvl(t) && x in Keys(t) && (!orig ==> x == Leftmost(t).key) && x < t.key
    ensures IsAvl(t.l) && x in Keys(t.l) && (!orig ==> x == Leftmost(t.l).key)
    ensures RemoveTree(t, x) == RemoveLeft(t, x, RemoveTree(t.l, x))
  {
  }

  /** Where `Remove` goes down to the right: `x` is in the right subtree,
      and cannot be the leftmost key of `t`. */
  lemma {:induction false} RemoveGoesRight<V>(t: Tree<V>, x: int, orig: bool)
    requires t.Node? && IsAvl(t) && x in Keys(t) && (!orig ==> x == Leftmost(t).key) && t.key < x
    ensures orig && IsAvl(t.r) && x in Keys(t.r)
    ensures RemoveTree(t, x) == RemoveRight(t, x, RemoveTree(t.r, x))
  {
  }

  /** Where `Insert` goes down to the left, for a key `k` that belongs at
      position `i` of the key list `s`, of which `t` holds the slice
      `s[a..b]`: the left subtree holds the part before `t`'s key. */
  lemma {:induction false} DescendLeft<V>(t: Tree<V>, k: int, s: seq<int>, i: int, a: int, b: int)
    requires t.Node? && IsAvl(t) && k !in Keys(t) && k < t.key
    requires 0 <= a <= i <= b <= |s| && InOrder(t) == s[a..b]
    requires (forall j :: 0 <= j < i ==> s[j] < k)
    ensures var c := a + |InOrder(t.l)|;
            IsAvl(t.l) && k !in Keys(t.l) && i <= c < b && InOrder(t.l) == s[a..c]
            && (t.l.Empty? ==> i < |s| && To(t.key) == To(s[i]))
  {
    InOrderSlice(t, s, a, b);
  }

  /** Where `Insert` goes down to the right: the mirror image. */
  lemma {:induction false} DescendRight<V>(t: Tree<V>, k: int, s: seq<int>, i: int, a: int, b: int)
    requires t.Node? && IsAvl(t) && k !in Keys(t) && !(k < t.key)
    requires 0 <= a <= i <= b <= |s| && InOrder(t) == s[a..b]
    requires (forall j :: i <= j < |s| ==> k < s[j])
    ensures var c := a + |InOrder(t.l)|;
            IsAvl(t.r) && k !in Keys(t.r) && t.key < k && c < i && c < b && InOrder(t.r) == s[c + 1..b]
            && (t.r.Empty? ==> 0 < i && To(t.key) == To(s[i - 1]))
  {
    InOrderSlice(t, s, a, b);
    assert t.key in Keys(t);
  }

  /** The place of a new key `k` in the key list of a search tree. */
  lemma {:induction false} PlaceOf<V>(t: Tree<V>, k: int) returns (i: int)
    requires Ordered(t) && k !in Model(t)
    ensures var s := InOrder(t);
            Increasing(s) && k !in Keys(t) && 0 <= i <= |s| && s[0..|s|] == s
            && (forall j :: 0 <= j < i ==> s[j] < k) && (forall j :: i <= j < |s| ==> k < s[j])
  {
    ModelKeys(t);
    InOrderKeys(t);
    OrderedIsIncreasing(t);
    i := InsertionPoint(InOrder(t), k);
  }

  /** The key list of a search tree `t1` holding the keys of `t0` and `k`:
      that of `t0` with `k` in its place `i`. */
  lemma {:induction false} InsertedList<V>(t0: Tree<V>, t1: Tree<V>, i: int, k: int)
    requires Ordered(t0) && Ordered(t1) && Keys(t1) == Keys(t0) + {k} && k !in Keys(t0)
    requires 0 <= i <= |InOrder(t0)|
    requires (forall j :: 0 <= j < i ==> InOrder(t0)[j] < k) && (forall j :: i <= j < |InOrder(t0)| ==> k < InOrder(t0)[j])
    ensures InOrder(t1) == InOrder(t0)[..i] + [k] + InOrder(t0)[i..]
  {
    var s := InOrder(t0);
    OrderedIsIncreasing(t0);
    InOrderKeys(t0);
    var s' := s[..i] + [k] + s[i..];
    InsertedAt(s, i, k);
    assert forall x :: x in s' <==> x in Keys(t1);
    SameInOrder(t1, s');
  }

  /** The place of a present key `x` in the key list of a search tree. */
  lemma {:induction false} PositionOf<V>(t: Tree<V>, x: int) returns (j: int)
    requires Ordered(t) && x in Model(t)
    ensures var s := InOrder(t);
            Increasing(s) && x in Keys(t) && 0 <= j < |s| && s[j] == x && s[0..|s|] == s
  {
    ModelKeys(t);
    InOrderKeys(t);
    OrderedIsIncreasing(t);
    j := IndexIn(InOrder(t), x);
  }

  /** The key list of a search tree `t1` holding the keys of `t0` but the
      one at position `j`: that of `t0` without position `j`. */
  lemma {:induction false} DeletedList<V>(t0: Tree<V>, t1: Tree<V>, j: int)
    requires Ordered(t0) && Ordered(t1) && 0 <= j < |InOrder(t0)|
    requires Keys(t1) == Keys(t0) - {InOrder(t0)[j]}
    ensures InOrder(t1) == InOrder(t0)[..j] + InOrder(t0)[j + 1..]
  {
    var s := InOrder(t0);
    OrderedIsIncreasing(t0);
    InOrderKeys(t0);
    var s' := s[..j] + s[j + 1..];
    DeletedAt(s, j);
    assert forall x :: x in s' <==> x in Keys(t1);
    SameInOrder(t1, s');
  }

  /** A balanced tree of size 1 is a single node. */
  lemma {:induction false} SizeOne<V>(t: Tree<V>)
    requires Balanced(t) && GetSizeT(t) == 1
    ensures t.Node? && t.l.Empty? && t.r.Empty?
  {
    assert Balanced(t.l) && Balanced(t.r);
  }

  /** The keys of an AVL tree that came from an increasing key list by
      the same change as its key set are that list. */
  lemma {:induction false} SameInOrder<V>(t: Tree<V>, s: seq<int>)
    requires Ordered(t) && Increasing(s) && (forall x :: x in s <==> x in Keys(t))
    ensures InOrder(t) == s
  {
    InOrderKeys(t);
    OrderedIsIncreasing(t);
    IncreasingUnique(InOrder(t), s);
  }

  /** The map.  The tree is kept as a value, `root`; the thread fields of
      its nodes are `next` and `prev` (those of `pastTheEnd` under
      `PastTheEnd`), and `beginA` names the first node. */
  class Map<V> {
    var root: Tree<V>
    var sizeM: nat
    var beginA: Pos
    var next: map<int, Pos>
    var prev: map<Pos, Link>

    /** The AVL tree caches its size and the thread lists its nodes in
        key order. */
    ghost predicate Valid()
      reads this
    {
      IsAvl(root) && sizeM == GetSizeT(root) && Threaded(InOrder(root), next, prev, beginA)
    }

    /** The key-to-value mapping the map holds. */
    function Contents(): map<int, V>
      reads this
    {
      Model(root)
    }

    /** The keys in increasing order, the thread's order. */
    function KeyList(): seq<int>
      reads this
    {
      InOrder(root)
    }

    /** An iterator of this map that names one of its nodes or the end. */
    ghost predicate ValidIter(it: MapIter)
      reads this
    {
      it.ctn == this && (it.p.PastTheEnd? || it.p.key in KeyList())
    }

    /** The place of an iterator in the thread: the rank of its key, from
        0, or the size for the end. */
    ghost function Rank(it: MapIter): (k: nat)
      reads this
      requires Valid() && ValidIter(it)
      ensures k <= |KeyList()| && (k == |KeyList()| <==> it.p.PastTheEnd?)
      ensures it.p.NodeAt? ==> KeyList()[k] == it.p.key
    {
      if it.p.PastTheEnd? then |KeyList()| else IndexIn(KeyList(), it.p.key)
    }

    /** The keys are those of the mapping, in increasing order. */
    lemma {:induction false} KeyListIsDomain()
      requires Valid()
      ensures Increasing(KeyList()) && forall x :: x in KeyList() <==> x in Contents()
    {
      InOrderKeys(root);
      ModelKeys(root);
      OrderedIsIncreasing(root);
    }

    /** The empty map: no root, and `beginA` is `pastTheEnd`. */
    constructor ()
      ensures Valid() && Contents() == map[] && sizeM == 0
    {
      root := Empty;
      sizeM := 0;
      beginA := PastTheEnd;
      next := map[];
      prev := map[PastTheEnd := Null];
    }

    /** The search loop of `at`, `operator[]` and `find`: going left of
        larger keys and right of smaller ones, it stops at the node holding
        `key` or falls off the tree. */
    method Search(key: int) returns (t: Tree<V>)
      requires Valid()
      ensures t.Node? <==> key in Contents()
      ensures t.Node? ==> t.key == key && t.val == Contents()[key]
    {
      t := root;
      ModelKeys(root);
      while t.Node? && t.key != key
        invariant Ordered(t)
        invariant key in Contents() <==> key in Model(t)
        invariant key in Model(t) ==> Model(t)[key] == Contents()[key]
        decreases t
      {
        ModelKeys(t.l);
        ModelKeys(t.r);
        if key < t.key {
          t := t.l;
        } else {
          t := t.r;
        }
      }
      if t.Node? {
        ModelKeys(t.l);
        ModelKeys(t.r);
      }
    }

    /** `at` (and the const `operator[]`): the value of `key`, or
        `index_out_of_bound` when it is absent. */
    method At(key: int) returns (r: Result<V>)
      requires Valid()
      ensures r.Err? <==> key !in Contents()
      ensures r.Err? ==> r.error == IndexOutOfBound
      ensures r.Ok? ==> r.value == Contents()[key]
    {
      var t := Search(key);
      if t.Empty? {
        return Err(IndexOutOfBound);
      }
      return Ok(t.val);
    }

    /** `find`: the iterator to the node of `key`, or `end()`. */
    method Find(key: int) returns (it: MapIter)
      requires Valid()
      ensures ValidIter(it)
      ensures it.p == if key in Contents() then NodeAt(key) else PastTheEnd
    {
      var t := Search(key);
      ModelKeys(root);
      InOrderKeys(root);
      if t.Empty? {
        return MapIter(this, PastTheEnd);
      }
      return MapIter(this, NodeAt(t.key));
    }

    /** `count`: 1 when `key` is present, 0 otherwise. */
    method Count(key: int) returns (n: nat)
      requires Valid()
      ensures n == if key in Contents() then 1 else 0
    {
      var fd := Find(key);
      if fd.p == PastTheEnd {
        return 0;
      }
      return 1;
    }

    /** `begin()`: the first node, or the end of an empty map. */
    function Begin(): (it: MapIter)
      reads this
      requires Valid()
      ensures ValidIter(it) && Rank(it) == 0
    {
      MapIter(this, beginA)
    }

    /** `end()`: `pastTheEnd`, one past the last node. */
    function End(): (it: MapIter)
      reads this
      requires Valid()
      ensures ValidIter(it) && Rank(it) == |KeyList()|
    {
      MapIter(this, PastTheEnd)
    }

    /** `empty()`. */
    function IsEmpty(): (b: bool)
      reads this
      requires Valid()
      ensures b <==> Contents() == map[]
    {
      ModelKeys(root);
      sizeM == 0
    }

    /** `size()`: the number of keys. */
    function Size(): (n: nat)
      reads this
      requires Valid()
      ensures n == |KeyList()|
    {
      InOrderKeys(root);
      CachesAreTrue(root);
      sizeM
    }
  
    /** The clear-out: no root, size 0, `pastTheEnd`'s fields null and
        `beginA` at `pastTheEnd`; the deleted nodes' fields are gone. */
    method Clear()
      modifies this
      ensures Valid() && Contents() == map[]
    {
      root := Tree.Empty;
      sizeM := 0;
      next := map[];
      prev := map[PastTheEnd := Null];
      beginA := PastTheEnd;
    }

    /** The leaf code of `Insert`: the new node of `k` takes `fa` as its
        `next` and `fa.prev` as its `prev` when it is a left child (`lorr`
        is 0; it becomes `beginA` when `fa` was), or `fa` as its `prev` and
        `fa.next` as its `next` otherwise; both neighbours then point back
        at it.  `k` belongs at position `i` of the key list `s`. */
    method LinkNew(k: int, fa: Link, lorr: int, ghost s: seq<int>, ghost i: int)
      requires Increasing(s) && Threaded(s, next, prev, beginA)
      requires 0 <= i <= |s| && (forall j :: 0 <= j < i ==> s[j] < k) && (forall j :: i <= j < |s| ==> k < s[j])
      requires (lorr == 0 && i < |s| && fa == To(s[i])) || (lorr == 1 && 0 < i && fa == To(s[i - 1]))
      modifies this`next, this`prev, this`beginA
      ensures Threaded(s[..i] + [k] + s[i..], next, prev, beginA)
    {
      var pv: Link, nx: Pos;
      if lorr == 0 {
        PrevAt(s, prev, i);
        nx := NodeAt(fa.key);
        pv := prev[NodeAt(fa.key)];
        if beginA == NodeAt(fa.key) {
          beginA := NodeAt(k);
        }
      } else {
        NextAt(s, next, i - 1);
        pv := fa;
        nx := next[fa.key];
      }
      assert beginA == if i == 0 then NodeAt(k) else old(beginA) by {
        if i > 0 {
          assert s[0] < s[i - 1] || s[0] == s[i - 1];
        }
      }
      LinkKeeps(s, i, k, next, prev, old(beginA), pv, nx);
      next := next[k := nx];
      prev := prev[NodeAt(k) := pv];
      if pv.To? {
        next := next[pv.key := NodeAt(k)];
      }
      // a new node's `next` is never null
      prev := prev[nx := To(k)];
    }

    /** The leaf step and recursion of `Insert(t, v, fa, lorr)`: the new
        node for `k` hangs below `fa`, on its left when `lorr` is 0, and the
        subtree is rebalanced on the way up.  `InOrder(t)` is the slice
        `s[a..]` of the whole key list `s`, and `k` belongs at position `i`
        of `s`; the thread then lists `s` with `k` at `i`. */
    method InsertNode(t: Tree<V>, k: int, v: V, fa: Link, lorr: int,
                      ghost s: seq<int>, ghost i: int, ghost a: int, ghost b: int) returns (r: Tree<V>, ret: Pos)
      requires IsAvl(t) && k !in Keys(t)
      requires Increasing(s) && Threaded(s, next, prev, beginA)
      requires 0 <= i <= |s| && (forall j :: 0 <= j < i ==> s[j] < k) && (forall j :: i <= j < |s| ==> k < s[j])
      requires 0 <= a <= i <= b <= |s| && InOrder(t) == s[a..b]
      requires t.Empty? ==> (lorr == 0 && i < |s| && fa == To(s[i])) || (lorr == 1 && 0 < i && fa == To(s[i - 1]))
      modifies this`next, this`prev, this`beginA
      ensures r == InsertTree(t, k, v) && ret == NodeAt(k)
      ensures Threaded(s[..i] + [k] + s[i..], next, prev, beginA)
      decreases t, 2
    {
      if t.Empty? {
        LinkNew(k, fa, lorr, s, i);
        r := Node(Tree.Empty, k, v, Tree.Empty, 1, 0);
        ret := NodeAt(k);
      } else {
        r, ret := InsertBelow(t, k, v, s, i, a, b);
      }
    }

    /** The recursive step of `Insert` at a node `t`: down to the side of
        `k`, with `t` as the parent, then the rebalancing of `t`. */
    method InsertBelow(t: Tree<V>, k: int, v: V,
                       ghost s: seq<int>, ghost i: int, ghost a: int, ghost b: int) returns (r: Tree<V>, ret: Pos)
      requires t.Node? && IsAvl(t) && k !in Keys(t)
      requires Increasing(s) && Threaded(s, next, prev, beginA)
      requires 0 <= i <= |s| && (forall j :: 0 <= j < i ==> s[j] < k) && (forall j :: i <= j < |s| ==> k < s[j])
      requires 0 <= a <= i <= b <= |s| && InOrder(t) == s[a..b]
      modifies this`next, this`prev, this`beginA
      ensures r == InsertTree(t, k, v) && ret == NodeAt(k)
      ensures Threaded(s[..i] + [k] + s[i..], next, prev, beginA)
      decreases t, 1
    {
      if k < t.key {
        r, ret := InsertIntoLeft(t, k, v, s, i, a, b);
      } else {
        r, ret := InsertIntoRight(t, k, v, s, i, a, b);
      }
    }

    /** `Insert` to the left of `t`: the recursive call with `t` as the
        parent, then the rebalancing of `InsertLeft`. */
    method InsertIntoLeft(t: Tree<V>, k: int, v: V,
                          ghost s: seq<int>, ghost i: int, ghost a: int, ghost b: int) returns (r: Tree<V>, ret: Pos)
      requires t.Node? && IsAvl(t) && k !in Keys(t) && k < t.key
      requires Increasing(s) && Threaded(s, next, prev, beginA)
      requires 0 <= i <= |s| && (forall j :: 0 <= j < i ==> s[j] < k) && (forall j :: i <= j < |s| ==> k < s[j])
      requires 0 <= a <= i <= b <= |s| && InOrder(t) == s[a..b]
      modifies this`next, this`prev, this`beginA
      ensures IsAvl(t.l) && k !in Keys(t.l)
      ensures r == InsertLeft(t, InsertTree(t.l, k, v), k, v) && ret == NodeAt(k)
      ensures Threaded(s[..i] + [k] + s[i..], next, prev, beginA)
      decreases t, 0
    {
      DescendLeft(t, k, s, i, a, b);
      r, ret := InsertNode(t.l, k, v, To(t.key), 0, s, i, a, a + |InOrder(t.l)|);
      r := InsertLeft(t, r, k, v);
    }

    /** `Insert` to the right of `t`: the mirror image. */
    method InsertIntoRight(t: Tree<V>, k: int, v: V,
                           ghost s: seq<int>, ghost i: int, ghost a: int, ghost b: int) returns (r: Tree<V>, ret: Pos)
      requires t.Node? && IsAvl(t) && k !in Keys(t) && !(k < t.key)
      requires Increasing(s) && Threaded(s, next, prev, beginA)
      requires 0 <= i <= |s| && (forall j :: 0 <= j < i ==> s[j] < k) && (forall j :: i <= j < |s| ==> k < s[j])
      requires 0 <= a <= i <= b <= |s| && InOrder(t) == s[a..b]
      modifies this`next, this`prev, this`beginA
      ensures IsAvl(t.r) && k !in Keys(t.r) && t.key < k
      ensures r == InsertRight(t, InsertTree(t.r, k, v), k, v) && ret == NodeAt(k)
      ensures Threaded(s[..i] + [k] + s[i..], next, prev, beginA)
      decreases t, 0
    {
      DescendRight(t, k, s, i, a, b);
      r, ret := InsertNode(t.r, k, v, To(t.key), 1, s, i, a + |InOrder(t.l)| + 1, b);
      r := InsertRight(t, r, k, v);
    }

    /** `insert`: a new key goes in, with the first node of an empty map
        made the root directly; a present key leaves the map as it is.  The
        iterator names the key's node either way. */
    method Insert(key: int, val: V) returns (it: MapIter, inserted: bool)
      requires Valid()
      modifies this
      ensures Valid() && ValidIter(it) && it.p == NodeAt(key)
      ensures inserted <==> key !in old(Contents())
      ensures Contents() == if inserted then old(Contents())[key := val] else old(Contents())
    {
      if sizeM == 0 {
        InsertFirst(key, val);
        return MapIter(this, NodeAt(key)), true;
      }
      var fd := Find(key);
      if fd.p != PastTheEnd {
        return fd, false;
      }
      var newE := InsertNew(key, val);
      return MapIter(this, newE), true;
    }

    /** The first node of an empty map becomes the root, `beginA`, and the
        `prev` of `pastTheEnd`, whose node it precedes. */
    method InsertFirst(key: int, val: V)
      requires Valid() && sizeM == 0
      modifies this
      ensures Valid() && KeyList() == [key] && Contents() == map[key := val]
    {
      FirstLink(key, next, prev);
      sizeM := 1;
      root := Node(Tree.Empty, key, val, Tree.Empty, 1, 0);
      beginA := NodeAt(key);
      next := next[key := PastTheEnd];
      prev := prev[NodeAt(key) := Null][PastTheEnd := To(key)];
      assert Model<V>(Tree.Empty) + Model(Tree.Empty) == map[];
    }

    /** A key that is absent from a non-empty map goes in through `Insert`
        from the root. */
    method InsertNew(key: int, val: V) returns (newE: Pos)
      requires Valid() && sizeM != 0 && key !in Contents()
      modifies this
      ensures Valid() && newE == NodeAt(key) && key in KeyList()
      ensures Contents() == old(Contents())[key := val]
    {
      ModelKeys(root);
      sizeM := sizeM + 1;
      root, newE := InsertThreaded(root, key, val);
    }

    /** `Insert(root, key, val, NULL, 0)` for an absent key: the tree gains
        the key and the thread takes it in its place in key order. */
    method InsertThreaded(t: Tree<V>, key: int, val: V) returns (r: Tree<V>, newE: Pos)
      requires IsAvl(t) && key !in Keys(t) && !t.Empty? && Threaded(InOrder(t), next, prev, beginA)
      modifies this`next, this`prev, this`beginA
      ensures r == InsertTree(t, key, val) && newE == NodeAt(key)
      ensures key in InOrder(r) && Threaded(InOrder(r), next, prev, beginA)
    {
      ModelKeys(t);
      ghost var s := InOrder(t);
      ghost var i := PlaceOf(t, key);
      ghost var s' := s[..i] + [key] + s[i..];
      r, newE := InsertNode(t, key, val, Null, 0, s, i, 0, |s|);
      InsertedList(t, r, i, key);
      assert InOrder(r) == s' && s'[i] == key;
    }

    /** The non-const `operator[]`: the value of `key`, inserting it with
        the value type's default `dflt` when it is absent. */
    method Index(key: int, dflt: V) returns (v: V)
      requires Valid()
      modifies this
      ensures Valid()
      ensures Contents() == if key in old(Contents()) then old(Contents()) else old(Contents())[key := dflt]
      ensures key in Contents() && v == Contents()[key]
    {
      var t := Search(key);
      if t.Node? {
        return t.val;
      }
      var newIt, _ := Insert(key, dflt);
      ModelKeys(root);
      InOrderKeys(root);
      v := ValueAt(root, newIt.p.key);
    }

    /** The unlinking code of `Remove` for the node of `x`, at position `j`
        of the key list `s`: `beginA` moves on when it named the node, the
        next node (never null) and the previous one (when there is one) are
        linked together, and the deleted node's fields go. */
    method Unlink(x: int, ghost s: seq<int>, ghost j: int)
      requires Increasing(s) && Threaded(s, next, prev, beginA) && 0 <= j < |s| && s[j] == x
      modifies this`next, this`prev, this`beginA
      ensures Threaded(s[..j] + s[j + 1..], next, prev, beginA)
    {
      UnlinkKeeps(s, j, next, prev, beginA);
      var nx := next[x];
      var pv := prev[NodeAt(x)];
      if beginA == NodeAt(x) {
        beginA := nx;
      }
      prev := prev[nx := pv];
      if pv.To? {
        next := next[pv.key := nx];
      }
      next := next - {x};
      prev := prev - {NodeAt(x)};
    }

    /** `Remove(t, x, orig)`: removes the node of `x` from the subtree `t`,
        whose keys are the slice `s[a..]` of the whole key list `s`.  An
        original removal (`orig`) also unlinks the node, which sits at
        position `j` of `s`; the other kind takes out the leftmost node of
        a subtree, whose node lives on in the place of its removed parent,
        and leaves the thread alone. */
    method RemoveNode(t: Tree<V>, x: int, orig: bool, ghost s: seq<int>, ghost a: int, ghost b: int, ghost j: int)
      returns (r: Tree<V>, stop: bool)
      requires IsAvl(t) && x in Keys(t) && (!orig ==> x == Leftmost(t).key)
      requires Increasing(s) && Threaded(s, next, prev, beginA)
      requires 0 <= a <= b <= |s| && InOrder(t) == s[a..b]
      requires orig ==> 0 <= j < |s| && s[j] == x
      modifies this`next, this`prev, this`beginA
      ensures (r, stop) == RemoveTree(t, x)
      ensures orig ==> Threaded(s[..j] + s[j + 1..], next, prev, beginA)
      ensures !orig ==> next == old(next) && prev == old(prev) && beginA == old(beginA)
      decreases t, 1
    {
      InOrderSlice(t, s, a, b);
      ghost var c := a + |InOrder(t.l)|;
      if x < t.key {
        RemoveGoesLeft(t, x, orig);
        r, stop := RemoveFromLeft(t, x, orig, s, a, b, j);
      } else if t.key < x {
        RemoveGoesRight(t, x, orig);
        r, stop := RemoveFromRight(t, x, s, a, b, j);
      } else if t.l.Node? && t.r.Node? {
        assert orig;
        r, stop := RemoveInner(t, s, a, b, j);
      } else {
        r := if t.l.Node? then t.l else t.r;
        if orig {
          Unlink(x, s, j);
        }
        RemovedLeaf(t);
        stop := false;
      }
    }

    /** The case of `Remove` where `x` is below the left child: the
        recursive call, then the rebalancing of `RemoveLeft`. */
    method RemoveFromLeft(t: Tree<V>, x: int, orig: bool, ghost s: seq<int>, ghost a: int, ghost b: int, ghost j: int)
      returns (r: Tree<V>, stop: bool)
      requires t.Node? && IsAvl(t) && x < t.key && x in Keys(t.l) && (!orig ==> x == Leftmost(t.l).key)
      requires Increasing(s) && Threaded(s, next, prev, beginA)
      requires 0 <= a <= b <= |s| && InOrder(t) == s[a..b]
      requires orig ==> 0 <= j < |s| && s[j] == x
      modifies this`next, this`prev, this`beginA
      ensures (r, stop) == RemoveLeft(t, x, RemoveTree(t.l, x))
      ensures orig ==> Threaded(s[..j] + s[j + 1..], next, prev, beginA)
      ensures !orig ==> next == old(next) && prev == old(prev) && beginA == old(beginA)
      decreases t, 0
    {
      InOrderSlice(t, s, a, b);
      var l, st := RemoveNode(t.l, x, orig, s, a, a + |InOrder(t.l)|, j);
      var res := RemoveLeft(t, x, (l, st));
      r, stop := res.0, res.1;
    }

    /** The case of `Remove` where `x` is below the right child, which
        happens only for the key being erased: the recursive call, then
        the rebalancing of `RemoveRight`. */
    method RemoveFromRight(t: Tree<V>, x: int, ghost s: seq<int>, ghost a: int, ghost b: int, ghost j: int)
      returns (r: Tree<V>, stop: bool)
      requires t.Node? && IsAvl(t) && t.key < x && x in Keys(t.r)
      requires Increasing(s) && Threaded(s, next, prev, beginA)
      requires 0 <= a <= b <= |s| && InOrder(t) == s[a..b]
      requires 0 <= j < |s| && s[j] == x
      modifies this`next, this`prev, this`beginA
      ensures (r, stop) == RemoveRight(t, x, RemoveTree(t.r, x))
      ensures Threaded(s[..j] + s[j + 1..], next, prev, beginA)
      decreases t, 0
    {
      InOrderSlice(t, s, a, b);
      var rr, st := RemoveNode(t.r, x, true, s, a + |InOrder(t.l)| + 1, b, j);
      var res := RemoveRight(t, x, (rr, st));
      r, stop := res.0, res.1;
    }

    /** The case of `Remove` where the node of `x` has two children: its
        place goes to the leftmost node of the right subtree, which is
        removed from there without touching the thread, and the node of `x`
        is unlinked. */
    method RemoveInner(t: Tree<V>, ghost s: seq<int>, ghost a: int, ghost b: int, ghost j: int)
      returns (r: Tree<V>, stop: bool)
      requires IsAvl(t) && t.Node? && t.l.Node? && t.r.Node?
      requires Increasing(s) && Threaded(s, next, prev, beginA)
      requires 0 <= a <= b <= |s| && InOrder(t) == s[a..b]
      requires 0 <= j < |s| && s[j] == t.key
      modifies this`next, this`prev, this`beginA
      ensures (r, stop) == RemoveTree(t, t.key)
      ensures Threaded(s[..j] + s[j + 1..], next, prev, beginA)
      decreases t, 0
    {
      InOrderSlice(t, s, a, b);
      ghost var c := a + |InOrder(t.l)|;
      var tmp := t.r;
      while tmp.l.Node?
        invariant tmp.Node? && Leftmost(tmp) == Leftmost(t.r)
        decreases tmp
      {
        tmp := tmp.l;
      }
      var rr, st := RemoveNode(t.r, tmp.key, false, s, c + 1, b, 0);
      Unlink(t.key, s, j);
      var res := RemoveRoot(t, tmp, (rr, st));
      r, stop := res.0, res.1;
    }

    /** `erase`: an iterator of another map, or the end, is refused with
        `index_out_of_bound`; the last node is dropped with the whole tree,
        any other through `Remove`. */
    method Erase(pos: MapIter) returns (o: Outcome)
      requires Valid() && (pos.ctn == this ==> ValidIter(pos))
      modifies this
      ensures Valid()
      ensures o.Fail? <==> pos.ctn != this || pos.p.PastTheEnd?
      ensures o.Fail? ==> o.error == IndexOutOfBound && unchanged(this)
      ensures o.Done? ==> pos.p.key in old(Contents()) && Contents() == old(Contents()) - {pos.p.key}
    {
      if pos.ctn != this || pos.p == PastTheEnd {
        return Fail(IndexOutOfBound);
      }
      InOrderKeys(root);
      ModelKeys(root);
      if sizeM == 1 {
        EraseLast(pos.p.key);
      } else {
        var tmp := pos.p.key;
        EraseNode(tmp);
      }
      return Done;
    }

    /** `erase` of the only node: the tree goes, and `beginA` and the
        `prev` of `pastTheEnd` are reset. */
    method EraseLast(x: int)
      requires Valid() && sizeM == 1 && x in Contents()
      modifies this
      ensures Valid() && Contents() == map[] && old(Contents()) == map[x := old(root).val]
    {
      SizeOne(root);
      assert Model<V>(Tree.Empty) + Model(Tree.Empty) == map[];
      sizeM := sizeM - 1;
      root := Tree.Empty;
      beginA := PastTheEnd;
      // the deleted node's fields go with it
      next := map[];
      prev := map[PastTheEnd := Null];
    }

    /** `erase` of the node of `x` from a map of two or more. */
    method EraseNode(x: int)
      requires Valid() && sizeM != 1 && x in Contents()
      modifies this
      ensures Valid() && Contents() == old(Contents()) - {x}
    {
      ModelKeys(root);
      sizeM := sizeM - 1;
      root := RemoveThreaded(root, x);
    }

    /** `Remove(root, x, true)` for a present key: the tree loses the key
        and the thread drops it from the key list. */
    method RemoveThreaded(t: Tree<V>, x: int) returns (r: Tree<V>)
      requires IsAvl(t) && x in Keys(t) && Threaded(InOrder(t), next, prev, beginA)
      modifies this`next, this`prev, this`beginA
      ensures r == RemoveTree(t, x).0
      ensures Threaded(InOrder(r), next, prev, beginA)
    {
      ModelKeys(t);
      ghost var s := InOrder(t);
      ghost var j := PositionOf(t, x);
      var stop;
      r, stop := RemoveNode(t, x, true, s, 0, |s|, j);
      DeletedList(t, r, j);
    }

    /** `getByRank`: the node of the `k`-th smallest key, from 1, or
        `index_out_of_bound` outside `1..size()`. */
    function GetByRank(k: int): (r: Result<MapIter>)
      reads this
      requires Valid()
      ensures r.Err? <==> !(1 <= k <= |KeyList()|)
      ensures r.Err? ==> r.error == IndexOutOfBound
      ensures r.Ok? ==> ValidIter(r.value) && r.value.p.NodeAt? && Rank(r.value) == k - 1
    {
      CachesAreTrue(root);
      InOrderKeys(root);
      OrderedIsIncreasing(root);
      if k <= 0 || k > sizeM then Err(IndexOutOfBound)
      else Ok(MapIter(this, NodeAt(GetKth(root, k).key)))
    }

    /** `++`: the following node, or `invalid_iterator` at the end, whose
        `next` is null. */
    function Increment(it: MapIter): (r: Result<MapIter>)
      reads this
      requires Valid() && ValidIter(it)
      ensures r.Err? <==> it.p.PastTheEnd?
      ensures r.Err? ==> r.error == InvalidIterator
      ensures r.Ok? ==> ValidIter(r.value) && Rank(r.value) == Rank(it) + 1
    {
      OrderedIsIncreasing(root);
      if it.p.PastTheEnd? then Err(InvalidIterator) else Ok(MapIter(it.ctn, next[it.p.key]))
    }

    /** `--`: the preceding node, or `invalid_iterator` where `prev` is
        null: at the first node, and at the end of an empty map. */
    function Decrement(it: MapIter): (r: Result<MapIter>)
      reads this
      requires Valid() && ValidIter(it)
      ensures r.Err? <==> Rank(it) == 0
      ensures r.Err? ==> r.error == InvalidIterator
      ensures r.Ok? ==> ValidIter(r.value) && Rank(r.value) == Rank(it) - 1
    {
      OrderedIsIncreasing(root);
      if prev[it.p] == Null then Err(InvalidIterator) else Ok(MapIter(it.ctn, NodeAt(prev[it.p].key)))
    }

    /** `*`: the key and value of the node, or `invalid_iterator` at the
        end, which holds no value. */
    function Deref(it: MapIter): (r: Result<(int, V)>)
      reads this
      requires Valid() && ValidIter(it)
      ensures r.Err? <==> it.p.PastTheEnd?
      ensures r.Err? ==> r.error == InvalidIterator
      ensures r.Ok? ==> r.value.0 == it.p.key && it.p.key in Contents() && r.value.1 == Contents()[it.p.key]
    {
      InOrderKeys(root);
      if it.p.PastTheEnd? then Err(InvalidIterator) else Ok((it.p.key, ValueAt(root, it.p.key)))
    }

    /** An iterator is its rank: two iterators of the map at one place are
        the same. */
    lemma {:induction false} RankDetermines(it1: MapIter, it2: MapIter)
      requires Valid() && ValidIter(it1) && ValidIter(it2) && Rank(it1) == Rank(it2)
      ensures it1 == it2
    {
    }

    /** `--` undoes `++`, from any node. */
    lemma {:induction false} IncrementThenDecrement(it: MapIter)
      requires Valid() && ValidIter(it) && it.p.NodeAt?
      ensures Increment(it).Ok? && Decrement(Increment(it).value) == Ok(it)
    {
      var it' := Increment(it).value;
      RankDetermines(Decrement(it').value, it);
    }

    /** `++` undoes `--`, from any iterator but the first. */
    lemma {:induction false} DecrementThenIncrement(it: MapIter)
      requires Valid() && ValidIter(it) && Rank(it) > 0
      ensures Decrement(it).Ok? && Increment(Decrement(it).value) == Ok(it)
    {
      var it' := Decrement(it).value;
      RankDetermines(Increment(it').value, it);
    }
  }
}
