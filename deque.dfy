/** A double-ended queue kept as an unrolled linked list: a doubly linked
    chain of blocks of at most `B` elements each, closed by the permanent
    empty block `pastTheEnd`.  Blocks live in an arena addressed by index:
    slot `b` holds the `sizeB`, `prev`, `next` and `data` fields of one
    `ListBlock`, and slot 0 is `pastTheEnd`.  A freed block stays in the
    arena, unlinked. */
module Deques {
  import opened Exceptions
  import opened DequeChains

  /** An iterator: its container, its block and an index into the block.
      `end()` is `pastTheEnd` at index 0; a null iterator has block `Nil`. */
  datatype Iter = Iter(ctn: object?, p: int, idx: nat)

  /** The blocks of a deque and its `first` and `last` pointers.  Block `b`
      has `sizeB[b]` elements, `data[b]`, and links `prev[b]` and `next[b]`. */
  datatype Arena<T> = Arena(sizeB: seq<nat>, prev: seq<int>, next: seq<int>, data: seq<seq<T>>,
                            first: int, last: int)


  /** Every arena slot has a size of at most `B` matching its elements, the
      `pastTheEnd` slot is empty, and every link is null or an arena index. */
  ghost predicate ArenaShape<T>(B: nat, sizeB: seq<nat>, prev: seq<int>, next: seq<int>,
                                elems: seq<seq<T>>, n: nat)
  {
    B >= 1 && n >= 1
    && |sizeB| == n && |prev| == n && |next| == n && |elems| == n
    && sizeB[PastTheEnd] == 0
    && (forall b :: 0 <= b < n ==> sizeB[b] <= B && |elems[b]| == sizeB[b])
    && (forall b :: 0 <= b < n ==> Nil <= prev[b] < n && Nil <= next[b] < n)
  }

  /** Every linked block other than `pastTheEnd` holds at least one element. */
  ghost predicate ChainBlocks(sizeB: seq<nat>, chain: seq<int>)
  {
    forall j :: 0 <= j < |chain| - 1 ==> 0 <= chain[j] < |sizeB| && sizeB[chain[j]] >= 1
  }

  /** `first` and `last` name the ends of the list whenever it has a real block. */
  ghost predicate Ends(chain: seq<int>, first: int, last: int)
  {
    |chain| > 1 ==> first == chain[0] && last == chain[|chain| - 2]
  }

  /** The structure of the list apart from the buffers: the arena's shape,
      the chain of linked blocks, and its ends. */
  ghost predicate Shape<T>(B: nat, sizeB: seq<nat>, prev: seq<int>, next: seq<int>, elems: seq<seq<T>>,
                           chain: seq<int>, first: int, last: int, n: nat)
  {
    ArenaShape(B, sizeB, prev, next, elems, n) && Linked(prev, next, chain)
    && ChainBlocks(sizeB, chain) && Ends(chain, first, last)
  }

  /** Where the `j`-th linked block sits: its neighbours, and whether it is
      `first`, `last` or `pastTheEnd`. */
  lemma {:induction false} ChainAt(prev: seq<int>, next: seq<int>, chain: seq<int>, first: int, last: int, j: int)
    requires Linked(prev, next, chain) && Ends(chain, first, last) && 0 <= j < |chain|
    ensures IndexOf(chain, chain[j]) == j
    ensures chain[j] == PastTheEnd <==> j == |chain| - 1
    ensures prev[chain[j]] == Nil <==> j == 0
    ensures j > 0 ==> prev[chain[j]] == chain[j - 1]
    ensures j < |chain| - 1 ==> next[chain[j]] == chain[j + 1] && next[chain[j]] != Nil
    ensures j < |chain| - 1 ==> (chain[j] == last <==> j == |chain| - 2)
    ensures j < |chain| - 1 ==> (chain[j] == first <==> j == 0)
  {
    IndexOfDistinct(chain, j);
    IndexOfDistinct(chain, |chain| - 1);
    IndexOfDistinct(chain, 0);
    if |chain| > 1 {
      IndexOfDistinct(chain, |chain| - 2);
    }
  }

  /** Linking a non-empty block keeps every linked real block non-empty. */
  lemma {:induction false} ChainBlocksInsert(sizeB: seq<nat>, c: seq<int>, k: int, nb: int)
    requires ChainBlocks(sizeB, c) && 0 <= k < |c| && 0 <= nb < |sizeB| && sizeB[nb] >= 1
    ensures ChainBlocks(sizeB, c[..k] + [nb] + c[k..])
  {
    var d := c[..k] + [nb] + c[k..];
    forall q | 0 <= q < |d| - 1
      ensures 0 <= d[q] < |sizeB| && sizeB[d[q]] >= 1
    {
      if q < k {
        assert d[q] == c[q];
      } else if q > k {
        assert d[q] == c[q - 1];
      }
    }
  }

  /** Unlinking a real block keeps every other linked real block non-empty. */
  lemma {:induction false} ChainBlocksDrop(sizeB: seq<nat>, c: seq<int>, k: int)
    requires ChainBlocks(sizeB, c) && 0 <= k < |c| - 1
    ensures ChainBlocks(sizeB, c[..k] + c[k + 1..])
  {
    var d := c[..k] + c[k + 1..];
    forall q | 0 <= q < |d| - 1
      ensures 0 <= d[q] < |sizeB| && sizeB[d[q]] >= 1
    {
      if q < k {
        assert d[q] == c[q];
      } else {
        assert d[q] == c[q + 1];
      }
    }
  }

  /** The ends of the list once a block is linked at position `k`. */
  lemma {:induction false} EndsInsert(c: seq<int>, k: int, nb: int, first: int, last: int, first': int, last': int)
    requires Ends(c, first, last) && 0 <= k < |c|
    requires first' == (if k == 0 then nb else first)
    requires last' == (if k == |c| - 1 then nb else last)
    ensures Ends(c[..k] + [nb] + c[k..], first', last')
  {
    var d := c[..k] + [nb] + c[k..];
    if k == 0 {
      assert d[0] == nb;
    } else {
      assert d[0] == c[0];
    }
    if k == |c| - 1 {
      assert d[|d| - 2] == nb;
    } else {
      assert d[|d| - 2] == c[|c| - 2];
    }
  }

  /** The ends of the list once the real block at position `k` is unlinked. */
  lemma {:induction false} EndsDrop(c: seq<int>, k: int, first: int, last: int, first': int, last': int)
    requires Ends(c, first, last) && 0 <= k < |c| - 1
    requires |c| > 2 ==> first' == (if k == 0 then c[1] else first)
    requires |c| > 2 ==> last' == (if k == |c| - 2 then c[k - 1] else last)
    ensures Ends(c[..k] + c[k + 1..], first', last')
  {
    var d := c[..k] + c[k + 1..];
    if |d| > 1 {
      if k == 0 {
        assert d[0] == c[1];
      } else {
        assert d[0] == c[0];
      }
      if k == |c| - 2 {
        assert d[|d| - 2] == c[k - 1];
      } else {
        assert d[|d| - 2] == c[|c| - 2];
      }
    }
  }

  // --------------------------------------------------------------- the list

  /** The representation invariant of a deque's blocks, listed in order by `c`. */
  ghost predicate Well<T>(B: nat, a: Arena<T>, c: seq<int>)
  {
    Shape(B, a.sizeB, a.prev, a.next, a.data, c, a.first, a.last, |a.data|)
  }

  /** The elements of the list, front to back. */
  ghost function Elements<T>(a: Arena<T>, c: seq<int>): seq<T>
  {
    Flatten(a.data, c)
  }

  /** The rank of the first element of the `j`-th linked block. */
  ghost function BlockStart<T>(a: Arena<T>, c: seq<int>, j: int): nat
    requires 0 <= j <= |c|
  {
    |Flatten(a.data, c[..j])|
  }

  /** The rank of index `idx` of linked block `b`. */
  ghost function RankAt<T>(a: Arena<T>, c: seq<int>, b: int, idx: int): int
    requires b in c
  {
    BlockStart(a, c, IndexOf(c, b)) + idx
  }

  /** Block `p` and index `idx` name an element, or the end when `p` is
      `pastTheEnd` and `idx` is 0. */
  ghost predicate IsPos<T>(a: Arena<T>, c: seq<int>, p: int, idx: int)
  {
    p in c && 0 <= p < |a.sizeB|
    && (if p == PastTheEnd then idx == 0 else 0 <= idx < a.sizeB[p])
  }

  /** The total size of the blocks listed in `c`. */
  function SizeSum(sizeB: seq<nat>, c: seq<int>): nat
  {
    if c == [] then 0
    else SizeSum(sizeB, c[..|c| - 1]) + (if 0 <= c[|c| - 1] < |sizeB| then sizeB[c[|c| - 1]] else 0)
  }

  /** The number of elements along a chain is the sum of its blocks' sizes. */
  lemma {:induction false} SizeSumIsLength<T>(sizeB: seq<nat>, es: seq<seq<T>>, c: seq<int>)
    requires |es| == |sizeB|
    requires forall b :: 0 <= b < |es| ==> |es[b]| == sizeB[b]
    ensures |Flatten(es, c)| == SizeSum(sizeB, c)
    decreases |c|
  {
    if c != [] {
      SizeSumIsLength(sizeB, es, c[..|c| - 1]);
    }
  }

  /** `pastTheEnd` starts at rank `size()`, and the list is empty exactly
      when no other block is linked. */
  lemma {:induction false} EndRank<T>(B: nat, a: Arena<T>, c: seq<int>)
    requires Well(B, a, c)
    ensures c[|c| - 1] == PastTheEnd && IndexOf(c, PastTheEnd) == |c| - 1
    ensures BlockStart(a, c, |c| - 1) == |Elements(a, c)|
    ensures |c| == 1 <==> Elements(a, c) == []
    ensures BlockStart(a, c, 0) == 0
  {
    IndexOfDistinct(c, |c| - 1);
    assert c[..|c|] == c;
    FlattenPrefixStep(a.data, c, |c| - 1);
    if |c| > 1 {
      FlattenSplit(a.data, c, 0);
    }
  }

  /** The block after the `j`-th linked block starts where that one ends. */
  lemma {:induction false} NextStart<T>(B: nat, a: Arena<T>, c: seq<int>, j: int)
    requires Well(B, a, c) && 0 <= j < |c| - 1
    ensures BlockStart(a, c, j + 1) == BlockStart(a, c, j) + a.sizeB[c[j]]
    ensures BlockStart(a, c, j + 1) <= |Elements(a, c)|
  {
    FlattenPrefixStep(a.data, c, j);
    FlattenPrefixBound(a.data, c, j + 1, |c|);
    assert c[..|c|] == c;
  }

  /** Ranks of positions lie between 0 and `size()`, and only `end()` has
      rank `size()`. */
  lemma {:induction false} RankBounds<T>(B: nat, a: Arena<T>, c: seq<int>, p: int, idx: int)
    requires Well(B, a, c) && IsPos(a, c, p, idx)
    ensures 0 <= RankAt(a, c, p, idx) <= |Elements(a, c)|
    ensures RankAt(a, c, p, idx) == |Elements(a, c)| <==> p == PastTheEnd
  {
    var j := IndexOf(c, p);
    EndRank(B, a, c);
    if p != PastTheEnd {
      NextStart(B, a, c, j);
    }
  }

  /** The element at index `idx` of linked block `p` is the element of that rank. */
  lemma {:induction false} ElementAt<T>(B: nat, a: Arena<T>, c: seq<int>, p: int, idx: int)
    requires Well(B, a, c) && p in c && 0 <= idx < a.sizeB[p]
    ensures RankAt(a, c, p, idx) < |Elements(a, c)|
    ensures Elements(a, c)[RankAt(a, c, p, idx)] == a.data[p][idx]
  {
    FlattenAt(a.data, c, IndexOf(c, p), idx);
  }

  /** A linked block other than `pastTheEnd` has a linked successor, and a
      linked predecessor unless it is `first`. */
  lemma {:induction false} Neighbours<T>(B: nat, a: Arena<T>, c: seq<int>, b: int)
    requires Well(B, a, c) && b in c && b != PastTheEnd
    ensures a.next[b] in c && a.next[b] != Nil && a.prev[a.next[b]] == b
    ensures a.prev[b] != Nil ==> a.prev[b] in c && a.next[a.prev[b]] == b
    ensures a.prev[b] == Nil <==> b == a.first
    ensures a.sizeB[b] >= 1
  {
    var j := IndexOf(c, b);
    ChainAt(a.prev, a.next, c, a.first, a.last, j);
    ChainAt(a.prev, a.next, c, a.first, a.last, j + 1);
    if j > 0 {
      ChainAt(a.prev, a.next, c, a.first, a.last, j - 1);
    }
  }

  /** The fields of a linked real block `b`: its cells, and a successor
      that is an arena index. */
  lemma {:induction false} Slot<T>(B: nat, a: Arena<T>, c: seq<int>, b: int)
    requires Well(B, a, c) && b in c && b != PastTheEnd
    ensures |a.data| == |a.sizeB| == |a.prev| == |a.next| && 0 <= b < |a.data|
    ensures |a.data[b]| == a.sizeB[b] >= 1 && 0 <= a.next[b] < |a.prev|
    ensures a.prev[b] == Nil || 0 <= a.prev[b] < |a.next|
  {
    Neighbours(B, a, c, b);
  }

  /** The ends of a non-empty list: `first` starts at rank 0 and `last`
      ends at rank `size()`, right before `pastTheEnd`. */
  lemma {:induction false} EndBlocks<T>(B: nat, a: Arena<T>, c: seq<int>)
    requires Well(B, a, c) && |c| > 1
    ensures a.first == c[0] && a.first != PastTheEnd && a.prev[a.first] == Nil
    ensures RankAt(a, c, a.first, 0) == 0 && a.sizeB[a.first] >= 1
    ensures a.last == c[|c| - 2] && a.last != PastTheEnd && a.sizeB[a.last] >= 1
    ensures a.prev[PastTheEnd] == a.last && a.next[a.last] == PastTheEnd
    ensures RankAt(a, c, a.last, a.sizeB[a.last]) == |Elements(a, c)|
  {
    ChainAt(a.prev, a.next, c, a.first, a.last, 0);
    ChainAt(a.prev, a.next, c, a.first, a.last, |c| - 2);
    ChainAt(a.prev, a.next, c, a.first, a.last, |c| - 1);
    EndRank(B, a, c);
    NextStart(B, a, c, |c| - 2);
  }

  // ------------------------------------------------------- block primitives

  /** A new slot holding the non-empty `e`, not linked: `new ListBlock`
      followed by filling its cells. */
  function Grow<T>(a: Arena<T>, e: seq<T>): Arena<T>
  {
    a.(sizeB := a.sizeB + [|e|], prev := a.prev + [Nil], next := a.next + [Nil], data := a.data + [e])
  }

  /** A new slot leaves the list, its contents and every block's start alone. */
  lemma {:induction false} GrowKeeps<T>(B: nat, a: Arena<T>, c: seq<int>, e: seq<T>)
    requires Well(B, a, c) && 1 <= |e| <= B
    ensures Well(B, Grow(a, e), c) && |a.data| !in c
    ensures Elements(Grow(a, e), c) == Elements(a, c)
    ensures forall j :: 0 <= j <= |c| ==> BlockStart(Grow(a, e), c, j) == BlockStart(a, c, j)
  {
    LinkedGrow(a.prev, a.next, c, Nil, Nil);
    FlattenGrow(a.data, c, e);
    FlattenGrowPrefixes(a.data, c, e);
  }

  /** Resizing a linked real block to a non-empty `e` that fits keeps the invariant. */
  lemma {:induction false} ResizeKeeps<T>(B: nat, a: Arena<T>, c: seq<int>, b: int, e: seq<T>)
    requires Well(B, a, c) && 0 <= b < |a.data| && b != PastTheEnd && 1 <= |e| <= B
    ensures Well(B, a.(sizeB := a.sizeB[b := |e|], data := a.data[b := e]), c)
  {
  }

  /** Links block `nb` between `prevBlock` and `nextBlock`, as `insert` and the
      `push_*` operations do: `nb` becomes `first` when it has no predecessor
      and `last` when `pastTheEnd` follows it. */
  function LinkBlock<T>(a: Arena<T>, nb: int, prevBlock: int, nextBlock: int): Arena<T>
    requires 0 <= nb < |a.prev| && nb < |a.next| && 0 <= nextBlock < |a.prev|
    requires prevBlock == Nil || 0 <= prevBlock < |a.next|
  {
    a.(prev := a.prev[nb := prevBlock][nextBlock := nb],
       next := (if prevBlock == Nil then a.next else a.next[prevBlock := nb])[nb := nextBlock],
       first := if prevBlock == Nil then nb else a.first,
       last := if nextBlock == PastTheEnd then nb else a.last)
  }

  /** Linking a non-empty unlinked block in front of the `k`-th linked block
      lists it at position `k` and inserts its elements where that block
      started. */
  lemma {:induction false} LinkKeeps<T>(B: nat, a: Arena<T>, c: seq<int>, k: int, nb: int, prevBlock: int)
    requires Well(B, a, c) && 0 <= k < |c| && 0 <= nb < |a.data| && nb !in c && a.sizeB[nb] >= 1
    requires prevBlock == a.prev[c[k]]
    ensures prevBlock == Nil || 0 <= prevBlock < |a.next|
    ensures Well(B, LinkBlock(a, nb, prevBlock, c[k]), c[..k] + [nb] + c[k..])
    ensures BlockStart(a, c, k) <= |Elements(a, c)|
    ensures Elements(LinkBlock(a, nb, prevBlock, c[k]), c[..k] + [nb] + c[k..])
         == Elements(a, c)[..BlockStart(a, c, k)] + a.data[nb] + Elements(a, c)[BlockStart(a, c, k)..]
    ensures RankAt(LinkBlock(a, nb, prevBlock, c[k]), c[..k] + [nb] + c[k..], nb, 0) == BlockStart(a, c, k)
    ensures forall x :: x in c[..k] + [nb] + c[k..] <==> x in c || x == nb
  {
    LinkShape(B, a, c, k, nb, prevBlock);
    var a' := LinkBlock(a, nb, prevBlock, c[k]);
    FlattenLinkAt(a.data, c, k, nb);
    DistinctInsert(c, k, nb);
    LinkMembers(c, k, nb);
  }

  /** Relinking keeps every link null or an arena index. */
  lemma {:induction false} ArenaLink<T>(B: nat, a: Arena<T>, nb: int, prevBlock: int, nextBlock: int)
    requires ArenaShape(B, a.sizeB, a.prev, a.next, a.data, |a.data|)
    requires 0 <= nb < |a.data| && 0 <= nextBlock < |a.data| && Nil <= prevBlock < |a.data|
    ensures ArenaShape(B, a.sizeB, LinkBlock(a, nb, prevBlock, nextBlock).prev,
                       LinkBlock(a, nb, prevBlock, nextBlock).next, a.data, |a.data|)
  {
  }

  lemma {:induction false} LinkShape<T>(B: nat, a: Arena<T>, c: seq<int>, k: int, nb: int, prevBlock: int)
    requires Well(B, a, c) && 0 <= k < |c| && 0 <= nb < |a.data| && nb !in c && a.sizeB[nb] >= 1
    requires prevBlock == a.prev[c[k]]
    ensures prevBlock == Nil || 0 <= prevBlock < |a.next|
    ensures Well(B, LinkBlock(a, nb, prevBlock, c[k]), c[..k] + [nb] + c[k..])
  {
    var a' := LinkBlock(a, nb, prevBlock, c[k]);
    ChainAt(a.prev, a.next, c, a.first, a.last, k);
    ArenaLink(B, a, nb, prevBlock, c[k]);
    assert Linked(a'.prev, a'.next, c[..k] + [nb] + c[k..]) by {
      LinkBefore(a.prev, a.next, c, k, nb, a'.prev, a'.next);
    }
    ChainBlocksInsert(a.sizeB, c, k, nb);
    EndsInsert(c, k, nb, a.first, a.last, a'.first, a'.last);
  }

  /** Unlinks block `b` from its neighbours, as `erase`, `pop_back` and
      `pop_front` do with a block whose only element goes. */
  function UnlinkBlock<T>(a: Arena<T>, b: int): Arena<T>
    requires 0 <= b < |a.prev| && b < |a.next|
    requires a.prev[b] == Nil || 0 <= a.prev[b] < |a.next|
    requires a.next[b] == Nil || 0 <= a.next[b] < |a.prev|
  {
    var prevBlock, nextBlock := a.prev[b], a.next[b];
    a.(first := if b == a.first then nextBlock else a.first,
       last := if b == a.last then prevBlock else a.last,
       next := if prevBlock != Nil then a.next[prevBlock := nextBlock] else a.next,
       prev := if nextBlock != Nil then a.prev[nextBlock := prevBlock] else a.prev)
  }

  /** Unlinking the `k`-th linked block drops it from the list and its
      elements from the contents. */
  lemma {:induction false} UnlinkKeeps<T>(B: nat, a: Arena<T>, c: seq<int>, k: int)
    requires Well(B, a, c) && 0 <= k < |c| - 1
    ensures 0 <= c[k] < |a.prev| && 0 <= a.prev[c[k]] + 1 <= |a.next| && 0 <= a.next[c[k]] < |a.prev|
    ensures Well(B, UnlinkBlock(a, c[k]), c[..k] + c[k + 1..])
    ensures BlockStart(a, c, k) + a.sizeB[c[k]] <= |Elements(a, c)|
    ensures Elements(UnlinkBlock(a, c[k]), c[..k] + c[k + 1..])
         == Elements(a, c)[..BlockStart(a, c, k)] + Elements(a, c)[BlockStart(a, c, k) + a.sizeB[c[k]]..]
    ensures forall x :: x in c[..k] + c[k + 1..] <==> x in c && x != c[k]
  {
    UnlinkShape(B, a, c, k);
    UnlinkMembers(c, k);
    InArena(B, a, c, c[k]);
    UnlinkElements(a, UnlinkBlock(a, c[k]), c, k);
  }

  /** Dropping the `k`-th linked block, cells untouched, drops its cells from the contents. */
  lemma {:induction false} UnlinkElements<T>(a: Arena<T>, u: Arena<T>, c: seq<int>, k: int)
    requires 0 <= k < |c| && 0 <= c[k] < |a.data| == |a.sizeB|
    requires |a.data[c[k]]| == a.sizeB[c[k]] && u.data == a.data
    ensures BlockStart(a, c, k) + a.sizeB[c[k]] <= |Elements(a, c)|
    ensures Elements(u, c[..k] + c[k + 1..])
         == Elements(a, c)[..BlockStart(a, c, k)] + Elements(a, c)[BlockStart(a, c, k) + a.sizeB[c[k]]..]
  {
    var es := a.data;
    assert |Entry(es, c[k])| == a.sizeB[c[k]];
    FlattenUnlinkAt(es, c, k);
  }

  /** Unlinking keeps every link null or an arena index. */
  lemma {:induction false} ArenaUnlink<T>(B: nat, a: Arena<T>, b: int)
    requires ArenaShape(B, a.sizeB, a.prev, a.next, a.data, |a.data|) && 0 <= b < |a.data|
    ensures ArenaShape(B, a.sizeB, UnlinkBlock(a, b).prev, UnlinkBlock(a, b).next, a.data, |a.data|)
  {
  }

  lemma {:induction false} UnlinkShape<T>(B: nat, a: Arena<T>, c: seq<int>, k: int)
    requires Well(B, a, c) && 0 <= k < |c| - 1
    ensures 0 <= c[k] < |a.prev| && 0 <= a.prev[c[k]] + 1 <= |a.next| && 0 <= a.next[c[k]] < |a.prev|
    ensures Well(B, UnlinkBlock(a, c[k]), c[..k] + c[k + 1..])
  {
    var a' := UnlinkBlock(a, c[k]);
    ChainAt(a.prev, a.next, c, a.first, a.last, k);
    ChainAt(a.prev, a.next, c, a.first, a.last, k + 1);
    if k > 0 {
      ChainAt(a.prev, a.next, c, a.first, a.last, k - 1);
    }
    ArenaUnlink(B, a, c[k]);
    assert Linked(a'.prev, a'.next, c[..k] + c[k + 1..]) by {
      Unlink(a.prev, a.next, c, k, a'.prev, a'.next);
    }
    ChainBlocksDrop(a.sizeB, c, k);
    EndsDrop(c, k, a.first, a.last, a'.first, a'.last);
  }

  /** Drops every block from the list: `pastTheEnd` loses its predecessor and
      `first` and `last` take the given values. */
  function Detach<T>(a: Arena<T>, first: int, last: int): Arena<T>
    requires |a.prev| > 0
  {
    a.(prev := a.prev[PastTheEnd := Nil], first := first, last := last)
  }

  lemma {:induction false} DetachKeeps<T>(B: nat, a: Arena<T>, c: seq<int>, first: int, last: int)
    requires Well(B, a, c)
    ensures |a.prev| > 0 && Well(B, Detach(a, first, last), [PastTheEnd])
    ensures Elements(Detach(a, first, last), [PastTheEnd]) == []
  {
    FlattenPair(a.data, PastTheEnd, PastTheEnd);
  }

  /** `Mergeable(l, r)`: two real blocks whose elements fit in one. */
  function Mergeable<T>(B: nat, a: Arena<T>, lBlock: int, rBlock: int): (b: bool)
    requires lBlock == Nil || 0 <= lBlock < |a.sizeB|
    requires rBlock == Nil || 0 <= rBlock < |a.sizeB|
    ensures b <==> lBlock != Nil && rBlock != Nil && rBlock != PastTheEnd
                   && a.sizeB[lBlock] + a.sizeB[rBlock] <= B
  {
    if lBlock == Nil || rBlock == Nil || rBlock == PastTheEnd then false
    else a.sizeB[lBlock] + a.sizeB[rBlock] <= B
  }

  // ------------------------------------------------------ block operations

  /** `InsertElement(block, idx, value)`: grows block `b` by one cell, shifts
      the cells from `idx` on one place right and stores `value` at `idx`. */
  method InsertElement<T>(B: nat, a: Arena<T>, ghost c: seq<int>, b: int, idx: nat, value: T)
    returns (r: Arena<T>)
    requires Well(B, a, c) && b in c && b != PastTheEnd && idx <= a.sizeB[b] < B
    ensures r == a.(sizeB := a.sizeB[b := a.sizeB[b] + 1],
                    data := a.data[b := a.data[b][..idx] + [value] + a.data[b][idx..]])
    ensures Well(B, r, c)
    ensures RankAt(a, c, b, idx) <= |Elements(a, c)| && RankAt(r, c, b, idx) == RankAt(a, c, b, idx)
    ensures Elements(r, c)
         == Elements(a, c)[..RankAt(a, c, b, idx)] + [value] + Elements(a, c)[RankAt(a, c, b, idx)..]
  {
    InArena(B, a, c, b);
    var d := ShiftIn(a.data[b], idx, value);
    InsertElementKeeps(B, a, c, b, idx, value);
    r := a.(sizeB := a.sizeB[b := a.sizeB[b] + 1], data := a.data[b := d]);
  }

  /** The shifting loop of `InsertElement` on the cells `e` of one block:
      the cells from `idx` on move one place right and `value` takes `idx`. */
  method ShiftIn<T>(e: seq<T>, idx: nat, value: T) returns (d: seq<T>)
    requires idx <= |e|
    ensures d == e[..idx] + [value] + e[idx..]
  {
    var n := |e| + 1;
    d := e + [value];
    var i := n - 1;
    while i > idx
      invariant idx <= i <= n - 1 && |d| == n
      invariant forall k :: 0 <= k < i ==> d[k] == (e + [value])[k]
      invariant forall k :: i < k < n ==> d[k] == e[k - 1]
    {
      d := d[i := d[i - 1]];
      i := i - 1;
    }
    d := d[idx := value];
  }

  /** A block that grows by one cell at `idx` keeps the list well formed and
      inserts `value` into the contents at the rank of that cell. */
  lemma {:induction false} InsertElementKeeps<T>(B: nat, a: Arena<T>, c: seq<int>, b: int, idx: nat, value: T)
    requires Well(B, a, c) && b in c && b != PastTheEnd && idx <= a.sizeB[b] < B
    ensures 0 <= b < |a.data| && |a.data[b]| == a.sizeB[b]
    ensures var r := a.(sizeB := a.sizeB[b := a.sizeB[b] + 1],
                        data := a.data[b := a.data[b][..idx] + [value] + a.data[b][idx..]]);
            Well(B, r, c)
            && RankAt(a, c, b, idx) <= |Elements(a, c)| && RankAt(r, c, b, idx) == RankAt(a, c, b, idx)
            && Elements(r, c)
               == Elements(a, c)[..RankAt(a, c, b, idx)] + [value] + Elements(a, c)[RankAt(a, c, b, idx)..]
  {
    InArena(B, a, c, b);
    var e := a.data[b];
    var d := e[..idx] + [value] + e[idx..];
    var j := IndexOf(c, b);
    assert |e| == a.sizeB[b];
    var r := a.(sizeB := a.sizeB[b := a.sizeB[b] + 1], data := a.data[b := d]);
    ResizeKeeps(B, a, c, b, d);
    assert Well(B, r, c);
    FlattenInsertAt(a.data, c, j, idx, value);
    var P, F, F' := Flatten(a.data, c[..j]), Flatten(a.data, c), Flatten(r.data, c);
    assert Flatten(r.data, c[..j]) == P && F' == F[..|P| + idx] + [value] + F[|P| + idx..];
    assert RankAt(a, c, b, idx) == |P| + idx == RankAt(r, c, b, idx);
  }

  /** `DeleteElement(block, idx)`: shifts the cells after `idx` one place left
      and drops the last cell of block `b`. */
  method DeleteElement<T>(B: nat, a: Arena<T>, ghost c: seq<int>, b: int, idx: nat)
    returns (r: Arena<T>)
    requires Well(B, a, c) && b in c && idx < a.sizeB[b] && a.sizeB[b] > 1
    ensures r == a.(sizeB := a.sizeB[b := a.sizeB[b] - 1],
                    data := a.data[b := a.data[b][..idx] + a.data[b][idx + 1..]])
    ensures Well(B, r, c)
    ensures RankAt(a, c, b, idx) < |Elements(a, c)|
    ensures Elements(r, c)
         == Elements(a, c)[..RankAt(a, c, b, idx)] + Elements(a, c)[RankAt(a, c, b, idx) + 1..]
  {
    InArena(B, a, c, b);
    DeleteElementKeeps(B, a, c, b, idx);
    var d := ShiftOut(a.data[b], idx);
    r := a.(sizeB := a.sizeB[b := a.sizeB[b] - 1], data := a.data[b := d]);
  }

  /** The shifting loop of `DeleteElement` on the cells `e` of one block:
      the cells after `idx` move one place left and the last cell goes. */
  method ShiftOut<T>(e: seq<T>, idx: nat) returns (d: seq<T>)
    requires idx < |e|
    ensures d == e[..idx] + e[idx + 1..]
  {
    var n := |e|;
    d := e;
    var i := idx;
    while i < n - 1
      invariant idx <= i <= n - 1 && |d| == n
      invariant forall k :: 0 <= k < idx ==> d[k] == e[k]
      invariant forall k :: idx <= k < i ==> d[k] == e[k + 1]
      invariant forall k :: i <= k < n ==> d[k] == e[k]
    {
      d := d[i := d[i + 1]];
      i := i + 1;
    }
    d := d[..n - 1];
  }

  /** A block that loses the cell at `idx` keeps the list well formed and
      loses the element at the rank of that cell. */
  lemma {:induction false} DeleteElementKeeps<T>(B: nat, a: Arena<T>, c: seq<int>, b: int, idx: nat)
    requires Well(B, a, c) && b in c && idx < a.sizeB[b] && a.sizeB[b] > 1
    ensures 0 <= b < |a.data| && |a.data[b]| == a.sizeB[b]
    ensures var r := a.(sizeB := a.sizeB[b := a.sizeB[b] - 1],
                        data := a.data[b := a.data[b][..idx] + a.data[b][idx + 1..]]);
            Well(B, r, c)
            && RankAt(a, c, b, idx) < |Elements(a, c)|
            && Elements(r, c)
               == Elements(a, c)[..RankAt(a, c, b, idx)] + Elements(a, c)[RankAt(a, c, b, idx) + 1..]
  {
    InArena(B, a, c, b);
    var e := a.data[b];
    var d := e[..idx] + e[idx + 1..];
    assert |e| == a.sizeB[b];
    var r := a.(sizeB := a.sizeB[b := a.sizeB[b] - 1], data := a.data[b := d]);
    ResizeKeeps(B, a, c, b, d);
    assert Well(B, r, c);
    DeleteElements(a, r, c, b, idx);
  }

  /** Deleting the cell at `idx` of block `b` drops the element of that rank. */
  lemma {:induction false} DeleteElements<T>(a: Arena<T>, r: Arena<T>, c: seq<int>, b: int, idx: nat)
    requires Distinct(c) && b in c && 0 <= b < |a.data| && idx < |a.data[b]|
    requires r.data == a.data[b := a.data[b][..idx] + a.data[b][idx + 1..]]
    ensures RankAt(a, c, b, idx) < |Elements(a, c)|
    ensures Elements(r, c) == Elements(a, c)[..RankAt(a, c, b, idx)] + Elements(a, c)[RankAt(a, c, b, idx) + 1..]
  {
    FlattenDeleteAt(a.data, c, IndexOf(c, b), idx);
  }

  /** The blocks after `SplitBlock(b, idx)`: block `b` keeps its first `idx`
      elements and a new block linked after it takes the rest. */
  function Split<T>(a: Arena<T>, b: int, idx: int): Arena<T>
    requires |a.data| == |a.sizeB| == |a.prev| == |a.next| && 0 <= b < |a.data|
    requires 0 <= idx <= |a.data[b]| && 0 <= a.next[b] < |a.prev|
  {
    LinkBlock(Grow(a.(sizeB := a.sizeB[b := idx], data := a.data[b := a.data[b][..idx]]), a.data[b][idx..]),
              |a.data|, b, a.next[b])
  }

  /** What `Split` does to each field: `b` keeps the first `idx` cells, the
      new slot takes the rest and is linked between `b` and its successor. */
  lemma {:induction false} SplitFields<T>(a: Arena<T>, b: int, idx: int)
    requires |a.data| == |a.sizeB| == |a.prev| == |a.next| && 0 <= b < |a.data|
    requires 0 <= idx <= |a.data[b]| && 0 <= a.next[b] < |a.prev|
    ensures Split(a, b, idx).data == a.data[b := a.data[b][..idx]] + [a.data[b][idx..]]
    ensures Split(a, b, idx).sizeB == a.sizeB[b := idx] + [|a.data[b]| - idx]
    ensures Split(a, b, idx).next == (a.next + [a.next[b]])[b := |a.data|]
    ensures Split(a, b, idx).prev == (a.prev + [b])[a.next[b] := |a.data|]
    ensures Split(a, b, idx).first == a.first
    ensures Split(a, b, idx).last == (if a.next[b] == PastTheEnd then |a.data| else a.last)
  {
  }

  /** An arena built field by field as `SplitBlock` does is `Split(a, b, idx)`. */
  lemma {:induction false} SplitBuilt<T>(a: Arena<T>, b: int, idx: int, r: Arena<T>)
    requires |a.data| == |a.sizeB| == |a.prev| == |a.next| && 0 <= b < |a.data|
    requires 0 <= idx <= |a.data[b]| == a.sizeB[b] && 0 <= a.next[b] < |a.prev|
    requires r.sizeB == a.sizeB[b := idx] + [a.sizeB[b] - idx]
    requires r.data == a.data[b := a.data[b][..idx]] + [a.data[b][idx..]]
    requires r.prev == (a.prev + [b])[a.next[b] := |a.data|] && r.next == (a.next + [a.next[b]])[b := |a.data|]
    requires r.first == a.first && r.last == (if a.next[b] == PastTheEnd then |a.data| else a.last)
    ensures r == Split(a, b, idx)
  {
    SplitFields(a, b, idx);
  }

  /** Splitting a real block inside lists the new block right after it. */
  lemma {:induction false} SplitShape<T>(B: nat, a: Arena<T>, c: seq<int>, b: int, idx: int)
    requires Well(B, a, c) && b in c && 0 < idx < a.sizeB[b]
    ensures a.next[b] in c && a.next[b] != Nil && 0 <= a.next[b] < |a.prev|
    ensures Well(B, Split(a, b, idx), c[..IndexOf(c, b) + 1] + [|a.data|] + c[IndexOf(c, b) + 1..])
  {
    var j := IndexOf(c, b);
    var e := a.data[b];
    Neighbours(B, a, c, b);
    ChainAt(a.prev, a.next, c, a.first, a.last, j);
    var a0 := a.(sizeB := a.sizeB[b := idx], data := a.data[b := e[..idx]]);
    ResizeKeeps(B, a, c, b, e[..idx]);
    var a1 := Grow(a0, e[idx..]);
    GrowKeeps(B, a0, c, e[idx..]);
    assert Well(B, a1, c);
    LinkShape(B, a1, c, j + 1, |a.data|, b);
  }

  /** What a split needs of block `c[j]`: distinct links, a fresh slot
      number, and fields that `Split` may index. */
  ghost predicate SplitReady<T>(a: Arena<T>, c: seq<int>, j: int, idx: int)
  {
    Distinct(c) && 0 <= j < |c| && |a.data| !in c
    && |a.data| == |a.sizeB| == |a.prev| == |a.next| && 0 <= c[j] < |a.data|
    && 0 <= idx <= |a.data[c[j]]| && 0 <= a.next[c[j]] < |a.prev|
  }

  lemma {:induction false} ReadyToSplit<T>(B: nat, a: Arena<T>, c: seq<int>, b: int, idx: int)
    requires Well(B, a, c) && b in c && 0 < idx < a.sizeB[b]
    ensures a.next[b] in c && a.next[b] != Nil && 0 <= a.next[b] < |a.prev|
    ensures IndexOf(c, b) < |c| - 1 && c[IndexOf(c, b)] == b
    ensures SplitReady(a, c, IndexOf(c, b), idx)
  {
    Neighbours(B, a, c, b);
    ChainAt(a.prev, a.next, c, a.first, a.last, IndexOf(c, b));
  }

  /** Splitting keeps the contents. */
  lemma {:induction false} SplitElements<T>(a: Arena<T>, c: seq<int>, j: int, idx: int)
    requires SplitReady(a, c, j, idx)
    ensures Elements(Split(a, c[j], idx), c[..j + 1] + [|a.data|] + c[j + 1..]) == Elements(a, c)
  {
    var e := a.data[c[j]];
    assert Split(a, c[j], idx).data == a.data[c[j] := e[..idx]] + [e[idx..]] by {
      SplitFields(a, c[j], idx);
    }
    assert e == e[..idx] + e[idx..];
    FlattenSplitBlock(a.data, c, j, e[..idx], e[idx..]);
  }

  /** After a split the new block starts at the rank of index `idx`. */
  lemma {:induction false} SplitRank<T>(a: Arena<T>, c: seq<int>, j: int, idx: int)
    requires SplitReady(a, c, j, idx)
    ensures c[j] in c && IndexOf(c, c[j]) == j
    ensures RankAt(Split(a, c[j], idx), c[..j + 1] + [|a.data|] + c[j + 1..], |a.data|, 0)
         == RankAt(a, c, c[j], idx)
  {
    var e := a.data[c[j]];
    var c' := c[..j + 1] + [|a.data|] + c[j + 1..];
    var sp := Split(a, c[j], idx);
    IndexOfDistinct(c, j);
    assert IndexOf(c', |a.data|) == j + 1 by {
      DistinctInsert(c, j + 1, |a.data|);
      IndexOfDistinct(c', j + 1);
    }
    assert c'[..j + 1] == c[..j + 1];
    assert sp.data == a.data[c[j] := e[..idx]] + [e[idx..]] by {
      SplitFields(a, c[j], idx);
    }
    assert e == e[..idx] + e[idx..];
    FlattenSplitBlock(a.data, c, j, e[..idx], e[idx..]);
  }

  /** `SplitBlock(block, idx)`: moves the cells of block `b` from `idx` on
      into a new block linked right after it, and returns `b`. */
  method SplitBlock<T>(B: nat, a: Arena<T>, ghost c: seq<int>, b: int, idx: nat)
    returns (r: Arena<T>, blk: int, ghost c': seq<int>)
    requires Well(B, a, c) && b in c && 0 < idx < a.sizeB[b]
    ensures blk == b && a.next[b] in c && a.next[b] != Nil && 0 <= a.next[b] < |a.prev|
    ensures r == Split(a, b, idx)
    ensures c' == c[..IndexOf(c, b) + 1] + [|a.data|] + c[IndexOf(c, b) + 1..]
    ensures Well(B, r, c') && Elements(r, c') == Elements(a, c)
    ensures |a.data| in c' && RankAt(r, c', |a.data|, 0) == RankAt(a, c, b, idx)
    ensures forall x :: x in c' <==> x in c || x == |a.data|
  {
    ReadyToSplit(B, a, c, b, idx);
    Slot(B, a, c, b);
    r := BuildSplit(a, b, idx);
    ghost var j := IndexOf(c, b);
    blk := b;
    c' := c[..j + 1] + [|a.data|] + c[j + 1..];
    assert c[j] == b && c'[j + 1] == |a.data|;
    SplitShape(B, a, c, b, idx);
    SplitElements(a, c, j, idx);
    SplitRank(a, c, j, idx);
    LinkMembers(c, j + 1, |a.data|);
  }

  /** The record `SplitBlock` builds: the tail cells are cleared from `b`,
      and the new block goes after it. */
  method BuildSplit<T>(a: Arena<T>, b: int, idx: nat) returns (r: Arena<T>)
    requires |a.data| == |a.sizeB| == |a.prev| == |a.next| && 0 <= b < |a.data|
    requires idx <= |a.data[b]| == a.sizeB[b] && 0 <= a.next[b] < |a.prev|
    ensures r == Split(a, b, idx)
  {
    var e := a.data[b];
    var m := a.sizeB[b] - idx;
    var nd := CopyTail(e, idx);
    var nb := |a.data|;
    var nextBlock := a.next[b];
    r := a.(sizeB := a.sizeB[b := idx] + [m], data := a.data[b := e[..idx]] + [nd],
            prev := (a.prev + [b])[nextBlock := nb], next := (a.next + [nextBlock])[b := nb],
            last := if nextBlock == PastTheEnd then nb else a.last);
    SplitBuilt(a, b, idx, r);
  }

  /** The copy loop of `SplitBlock`: the cells of `e` from `idx` on. */
  method CopyTail<T>(e: seq<T>, idx: nat) returns (nd: seq<T>)
    requires idx <= |e|
    ensures nd == e[idx..]
  {
    nd := [];
    var i := 0;
    while i < |e| - idx
      invariant 0 <= i <= |e| - idx && nd == e[idx..idx + i]
    {
      nd := nd + [e[idx + i]];
      i := i + 1;
    }
  }

  /** The blocks after `MergeBlock(l, rb)`: the elements of `rb` are appended
      to `l` and `rb` is unlinked. */
  function Merge<T>(a: Arena<T>, l: int, rb: int): Arena<T>
    requires |a.data| == |a.sizeB| == |a.prev| == |a.next| && 0 <= l < |a.data| && 0 <= rb < |a.data|
    requires a.prev[rb] == Nil || 0 <= a.prev[rb] < |a.next|
    requires a.next[rb] == Nil || 0 <= a.next[rb] < |a.prev|
  {
    var u := UnlinkBlock(a, rb);
    u.(sizeB := u.sizeB[l := a.sizeB[l] + a.sizeB[rb]], data := u.data[l := a.data[l] + a.data[rb]])
  }

  /** What `Merge` does to each field: `l` takes the cells of `rb`, and
      `rb`'s successor becomes `l`'s. */
  lemma {:induction false} MergeFields<T>(a: Arena<T>, l: int, rb: int)
    requires |a.data| == |a.sizeB| == |a.prev| == |a.next| && 0 <= l < |a.data| && 0 <= rb < |a.data|
    requires a.prev[rb] == l && 0 <= a.next[rb] < |a.prev| && rb != a.first
    ensures Merge(a, l, rb).data == a.data[l := a.data[l] + a.data[rb]]
    ensures Merge(a, l, rb).sizeB == a.sizeB[l := a.sizeB[l] + a.sizeB[rb]]
    ensures Merge(a, l, rb).next == a.next[l := a.next[rb]]
    ensures Merge(a, l, rb).prev == a.prev[a.next[rb] := l]
    ensures Merge(a, l, rb).first == a.first
    ensures Merge(a, l, rb).last == (if a.last == rb then l else a.last)
  {
  }

  /** An arena built field by field as `MergeBlock` does is `Merge(a, l, rb)`. */
  lemma {:induction false} MergeBuilt<T>(a: Arena<T>, l: int, rb: int, r: Arena<T>)
    requires |a.data| == |a.sizeB| == |a.prev| == |a.next| && 0 <= l < |a.data| && 0 <= rb < |a.data|
    requires a.prev[rb] == l && 0 <= a.next[rb] < |a.prev| && rb != a.first
    requires r.data == a.data[l := a.data[l] + a.data[rb]]
    requires r.sizeB == a.sizeB[l := a.sizeB[l] + a.sizeB[rb]]
    requires r.next == a.next[l := a.next[rb]] && r.prev == a.prev[a.next[rb] := l]
    requires r.first == a.first && r.last == (if a.last == rb then l else a.last)
    ensures r == Merge(a, l, rb)
  {
    MergeFields(a, l, rb);
  }

  /** What a merge of the `k`-th linked block into its predecessor needs:
      distinct links and fields that `Merge` may index. */
  ghost predicate MergeReady<T>(a: Arena<T>, c: seq<int>, k: int)
  {
    Distinct(c) && 0 < k < |c| && |a.data| == |a.sizeB| == |a.prev| == |a.next|
    && 0 <= c[k - 1] < |a.data| && 0 <= c[k] < |a.data|
    && a.prev[c[k]] == c[k - 1] && 0 <= a.next[c[k]] < |a.prev| && c[k] != a.first
  }

  lemma {:induction false} ReadyToMerge<T>(B: nat, a: Arena<T>, c: seq<int>, l: int, rb: int)
    requires Well(B, a, c) && rb in c && rb != PastTheEnd && l != Nil && a.prev[rb] == l
    ensures a.next[rb] in c && a.next[rb] != Nil && 0 <= a.next[rb] < |a.prev| && 0 <= l < |a.data|
    ensures 0 < IndexOf(c, rb) < |c| - 1 && c[IndexOf(c, rb)] == rb && c[IndexOf(c, rb) - 1] == l
    ensures MergeReady(a, c, IndexOf(c, rb))
  {
    var k := IndexOf(c, rb);
    ChainAt(a.prev, a.next, c, a.first, a.last, k);
    ChainAt(a.prev, a.next, c, a.first, a.last, k - 1);
    Neighbours(B, a, c, rb);
  }

  /** Merging keeps the contents. */
  lemma {:induction false} MergeElements<T>(a: Arena<T>, c: seq<int>, k: int)
    requires MergeReady(a, c, k)
    ensures Elements(Merge(a, c[k - 1], c[k]), c[..k] + c[k + 1..]) == Elements(a, c)
  {
    var l := c[k - 1];
    assert Merge(a, l, c[k]).data == a.data[l := a.data[l] + Entry(a.data, c[k])] by {
      MergeFields(a, l, c[k]);
    }
    FlattenMerge(a.data, c, k);
  }

  /** Merging a real block into its predecessor drops it from the list. */
  lemma {:induction false} MergeShape<T>(B: nat, a: Arena<T>, c: seq<int>, l: int, rb: int)
    requires Well(B, a, c) && rb in c && rb != PastTheEnd
    requires l != Nil && a.prev[rb] == l && a.sizeB[l] + a.sizeB[rb] <= B
    ensures a.next[rb] in c && a.next[rb] != Nil && 0 <= a.next[rb] < |a.prev| && 0 <= l < |a.data|
    ensures Well(B, Merge(a, l, rb), c[..IndexOf(c, rb)] + c[IndexOf(c, rb) + 1..])
  {
    var k := IndexOf(c, rb);
    ReadyToMerge(B, a, c, l, rb);
    Slot(B, a, c, rb);
    Slot(B, a, c, l);
    var e := a.data[l] + a.data[rb];
    var u := UnlinkBlock(a, rb);
    var c' := c[..k] + c[k + 1..];
    UnlinkShape(B, a, c, k);
    assert Well(B, u, c') && |e| == a.sizeB[l] + a.sizeB[rb];
    ResizeKeeps(B, u, c', l, e);
    MergeAsResize(a, l, rb);
  }

  /** `Merge` is an unlink followed by a resize of `l`. */
  lemma {:induction false} MergeAsResize<T>(a: Arena<T>, l: int, rb: int)
    requires |a.data| == |a.sizeB| == |a.prev| == |a.next| && 0 <= l < |a.data| && 0 <= rb < |a.data|
    requires a.prev[rb] == Nil || 0 <= a.prev[rb] < |a.next|
    requires a.next[rb] == Nil || 0 <= a.next[rb] < |a.prev|
    requires |a.data[l] + a.data[rb]| == a.sizeB[l] + a.sizeB[rb]
    ensures var u := UnlinkBlock(a, rb);
            Merge(a, l, rb) == u.(sizeB := u.sizeB[l := |a.data[l] + a.data[rb]|], data := u.data[l := a.data[l] + a.data[rb]])
  {
  }

  /** Merging a real block into its predecessor drops it from the list and
      keeps the contents. */
  lemma {:induction false} MergeKeeps<T>(B: nat, a: Arena<T>, c: seq<int>, l: int, rb: int)
    requires Well(B, a, c) && rb in c && rb != PastTheEnd
    requires l != Nil && a.prev[rb] == l && a.sizeB[l] + a.sizeB[rb] <= B
    ensures a.next[rb] in c && a.next[rb] != Nil && 0 <= a.next[rb] < |a.prev| && 0 <= l < |a.data|
    ensures Well(B, Merge(a, l, rb), c[..IndexOf(c, rb)] + c[IndexOf(c, rb) + 1..])
    ensures Elements(Merge(a, l, rb), c[..IndexOf(c, rb)] + c[IndexOf(c, rb) + 1..]) == Elements(a, c)
    ensures forall x :: x in c[..IndexOf(c, rb)] + c[IndexOf(c, rb) + 1..] <==> x in c && x != rb
  {
    MergeShape(B, a, c, l, rb);
    ReadyToMerge(B, a, c, l, rb);
    MergeElements(a, c, IndexOf(c, rb));
    UnlinkMembers(c, IndexOf(c, rb));
  }

  /** `MergeBlock(l, r)`: appends the elements of block `rb` to its
      predecessor `l` and unlinks `rb`. */
  method MergeBlock<T>(B: nat, a: Arena<T>, ghost c: seq<int>, l: int, rb: int)
    returns (r: Arena<T>, ghost c': seq<int>)
    requires Well(B, a, c) && rb in c && rb != PastTheEnd
    requires l != Nil && a.prev[rb] == l && a.sizeB[l] + a.sizeB[rb] <= B
    ensures a.next[rb] in c && a.next[rb] != Nil && 0 <= a.next[rb] < |a.prev| && 0 <= l < |a.data|
    ensures r == Merge(a, l, rb)
    ensures c' == c[..IndexOf(c, rb)] + c[IndexOf(c, rb) + 1..]
    ensures Well(B, r, c') && Elements(r, c') == Elements(a, c)
    ensures forall x :: x in c' <==> x in c && x != rb
  {
    ReadyToMerge(B, a, c, l, rb);
    Slot(B, a, c, rb);
    var el, er := a.data[l], a.data[rb];
    var d := el;
    var i := 0;
    while i < a.sizeB[rb]
      invariant 0 <= i <= a.sizeB[rb] && d == el + er[..i]
    {
      d := d + [er[i]];
      i := i + 1;
    }
    assert er[..i] == er;
    var nextBlock := a.next[rb];
    r := a.(sizeB := a.sizeB[l := a.sizeB[l] + a.sizeB[rb]], data := a.data[l := d],
            last := if rb == a.last then l else a.last,
            next := a.next[l := nextBlock],
            prev := a.prev[nextBlock := l]);
    MergeBuilt(a, l, rb, r);
    MergeKeeps(B, a, c, l, rb);
    c' := c[..IndexOf(c, rb)] + c[IndexOf(c, rb) + 1..];
  }

  /** `GetRank(p, idx)`: walks back from block `p` to `first`, adding up the
      sizes of the blocks passed. */
  method GetRank<T>(B: nat, a: Arena<T>, ghost c: seq<int>, p0: int, idx: int) returns (ret: int)
    requires Well(B, a, c) && p0 in c && |c| > 1
    ensures ret == RankAt(a, c, p0, idx)
  {
    EndBlocks(B, a, c);
    ret := idx;
    var p := p0;
    ghost var j0 := IndexOf(c, p0);
    ghost var j := j0;
    while p != a.first
      invariant 0 <= j <= j0 && p == c[j]
      invariant ret + BlockStart(a, c, j) == idx + BlockStart(a, c, j0)
      decreases j
    {
      NextStart(B, a, c, j - 1);
      p := a.prev[p];
      ret := ret + a.sizeB[p];
      j := j - 1;
    }
    IndexOfDistinct(c, 0);
    IndexOfDistinct(c, j);
  }

  /** `GetByRank(rank)`: walks forward from `first` to the block holding that
      rank; rank `size()` gives `end()`. */
  method GetByRank<T>(B: nat, a: Arena<T>, ghost c: seq<int>, k0: int) returns (p: int, k: int)
    requires Well(B, a, c) && |c| > 1 && 0 <= k0 <= |Elements(a, c)|
    ensures IsPos(a, c, p, k) && RankAt(a, c, p, k) == k0
  {
    EndRank(B, a, c);
    EndBlocks(B, a, c);
    k := k0;
    p := a.first;
    ghost var j := 0;
    while k >= a.sizeB[p] && p != PastTheEnd
      invariant 0 <= j < |c| && p == c[j]
      invariant 0 <= k && k + BlockStart(a, c, j) == k0
      decreases |c| - j
    {
      ChainAt(a.prev, a.next, c, a.first, a.last, j);
      NextStart(B, a, c, j);
      k := k - a.sizeB[p];
      p := a.next[p];
      j := j + 1;
    }
    ChainAt(a.prev, a.next, c, a.first, a.last, j);
  }

  /** The one block of a list that was empty, holding `value`, as `insert`,
      `push_back` and `push_front` make it. */
  function FirstBlock<T>(a: Arena<T>, value: T): Arena<T>
    requires |a.prev| == |a.next| == |a.data| > 0
  {
    LinkBlock(Grow(a, [value]), |a.data|, Nil, PastTheEnd)
  }

  lemma {:induction false} FirstBlockKeeps<T>(B: nat, a: Arena<T>, c: seq<int>, value: T)
    requires Well(B, a, c) && Elements(a, c) == []
    ensures |a.prev| == |a.next| == |a.data| > 0 && Well(B, FirstBlock(a, value), [|a.data|, PastTheEnd])
    ensures Elements(FirstBlock(a, value), [|a.data|, PastTheEnd]) == [value]
    ensures FirstBlock(a, value).first == |a.data|
  {
    EndRank(B, a, c);
    GrowKeeps(B, a, c, [value]);
    LinkKeeps(B, Grow(a, [value]), c, 0, |a.data|, Nil);
    assert c[..0] + [|a.data|] + c[0..] == [|a.data|, PastTheEnd];
  }

  // ------------------------------------------------------------ walks

  /** One step forward along the list, from the `j`-th block to the next. */
  lemma {:induction false} StepForward<T>(B: nat, a: Arena<T>, c: seq<int>, j: int)
    requires Well(B, a, c) && 0 <= j < |c| - 1
    ensures 0 <= c[j] < |a.next| && a.next[c[j]] == c[j + 1] && c[j] != PastTheEnd
    ensures 0 <= c[j + 1] < |a.sizeB| && (c[j + 1] == PastTheEnd <==> j + 1 == |c| - 1)
    ensures c[j + 1] != PastTheEnd ==> a.sizeB[c[j + 1]] >= 1
    ensures IndexOf(c, c[j + 1]) == j + 1
    ensures BlockStart(a, c, j + 1) == BlockStart(a, c, j) + a.sizeB[c[j]]
  {
    ChainAt(a.prev, a.next, c, a.first, a.last, j);
    ChainAt(a.prev, a.next, c, a.first, a.last, j + 1);
    NextStart(B, a, c, j);
  }

  /** One step back along the list, from the `j`-th block to the one before. */
  lemma {:induction false} StepBack<T>(B: nat, a: Arena<T>, c: seq<int>, j: int)
    requires Well(B, a, c) && 0 < j < |c|
    ensures 0 <= c[j] < |a.prev| && a.prev[c[j]] == c[j - 1]
    ensures 0 <= c[j - 1] < |a.sizeB| && c[j - 1] != PastTheEnd && a.sizeB[c[j - 1]] >= 1
    ensures IndexOf(c, c[j - 1]) == j - 1
    ensures BlockStart(a, c, j) == BlockStart(a, c, j - 1) + a.sizeB[c[j - 1]]
  {
    StepForward(B, a, c, j - 1);
    PrevOf(B, a, c, j);
    IndexOfDistinct(c, j - 1);
  }

  /** The predecessor of the `j`-th linked block, null for the first. */
  lemma {:induction false} PrevOf<T>(B: nat, a: Arena<T>, c: seq<int>, j: int)
    requires Well(B, a, c) && 0 <= j < |c|
    ensures 0 <= c[j] < |a.prev| && a.prev[c[j]] == (if j > 0 then c[j - 1] else Nil)
  {
    ChainAt(a.prev, a.next, c, a.first, a.last, j);
  }

  /** The walk of `at(pos)` and `operator[](pos)`: from `first`, subtracts the
      sizes of whole blocks until `pos` falls inside one. */
  method WalkTo<T>(B: nat, a: Arena<T>, ghost c: seq<int>, pos0: int) returns (v: T)
    requires Well(B, a, c) && 0 <= pos0 < |Elements(a, c)|
    ensures v == Elements(a, c)[pos0]
  {
    EndRank(B, a, c);
    EndBlocks(B, a, c);
    var pos := pos0;
    var nowBlock := a.first;
    ghost var j := 0;
    while pos >= a.sizeB[nowBlock]
      invariant 0 <= j < |c| - 1 && nowBlock == c[j]
      invariant 0 <= pos && pos + BlockStart(a, c, j) == pos0
      decreases |c| - j
    {
      StepForward(B, a, c, j);
      pos := pos - a.sizeB[nowBlock];
      nowBlock := a.next[nowBlock];
      j := j + 1;
      if j == |c| - 1 {
        assert false;
      }
    }
    ChainAt(a.prev, a.next, c, a.first, a.last, j);
    ElementAt(B, a, c, nowBlock, pos);
    assert RankAt(a, c, nowBlock, pos) == pos0 by {
      IndexOfDistinct(c, j);
    }
    v := a.data[nowBlock][pos];
  }

  /** The order of a position as `operator-` between iterators computes it:
      its index plus the sizes of every block before it, following `prev`
      until it is null. */
  method Order<T>(B: nat, a: Arena<T>, ghost c: seq<int>, p0: int, idx: int) returns (order: int)
    requires Well(B, a, c) && IsPos(a, c, p0, idx)
    ensures order == RankAt(a, c, p0, idx)
  {
    ghost var j0 := IndexOf(c, p0);
    ChainAt(a.prev, a.next, c, a.first, a.last, j0);
    EndRank(B, a, c);
    order := idx;
    var p := a.prev[p0];
    ghost var j := j0;
    while p != Nil
      invariant 0 <= j <= j0 && p == (if j > 0 then c[j - 1] else Nil)
      invariant order + BlockStart(a, c, j) == idx + BlockStart(a, c, j0)
      decreases j
    {
      StepBack(B, a, c, j);
      PrevOf(B, a, c, j - 1);
      order := order + a.sizeB[p];
      p := a.prev[p];
      j := j - 1;
    }
  }

  /** The walk of `operator+(n)` for `n >= 0`: moves over whole blocks while
      the target lies past the current one, stopping at `pastTheEnd`.  A
      target past `end()` stays at `pastTheEnd` with the excess as index. */
  method Advance<T>(B: nat, a: Arena<T>, ghost c: seq<int>, p0: int, idx0: int, n0: int)
    returns (p: int, idx: int)
    requires Well(B, a, c) && IsPos(a, c, p0, idx0) && n0 >= 0
    ensures RankAt(a, c, p0, idx0) + n0 <= |Elements(a, c)|
            ==> IsPos(a, c, p, idx) && RankAt(a, c, p, idx) == RankAt(a, c, p0, idx0) + n0
    ensures RankAt(a, c, p0, idx0) + n0 > |Elements(a, c)|
            ==> p == PastTheEnd && idx == RankAt(a, c, p0, idx0) + n0 - |Elements(a, c)|
  {
    EndRank(B, a, c);
    p, idx := p0, idx0;
    var n := n0;
    ghost var j := IndexOf(c, p0);
    while idx + n >= a.sizeB[p] && p != PastTheEnd
      invariant 0 <= j < |c| && p == c[j] && IsPos(a, c, p, idx) && n >= 0
      invariant RankAt(a, c, p, idx) + n == RankAt(a, c, p0, idx0) + n0
      decreases |c| - j
    {
      StepForward(B, a, c, j);
      n := n - (a.sizeB[p] - idx);
      p := a.next[p];
      idx := 0;
      j := j + 1;
    }
    ChainAt(a.prev, a.next, c, a.first, a.last, j);
    RankBounds(B, a, c, p, idx);
    if p != PastTheEnd {
      RankBounds(B, a, c, p, idx + n);
    }
    idx := idx + n;
  }

  /** The walk of `operator-(n)` for `0 <= n`: moves back over whole blocks,
      landing on the last cell of each, while the target lies before the
      current block. */
  method Retreat<T>(B: nat, a: Arena<T>, ghost c: seq<int>, p0: int, idx0: int, n0: int)
    returns (p: int, idx: int)
    requires Well(B, a, c) && IsPos(a, c, p0, idx0) && 0 <= n0 <= RankAt(a, c, p0, idx0)
    ensures IsPos(a, c, p, idx) && RankAt(a, c, p, idx) == RankAt(a, c, p0, idx0) - n0
  {
    EndRank(B, a, c);
    p, idx := p0, idx0;
    var n := n0;
    ghost var j := IndexOf(c, p0);
    while idx < n
      invariant 0 <= j < |c| && p == c[j] && IsPos(a, c, p, idx) && 0 <= n <= RankAt(a, c, p, idx)
      invariant RankAt(a, c, p, idx) - n == RankAt(a, c, p0, idx0) - n0
      decreases j
    {
      StepBack(B, a, c, j);
      n := n - (idx + 1);
      p := a.prev[p];
      idx := a.sizeB[p] - 1;
      j := j - 1;
    }
    idx := idx - n;
  }

  // ------------------------------------------------------ insert and erase

  /** A linked block's fields are arena indices or null. */
  lemma {:induction false} InArena<T>(B: nat, a: Arena<T>, c: seq<int>, x: int)
    requires Well(B, a, c) && x in c
    ensures |a.data| == |a.sizeB| == |a.prev| == |a.next| && 0 <= x < |a.data|
    ensures a.prev[x] == Nil || 0 <= a.prev[x] < |a.data|
    ensures a.next[x] == Nil || 0 <= a.next[x] < |a.data|
  {
    ChainAt(a.prev, a.next, c, a.first, a.last, IndexOf(c, x));
  }

  /** After `Split(a, p, idx)` the new slot follows `p`, and every other
      old slot but `p` keeps its cells. */
  lemma {:induction false} SplitGap<T>(a: Arena<T>, p: int, idx: int, nb: int)
    requires |a.data| == |a.sizeB| == |a.prev| == |a.next| && 0 <= p < |a.data|
    requires 0 <= idx <= |a.data[p]| && 0 <= a.next[p] < |a.prev| && 0 <= nb < |a.data| && nb != p
    ensures |Split(a, p, idx).data| == |a.data| + 1 == |Split(a, p, idx).prev|
    ensures Split(a, p, idx).next[p] == |a.data| && Split(a, p, idx).prev[|a.data|] == p
    ensures Split(a, p, idx).data[nb] == a.data[nb] && Split(a, p, idx).sizeB[nb] == a.sizeB[nb]
  {
    SplitFields(a, p, idx);
  }

  /** The part of `insert`'s slow path before the new block `nb` is linked:
      at index 0 the new block goes in front of `p`; elsewhere `p` is split
      and the new block goes between its two halves.  Returns the blocks
      the new one goes between. */
  method OpenGap<T>(B: nat, a: Arena<T>, ghost c: seq<int>, p: int, idx: int, nb: int)
    returns (r: Arena<T>, ghost c': seq<int>, prevBlock: int, nextBlock: int)
    requires Well(B, a, c) && IsPos(a, c, p, idx) && 0 <= nb < |a.data| && nb !in c
    ensures Well(B, r, c') && Elements(r, c') == Elements(a, c)
    ensures nextBlock in c' && prevBlock == r.prev[nextBlock] && nb !in c'
    ensures BlockStart(r, c', IndexOf(c', nextBlock)) == RankAt(a, c, p, idx)
    ensures |r.data| >= |a.data| && r.data[nb] == a.data[nb] && r.sizeB[nb] == a.sizeB[nb]
  {
    InArena(B, a, c, p);
    if idx == 0 {
      r, c' := a, c;
      prevBlock, nextBlock := a.prev[p], p;
    } else {
      var blk;
      r, blk, c' := SplitBlock(B, a, c, p, idx);
      SplitGap(a, p, idx, nb);
      prevBlock := blk;
      nextBlock := r.next[prevBlock];
      assert nb !in c' && nextBlock in c';
    }
  }

  /** The rest of `insert`'s slow path: links the unlinked block `nb` between
      `prevBlock` and `nextBlock`, merges it into `prevBlock` when they fit
      in one block, and then merges `nextBlock` into its predecessor when
      they fit. */
  method LinkAndMerge<T>(B: nat, a: Arena<T>, ghost c: seq<int>, nb: int, prevBlock: int, nextBlock: int)
    returns (r: Arena<T>, ghost c': seq<int>)
    requires Well(B, a, c) && nextBlock in c && prevBlock == a.prev[nextBlock]
    requires 0 <= nb < |a.data| && nb !in c && a.sizeB[nb] >= 1
    ensures BlockStart(a, c, IndexOf(c, nextBlock)) <= |Elements(a, c)|
    ensures Well(B, r, c')
    ensures Elements(r, c') == Elements(a, c)[..BlockStart(a, c, IndexOf(c, nextBlock))] + a.data[nb]
                               + Elements(a, c)[BlockStart(a, c, IndexOf(c, nextBlock))..]
  {
    ghost var k := IndexOf(c, nextBlock);
    InArena(B, a, c, nextBlock);
    LinkKeeps(B, a, c, k, nb, prevBlock);
    var a1 := LinkBlock(a, nb, prevBlock, nextBlock);
    ghost var c1 := c[..k] + [nb] + c[k..];
    var a2 := a1;
    ghost var c2 := c1;
    if Mergeable(B, a1, prevBlock, nb) {
      a2, c2 := MergeBlock(B, a1, c1, prevBlock, nb);
    }
    assert nextBlock in c2;
    InArena(B, a2, c2, nextBlock);
    var pb := a2.prev[nextBlock];
    r, c' := a2, c2;
    if Mergeable(B, a2, pb, nextBlock) {
      r, c' := MergeBlock(B, a2, c2, pb, nextBlock);
    }
  }

  /** `insert(pos, value)` on a non-empty list when the block of `pos` is
      `pastTheEnd` or full: a new one-element block goes in front of `pos`,
      splitting its block when `pos` is inside it, neighbours that fit in
      one block are merged, and the result is found again by rank. */
  method InsertSlow<T>(B: nat, a: Arena<T>, ghost c: seq<int>, p: int, idx: int, value: T)
    returns (r: Arena<T>, ghost c': seq<int>, rp: int, ridx: int)
    requires Well(B, a, c) && IsPos(a, c, p, idx) && |c| > 1
    ensures RankAt(a, c, p, idx) <= |Elements(a, c)|
    ensures Well(B, r, c')
    ensures Elements(r, c') == Elements(a, c)[..RankAt(a, c, p, idx)] + [value]
                               + Elements(a, c)[RankAt(a, c, p, idx)..]
    ensures IsPos(r, c', rp, ridx) && RankAt(r, c', rp, ridx) == RankAt(a, c, p, idx)
  {
    var rankNew := GetRank(B, a, c, p, idx);
    RankBounds(B, a, c, p, idx);
    GrowKeeps(B, a, c, [value]);
    var nb := |a.data|;
    var a1 := Grow(a, [value]);
    assert IsPos(a1, c, p, idx) && RankAt(a1, c, p, idx) == rankNew;
    var a2, prevBlock, nextBlock;
    ghost var c2;
    a2, c2, prevBlock, nextBlock := OpenGap(B, a1, c, p, idx, nb);
    var a3;
    ghost var c3;
    a3, c3 := LinkAndMerge(B, a2, c2, nb, prevBlock, nextBlock);
    EndRank(B, a3, c3);
    r, c' := a3, c3;
    rp, ridx := GetByRank(B, a3, c3, rankNew);
  }

  /** `erase` of the element at a position when it is its block's only one:
      the block is unlinked, and its neighbours are merged when they fit in
      one block. */
  method DropBlock<T>(B: nat, a: Arena<T>, ghost c: seq<int>, p: int)
    returns (r: Arena<T>, ghost c': seq<int>)
    requires Well(B, a, c) && p in c && p != PastTheEnd && a.sizeB[p] == 1
    ensures RankAt(a, c, p, 0) < |Elements(a, c)|
    ensures Well(B, r, c')
    ensures Elements(r, c') == Elements(a, c)[..RankAt(a, c, p, 0)] + Elements(a, c)[RankAt(a, c, p, 0) + 1..]
  {
    RankBounds(B, a, c, p, 0);
    Neighbours(B, a, c, p);
    InArena(B, a, c, p);
    var prevBlock, nextBlock := a.prev[p], a.next[p];
    ghost var j := IndexOf(c, p);
    UnlinkKeeps(B, a, c, j);
    var a1 := UnlinkBlock(a, p);
    ghost var c1 := c[..j] + c[j + 1..];
    r, c' := a1, c1;
    if Mergeable(B, a1, prevBlock, nextBlock) {
      r, c' := MergeBlock(B, a1, c1, prevBlock, nextBlock);
    }
  }

  /** `erase` of the element at a position whose block holds others too:
      the cell goes, and the block is merged into its predecessor, or else
      its successor into it, when they fit in one block. */
  method DropElement<T>(B: nat, a: Arena<T>, ghost c: seq<int>, p: int, idx: int)
    returns (r: Arena<T>, ghost c': seq<int>)
    requires Well(B, a, c) && IsPos(a, c, p, idx) && p != PastTheEnd && a.sizeB[p] > 1
    ensures RankAt(a, c, p, idx) < |Elements(a, c)|
    ensures Well(B, r, c')
    ensures Elements(r, c') == Elements(a, c)[..RankAt(a, c, p, idx)] + Elements(a, c)[RankAt(a, c, p, idx) + 1..]
  {
    Neighbours(B, a, c, p);
    InArena(B, a, c, p);
    var prevBlock, nextBlock := a.prev[p], a.next[p];
    var a1 := DeleteElement(B, a, c, p, idx);
    r, c' := a1, c;
    if Mergeable(B, a1, prevBlock, p) {
      r, c' := MergeBlock(B, a1, c, prevBlock, p);
    } else if Mergeable(B, a1, p, nextBlock) {
      r, c' := MergeBlock(B, a1, c, p, nextBlock);
    }
  }

  /** `erase(pos)` on the blocks of a list of `n` elements, `n >= 1`, at a
      position that names an element: the last element takes the last block
      with it; otherwise the rank of `pos` is taken, the element goes, and
      the position of that rank is found again. */
  method BlocksErase<T>(B: nat, a: Arena<T>, ghost c: seq<int>, n: nat, p: int, idx: int)
    returns (r: Arena<T>, ghost c': seq<int>, rp: int, ridx: int)
    requires Well(B, a, c) && n == |Elements(a, c)| && IsPos(a, c, p, idx) && p != PastTheEnd
    ensures RankAt(a, c, p, idx) < |Elements(a, c)|
    ensures Well(B, r, c')
    ensures Elements(r, c') == Elements(a, c)[..RankAt(a, c, p, idx)] + Elements(a, c)[RankAt(a, c, p, idx) + 1..]
    ensures IsPos(r, c', rp, ridx) && RankAt(r, c', rp, ridx) == RankAt(a, c, p, idx)
  {
    RankBounds(B, a, c, p, idx);
    if n == 1 {
      EraseOnlyKeeps(B, a, c, p, idx);
      r, c' := Detach(a, Nil, Nil), [PastTheEnd];
      rp, ridx := PastTheEnd, 0;
    } else {
      r, c', rp, ridx := EraseAmongOthers(B, a, c, p, idx);
    }
  }

  /** Erasing the only element leaves the empty list, whose only position
      is the end. */
  lemma {:induction false} EraseOnlyKeeps<T>(B: nat, a: Arena<T>, c: seq<int>, p: int, idx: int)
    requires Well(B, a, c) && |Elements(a, c)| == 1 && IsPos(a, c, p, idx) && p != PastTheEnd
    ensures RankAt(a, c, p, idx) == 0
    ensures Well(B, Detach(a, Nil, Nil), [PastTheEnd])
    ensures Elements(Detach(a, Nil, Nil), [PastTheEnd]) == Elements(a, c)[..0] + Elements(a, c)[1..]
    ensures IsPos(Detach(a, Nil, Nil), [PastTheEnd], PastTheEnd, 0)
    ensures RankAt(Detach(a, Nil, Nil), [PastTheEnd], PastTheEnd, 0) == 0
  {
    RankBounds(B, a, c, p, idx);
    var E := Elements(a, c);
    assert E[..0] + E[1..] == [];
    DetachKeeps(B, a, c, Nil, Nil);
    EndRank(B, Detach(a, Nil, Nil), [PastTheEnd]);
  }

  /** `erase(pos)` when at least one other element stays. */
  method EraseAmongOthers<T>(B: nat, a: Arena<T>, ghost c: seq<int>, p: int, idx: int)
    returns (r: Arena<T>, ghost c': seq<int>, rp: int, ridx: int)
    requires Well(B, a, c) && |Elements(a, c)| > 1 && IsPos(a, c, p, idx) && p != PastTheEnd
    ensures RankAt(a, c, p, idx) < |Elements(a, c)|
    ensures Well(B, r, c')
    ensures Elements(r, c') == Elements(a, c)[..RankAt(a, c, p, idx)] + Elements(a, c)[RankAt(a, c, p, idx) + 1..]
    ensures IsPos(r, c', rp, ridx) && RankAt(r, c', rp, ridx) == RankAt(a, c, p, idx)
  {
    RankBounds(B, a, c, p, idx);
    EndRank(B, a, c);
    var rankNew := GetRank(B, a, c, p, idx);
    ghost var E := Elements(a, c);
    if a.sizeB[p] == 1 {
      assert idx == 0;
      r, c' := DropBlock(B, a, c, p);
    } else {
      r, c' := DropElement(B, a, c, p, idx);
    }
    assert Elements(r, c') == E[..rankNew] + E[rankNew + 1..];
    assert |Elements(r, c')| == |E| - 1 > 0;
    EndRank(B, r, c');
    rp, ridx := GetByRank(B, r, c', rankNew);
  }

  /** `insert(pos, value)` on the blocks of a list of `n` elements: an empty
      list gets its first block and the result is `begin()`; a position in
      a block with room takes the element in place and is itself the
      result; otherwise the slow path runs. */
  method BlocksInsert<T>(B: nat, a: Arena<T>, ghost c: seq<int>, n: nat, p: int, idx: int, value: T)
    returns (r: Arena<T>, ghost c': seq<int>, rp: int, ridx: int)
    requires Well(B, a, c) && n == |Elements(a, c)| && IsPos(a, c, p, idx)
    ensures RankAt(a, c, p, idx) <= |Elements(a, c)|
    ensures Well(B, r, c')
    ensures Elements(r, c') == Elements(a, c)[..RankAt(a, c, p, idx)] + [value]
                               + Elements(a, c)[RankAt(a, c, p, idx)..]
    ensures IsPos(r, c', rp, ridx) && RankAt(r, c', rp, ridx) == RankAt(a, c, p, idx)
  {
    RankBounds(B, a, c, p, idx);
    EndRank(B, a, c);
    if n == 0 {
      FirstBlockKeeps(B, a, c, value);
      r, c' := FirstBlock(a, value), [|a.data|, PastTheEnd];
      EndBlocks(B, r, c');
      rp, ridx := r.first, 0;
    } else if p != PastTheEnd && a.sizeB[p] + 1 <= B {
      r := InsertElement(B, a, c, p, idx, value);
      c', rp, ridx := c, p, idx;
    } else {
      r, c', rp, ridx := InsertSlow(B, a, c, p, idx, value);
    }
  }

  /** A new block after `last` keeps the list well formed. */
  lemma {:induction false} LinkLastShape<T>(B: nat, a: Arena<T>, c: seq<int>, value: T)
    requires Well(B, a, c) && |c| > 1
    ensures |a.data| == |a.prev| == |a.next| && 0 <= a.last < |a.data|
    ensures Well(B, LinkBlock(Grow(a, [value]), |a.data|, a.last, PastTheEnd), c[..|c| - 1] + [|a.data|] + c[|c| - 1..])
  {
    EndBlocks(B, a, c);
    InArena(B, a, c, a.last);
    GrowKeeps(B, a, c, [value]);
    LinkShape(B, Grow(a, [value]), c, |c| - 1, |a.data|, a.last);
  }

  /** A new block after `last` takes `value` at the back. */
  lemma {:induction false} LinkLastElements<T>(B: nat, a: Arena<T>, c: seq<int>, value: T)
    requires Well(B, a, c) && |c| > 1
    ensures |a.data| == |a.prev| == |a.next| && 0 <= a.last < |a.data|
    ensures Elements(LinkBlock(Grow(a, [value]), |a.data|, a.last, PastTheEnd), c[..|c| - 1] + [|a.data|] + c[|c| - 1..])
         == Elements(a, c) + [value]
  {
    EndRank(B, a, c);
    EndBlocks(B, a, c);
    InArena(B, a, c, a.last);
    var E := Elements(a, c);
    var es := Grow(a, [value]).data;
    assert Flatten(es, c) == E && |Flatten(es, c[..|c| - 1])| == |E| by {
      GrowKeeps(B, a, c, [value]);
    }
    FlattenLinkAt(es, c, |c| - 1, |a.data|);
    assert E[..|E|] == E && E[|E|..] == [];
  }

  /** A new block in front of `first` keeps the list well formed. */
  lemma {:induction false} LinkFirstShape<T>(B: nat, a: Arena<T>, c: seq<int>, value: T)
    requires Well(B, a, c) && |c| > 1
    ensures |a.data| == |a.prev| == |a.next| && 0 <= a.first < |a.data|
    ensures Well(B, LinkBlock(Grow(a, [value]), |a.data|, Nil, a.first), [|a.data|] + c)
  {
    EndBlocks(B, a, c);
    InArena(B, a, c, a.first);
    GrowKeeps(B, a, c, [value]);
    LinkShape(B, Grow(a, [value]), c, 0, |a.data|, Nil);
    assert c[..0] + [|a.data|] + c[0..] == [|a.data|] + c;
  }

  /** A new block in front of `first` takes `value` at the front. */
  lemma {:induction false} LinkFirstElements<T>(B: nat, a: Arena<T>, c: seq<int>, value: T)
    requires Well(B, a, c) && |c| > 1
    ensures |a.data| == |a.prev| == |a.next| && 0 <= a.first < |a.data|
    ensures Elements(LinkBlock(Grow(a, [value]), |a.data|, Nil, a.first), [|a.data|] + c) == [value] + Elements(a, c)
  {
    EndBlocks(B, a, c);
    InArena(B, a, c, a.first);
    var E := Elements(a, c);
    var es := Grow(a, [value]).data;
    assert Flatten(es, c) == E by {
      GrowKeeps(B, a, c, [value]);
    }
    var d := [|a.data|] + c;
    assert LinkBlock(Grow(a, [value]), |a.data|, Nil, a.first).data == es;
    FlattenFirst(es, d);
    assert d[1..] == c && Entry(es, d[0]) == [value];
  }

  /** Unlinking a one-element `last` block keeps the list well formed. */
  lemma {:induction false} UnlinkLastShape<T>(B: nat, a: Arena<T>, c: seq<int>)
    requires Well(B, a, c) && |c| > 1
    ensures |a.data| == |a.prev| == |a.next| && 0 <= a.last < |a.data|
    ensures a.prev[a.last] == Nil || 0 <= a.prev[a.last] < |a.data|
    ensures Well(B, UnlinkBlock(a, a.last), c[..|c| - 2] + c[|c| - 1..])
  {
    EndBlocks(B, a, c);
    InArena(B, a, c, a.last);
    UnlinkShape(B, a, c, |c| - 2);
  }

  /** Unlinking a one-element `last` block drops the back element. */
  lemma {:induction false} UnlinkLastElements<T>(B: nat, a: Arena<T>, c: seq<int>)
    requires Well(B, a, c) && |c| > 1 && a.sizeB[a.last] == 1
    ensures |Elements(a, c)| >= 1
    ensures |a.data| == |a.prev| == |a.next| && 0 <= a.last < |a.data|
    ensures a.prev[a.last] == Nil || 0 <= a.prev[a.last] < |a.data|
    ensures Elements(UnlinkBlock(a, a.last), c[..|c| - 2] + c[|c| - 1..]) == Elements(a, c)[..|Elements(a, c)| - 1]
  {
    EndRank(B, a, c);
    EndBlocks(B, a, c);
    InArena(B, a, c, a.last);
    var E := Elements(a, c);
    NextStart(B, a, c, |c| - 2);
    FlattenUnlinkAt(a.data, c, |c| - 2);
    assert E[|E|..] == [];
  }

  /** Unlinking a one-element `first` block keeps the list well formed. */
  lemma {:induction false} UnlinkFirstShape<T>(B: nat, a: Arena<T>, c: seq<int>)
    requires Well(B, a, c) && |c| > 1
    ensures |a.data| == |a.prev| == |a.next| && 0 <= a.first < |a.data|
    ensures a.next[a.first] == Nil || 0 <= a.next[a.first] < |a.data|
    ensures Well(B, UnlinkBlock(a, a.first), c[1..])
  {
    assert a.first == c[0];
    InArena(B, a, c, a.first);
    assert c[..0] + c[1..] == c[1..];
    UnlinkShape(B, a, c, 0);
  }

  /** Unlinking a one-element `first` block drops the front element. */
  lemma {:induction false} UnlinkFirstElements<T>(B: nat, a: Arena<T>, c: seq<int>)
    requires Well(B, a, c) && |c| > 1 && a.sizeB[a.first] == 1
    ensures |Elements(a, c)| >= 1
    ensures |a.data| == |a.prev| == |a.next| && 0 <= a.first < |a.data|
    ensures a.next[a.first] == Nil || 0 <= a.next[a.first] < |a.data|
    ensures Elements(UnlinkBlock(a, a.first), c[1..]) == Elements(a, c)[1..]
  {
    EndBlocks(B, a, c);
    InArena(B, a, c, a.first);
    assert UnlinkBlock(a, a.first).data == a.data;
    FlattenFirst(a.data, c);
    assert |Entry(a.data, c[0])| == a.sizeB[a.first] == 1;
  }

  /** `push_back(value)` on the blocks of a list of `n` elements: the first
      block of an empty list, the last block when it has room, or else a new
      block linked between `last` and `pastTheEnd`. */
  method BlocksPushBack<T>(B: nat, a: Arena<T>, ghost c: seq<int>, n: nat, value: T)
    returns (r: Arena<T>, ghost c': seq<int>)
    requires Well(B, a, c) && n == |Elements(a, c)|
    ensures Well(B, r, c') && Elements(r, c') == Elements(a, c) + [value]
  {
    EndRank(B, a, c);
    if n == 0 {
      FirstBlockKeeps(B, a, c, value);
      r, c' := FirstBlock(a, value), [|a.data|, PastTheEnd];
      return;
    }
    EndBlocks(B, a, c);
    if a.sizeB[a.last] + 1 <= B {
      r := InsertElement(B, a, c, a.last, a.sizeB[a.last], value);
      c' := c;
    } else {
      var nb := |a.data|;
      LinkLastShape(B, a, c, value);
      LinkLastElements(B, a, c, value);
      r := LinkBlock(Grow(a, [value]), nb, a.last, PastTheEnd);
      c' := c[..|c| - 1] + [nb] + c[|c| - 1..];
    }
  }

  /** `push_front(value)` on the blocks of a list of `n` elements: the first
      block of an empty list, the first block when it has room, or else a
      new block linked in front of `first`. */
  method BlocksPushFront<T>(B: nat, a: Arena<T>, ghost c: seq<int>, n: nat, value: T)
    returns (r: Arena<T>, ghost c': seq<int>)
    requires Well(B, a, c) && n == |Elements(a, c)|
    ensures Well(B, r, c') && Elements(r, c') == [value] + Elements(a, c)
  {
    EndRank(B, a, c);
    if n == 0 {
      FirstBlockKeeps(B, a, c, value);
      r, c' := FirstBlock(a, value), [|a.data|, PastTheEnd];
      return;
    }
    EndBlocks(B, a, c);
    if a.sizeB[a.first] + 1 <= B {
      r := InsertElement(B, a, c, a.first, 0, value);
      c' := c;
    } else {
      var nb := |a.data|;
      LinkFirstShape(B, a, c, value);
      LinkFirstElements(B, a, c, value);
      r := LinkBlock(Grow(a, [value]), nb, Nil, a.first);
      c' := [nb] + c;
    }
  }

  /** `pop_back()` on the blocks of a list of `n >= 1` elements: the last
      element takes the last block with it; a one-element `last` block is
      unlinked and its predecessor becomes `last`; otherwise its last cell
      goes. */
  method BlocksPopBack<T>(B: nat, a: Arena<T>, ghost c: seq<int>, n: nat)
    returns (r: Arena<T>, ghost c': seq<int>)
    requires Well(B, a, c) && n == |Elements(a, c)| && n >= 1
    ensures Well(B, r, c') && Elements(r, c') == Elements(a, c)[..n - 1]
  {
    EndRank(B, a, c);
    if n == 1 {
      DetachKeeps(B, a, c, Nil, Nil);
      r, c' := Detach(a, Nil, Nil), [PastTheEnd];
      return;
    }
    EndBlocks(B, a, c);
    if a.sizeB[a.last] == 1 {
      UnlinkLastShape(B, a, c);
      UnlinkLastElements(B, a, c);
      r := UnlinkBlock(a, a.last);
      c' := c[..|c| - 2] + c[|c| - 1..];
    } else {
      r := DeleteElement(B, a, c, a.last, a.sizeB[a.last] - 1);
      c' := c;
    }
  }

  /** `pop_front()` on the blocks of a list of `n >= 1` elements: the last
      element takes the last block with it; a one-element `first` block is
      unlinked and its successor becomes `first`; otherwise its first cell
      goes. */
  method BlocksPopFront<T>(B: nat, a: Arena<T>, ghost c: seq<int>, n: nat)
    returns (r: Arena<T>, ghost c': seq<int>)
    requires Well(B, a, c) && n == |Elements(a, c)| && n >= 1
    ensures Well(B, r, c') && Elements(r, c') == Elements(a, c)[1..]
  {
    EndRank(B, a, c);
    if n == 1 {
      DetachKeeps(B, a, c, Nil, Nil);
      r, c' := Detach(a, Nil, Nil), [PastTheEnd];
      return;
    }
    EndBlocks(B, a, c);
    if a.sizeB[a.first] == 1 {
      UnlinkFirstShape(B, a, c);
      UnlinkFirstElements(B, a, c);
      r := UnlinkBlock(a, a.first);
      c' := c[1..];
    } else {
      r := DeleteElement(B, a, c, a.first, 0);
      c' := c;
    }
  }

  // ------------------------------------------------------------ the class

  /** `maxBlockSize`: the capacity of a block. */
  const MaxBlockSize: nat := 1000

  /** The arena of a new deque: only `pastTheEnd`. */
  function EmptyArena<T>(): Arena<T>
  {
    Arena([0], [Nil], [Nil], [[]], Nil, Nil)
  }

  /** The empty list: `pastTheEnd` alone, with nothing before or after it. */
  lemma {:induction false} EmptyKeeps<T>(B: nat)
    requires B >= 1
    ensures Well(B, EmptyArena<T>(), [PastTheEnd])
    ensures Elements(EmptyArena<T>(), [PastTheEnd]) == []
  {
    var es: seq<seq<T>> := [[]];
    FlattenPair(es, PastTheEnd, PastTheEnd);
  }

  /** A position is the first one exactly when its rank is 0. */
  lemma {:induction false} RankZero<T>(B: nat, a: Arena<T>, c: seq<int>, p: int, idx: int)
    requires Well(B, a, c) && IsPos(a, c, p, idx)
    ensures RankAt(a, c, p, idx) == 0 <==> p == c[0] && idx == 0
  {
    var j := IndexOf(c, p);
    EndRank(B, a, c);
    IndexOfDistinct(c, 0);
    if j > 0 {
      StepBack(B, a, c, j);
    }
  }

  class Deque<T> {
    var sizeD: nat
    var blocks: Arena<T>
    /** The blocks from `first` to `pastTheEnd`, in list order. */
    ghost var chain: seq<int>

    ghost predicate Valid()
      reads this
    {
      Well(MaxBlockSize, blocks, chain) && sizeD == |Elements(blocks, chain)|
    }

    /** The elements, front to back. */
    ghost function Contents(): seq<T>
      reads this
    {
      Elements(blocks, chain)
    }

    /** An iterator of this deque that names an element or `end()`. */
    ghost predicate ValidIter(it: Iter)
      reads this
    {
      it.ctn == this && IsPos(blocks, chain, it.p, it.idx)
    }

    /** The rank of the element an iterator names; only `end()` has rank `size()`. */
    ghost function Rank(it: Iter): (k: int)
      reads this
      requires Valid() && ValidIter(it)
      ensures 0 <= k <= |Contents()| && (k == |Contents()| <==> it.p == PastTheEnd)
    {
      RankBounds(MaxBlockSize, blocks, chain, it.p, it.idx);
      RankAt(blocks, chain, it.p, it.idx)
    }

    constructor ()
      ensures Valid() && Contents() == []
    {
      sizeD := 0;
      blocks := EmptyArena();
      chain := [PastTheEnd];
      new;
      EmptyKeeps<T>(MaxBlockSize);
    }

    /** `at(pos)` and `operator[](pos)`. */
    method At(pos: int) returns (r: Result<T>)
      requires Valid()
      ensures r.Err? <==> !(0 <= pos < |Contents()|)
      ensures r.Err? ==> r.error == IndexOutOfBound
      ensures r.Ok? ==> r.value == Contents()[pos]
    {
      if pos < 0 || pos >= sizeD {
        return Err(IndexOutOfBound);
      }
      var v := WalkTo(MaxBlockSize, blocks, chain, pos);
      return Ok(v);
    }

    function Front(): (r: Result<T>)
      reads this
      requires Valid()
      ensures r.Err? <==> Contents() == []
      ensures r.Err? ==> r.error == ContainerIsEmpty
      ensures r.Ok? ==> r.value == Contents()[0]
    {
      EndRank(MaxBlockSize, blocks, chain);
      if sizeD == 0 then Err(ContainerIsEmpty)
      else
        EndBlocks(MaxBlockSize, blocks, chain);
        ElementAt(MaxBlockSize, blocks, chain, blocks.first, 0);
        Ok(blocks.data[blocks.first][0])
    }

    function Back(): (r: Result<T>)
      reads this
      requires Valid()
      ensures r.Err? <==> Contents() == []
      ensures r.Err? ==> r.error == ContainerIsEmpty
      ensures r.Ok? ==> r.value == Contents()[|Contents()| - 1]
    {
      EndRank(MaxBlockSize, blocks, chain);
      if sizeD == 0 then Err(ContainerIsEmpty)
      else
        EndBlocks(MaxBlockSize, blocks, chain);
        ElementAt(MaxBlockSize, blocks, chain, blocks.last, blocks.sizeB[blocks.last] - 1);
        Ok(blocks.data[blocks.last][blocks.sizeB[blocks.last] - 1])
    }

    /** `begin()`: `pastTheEnd` when the deque is empty, else `first`. */
    function Begin(): (r: Iter)
      reads this
      requires Valid()
      ensures ValidIter(r) && Rank(r) == 0
    {
      EndRank(MaxBlockSize, blocks, chain);
      if sizeD == 0 then Iter(this, PastTheEnd, 0)
      else
        EndBlocks(MaxBlockSize, blocks, chain);
        Iter(this, blocks.first, 0)
    }

    function End(): (r: Iter)
      reads this
      requires Valid()
      ensures ValidIter(r) && r.p == PastTheEnd && Rank(r) == |Contents()|
    {
      EndRank(MaxBlockSize, blocks, chain);
      Iter(this, PastTheEnd, 0)
    }

    function Empty(): (b: bool)
      reads this
      requires Valid()
      ensures b <==> Contents() == []
    {
      sizeD == 0
    }

    function Size(): (k: nat)
      reads this
      requires Valid()
      ensures k == |Contents()|
    {
      sizeD
    }

    /** `clear()`: every block goes and `pastTheEnd` loses its predecessor;
        `first` and `last` are left as they were. */
    method Clear()
      requires Valid()
      modifies this
      ensures Valid() && Contents() == []
    {
      if sizeD == 0 {
        return;
      }
      DetachKeeps(MaxBlockSize, blocks, chain, blocks.first, blocks.last);
      blocks := Detach(blocks, blocks.first, blocks.last);
      chain := [PastTheEnd];
      sizeD := 0;
    }

    /** `it + n` and `it += n`; a negative `n` goes back, as `it - (-n)`.
        A target past `end()` is `pastTheEnd` with the excess as index. */
    method Plus(it: Iter, n: int) returns (r: Iter)
      requires Valid() && ValidIter(it) && (n < 0 ==> Rank(it) + n >= 0)
      ensures Rank(it) + n <= |Contents()| ==> ValidIter(r) && Rank(r) == Rank(it) + n
      ensures Rank(it) + n > |Contents()|
              ==> r.ctn == this && r.p == PastTheEnd && r.idx == Rank(it) + n - |Contents()|
    {
      var p, idx;
      if n < 0 {
        p, idx := Retreat(MaxBlockSize, blocks, chain, it.p, it.idx, -n);
      } else {
        p, idx := Advance(MaxBlockSize, blocks, chain, it.p, it.idx, n);
      }
      r := Iter(this, p, idx);
    }

    /** `it - n` and `it -= n`; a negative `n` goes forward, as `it + (-n)`. */
    method Minus(it: Iter, n: int) returns (r: Iter)
      requires Valid() && ValidIter(it) && (n >= 0 ==> n <= Rank(it))
      ensures Rank(it) - n <= |Contents()| ==> ValidIter(r) && Rank(r) == Rank(it) - n
      ensures Rank(it) - n > |Contents()|
              ==> r.ctn == this && r.p == PastTheEnd && r.idx == Rank(it) - n - |Contents()|
    {
      var p, idx;
      if n < 0 {
        p, idx := Advance(MaxBlockSize, blocks, chain, it.p, it.idx, -n);
      } else {
        p, idx := Retreat(MaxBlockSize, blocks, chain, it.p, it.idx, n);
      }
      r := Iter(this, p, idx);
    }

    /** `it1 - it2`: the distance between two iterators of this deque. */
    method Difference(it1: Iter, it2: Iter) returns (r: Result<int>)
      requires Valid() && ValidIter(it1) && (it2.ctn == this ==> ValidIter(it2))
      ensures r.Err? <==> it2.ctn != this
      ensures r.Err? ==> r.error == InvalidIterator
      ensures r.Ok? ==> r.value == Rank(it1) - Rank(it2)
    {
      if it1.ctn != it2.ctn {
        return Err(InvalidIterator);
      }
      var order1 := Order(MaxBlockSize, blocks, chain, it1.p, it1.idx);
      var order2 := Order(MaxBlockSize, blocks, chain, it2.p, it2.idx);
      return Ok(order1 - order2);
    }

    /** `++it`: refused at `end()`. */
    function Increment(it: Iter): (r: Result<Iter>)
      reads this
      requires Valid() && ValidIter(it)
      ensures r.Err? <==> Rank(it) == |Contents()|
      ensures r.Err? ==> r.error == InvalidIterator
      ensures r.Ok? ==> ValidIter(r.value) && Rank(r.value) == Rank(it) + 1
    {
      EndRank(MaxBlockSize, blocks, chain);
      if it == End() then Err(InvalidIterator)
      else if it.idx + 1 < blocks.sizeB[it.p] then Ok(Iter(it.ctn, it.p, it.idx + 1))
      else
        StepForward(MaxBlockSize, blocks, chain, IndexOf(chain, it.p));
        Ok(Iter(it.ctn, blocks.next[it.p], 0))
    }

    /** `--it`: refused at `begin()`. */
    function Decrement(it: Iter): (r: Result<Iter>)
      reads this
      requires Valid() && ValidIter(it)
      ensures r.Err? <==> Rank(it) == 0
      ensures r.Err? ==> r.error == InvalidIterator
      ensures r.Ok? ==> ValidIter(r.value) && Rank(r.value) == Rank(it) - 1
    {
      EndRank(MaxBlockSize, blocks, chain);
      RankZero(MaxBlockSize, blocks, chain, it.p, it.idx);
      assert Begin().p == chain[0] by {
        if sizeD > 0 {
          EndBlocks(MaxBlockSize, blocks, chain);
        }
      }
      if it == Begin() then Err(InvalidIterator)
      else if it.idx > 0 then Ok(Iter(it.ctn, it.p, it.idx - 1))
      else
        IndexOfDistinct(chain, 0);
        StepBack(MaxBlockSize, blocks, chain, IndexOf(chain, it.p));
        Ok(Iter(it.ctn, blocks.prev[it.p], blocks.sizeB[blocks.prev[it.p]] - 1))
    }

    /** `*it`: refused on `end()`, whose cell is empty. */
    function Deref(it: Iter): (r: Result<T>)
      reads this
      requires Valid() && ValidIter(it)
      ensures r.Err? <==> Rank(it) == |Contents()|
      ensures r.Err? ==> r.error == InvalidIterator
      ensures r.Ok? ==> r.value == Contents()[Rank(it)]
    {
      if it.p == PastTheEnd then Err(InvalidIterator)
      else
        ElementAt(MaxBlockSize, blocks, chain, it.p, it.idx);
        Ok(blocks.data[it.p][it.idx])
    }

    /** `insert(pos, value)`: inserts in front of `pos` and returns an
        iterator to the new element. */
    method Insert(pos: Iter, value: T) returns (r: Result<Iter>)
      requires Valid() && (pos.ctn == this && pos.p != Nil ==> ValidIter(pos))
      modifies this
      ensures Valid()
      ensures r.Err? <==> pos.ctn != this || pos.p == Nil
      ensures r.Err? ==> r.error == InvalidIterator && Contents() == old(Contents())
      ensures r.Ok? ==> ValidIter(r.value) && Rank(r.value) == old(Rank(pos))
      ensures r.Ok? ==> Contents() == old(Contents())[..old(Rank(pos))] + [value] + old(Contents())[old(Rank(pos))..]
    {
      if pos.ctn != this || pos.p == Nil {
        return Err(InvalidIterator);
      }
      var a, rp, ridx;
      ghost var c;
      a, c, rp, ridx := BlocksInsert(MaxBlockSize, blocks, chain, sizeD, pos.p, pos.idx, value);
      blocks, chain, sizeD := a, c, sizeD + 1;
      return Ok(Iter(this, rp, ridx));
    }

    /** `erase(pos)`: removes the element `pos` names and returns an
        iterator to the element that followed it. */
    method Erase(pos: Iter) returns (r: Result<Iter>)
      requires Valid() && (pos.ctn == this && pos.p != Nil ==> ValidIter(pos))
      modifies this
      ensures Valid()
      ensures r.Err? <==> old(Contents()) == [] || pos.ctn != this || pos.p == Nil || pos.p == PastTheEnd
      ensures r.Err? ==> Contents() == old(Contents())
      ensures r.Err? ==> r.error == (if old(Contents()) == [] then ContainerIsEmpty else InvalidIterator)
      ensures r.Ok? ==> ValidIter(r.value) && Rank(r.value) == old(Rank(pos))
      ensures r.Ok? ==> Contents() == old(Contents())[..old(Rank(pos))] + old(Contents())[old(Rank(pos)) + 1..]
    {
      if sizeD == 0 {
        return Err(ContainerIsEmpty);
      }
      if pos.ctn != this || pos.p == Nil {
        return Err(InvalidIterator);
      }
      if pos.p != PastTheEnd {
        Neighbours(MaxBlockSize, blocks, chain, pos.p);
      }
      if blocks.sizeB[pos.p] == 0 {
        return Err(InvalidIterator);
      }
      var a, rp, ridx;
      ghost var c;
      a, c, rp, ridx := BlocksErase(MaxBlockSize, blocks, chain, sizeD, pos.p, pos.idx);
      blocks, chain, sizeD := a, c, sizeD - 1;
      return Ok(Iter(this, rp, ridx));
    }

    method PushBack(value: T)
      requires Valid()
      modifies this
      ensures Valid() && Contents() == old(Contents()) + [value]
    {
      var a;
      ghost var c;
      a, c := BlocksPushBack(MaxBlockSize, blocks, chain, sizeD, value);
      blocks, chain, sizeD := a, c, sizeD + 1;
    }

    method PushFront(value: T)
      requires Valid()
      modifies this
      ensures Valid() && Contents() == [value] + old(Contents())
    {
      var a;
      ghost var c;
      a, c := BlocksPushFront(MaxBlockSize, blocks, chain, sizeD, value);
      blocks, chain, sizeD := a, c, sizeD + 1;
    }

    method PopBack() returns (o: Outcome)
      requires Valid()
      modifies this
      ensures Valid()
      ensures o.Fail? <==> old(Contents()) == []
      ensures o.Fail? ==> o.error == ContainerIsEmpty && Contents() == old(Contents())
      ensures o.Done? ==> Contents() == old(Contents())[..|old(Contents())| - 1]
    {
      if sizeD == 0 {
        return Fail(ContainerIsEmpty);
      }
      var a;
      ghost var c;
      a, c := BlocksPopBack(MaxBlockSize, blocks, chain, sizeD);
      blocks, chain, sizeD := a, c, sizeD - 1;
      return Done;
    }

    method PopFront() returns (o: Outcome)
      requires Valid()
      modifies this
      ensures Valid()
      ensures o.Fail? <==> old(Contents()) == []
      ensures o.Fail? ==> o.error == ContainerIsEmpty && Contents() == old(Contents())
      ensures o.Done? ==> Contents() == old(Contents())[1..]
    {
      if sizeD == 0 {
        return Fail(ContainerIsEmpty);
      }
      var a;
      ghost var c;
      a, c := BlocksPopFront(MaxBlockSize, blocks, chain, sizeD);
      blocks, chain, sizeD := a, c, sizeD - 1;
      return Done;
    }
  }
}
