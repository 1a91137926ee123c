/** Value-level facts about the block chain of an unrolled linked list.
    Blocks live in an arena addressed by index; a chain `c` lists the blocks
    in list order and always ends with the sentinel slot `PastTheEnd`.  The
    contents of the list are the block contents concatenated along `c`, and
    the `prev`/`next` links are consistent with `c`. */
module DequeChains {

  /** The null block pointer. */
  const Nil: int := -1
  /** The arena slot of the permanent empty sentinel block. */
  const PastTheEnd: int := 0

  /** No block is listed twice: the block at position `i` is found at `i`. */
  ghost predicate Distinct(c: seq<int>)
  {
    forall i {:trigger IndexOf(c, c[i])} :: 0 <= i < |c| ==> IndexOf(c, c[i]) == i
  }

  /** The index of `x` in `s`. */
  function IndexOf(s: seq<int>, x: int): (i: nat)
    requires x in s
    ensures i < |s| && s[i] == x
  {
    if s[0] == x then 0 else 1 + IndexOf(s[1..], x)
  }

  /** In a list without repetitions an element has one position only. */
  lemma {:induction false} IndexOfDistinct(s: seq<int>, j: int)
    requires Distinct(s) && 0 <= j < |s|
    ensures IndexOf(s, s[j]) == j
  {
  }

  /** The pairwise reading of `Distinct`. */
  lemma {:induction false} DistinctPairs(c: seq<int>)
    requires Distinct(c)
    ensures forall i, j :: 0 <= i < j < |c| ==> c[i] != c[j]
  {
    forall i, j | 0 <= i < j < |c|
      ensures c[i] != c[j]
    {
      assert IndexOf(c, c[i]) == i && IndexOf(c, c[j]) == j;
    }
  }

  /** A list whose entries differ pairwise has no repetitions. */
  lemma {:induction false} PairwiseDistinct(c: seq<int>)
    requires forall i, j :: 0 <= i < j < |c| ==> c[i] != c[j]
    ensures Distinct(c)
  {
    forall i | 0 <= i < |c|
      ensures IndexOf(c, c[i]) == i
    {
      IndexOfPairwise(c, i);
    }
  }

  lemma {:induction false} IndexOfPairwise(c: seq<int>, i: int)
    requires forall p, q :: 0 <= p < q < |c| ==> c[p] != c[q]
    requires 0 <= i < |c|
    ensures IndexOf(c, c[i]) == i
    decreases i
  {
    if i > 0 {
      assert c[0] != c[i];
      var t := c[1..];
      assert t[i - 1] == c[i];
      forall p, q | 0 <= p < q < |t|
        ensures t[p] != t[q]
      {
        assert t[p] == c[p + 1] && t[q] == c[q + 1];
      }
      IndexOfPairwise(t, i - 1);
    }
  }

  /** The contents of arena slot `x`, empty for an index outside the arena. */
  function Entry<T>(es: seq<seq<T>>, x: int): seq<T>
  {
    if 0 <= x < |es| then es[x] else []
  }

  /** The concatenation of the blocks listed in `c`, in that order. */
  function Flatten<T>(es: seq<seq<T>>, c: seq<int>): seq<T>
  {
    if c == [] then [] else Flatten(es, c[..|c| - 1]) + Entry(es, c[|c| - 1])
  }

  /** Concatenation distributes over joining two chains. */
  lemma {:induction false} FlattenAppend<T>(es: seq<seq<T>>, c1: seq<int>, c2: seq<int>)
    ensures Flatten(es, c1 + c2) == Flatten(es, c1) + Flatten(es, c2)
    decreases |c2|
  {
    if c2 == [] {
      assert c1 + c2 == c1;
    } else {
      var c2', x := c2[..|c2| - 1], c2[|c2| - 1];
      assert c2 == c2' + [x] && c1 + c2 == (c1 + c2') + [x];
      FlattenAppend(es, c1, c2');
      FlattenSnoc(es, c1 + c2', x);
      FlattenSnoc(es, c2', x);
      var A, C, E := Flatten(es, c1), Flatten(es, c2'), Entry(es, x);
      assert (A + C) + E == A + (C + E);
    }
  }

  /** One more block at the end adds its cells at the end. */
  lemma {:induction false} FlattenSnoc<T>(es: seq<seq<T>>, c: seq<int>, x: int)
    ensures Flatten(es, c + [x]) == Flatten(es, c) + Entry(es, x)
  {
    assert (c + [x])[..|c|] == c;
  }

  /** The contents up to block `j` inclusive extend those before `j` by block `j`. */
  lemma {:induction false} FlattenPrefixStep<T>(es: seq<seq<T>>, c: seq<int>, j: int)
    requires 0 <= j < |c|
    ensures Flatten(es, c[..j + 1]) == Flatten(es, c[..j]) + Entry(es, c[j])
  {
    assert c[..j + 1][..j] == c[..j];
  }

  /** The contents seen around block `j`: before it, in it, after it. */
  lemma {:induction false} FlattenSplit<T>(es: seq<seq<T>>, c: seq<int>, j: int)
    requires 0 <= j < |c|
    ensures Flatten(es, c) == Flatten(es, c[..j]) + Entry(es, c[j]) + Flatten(es, c[j + 1..])
  {
    assert c == c[..j + 1] + c[j + 1..];
    FlattenAppend(es, c[..j + 1], c[j + 1..]);
    FlattenPrefixStep(es, c, j);
  }

  /** The contents of a chain: its first block, then the rest. */
  lemma {:induction false} FlattenFirst<T>(es: seq<seq<T>>, c: seq<int>)
    requires |c| > 0
    ensures Flatten(es, c) == Entry(es, c[0]) + Flatten(es, c[1..])
  {
    FlattenSplit(es, c, 0);
    assert Flatten(es, c[..0]) == [];
  }

  /** The rank at which block `j` starts never exceeds the length of the contents. */
  lemma {:induction false} FlattenPrefixBound<T>(es: seq<seq<T>>, c: seq<int>, j: int, k: int)
    requires 0 <= j <= k <= |c|
    ensures |Flatten(es, c[..j])| <= |Flatten(es, c[..k])|
  {
    assert c[..k] == c[..j] + c[j..k];
    FlattenAppend(es, c[..j], c[j..k]);
  }

  /** Element `i` of block `j` sits at rank `|Flatten(es, c[..j])| + i`. */
  lemma {:induction false} FlattenAt<T>(es: seq<seq<T>>, c: seq<int>, j: int, i: int)
    requires 0 <= j < |c| && 0 <= i < |Entry(es, c[j])|
    ensures |Flatten(es, c[..j])| + i < |Flatten(es, c)|
    ensures Flatten(es, c)[|Flatten(es, c[..j])| + i] == Entry(es, c[j])[i]
  {
    FlattenSplit(es, c, j);
  }

  /** Changing arena slots the chain does not list leaves the contents alone. */
  lemma {:induction false} FlattenFrame<T>(es1: seq<seq<T>>, es2: seq<seq<T>>, c: seq<int>)
    requires forall j :: 0 <= j < |c| ==> Entry(es1, c[j]) == Entry(es2, c[j])
    ensures Flatten(es1, c) == Flatten(es2, c)
    decreases |c|
  {
    if c != [] {
      FlattenFrame(es1, es2, c[..|c| - 1]);
    }
  }

  /** Replacing the contents of block `j` replaces that slice of the list. */
  lemma {:induction false} FlattenReplace<T>(es: seq<seq<T>>, c: seq<int>, j: int, e: seq<T>)
    requires Distinct(c) && 0 <= j < |c| && 0 <= c[j] < |es|
    ensures Flatten(es[c[j] := e], c) == Flatten(es, c[..j]) + e + Flatten(es, c[j + 1..])
    ensures Flatten(es, c) == Flatten(es, c[..j]) + es[c[j]] + Flatten(es, c[j + 1..])
  {
    DistinctPairs(c);
    var es' := es[c[j] := e];
    FlattenSplit(es', c, j);
    FlattenSplit(es, c, j);
    FlattenFrame(es', es, c[..j]);
    FlattenFrame(es', es, c[j + 1..]);
  }

  /** Replacing an arena slot the chain does not list leaves the contents alone. */
  lemma {:induction false} FlattenUpdateOther<T>(es: seq<seq<T>>, c: seq<int>, x: int, e: seq<T>)
    requires 0 <= x < |es| && x !in c
    ensures Flatten(es[x := e], c) == Flatten(es, c)
    decreases |c|
  {
    if c != [] {
      assert c[..|c| - 1] + [c[|c| - 1]] == c;
      FlattenUpdateOther(es, c[..|c| - 1], x, e);
    }
  }

  /** Appending a slot the chain does not list leaves the contents alone. */
  lemma {:induction false} FlattenGrow<T>(es: seq<seq<T>>, c: seq<int>, e: seq<T>)
    requires |es| !in c
    ensures Flatten(es + [e], c) == Flatten(es, c)
    decreases |c|
  {
    if c != [] {
      assert c[..|c| - 1] + [c[|c| - 1]] == c;
      FlattenGrow(es, c[..|c| - 1], e);
    }
  }

  /** Appending a slot the chain does not list leaves every prefix's contents alone. */
  lemma {:induction false} FlattenGrowPrefixes<T>(es: seq<seq<T>>, c: seq<int>, e: seq<T>)
    requires |es| !in c
    ensures forall j :: 0 <= j <= |c| ==> Flatten(es + [e], c[..j]) == Flatten(es, c[..j])
  {
    forall j | 0 <= j <= |c|
      ensures Flatten(es + [e], c[..j]) == Flatten(es, c[..j])
    {
      assert |es| !in c[..j];
      FlattenGrow(es, c[..j], e);
    }
  }

  /** The contents of a two-block chain. */
  lemma {:induction false} FlattenPair<T>(es: seq<seq<T>>, x: int, y: int)
    ensures Flatten(es, [x, y]) == Entry(es, x) + Entry(es, y)
    ensures Flatten(es, [x]) == Entry(es, x)
  {
    assert [x][..0] == [];
    assert Flatten(es, [x]) == Entry(es, x);
    assert [x, y][..1] == [x];
    assert Flatten(es, [x, y]) == Flatten(es, [x]) + Entry(es, y);
  }

  /** Replacing the stretch `i..k` of the middle part of a concatenation. */
  lemma {:induction false} SpliceAt<T>(P: seq<T>, e: seq<T>, S: seq<T>, i: int, mid: seq<T>, k: int,
                                       F: seq<T>, F': seq<T>)
    requires 0 <= i <= k <= |e|
    requires F == P + e + S && F' == P + (e[..i] + mid + e[k..]) + S
    ensures |P| + k <= |F|
    ensures F' == F[..|P| + i] + mid + F[|P| + k..]
  {
    assert F[..|P| + i] == P + e[..i];
    assert F[|P| + k..] == e[k..] + S;
    assert P + (e[..i] + mid + e[k..]) + S == (P + e[..i]) + mid + (e[k..] + S);
  }

  /** Replacing the cells `i..k` of block `c[j]` by `mid` replaces the same
      stretch of the list, which starts at rank `|Flatten(es, c[..j])| + i`;
      the blocks before `c[j]` are untouched. */
  lemma {:induction false} FlattenEdit<T>(es: seq<seq<T>>, c: seq<int>, j: int, i: int, mid: seq<T>, k: int)
    requires Distinct(c) && 0 <= j < |c| && 0 <= c[j] < |es| && 0 <= i <= k <= |es[c[j]]|
    ensures |Flatten(es, c[..j])| + k <= |Flatten(es, c)|
    ensures Flatten(es[c[j] := es[c[j]][..i] + mid + es[c[j]][k..]], c[..j]) == Flatten(es, c[..j])
    ensures Flatten(es[c[j] := es[c[j]][..i] + mid + es[c[j]][k..]], c)
         == Flatten(es, c)[..|Flatten(es, c[..j])| + i] + mid + Flatten(es, c)[|Flatten(es, c[..j])| + k..]
  {
    DistinctPairs(c);
    var e := es[c[j]];
    var e' := e[..i] + mid + e[k..];
    FlattenReplace(es, c, j, e');
    assert c[j] !in c[..j];
    FlattenUpdateOther(es, c[..j], c[j], e');
    var P, S, F, F' := Flatten(es, c[..j]), Flatten(es, c[j + 1..]), Flatten(es, c), Flatten(es[c[j] := e'], c);
    assert F == P + e + S && F' == P + e' + S;
    SpliceAt(P, e, S, i, mid, k, F, F');
    assert F' == F[..|P| + i] + mid + F[|P| + k..];
  }

  /** Inserting `v` at index `i` of block `c[j]` inserts it into the list. */
  lemma {:induction false} FlattenInsertAt<T>(es: seq<seq<T>>, c: seq<int>, j: int, i: int, v: T)
    requires Distinct(c) && 0 <= j < |c| && 0 <= c[j] < |es| && 0 <= i <= |es[c[j]]|
    ensures |Flatten(es, c[..j])| + i <= |Flatten(es, c)|
    ensures Flatten(es[c[j] := es[c[j]][..i] + [v] + es[c[j]][i..]], c[..j]) == Flatten(es, c[..j])
    ensures Flatten(es[c[j] := es[c[j]][..i] + [v] + es[c[j]][i..]], c)
         == Flatten(es, c)[..|Flatten(es, c[..j])| + i] + [v] + Flatten(es, c)[|Flatten(es, c[..j])| + i..]
  {
    FlattenEdit(es, c, j, i, [v], i);
  }

  /** Deleting index `i` of block `c[j]` deletes that element of the list. */
  lemma {:induction false} FlattenDeleteAt<T>(es: seq<seq<T>>, c: seq<int>, j: int, i: int)
    requires Distinct(c) && 0 <= j < |c| && 0 <= c[j] < |es| && 0 <= i < |es[c[j]]|
    ensures |Flatten(es, c[..j])| + i < |Flatten(es, c)|
    ensures Flatten(es[c[j] := es[c[j]][..i] + es[c[j]][i + 1..]], c)
         == Flatten(es, c)[..|Flatten(es, c[..j])| + i] + Flatten(es, c)[|Flatten(es, c[..j])| + i + 1..]
  {
    var e := es[c[j]];
    EmptyMiddle(e, i);
    FlattenEdit(es, c, j, i, [], i + 1);
  }

  lemma {:induction false} EmptyMiddle<T>(e: seq<T>, i: int)
    requires 0 <= i < |e|
    ensures e[..i] + [] + e[i + 1..] == e[..i] + e[i + 1..]
  {
  }

  /** A block not yet listed can be linked in at any position `k`. */
  lemma {:induction false} DistinctInsert(c: seq<int>, k: int, nb: int)
    requires Distinct(c) && nb !in c && 0 <= k <= |c|
    ensures Distinct(c[..k] + [nb] + c[k..])
    ensures (c[..k] + [nb] + c[k..])[..k] == c[..k]
    ensures IndexOf(c[..k] + [nb] + c[k..], nb) == k
  {
    DistinctPairs(c);
    var d := c[..k] + [nb] + c[k..];
    assert forall i :: 0 <= i < k ==> d[i] == c[i];
    assert forall i :: k < i < |d| ==> d[i] == c[i - 1];
    forall i, j | 0 <= i < j < |d|
      ensures d[i] != d[j]
    {
      if j < k {
      } else if j == k {
        assert d[i] == c[i];
      } else if i < k {
        assert d[i] == c[i] && d[j] == c[j - 1];
      } else if i == k {
        assert d[j] == c[j - 1];
      } else {
        assert d[i] == c[i - 1] && d[j] == c[j - 1];
      }
    }
    PairwiseDistinct(d);
    assert d[..k] == c[..k];
    IndexOfDistinct(d, k);
  }

  /** Linking block `nb` in at position `k` inserts its elements into the list
      at the rank where block `c[k]` started. */
  lemma {:induction false} FlattenLinkAt<T>(es: seq<seq<T>>, c: seq<int>, k: int, nb: int)
    requires 0 <= k <= |c|
    ensures |Flatten(es, c[..k])| <= |Flatten(es, c)|
    ensures Flatten(es, c[..k] + [nb] + c[k..])
         == Flatten(es, c)[..|Flatten(es, c[..k])|] + Entry(es, nb) + Flatten(es, c)[|Flatten(es, c[..k])|..]
  {
    var c1, c2 := c[..k], c[k..];
    var P, E, S := Flatten(es, c1), Entry(es, nb), Flatten(es, c2);
    assert Flatten(es, c1 + [nb] + c2) == P + E + S by {
      FlattenAppend(es, c1 + [nb], c2);
      FlattenAppend(es, c1, [nb]);
      FlattenPair(es, nb, nb);
    }
    assert Flatten(es, c) == P + S by {
      assert c == c1 + c2;
      FlattenAppend(es, c1, c2);
    }
    SliceJoin(P, S);
  }

  lemma {:induction false} SliceJoin<T>(P: seq<T>, S: seq<T>)
    ensures (P + S)[..|P|] == P && (P + S)[|P|..] == S
  {
  }

  /** Unlinking the block at position `k` removes its elements from the list. */
  lemma {:induction false} FlattenUnlinkAt<T>(es: seq<seq<T>>, c: seq<int>, k: int)
    requires 0 <= k < |c|
    ensures |Flatten(es, c[..k])| + |Entry(es, c[k])| <= |Flatten(es, c)|
    ensures Flatten(es, c[..k] + c[k + 1..])
         == Flatten(es, c)[..|Flatten(es, c[..k])|] + Flatten(es, c)[|Flatten(es, c[..k])| + |Entry(es, c[k])|..]
  {
    var P, E, S := Flatten(es, c[..k]), Entry(es, c[k]), Flatten(es, c[k + 1..]);
    FlattenAppend(es, c[..k], c[k + 1..]);
    FlattenSplit(es, c, k);
    CutMiddle(P, E, S);
  }

  lemma CutMiddle<T>(P: seq<T>, E: seq<T>, S: seq<T>)
    ensures (P + E + S)[..|P|] == P && (P + E + S)[|P| + |E|..] == S
  {
  }

  /** Splitting block `c[j]` into `e1` kept in place and `e2` moved into a new
      slot linked right after it leaves the contents alone; the new slot
      starts where `e1` ends. */
  lemma {:induction false} FlattenSplitBlock<T>(es: seq<seq<T>>, c: seq<int>, j: int, e1: seq<T>, e2: seq<T>)
    requires Distinct(c) && 0 <= j < |c| && 0 <= c[j] < |es| && |es| !in c
    requires es[c[j]] == e1 + e2
    ensures Flatten(es[c[j] := e1] + [e2], c[..j + 1] + [|es|] + c[j + 1..]) == Flatten(es, c)
    ensures |Flatten(es[c[j] := e1] + [e2], c[..j + 1])| == |Flatten(es, c[..j])| + |e1|
  {
    DistinctPairs(c);
    var es1 := es[c[j] := e1];
    var es' := es1 + [e2];
    var nb := |es|;
    assert c == c[..j] + [c[j]] + c[j + 1..];
    assert c[j] !in c[..j] && c[j] !in c[j + 1..];
    FlattenGrow(es1, c[..j], e2);
    FlattenGrow(es1, c[j + 1..], e2);
    FlattenUpdateOther(es, c[..j], c[j], e1);
    FlattenUpdateOther(es, c[j + 1..], c[j], e1);
    var P, S := Flatten(es, c[..j]), Flatten(es, c[j + 1..]);
    assert Entry(es', c[j]) == e1 && Entry(es', nb) == e2 && Entry(es, c[j]) == e1 + e2;
    assert c[..j + 1] + [nb] + c[j + 1..] == c[..j] + [c[j], nb] + c[j + 1..];
    FlattenAppend(es', c[..j] + [c[j], nb], c[j + 1..]);
    FlattenAppend(es', c[..j], [c[j], nb]);
    FlattenPair(es', c[j], nb);
    assert Flatten(es', c[..j + 1] + [nb] + c[j + 1..]) == (P + (e1 + e2)) + S;
    FlattenSplit(es, c, j);
    assert c[..j + 1] == c[..j] + [c[j]];
    FlattenAppend(es', c[..j], [c[j]]);
    FlattenPair(es', c[j], c[j]);
  }

  /** Appending the elements of block `c[k]` to its predecessor and dropping
      `c[k]` from the chain leaves the contents alone. */
  lemma {:induction false} FlattenMerge<T>(es: seq<seq<T>>, c: seq<int>, k: int)
    requires Distinct(c) && 0 < k < |c| && 0 <= c[k - 1] < |es|
    ensures Flatten(es[c[k - 1] := es[c[k - 1]] + Entry(es, c[k])], c[..k] + c[k + 1..]) == Flatten(es, c)
  {
    DistinctPairs(c);
    var l := c[k - 1];
    var es' := es[l := es[l] + Entry(es, c[k])];
    assert c == c[..k - 1] + [l, c[k]] + c[k + 1..];
    assert l !in c[..k - 1] && l !in c[k + 1..];
    FlattenUpdateOther(es, c[..k - 1], l, es[l] + Entry(es, c[k]));
    FlattenUpdateOther(es, c[k + 1..], l, es[l] + Entry(es, c[k]));
    assert c[..k] + c[k + 1..] == c[..k - 1] + [l] + c[k + 1..];
    FlattenAppend(es', c[..k - 1] + [l], c[k + 1..]);
    FlattenAppend(es', c[..k - 1], [l]);
    FlattenAppend(es, c[..k - 1] + [l, c[k]], c[k + 1..]);
    FlattenAppend(es, c[..k - 1], [l, c[k]]);
    FlattenPair(es', l, c[k]);
    FlattenPair(es, l, c[k]);
  }

  /** The members of a chain with `nb` linked in at position `k`. */
  lemma {:induction false} LinkMembers(c: seq<int>, k: int, nb: int)
    requires 0 <= k <= |c|
    ensures forall x :: x in c[..k] + [nb] + c[k..] <==> x in c || x == nb
  {
    assert c == c[..k] + c[k..];
  }

  /** The members of a chain without repetitions once position `k` is dropped. */
  lemma {:induction false} UnlinkMembers(c: seq<int>, k: int)
    requires Distinct(c) && 0 <= k < |c|
    ensures forall x :: x in c[..k] + c[k + 1..] <==> x in c && x != c[k]
  {
    DistinctPairs(c);
    var d := c[..k] + c[k + 1..];
    forall x
      ensures x in d <==> x in c && x != c[k]
    {
      if x in c && x != c[k] {
        var q := IndexOf(c, x);
        if q < k {
          assert d[q] == x;
        } else {
          assert d[q - 1] == x;
        }
      }
      if x in d {
        var q := IndexOf(d, x);
        if q < k {
          assert c[q] == x;
        } else {
          assert c[q + 1] == x;
        }
      }
    }
  }

  /** A chain whose links agree with `prev` and `next`: it starts at a block
      with no predecessor, ends at the sentinel, which has no successor, and
      each listed block's links point at its neighbours in the list. */
  ghost predicate Linked(prev: seq<int>, next: seq<int>, c: seq<int>)
  {
    |c| >= 1 && c[|c| - 1] == PastTheEnd && Distinct(c)
    && (forall j :: 0 <= j < |c| ==> 0 <= c[j] < |prev| && c[j] < |next|)
    && prev[c[0]] == Nil
    && (forall j {:trigger prev[c[j]]} :: 0 < j < |c| ==> prev[c[j]] == c[j - 1])
    && (forall j {:trigger next[c[j]]} :: 0 <= j < |c| - 1 ==> next[c[j]] == c[j + 1])
    && next[PastTheEnd] == Nil
  }

  /** New unlinked arena slots leave a chain's links alone. */
  lemma {:induction false} LinkedGrow(prev: seq<int>, next: seq<int>, c: seq<int>, p: int, q: int)
    requires Linked(prev, next, c)
    ensures Linked(prev + [p], next + [q], c)
  {
  }

  /** Linking block `nb` in front of `c[k]`, as `insert` and the `push_*`
      operations do, lists it at position `k`. */
  lemma {:induction false} LinkBefore(prev: seq<int>, next: seq<int>, c: seq<int>, k: int, nb: int,
                   prev': seq<int>, next': seq<int>)
    requires Linked(prev, next, c) && 0 <= k < |c|
    requires |prev| <= |prev'| && |next| <= |next'|
    requires 0 <= nb < |prev'| && nb < |next'| && nb !in c
    requires prev'[nb] == (if k == 0 then Nil else c[k - 1]) && next'[nb] == c[k]
    requires prev'[c[k]] == nb
    requires k > 0 ==> next'[c[k - 1]] == nb
    requires forall x :: 0 <= x < |prev| && x != c[k] && x != nb ==> prev'[x] == prev[x]
    requires forall x :: 0 <= x < |next| && x != nb && (k == 0 || x != c[k - 1]) ==> next'[x] == next[x]
    ensures Linked(prev', next', c[..k] + [nb] + c[k..])
  {
    var d := c[..k] + [nb] + c[k..];
    DistinctInsert(c, k, nb);
    LinkBeforePrev(prev, next, c, k, nb, prev');
    LinkBeforeNext(prev, next, c, k, nb, next');
    assert d[|d| - 1] == c[|c| - 1];
    assert forall j :: 0 <= j < k ==> d[j] == c[j];
    assert forall j :: k < j < |d| ==> d[j] == c[j - 1];
    assert PastTheEnd != nb;
  }

  /** The `prev` links after `LinkBefore`. */
  lemma {:induction false} LinkBeforePrev(prev: seq<int>, next: seq<int>, c: seq<int>, k: int, nb: int, prev': seq<int>)
    requires Linked(prev, next, c) && 0 <= k < |c|
    requires |prev| <= |prev'| && 0 <= nb < |prev'| && nb !in c
    requires prev'[nb] == (if k == 0 then Nil else c[k - 1]) && prev'[c[k]] == nb
    requires forall x :: 0 <= x < |prev| && x != c[k] && x != nb ==> prev'[x] == prev[x]
    ensures forall j :: 0 < j < |c| + 1 ==> prev'[(c[..k] + [nb] + c[k..])[j]] == (c[..k] + [nb] + c[k..])[j - 1]
    ensures prev'[(c[..k] + [nb] + c[k..])[0]] == Nil
  {
    DistinctPairs(c);
    var d := c[..k] + [nb] + c[k..];
    assert forall j :: 0 <= j < k ==> d[j] == c[j];
    assert d[k] == nb;
    assert forall j :: k < j < |d| ==> d[j] == c[j - 1];
    forall j | 0 < j < |d|
      ensures prev'[d[j]] == d[j - 1]
    {
      if j < k {
        assert c[j] != nb && c[j] != c[k];
      } else if j == k {
      } else if j == k + 1 {
      } else {
        assert d[j] == c[j - 1] && d[j - 1] == c[j - 2];
        assert c[j - 1] != c[k];
      }
    }
    if k > 0 {
      assert d[0] == c[0] && c[0] != c[k];
    }
  }

  /** The `next` links after `LinkBefore`. */
  lemma {:induction false} LinkBeforeNext(prev: seq<int>, next: seq<int>, c: seq<int>, k: int, nb: int, next': seq<int>)
    requires Linked(prev, next, c) && 0 <= k < |c|
    requires |next| <= |next'| && 0 <= nb < |next'| && nb !in c
    requires next'[nb] == c[k] && (k > 0 ==> next'[c[k - 1]] == nb)
    requires forall x :: 0 <= x < |next| && x != nb && (k == 0 || x != c[k - 1]) ==> next'[x] == next[x]
    ensures forall j :: 0 <= j < |c| ==> next'[(c[..k] + [nb] + c[k..])[j]] == (c[..k] + [nb] + c[k..])[j + 1]
    ensures next'[PastTheEnd] == Nil
  {
    DistinctPairs(c);
    var d := c[..k] + [nb] + c[k..];
    assert forall j :: 0 <= j < k ==> d[j] == c[j];
    assert d[k] == nb;
    assert forall j :: k < j < |d| ==> d[j] == c[j - 1];
    forall j | 0 <= j < |d| - 1
      ensures next'[d[j]] == d[j + 1]
    {
      if j < k - 1 {
        assert c[j] != c[k - 1];
      } else if j == k - 1 {
      } else if j == k {
      } else {
        assert d[j] == c[j - 1] && d[j + 1] == c[j];
        assert k > 0 ==> c[j - 1] != c[k - 1];
      }
    }
    assert PastTheEnd != nb;
    assert k > 0 ==> c[k - 1] != PastTheEnd;
  }

  /** Unlinking block `c[k]`, as `erase`, the `pop_*` operations and
      `MergeBlock` do, drops it from the list. */
  lemma {:induction false} Unlink(prev: seq<int>, next: seq<int>, c: seq<int>, k: int,
               prev': seq<int>, next': seq<int>)
    requires Linked(prev, next, c) && 0 <= k < |c| - 1
    requires |prev'| == |prev| && |next'| == |next|
    requires prev'[c[k + 1]] == (if k == 0 then Nil else c[k - 1])
    requires k > 0 ==> next'[c[k - 1]] == c[k + 1]
    requires forall x :: 0 <= x < |prev| && x != c[k + 1] && x != c[k] ==> prev'[x] == prev[x]
    requires forall x :: 0 <= x < |next| && x != c[k] && (k == 0 || x != c[k - 1]) ==> next'[x] == next[x]
    ensures Linked(prev', next', c[..k] + c[k + 1..])
  {
    var d := c[..k] + c[k + 1..];
    UnlinkShape(prev, next, c, k, d);
    UnlinkPrevLinks(prev, next, c, k, d, prev');
    UnlinkNextLinks(prev, next, c, k, d, next');
  }

  /** Dropping one entry of a chain keeps it free of repetitions, ending at
      the sentinel and within the arena. */
  lemma {:induction false} UnlinkShape(prev: seq<int>, next: seq<int>, c: seq<int>, k: int, d: seq<int>)
    requires Linked(prev, next, c) && 0 <= k < |c| - 1 && d == c[..k] + c[k + 1..]
    ensures |d| >= 1 && d[|d| - 1] == PastTheEnd && Distinct(d)
    ensures forall j :: 0 <= j < |d| ==> 0 <= d[j] < |prev| && d[j] < |next|
  {
    DistinctPairs(c);
    assert forall j :: 0 <= j < k ==> d[j] == c[j];
    assert forall j :: k <= j < |d| ==> d[j] == c[j + 1];
    forall i, j | 0 <= i < j < |d|
      ensures d[i] != d[j]
    {
      if j < k {
      } else if i < k {
        assert d[i] == c[i] && d[j] == c[j + 1];
      } else {
        assert d[i] == c[i + 1] && d[j] == c[j + 1];
      }
    }
    PairwiseDistinct(d);
  }

  /** The `prev` links after `Unlink`. */
  lemma {:induction false} UnlinkPrevLinks(prev: seq<int>, next: seq<int>, c: seq<int>, k: int, d: seq<int>,
                                           prev': seq<int>)
    requires Linked(prev, next, c) && 0 <= k < |c| - 1 && d == c[..k] + c[k + 1..]
    requires |prev'| == |prev|
    requires prev'[c[k + 1]] == (if k == 0 then Nil else c[k - 1])
    requires forall x :: 0 <= x < |prev| && x != c[k + 1] && x != c[k] ==> prev'[x] == prev[x]
    ensures forall j :: 0 < j < |d| ==> prev'[d[j]] == d[j - 1]
    ensures prev'[d[0]] == Nil
  {
    DistinctPairs(c);
    assert forall j :: 0 <= j < k ==> d[j] == c[j];
    assert forall j :: k <= j < |d| ==> d[j] == c[j + 1];
    forall j | 0 < j < |d|
      ensures prev'[d[j]] == d[j - 1]
    {
      if j < k {
        assert c[j] != c[k + 1] && c[j] != c[k];
      } else if j == k {
      } else {
        assert d[j] == c[j + 1] && d[j - 1] == c[j];
        assert c[j + 1] != c[k + 1] && c[j + 1] != c[k];
      }
    }
    if k == 0 {
      assert d[0] == c[1];
    } else {
      assert d[0] == c[0] && c[0] != c[k] && c[0] != c[k + 1];
    }
  }

  /** The `next` links after `Unlink`. */
  lemma {:induction false} UnlinkNextLinks(prev: seq<int>, next: seq<int>, c: seq<int>, k: int, d: seq<int>,
                                           next': seq<int>)
    requires Linked(prev, next, c) && 0 <= k < |c| - 1 && d == c[..k] + c[k + 1..]
    requires |next'| == |next|
    requires k > 0 ==> next'[c[k - 1]] == c[k + 1]
    requires forall x :: 0 <= x < |next| && x != c[k] && (k == 0 || x != c[k - 1]) ==> next'[x] == next[x]
    ensures forall j :: 0 <= j < |d| - 1 ==> next'[d[j]] == d[j + 1]
    ensures next'[PastTheEnd] == Nil
  {
    DistinctPairs(c);
    assert forall j :: 0 <= j < k ==> d[j] == c[j];
    assert forall j :: k <= j < |d| ==> d[j] == c[j + 1];
    forall j | 0 <= j < |d| - 1
      ensures next'[d[j]] == d[j + 1]
    {
      if j < k - 1 {
        assert c[j] != c[k] && c[j] != c[k - 1];
      } else if j == k - 1 {
      } else {
        assert d[j] == c[j + 1] && d[j + 1] == c[j + 2];
        assert c[j + 1] != c[k] && (k == 0 || c[j + 1] != c[k - 1]);
      }
    }
    assert c[k] != PastTheEnd;
    assert k > 0 ==> c[k - 1] != PastTheEnd;
  }
}
