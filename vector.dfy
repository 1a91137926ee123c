/** A growable array: a heap buffer `storage` of `maxSize` slots whose first
    `nowSize` slots hold the elements.  The buffer doubles when it is full. */
module Vectors {
  import opened Exceptions

  /** The capacity `doubleSpace` moves to: 0 is first raised to 10, then doubled. */
  function DoubledCapacity(maxSize: nat): (c: nat)
    ensures maxSize < c
    ensures maxSize == 0 ==> c == 20
    ensures maxSize > 0 ==> c == 2 * maxSize
  {
    (if maxSize == 0 then 10 else maxSize) * 2
  }

  /** An iterator: the container it belongs to and an index into it.  Moving
      it is plain index arithmetic; nothing is checked. */
  datatype Iter = Iter(ctn: object?, idx: int)

  /** `it + n`; `it - n`, `++`, `--`, `+=` and `-=` are this with n, -n, 1 and -1. */
  function Plus(it: Iter, n: int): (r: Iter)
    ensures r.ctn == it.ctn && r.idx == it.idx + n
  {
    Iter(it.ctn, it.idx + n)
  }

  /** `a - b`: the distance between two iterators of one container. */
  function Difference(a: Iter, b: Iter): (r: Result<int>)
    ensures r.Err? <==> a.ctn != b.ctn
    ensures r.Err? ==> r.error == InvalidIterator
    ensures r.Ok? ==> r.value == a.idx - b.idx
  {
    if a.ctn != b.ctn then Err(InvalidIterator) else Ok(a.idx - b.idx)
  }

  /** Moving an iterator by n and measuring back gives n. */
  lemma {:induction false} DifferenceOfPlus(it: Iter, n: int)
    ensures Difference(Plus(it, n), it) == Ok(n)
    ensures Difference(it, Plus(it, n)) == Ok(-n)
  {
  }

  class Vector<T(0)> {
    var storage: array<T>
    var maxSize: nat
    var nowSize: nat
    /** The elements in order. */
    ghost var Contents: seq<T>

    /** The buffer has `maxSize` slots, the elements fit in it, and its first
        `nowSize` slots are the contents. */
    ghost predicate Valid()
      reads this, storage
    {
      storage.Length == maxSize && nowSize <= maxSize && Contents == storage[..nowSize]
    }

    constructor ()
      ensures Valid() && fresh(storage)
      ensures Contents == [] && maxSize == 10
    {
      nowSize, maxSize := 0, 10;
      storage := new T[10];
      Contents := [];
    }

    /** Moves the elements into a fresh buffer of twice the capacity. */
    method DoubleSpace()
      requires Valid()
      modifies this
      ensures Valid() && fresh(storage)
      ensures maxSize == DoubledCapacity(old(maxSize)) && nowSize == old(nowSize)
      ensures Contents == old(Contents)
    {
      if maxSize == 0 {
        maxSize := 10;
      }
      maxSize := maxSize * 2;
      var tmp := storage;
      storage := new T[maxSize];
      var i := 0;
      while i < nowSize
        modifies storage
        invariant 0 <= i <= nowSize
        invariant storage[..i] == tmp[..i]
      {
        storage[i] := tmp[i];
        i := i + 1;
      }
      assert storage[..nowSize] == tmp[..nowSize];
    }

    /** `at(pos)`; `operator[]` is the same check and the same access. */
    method At(pos: nat) returns (r: Result<T>)
      requires Valid()
      ensures r.Err? <==> pos >= |Contents|
      ensures r.Err? ==> r.error == IndexOutOfBound
      ensures r.Ok? ==> r.value == Contents[pos]
    {
      if pos >= nowSize {
        return Err(IndexOutOfBound);
      }
      return Ok(storage[pos]);
    }

    method Front() returns (r: Result<T>)
      requires Valid()
      ensures r.Err? <==> Contents == []
      ensures r.Err? ==> r.error == ContainerIsEmpty
      ensures r.Ok? ==> r.value == Contents[0]
    {
      if nowSize == 0 {
        return Err(ContainerIsEmpty);
      }
      return Ok(storage[0]);
    }

    method Back() returns (r: Result<T>)
      requires Valid()
      ensures r.Err? <==> Contents == []
      ensures r.Err? ==> r.error == ContainerIsEmpty
      ensures r.Ok? ==> r.value == Contents[|Contents| - 1]
    {
      if nowSize == 0 {
        return Err(ContainerIsEmpty);
      }
      return Ok(storage[nowSize - 1]);
    }

    function Begin(): (it: Iter)
      reads this
      ensures it.ctn == this && it.idx == 0
    {
      Iter(this, 0)
    }

    function End(): (it: Iter)
      reads this
      ensures it.ctn == this && it.idx == nowSize
      ensures Valid() ==> it.idx == |Contents|
    {
      Iter(this, nowSize)
    }

    function Empty(): (b: bool)
      reads this, storage
      requires Valid()
      ensures b <==> Contents == []
    {
      nowSize == 0
    }

    function Size(): (n: nat)
      reads this, storage
      requires Valid()
      ensures n == |Contents|
    {
      nowSize
    }

    function Capacity(): (c: nat)
      reads this, storage
      requires Valid()
      ensures |Contents| <= c == storage.Length
    {
      maxSize
    }

    /** Walking from `begin()` to `end()` covers exactly the elements. */
    lemma {:induction false} EndMinusBegin()
      requires Valid()
      ensures Difference(End(), Begin()) == Ok(Size())
    {
    }

    /** Destroys the elements and starts over with a fresh 10-slot buffer. */
    method Clear()
      requires Valid()
      modifies this
      ensures Valid() && fresh(storage)
      ensures Contents == [] && maxSize == 10
    {
      nowSize := 0;
      maxSize := 10;
      storage := new T[10];
      Contents := [];
    }

    /** `insert(ind, value)`: grows the buffer first when it is full, then
        shifts the tail one slot right. */
    method Insert(ind: nat, value: T) returns (r: Result<Iter>)
      requires Valid()
      modifies this, storage
      ensures Valid()
      ensures r.Err? <==> ind > old(nowSize)
      ensures r.Err? ==> r.error == IndexOutOfBound && Contents == old(Contents) && maxSize == old(maxSize)
      ensures r.Ok? ==> r.value == Iter(this, ind)
      ensures r.Ok? ==> Contents == old(Contents)[..ind] + [value] + old(Contents)[ind..]
      ensures r.Ok? ==> maxSize == (if old(nowSize) == old(maxSize) then DoubledCapacity(old(maxSize)) else old(maxSize))
    {
      if ind > nowSize {
        return Err(IndexOutOfBound);
      }
      if nowSize == maxSize {
        DoubleSpace();
      }
      ShiftIn(ind, value);
      return Ok(Iter(this, ind));
    }

    /** The shifting loop of `insert` on a buffer with a free slot: moves the
        elements from `ind` on one slot right and stores `value` at `ind`. */
    method ShiftIn(ind: nat, value: T)
      requires Valid() && ind <= nowSize < maxSize
      modifies this, storage
      ensures Valid() && storage == old(storage) && maxSize == old(maxSize)
      ensures Contents == old(Contents)[..ind] + [value] + old(Contents)[ind..]
    {
      ghost var s := Contents;
      var i := nowSize;
      while i > ind
        modifies storage
        invariant ind <= i <= nowSize < storage.Length
        invariant forall k :: 0 <= k < i ==> storage[k] == s[k]
        invariant forall k :: i < k <= nowSize ==> storage[k] == s[k - 1]
      {
        storage[i] := storage[i - 1];
        i := i - 1;
      }
      nowSize := nowSize + 1;
      storage[ind] := value;
      Contents := s[..ind] + [value] + s[ind..];
      forall k | 0 <= k < nowSize
        ensures storage[k] == Contents[k]
      {
        if k < ind {
          assert Contents[k] == s[k];
        } else if k > ind {
          assert Contents[k] == s[k - 1];
        }
      }
      assert storage[..nowSize] == Contents;
    }

    /** `erase(ind)`: shifts the tail one slot left. */
    method Erase(ind: nat) returns (r: Result<Iter>)
      requires Valid()
      modifies this, storage
      ensures Valid() && storage == old(storage) && maxSize == old(maxSize)
      ensures r.Err? <==> ind >= old(nowSize)
      ensures r.Err? ==> r.error == IndexOutOfBound && Contents == old(Contents)
      ensures r.Ok? ==> r.value == Iter(this, ind)
      ensures r.Ok? ==> Contents == old(Contents)[..ind] + old(Contents)[ind + 1..]
    {
      if ind >= nowSize {
        return Err(IndexOutOfBound);
      }
      ghost var s := storage[..nowSize];
      nowSize := nowSize - 1;
      var i := ind;
      while i < nowSize
        modifies storage
        invariant ind <= i <= nowSize
        invariant forall k :: 0 <= k < ind ==> storage[k] == s[k]
        invariant forall k :: ind <= k < i ==> storage[k] == s[k + 1]
        invariant forall k :: i <= k <= nowSize ==> storage[k] == s[k]
      {
        storage[i] := storage[i + 1];
        i := i + 1;
      }
      Contents := s[..ind] + s[ind + 1..];
      assert storage[..nowSize] == Contents;
      return Ok(Iter(this, ind));
    }

    /** `push_back(value)`: grows the buffer exactly when it is full. */
    method PushBack(value: T)
      requires Valid()
      modifies this, storage
      ensures Valid()
      ensures Contents == old(Contents) + [value]
      ensures maxSize == (if old(nowSize) == old(maxSize) then DoubledCapacity(old(maxSize)) else old(maxSize))
    {
      if nowSize == maxSize {
        DoubleSpace();
      }
      storage[nowSize] := value;
      nowSize := nowSize + 1;
      Contents := Contents + [value];
    }

    method PopBack() returns (r: Outcome)
      requires Valid()
      modifies this
      ensures Valid() && storage == old(storage) && maxSize == old(maxSize)
      ensures r.Fail? <==> old(Contents) == []
      ensures r.Fail? ==> r.error == ContainerIsEmpty && Contents == old(Contents)
      ensures r.Done? ==> Contents == old(Contents)[..|old(Contents)| - 1]
    {
      if nowSize == 0 {
        return Fail(ContainerIsEmpty);
      }
      nowSize := nowSize - 1;
      Contents := Contents[..nowSize];
      return Done;
    }
  }
}
