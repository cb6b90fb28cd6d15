/** The pool of bounce pages: a free list, a used list, and a reaper that gives surplus pages back. */
module BouncePool {
  import opened Basics

  const MIN_COUNT: nat := 32   // BUFFER_MIN_COUNT

  /** Pages are named by numbers other than 0. */
  class Pool {
    var freeList: seq<nat>
    var usedList: seq<nat>
    var freeSize: int
    var usedSize: int
    var freeMaxSize: int
    var usedMaxSize: int
    var pagesAllocated: int
    var pagesFreed: int
    var reaped: int

    /** The sizes are those of the lists, no page is on the lists twice, and what has been allocated
        and not freed is on a list or in hand. */
    ghost predicate Holding(hand: seq<nat>)
      reads this
    {
      && freeSize == |freeList| && usedSize == |usedList|
      && pagesAllocated - pagesFreed == freeSize + usedSize + |hand|
      && Distinct(freeList + usedList + hand)
      && 0 !in freeList && 0 !in usedList && 0 !in hand
    }

    ghost predicate Valid()
      reads this
    {
      Holding([])
    }

    /** Starts with as many of the minimum number of pages as can be allocated. */
    constructor ()
      ensures Valid() && usedList == [] && freeSize <= MIN_COUNT && pagesFreed == 0
    {
      freeList, usedList, freeSize, usedSize, freeMaxSize, usedMaxSize := [], [], 0, 0, 0, 0;
      pagesAllocated, pagesFreed, reaped := 0, 0, 0;
      new;
      for i := 0 to MIN_COUNT
        invariant Valid() && usedList == [] && freeSize <= i && pagesFreed == 0
      {
        var page := Alloc();
        if page != 0 {
          PushFree(page);
        }
      }
    }

    /** A page that no list holds, or 0. */
    method Alloc() returns (page: nat)
      requires Valid()
      modifies `pagesAllocated
      ensures if page != 0 then Holding([page]) && pagesAllocated == old(pagesAllocated) + 1
              else Valid() && pagesAllocated == old(pagesAllocated)
    {
      page := *;
      if page in freeList || page in usedList {
        page := 0;
      }
      if page != 0 {
        pagesAllocated := pagesAllocated + 1;
        assert freeList + usedList + [] == freeList + usedList;
        OneMore(freeList + usedList, page);
      }
    }

    method PushFree(page: nat)
      requires Holding([page])
      modifies `freeList, `freeSize, `freeMaxSize
      ensures Valid() && freeList == [page] + old(freeList)
      ensures freeMaxSize == if freeSize > old(freeMaxSize) then freeSize else old(freeMaxSize)
    {
      Shuffle(freeList + usedList + [page], [page] + freeList + usedList + []);
      freeList := [page] + freeList;
      freeSize := freeSize + 1;
      if freeSize > freeMaxSize {
        freeMaxSize := freeSize;
      }
    }

    method PopFree() returns (page: nat)
      requires Valid()
      modifies `freeList, `freeSize
      ensures if old(freeList) == [] then page == 0 && Valid() && freeList == []
              else page == old(freeList)[0] && Holding([page]) && freeList == old(freeList)[1..]
    {
      if freeList == [] {
        return 0;
      }
      page := freeList[0];
      assert freeList == [page] + freeList[1..];
      Shuffle(freeList + usedList + [], freeList[1..] + usedList + [page]);
      freeList := freeList[1..];
      freeSize := freeSize - 1;
    }

    method PushUsed(page: nat)
      requires Holding([page])
      modifies `usedList, `usedSize, `usedMaxSize
      ensures Valid() && usedList == [page] + old(usedList)
      ensures usedMaxSize == if usedSize > old(usedMaxSize) then usedSize else old(usedMaxSize)
    {
      Shuffle(freeList + usedList + [page], freeList + ([page] + usedList) + []);
      usedList := [page] + usedList;
      usedSize := usedSize + 1;
      if usedSize > usedMaxSize {
        usedMaxSize := usedSize;
      }
    }

    method RemoveUsed(page: nat, ghost i: nat)
      requires Valid() && i < |usedList| && usedList[i] == page
      modifies `usedList, `usedSize
      ensures Holding([page]) && usedList == old(usedList)[..i] + old(usedList)[i + 1..]
    {
      var k :| 0 <= k < |usedList| && usedList[k] == page;
      Unique(freeList, usedList, k, i);
      assert usedList == usedList[..i] + [page] + usedList[i + 1..];
      Shuffle(freeList + usedList + [], freeList + (usedList[..i] + usedList[i + 1..]) + [page]);
      usedList := usedList[..k] + usedList[k + 1..];
      usedSize := usedSize - 1;
    }

    /** A page for bouncing: one that is not in use, from the free list if it has one. */
    method BufferGet() returns (page: nat)
      requires Valid()
      modifies this
      ensures Valid()
      ensures page != 0 ==> page !in old(usedList) && usedList == [page] + old(usedList)
      ensures page == 0 ==> old(freeList) == [] && usedList == old(usedList) && freeList == old(freeList)
      ensures old(freeList) != [] ==>
              freeList == old(freeList)[1..] && page == old(freeList)[0] && pagesAllocated == old(pagesAllocated)
      ensures old(freeList) == [] ==> freeList == []
      ensures pagesFreed == old(pagesFreed)
    {
      var was := freeList;
      page := PopFree();
      if was == [] {
        page := Alloc();
        if page == 0 {
          return;
        }
      }
      assert page !in usedList by { NotIn(freeList, usedList, page); }
      PushUsed(page);
    }

    /** Takes a page back. */
    method BufferPut(page: nat, ghost i: nat)
      requires Valid() && i < |usedList| && usedList[i] == page
      modifies this
      ensures Valid() && usedList == old(usedList)[..i] + old(usedList)[i + 1..] && freeList == [page] + old(freeList)
      ensures page !in usedList && pagesAllocated == old(pagesAllocated) && pagesFreed == old(pagesFreed)
    {
      RemoveUsed(page, i);
      assert page !in usedList by { NotIn(freeList, usedList, page); }
      PushFree(page);
    }

    method Free(page: nat)
      requires Holding([page])
      modifies `pagesFreed
      ensures Valid() && pagesFreed == old(pagesFreed) + 1
    {
      pagesFreed := pagesFreed + 1;
      assert freeList + usedList + [page] == (freeList + usedList + []) + [page];
      Shorter(freeList + usedList + [], page);
    }

    /** What the reaper does when it wakes up: it frees the pages at the head of the free list until
        at most the minimum number is left. */
    method Reap()
      requires Valid()
      modifies `freeList, `freeSize, `pagesFreed, `reaped
      ensures Valid() && freeSize == (if old(freeSize) < MIN_COUNT then old(freeSize) else MIN_COUNT)
      ensures freeList == old(freeList)[old(freeSize) - freeSize..]
      ensures pagesFreed - old(pagesFreed) == reaped - old(reaped) == old(freeSize) - freeSize
    {
      while freeSize > MIN_COUNT
        invariant Valid()
        invariant if old(freeSize) < MIN_COUNT then freeSize == old(freeSize)
                  else MIN_COUNT <= freeSize <= old(freeSize)
        invariant freeList == old(freeList)[old(freeSize) - freeSize..]
        invariant pagesFreed - old(pagesFreed) == reaped - old(reaped) == old(freeSize) - freeSize
        decreases freeSize
      {
        var page := PopFree();
        reaped := reaped + 1;
        Free(page);
      }
    }

    /** Gives every page back, used or not. */
    method Terminate()
      requires Valid()
      modifies this
      ensures Valid() && freeList == [] && usedList == [] && pagesAllocated == pagesFreed
    {
      while usedList != []
        invariant Valid()
        decreases |usedList|
      {
        var page := usedList[0];
        RemoveUsed(page, 0);
        PushFree(page);
      }
      while freeList != []
        invariant Valid() && usedList == []
        decreases |freeList|
      {
        var page := PopFree();
        Free(page);
      }
    }
  }

  /** A list in another order is as free of repetitions. */
  lemma Shuffle(a: seq<nat>, b: seq<nat>)
    requires Distinct(a) && multiset(a) == multiset(b)
    ensures Distinct(b)
  {
    forall i, j | 0 <= i < j < |b| ensures b[i] != b[j] {
      if b[i] == b[j] {
        Twice(b, i, j);
        Once(a, b[i]);
      }
    }
  }

  lemma Twice(s: seq<nat>, i: nat, j: nat)
    requires i < j < |s| && s[i] == s[j]
    ensures multiset(s)[s[i]] >= 2
  {
    assert s == s[..j] + [s[j]] + s[j + 1..];
    assert s[..j][i] == s[i];
    assert s[i] in multiset(s[..j]);
  }

  lemma {:induction false} Once(s: seq<nat>, x: nat)
    requires Distinct(s)
    ensures multiset(s)[x] <= 1
  {
    if s != [] {
      var last := |s| - 1;
      Once(s[..last], x);
      assert s == s[..last] + [s[last]];
      assert x == s[last] ==> x !in s[..last];
    }
  }

  lemma OneMore(s: seq<nat>, x: nat)
    requires Distinct(s) && x !in s
    ensures Distinct(s + [x])
  {
  }

  lemma Shorter(s: seq<nat>, x: nat)
    requires Distinct(s + [x])
    ensures Distinct(s)
  {
    forall i, j | 0 <= i < j < |s| ensures s[i] != s[j] {
      assert (s + [x])[i] != (s + [x])[j];
    }
  }

  lemma Unique(a: seq<nat>, b: seq<nat>, i: nat, j: nat)
    requires Distinct(a + b + []) && i < |b| && j < |b| && b[i] == b[j]
    ensures i == j
  {
    assert (a + b + [])[|a| + i] == b[i] && (a + b + [])[|a| + j] == b[j];
  }

  lemma NotIn(a: seq<nat>, b: seq<nat>, x: nat)
    requires Distinct(a + b + [x])
    ensures x !in a && x !in b
  {
    var s := a + b + [x];
    assert s[|a| + |b|] == x;
    forall i | 0 <= i < |a| ensures a[i] != x {
      assert s[i] == a[i];
    }
    forall i | 0 <= i < |b| ensures b[i] != x {
      assert s[|a| + i] == b[i];
    }
  }
}
