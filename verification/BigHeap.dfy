/** The page layer of the crash driver's emergency heap: a next-fit allocator whose block headers
    sit in an array beside the pages, and which joins free neighbours only when it has to. */
module BigHeap {
  import opened Basics

  const HEAP_PAGES: nat := 23                 // AUSTERE_HEAP_PAGES
  const MAX_ALLOC_SIZE: nat := 8 * PAGE_SIZE  // AUSTERE_MAX_ALLOC_SIZE

  /** A header is a block size in pages, with the top bit set when the block is free. */
  predicate Free(header: int) {
    header >= FREE_CHUNK
  }

  function Size(header: int): int {
    header % FREE_CHUNK
  }

  predicate Header(header: int) {
    0 <= header < 2 * FREE_CHUNK
  }

  /** The blocks that start at the pages in starts lie end to end over pages 0..n; n itself
      closes the last one. */
  ghost predicate Tiling(s: seq<int>, n: nat, starts: set<int>) {
    && 0 < n <= |s|
    && 0 in starts && n in starts
    && (forall p :: p in starts ==> 0 <= p <= n)
    && (forall p :: p in starts && p < n ==> Header(s[p]) && 0 < Size(s[p]) && p + Size(s[p]) in starts)
    && (forall p, q :: p in starts && p < n && p < q < p + Size(s[p]) ==> q !in starts)
  }

  /** The abstract heap: which pages are free, and the live allocations with their lengths. */
  datatype Heap = Heap(free: set<int>, live: map<int, int>)

  ghost predicate Represents(s: seq<int>, n: nat, starts: set<int>, h: Heap) {
    && Tiling(s, n, starts)
    && (forall q :: q in h.free ==> 0 <= q < n)
    && (forall p, q :: p in starts && p < n && p <= q < p + Size(s[p]) ==> (q in h.free <==> Free(s[p])))
    && (forall p :: p in h.live <==> p in starts && p < n && !Free(s[p]))
    && (forall p :: p in h.live ==> h.live[p] == Size(s[p]))
  }

  /** Headers inside blocks have never been written, or were those of free blocks that have been
      absorbed. */
  ghost predicate Remains(s: seq<int>, n: nat, starts: set<int>) {
    n <= |s| && forall q :: 0 <= q < n && q !in starts ==> s[q] == 0 || Free(s[q])
  }

  /** The n pages from page p on. */
  ghost function Pages(p: int, n: nat): (r: set<int>)
    ensures forall q :: q in r <==> p <= q < p + n
  {
    if n == 0 then {} else Pages(p, n - 1) + {p + n - 1}
  }

  ghost predicate FreeRun(h: Heap, a: int, k: int) {
    forall q :: a <= q < a + k ==> q in h.free
  }

  /** No two free blocks are neighbours. */
  ghost predicate Coalesced(s: seq<int>, n: nat, starts: set<int>)
    requires Tiling(s, n, starts)
  {
    forall p :: p in starts && p < n && Free(s[p]) && p + Size(s[p]) < n ==> !Free(s[p + Size(s[p])])
  }

  predicate Fits(header: int, k: int) {
    Free(header) && k <= Size(header)
  }

  /** The block that a page lies in. */
  lemma {:induction false} BlockOf(s: seq<int>, n: nat, starts: set<int>, q: int, p: int) returns (r: int)
    requires Tiling(s, n, starts) && p in starts && 0 <= p <= q < n
    ensures r in starts && r <= q < r + Size(s[r]) && r < n
    decreases n - p
  {
    if q < p + Size(s[p]) {
      r := p;
    } else {
      r := BlockOf(s, n, starts, q, p + Size(s[p]));
    }
  }

  /** Live runs do not overlap each other or the free pages, stay inside the heap, and together
      with the free pages make up all of it. */
  lemma LiveRunsDisjoint(s: seq<int>, n: nat, starts: set<int>, h: Heap)
    requires Represents(s, n, starts, h)
    ensures forall a, b :: a in h.live && b in h.live && a < b ==> a + h.live[a] <= b
    ensures forall a, q :: a in h.live && a <= q < a + h.live[a] ==> 0 <= q < n && q !in h.free
    ensures forall q :: 0 <= q < n && q !in h.free ==> exists a :: a in h.live && a <= q < a + h.live[a]
  {
    forall q | 0 <= q < n && q !in h.free ensures exists a :: a in h.live && a <= q < a + h.live[a] {
      var a := BlockOf(s, n, starts, q, 0);
      assert a in h.live;
    }
  }

  /** In a coalesced heap a run of free pages lies in one block. */
  lemma RunFits(s: seq<int>, n: nat, starts: set<int>, h: Heap, a: int, k: int) returns (p: int)
    requires Represents(s, n, starts, h) && FreeRun(h, a, k) && 0 < k
    requires Coalesced(s, n, starts) || k == 1
    ensures p in starts && p < n && Fits(s[p], k)
  {
    assert a in h.free;
    p := BlockOf(s, n, starts, a, 0);
    var next := p + Size(s[p]);
    assert next < a + k ==> next in h.free;
    FreePageStart(s, n, starts, h, next);
  }

  lemma FreePageStart(s: seq<int>, n: nat, starts: set<int>, h: Heap, p: int)
    requires Represents(s, n, starts, h) && p in starts
    ensures p in h.free ==> p < n && Free(s[p])
  {
    assert p < n ==> p < p + Size(s[p]);
  }

  lemma FittingBlockIsRun(s: seq<int>, n: nat, starts: set<int>, h: Heap, p: int, k: int)
    requires Represents(s, n, starts, h) && p in starts && p < n && Fits(s[p], k)
    ensures FreeRun(h, p, k)
  {
  }

  // ---------------------------------------------------------------- joining neighbours

  /** Page p starts a free block that directly follows another free block. */
  ghost predicate FollowsFree(h: Heap, p: int) {
    p in h.free && p - 1 in h.free
  }

  /** How far compaction has come when it stands at page i: behind the blocks that absorbed them
      the old headers are still there, and nothing beyond the current block has been looked at. */
  ghost predicate Trail(s0: seq<int>, starts0: set<int>, s: seq<int>, starts: set<int>, n: nat, h: Heap, i: int) {
    && Tiling(s, n, starts)
    && |s| == |s0| && starts <= starts0 && i in starts
    && (forall q :: 0 <= q < |s| && (q !in starts || q > i) ==> s[q] == s0[q])
    && (forall q :: q in starts0 && q !in starts ==> FollowsFree(h, q) && (q < i || (i < n && q < i + Size(s[i]))))
    && (forall p :: p in starts && p < i && Free(s[p]) && p + Size(s[p]) < n ==> !Free(s[p + Size(s[p])]))
    && (starts == starts0 ==> s == s0)
  }

  lemma JoinedHeader(size: int, next: int)
    requires 0 <= size && Header(next) && Free(next) && size + Size(next) < FREE_CHUNK
    ensures Header(size + next) && Free(size + next) && Size(size + next) == size + Size(next)
  {
  }

  lemma Block(s: seq<int>, n: nat, starts: set<int>, p: int)
    requires Tiling(s, n, starts) && p in starts && p < n
    ensures 0 <= p < p + Size(s[p]) <= n && p + Size(s[p]) in starts && Header(s[p])
    ensures forall q :: q in starts && p < q ==> p + Size(s[p]) <= q
  {
  }

  lemma AbsorbTiling(s: seq<int>, n: nat, starts: set<int>, i: int)
    requires Tiling(s, n, starts) && i in starts && i < n < FREE_CHUNK
    requires Free(s[i]) && i + Size(s[i]) < n && Free(s[i + Size(s[i])])
    ensures var j := i + Size(s[i]);
            var t := s[i := Size(s[i]) + s[j]];
            && i < j && j in starts && j + Size(s[j]) in starts
            && Free(t[i]) && Size(t[i]) == Size(s[i]) + Size(s[j])
            && Tiling(t, n, starts - {j})
  {
    hide Size, Free, Header;
    Block(s, n, starts, i);
    var j := i + Size(s[i]);
    Block(s, n, starts, j);
    JoinedHeader(Size(s[i]), s[j]);
    var t := s[i := Size(s[i]) + s[j]];
    forall p | p in starts - {j} && p < n
      ensures Header(t[p]) && 0 < Size(t[p]) && p + Size(t[p]) in starts - {j}
      ensures forall q :: p < q < p + Size(t[p]) ==> q !in starts - {j}
    {
      Block(s, n, starts, p);
    }
  }

  lemma AbsorbRepresents(s: seq<int>, n: nat, starts: set<int>, h: Heap, i: int)
    requires Represents(s, n, starts, h) && i in starts && i < n < FREE_CHUNK
    requires Free(s[i]) && i + Size(s[i]) < n && Free(s[i + Size(s[i])])
    ensures var j := i + Size(s[i]);
            && j in starts && FollowsFree(h, j)
            && Represents(s[i := Size(s[i]) + s[j]], n, starts - {j}, h)
  {
    AbsorbTiling(s, n, starts, i);
    var j := i + Size(s[i]);
    assert j < j + Size(s[j]);
    assert i <= j - 1 < i + Size(s[i]);
  }

  lemma AbsorbTrail(s0: seq<int>, starts0: set<int>, s: seq<int>, starts: set<int>, n: nat, h: Heap, i: int)
    requires Represents(s, n, starts, h) && i in starts && i < n < FREE_CHUNK
    requires Free(s[i]) && i + Size(s[i]) < n && Free(s[i + Size(s[i])])
    requires Trail(s0, starts0, s, starts, n, h, i)
    ensures var j := i + Size(s[i]);
            var t := s[i := Size(s[i]) + s[j]];
            j in starts0 && Trail(s0, starts0, t, starts - {j}, n, h, i)
  {
    hide Size, Free, Header, Represents, FollowsFree;
    AbsorbTiling(s, n, starts, i);
    AbsorbRepresents(s, n, starts, h, i);
    var j := i + Size(s[i]);
    var t := s[i := Size(s[i]) + s[j]];
    forall p | p in starts - {j} && p < i && Free(t[p]) && p + Size(t[p]) < n ensures !Free(t[p + Size(t[p])]) {
      Block(s, n, starts, p);
    }
  }

  lemma StepTrail(s0: seq<int>, starts0: set<int>, s: seq<int>, starts: set<int>, n: nat, h: Heap, i: int)
    requires Represents(s, n, starts, h) && i in starts && i < n
    requires Free(s[i]) && i + Size(s[i]) < n ==> !Free(s[i + Size(s[i])])
    requires Trail(s0, starts0, s, starts, n, h, i)
    ensures Trail(s0, starts0, s, starts, n, h, i + Size(s[i]))
  {
  }

  lemma FreshHeap(s: seq<int>, n: nat)
    requires 0 < n <= |s| && n < FREE_CHUNK && s[0] == n + FREE_CHUNK
    ensures Represents(s, n, {0, n}, Heap(Pages(0, n), map[]))
  {
    assert Size(s[0]) == n;
  }

  lemma StartTrail(s: seq<int>, starts: set<int>, n: nat, h: Heap)
    requires Represents(s, n, starts, h)
    ensures Tiling(s, n, starts) && Trail(s, starts, s, starts, n, h, 0)
  {
  }

  lemma BlockOfHeap(s: seq<int>, n: nat, starts: set<int>, h: Heap, p: int)
    requires Represents(s, n, starts, h) && p in starts && p < n
    ensures Tiling(s, n, starts)
    ensures 0 <= p < p + Size(s[p]) <= n && p + Size(s[p]) in starts
  {
  }

  /** The heap header array of the crash driver. */
  class BigHeap {
    const sizes: array<int>
    const pages: nat
    var cursor: nat
    ghost var starts: set<int>

    ghost predicate Valid(h: Heap)
      reads this, sizes
    {
      && pages <= HEAP_PAGES == sizes.Length
      && Represents(sizes[..], pages, starts, h)
      && Remains(sizes[..], pages, starts)
      && cursor in starts && cursor < pages
    }

    /** One big free block; one page is lost when the section is not page aligned. */
    constructor (aligned: bool)
      ensures pages == if aligned then HEAP_PAGES else HEAP_PAGES - 1
      ensures Valid(Heap(Pages(0, pages), map[])) && fresh(sizes)
      ensures forall q :: 0 < q < sizes.Length ==> sizes[q] == 0
    {
      hide Represents;
      sizes := new int[HEAP_PAGES](i => 0);
      pages := if aligned then HEAP_PAGES else HEAP_PAGES - 1;
      cursor := 0;
      starts := {0, if aligned then HEAP_PAGES else HEAP_PAGES - 1};
      new;
      sizes[0] := pages + FREE_CHUNK;
      FreshHeap(sizes[..], pages);
    }

    /** Joins a free block with the free block after it. */
    method AbsorbNext(ghost h: Heap, i: nat, ghost s0: seq<int>, ghost starts0: set<int>)
      requires pages <= HEAP_PAGES == sizes.Length && Represents(sizes[..], pages, starts, h)
               && Remains(sizes[..], pages, starts)
      requires i in starts && i < pages && 0 < Size(sizes[i]) && i + Size(sizes[i]) < pages
      requires Free(sizes[i]) && Free(sizes[i + Size(sizes[i])])
      requires Tiling(sizes[..], pages, starts) && Trail(s0, starts0, sizes[..], starts, pages, h, i)
      modifies sizes, `starts
      ensures Represents(sizes[..], pages, starts, h) && Remains(sizes[..], pages, starts)
      ensures Tiling(sizes[..], pages, starts) && Trail(s0, starts0, sizes[..], starts, pages, h, i)
      ensures i in starts && starts != starts0 && Size(sizes[i]) > old(Size(sizes[i]))
    {
      hide Represents, Remains, Trail, FollowsFree, Tiling, Size, Free, Header;
      ghost var s := sizes[..];
      var size := Size(sizes[i]);
      AbsorbTiling(s, pages, starts, i);
      AbsorbRepresents(s, pages, starts, h, i);
      AbsorbTrail(s0, starts0, s, starts, pages, h, i);
      AbsorbRemains(s, pages, starts, i, i + size, size + s[i + size]);
      BlockOfHeap(s, pages, starts, h, i + size);
      sizes[i] := size + sizes[i + size];
      assert sizes[..] == s[i := size + s[i + size]];
      starts := starts - {i + size};
    }

    /** Joins every run of free blocks into its first block. */
    method CompactBigHeap(ghost h: Heap) returns (changed: bool)
      requires Valid(h)
      modifies sizes, `starts
      ensures Represents(sizes[..], pages, starts, h) && Remains(sizes[..], pages, starts)
              && Coalesced(sizes[..], pages, starts)
      ensures starts <= old(starts) && (changed <==> starts != old(starts))
              && (!changed ==> sizes[..] == old(sizes[..]))
      ensures forall p :: p in old(starts) && p !in starts ==> FollowsFree(h, p) && sizes[..][p] == old(sizes[..])[p]
      ensures forall p :: p in old(starts) && p < pages && FollowsFree(h, p) ==> p !in starts
    {
      hide Represents, Remains, Trail, FollowsFree, Coalesced, Tiling, Size, Free, Header;
      ghost var s0, starts0 := sizes[..], starts;
      changed := false;
      var i := 0;
      StartTrail(s0, starts0, pages, h);
      while i < pages
        invariant 0 <= i <= pages
        invariant Represents(sizes[..], pages, starts, h) && Remains(sizes[..], pages, starts)
        invariant Tiling(sizes[..], pages, starts) && i in starts
        invariant Trail(s0, starts0, sizes[..], starts, pages, h, i)
        invariant changed <==> starts != starts0
        decreases pages - i, if i < pages then pages - Size(sizes[i]) else 0
      {
        ghost var s := sizes[..];
        BlockOfHeap(s, pages, starts, h, i);
        var size := Size(sizes[i]);
        if Free(sizes[i]) && i + size < pages && Free(sizes[i + size]) {
          AbsorbNext(h, i, s0, starts0);
          changed := true;
        } else {
          StepTrail(s0, starts0, s, starts, pages, h, i);
          i := i + size;
        }
      }
      Leftovers(s0, starts0, sizes[..], starts, pages, h);
    }

    /** Walks from header to header, starting at the cursor, until it finds a free block of k pages
        or is back at the cursor. Gives up after a number of steps that is only exhausted by a
        walk that never gets back. The walk may start on a header that compaction left behind. */
    method Scan(k: nat, budget: nat, ghost h: Heap, ghost walk: set<int>) returns (r: ScanResult)
      requires pages <= HEAP_PAGES == sizes.Length && Represents(sizes[..], pages, starts, h)
      requires cursor < pages && Walkable(sizes[..], pages, starts, walk, k) && cursor in walk && 2 * pages <= budget
      ensures r.Found? ==> r.page in starts && r.page < pages && Fits(sizes[r.page], k)
      ensures !r.Found? ==> NothingFits(sizes[..], pages, starts, k)
      ensures r.BackAtCursor? ==> cursor in starts
      ensures r.OutOfSteps? ==> cursor !in starts
    {
      hide Represents, Size, Free, Fits, Header;
      HeapEnds(sizes[..], pages, starts, h);
      var i, steps := cursor, 0;
      ghost var laps := 0;
      while steps < budget
        invariant 0 <= i < pages && i in walk && 0 <= steps <= budget
        invariant ScanInvariant(sizes[..], pages, starts, k, cursor, i, laps)
        invariant laps == 0 ==> steps <= i - cursor
        invariant laps == 1 ==> steps <= pages + i - cursor
      {
        steps := steps + 1;
        var n := Size(sizes[i]);
        if Fits(sizes[i], k) {
          return Found(i);
        }
        NextHeader(sizes[..], pages, starts, walk, k, cursor, i, laps);
        if i + n == pages {
          laps := laps + 1;
        }
        i := (i + n) % pages;
        if i == cursor {
          return BackAtCursor;
        }
      }
      r := OutOfSteps;
    }

    /** Takes the first k pages of a free block; the rest of the block, if any, stays free. */
    method Carve(i: nat, k: nat, ghost h: Heap)
      requires pages <= HEAP_PAGES == sizes.Length && Represents(sizes[..], pages, starts, h)
               && Remains(sizes[..], pages, starts)
      requires i in starts && i < pages && Fits(sizes[i], k) && 0 < k
      modifies this, sizes
      ensures Valid(Heap(h.free - Pages(i, k), h.live[i := k])) && cursor == (i + k) % pages
    {
      hide Represents, Remains, Tiling, Size, Free, Fits, Header, Pages;
      ghost var s := sizes[..];
      CarveRepresents(s, pages, starts, h, i, k);
      CarveRemains(s, pages, starts, i, k);
      HeapEnds(s, pages, starts, h);
      if sizes[i] != k + FREE_CHUNK {
        if i + k <= HEAP_PAGES {
          sizes[i + k] := sizes[i] - k;
        }
      }
      assert sizes[..] == if s[i] != k + FREE_CHUNK then s[i + k := s[i] - k] else s;
      sizes[i] := k;
      assert sizes[..] == Carved(s, i, k);
      starts := starts + {i + k};
      NextCursor(i + k, pages);
      cursor := (i + k) % pages;
    }

    /** Allocates whole pages. Spins stands for a call that never returns. */
    method AllocBig(size: nat, budget: nat, ghost h: Heap) returns (r: AllocResult, ghost h': Heap)
      requires Valid(h) && 0 < size <= MAX_ALLOC_SIZE && 2 * pages <= budget
      modifies this, sizes
      ensures r.Allocated? <==> HasRoom(h, size)
      ensures r.Spins? <==> !HasRoom(h, size) && size > PAGE_SIZE && FollowsFree(h, old(cursor))
      ensures r.Allocated? ==>
                && r.page in h'.live
                && var k := h'.live[r.page];
                && size <= k * PAGE_SIZE < size + PAGE_SIZE
                && FreeRun(h, r.page, k) && h' == Heap(h.free - Pages(r.page, k), h.live[r.page := k])
                && cursor == (r.page + k) % pages
      ensures !r.Allocated? ==> h' == h && cursor == old(cursor)
      ensures !r.Spins? ==> Valid(h')
    {
      hide Represents, Remains, Size, Free, Fits, Header, FreeRun, Walkable, NothingFits, FollowsFree, Coalesced, Pages;
      var k := (size + PAGE_SIZE - 1) / PAGE_SIZE;
      RoomInPages(h, size, k);
      h' := h;
      WalkStarts(sizes[..], pages, starts, h, k);
      var found := Scan(k, budget, h, starts);
      if found == BackAtCursor && k > 1 {
        ghost var s0, starts0 := sizes[..], starts;
        var changed := CompactBigHeap(h);
        if !changed {
          NoRun(sizes[..], pages, starts, h, k);
          return NoMemory, h;
        }
        WalkStale(s0, starts0, sizes[..], starts, pages, h, k);
        found := Scan(k, budget, h, starts0);
      }
      match found
      case Found(i) =>
        FittingBlockIsRun(sizes[..], pages, starts, h, i, k);
        Carve(i, k, h);
        h' := Heap(h.free - Pages(i, k), h.live[i := k]);
        r := Allocated(i);
      case BackAtCursor =>
        NoRun(sizes[..], pages, starts, h, k);
        r := NoMemory;
      case OutOfSteps =>
        NoRun(sizes[..], pages, starts, h, k);
        r := Spins;
    }

    /** Frees the run that starts at a page. A page at which no live run starts is left alone if and
        only if it is outside the heap or its header has ever been written; otherwise its empty
        header is marked free, the cursor moves to it, and the heap is in order no longer. */
    method FreeBig(page: int, ghost h: Heap) returns (ghost h': Heap)
      requires Valid(h)
      modifies `cursor, sizes
      ensures h' == if page in h.live then Heap(h.free + Pages(page, h.live[page]), h.live - {page}) else h
      ensures page in h.live ==> Valid(h') && cursor == page
      ensures var same := sizes[..] == old(sizes[..]) && cursor == old(cursor);
              page !in h.live ==>
                && (same <==> page < 0 || page >= pages || old(sizes[..])[page] != 0)
                && (same <==> Valid(h'))
                && (!same ==> cursor == page && sizes[..] == old(sizes[..])[page := FREE_CHUNK])
    {
      hide Represents, Size, Header, Pages;
      h' := h;
      OnlyUsedBlocksAreLive(sizes[..], pages, starts, h, page);
      if page < 0 || page >= pages || Free(sizes[page]) {
        return;
      }
      ghost var s := sizes[..];
      if page in starts {
        FreeRepresents(s, pages, starts, h, page);
        h' := Heap(h.free + Pages(page, h.live[page]), h.live - {page});
      }
      sizes[page] := sizes[page] + FREE_CHUNK;
      assert sizes[..] == s[page := s[page] + FREE_CHUNK];
      cursor := page;
    }
  }

  lemma NextCursor(i: nat, n: nat)
    requires 0 < n && i <= n
    ensures i % n == if i == n then 0 else i
  {
  }

  datatype AllocResult = Allocated(page: nat) | NoMemory | Spins

  /** Somewhere there are free pages in a row with room for so many bytes. */
  ghost predicate HasRoom(h: Heap, size: nat) {
    exists a, k: nat :: FreeRun(h, a, k) && size <= k * PAGE_SIZE
  }

  /** It is enough to look for the least number of pages that has room. */
  lemma RoomInPages(h: Heap, size: nat, k: nat)
    requires 0 < size && size <= k * PAGE_SIZE < size + PAGE_SIZE
    ensures HasRoom(h, size) <==> exists a :: FreeRun(h, a, k)
  {
    if HasRoom(h, size) {
      var a, more: nat :| FreeRun(h, a, more) && size <= more * PAGE_SIZE;
      assert FreeRun(h, a, k);
    }
  }

  /** What has been allocated for two requests has no byte in common, lies inside the heap, and has no
      byte in a free page. */
  lemma LiveBytesApart(s: seq<int>, n: nat, starts: set<int>, h: Heap, a: int, sizeA: nat, b: int, sizeB: nat)
    requires Represents(s, n, starts, h) && a in h.live && b in h.live && a != b
    requires sizeA <= h.live[a] * PAGE_SIZE && sizeB <= h.live[b] * PAGE_SIZE
    ensures a * PAGE_SIZE + sizeA <= b * PAGE_SIZE || b * PAGE_SIZE + sizeB <= a * PAGE_SIZE
    ensures 0 <= a * PAGE_SIZE && a * PAGE_SIZE + sizeA <= n * PAGE_SIZE
    ensures forall q :: q in h.free ==> (q + 1) * PAGE_SIZE <= a * PAGE_SIZE || a * PAGE_SIZE + sizeA <= q * PAGE_SIZE
  {
    hide Represents;
    LiveRunsDisjoint(s, n, starts, h);
    LiveRunInside(s, n, starts, h, a);
  }

  lemma LiveRunInside(s: seq<int>, n: nat, starts: set<int>, h: Heap, a: int)
    requires Represents(s, n, starts, h) && a in h.live
    ensures 0 <= a < a + h.live[a] <= n
  {
  }

  function Carved(s: seq<int>, i: nat, k: nat): (r: seq<int>)
    requires i < |s|
    ensures |r| == |s|
  {
    var t := if s[i] != k + FREE_CHUNK && i + k < |s| then s[i + k := s[i] - k] else s;
    t[i := k]
  }

  datatype ScanResult = Found(page: nat) | BackAtCursor | OutOfSteps

  ghost predicate NothingFits(s: seq<int>, n: nat, starts: set<int>, k: int)
    requires n <= |s|
  {
    forall p :: p in starts && 0 <= p < n ==> !Fits(s[p], k)
  }

  /** From every header in walk the next one is in walk too, no block starts in between, and the
      headers that are not block starts describe nothing that is big enough. */
  ghost predicate Walkable(s: seq<int>, n: nat, starts: set<int>, walk: set<int>, k: int)
    requires n <= |s|
  {
    && starts <= walk && n in starts && 0 in starts
    && (forall p :: p in walk && p < n ==> 0 <= p < p + Size(s[p]) <= n && p + Size(s[p]) in walk)
    && (forall p :: p in starts && 0 <= p < n ==> p + Size(s[p]) in starts)
    && (forall p, q :: p in walk && p < n && q in starts && p < q ==> p + Size(s[p]) <= q)
    && (forall p :: p in walk && 0 <= p < n && p !in starts ==> !Fits(s[p], k))
  }

  predicate Visited(cursor: int, i: int, laps: nat, p: int) {
    if laps == 0 then cursor <= p < i else if laps == 1 then p < i || cursor <= p else true
  }

  /** What a scan has ruled out after so many wraps past the end of the heap. */
  ghost predicate ScanInvariant(s: seq<int>, n: nat, starts: set<int>, k: int, cursor: int, i: int, laps: nat)
    requires n <= |s|
  {
    && (forall p :: p in starts && 0 <= p < n && Visited(cursor, i, laps, p) ==> !Fits(s[p], k))
    && (laps == 0 ==> cursor <= i)
    && (laps >= 1 ==> i in starts)
    && (laps == 1 && cursor in starts ==> i < cursor)
    && (laps >= 2 ==> cursor !in starts)
  }

  /** The walk goes on to the next header, and after the last one from the start. */
  lemma NextHeader(s: seq<int>, n: nat, starts: set<int>, walk: set<int>, k: int, cursor: int, i: int, laps: nat)
    requires 0 <= cursor < n <= |s| && Walkable(s, n, starts, walk, k) && i in walk && 0 <= i < n
    requires ScanInvariant(s, n, starts, k, cursor, i, laps) && !Fits(s[i], k)
    ensures var next := i + Size(s[i]);
            && i < next <= n
            && var i' := if next == n then 0 else next;
            && var laps' := if next == n then laps + 1 else laps;
            && next % n == i' && i' in walk
            && if i' == cursor then cursor in starts && NothingFits(s, n, starts, k)
               else ScanInvariant(s, n, starts, k, cursor, i', laps')
  {
    hide Size, Fits, Walkable, ScanInvariant, NothingFits;
    NextInWalk(s, n, starts, walk, k, i);
    var next := i + Size(s[i]);
    NextCursor(next, n);
    if next == n {
      NextLap(s, n, starts, walk, k, cursor, i, laps);
    } else {
      SameLap(s, n, starts, walk, k, cursor, i, laps);
    }
  }

  lemma SameLap(s: seq<int>, n: nat, starts: set<int>, walk: set<int>, k: int, cursor: int, i: int, laps: nat)
    requires 0 <= cursor < n <= |s| && Walkable(s, n, starts, walk, k) && i in walk && 0 <= i < n
    requires ScanInvariant(s, n, starts, k, cursor, i, laps) && !Fits(s[i], k) && i + Size(s[i]) < n
    ensures var next := i + Size(s[i]);
            if next == cursor then cursor in starts && NothingFits(s, n, starts, k)
            else ScanInvariant(s, n, starts, k, cursor, next, laps)
  {
    hide Size, Fits, Walkable;
    NextInWalk(s, n, starts, walk, k, i);
  }

  lemma NextLap(s: seq<int>, n: nat, starts: set<int>, walk: set<int>, k: int, cursor: int, i: int, laps: nat)
    requires 0 <= cursor < n <= |s| && Walkable(s, n, starts, walk, k) && i in walk && 0 <= i < n
    requires ScanInvariant(s, n, starts, k, cursor, i, laps) && !Fits(s[i], k) && i + Size(s[i]) == n
    ensures if 0 == cursor then cursor in starts && NothingFits(s, n, starts, k)
            else ScanInvariant(s, n, starts, k, cursor, 0, laps + 1)
  {
    hide Size, Fits, Walkable;
    NextInWalk(s, n, starts, walk, k, i);
  }

  lemma NextInWalk(s: seq<int>, n: nat, starts: set<int>, walk: set<int>, k: int, i: int)
    requires n <= |s| && Walkable(s, n, starts, walk, k) && i in walk && 0 <= i < n
    ensures var next := i + Size(s[i]);
            && i < next <= n && next in walk && 0 in walk && 0 in starts && n in starts
            && (i in starts ==> next in starts)
            && forall q :: q in starts && i < q ==> next <= q
  {
  }

  lemma HeapEnds(s: seq<int>, n: nat, starts: set<int>, h: Heap)
    requires Represents(s, n, starts, h)
    ensures 0 < n <= |s| && 0 in starts && n in starts
  {
  }

  lemma Leftovers(s0: seq<int>, starts0: set<int>, s: seq<int>, starts: set<int>, n: nat, h: Heap)
    requires Represents(s, n, starts, h) && Trail(s0, starts0, s, starts, n, h, n)
    ensures starts <= starts0 && (starts == starts0 ==> s == s0)
    ensures Coalesced(s, n, starts)
    ensures forall p :: p in starts0 && p !in starts ==> FollowsFree(h, p) && s[p] == s0[p]
    ensures forall p :: p in starts && p < n ==> !FollowsFree(h, p)
  {
    forall p | p in starts && 0 < p < n ensures !FollowsFree(h, p) {
      var r := BlockOf(s, n, starts, p - 1, 0);
      assert r + Size(s[r]) in starts && r + Size(s[r]) == p;
      assert Free(s[r]) ==> !Free(s[p]);
    }
  }

  // ---------------------------------------------------------------- allocating and freeing

  lemma CarveTiling(s: seq<int>, n: nat, starts: set<int>, i: nat, k: nat)
    requires Tiling(s, n, starts) && n <= HEAP_PAGES == |s|
    requires i in starts && i < n && Fits(s[i], k) && 0 < k
    ensures i + k <= n && Tiling(Carved(s, i, k), n, starts + {i + k})
    ensures Size(Carved(s, i, k)[i]) == k && !Free(Carved(s, i, k)[i])
    ensures if s[i] == k + FREE_CHUNK then Size(s[i]) == k && i + k in starts
            else i + k < n && i + k !in starts && Free(Carved(s, i, k)[i + k])
                 && Size(Carved(s, i, k)[i + k]) == Size(s[i]) - k
  {
    hide Size, Free, Fits, Header, Carved;
    BlockFits(s, n, starts, i, k);
    RestHeader(s[i], k);
    CarvedAt(s, i, k);
    var t, starts1 := Carved(s, i, k), starts + {i + k};
    forall p | p in starts1 && p < n
      ensures Header(t[p]) && 0 < Size(t[p]) && p + Size(t[p]) in starts1
      ensures forall q :: q in starts1 && p < q ==> p + Size(t[p]) <= q
    {
      if p in starts {
        Block(s, n, starts, p);
      }
    }
  }

  lemma BlockFits(s: seq<int>, n: nat, starts: set<int>, i: nat, k: nat)
    requires Tiling(s, n, starts) && i in starts && i < n && Fits(s[i], k)
    ensures k <= Size(s[i]) && Header(s[i]) && i + Size(s[i]) <= n && i + Size(s[i]) in starts
    ensures forall q :: q in starts && i < q ==> i + Size(s[i]) <= q
  {
    Block(s, n, starts, i);
  }

  lemma CarveRemains(s: seq<int>, n: nat, starts: set<int>, i: nat, k: nat)
    requires Remains(s, n, starts) && i in starts && i < |s| && 0 < k
    ensures Remains(Carved(s, i, k), n, starts + {i + k})
  {
    hide Free, Carved;
    CarvedAt(s, i, k);
  }

  lemma AbsorbRemains(s: seq<int>, n: nat, starts: set<int>, i: nat, j: nat, header: int)
    requires Remains(s, n, starts) && i in starts && i < |s| && j < |s| && Free(s[j]) && i != j
    ensures Remains(s[i := header], n, starts - {j})
  {
    hide Free;
  }

  lemma RestHeader(header: int, k: nat)
    requires Header(header) && Fits(header, k) && 0 < k < FREE_CHUNK
    ensures header == k + FREE_CHUNK <==> Size(header) == k
    ensures Header(k) && !Free(k) && Size(k) == k
    ensures Header(header - k) && Free(header - k) && Size(header - k) == Size(header) - k
  {
  }

  lemma CarveRepresents(s: seq<int>, n: nat, starts: set<int>, h: Heap, i: nat, k: nat)
    requires Represents(s, n, starts, h) && n <= HEAP_PAGES == |s|
    requires i in starts && i < n && Fits(s[i], k) && 0 < k
    ensures i + k <= n && (s[i] == k + FREE_CHUNK || i + k < n)
    ensures Represents(Carved(s, i, k), n, starts + {i + k}, Heap(h.free - Pages(i, k), h.live[i := k]))
  {
    hide Size, Free, Header, Fits, Carved, Tiling;
    Represented(s, n, starts, h);
    CarveTiling(s, n, starts, i, k);
    var t := Carved(s, i, k);
    TilingRange(t, n, starts + {i + k});
    forall p, q | p in starts + {i + k} && p < n && p <= q < p + Size(t[p])
      ensures q in h.free - Pages(i, k) <==> Free(t[p])
    {
      CarvePage(s, n, starts, h, i, k, p, q);
    }
    CarveLive(s, n, starts, h, i, k);
  }

  lemma CarveLive(s: seq<int>, n: nat, starts: set<int>, h: Heap, i: nat, k: nat)
    requires Represents(s, n, starts, h) && n <= HEAP_PAGES == |s|
    requires i in starts && i < n && Fits(s[i], k) && 0 < k && i + k <= n
    ensures var t, live := Carved(s, i, k), h.live[i := k];
            && (forall p :: p in live <==> p in starts + {i + k} && p < n && !Free(t[p]))
            && (forall p :: p in live ==> live[p] == Size(t[p]))
  {
    hide Size, Free, Header, Fits, Carved, Tiling;
    Represented(s, n, starts, h);
    CarveTiling(s, n, starts, i, k);
    TilingRange(Carved(s, i, k), n, starts + {i + k});
    var t := Carved(s, i, k);
    forall p | p in starts && p < n && p != i ensures t[p] == s[p] {
      CarveOther(s, n, starts, i, k, p);
    }
    CarvedAt(s, i, k);
  }

  lemma CarveOther(s: seq<int>, n: nat, starts: set<int>, i: nat, k: nat, p: int)
    requires Tiling(s, n, starts) && n <= HEAP_PAGES == |s|
    requires i in starts && i < n && Fits(s[i], k) && 0 < k
    requires p in starts && p < n && p != i
    ensures 0 <= p && Carved(s, i, k)[p] == s[p] && (p + Size(s[p]) <= i || i + Size(s[i]) <= p)
  {
    hide Size, Free, Header, Fits, Carved;
    Block(s, n, starts, i);
    Block(s, n, starts, p);
    CarveTiling(s, n, starts, i, k);
    CarvedAt(s, i, k);
  }

  lemma CarvePage(s: seq<int>, n: nat, starts: set<int>, h: Heap, i: nat, k: nat, p: int, q: int)
    requires Represents(s, n, starts, h) && n <= HEAP_PAGES == |s|
    requires i in starts && i < n && Fits(s[i], k) && 0 < k
    requires p in starts + {i + k} && 0 <= p < n && p <= q < p + Size(Carved(s, i, k)[p])
    ensures q in h.free - Pages(i, k) <==> Free(Carved(s, i, k)[p])
  {
    hide Size, Header, Carved, Tiling;
    Represented(s, n, starts, h);
    CarveTiling(s, n, starts, i, k);
    BlockFits(s, n, starts, i, k);
    if p in starts && p != i {
      CarveOther(s, n, starts, i, k, p);
    } else {
      assert i <= q < i + Size(s[i]);
    }
  }

  lemma CarvedAt(s: seq<int>, i: nat, k: nat)
    requires i < |s| && 0 < k
    ensures forall p :: 0 <= p < |s| && p != i && p != i + k ==> Carved(s, i, k)[p] == s[p]
    ensures Carved(s, i, k)[i] == k
    ensures i + k < |s| ==> Carved(s, i, k)[i + k] == if s[i] == k + FREE_CHUNK then s[i + k] else s[i] - k
  {
  }

  lemma Represented(s: seq<int>, n: nat, starts: set<int>, h: Heap)
    requires Represents(s, n, starts, h)
    ensures Tiling(s, n, starts)
  {
  }

  lemma TilingRange(s: seq<int>, n: nat, starts: set<int>)
    requires Tiling(s, n, starts)
    ensures forall p :: p in starts ==> 0 <= p <= n
  {
  }

  lemma OnlyUsedBlocksAreLive(s: seq<int>, n: nat, starts: set<int>, h: Heap, p: int)
    requires Represents(s, n, starts, h)
    ensures p in h.live <==> p in starts && p < n && !Free(s[p])
    ensures p in h.live ==> 0 <= p
    ensures 0 < n
  {
  }

  lemma FreeRepresents(s: seq<int>, n: nat, starts: set<int>, h: Heap, p: int)
    requires Represents(s, n, starts, h) && p in starts && p < n && !Free(s[p])
    ensures p in h.live && h.live[p] >= 0
    ensures Represents(s[p := s[p] + FREE_CHUNK], n, starts, Heap(h.free + Pages(p, h.live[p]), h.live - {p}))
  {
    hide Size, Free, Header, Pages, Tiling;
    Represented(s, n, starts, h);
    TilingRange(s, n, starts);
    FreedTiling(s, n, starts, p);
    FreedHeader(s[p]);
    var t := s[p := s[p] + FREE_CHUNK];
    forall r, q | r in starts && r < n && r <= q < r + Size(t[r])
        ensures q in h.free + Pages(p, h.live[p]) <==> Free(t[r]) {
      Block(s, n, starts, r);
      Block(s, n, starts, p);
    }
  }

  lemma FreedTiling(s: seq<int>, n: nat, starts: set<int>, p: int)
    requires Tiling(s, n, starts) && p in starts && 0 <= p < n && !Free(s[p])
    ensures Tiling(s[p := s[p] + FREE_CHUNK], n, starts)
  {
    hide Size, Free, Header;
    FreedHeader(s[p]);
  }

  lemma FreedHeader(header: int)
    requires !Free(header)
    ensures Size(header + FREE_CHUNK) == Size(header)
    ensures Header(header) ==> Free(header + FREE_CHUNK) && Header(header + FREE_CHUNK)
  {
  }

  lemma WalkStarts(s: seq<int>, n: nat, starts: set<int>, h: Heap, k: int)
    requires Represents(s, n, starts, h)
    ensures Walkable(s, n, starts, starts, k)
  {
    forall p | p in starts && p < n
      ensures 0 <= p < p + Size(s[p]) <= n && p + Size(s[p]) in starts
      ensures forall q :: q in starts && p < q ==> p + Size(s[p]) <= q
    {
      Block(s, n, starts, p);
    }
  }

  /** After compaction the old headers still lead on to block starts, and none of them is big enough
      since none was before. */
  lemma WalkStale(s0: seq<int>, starts0: set<int>, s: seq<int>, starts: set<int>, n: nat, h: Heap, k: int)
    requires Represents(s0, n, starts0, h) && Represents(s, n, starts, h) && starts <= starts0
    requires forall p :: p in starts0 && p !in starts ==> s[p] == s0[p]
    requires NothingFits(s0, n, starts0, k)
    ensures Walkable(s, n, starts, starts0, k)
  {
    WalkStarts(s0, n, starts0, h, k);
    WalkStarts(s, n, starts, h, k);
    hide Size, Fits, Represents;
  }

  lemma NoRun(s: seq<int>, n: nat, starts: set<int>, h: Heap, k: int)
    requires Represents(s, n, starts, h) && NothingFits(s, n, starts, k) && 0 < k
    requires Coalesced(s, n, starts) || k == 1
    ensures forall a :: !FreeRun(h, a, k)
  {
    forall a ensures !FreeRun(h, a, k) {
      if FreeRun(h, a, k) {
        var p := RunFits(s, n, starts, h, a, k);
      }
    }
  }

  // ---------------------------------------------------------------- a call that never returns

  lemma {:induction false} PagesCount(p: int, n: nat)
    ensures |Pages(p, n)| == n
  {
    if n > 0 {
      PagesCount(p, n - 1);
    }
  }

  lemma OnePage(p: int)
    ensures Pages(p, 1) == {p}
  {
  }

  /** Every page has been allocated by itself. */
  ghost predicate SinglePages(h: Heap) {
    forall a :: a in h.live ==> h.live[a] == 1
  }

  lemma SomeRun(h: Heap)
    requires h.free != {}
    ensures exists a :: FreeRun(h, a, 1)
  {
    assert (forall a :: a !in h.free) ==> h.free == {};
    var a :| a in h.free;
    assert FreeRun(h, a, 1);
  }

  lemma LivePage(s: seq<int>, n: nat, starts: set<int>, h: Heap, q: int)
    requires Represents(s, n, starts, h) && SinglePages(h) && 0 <= q < n && q !in h.free
    ensures q in h.live
  {
    LiveRunsDisjoint(s, n, starts, h);
    var a :| a in h.live && a <= q < a + h.live[a];
  }

  lemma TwoFreePages(h: Heap)
    requires h.free == {0, 1}
    ensures FollowsFree(h, 1) && forall a :: !FreeRun(h, a, 3)
  {
    forall a ensures !FreeRun(h, a, 3) {
      assert a + 2 !in h.free || a !in h.free;
    }
  }

  method AllocOnePage(heap: BigHeap, ghost h: Heap) returns (ghost h': Heap)
    requires heap.Valid(h) && SinglePages(h) && h.free != {}
    modifies heap, heap.sizes
    ensures heap.Valid(h') && SinglePages(h') && |h'.free| == |h.free| - 1
  {
    hide BigHeap.Valid, FreeRun;
    SomeRun(h);
    RoomInPages(h, PAGE_SIZE, 1);
    var r;
    r, h' := heap.AllocBig(PAGE_SIZE, 2 * heap.pages, h);
    OnePage(r.page);
    RunIsFree(h, r.page);
  }

  lemma RunIsFree(h: Heap, p: int)
    requires FreeRun(h, p, 1)
    ensures p in h.free
  {
  }

  /** A request of three pages that never returns: all pages are allocated one by one, and then page 0
      and page 1 are freed. */
  method SpinningHeap() returns (r: AllocResult)
    ensures r.Spins?
  {
    hide Represents, Remains, Tiling, FreeRun, FollowsFree, Pages, SinglePages;
    var heap := new BigHeap(true);
    ghost var h := Heap(Pages(0, HEAP_PAGES), map[]);
    PagesCount(0, HEAP_PAGES);
    assert SinglePages(h) by { NoLiveRun(h); }
    for i := 0 to HEAP_PAGES
      invariant heap.Valid(h) && SinglePages(h) && |h.free| == HEAP_PAGES - i
      invariant heap.pages == HEAP_PAGES && fresh(heap) && fresh(heap.sizes)
    {
      h := AllocOnePage(heap, h);
    }
    FreeTwoPages(heap, h);
    ghost var h1 := heap.FreeBig(0, h);
    ghost var h2 := heap.FreeBig(1, h1);
    assert h2.free == {0, 1} by {
      OnePage(0);
      OnePage(1);
    }
    TwoFreePages(h2);
    RoomInPages(h2, 3 * PAGE_SIZE, 3);
    ghost var h3;
    r, h3 := heap.AllocBig(3 * PAGE_SIZE, 2 * HEAP_PAGES, h2);
  }

  /** A page of a new heap is freed although no run starts there: its header becomes that of a free run
      of no pages, to which the cursor now points. */
  method StrayFree() returns (heap: BigHeap, ghost h: Heap)
    ensures 1 !in h.live && heap.sizes.Length > 1 && heap.sizes[1] == FREE_CHUNK && heap.cursor == 1 && !heap.Valid(h)
  {
    hide Represents, Remains, Pages;
    heap := new BigHeap(true);
    h := Heap(Pages(0, HEAP_PAGES), map[]);
    h := heap.FreeBig(1, h);
  }

  lemma NoLiveRun(h: Heap)
    requires h.live == map[]
    ensures SinglePages(h)
  {
  }

  lemma FreeTwoPages(heap: BigHeap, h: Heap)
    requires heap.Valid(h) && SinglePages(h) && h.free == {} && heap.pages == HEAP_PAGES
    ensures 0 in h.live && 1 in h.live && h.live[0] == 1 && h.live[1] == 1
  {
    hide Represents;
    LivePage(heap.sizes[..], heap.pages, heap.starts, h, 0);
    LivePage(heap.sizes[..], heap.pages, heap.starts, h, 1);
  }
}
