/** The chunks inside one page of the crash driver's emergency heap. Every chunk carries its size
    in its first and in its last word; the first word also says whether it is free. Sizes here
    are in 32-bit words, the driver's are the same sizes in bytes. */
module SubHeap {
  import opened Basics

  const WORD: nat := 4
  const SPLIT_SLACK: int := 64 / WORD    // a chunk is split when more than 64 bytes are left

  datatype Chunk = Chunk(size: int, free: bool)

  function Head(c: Chunk): int {
    if c.free then c.size + FREE_CHUNK else c.size
  }

  function Total(cs: seq<Chunk>): int {
    if cs == [] then 0 else cs[0].size + Total(cs[1..])
  }

  function FreeWords(cs: seq<Chunk>): int {
    if cs == [] then 0 else (if cs[0].free then cs[0].size else 0) + FreeWords(cs[1..])
  }

  /** The chunks lie end to end in the words lo..hi, each with its size at both ends. */
  ghost predicate Encodes(h: seq<int>, lo: int, cs: seq<Chunk>, hi: int)
    decreases |cs|
  {
    if cs == [] then 0 <= lo == hi <= |h|
    else
      && 0 <= lo && 2 <= cs[0].size < FREE_CHUNK && lo + cs[0].size <= |h|
      && h[lo] == Head(cs[0]) && h[lo + cs[0].size - 1] == cs[0].size
      && Encodes(h, lo + cs[0].size, cs[1..], hi)
  }

  ghost predicate NoAdjacentFree(cs: seq<Chunk>) {
    forall i :: 0 <= i < |cs| - 1 ==> !(cs[i].free && cs[i + 1].free)
  }

  /** Where chunk k starts. */
  function Offset(cs: seq<Chunk>, k: nat): int
    requires k <= |cs|
  {
    Total(cs[..k])
  }

  lemma {:induction false} TotalConcat(a: seq<Chunk>, b: seq<Chunk>)
    ensures Total(a + b) == Total(a) + Total(b)
    ensures FreeWords(a + b) == FreeWords(a) + FreeWords(b)
  {
    if a == [] {
      assert a + b == b;
    } else {
      assert (a + b)[1..] == a[1..] + b;
      TotalConcat(a[1..], b);
    }
  }

  lemma {:induction false} EncodesRange(h: seq<int>, lo: int, cs: seq<Chunk>, hi: int)
    requires Encodes(h, lo, cs, hi)
    ensures 0 <= lo <= hi <= |h| && hi == lo + Total(cs)
    decreases |cs|
  {
    if cs != [] {
      EncodesRange(h, lo + cs[0].size, cs[1..], hi);
    }
  }

  lemma {:induction false} EncodesConcat(h: seq<int>, lo: int, a: seq<Chunk>, b: seq<Chunk>, hi: int)
    ensures Encodes(h, lo, a + b, hi) <==> Encodes(h, lo, a, lo + Total(a)) && Encodes(h, lo + Total(a), b, hi)
    decreases |a|
  {
    if a == [] {
      assert a + b == b;
      if Encodes(h, lo, b, hi) {
        EncodesRange(h, lo, b, hi);
      }
    } else {
      assert (a + b)[1..] == a[1..] + b;
      EncodesConcat(h, lo + a[0].size, a[1..], b, hi);
    }
  }

  lemma {:induction false} EncodesFrame(h: seq<int>, h': seq<int>, lo: int, cs: seq<Chunk>, hi: int)
    requires Encodes(h, lo, cs, hi) && |h'| == |h|
    requires forall i :: lo <= i < hi && 0 <= i < |h| ==> h'[i] == h[i]
    ensures Encodes(h', lo, cs, hi)
    decreases |cs|
  {
    EncodesRange(h, lo, cs, hi);
    if cs != [] {
      EncodesRange(h, lo + cs[0].size, cs[1..], hi);
      EncodesFrame(h, h', lo + cs[0].size, cs[1..], hi);
    }
  }

  /** Chunk k, seen from the words. */
  lemma EncodesAt(h: seq<int>, cs: seq<Chunk>, hi: int, k: nat)
    requires Encodes(h, 0, cs, hi) && k < |cs|
    ensures var p := Offset(cs, k);
            && 0 <= p && 2 <= cs[k].size < FREE_CHUNK && p + cs[k].size == Offset(cs, k + 1) <= hi <= |h|
            && h[p] == Head(cs[k]) && h[p + cs[k].size - 1] == cs[k].size
            && Encodes(h, 0, cs[..k], p) && Encodes(h, p + cs[k].size, cs[k + 1..], hi)
  {
    var p := Offset(cs, k);
    assert cs == cs[..k] + cs[k..];
    EncodesConcat(h, 0, cs[..k], cs[k..], hi);
    assert cs[k..][1..] == cs[k + 1..];
    assert cs[..k + 1] == cs[..k] + [cs[k]];
    TotalConcat(cs[..k], [cs[k]]);
    assert Total([cs[k]]) == cs[k].size by { assert [cs[k]][1..] == []; }
    EncodesRange(h, p + cs[k].size, cs[k + 1..], hi);
  }

  /** Replacing a stretch of chunks by others over the same words leaves the rest encoded. */
  lemma Replace(h: seq<int>, h': seq<int>, a: seq<Chunk>, b: seq<Chunk>, b': seq<Chunk>, c: seq<Chunk>, hi: int)
    requires Encodes(h, 0, a + b + c, hi) && |h'| == |h| && Total(b') == Total(b)
    requires var lo := Total(a); var mid := lo + Total(b);
             && (forall i :: 0 <= i < |h| && (i < lo || mid <= i) ==> h'[i] == h[i])
             && Encodes(h', lo, b', mid)
    ensures Encodes(h', 0, a + b' + c, hi)
  {
    hide Total, FreeWords, Encodes;
    var lo := Total(a);
    var mid := lo + Total(b);
    TotalConcat(a, b);
    TotalConcat(a, b');
    EncodesConcat(h, 0, a + b, c, hi);
    EncodesConcat(h, 0, a, b, mid);
    EncodesFrame(h, h', 0, a, lo);
    EncodesRange(h, mid, c, hi);
    EncodesFrame(h, h', mid, c, hi);
    EncodesConcat(h', 0, a, b', mid);
    EncodesConcat(h', 0, a + b', c, hi);
  }

  // ---------------------------------------------------------------- the abstract operations

  predicate Fits(c: Chunk, size: int) {
    c.free && size <= c.size
  }

  /** The first free chunk that is big enough, or the number of chunks. */
  function FirstFit(cs: seq<Chunk>, size: int): (k: nat)
    ensures k <= |cs| && (k < |cs| ==> Fits(cs[k], size))
    ensures forall j :: 0 <= j < k ==> !Fits(cs[j], size)
  {
    if cs == [] || Fits(cs[0], size) then 0 else 1 + FirstFit(cs[1..], size)
  }

  /** What an allocation from free chunk k leaves in its place. */
  function Split(c: Chunk, size: int): seq<Chunk> {
    if c.size > size + SPLIT_SLACK then [Chunk(size, false), Chunk(c.size - size, true)] else [Chunk(c.size, false)]
  }

  function Take(cs: seq<Chunk>, k: nat, size: int): seq<Chunk>
    requires k < |cs|
  {
    cs[..k] + Split(cs[k], size) + cs[k + 1..]
  }

  /** First of the chunks that end up in one when chunk k is freed, and the first after them. */
  function JoinFrom(cs: seq<Chunk>, k: nat): (from: nat)
    requires k < |cs|
    ensures from <= k
  {
    if k > 0 && cs[k - 1].free then k - 1 else k
  }

  function JoinTo(cs: seq<Chunk>, k: nat): (to: nat)
    requires k < |cs|
    ensures k < to <= |cs|
  {
    if k + 1 < |cs| && cs[k + 1].free then k + 2 else k + 1
  }

  function Release(cs: seq<Chunk>, k: nat): seq<Chunk>
    requires k < |cs|
  {
    var from, to := JoinFrom(cs, k), JoinTo(cs, k);
    cs[..from] + [Chunk(Total(cs[from..to]), true)] + cs[to..]
  }

  ghost predicate OnlyLive(cs: seq<Chunk>, k: nat) {
    forall j :: 0 <= j < |cs| && j != k ==> cs[j].free
  }

  ghost predicate Sizes(cs: seq<Chunk>) {
    forall j :: 0 <= j < |cs| ==> 2 <= cs[j].size < FREE_CHUNK
  }

  lemma {:induction false} EncodesSizes(h: seq<int>, lo: int, cs: seq<Chunk>, hi: int)
    requires Encodes(h, lo, cs, hi)
    ensures Sizes(cs)
    decreases |cs|
  {
    if cs != [] {
      EncodesSizes(h, lo + cs[0].size, cs[1..], hi);
      forall j | 0 <= j < |cs| ensures 2 <= cs[j].size < FREE_CHUNK {
        if j > 0 {
          assert cs[j] == cs[1..][j - 1];
        }
      }
    }
  }

  lemma {:induction false} FreeAtMostTotal(cs: seq<Chunk>)
    requires Sizes(cs)
    ensures 0 <= FreeWords(cs) <= Total(cs)
    ensures FreeWords(cs) == Total(cs) <==> forall j :: 0 <= j < |cs| ==> cs[j].free
  {
    if cs != [] {
      FreeAtMostTotal(cs[1..]);
      if forall j :: 0 <= j < |cs[1..]| ==> cs[1..][j].free {
        forall j | 0 < j < |cs| ensures cs[j].free {
          assert cs[j] == cs[1..][j - 1];
        }
      } else {
        var j :| 0 <= j < |cs[1..]| && !cs[1..][j].free;
        assert cs[j + 1] == cs[1..][j];
      }
    }
  }

  lemma SumAt(cs: seq<Chunk>, k: nat)
    requires k < |cs|
    ensures FreeWords(cs) == FreeWords(cs[..k]) + (if cs[k].free then cs[k].size else 0) + FreeWords(cs[k + 1..])
    ensures Total(cs) == Total(cs[..k]) + cs[k].size + Total(cs[k + 1..])
  {
    assert cs == cs[..k] + cs[k..];
    assert cs[k..][1..] == cs[k + 1..];
    TotalConcat(cs[..k], cs[k..]);
  }

  /** A page goes back to the page layer exactly when the chunk being freed is the only live one. */
  lemma AllFree(cs: seq<Chunk>, k: nat)
    requires Sizes(cs) && k < |cs| && !cs[k].free
    ensures FreeWords(cs) + cs[k].size == Total(cs) <==> OnlyLive(cs, k)
  {
    SumAt(cs, k);
    var a, b := cs[..k], cs[k + 1..];
    FreeAtMostTotal(a);
    FreeAtMostTotal(b);
    if OnlyLive(cs, k) {
      forall j | 0 <= j < |b| ensures b[j].free {
        assert b[j] == cs[k + 1 + j];
      }
    } else {
      var j :| 0 <= j < |cs| && j != k && !cs[j].free;
      assert if j < k then !a[j].free else !b[j - k - 1].free;
    }
  }

  lemma NoFitWhenLow(cs: seq<Chunk>, size: int)
    requires Sizes(cs) && FreeWords(cs) < size
    ensures FirstFit(cs, size) == |cs|
  {
    var k := FirstFit(cs, size);
    if k < |cs| {
      SumAt(cs, k);
      FreeAtMostTotal(cs[..k]);
      FreeAtMostTotal(cs[k + 1..]);
    }
  }

  lemma SplitSum(c: Chunk, size: int)
    ensures Total(Split(c, size)) == c.size
    ensures FreeWords(Split(c, size)) == c.size - Split(c, size)[0].size
  {
    if c.size > size + SPLIT_SLACK {
      var used, rest := Chunk(size, false), Chunk(c.size - size, true);
      assert Split(c, size) == [used] + [rest];
      TotalConcat([used], [rest]);
      One(used);
      One(rest);
    } else {
      One(Chunk(c.size, false));
    }
  }

  lemma ThreeParts(a: seq<Chunk>, b: seq<Chunk>, c: seq<Chunk>)
    ensures Total(a + b + c) == Total(a) + Total(b) + Total(c)
    ensures FreeWords(a + b + c) == FreeWords(a) + FreeWords(b) + FreeWords(c)
  {
    TotalConcat(a + b, c);
    TotalConcat(a, b);
  }

  lemma TakeFacts(cs: seq<Chunk>, k: nat, size: int)
    requires k < |cs| && Fits(cs[k], size)
    ensures Total(Split(cs[k], size)) == cs[k].size && Total(Take(cs, k, size)) == Total(cs)
    ensures FreeWords(Take(cs, k, size)) == FreeWords(cs) - Split(cs[k], size)[0].size
  {
    hide Total, FreeWords, Split;
    SumAt(cs, k);
    SplitSum(cs[k], size);
    ThreeParts(cs[..k], Split(cs[k], size), cs[k + 1..]);
  }

  /** An allocation has the size asked for, and at most 64 bytes more. */
  lemma TakeSize(cs: seq<Chunk>, k: nat, size: int)
    requires k < |cs| && Fits(cs[k], size)
    ensures k < |Take(cs, k, size)| && !Take(cs, k, size)[k].free
    ensures 4 * size <= 4 * Take(cs, k, size)[k].size <= 4 * size + 64
  {
  }

  lemma TakeKeepsApart(cs: seq<Chunk>, k: nat, size: int)
    requires k < |cs| && Fits(cs[k], size) && NoAdjacentFree(cs)
    ensures NoAdjacentFree(Take(cs, k, size))
  {
    var b, t := Split(cs[k], size), Take(cs, k, size);
    forall i | 0 <= i < |t| - 1 ensures !(t[i].free && t[i + 1].free) {
      if i >= k + |b| {
        assert t[i] == cs[i + 1 - |b|] && t[i + 1] == cs[i + 2 - |b|];
      } else if i + 1 >= k + |b| {
        assert t[i + 1] == cs[k + 1];
      }
    }
  }

  lemma ReleaseFacts(cs: seq<Chunk>, k: nat)
    requires k < |cs| && !cs[k].free
    ensures Total(Release(cs, k)) == Total(cs)
    ensures FreeWords(Release(cs, k)) == FreeWords(cs) + cs[k].size
  {
    hide Total, FreeWords;
    var from, to := JoinFrom(cs, k), JoinTo(cs, k);
    var a, b, c := cs[..from], cs[from..to], cs[to..];
    assert cs == a + b + c;
    ThreeParts(a, b, c);
    var joined := Chunk(Total(b), true);
    ThreeParts(a, [joined], c);
    One(joined);
    SumAt(b, k - from);
    Short(b[..k - from]);
    Short(b[k - from + 1..]);
  }

  lemma One(c: Chunk)
    ensures Total([c]) == c.size && FreeWords([c]) == if c.free then c.size else 0
  {
    assert [c][1..] == [];
  }

  lemma ReleaseKeepsApart(cs: seq<Chunk>, k: nat)
    requires k < |cs| && !cs[k].free && NoAdjacentFree(cs)
    ensures NoAdjacentFree(Release(cs, k))
  {
    var from, to, t := JoinFrom(cs, k), JoinTo(cs, k), Release(cs, k);
    forall i | 0 <= i < |t| - 1 ensures !(t[i].free && t[i + 1].free) {
      if i > from {
        assert t[i] == cs[i - from - 1 + to] && t[i + 1] == cs[i - from + to];
      } else if i == from {
        assert t[i + 1] == cs[to];
        assert to > k + 1 ==> cs[to - 1].free;
      } else if i + 1 == from {
        assert from < k ==> cs[from].free;
      }
    }
  }

  lemma Short(cs: seq<Chunk>)
    requires |cs| == 0 || (|cs| == 1 && cs[0].free)
    ensures FreeWords(cs) == Total(cs)
  {
  }

  /** Freeing an allocation undoes it, down to the last chunk boundary. */
  lemma FreeUndoesTake(cs: seq<Chunk>, k: nat, size: int)
    requires k < |cs| && Fits(cs[k], size) && NoAdjacentFree(cs)
    ensures Release(Take(cs, k, size), k) == cs
  {
    hide Total, FreeWords;
    var t, b := Take(cs, k, size), Split(cs[k], size);
    SplitSum(cs[k], size);
    assert t[..k] == cs[..k];
    assert t[k..JoinTo(t, k)] == b;
    assert t[k + |b|..] == cs[k + 1..];
    assert cs == cs[..k] + [cs[k]] + cs[k + 1..];
  }

  // ---------------------------------------------------------------- the page

  class SubHeap {
    const words: array<int>
    var free: int
    ghost var chunks: seq<Chunk>

    ghost predicate Valid()
      reads this, words
    {
      && 2 <= words.Length < FREE_CHUNK
      && Encodes(words[..], 0, chunks, words.Length)
      && free == FreeWords(chunks)
      && NoAdjacentFree(chunks)
    }

    constructor (n: nat)
      requires 2 <= n < FREE_CHUNK
      ensures Valid() && chunks == [Chunk(n, true)] && words.Length == n && fresh(words)
    {
      words := new int[n];
      free := n;
      chunks := [Chunk(n, true)];
      new;
      words[0] := n + FREE_CHUNK;
      words[n - 1] := n;
      assert chunks[1..] == [];
    }

    /** Carves an allocation of size words, tags included, out of the first chunk that is free and
        big enough. */
    method TrySmall(size: int) returns (r: Option<nat>)
      requires Valid() && 2 <= size
      modifies this, words
      ensures Valid()
      ensures var k := FirstFit(old(chunks), size);
              if k == |old(chunks)| then
                r == None && chunks == old(chunks) && words[..] == old(words[..])
              else
                && r == Some(Offset(old(chunks), k) + 1)
                && chunks == Take(old(chunks), k, size)
                && Outside(old(words[..]), words[..], Offset(old(chunks), k), Offset(old(chunks), k + 1))
    {
      hide Encodes, FreeWords, Take, Split, Total, NoAdjacentFree, Outside, Sizes;
      EncodesSizes(words[..], 0, chunks, words.Length);
      if free < size {
        NoFitWhenLow(chunks, size);
        return None;
      }
      var ptr, thisSize := 0, 0;
      ghost var k := 0;
      ghost var h := words[..];
      StartOffset(chunks);
      while ptr < words.Length
        invariant 0 <= k <= |chunks| && ptr == Offset(chunks, k) <= words.Length
        invariant words[..] == h && chunks == old(chunks) && Valid()
        invariant forall j :: 0 <= j < k ==> !Fits(chunks[j], size)
        decreases words.Length - ptr
      {
        Here(h, chunks, words.Length, k);
        var head := words[ptr];
        if head >= FREE_CHUNK {
          thisSize := head % FREE_CHUNK;
          if thisSize >= size {
            FirstFitIs(chunks, k, size);
            Place(ptr, thisSize, size, k);
            return Some(ptr + 1);
          }
        } else {
          thisSize := head;
        }
        assert words[ptr + thisSize - 1] == thisSize;   // checked by the driver
        ptr := ptr + thisSize;
        k := k + 1;
      }
      AtEnd(h, chunks, words.Length, k);
      FirstFitIs(chunks, k, size);
      r := None;
    }

    method Place(ptr: nat, thisSize: int, size: int, ghost k: nat)
      requires Valid() && 2 <= size && k < |chunks| && Fits(chunks[k], size)
      requires ptr == Offset(chunks, k) && thisSize == chunks[k].size
      modifies this, words
      ensures Valid() && chunks == Take(old(chunks), k, size)
      ensures Outside(old(words[..]), words[..], Offset(old(chunks), k), Offset(old(chunks), k + 1))
    {
      hide Encodes, FreeWords, Total, NoAdjacentFree, Take, Split, Outside;
      ghost var h, cs := words[..], chunks;
      EncodesAt(h, cs, words.Length, k);
      TakeFacts(cs, k, size);
      TakeKeepsApart(cs, k, size);
      var taken := WriteTags(ptr, thisSize, size);
      free := free - taken;
      Placed(h, words[..], cs, k, size);
      chunks := Take(cs, k, size);
      IsValid();
    }

    /** Writes the tags of an allocation, and of what is left of the chunk it comes from. */
    method WriteTags(ptr: nat, thisSize: int, size: int) returns (taken: int)
      requires 2 <= size <= thisSize < FREE_CHUNK && ptr + thisSize <= words.Length
               && words[ptr + thisSize - 1] == thisSize
      modifies words
      ensures var left := Split(Chunk(thisSize, true), size);
              Encodes(words[..], ptr, left, ptr + thisSize) && taken == left[0].size
      ensures Outside(old(words[..]), words[..], ptr, ptr + thisSize)
    {
      hide Encodes;
      if thisSize > size + SPLIT_SLACK {
        words[ptr] := size;
        words[ptr + size - 1] := size;
        words[ptr + size] := thisSize - size + FREE_CHUNK;
        words[ptr + thisSize - 1] := thisSize - size;
        taken := size;
        EncodesTwo(words[..], ptr, Chunk(size, false), Chunk(thisSize - size, true));
      } else {
        words[ptr] := thisSize;
        taken := thisSize;
        EncodesOne(words[..], ptr, Chunk(thisSize, false));
      }
    }

    /** The first half of a free: a chunk whose header is marked free is ignored, and the size in any
        other header is counted as free. */
    method CountFree(buffer: nat) returns (ignored: bool, size: int)
      requires 1 <= buffer <= words.Length
      modifies `free
      ensures ignored <==> words[buffer - 1] >= FREE_CHUNK
      ensures size == words[buffer - 1] && free == old(free) + if ignored then 0 else size
    {
      size := words[buffer - 1];
      ignored := size >= FREE_CHUNK;
      if !ignored {
        free := free + size;
      }
    }

    /** Frees the allocation at a payload address, joining it with free neighbours. Returns true when
        the page has no live chunk left, in which case the page is given back as it is. An
        address whose header is marked free is ignored, whatever it is. Afterwards the header of
        the freed chunk is marked free only if it was not joined to its left neighbour. */
    method FreeSmall(buffer: nat, ghost k: nat) returns (released: bool)
      requires Valid() && 1 <= buffer <= words.Length
      requires words[buffer - 1] >= FREE_CHUNK || (k < |chunks| && buffer == Offset(chunks, k) + 1 && !chunks[k].free)
      modifies this, words
      ensures var ignored := old(words[..])[buffer - 1] >= FREE_CHUNK;
        && (released <==> !ignored && OnlyLive(old(chunks), k))
        && (ignored || released ==> words[..] == old(words[..]) && chunks == old(chunks))
        && (ignored ==> Valid())
        && (released ==> free == words.Length)
        && (!ignored && !released ==>
              && Valid() && chunks == Release(old(chunks), k)
              && Outside(old(words[..]), words[..], Offset(old(chunks), JoinFrom(old(chunks), k)),
                         Offset(old(chunks), JoinTo(old(chunks), k)))
              && (words[buffer - 1] >= FREE_CHUNK <==> JoinFrom(old(chunks), k) == k)
              && words[buffer - 1] >= 2)
    {
      hide Encodes, FreeWords, Total, NoAdjacentFree, Outside, OnlyLive, Release, Sizes, JoinFrom, JoinTo;
      ghost var h, cs := words[..], chunks;
      var ignored, size := CountFree(buffer);
      if ignored {
        return false;
      }
      EncodesAt(h, cs, words.Length, k);
      EncodesSizes(h, 0, cs, words.Length);
      AllFree(cs, k);
      EncodesRange(h, 0, cs, words.Length);
      if free == words.Length {
        return true;
      }
      Coalesce(buffer - 1, size, k);
      released := false;
    }

    lemma CountAtMost()
      requires Valid()
      ensures 0 <= FreeWords(chunks) <= words.Length
    {
      EncodesSizes(words[..], 0, chunks, words.Length);
      EncodesRange(words[..], 0, chunks, words.Length);
      FreeAtMostTotal(chunks);
    }

    /** The header of a live chunk is not marked free. */
    lemma LiveHeader(k: nat)
      requires Valid() && k < |chunks| && !chunks[k].free
      ensures 0 <= Offset(chunks, k) < words.Length && 2 <= words[Offset(chunks, k)] == chunks[k].size < FREE_CHUNK
    {
      EncodesAt(words[..], chunks, words.Length, k);
    }

    /** A live chunk is freed twice. The second free is ignored, and the free count stays right, if and
        only if the first one neither joined the chunk to its left neighbour nor gave the page back.
        In the latter case the chunk is counted again at its own size, which makes more free
        words than there are words. */
    method FreeTwice(buffer: nat, ghost k: nat) returns (ignored: bool)
      requires Valid() && k < |chunks| && buffer == Offset(chunks, k) + 1 && !chunks[k].free
      modifies this, words
      ensures ignored <==> JoinFrom(old(chunks), k) == k && !OnlyLive(old(chunks), k)
      ensures chunks == if OnlyLive(old(chunks), k) then old(chunks) else Release(old(chunks), k)
      ensures (ignored <==> free == FreeWords(chunks)) && free >= FreeWords(chunks)
      ensures OnlyLive(old(chunks), k) ==> free == words.Length + old(chunks)[k].size
      ensures ignored <==> Valid()
    {
      hide Encodes, FreeWords, Total, NoAdjacentFree, Outside, OnlyLive, Release, JoinFrom, JoinTo;
      LiveHeader(k);
      CountAtMost();
      var released := FreeSmall(buffer, k);
      var size;
      ignored, size := CountFree(buffer);
    }

    method JoinRight(p: nat, size: int) returns (s: int)
      requires 2 <= size && p + size <= words.Length < FREE_CHUNK && words[p] == size == words[p + size - 1]
      requires p + size < words.Length && words[p + size] >= FREE_CHUNK ==>
                 size < (size + words[p + size]) % FREE_CHUNK
                     && p + (size + words[p + size]) % FREE_CHUNK <= words.Length
      modifies words
      ensures s == if p + size < words.Length && old(words[..])[p + size] >= FREE_CHUNK
                   then (size + old(words[..])[p + size]) % FREE_CHUNK else size
      ensures 2 <= s && p + s <= words.Length && words[p] == s == words[p + s - 1]
      ensures Outside(old(words[..]), words[..], p, p + s)
    {
      s := size;
      if p + s < words.Length && words[p + s] >= FREE_CHUNK {
        s := (s + words[p + s]) % FREE_CHUNK;
        words[p] := s;
        words[p + s - 1] := s;
      }
    }

    method JoinLeft(p0: nat, size: int) returns (p: nat, s: int)
      requires 2 <= size && p0 + size <= words.Length < FREE_CHUNK && words[p0] == size == words[p0 + size - 1]
      requires p0 > 0 ==> 2 <= words[p0 - 1] <= p0
      modifies words
      ensures if p0 > 0 && old(words[..])[p0 - old(words[..])[p0 - 1]] >= FREE_CHUNK
              then p == p0 - old(words[..])[p0 - 1] else p == p0
      ensures p + s == p0 + size && words[p] == s == words[p + s - 1]
      ensures p < p0 ==> words[p0] == size
      ensures Outside(old(words[..]), words[..], p, p + s)
    {
      p, s := p0, size;
      if p > 0 {
        var l := words[p - 1];
        if words[p - l] >= FREE_CHUNK {
          p, s := p - l, l + s;
          words[p] := s;
          words[p + s - 1] := s;
        }
      }
    }

    method Coalesce(ptr: nat, size: int, ghost k: nat)
      requires 2 <= words.Length < FREE_CHUNK && Encodes(words[..], 0, chunks, words.Length) && NoAdjacentFree(chunks)
      requires k < |chunks| && !chunks[k].free && free == FreeWords(chunks) + chunks[k].size
      requires ptr == Offset(chunks, k) && size == chunks[k].size
      modifies this, words
      ensures Valid() && chunks == Release(old(chunks), k)
      ensures Outside(old(words[..]), words[..], Offset(old(chunks), JoinFrom(old(chunks), k)),
                      Offset(old(chunks), JoinTo(old(chunks), k)))
      ensures ptr < words.Length && 2 <= words[ptr] && (words[ptr] >= FREE_CHUNK <==> JoinFrom(old(chunks), k) == k)
    {
      hide *;
      ghost var h, cs := words[..], chunks;
      JoinedLeft(h, cs, words.Length, k);
      ReleaseFacts(cs, k);
      ReleaseKeepsApart(cs, k);
      JoinChunk(ptr, size, k);
      chunks := Release(cs, k);
      Released(h, words[..], cs, k);
      IsValid();
    }

    lemma IsValid()
      requires 2 <= words.Length < FREE_CHUNK && Encodes(words[..], 0, chunks, words.Length)
      requires free == FreeWords(chunks) && NoAdjacentFree(chunks)
      ensures Valid()
    {
    }

    /** Makes one free chunk out of used chunk k and its free neighbours. */
    method JoinChunk(ptr: nat, size: int, ghost k: nat)
      requires 2 <= words.Length < FREE_CHUNK && Encodes(words[..], 0, chunks, words.Length)
      requires k < |chunks| && !chunks[k].free && ptr == Offset(chunks, k) && size == chunks[k].size
      modifies words
      ensures var lo, hi := Offset(chunks, JoinFrom(chunks, k)), Offset(chunks, JoinTo(chunks, k));
              Outside(old(words[..]), words[..], lo, hi) && Encodes(words[..], lo, [Chunk(hi - lo, true)], hi)
      ensures ptr < words.Length && 2 <= words[ptr]
              && (words[ptr] >= FREE_CHUNK <==> Offset(chunks, JoinFrom(chunks, k)) == ptr)
    {
      hide Encodes, Offset, JoinFrom, JoinTo, Outside;
      Neighbours(words[..], chunks, words.Length, k);
      JoinWords(ptr, size, Offset(chunks, JoinFrom(chunks, k)), Offset(chunks, JoinTo(chunks, k)));
    }

    /** The same, by the words around the chunk alone. */
    method JoinWords(ptr: nat, size: int, ghost lo: int, ghost hi: int)
      requires 2 <= size && ptr + size <= hi <= words.Length < FREE_CHUNK && 0 <= lo <= ptr
      requires words[ptr] == size == words[ptr + size - 1]
      requires if ptr + size < words.Length && words[ptr + size] >= FREE_CHUNK
               then size < (size + words[ptr + size]) % FREE_CHUNK == hi - ptr else hi == ptr + size
      requires ptr > 0 ==> 2 <= words[ptr - 1] <= ptr
      requires if ptr > 0 && words[ptr - words[ptr - 1]] >= FREE_CHUNK then lo == ptr - words[ptr - 1] else lo == ptr
      modifies words
      ensures Outside(old(words[..]), words[..], lo, hi) && Encodes(words[..], lo, [Chunk(hi - lo, true)], hi)
      ensures 2 <= words[ptr] && (words[ptr] >= FREE_CHUNK <==> lo == ptr)
    {
      hide Encodes;
      var s := JoinRight(ptr, size);
      var p;
      p, s := JoinLeft(ptr, s);
      MarkFree(p, s);
    }

    method MarkFree(p: nat, s: int)
      requires 2 <= s < FREE_CHUNK && p + s <= words.Length && words[p] == s == words[p + s - 1]
      modifies words
      ensures words[..] == old(words[..])[p := s + FREE_CHUNK]
      ensures Encodes(words[..], p, [Chunk(s, true)], p + s)
    {
      words[p] := words[p] + FREE_CHUNK;
      EncodesOne(words[..], p, Chunk(s, true));
    }
  }

  /** h1 differs from h0 between lo and hi only. */
  ghost predicate Outside(h0: seq<int>, h1: seq<int>, lo: int, hi: int) {
    |h0| == |h1| && forall i :: 0 <= i < |h0| && (i < lo || hi <= i) ==> h1[i] == h0[i]
  }

  lemma EncodesOne(h: seq<int>, lo: int, c: Chunk)
    requires 0 <= lo && 2 <= c.size < FREE_CHUNK && lo + c.size <= |h|
    requires h[lo] == Head(c) && h[lo + c.size - 1] == c.size
    ensures Encodes(h, lo, [c], lo + c.size)
  {
    assert [c][1..] == [];
  }

  lemma EncodesTwo(h: seq<int>, lo: int, c: Chunk, d: Chunk)
    requires 0 <= lo && 2 <= c.size < FREE_CHUNK && 2 <= d.size < FREE_CHUNK && lo + c.size + d.size <= |h|
    requires h[lo] == Head(c) && h[lo + c.size - 1] == c.size
    requires h[lo + c.size] == Head(d) && h[lo + c.size + d.size - 1] == d.size
    ensures Encodes(h, lo, [c, d], lo + c.size + d.size)
  {
    EncodesOne(h, lo + c.size, d);
    assert [c, d][1..] == [d];
  }

  lemma StartOffset(cs: seq<Chunk>)
    ensures Offset(cs, 0) == 0
  {
    assert cs[..0] == [];
  }

  lemma FirstFitIs(cs: seq<Chunk>, k: nat, size: int)
    requires k <= |cs| && (k < |cs| ==> Fits(cs[k], size))
    requires forall j :: 0 <= j < k ==> !Fits(cs[j], size)
    ensures FirstFit(cs, size) == k
  {
  }

  lemma AtEnd(h: seq<int>, cs: seq<Chunk>, hi: int, k: nat)
    requires Encodes(h, 0, cs, hi) && k <= |cs| && Offset(cs, k) >= hi
    ensures k == |cs|
  {
    if k < |cs| {
      EncodesAt(h, cs, hi, k);
    }
  }

  /** The words around chunk k tell what its neighbours are. */
  lemma Neighbours(h: seq<int>, cs: seq<Chunk>, hi: int, k: nat)
    requires Encodes(h, 0, cs, hi) && k < |cs| && hi < FREE_CHUNK && !cs[k].free
    ensures var p, s, to := Offset(cs, k), cs[k].size, Offset(cs, JoinTo(cs, k));
            && 0 <= p && 2 <= s && p + s <= to <= hi <= |h| && h[p] == s && h[p + s - 1] == s
            && if p + s < hi && h[p + s] >= FREE_CHUNK then s < (s + h[p + s]) % FREE_CHUNK == to - p else to == p + s
    ensures var p, from := Offset(cs, k), Offset(cs, JoinFrom(cs, k));
            && 0 <= from <= p
            && (p > 0 ==> 2 <= h[p - 1] <= p)
            && if p > 0 && h[p - h[p - 1]] >= FREE_CHUNK then from == p - h[p - 1] else from == p
  {
    hide Encodes;
    EncodesAt(h, cs, hi, k);
    if k + 1 < |cs| {
      EncodesAt(h, cs, hi, k + 1);
    } else {
      assert cs[..k + 1] == cs;
      EncodesRange(h, 0, cs, hi);
    }
    if k > 0 {
      EncodesAt(h, cs, hi, k - 1);
    } else {
      StartOffset(cs);
    }
  }

  lemma JoinedLeft(h: seq<int>, cs: seq<Chunk>, hi: int, k: nat)
    requires Encodes(h, 0, cs, hi) && k < |cs|
    ensures Offset(cs, JoinFrom(cs, k)) == Offset(cs, k) <==> JoinFrom(cs, k) == k
  {
    hide Encodes, Offset;
    EncodesSizes(h, 0, cs, hi);
    OffsetMonotone(cs, JoinFrom(cs, k), k);
  }

  lemma Released(h: seq<int>, h1: seq<int>, cs: seq<Chunk>, k: nat)
    requires Encodes(h, 0, cs, |h|) && k < |cs|
    requires var lo, hi := Offset(cs, JoinFrom(cs, k)), Offset(cs, JoinTo(cs, k));
             Outside(h, h1, lo, hi) && Encodes(h1, lo, [Chunk(hi - lo, true)], hi)
    ensures Encodes(h1, 0, Release(cs, k), |h|)
  {
    hide Encodes, Total, FreeWords;
    var from, to := JoinFrom(cs, k), JoinTo(cs, k);
    var a, b, c := cs[..from], cs[from..to], cs[to..];
    assert cs == a + b + c && cs[..to] == a + b;
    TotalConcat(a, b);
    One(Chunk(Total(b), true));
    Replace(h, h1, a, b, [Chunk(Total(b), true)], c, |h|);
  }

  lemma Placed(h: seq<int>, h1: seq<int>, cs: seq<Chunk>, k: nat, size: int)
    requires Encodes(h, 0, cs, |h|) && k < |cs| && cs[k].free && Total(Split(cs[k], size)) == cs[k].size
    requires Outside(h, h1, Offset(cs, k), Offset(cs, k) + cs[k].size)
    requires Encodes(h1, Offset(cs, k), Split(Chunk(cs[k].size, true), size), Offset(cs, k) + cs[k].size)
    ensures Encodes(h1, 0, Take(cs, k, size), |h|)
  {
    hide Encodes, Total, FreeWords;
    One(cs[k]);
    assert cs == cs[..k] + [cs[k]] + cs[k + 1..];
    Replace(h, h1, cs[..k], [cs[k]], Split(cs[k], size), cs[k + 1..], |h|);
  }

  /** Short of the end there is another chunk, and its first word tells its size and state. */
  lemma Here(h: seq<int>, cs: seq<Chunk>, hi: int, k: nat)
    requires Encodes(h, 0, cs, hi) && k <= |cs| && Offset(cs, k) < hi
    ensures k < |cs| && 0 <= Offset(cs, k) && Offset(cs, k) + cs[k].size == Offset(cs, k + 1) <= hi <= |h|
    ensures var head := h[Offset(cs, k)];
            if cs[k].free then head >= FREE_CHUNK && head % FREE_CHUNK == cs[k].size
                else head == cs[k].size < FREE_CHUNK
    ensures 2 <= cs[k].size && h[Offset(cs, k) + cs[k].size - 1] == cs[k].size
  {
    if k == |cs| {
      assert cs[..k] == cs;
      EncodesRange(h, 0, cs, hi);
    } else {
      EncodesAt(h, cs, hi, k);
    }
  }

  // ---------------------------------------------------------------- live allocations

  /** Start and size of every live chunk. */
  ghost function Live(cs: seq<Chunk>, base: int): set<(int, int)>
    decreases |cs|
  {
    if cs == [] then {}
    else (if cs[0].free then {} else {(base, cs[0].size)}) + Live(cs[1..], base + cs[0].size)
  }

  lemma {:induction false} LiveConcat(a: seq<Chunk>, b: seq<Chunk>, base: int)
    ensures Live(a + b, base) == Live(a, base) + Live(b, base + Total(a))
    decreases |a|
  {
    if a == [] {
      assert a + b == b;
    } else {
      assert (a + b)[1..] == a[1..] + b;
      LiveConcat(a[1..], b, base + a[0].size);
    }
  }

  lemma {:induction false} LiveRange(cs: seq<Chunk>, base: int)
    requires Sizes(cs)
    ensures Total(cs) >= 0
    ensures forall x :: x in Live(cs, base) ==> base <= x.0 < x.0 + x.1 <= base + Total(cs)
    decreases |cs|
  {
    if cs != [] {
      LiveRange(cs[1..], base + cs[0].size);
    }
  }

  /** Live chunks do not overlap. */
  lemma {:induction false} LiveApart(cs: seq<Chunk>, base: int)
    requires Sizes(cs)
    ensures forall x, y :: x in Live(cs, base) && y in Live(cs, base) && x != y ==> x.0 + x.1 <= y.0 || y.0 + y.1 <= x.0
    decreases |cs|
  {
    if cs != [] {
      LiveRange(cs[1..], base + cs[0].size);
      LiveApart(cs[1..], base + cs[0].size);
    }
  }

  lemma LiveOne(c: Chunk, base: int)
    ensures Live([c], base) == if c.free then {} else {(base, c.size)}
  {
    assert [c][1..] == [];
  }

  /** An allocation adds one live chunk and leaves the others where they are. */
  lemma TakeLive(cs: seq<Chunk>, k: nat, size: int)
    requires k < |cs| && Fits(cs[k], size)
    ensures Live(Take(cs, k, size), 0) == Live(cs, 0) + {(Offset(cs, k), Split(cs[k], size)[0].size)}
  {
    hide Live, Total, FreeWords, Split;
    var a, b, c := cs[..k], Split(cs[k], size), cs[k + 1..];
    assert cs == a + [cs[k]] + c;
    LiveThree(a, [cs[k]], c);
    LiveThree(a, b, c);
    LiveOne(cs[k], Offset(cs, k));
    One(cs[k]);
    SplitSum(cs[k], size);
    SplitLive(cs[k], size, Offset(cs, k));
  }

  lemma SplitLive(c: Chunk, size: int, p: int)
    ensures Live(Split(c, size), p) == {(p, Split(c, size)[0].size)}
  {
    hide Live, Total, FreeWords;
    if c.size > size + SPLIT_SLACK {
      var used, rest := Chunk(size, false), Chunk(c.size - size, true);
      assert Split(c, size) == [used] + [rest];
      LiveConcat([used], [rest], p);
      LiveOne(used, p);
      One(used);
      LiveOne(rest, p + size);
    } else {
      LiveOne(Chunk(c.size, false), p);
    }
  }

  /** All live chunks lie outside the words that TrySmall writes to. */
  lemma TakeTouchesNoOther(cs: seq<Chunk>, k: nat)
    requires k < |cs| && cs[k].free && Sizes(cs)
    ensures forall x :: x in Live(cs, 0) ==> x.0 + x.1 <= Offset(cs, k) || Offset(cs, k + 1) <= x.0
  {
    hide Live, Total, FreeWords;
    var a, c := cs[..k], cs[k + 1..];
    assert cs == a + [cs[k]] + c && cs[..k + 1] == a + [cs[k]];
    TotalConcat(a, [cs[k]]);
    LiveThree(a, [cs[k]], c);
    LiveOne(cs[k], Offset(cs, k));
    LiveRange(a, 0);
    LiveRange(c, Offset(cs, k + 1));
  }

  lemma LiveThree(a: seq<Chunk>, b: seq<Chunk>, c: seq<Chunk>)
    ensures Live(a + b + c, 0) == Live(a, 0) + Live(b, Total(a)) + Live(c, Total(a) + Total(b))
  {
    LiveConcat(a + b, c, 0);
    LiveConcat(a, b, 0);
    TotalConcat(a, b);
  }

  /** Freeing removes one live chunk and leaves the others where they are. */
  lemma ReleaseLive(cs: seq<Chunk>, k: nat)
    requires k < |cs| && !cs[k].free && Sizes(cs)
    ensures var one := (Offset(cs, k), cs[k].size);
            one in Live(cs, 0) && Live(Release(cs, k), 0) == Live(cs, 0) - {one}
  {
    hide Live, Total, FreeWords, JoinFrom, JoinTo, Release;
    var from, to := JoinFrom(cs, k), JoinTo(cs, k);
    var a, b, c := cs[..from], cs[from..to], cs[to..];
    ReleaseParts(cs, k);
    TotalConcat(a, b);
    var joined := Chunk(Total(b), true);
    LiveThree(a, [joined], c);
    One(joined);
    LiveOne(joined, Total(a));
    ReleaseTouchesNoOther(cs, k);
    LiveRange(a, 0);
    TakeOut(Live(a, 0), (Offset(cs, k), cs[k].size), Live(c, Offset(cs, to)), Offset(cs, k));
  }

  lemma ReleaseParts(cs: seq<Chunk>, k: nat)
    requires k < |cs|
    ensures var from, to := JoinFrom(cs, k), JoinTo(cs, k);
            && Release(cs, k) == cs[..from] + [Chunk(Total(cs[from..to]), true)] + cs[to..]
            && cs[..to] == cs[..from] + cs[from..to]
  {
  }

  lemma TakeOut(a: set<(int, int)>, x: (int, int), c: set<(int, int)>, at: int)
    requires x.0 == at && x.1 > 0 && (forall y :: y in a ==> y.0 + y.1 <= at && y.1 > 0)
             && (forall y :: y in c ==> at < y.0)
    ensures a + {x} + c - {x} == a + c && x in a + {x} + c
  {
  }

  /** All other live chunks lie outside the words that FreeSmall writes to. */
  lemma ReleaseTouchesNoOther(cs: seq<Chunk>, k: nat)
    requires k < |cs| && !cs[k].free && Sizes(cs)
    ensures var from, to := JoinFrom(cs, k), JoinTo(cs, k);
            var a, c := Live(cs[..from], 0), Live(cs[to..], Offset(cs, to));
            && Live(cs, 0) == a + {(Offset(cs, k), cs[k].size)} + c
            && (forall x :: x in a ==> x.0 + x.1 <= Offset(cs, from) <= Offset(cs, k))
            && (forall x :: x in c ==> Offset(cs, k) < Offset(cs, to) <= x.0)
  {
    hide Live, Total, FreeWords, JoinFrom, JoinTo, Release;
    ReleaseParts(cs, k);
    var from, to := JoinFrom(cs, k), JoinTo(cs, k);
    var a, b, c := cs[..from], cs[from..to], cs[to..];
    assert cs == cs[..to] + c;
    TotalConcat(a, b);
    LiveThree(a, b, c);
    JoinedLive(cs, k);
    LiveRange(a, 0);
    LiveRange(c, Total(a) + Total(b));
    OffsetMonotone(cs, from, k);
    OffsetMonotone(cs, k, to);
  }

  lemma {:induction false} OffsetMonotone(cs: seq<Chunk>, i: nat, j: nat)
    requires Sizes(cs) && i <= j <= |cs|
    ensures Offset(cs, i) <= Offset(cs, j) && (i < j ==> Offset(cs, i) < Offset(cs, j))
  {
    hide Total, FreeWords;
    if i < j {
      OffsetMonotone(cs, i, j - 1);
      assert cs[..j] == cs[..j - 1] + [cs[j - 1]];
      TotalConcat(cs[..j - 1], [cs[j - 1]]);
      One(cs[j - 1]);
    }
  }

  lemma JoinedLive(cs: seq<Chunk>, k: nat)
    requires k < |cs| && !cs[k].free
    ensures Live(cs[JoinFrom(cs, k)..JoinTo(cs, k)], Offset(cs, JoinFrom(cs, k))) == {(Offset(cs, k), cs[k].size)}
  {
    hide Live, Total, FreeWords;
    var from, to := JoinFrom(cs, k), JoinTo(cs, k);
    var b, p := cs[from..to], Offset(cs, from);
    assert b == b[..k - from] + [cs[k]] + b[k - from + 1..];
    assert cs[..k] == cs[..from] + b[..k - from];
    TotalConcat(cs[..from], b[..k - from]);
    LiveConcat(b[..k - from] + [cs[k]], b[k - from + 1..], p);
    LiveConcat(b[..k - from], [cs[k]], p);
    LiveOne(cs[k], Offset(cs, k));
    NoLive(b[..k - from], p);
    NoLive(b[k - from + 1..], p + Total(b[..k - from] + [cs[k]]));
  }

  lemma NoLive(cs: seq<Chunk>, base: int)
    requires |cs| == 0 || (|cs| == 1 && cs[0].free)
    ensures Live(cs, base) == {}
  {
  }

  // ---------------------------------------------------------------- a second free

  /** A page after m allocations of 20 words. */
  function Used(m: nat, rest: int): seq<Chunk> {
    seq(m, i => Chunk(20, false)) + [Chunk(rest, true)]
  }

  lemma {:induction false} UsedTotal(m: nat)
    ensures Total(seq(m, i => Chunk(20, false))) == 20 * m
  {
    if m > 0 {
      UsedTotal(m - 1);
      assert seq(m, i => Chunk(20, false)) == [Chunk(20, false)] + seq(m - 1, i => Chunk(20, false));
    }
  }

  lemma NextUsed(m: nat, rest: int)
    requires rest > 20 + SPLIT_SLACK
    ensures FirstFit(Used(m, rest), 20) == m && Take(Used(m, rest), m, 20) == Used(m + 1, rest - 20)
    ensures Offset(Used(m, rest), m) == 20 * m
  {
    hide FirstFit, Total;
    FirstFitIs(Used(m, rest), m, 20);
    UsedTotal(m);
    assert Used(m, rest)[..m] == seq(m, i => Chunk(20, false));
  }

  lemma FreeFirst(rest: int)
    ensures Release(Used(3, rest), 0) == [Chunk(20, true)] + Used(3, rest)[1..]
    ensures Offset(Used(3, rest), 0) == 0 && Offset(Release(Used(3, rest), 0), 1) == 20
  {
    var cs := Used(3, rest);
    One(cs[0]);
    assert cs[0..1] == [cs[0]] && cs[..0] == [];
    var r := Release(cs, 0);
    One(r[0]);
    assert r[..1] == [r[0]];
  }

  /** A page on which a chunk can be freed twice without being ignored: the first three allocations
      of 20 words are a, b and c; freeing a and then b joins b to a, and the header of b still
      looks like that of a live chunk. */
  method SecondFreeIsCounted() returns (page: SubHeap, ignored: bool)
    ensures !ignored && page.free > FreeWords(page.chunks) && !page.Valid()
  {
    hide FirstFit, Take, Release, Offset, Encodes, FreeWords, Outside, SubHeap.Valid;
    page := new SubHeap(1021);
    assert page.chunks == Used(0, 1021);
    NextUsed(0, 1021);
    NextUsed(1, 1001);
    NextUsed(2, 981);
    var a := page.TrySmall(20);
    var b := page.TrySmall(20);
    var c := page.TrySmall(20);
    assert page.chunks == Used(3, 961);
    FreeFirst(961);
    assert page.chunks[0] == page.chunks[1] == Chunk(20, false);
    page.LiveHeader(0);
    var released := page.FreeSmall(a.value, 0);
    assert page.chunks[2] == Chunk(20, false);
    ignored := page.FreeTwice(b.value, 1);
  }

  /** Another: the only allocation of a page is freed twice. The first free gives the page back without
      marking the chunk, although it has no neighbour to its left. */
  method SecondFreeOfReleased() returns (page: SubHeap, ignored: bool)
    ensures !ignored && page.free > page.words.Length && !page.Valid()
  {
    hide FirstFit, Take, Release, Offset, Encodes, FreeWords, Outside, SubHeap.Valid;
    page := new SubHeap(1021);
    assert page.chunks == Used(0, 1021);
    NextUsed(0, 1021);
    StartOffset(page.chunks);
    var a := page.TrySmall(20);
    assert page.chunks == Used(1, 1001) && page.chunks[0] == Chunk(20, false);
    assert OnlyLive(page.chunks, 0);
    StartOffset(page.chunks);
    ignored := page.FreeTwice(a.value, 0);
  }
}
