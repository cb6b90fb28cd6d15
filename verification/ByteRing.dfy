/** One direction of the XenStore channel: a ring of bytes between two word indices. */
module ByteRing {
  import opened Basics
  import opened Words

  const RING_BYTES: nat := 1024   // XENSTORE_RING_SIZE

  class ByteRing {
    const buffer: array<Byte>
    var prod: int
    var cons: int
    ghost var stream: seq<Byte>   // every byte ever put on the ring
    ghost var taken: nat         // how many of them have been taken off again

    ghost predicate Valid()
      reads this, buffer
    {
      && buffer.Length == RING_BYTES
      && prod == W(|stream|) && cons == W(taken)
      && taken <= |stream| <= taken + RING_BYTES
      && Holds(buffer[..], taken, stream)
    }

    constructor ()
      ensures Valid() && stream == [] && taken == 0 && fresh(buffer)
    {
      buffer := new Byte[RING_BYTES];
      prod, cons := 0, 0;
      stream, taken := [], 0;
    }

    /** Room left for the producer. */
    ghost function Room(): int
      reads this
    {
      taken + RING_BYTES - |stream|
    }

    /** Puts as many of the bytes on the ring as there is room for, and says how many. */
    method CopyIn(data: seq<Byte>) returns (offset: nat)
      requires Valid()
      modifies this, buffer
      ensures Valid() && taken == old(taken)
      ensures offset == Min(|data|, old(Room())) && stream == old(stream) + data[..offset]
    {
      hide Holds, W, Sub, Chunk;
      var p, c := prod, cons;
      ghost var s := stream;
      offset := 0;
      assert s + data[..0] == s;
      while offset < |data|
        invariant 0 <= offset <= Min(|data|, old(Room()))
        invariant stream == s && s == old(stream) && cons == c && taken == old(taken) && taken <= |s| && c == W(taken)
        invariant p == W(|s| + offset)
        invariant Holds(buffer[..], taken, s + data[..offset])
      {
        var available := W(c + RING_BYTES - p);
        Available(taken, |s| + offset);
        if available == 0 {
          break;
        }
        IndexOf(|s| + offset);
        var index := p % RING_BYTES;
        var n := Chunk(|data| - offset, available, index);
        ghost var before := buffer[..];
        forall i | 0 <= i < n {
          buffer[index + i] := data[offset + i];
        }
        Appended(before, buffer[..], taken, s + data[..offset], data[offset..offset + n]);
        Longer(s, data, offset, n);
        offset := offset + n;
        Increment(|s| + offset - n, n);
        p := W(p + n);
      }
      prod := p;
      stream := stream + data[..offset];
    }

    /** Takes up to length bytes off the ring. */
    method CopyOut(length: nat) returns (data: seq<Byte>)
      requires Valid()
      modifies `cons, `taken
      ensures Valid() && taken == old(taken) + |data|
      ensures |data| == Min(length, |stream| - old(taken)) && data == stream[old(taken)..taken]
    {
      hide Holds, W, Sub, Chunk;
      var p, c := prod, cons;
      data := [];
      while |data| < length
        invariant taken == old(taken) && taken + |data| <= |stream| && |data| <= length
        invariant c == W(taken + |data|)
        invariant data == stream[taken..taken + |data|]
        decreases length - |data|
      {
        var available := W(p - c);
        SubExact(|stream|, taken + |data|);
        assert available == Sub(p, c) by { SubIs(p, c); }
        if available == 0 {
          break;
        }
        IndexOf(taken + |data|);
        var index := c % RING_BYTES;
        var n := Chunk(length - |data|, available, index);
        Fetched(buffer[..], taken, stream, taken + |data|, n);
        Joined(stream, taken, taken + |data|, n);
        data := data + buffer[index..index + n];
        Increment(taken + |data| - n, n);
        c := W(c + n);
      }
      Fewer(buffer[..], taken, taken + |data|, stream);
      cons := c;
      taken := taken + |data|;
    }
  }

  /** The bytes from position taken on are in the ring, each at its position modulo the size. */
  ghost predicate Holds(buffer: seq<Byte>, taken: nat, stream: seq<Byte>) {
    && |buffer| == RING_BYTES
    && forall p :: taken <= p < |stream| ==> buffer[p % RING_BYTES] == stream[p]
  }

  lemma Fewer(buffer: seq<Byte>, taken: nat, next: nat, stream: seq<Byte>)
    requires Holds(buffer, taken, stream) && taken <= next
    ensures Holds(buffer, next, stream)
  {
  }

  /** How much to copy at once: no further than the end of the buffer. */
  function Chunk(length: int, available: int, index: int): (n: nat)
    requires 0 < length && 0 < available && 0 <= index < RING_BYTES
    ensures 0 < n <= length && n <= available && index + n <= RING_BYTES
  {
    Min(Min(length, available), RING_BYTES - index)
  }

  lemma Joined(s: seq<Byte>, a: nat, b: nat, n: nat)
    requires a <= b && b + n <= |s|
    ensures s[a..b] + s[b..b + n] == s[a..b + n]
  {
  }

  lemma Longer(s: seq<Byte>, data: seq<Byte>, offset: nat, n: nat)
    requires offset + n <= |data|
    ensures s + data[..offset] + data[offset..offset + n] == s + data[..offset + n]
  {
  }

  lemma SubIs(a: int, b: int)
    ensures Sub(a, b) == W(a - b)
  {
  }

  lemma Available(taken: int, end: int)
    requires taken <= end <= taken + RING_BYTES
    ensures W(W(taken) + RING_BYTES - W(end)) == taken + RING_BYTES - end
  {
    WordShift(W(taken) + RING_BYTES - W(end), taken / TWO_32 - end / TWO_32);
  }

  lemma IndexOf(x: nat)
    ensures 0 <= W(x) % RING_BYTES == x % RING_BYTES
  {
  }

  lemma Appended(before: seq<Byte>, after: seq<Byte>, taken: nat, stream: seq<Byte>, more: seq<Byte>)
    requires Holds(before, taken, stream) && |after| == RING_BYTES && taken <= |stream|
    requires var index := |stream| % RING_BYTES;
             && index + |more| <= RING_BYTES && |stream| + |more| <= taken + RING_BYTES
             && (forall i :: 0 <= i < RING_BYTES && !(index <= i < index + |more|) ==> after[i] == before[i])
             && (forall i :: 0 <= i < |more| ==> after[index + i] == more[i])
    ensures Holds(after, taken, stream + more)
  {
    var index := |stream| % RING_BYTES;
    forall p | taken <= p < |stream + more| ensures after[p % RING_BYTES] == (stream + more)[p] {
      if p >= |stream| {
        assert p % RING_BYTES == index + (p - |stream|);
      } else {
        assert !(index <= p % RING_BYTES < index + |more|);
      }
    }
  }

  lemma Fetched(buffer: seq<Byte>, taken: nat, stream: seq<Byte>, at: nat, n: nat)
    requires Holds(buffer, taken, stream) && taken <= at && at + n <= |stream|
    requires at % RING_BYTES + n <= RING_BYTES
    ensures buffer[at % RING_BYTES..at % RING_BYTES + n] == stream[at..at + n]
  {
    var index, want := at % RING_BYTES, stream[at..at + n];
    forall i | 0 <= i < n ensures buffer[index..index + n][i] == want[i] {
      var p := at + i;
      assert p % RING_BYTES == index + i;
    }
  }
}
