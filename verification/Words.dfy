/** 32-bit unsigned arithmetic, as the ring indices use it. */
module Words {
  import opened Basics
  import opened Arithmetic


  /** The 32-bit word that stores a counter. */
  function W(x: int): int {
    x % TWO_32
  }

  /** Subtraction of words. */
  function Sub(a: int, b: int): int {
    W(a - b)
  }

  lemma SubExact(x: int, y: int)
    requires 0 <= x - y < TWO_32
    ensures Sub(W(x), W(y)) == x - y
  {
    SubWords(x, y);
  }

  lemma SubWords(x: int, y: int)
    ensures Sub(W(x), W(y)) == W(x - y)
  {
    var a, b := x / TWO_32, y / TWO_32;
    assert W(x) - W(y) == (x - y) - (a - b) * TWO_32;
    WordShift(W(x) - W(y), a - b);
  }

  lemma SubSmall(x: int, y: int)
    requires 0 <= y <= x < TWO_32
    ensures Sub(x, y) == x - y
  {
  }

  lemma WordShift(x: int, k: int)
    ensures W(x + k * TWO_32) == W(x)
  {
    var q := x / TWO_32;
    assert x + k * TWO_32 == (q + k) * TWO_32 + W(x);
  }

  /** The notification test of the ring protocol. */
  predicate Crosses(newIndex: int, event: int, oldIndex: int) {
    Sub(newIndex, event) < Sub(newIndex, oldIndex)
  }

  /** The test on words asks whether some counter with the event's word lies in (old, new]. */
  lemma CrossesExactly(newIndex: int, event: int, oldIndex: int)
    requires 0 <= newIndex - oldIndex < TWO_32
    ensures Crosses(W(newIndex), W(event), W(oldIndex)) <==> exists k :: oldIndex < event + k * TWO_32 <= newIndex
  {
    SubWords(newIndex, event);
    SubExact(newIndex, oldIndex);
    var d, q := W(newIndex - event), (newIndex - event) / TWO_32;
    assert event + q * TWO_32 == newIndex - d;
    if k :| oldIndex < event + k * TWO_32 <= newIndex {
      WordShift(newIndex - (event + k * TWO_32), k);
    }
  }

  /** Near the two indices that counter can only be the event itself. */
  lemma CrossesNearby(newIndex: int, event: int, oldIndex: int)
    requires 0 <= newIndex - oldIndex < TWO_32
    requires newIndex - TWO_32 < event <= oldIndex + TWO_32
    ensures Crosses(W(newIndex), W(event), W(oldIndex)) <==> oldIndex < event <= newIndex
  {
    CrossesExactly(newIndex, event, oldIndex);
    if k :| oldIndex < event + k * TWO_32 <= newIndex {
      assert k == 0;
    }
    if oldIndex < event <= newIndex {
      assert oldIndex < event + 0 * TWO_32 <= newIndex;
    }
  }

  /** Ring sizes are powers of two. */
  predicate RingSize(n: int) {
    1 <= n <= 0x8000_0000 && TWO_32 % n == 0
  }

  lemma RingSizeBound(n: int)
    requires RingSize(n)
    ensures 1 <= n < TWO_32
  {
  }

  /** Adding to a stored counter. */
  lemma Increment(x: int, k: int)
    ensures W(W(x) + k) == W(x + k)
  {
    WordShift(W(x) + k, x / TWO_32);
  }

  /** Masking a stored counter picks the same slot as the counter itself. */
  lemma SlotOfWord(x: int, n: int)
    requires RingSize(n) && 0 <= x
    ensures W(x) % n == x % n
  {
    var q, m := x / TWO_32, TWO_32 / n;
    assert x == q * TWO_32 + W(x) && TWO_32 == m * n;
    assert x == (q * m) * n + W(x) by {
      assert q * (m * n) == (q * m) * n;
    }
    ModPlusMultiple(W(x), q * m, n);
  }

  /** Positions less than n apart occupy different slots. */
  lemma DifferentSlots(x: int, y: int, n: int)
    requires 0 < n && 0 <= x < y < x + n
    ensures x % n != y % n
  {
    if x % n == y % n {
      assert y - x == (y / n - x / n) * n;
      if y / n - x / n >= 1 {
        MulMonotone(1, y / n - x / n, n);
      } else {
        MulMonotone(y / n, x / n, n);
      }
    }
  }
}
