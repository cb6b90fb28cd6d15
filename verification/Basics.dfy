/** What several modules need: sizes, integer widths, and small functions on numbers and sequences. */
module Basics {
  const PAGE_SIZE: nat := 4096
  const TWO_32: int := 0x1_0000_0000
  const TWO_64: int := 0x1_0000_0000_0000_0000
  const FREE_CHUNK: int := 0x8000_0000   // marks free blocks and chunks of the emergency heap

  type Byte = x: int | 0 <= x < 256
  type Word = x: int | 0 <= x < TWO_32

  datatype Option<T> = None | Some(value: T)

  function Min(a: int, b: int): int { if a < b then a else b }

  /** The element at a position, or a value that stands for none. */
  function At<T>(s: seq<T>, i: int, none: T): T {
    if 0 <= i < |s| then s[i] else none
  }

  ghost predicate Distinct<T>(s: seq<T>) {
    forall i, j :: 0 <= i < j < |s| ==> s[i] != s[j]
  }

  /** q without its element at i. */
  function Without<T>(q: seq<T>, i: nat): seq<T>
    requires i < |q|
  {
    q[..i] + q[i + 1..]
  }

  lemma WithoutParts<T>(q: seq<T>, i: nat)
    requires i < |q|
    ensures Without(q, i) == q[..i] + q[i + 1..]
  {
  }

  lemma InWithout<T>(q: seq<T>, i: nat)
    requires i < |q|
    ensures forall s :: s in Without(q, i) ==> s in q
  {
  }

  lemma SplitAt<T>(q: seq<T>, i: nat)
    requires i < |q|
    ensures q == q[..i] + [q[i]] + q[i + 1..]
  {
  }
}
