/** The geometry of a read or write: how the scatter-gather list that the operating system
    hands down is cut into segments that the block protocol can carry. */
module Transfer {
  import opened Basics
  import opened Arithmetic

  const MAX_SEGMENTS: nat := 11          // BLKIF_MAX_SEGMENTS_PER_REQUEST
  const MAX_REQUESTS_PER_SRB: nat := 16  // XENVBD_MAX_REQUESTS_PER_SRB
  const MAX_TRANSFER_LENGTH: nat := MAX_REQUESTS_PER_SRB * MAX_SEGMENTS * PAGE_SIZE

  /** The n addresses that start at a. */
  function Range(a: nat, n: nat): (r: seq<nat>)
    ensures |r| == n && forall i :: 0 <= i < n ==> r[i] == a + i
  {
    seq(n, i => a + i)
  }

  /** A divisor of the page size is a power of two, so masking with it minus one is the
      remainder. Sectors smaller than 16 bytes do not fit the protocol's sector bytes. */
  predicate ValidSectorSize(ss: nat) {
    16 <= ss && PAGE_SIZE % ss == 0
  }

  function SectorsPerPage(ss: nat): nat
    requires ss != 0
  {
    PAGE_SIZE / ss
  }

  // ---------------------------------------------------------------- scatter-gather lists

  datatype SgElement = SgElement(addr: nat, length: nat)

  /** Bytes in the first k elements. */
  function Start(sg: seq<SgElement>, k: nat): nat
    requires k <= |sg|
  {
    if k == 0 then 0 else Start(sg, k - 1) + sg[k - 1].length
  }

  /** Physical addresses of the first k elements, in transfer order. */
  function AddressesUpTo(sg: seq<SgElement>, k: nat): (r: seq<nat>)
    requires k <= |sg|
    ensures |r| == Start(sg, k)
  {
    if k == 0 then [] else AddressesUpTo(sg, k - 1) + Range(sg[k - 1].addr, sg[k - 1].length)
  }

  /** Byte x of element k is where the element says. */
  lemma {:induction false} AddressAt(sg: seq<SgElement>, n: nat, k: nat, x: nat)
    requires k < n <= |sg| && x < sg[k].length
    ensures Start(sg, k) + x < Start(sg, n) && AddressesUpTo(sg, n)[Start(sg, k) + x] == sg[k].addr + x
  {
    if k < n - 1 {
      AddressAt(sg, n - 1, k, x);
    }
  }

  /** Physical address of every byte of the transfer, in transfer order. */
  function SgAddresses(sg: seq<SgElement>): seq<nat> {
    AddressesUpTo(sg, |sg|)
  }

  /** A list describing one locked, virtually contiguous buffer of the given size: only the first
      element may start inside a page and only the last may end inside one. */
  ghost predicate MdlShape(sg: seq<SgElement>, bytes: nat) {
    && |sg| > 0
    && Start(sg, |sg|) == bytes
    && (forall i :: 0 <= i < |sg| ==> sg[i].length > 0)
    && (forall i :: 0 < i < |sg| ==> sg[i].addr % PAGE_SIZE == 0)
    && (forall i :: 0 <= i < |sg| - 1 ==> (sg[i].addr + sg[i].length) % PAGE_SIZE == 0)
  }

  lemma {:induction false} StartMonotone(sg: seq<SgElement>, i: nat, j: nat)
    requires i <= j <= |sg|
    ensures Start(sg, i) <= Start(sg, j)
  {
    if i < j {
      StartMonotone(sg, i, j - 1);
    }
  }

  /** The buffer is virtually contiguous: the page offset of a byte depends only on its position. */
  lemma {:induction false} Phase(sg: seq<SgElement>, bytes: nat, i: nat)
    requires MdlShape(sg, bytes) && i < |sg|
    ensures sg[i].addr % PAGE_SIZE == (sg[0].addr + Start(sg, i)) % PAGE_SIZE
  {
    if i > 0 {
      Phase(sg, bytes, i - 1);
      assert (sg[i - 1].addr + sg[i - 1].length) % PAGE_SIZE == 0;
    }
  }

  /** Addresses of the bytes before offset bytes into element i. */
  ghost function ConsumedAt(sg: seq<SgElement>, i: nat, offset: nat): (r: seq<nat>)
    requires i <= |sg|
    ensures |r| == Start(sg, i) + if i == |sg| then 0 else offset
  {
    AddressesUpTo(sg, i) + if i == |sg| then [] else Range(sg[i].addr, offset)
  }

  lemma NotAtEnd(sg: seq<SgElement>, bytes: nat, i: nat, offset: nat)
    requires MdlShape(sg, bytes) && i <= |sg| && |ConsumedAt(sg, i, offset)| < bytes
    ensures i < |sg| && (i + 1 < |sg| ==> 0 < sg[i + 1].length)
  {
  }

  /** A chunk that stops at a page boundary or at the end of its element stops at a page boundary
      or at the end of the whole transfer. */
  lemma ChunkLength(sg: seq<SgElement>, bytes: nat, i: nat, offset: nat, last: nat)
    requires MdlShape(sg, bytes) && i < |sg| && offset < sg[i].length
    ensures Start(sg, i) + offset < bytes
    ensures (sg[i].addr + offset) % PAGE_SIZE == (sg[0].addr + Start(sg, i) + offset) % PAGE_SIZE
    ensures var room := PAGE_SIZE - (sg[i].addr + offset) % PAGE_SIZE - last;
            Min(room, sg[i].length - offset) == Min(room, bytes - Start(sg, i) - offset)
  {
    Phase(sg, bytes, i);
    StartMonotone(sg, i + 1, |sg|);
    SameOffset(sg[i].addr, sg[0].addr + Start(sg, i), offset);
    if i < |sg| - 1 {
      RestOfPage(sg[i].addr + offset, sg[i].length - offset);
    }
  }

  lemma SameOffset(x: nat, y: nat, k: nat)
    requires x % PAGE_SIZE == y % PAGE_SIZE
    ensures (x + k) % PAGE_SIZE == (y + k) % PAGE_SIZE
  {
  }

  lemma RestOfPage(x: nat, rest: nat)
    requires rest > 0 && (x + rest) % PAGE_SIZE == 0
    ensures rest >= PAGE_SIZE - x % PAGE_SIZE
  {
  }

  lemma ConsumeStep(sg: seq<SgElement>, i: nat, offset: nat, len: nat)
    requires i < |sg| && offset + len <= sg[i].length
    ensures ConsumedAt(sg, i, offset) + Range(sg[i].addr + offset, len) == ConsumedAt(sg, i, offset + len)
    ensures offset + len == sg[i].length ==> ConsumedAt(sg, i, offset + len) == ConsumedAt(sg, i + 1, 0)
  {
    var a := sg[i].addr;
    assert Range(a, offset + len) == Range(a, offset) + Range(a + offset, len);
    if offset + len == sg[i].length {
      assert ConsumedAt(sg, i, offset + len) == AddressesUpTo(sg, i + 1);
      assert ConsumedAt(sg, i + 1, 0) == AddressesUpTo(sg, i + 1);
    }
  }

  // ---------------------------------------------------------------- sector arithmetic

  lemma ScaleMin(a: nat, b: nat, s: nat)
    ensures Min(a, b) * s == Min(a * s, b * s)
  {
    MulMonotone(Min(a, b), if a < b then b else a, s);
  }

  lemma PageInSectors(ss: nat)
    requires ValidSectorSize(ss)
    ensures 1 <= SectorsPerPage(ss) <= 256 && SectorsPerPage(ss) * ss == PAGE_SIZE
  {
    MulMonotone(16, ss, SectorsPerPage(ss));
  }

  /** Sector alignment of an address is sector alignment of its page offset. */
  lemma ModOfPage(x: nat, ss: nat)
    requires ValidSectorSize(ss)
    ensures (x % PAGE_SIZE) % ss == x % ss
  {
    PageInSectors(ss);
    var (p, o) := (x / PAGE_SIZE, x % PAGE_SIZE);
    assert x == (p * SectorsPerPage(ss) + o / ss) * ss + o % ss by {
      assert p * PAGE_SIZE == (p * SectorsPerPage(ss)) * ss;
    }
    DivUnique(x, ss, p * SectorsPerPage(ss) + o / ss, o % ss);
  }

  /** A chunk that starts on a sector boundary and stops at a page boundary or at the end of the
      transfer is a whole number of sectors. */
  lemma GrantedGeometry(addr: nat, len: nat, left: nat, ss: nat)
    requires ValidSectorSize(ss) && left > 0
    requires addr % ss == 0 && len == Min(PAGE_SIZE - addr % PAGE_SIZE, left * ss)
    ensures len % ss == 0
    ensures var first := (addr % PAGE_SIZE + ss - 1) / ss;
            var now := Min(left, SectorsPerPage(ss) - first);
            first * ss == addr % PAGE_SIZE && now > 0 && now * ss == len && len / ss == now && first + now <= 256
  {
    var o := addr % PAGE_SIZE;
    ModOfPage(addr, ss);
    DivUnique(o + ss - 1, ss, o / ss, ss - 1);
    SectorsLeftOnPage(o / ss, left, ss);
  }

  lemma SectorsLeftOnPage(first: nat, left: nat, ss: nat)
    requires ValidSectorSize(ss) && left > 0 && first * ss < PAGE_SIZE
    ensures var now := Min(left, SectorsPerPage(ss) - first);
            && now > 0 && first + now <= 256
            && now * ss == Min(PAGE_SIZE - first * ss, left * ss)
            && (now * ss) % ss == 0 && (now * ss) / ss == now
  {
    var room := SectorsPerPage(ss) - first;
    PageInSectors(ss);
    if room <= 0 {
      MulMonotone(SectorsPerPage(ss), first, ss);
    }
    ScaleMin(left, room, ss);
    assert room * ss == PAGE_SIZE - first * ss;
    DivUnique(Min(left, room) * ss, ss, Min(left, room), 0);
  }

  /** Two chunks that fill a bounce page from an address off a sector boundary are together a
      whole number of sectors, and one page at most. */
  lemma BouncedGeometry(addr: nat, len: nat, left: nat, ss: nat)
    requires ValidSectorSize(ss) && left > 0
    requires addr % ss != 0 && len == Min(PAGE_SIZE - addr % PAGE_SIZE, left * ss)
    ensures addr % PAGE_SIZE != 0
    ensures var now := Min(left, SectorsPerPage(ss));
            && 0 < now <= 256
            && now * ss == Min(left * ss, PAGE_SIZE)
            && (now * ss) % ss == 0
            && (now * ss) / ss == now
            && len <= now * ss
            && (len < now * ss ==> len == PAGE_SIZE - addr % PAGE_SIZE)
  {
    PageInSectors(ss);
    ModOfPage(addr, ss);
    if addr % PAGE_SIZE == 0 {
      DivUnique(0, ss, 0, 0);
    }
    var now := Min(left, SectorsPerPage(ss));
    ScaleMin(left, SectorsPerPage(ss), ss);
    DivUnique(now * ss, ss, now, 0);
  }

  // ---------------------------------------------------------------- the walk

  /** Where the walk over a scatter-gather list has got to (XENVBD_SG_INDEX). */
  class SgCursor {
    var index: nat
    var offset: nat
    var lastLength: nat

    constructor ()
      ensures index == 0 && offset == 0 && lastLength == 0
    {
      index, offset, lastLength := 0, 0, 0;
    }

    ghost predicate On(sg: seq<SgElement>)
      reads this
    {
      index <= |sg| && (index == |sg| ==> offset == 0) && (index < |sg| ==> offset < sg[index].length)
    }

    /** Addresses of the bytes already walked over. */
    ghost function Consumed(sg: seq<SgElement>): seq<nat>
      requires On(sg)
      reads this
    {
      ConsumedAt(sg, index, offset)
    }

    /** Steps over the bytes up to the next page boundary, the end of the element, or the end of
        the bounce page that already holds lastLength bytes. */
    method GetPhysAddr(sg: seq<SgElement>, ghost bytes: nat) returns (addr: nat, len: nat)
      requires MdlShape(sg, bytes) && On(sg) && |Consumed(sg)| < bytes
      requires (sg[0].addr + |Consumed(sg)|) % PAGE_SIZE + lastLength < PAGE_SIZE
      modifies this
      ensures On(sg)
      ensures addr % PAGE_SIZE == (sg[0].addr + |old(Consumed(sg))|) % PAGE_SIZE
      ensures len == Min(PAGE_SIZE - addr % PAGE_SIZE - old(lastLength), bytes - |old(Consumed(sg))|)
      ensures 0 < len == lastLength
      ensures Consumed(sg) == old(Consumed(sg)) + Range(addr, len)
    {
      hide ConsumedAt, MdlShape, Start, Range;
      NotAtEnd(sg, bytes, index, offset);
      ChunkLength(sg, bytes, index, offset, lastLength);
      var element := sg[index];
      addr := element.addr + offset;
      len := Min(PAGE_SIZE - addr % PAGE_SIZE - lastLength, element.length - offset);
      assert len <= PAGE_SIZE;          // asserted by the driver
      assert offset < element.length;   // asserted by the driver
      ConsumeStep(sg, index, offset, len);
      lastLength := len;
      offset := offset + len;
      if offset >= element.length {
        index := index + 1;
        offset := 0;
      }
    }
  }
}
