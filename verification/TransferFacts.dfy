/** What follows from a correct translation: how many ring slots it needs, that its bounce pages are
    all different, and where the driver's narrow integers are wide enough. */
module TransferFacts {
  import opened Basics
  import opened Arithmetic
  import opened Transfer
  import opened Requests

  lemma {:induction false} FlattenLength(reqs: seq<Request>)
    requires reqs != [] && Full(reqs, true)
    ensures |Flatten(reqs)| == MAX_SEGMENTS * (|reqs| - 1) + |reqs[|reqs| - 1].segments|
  {
    var front := reqs[..|reqs| - 1];
    if front != [] {
      FlattenLength(front);
    }
  }

  /** The number of requests is the number of pages touched, eleven to a request, rounded up. */
  lemma RequestCount(reqs: seq<Request>, op: Operation, sg: seq<SgElement>, start: nat, n: nat, ss: nat)
    requires |sg| > 0 && ss > 0 && n > 0 && Translates(reqs, op, sg, start, n, ss)
    ensures |reqs| == (SegmentCount(sg, ss, n * ss) + MAX_SEGMENTS - 1) / MAX_SEGMENTS
  {
    assert n * ss > 0;
    assert reqs != [];
    FlattenLength(reqs);
  }

  /** The longest transfer the driver announces needs 17 requests when it is granted in place and
      starts inside a page, 16 when it is bounced. */
  lemma MaximalTransfer(reqs: seq<Request>, op: Operation, sg: seq<SgElement>, start: nat, n: nat, ss: nat)
    requires |sg| > 0 && ss > 0 && n > 0 && Translates(reqs, op, sg, start, n, ss)
    requires n * ss <= MAX_TRANSFER_LENGTH
    ensures |reqs| <= MAX_REQUESTS_PER_SRB + 1
    ensures sg[0].addr % ss != 0 || sg[0].addr % PAGE_SIZE == 0 ==> |reqs| <= MAX_REQUESTS_PER_SRB
  {
    RequestCount(reqs, op, sg, start, n, ss);
  }

  /** A transfer is granted in place throughout or bounced throughout, by the alignment of its
      first byte alone. */
  lemma AllOrNothingBounced(reqs: seq<Request>, op: Operation, sg: seq<SgElement>, start: nat, n: nat, ss: nat, r: nat,
                            k: nat)
    requires |sg| > 0 && ss > 0 && Translates(reqs, op, sg, start, n, ss)
    requires r < |reqs| && k < |reqs[r].segments|
    ensures reqs[r].segments[k].buffer != 0 <==> sg[0].addr % ss != 0
    ensures GoodSegment(reqs[r].segments[k], op, sg[0].addr % ss != 0, ss)
  {
    FlattenAt(reqs, r, k);
  }

  lemma {:induction false} FlattenAt(reqs: seq<Request>, r: nat, k: nat)
    requires r < |reqs| && k < |reqs[r].segments|
    ensures var i := |Flatten(reqs[..r])| + k;
            && i < |Flatten(reqs)| && Flatten(reqs)[i] == reqs[r].segments[k]
            && Flatten(reqs)[..i] == Flatten(reqs[..r]) + reqs[r].segments[..k]
  {
    var front := reqs[..|reqs| - 1];
    if r < |front| {
      FlattenAt(front, r, k);
      assert front[..r] == reqs[..r];
      var i := |Flatten(reqs[..r])| + k;
      assert Flatten(reqs)[..i] == Flatten(front)[..i];
    } else {
      assert reqs[..r] == front;
    }
  }

  lemma {:induction false} SectorsConcat(a: seq<Segment>, b: seq<Segment>)
    ensures SegmentSectors(a + b) == SegmentSectors(a) + SegmentSectors(b)
  {
    if b == [] {
      assert a + b == a;
    } else {
      assert (a + b)[..|a + b| - 1] == a + b[..|b| - 1];
      SectorsConcat(a, b[..|b| - 1]);
    }
  }

  /** The sector that the backend computes for segment k of request r is the one at which the
      bytes of that segment belong. */
  lemma BackendSector(reqs: seq<Request>, op: Operation, sg: seq<SgElement>, start: nat, n: nat, ss: nat, r: nat,
                      k: nat)
    requires |sg| > 0 && ss > 0 && Translates(reqs, op, sg, start, n, ss)
    requires r < |reqs| && k < |reqs[r].segments|
    ensures var i := |Flatten(reqs[..r])| + k;
            && i < |Flatten(reqs)| && Flatten(reqs)[i] == reqs[r].segments[k]
            && reqs[r].firstSector + SegmentSectors(reqs[r].segments[..k]) == start + SegmentSectors(Flatten(reqs)[..i])
  {
    FlattenAt(reqs, r, k);
    SectorsConcat(Flatten(reqs[..r]), reqs[r].segments[..k]);
  }

  /** While the requests are live no two segments share a bounce page or a grant reference. */
  lemma NoSharing(env: Resources, n: int, before: seq<Segment>, segs: seq<Segment>, i: nat, j: nat)
    requires env.Holds(n, before + segs) && i < j < |segs|
    ensures segs[i].buffer != 0 ==> segs[i].buffer != segs[j].buffer
    ensures segs[i].grant.ref != 0 ==> segs[i].grant.ref != segs[j].grant.ref
  {
    hide Grants, Buffers, Pages;
    var a, b := before + segs[..i], segs[i + 1..j];
    var c := segs[j + 1..];
    assert before + segs == a + [segs[i]] + (b + [segs[j]] + c);
    DropSegment(a, segs[i], b + [segs[j]] + c);
    assert a + (b + [segs[j]] + c) == (a + b) + [segs[j]] + c;
    DropSegment(a + b, segs[j], c);
    NoSharingCounts(env.grants, Grants(a + b + c), GrantOf(segs[i]), GrantOf(segs[j]));
    NoSharingCounts(env.buffers, Buffers(a + b + c), BufferOf(segs[i]), BufferOf(segs[j]));
  }

  lemma NoSharingCounts(all: multiset<int>, rest: multiset<int>, one: multiset<int>, other: multiset<int>)
    requires all == rest + other + one && forall x :: all[x] <= 1
    ensures forall x :: x in one ==> x !in other
  {
    forall x | x in one ensures x !in other {
      assert all[x] == rest[x] + other[x] + one[x];
    }
  }

  // ---------------------------------------------------------------- narrow integers

  /** The protocol's sector bytes hold every sector number of a page exactly when sectors have at
      least 16 bytes. */
  lemma SectorByteIsExact(ss: nat)
    requires ss > 0 && PAGE_SIZE % ss == 0
    ensures (forall sector: nat :: sector < SectorsPerPage(ss) ==> sector % 256 == sector) <==> 16 <= ss
  {
    assert SectorsPerPage(ss) * ss == PAGE_SIZE;
    if 16 <= ss {
      MulMonotone(16, ss, SectorsPerPage(ss));
    } else if SectorsPerPage(ss) <= 256 {
      MulMonotone(SectorsPerPage(ss), 256, ss);
    } else {
      assert 256 % 256 != 256;
    }
  }

  /** The driver's range check, whose sum wraps at 64 bits. */
  predicate ValidateSectors(sectorCount: nat, start: nat, length: nat) {
    start < sectorCount && (start + length) % TWO_64 <= sectorCount
  }

  /** The check is exact for every request if and only if the disk is not within a request's
      length of the end of the 64-bit sector numbers. */
  lemma ValidateSectorsIsExact(sectorCount: nat)
    requires sectorCount < TWO_64
    ensures (forall start: nat, length: nat :: length < TWO_32 ==>
              (ValidateSectors(sectorCount, start, length) <==> start < sectorCount && start + length <= sectorCount))
            <==> sectorCount <= TWO_64 - TWO_32 + 1
  {
    if sectorCount > TWO_64 - TWO_32 + 1 {
      assert ValidateSectors(sectorCount, sectorCount - 1, TWO_32 - 1);
    }
  }

  /** Where the check is exact, the sector numbers of all requests fit 64 bits. */
  lemma SectorNumbersFit(reqs: seq<Request>, op: Operation, sg: seq<SgElement>, sectorCount: nat, start: nat, n: nat,
                         ss: nat, r: nat)
    requires |sg| > 0 && ss > 0 && Translates(reqs, op, sg, start, n, ss) && r < |reqs|
    requires sectorCount <= TWO_64 - TWO_32 + 1 && n < TWO_32 && ValidateSectors(sectorCount, start, n)
    ensures reqs[r].firstSector < sectorCount
  {
    hide Flatten, SegmentBytes, SegmentSectors, GoodSegment, SegmentCount, Full;
    HasSegments(reqs, r);
    FlattenAt(reqs, r, 0);
    assert reqs[r].segments[..0] == [];
    var before := Flatten(reqs[..r]);
    assert Flatten(reqs)[..|before|] == before;
    AllOrNothingBounced(reqs, op, sg, start, n, ss, r, 0);
    PrefixIsShort(Flatten(reqs), |before|, op, sg[0].addr % ss != 0, ss);
  }

  lemma HasSegments(reqs: seq<Request>, r: nat)
    requires Full(reqs, true) && r < |reqs|
    ensures 0 < |reqs[r].segments|
  {
  }

  lemma PrefixIsShort(segs: seq<Segment>, i: nat, op: Operation, bounced: bool, ss: nat)
    requires i < |segs| && GoodSegment(segs[i], op, bounced, ss)
    ensures SegmentSectors(segs[..i]) < SegmentSectors(segs)
  {
    var a, b, c := segs[..i], [segs[i]], segs[i + 1..];
    assert segs == a + b + c;
    SectorsConcat(a + b, c);
    assert (a + b)[..|a + b| - 1] == a;
  }
}
