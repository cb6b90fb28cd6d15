/** Translating one read or write into block requests, and what those requests own. */
module Requests {
  import opened Basics
  import opened Arithmetic
  import opened Transfer

  datatype Operation = READ | WRITE | WRITE_BARRIER

  /** An entry of the grant table: which frame the backend may touch, and how. */
  datatype Grant = Grant(ref: nat, frame: nat, readOnly: bool)

  const NO_GRANT := Grant(0, 0, false)

  /** One segment of a request. A bounce page is named by its frame; reference 0 and buffer 0 mean
      none. Mapped tells whether the one or two frames pfn0, pfn1 are mapped for copying. */
  datatype Segment = Segment(grant: Grant, firstSector: nat, lastSector: nat, buffer: nat,
                             mapped: bool, length: nat, pfn0: nat, pfn1: nat, byteOffset: nat)

  const EMPTY_SEGMENT := Segment(NO_GRANT, 0, 0, 0, false, 0, 0, 0, 0)

  datatype Request = Request(operation: Operation, firstSector: nat, segments: seq<Segment>)

  // ---------------------------------------------------------------- what segments mean

  function Sectors(seg: Segment): nat {
    if seg.firstSector <= seg.lastSector then seg.lastSector - seg.firstSector + 1 else 0
  }

  /** The addresses that the backend reads or writes for a segment. */
  function DeviceBytes(seg: Segment, ss: nat): (r: seq<nat>)
    ensures |r| == Sectors(seg) * ss
  {
    Range(seg.grant.frame * PAGE_SIZE + seg.firstSector * ss, Sectors(seg) * ss)
  }

  /** The addresses of the caller's buffer that a segment stands for. */
  function CallerBytes(seg: Segment, ss: nat): seq<nat> {
    if seg.buffer == 0 then
      DeviceBytes(seg, ss)
    else
      BouncedBytes(seg.pfn0, seg.pfn1, seg.byteOffset, seg.length)
  }

  /** The bytes of one frame from an offset on, continued at the start of a second frame. */
  function BouncedBytes(pfn0: nat, pfn1: nat, byteOffset: nat, length: nat): (r: seq<nat>)
    ensures |r| == length
  {
    var n := if byteOffset <= PAGE_SIZE then Min(length, PAGE_SIZE - byteOffset) else 0;
    Range(pfn0 * PAGE_SIZE + byteOffset, n) + Range(pfn1 * PAGE_SIZE, length - n)
  }

  function SegmentBytes(segs: seq<Segment>, ss: nat): seq<nat> {
    if segs == [] then [] else SegmentBytes(segs[..|segs| - 1], ss) + CallerBytes(segs[|segs| - 1], ss)
  }

  function SegmentSectors(segs: seq<Segment>): nat {
    if segs == [] then 0 else SegmentSectors(segs[..|segs| - 1]) + Sectors(segs[|segs| - 1])
  }

  /** All segments of a list of requests, in order. */
  function Flatten(reqs: seq<Request>): seq<Segment> {
    if reqs == [] then [] else Flatten(reqs[..|reqs| - 1]) + reqs[|reqs| - 1].segments
  }

  // ---------------------------------------------------------------- what segments own

  function MappedPages(pfn0: nat, pfn1: nat): nat {
    (if pfn0 != 0 then 1 else 0) + (if pfn1 != 0 then 1 else 0)
  }

  function GrantOf(seg: Segment): multiset<int> {
    if seg.grant.ref != 0 then multiset{seg.grant.ref} else multiset{}
  }

  function BufferOf(seg: Segment): multiset<int> {
    if seg.buffer != 0 then multiset{seg.buffer} else multiset{}
  }

  function PagesOf(seg: Segment): nat {
    if seg.mapped then MappedPages(seg.pfn0, seg.pfn1) else 0
  }

  function Grants(segs: seq<Segment>): multiset<int> {
    if segs == [] then multiset{} else Grants(segs[..|segs| - 1]) + GrantOf(segs[|segs| - 1])
  }

  function Buffers(segs: seq<Segment>): multiset<int> {
    if segs == [] then multiset{} else Buffers(segs[..|segs| - 1]) + BufferOf(segs[|segs| - 1])
  }

  function Pages(segs: seq<Segment>): nat {
    if segs == [] then 0 else Pages(segs[..|segs| - 1]) + PagesOf(segs[|segs| - 1])
  }

  lemma {:induction false} GrantsConcat(a: seq<Segment>, b: seq<Segment>)
    ensures Grants(a + b) == Grants(a) + Grants(b)
  {
    if b == [] {
      assert a + b == a;
    } else {
      assert (a + b)[..|a + b| - 1] == a + b[..|b| - 1];
      GrantsConcat(a, b[..|b| - 1]);
    }
  }

  lemma {:induction false} BuffersConcat(a: seq<Segment>, b: seq<Segment>)
    ensures Buffers(a + b) == Buffers(a) + Buffers(b)
  {
    if b == [] {
      assert a + b == a;
    } else {
      assert (a + b)[..|a + b| - 1] == a + b[..|b| - 1];
      BuffersConcat(a, b[..|b| - 1]);
    }
  }

  lemma {:induction false} PagesConcat(a: seq<Segment>, b: seq<Segment>)
    ensures Pages(a + b) == Pages(a) + Pages(b)
  {
    if b == [] {
      assert a + b == a;
    } else {
      assert (a + b)[..|a + b| - 1] == a + b[..|b| - 1];
      PagesConcat(a, b[..|b| - 1]);
    }
  }

  lemma DropSegment(before: seq<Segment>, seg: Segment, after: seq<Segment>)
    ensures Grants(before + [seg] + after) == Grants(before + after) + GrantOf(seg)
    ensures Buffers(before + [seg] + after) == Buffers(before + after) + BufferOf(seg)
    ensures Pages(before + [seg] + after) == Pages(before + after) + PagesOf(seg)
  {
    hide Grants, Buffers, Pages;
    AppendSegment(before, seg);
    GrantsConcat(before + [seg], after);
    GrantsConcat(before, after);
    BuffersConcat(before + [seg], after);
    BuffersConcat(before, after);
    PagesConcat(before + [seg], after);
    PagesConcat(before, after);
  }

  /** What is in use is exactly what n requests with these segments hold, and no grant reference and
      no bounce page is in use twice. */
  ghost predicate Tally(used: int, grants: multiset<int>, buffers: multiset<int>, pages: int, n: int,
                        segs: seq<Segment>) {
    && used == n
    && grants == Grants(segs)
    && buffers == Buffers(segs)
    && pages == Pages(segs)
    && (forall r :: grants[r] <= 1)
    && (forall b :: buffers[b] <= 1)
  }

  /** A grant that was free becomes part of the last segment. */
  lemma TallyGrant(used: int, grants: multiset<int>, buffers: multiset<int>, pages: int, n: int, live: seq<Segment>,
                   seg0: Segment, seg: Segment)
    requires Tally(used, grants, buffers, pages, n, live + [seg0]) && seg0.grant.ref == 0
    requires seg.grant.ref != 0 && seg.grant.ref !in grants
    requires seg == seg0.(grant := seg.grant, firstSector := seg.firstSector, lastSector := seg.lastSector)
    ensures Tally(used, grants + multiset{seg.grant.ref}, buffers, pages, n, live + [seg])
  {
    hide Grants, Buffers, Pages;
    AppendSegment(live, seg0);
    AppendSegment(live, seg);
    assert GrantOf(seg0) == multiset{} && BufferOf(seg0) == BufferOf(seg) && PagesOf(seg0) == PagesOf(seg);
  }

  lemma TallyBuffer(used: int, grants: multiset<int>, buffers: multiset<int>, pages: int, n: int, live: seq<Segment>,
                    seg0: Segment, buffer: nat)
    requires Tally(used, grants, buffers, pages, n, live + [seg0]) && seg0.buffer == 0
    requires buffer != 0 && buffer !in buffers
    ensures Tally(used, grants, buffers + multiset{buffer}, pages, n, live + [seg0.(buffer := buffer)])
  {
    hide Grants, Buffers, Pages;
    var seg := seg0.(buffer := buffer);
    AppendSegment(live, seg0);
    AppendSegment(live, seg);
    assert BufferOf(seg0) == multiset{} && GrantOf(seg0) == GrantOf(seg) && PagesOf(seg0) == PagesOf(seg);
  }

  lemma TallyPages(used: int, grants: multiset<int>, buffers: multiset<int>, pages: int, n: int, live: seq<Segment>,
                   seg0: Segment, mapped: bool)
    requires Tally(used, grants, buffers, pages, n, live + [seg0]) && !seg0.mapped
    ensures Tally(used, grants, buffers, pages + (if mapped then MappedPages(seg0.pfn0, seg0.pfn1) else 0), n,
                  live + [seg0.(mapped := mapped)])
  {
    hide Grants, Buffers, Pages;
    var seg := seg0.(mapped := mapped);
    AppendSegment(live, seg0);
    AppendSegment(live, seg);
    assert BufferOf(seg0) == BufferOf(seg) && GrantOf(seg0) == GrantOf(seg);
  }

  lemma TallyPlan(used: int, grants: multiset<int>, buffers: multiset<int>, pages: int, n: int, live: seq<Segment>,
                  plan: Segment)
    requires Tally(used, grants, buffers, pages, n, live)
    requires plan.grant.ref == 0 && plan.buffer == 0 && !plan.mapped
    ensures Tally(used, grants, buffers, pages, n, live + [plan])
  {
    hide Grants, Buffers, Pages;
    AppendSegment(live, plan);
  }

  lemma TallyRequest(used: int, grants: multiset<int>, buffers: multiset<int>, pages: int, n: int, live: seq<Segment>,
                     more: int)
    requires Tally(used, grants, buffers, pages, n, live)
    ensures Tally(used + more, grants, buffers, pages, n + more, live)
  {
  }

  /** The driver's counters and the sets of grants and bounce pages in use. Each acquisition may
      fail at any time. */
  class Resources {
    var requestListUsed: int
    var grants: multiset<int>
    var buffers: multiset<int>
    var outstandingMappedPages: int
    ghost var refusals: nat     // how often something could not be acquired

    constructor ()
      ensures Holds(0, [])
    {
      requestListUsed, grants, buffers, outstandingMappedPages := 0, multiset{}, multiset{}, 0;
      refusals := 0;
    }

    ghost predicate Holds(n: int, segs: seq<Segment>)
      reads this
    {
      Tally(requestListUsed, grants, buffers, outstandingMappedPages, n, segs)
    }

    method AllocRequest() returns (ok: bool)
      modifies `requestListUsed, `refusals
      ensures requestListUsed == old(requestListUsed) + if ok then 1 else 0
      ensures refusals == old(refusals) + if ok then 0 else 1
    {
      ok := *;
      if ok {
        requestListUsed := requestListUsed + 1;
      } else {
        refusals := refusals + 1;
      }
    }

    method FreeRequest()
      modifies `requestListUsed
      ensures requestListUsed == old(requestListUsed) - 1
    {
      requestListUsed := requestListUsed - 1;
    }

    method GnttabGet(frame: nat, readOnly: bool) returns (ok: bool, grant: Grant)
      modifies `grants, `refusals
      ensures refusals == old(refusals) + if ok then 0 else 1
      ensures ok ==> grant.ref != 0 && grant.ref !in old(grants) && grants == old(grants) + multiset{grant.ref}
      ensures ok ==> grant.frame == frame && grant.readOnly == readOnly
      ensures !ok ==> grants == old(grants)
    {
      var ref: nat;
      ok, ref := *, *;
      grant := Grant(ref, frame, readOnly);
      if ref == 0 || ref in grants {
        ok := false;
      }
      if ok {
        grants := grants + multiset{ref};
      } else {
        refusals := refusals + 1;
      }
    }

    method BufferGet() returns (ok: bool, buffer: nat)
      modifies `buffers, `refusals
      ensures refusals == old(refusals) + if ok then 0 else 1
      ensures ok ==> buffer != 0 && buffer !in old(buffers) && buffers == old(buffers) + multiset{buffer}
      ensures !ok ==> buffers == old(buffers)
    {
      ok, buffer := *, *;
      if buffer == 0 || buffer in buffers {
        ok := false;
      }
      if ok {
        buffers := buffers + multiset{buffer};
      } else {
        refusals := refusals + 1;
      }
    }

    method MapPages(pfn0: nat, pfn1: nat) returns (ok: bool)
      modifies `outstandingMappedPages, `refusals
      ensures refusals == old(refusals) + if ok then 0 else 1
      ensures outstandingMappedPages == old(outstandingMappedPages) + if ok then MappedPages(pfn0, pfn1) else 0
    {
      ok := *;
      if ok {
        outstandingMappedPages := outstandingMappedPages + MappedPages(pfn0, pfn1);
      } else {
        refusals := refusals + 1;
      }
    }

    method GnttabPut(seg: Segment, ghost rest: multiset<int>)
      requires grants == rest + GrantOf(seg)
      modifies `grants
      ensures grants == rest && forall r :: grants[r] <= old(grants)[r]
    {
      if seg.grant.ref != 0 {
        grants := grants - multiset{seg.grant.ref};
      }
    }

    method BufferPut(seg: Segment, ghost rest: multiset<int>)
      requires buffers == rest + BufferOf(seg)
      modifies `buffers
      ensures buffers == rest && forall b :: buffers[b] <= old(buffers)[b]
    {
      if seg.buffer != 0 {
        buffers := buffers - multiset{seg.buffer};
      }
    }

    /** Gives back what one segment holds, and nothing that it does not hold. */
    method CleanupSegment(seg: Segment, ghost n: int, ghost before: seq<Segment>, ghost after: seq<Segment>)
      requires Holds(n, before + [seg] + after)
      modifies `grants, `buffers, `outstandingMappedPages
      ensures Holds(n, before + after)
    {
      hide Grants, Buffers, Pages;
      DropSegment(before, seg, after);
      GnttabPut(seg, Grants(before + after));
      BufferPut(seg, Buffers(before + after));
      if seg.mapped {
        outstandingMappedPages := outstandingMappedPages - MappedPages(seg.pfn0, seg.pfn1);
      }
    }

    method CleanupRequest(req: Request, ghost n: int, ghost before: seq<Segment>, ghost after: seq<Segment>)
      requires Holds(n, before + req.segments + after)
      modifies `grants, `buffers, `outstandingMappedPages
      ensures Holds(n, before + after)
    {
      var segs := req.segments;
      assert segs == segs[0..];
      for index := 0 to |segs|
        invariant Holds(n, before + segs[index..] + after)
      {
        Regroup(before, segs, index, after);
        CleanupSegment(segs[index], n, before, segs[index + 1..] + after);
      }
      assert before + segs[|segs|..] == before;
    }
  }

  lemma Regroup(before: seq<Segment>, segs: seq<Segment>, i: nat, after: seq<Segment>)
    requires i < |segs|
    ensures before + segs[i..] + after == before + [segs[i]] + (segs[i + 1..] + after)
    ensures before + (segs[i + 1..] + after) == before + segs[i + 1..] + after
  {
    assert segs[i..] == [segs[i]] + segs[i + 1..];
  }

  // ---------------------------------------------------------------- PrepareReadWrite

  /** Where in its page a transfer starts as far as segments are concerned: a transfer that is
      bounced is realigned, so it starts at the beginning of a page. */
  function SegmentPhase(sg: seq<SgElement>, ss: nat): nat
    requires |sg| > 0 && ss > 0
  {
    if sg[0].addr % ss == 0 then sg[0].addr % PAGE_SIZE else 0
  }

  /** Segments cover the transfer page by page: one ends where the next page begins. */
  ghost predicate AtSegment(sg: seq<SgElement>, ss: nat, pos: nat)
    requires |sg| > 0 && ss > 0
  {
    pos == 0 || (SegmentPhase(sg, ss) + pos) % PAGE_SIZE == 0
  }

  /** The position after the segment that starts at pos. */
  ghost function NextSegment(sg: seq<SgElement>, ss: nat, bytes: nat, pos: nat): int
    requires |sg| > 0 && ss > 0
  {
    var phase := SegmentPhase(sg, ss);
    Min(bytes, ((phase + pos) / PAGE_SIZE + 1) * PAGE_SIZE - phase)
  }

  /** Whether a chunk is aligned depends only on where the whole transfer starts. */
  lemma AlignmentIsUniform(start: nat, pos: nat, addr: nat, ss: nat)
    requires ValidSectorSize(ss) && pos % ss == 0 && addr % PAGE_SIZE == (start + pos) % PAGE_SIZE
    ensures addr % ss == start % ss
  {
    ModOfPage(addr, ss);
    ModOfPage(start + pos, ss);
    var k := pos / ss;
    assert pos == k * ss;
    ModPlusMultiple(start, k, ss);
    assert (start + pos) % ss == start % ss;
  }

  /** A chunk that fills its page, or the rest of the transfer, ends where the next page begins. */
  lemma NextPage(start: nat, pos: nat, bytes: nat, len: nat)
    requires pos < bytes && len == Min(PAGE_SIZE - (start + pos) % PAGE_SIZE, bytes - pos)
    ensures var phase := start % PAGE_SIZE;
            pos + len == Min(bytes, ((phase + pos) / PAGE_SIZE + 1) * PAGE_SIZE - phase)
  {
  }

  /** What is left of a bounce page after its first chunk. */
  lemma SecondChunk(start: nat, pos: nat, bytes: nat, len: nat, total: nat)
    requires pos < bytes && pos % PAGE_SIZE == 0
    requires len == Min(PAGE_SIZE - (start + pos) % PAGE_SIZE, bytes - pos)
    requires total == Min(bytes - pos, PAGE_SIZE)
    ensures len <= total
    ensures len < total ==> start % PAGE_SIZE != 0 && len == PAGE_SIZE - start % PAGE_SIZE
    ensures len < total ==> (start + (pos + len)) % PAGE_SIZE == 0 && pos + len < bytes
    ensures len < total && start % PAGE_SIZE != 0 ==>
            len < PAGE_SIZE && Min(PAGE_SIZE - len, bytes - (pos + len)) == total - len
  {
    assert (start + pos) % PAGE_SIZE == start % PAGE_SIZE;
  }

  /** A chunk of an aligned transfer is a whole number of sectors, and covers its page. */
  lemma GrantedPlan(sg: seq<SgElement>, addr: nat, len: nat, left: nat, ss: nat, pos: nat, bytes: nat)
    requires ValidSectorSize(ss) && |sg| > 0 && sg[0].addr % ss == 0
    requires pos % ss == 0 && pos < bytes && bytes - pos == left * ss
    requires addr % PAGE_SIZE == (sg[0].addr + pos) % PAGE_SIZE
    requires len == Min(PAGE_SIZE - addr % PAGE_SIZE, bytes - pos)
    ensures addr % ss == 0 && len % ss == 0
    ensures var first := (addr % PAGE_SIZE + ss - 1) / ss;
            var now := Min(left, SectorsPerPage(ss) - first);
      && 0 < now <= left && 0 <= first && first + now <= 256 && first * ss + now * ss <= PAGE_SIZE
      && len / ss == now && now * ss == len
      && pos + now * ss == NextSegment(sg, ss, bytes, pos)
      && addr / PAGE_SIZE * PAGE_SIZE + first * ss == addr
  {
    AlignmentIsUniform(sg[0].addr, pos, addr, ss);
    GrantedGeometry(addr, len, left, ss);
    NextPage(sg[0].addr, pos, bytes, len);
  }

  /** An unaligned transfer fills whole bounce pages, each from the rest of one page of the caller
      and the beginning of the next. */
  lemma BouncedPlan(sg: seq<SgElement>, addr: nat, len: nat, left: nat, ss: nat, pos: nat, bytes: nat)
    requires ValidSectorSize(ss) && |sg| > 0 && sg[0].addr % ss != 0 && AtSegment(sg, ss, pos)
    requires pos % ss == 0 && pos < bytes && bytes - pos == left * ss
    requires addr % PAGE_SIZE == (sg[0].addr + pos) % PAGE_SIZE
    requires len == Min(PAGE_SIZE - addr % PAGE_SIZE, bytes - pos)
    ensures addr % ss != 0
    ensures var now := Min(left, SectorsPerPage(ss));
      && 0 < now <= left && now <= 256 && 0 < now * ss <= PAGE_SIZE
      && (now * ss) % ss == 0 && (now * ss) / ss == now
      && pos + now * ss == NextSegment(sg, ss, bytes, pos)
      && len <= now * ss
      && (len < now * ss ==>
            && len == PAGE_SIZE - addr % PAGE_SIZE && len < PAGE_SIZE && pos + len < bytes
            && (sg[0].addr + (pos + len)) % PAGE_SIZE == 0
            && Min(PAGE_SIZE - len, bytes - (pos + len)) == now * ss - len)
  {
    AlignmentIsUniform(sg[0].addr, pos, addr, ss);
    BouncedGeometry(addr, len, left, ss);
    SecondChunk(sg[0].addr, pos, bytes, len, Min(left, SectorsPerPage(ss)) * ss);
  }

  lemma TwoChunks(addr: nat, len: nat, total: nat, pfn1: nat)
    requires 0 < len <= total && (len < total ==> len == PAGE_SIZE - addr % PAGE_SIZE)
    requires len <= PAGE_SIZE - addr % PAGE_SIZE
    ensures BouncedBytes(addr / PAGE_SIZE, pfn1, addr % PAGE_SIZE, total)
            == Range(addr, len) + Range(pfn1 * PAGE_SIZE, total - len)
    ensures len == total ==> Range(pfn1 * PAGE_SIZE, total - len) == []
  {
    assert addr / PAGE_SIZE * PAGE_SIZE + addr % PAGE_SIZE == addr;
  }

  /** The geometry of the next segment: the sectors from first on of a frame, where the frame is
      the caller's own page, or a bounce page that one or two of the caller's pages share. */
  method PlanSegment(cursor: SgCursor, sg: seq<SgElement>, left: nat, ss: nat, ghost pos: nat, ghost bytes: nat)
    returns (bounced: bool, plan: Segment, frame: nat, first: nat, now: nat)
    requires ValidSectorSize(ss) && MdlShape(sg, bytes)
    requires cursor.On(sg) && |cursor.Consumed(sg)| == pos < bytes && AtSegment(sg, ss, pos)
    requires pos % ss == 0 && bytes - pos == left * ss
    modifies cursor
    ensures cursor.On(sg)
    ensures bounced <==> sg[0].addr % ss != 0
    ensures 0 < now <= left && first + now <= 256 && first * ss + now * ss <= PAGE_SIZE
    ensures pos + now * ss == NextSegment(sg, ss, bytes, pos)
    ensures !bounced ==> plan == EMPTY_SEGMENT
    ensures !bounced ==>
            cursor.Consumed(sg) == old(cursor.Consumed(sg)) + Range(frame * PAGE_SIZE + first * ss, now * ss)
    ensures bounced ==> first == 0 && plan.length == now * ss
    ensures bounced ==>
            plan == EMPTY_SEGMENT.(length := plan.length, pfn0 := plan.pfn0, pfn1 := plan.pfn1,
                                   byteOffset := plan.byteOffset)
    ensures bounced ==> cursor.Consumed(sg) == old(cursor.Consumed(sg))
                        + BouncedBytes(plan.pfn0, plan.pfn1, plan.byteOffset, plan.length)
  {
    hide MdlShape, ConsumedAt, ValidSectorSize, BouncedBytes, NextSegment, AtSegment, SectorsPerPage, Range;
    plan, first, frame := EMPTY_SEGMENT, 0, 0;
    cursor.lastLength := 0;
    var addr, len := cursor.GetPhysAddr(sg, bytes);
    ChunkAlignment(sg, addr, len, left, ss, pos, bytes);
    bounced := !(addr % ss == 0 && len % ss == 0);
    if !bounced {
      frame, first, now := PlanGranted(sg, left, ss, addr, len, pos, bytes);
    } else {
      now, plan := PlanBounced(cursor, sg, left, ss, addr, len, pos, bytes, old(cursor.Consumed(sg)));
    }
  }

  /** A segment on the caller's own page. */
  method PlanGranted(sg: seq<SgElement>, left: nat, ss: nat, addr: nat, len: nat, ghost pos: nat, ghost bytes: nat)
    returns (frame: nat, first: nat, now: nat)
    requires ValidSectorSize(ss) && |sg| > 0 && sg[0].addr % ss == 0
    requires pos % ss == 0 && pos < bytes && bytes - pos == left * ss
    requires addr % PAGE_SIZE == (sg[0].addr + pos) % PAGE_SIZE
    requires len == Min(PAGE_SIZE - addr % PAGE_SIZE, bytes - pos)
    ensures 0 < now <= left && first + now <= 256 && first * ss + now * ss <= PAGE_SIZE
    ensures pos + now * ss == NextSegment(sg, ss, bytes, pos)
    ensures Range(frame * PAGE_SIZE + first * ss, now * ss) == Range(addr, len)
  {
    hide ValidSectorSize, NextSegment, SectorsPerPage, Range;
    GrantedPlan(sg, addr, len, left, ss, pos, bytes);
    first := (addr % PAGE_SIZE + ss - 1) / ss;
    now := Min(left, SectorsPerPage(ss) - first);
    assert len / ss == now;   // asserted by the driver
    assert len % ss == 0;     // asserted by the driver
    frame := addr / PAGE_SIZE;
  }

  lemma ChunkAlignment(sg: seq<SgElement>, addr: nat, len: nat, left: nat, ss: nat, pos: nat, bytes: nat)
    requires ValidSectorSize(ss) && |sg| > 0 && AtSegment(sg, ss, pos)
    requires pos % ss == 0 && pos < bytes && bytes - pos == left * ss
    requires addr % PAGE_SIZE == (sg[0].addr + pos) % PAGE_SIZE
    requires len == Min(PAGE_SIZE - addr % PAGE_SIZE, bytes - pos)
    ensures addr % ss == 0 && len % ss == 0 <==> sg[0].addr % ss == 0
  {
    hide ValidSectorSize, NextSegment, SectorsPerPage, AtSegment;
    if sg[0].addr % ss == 0 {
      GrantedPlan(sg, addr, len, left, ss, pos, bytes);
    } else {
      BouncedPlan(sg, addr, len, left, ss, pos, bytes);
    }
  }

  method PlanBounced(cursor: SgCursor, sg: seq<SgElement>, left: nat, ss: nat, addr: nat, len: nat,
                     ghost pos: nat, ghost bytes: nat, ghost before: seq<nat>)
    returns (now: nat, plan: Segment)
    requires ValidSectorSize(ss) && MdlShape(sg, bytes) && pos < bytes && AtSegment(sg, ss, pos)
    requires pos % ss == 0 && bytes - pos == left * ss
    requires addr % PAGE_SIZE == (sg[0].addr + pos) % PAGE_SIZE
    requires sg[0].addr % ss != 0 && 0 < len == Min(PAGE_SIZE - addr % PAGE_SIZE, bytes - pos)
    requires cursor.On(sg) && |before| == pos && cursor.Consumed(sg) == before + Range(addr, len)
             && cursor.lastLength == len
    modifies cursor
    ensures cursor.On(sg)
    ensures 0 < now <= left && now <= 256 && now * ss <= PAGE_SIZE
    ensures pos + now * ss == NextSegment(sg, ss, bytes, pos)
    ensures plan == EMPTY_SEGMENT.(length := now * ss, pfn0 := plan.pfn0, pfn1 := plan.pfn1,
                                   byteOffset := plan.byteOffset)
    ensures cursor.Consumed(sg) == before + BouncedBytes(plan.pfn0, plan.pfn1, plan.byteOffset, plan.length)
  {
    hide MdlShape, ConsumedAt, ValidSectorSize, BouncedBytes, NextSegment, AtSegment, SectorsPerPage, Range;
    BouncedPlan(sg, addr, len, left, ss, pos, bytes);
    now := Min(left, SectorsPerPage(ss));
    var byteCount, pfn1 := len, 0;
    if len < now * ss {
      var addr1, len1 := cursor.GetPhysAddr(sg, bytes);
      byteCount := byteCount + len1;
      pfn1 := addr1 / PAGE_SIZE;
      assert pfn1 * PAGE_SIZE == addr1;
    }
    assert byteCount % ss == 0;         // asserted by the driver
    assert byteCount <= PAGE_SIZE;      // asserted by the driver
    assert now == byteCount / ss;       // asserted by the driver
    plan := EMPTY_SEGMENT.(length := Min(byteCount, PAGE_SIZE), pfn0 := addr / PAGE_SIZE, pfn1 := pfn1,
                           byteOffset := addr % PAGE_SIZE);
    TwoChunks(addr, len, now * ss, pfn1);
    assert before + Range(addr, len) + Range(pfn1 * PAGE_SIZE, now * ss - len)
        == before + (Range(addr, len) + Range(pfn1 * PAGE_SIZE, now * ss - len));
  }

  /** Maps the caller's pages and takes a bounce page. Whatever was acquired before a failure is
      recorded in the segment. */
  method BounceSegment(env: Resources, plan: Segment, ghost n: int, ghost live: seq<Segment>)
      returns (ok: bool, seg: Segment)
    requires env.Holds(n, live + [plan]) && plan.buffer == 0 && !plan.mapped
    modifies env
    ensures env.refusals >= old(env.refusals) && (!ok ==> env.refusals > old(env.refusals))
    ensures env.Holds(n, live + [seg])
    ensures seg == plan.(buffer := seg.buffer, mapped := seg.mapped)
    ensures ok ==> seg.buffer != 0 && seg.mapped
  {
    hide Tally, MappedPages;
    TallyPages(env.requestListUsed, env.grants, env.buffers, env.outstandingMappedPages, n, live, plan, true);
    TallyPages(env.requestListUsed, env.grants, env.buffers, env.outstandingMappedPages, n, live, plan, false);
    var mapped := env.MapPages(plan.pfn0, plan.pfn1);
    seg := plan.(mapped := mapped);
    if !mapped {
      return false, seg;
    }
    var buffer;
    ok, buffer := env.BufferGet();
    if ok {
      TallyBuffer(env.requestListUsed, env.grants, old(env.buffers), env.outstandingMappedPages, n, live, seg, buffer);
      seg := seg.(buffer := buffer);
    }
  }

  method GrantSegment(env: Resources, op: Operation, seg0: Segment, frame: nat, first: nat, now: nat,
                      ghost n: int, ghost live: seq<Segment>)
    returns (ok: bool, seg: Segment)
    requires env.Holds(n, live + [seg0]) && seg0.grant == NO_GRANT && 0 < now && first + now <= 256
    modifies env
    ensures env.refusals >= old(env.refusals) && (!ok ==> env.refusals > old(env.refusals))
    ensures env.Holds(n, live + [seg])
    ensures ok ==> seg == seg0.(grant := seg.grant, firstSector := first, lastSector := first + now - 1)
    ensures ok ==> seg.grant.ref != 0 && seg.grant.frame == frame && seg.grant.readOnly == op.WRITE?
  {
    hide Tally;
    var grant;
    ok, grant := env.GnttabGet(frame, op.WRITE?);
    seg := seg0;
    if ok {
      seg := seg0.(grant := grant, firstSector := first % 256, lastSector := (first + now - 1) % 256);
      TallyGrant(env.requestListUsed, old(env.grants), env.buffers, env.outstandingMappedPages, n, live, seg0, seg);
    }
  }

  lemma AppendSegment(live: seq<Segment>, seg: Segment)
    ensures Grants(live + [seg]) == Grants(live) + GrantOf(seg)
    ensures Buffers(live + [seg]) == Buffers(live) + BufferOf(seg)
    ensures Pages(live + [seg]) == Pages(live) + PagesOf(seg)
  {
    assert (live + [seg])[..|live|] == live;
  }

  /** One turn of the driver's inner loop. */
  method PrepareSegment(env: Resources, cursor: SgCursor, op: Operation, sg: seq<SgElement>, left: nat, ss: nat,
                        ghost pos: nat, ghost bytes: nat, ghost n: int, ghost live: seq<Segment>)
    returns (ok: bool, seg: Segment, now: nat)
    requires env.Holds(n, live)
    requires ValidSectorSize(ss) && MdlShape(sg, bytes)
    requires cursor.On(sg) && |cursor.Consumed(sg)| == pos < bytes && AtSegment(sg, ss, pos)
    requires pos % ss == 0 && bytes - pos == left * ss
    modifies env, cursor
    ensures env.refusals >= old(env.refusals) && (!ok ==> env.refusals > old(env.refusals))
    ensures env.Holds(n, live + [seg])
    ensures 0 < now <= left && pos + now * ss == NextSegment(sg, ss, bytes, pos)
    ensures cursor.On(sg)
    ensures ok ==> cursor.Consumed(sg) == old(cursor.Consumed(sg)) + CallerBytes(seg, ss)
    ensures ok ==> Sectors(seg) == now && GoodSegment(seg, op, sg[0].addr % ss != 0, ss)
  {
    hide MdlShape, ConsumedAt, ValidSectorSize, BouncedBytes, AtSegment, NextSegment, Tally;
    var bounced, plan, frame, first;
    bounced, plan, frame, first, now := PlanSegment(cursor, sg, left, ss, pos, bytes);
    TallyPlan(env.requestListUsed, env.grants, env.buffers, env.outstandingMappedPages, n, live, plan);
    ok, seg := true, plan;
    if bounced {
      ok, seg := BounceSegment(env, plan, n, live);
      frame := seg.buffer;
    }
    if ok {
      ok, seg := GrantSegment(env, op, seg, frame, first, now, n, live);
    }
  }

  /** A finished segment: the backend may touch exactly the page that carries the data, and may
      write to it only if the guest is reading. */
  ghost predicate GoodSegment(seg: Segment, op: Operation, bounced: bool, ss: nat) {
    && seg.grant.ref != 0
    && (seg.grant.readOnly <==> op.WRITE?)
    && seg.firstSector <= seg.lastSector < 256
    && seg.firstSector * ss + Sectors(seg) * ss <= PAGE_SIZE
    && (seg.buffer != 0 <==> bounced)
    && (seg.mapped <==> bounced)
    && (bounced ==> seg.grant.frame == seg.buffer && seg.firstSector == 0 && seg.length == Sectors(seg) * ss)
  }

  /** How many pages, or bounce pages, a transfer of this size needs. */
  function SegmentCount(sg: seq<SgElement>, ss: nat, bytes: nat): nat
    requires |sg| > 0 && ss > 0
  {
    (SegmentPhase(sg, ss) + bytes + PAGE_SIZE - 1) / PAGE_SIZE
  }

  /** The position reached after so many segments. */
  ghost predicate Covered(sg: seq<SgElement>, ss: nat, bytes: nat, segments: nat, pos: nat)
    requires |sg| > 0 && ss > 0
  {
    if segments == 0 then pos == 0
    else
      && pos == Min(bytes, segments * PAGE_SIZE - SegmentPhase(sg, ss))
      && (segments - 1) * PAGE_SIZE < SegmentPhase(sg, ss) + bytes
  }

  /** The segments made so far stand for exactly the bytes walked over so far. */
  ghost predicate Progress(consumed: seq<nat>, segs: seq<Segment>, op: Operation, sg: seq<SgElement>, ss: nat, n: nat,
                           done: nat)
    requires |sg| > 0 && ss > 0
  {
    && SegmentBytes(segs, ss) == consumed
    && SegmentSectors(segs) == done <= n
    && |consumed| == done * ss
    && (forall i :: 0 <= i < |segs| ==> GoodSegment(segs[i], op, sg[0].addr % ss != 0, ss))
    && Covered(sg, ss, n * ss, |segs|, done * ss)
  }

  lemma ProgressStep(consumed: seq<nat>, segs: seq<Segment>, op: Operation, sg: seq<SgElement>, ss: nat, n: nat,
                     done: nat,
                     seg: Segment, now: nat)
    requires |sg| > 0 && ss > 0 && Progress(consumed, segs, op, sg, ss, n, done)
    requires GoodSegment(seg, op, sg[0].addr % ss != 0, ss)
    requires Sectors(seg) == now <= n - done && |CallerBytes(seg, ss)| == now * ss && done * ss < n * ss
    requires done * ss + now * ss == NextSegment(sg, ss, n * ss, done * ss)
    ensures Progress(consumed + CallerBytes(seg, ss), segs + [seg], op, sg, ss, n, done + now)
  {
    hide CallerBytes, NextSegment, Covered, GoodSegment, Sectors;
    assert (segs + [seg])[..|segs|] == segs;
    assert (done + now) * ss == done * ss + now * ss;
    CoveredStep(sg, ss, n * ss, |segs|, done * ss);
  }

  lemma CoveredStep(sg: seq<SgElement>, ss: nat, bytes: nat, segments: nat, pos: nat)
    requires |sg| > 0 && ss > 0 && Covered(sg, ss, bytes, segments, pos) && pos < bytes
    ensures AtSegment(sg, ss, pos)
    ensures NextSegment(sg, ss, bytes, pos) >= 0
    ensures Covered(sg, ss, bytes, segments + 1, NextSegment(sg, ss, bytes, pos))
  {
  }

  lemma CoveredCount(sg: seq<SgElement>, ss: nat, bytes: nat, segments: nat)
    requires |sg| > 0 && ss > 0 && Covered(sg, ss, bytes, segments, bytes) && bytes > 0
    ensures segments == SegmentCount(sg, ss, bytes)
  {
  }

  lemma {:induction false} FlattenConcat(a: seq<Request>, b: seq<Request>)
    ensures Flatten(a + b) == Flatten(a) + Flatten(b)
  {
    if b == [] {
      assert a + b == a;
    } else {
      assert (a + b)[..|a + b| - 1] == a + b[..|b| - 1];
      FlattenConcat(a, b[..|b| - 1]);
    }
  }

  lemma FlattenHead(reqs: seq<Request>)
    requires reqs != []
    ensures Flatten(reqs) == reqs[0].segments + Flatten(reqs[1..])
  {
    assert reqs == [reqs[0]] + reqs[1..];
    FlattenConcat([reqs[0]], reqs[1..]);
    assert [reqs[0]][..0] == [];
    assert Flatten([reqs[0]]) == reqs[0].segments;
  }

  /** Releases a list of requests and everything they hold. */
  method CleanupSrb(env: Resources, reqs: seq<Request>, ghost n: int, ghost before: seq<Segment>,
                    ghost after: seq<Segment>)
    requires env.Holds(n + |reqs|, before + Flatten(reqs) + after)
    modifies env
    ensures env.Holds(n, before + after) && env.refusals == old(env.refusals)
  {
    hide Grants, Buffers, Pages;
    var rest := reqs;
    while rest != []
      invariant env.Holds(n + |rest|, before + Flatten(rest) + after) && env.refusals == old(env.refusals)
    {
      FlattenHead(rest);
      ghost var others := Flatten(rest[1..]) + after;
      assert before + Flatten(rest) + after == before + rest[0].segments + others;
      env.CleanupRequest(rest[0], n + |rest|, before, others);
      env.FreeRequest();
      rest := rest[1..];
      assert before + others == before + Flatten(rest) + after;
    }
    assert before + Flatten([]) + after == before + after;
  }

  /** Gives up a translation that could not be finished. */
  method Abandon(env: Resources, reqs: seq<Request>, ghost n: int, ghost live: seq<Segment>)
    requires env.Holds(n + |reqs|, live + Flatten(reqs))
    modifies env
    ensures env.Holds(n, live) && env.refusals == old(env.refusals)
  {
    hide Grants, Buffers, Pages, Flatten;
    assert live + Flatten(reqs) + [] == live + Flatten(reqs);
    CleanupSrb(env, reqs, n, live, []);
    assert live + [] == live;
  }

  /** What the driver's translation of a read or write has to be: the segments are the caller's
      bytes in order, the requests cover the disk range one after the other, and every request
      but the last is full. */
  ghost predicate Translates(reqs: seq<Request>, op: Operation, sg: seq<SgElement>, start: nat, n: nat, ss: nat)
    requires |sg| > 0 && ss > 0
  {
    && SegmentBytes(Flatten(reqs), ss) == SgAddresses(sg)
    && SegmentSectors(Flatten(reqs)) == n
    && Sequential(reqs, op, start)
    && Full(reqs, true)
    && |Flatten(reqs)| == SegmentCount(sg, ss, n * ss)
    && AllGood(Flatten(reqs), op, sg[0].addr % ss != 0, ss)
  }

  ghost predicate AllGood(segs: seq<Segment>, op: Operation, bounced: bool, ss: nat) {
    forall i :: 0 <= i < |segs| ==> GoodSegment(segs[i], op, bounced, ss)
  }

  /** Each request starts at the sector where the ones before it stop. */
  ghost predicate Sequential(reqs: seq<Request>, op: Operation, start: nat) {
    forall i :: 0 <= i < |reqs| ==>
      reqs[i].operation == op && reqs[i].firstSector == start + SegmentSectors(Flatten(reqs[..i]))
  }

  /** Requests hold 11 segments each, except that the last of a finished list may hold fewer. */
  ghost predicate Full(reqs: seq<Request>, finished: bool) {
    forall i :: 0 <= i < |reqs| ==>
      0 < |reqs[i].segments| <= MAX_SEGMENTS && (i < |reqs| - 1 || !finished ==> |reqs[i].segments| == MAX_SEGMENTS)
  }

  /** Fills one request, up to 11 segments or the end of the transfer. */
  method FillRequest(env: Resources, cursor: SgCursor, op: Operation, sg: seq<SgElement>, n: nat, ss: nat, done0: nat,
                     ghost requests: int, ghost live: seq<Segment>, ghost before: seq<Segment>)
    returns (ok: bool, segs: seq<Segment>, done: nat)
    requires env.Holds(requests, live)
    requires ValidSectorSize(ss) && MdlShape(sg, n * ss) && done0 < n
    requires cursor.On(sg) && Progress(cursor.Consumed(sg), before, op, sg, ss, n, done0)
    modifies env, cursor
    ensures env.refusals >= old(env.refusals) && (!ok ==> env.refusals > old(env.refusals))
    ensures env.Holds(requests, live + segs)
    ensures ok ==> 0 < |segs| <= MAX_SEGMENTS && done0 < done <= n && (done < n ==> |segs| == MAX_SEGMENTS)
    ensures ok ==> cursor.On(sg) && Progress(cursor.Consumed(sg), before + segs, op, sg, ss, n, done)
  {
    hide MdlShape, ConsumedAt, ValidSectorSize, Progress, Tally, CallerBytes, AtSegment, NextSegment, GoodSegment;
    NotEmpty(sg, n * ss, ss);
    ok, segs, done := true, [], done0;
    assert before + segs == before;
    assert live + segs == live;
    for index := 0 to MAX_SEGMENTS
      invariant ok && |segs| == index && done0 <= done < n && (index > 0 ==> done0 < done)
      invariant env.Holds(requests, live + segs) && env.refusals >= old(env.refusals)
      invariant cursor.On(sg) && Progress(cursor.Consumed(sg), before + segs, op, sg, ss, n, done)
    {
      ghost var consumed := cursor.Consumed(sg);
      AtTurn(consumed, before + segs, op, sg, ss, n, done);
      var seg, now;
      ok, seg, now := PrepareSegment(env, cursor, op, sg, n - done, ss, done * ss, n * ss, requests, live + segs);
      assert live + segs + [seg] == live + (segs + [seg]);
      if !ok {
        segs := segs + [seg];
        return;
      }
      assert |CallerBytes(seg, ss)| == now * ss by { GoodLength(seg, op, sg[0].addr % ss != 0, ss); }
      ProgressStep(consumed, before + segs, op, sg, ss, n, done, seg, now);
      assert before + segs + [seg] == before + (segs + [seg]);
      segs := segs + [seg];
      done := done + now;
      if done >= n {
        assert done == n;   // asserted by the driver
        return;
      }
    }
  }

  lemma GoodLength(seg: Segment, op: Operation, bounced: bool, ss: nat)
    requires GoodSegment(seg, op, bounced, ss)
    ensures |CallerBytes(seg, ss)| == Sectors(seg) * ss
  {
  }

  lemma AtTurn(consumed: seq<nat>, segs: seq<Segment>, op: Operation, sg: seq<SgElement>, ss: nat, n: nat, done: nat)
    requires |sg| > 0 && ss > 0 && Progress(consumed, segs, op, sg, ss, n, done) && done < n
    ensures |consumed| == done * ss < n * ss && AtSegment(sg, ss, done * ss)
    ensures (done * ss) % ss == 0 && n * ss - done * ss == (n - done) * ss
  {
    hide AtSegment, NextSegment, Covered, GoodSegment, SegmentBytes, SegmentSectors;
    MulMonotone(done + 1, n, ss);
    CoveredStep(sg, ss, n * ss, |segs|, done * ss);
    DivUnique(done * ss, ss, done, 0);
  }

  lemma NotEmpty(sg: seq<SgElement>, bytes: nat, ss: nat)
    requires MdlShape(sg, bytes) && ValidSectorSize(ss)
    ensures |sg| > 0 && ss > 0 && sg[0].length > 0
  {
  }

  lemma StartOfWalk(sg: seq<SgElement>, op: Operation, ss: nat, n: nat, start: nat)
    requires |sg| > 0 && ss > 0
    ensures ConsumedAt(sg, 0, 0) == []
    ensures Sequential([], op, start) && Full([], false) && Flatten([]) == []
    ensures Progress([], [], op, sg, ss, n, 0)
  {
    assert Range(sg[0].addr, 0) == [];
  }

  /** A walk that has covered all bytes has covered the whole list. */
  lemma WholeWalk(consumed: seq<nat>, i: nat, offset: nat, sg: seq<SgElement>, bytes: nat)
    requires MdlShape(sg, bytes) && |consumed| == bytes > 0
    requires i <= |sg| && (i < |sg| ==> offset < sg[i].length) && consumed == ConsumedAt(sg, i, offset)
    ensures consumed == SgAddresses(sg)
  {
    if i < |sg| {
      StartMonotone(sg, i + 1, |sg|);
    }
  }

  lemma EndOfWalk(consumed: seq<nat>, i: nat, offset: nat, reqs: seq<Request>, op: Operation, sg: seq<SgElement>,
                  start: nat, ss: nat, n: nat)
    requires MdlShape(sg, n * ss) && ss > 0 && n > 0
    requires i <= |sg| && (i < |sg| ==> offset < sg[i].length) && consumed == ConsumedAt(sg, i, offset)
    requires Progress(consumed, Flatten(reqs), op, sg, ss, n, n) && Sequential(reqs, op, start) && Full(reqs, true)
    ensures Translates(reqs, op, sg, start, n, ss)
  {
    hide MdlShape, ConsumedAt, Flatten, SegmentBytes, SegmentSectors, Sequential, Full, GoodSegment, Covered,
         SegmentCount, SgAddresses;
    MulMonotone(1, n, ss);
    WholeWalk(consumed, i, offset, sg, n * ss);
    CoveredCount(sg, ss, n * ss, |Flatten(reqs)|);
  }

  lemma AddRequest(reqs: seq<Request>, req: Request, op: Operation, start: nat, finished: bool)
    requires Sequential(reqs, op, start) && Full(reqs, false)
    requires req.operation == op && req.firstSector == start + SegmentSectors(Flatten(reqs))
    requires 0 < |req.segments| <= MAX_SEGMENTS && (!finished ==> |req.segments| == MAX_SEGMENTS)
    ensures Sequential(reqs + [req], op, start) && Full(reqs + [req], finished)
  {
    var all := reqs + [req];
    forall i | 0 <= i < |all|
        ensures all[i].operation == op && all[i].firstSector == start + SegmentSectors(Flatten(all[..i])) {
      assert all[..i] == reqs[..i];
      assert reqs[..|reqs|] == reqs;
    }
  }

  lemma FlattenAppend(reqs: seq<Request>, req: Request)
    ensures Flatten(reqs + [req]) == Flatten(reqs) + req.segments
  {
    assert (reqs + [req])[..|reqs|] == reqs;
  }

  /** Translates a read or write into requests, or fails and gives back everything. */
  method PrepareReadWrite(env: Resources, op: Operation, sg: seq<SgElement>, start: nat, n: nat, ss: nat,
                          ghost others: int, ghost live: seq<Segment>)
    returns (ok: bool, reqs: seq<Request>)
    requires env.Holds(others, live)
    requires n > 0 && ValidSectorSize(ss) && MdlShape(sg, n * ss)
    modifies env
    ensures env.refusals >= old(env.refusals) && (!ok ==> env.refusals > old(env.refusals))
    ensures ok ==> Translates(reqs, op, sg, start, n, ss) && env.Holds(others + |reqs|, live + Flatten(reqs))
    ensures !ok ==> reqs == [] && env.Holds(others, live)
  {
    hide MdlShape, ConsumedAt, ValidSectorSize, Progress, Tally, Sequential, Full, Translates, Flatten, SegmentSectors,
         SegmentBytes;
    NotEmpty(sg, n * ss, ss);
    var cursor := new SgCursor();
    ok, reqs := true, [];
    StartOfWalk(sg, op, ss, n, start);
    assert live + Flatten(reqs) == live;
    var done := 0;
    while done < n
      invariant done <= n
      invariant env.Holds(others + |reqs|, live + Flatten(reqs)) && env.refusals >= old(env.refusals)
      invariant cursor.On(sg) && Progress(cursor.Consumed(sg), Flatten(reqs), op, sg, ss, n, done)
      invariant Sequential(reqs, op, start) && Full(reqs, done == n)
    {
      TallyRequest(env.requestListUsed, env.grants, env.buffers, env.outstandingMappedPages, others + |reqs|,
                   live + Flatten(reqs), 1);
      ok := env.AllocRequest();
      if ok {
        var segs, done1;
        SectorsDone(cursor.Consumed(sg), Flatten(reqs), op, sg, ss, n, done);
        ok, segs, done1 :=
            FillRequest(env, cursor, op, sg, n, ss, done, others + |reqs| + 1, live + Flatten(reqs), Flatten(reqs));
        var req := Request(op, start + done, segs);
        FlattenAppend(reqs, req);
        assert live + Flatten(reqs) + segs == live + Flatten(reqs + [req]);
        if ok {
          AddRequest(reqs, req, op, start, done1 == n);
        }
        reqs := reqs + [req];
        done := done1;
      }
      if !ok {
        Abandon(env, reqs, others, live);
        return false, [];
      }
    }
    EndOfWalk(cursor.Consumed(sg), cursor.index, cursor.offset, reqs, op, sg, start, ss, n);
  }

  lemma SectorsDone(consumed: seq<nat>, segs: seq<Segment>, op: Operation, sg: seq<SgElement>, ss: nat, n: nat,
                    done: nat)
    requires |sg| > 0 && ss > 0 && Progress(consumed, segs, op, sg, ss, n, done)
    ensures SegmentSectors(segs) == done
  {
  }
}
