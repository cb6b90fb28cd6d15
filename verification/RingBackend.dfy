/** The backend, going by nothing but what is on the ring and what the grant table says (the block
    interface of xen/io/blkif.h), and what a transfer does when such a backend performs it. */
module RingBackend {
  import opened Basics
  import opened Transfer
  import opened Requests
  import opened DataMovement
  import opened SharedRing
  import opened FrontRing
  import TransferFacts

  /** What the grant table says of a reference. */
  datatype Access = Access(frame: nat, readOnly: bool)

  /** One segment of a ring entry, and the sector of the disk that it starts at. */
  datatype Order = Order(operation: int, sector: nat, segment: RingSegment)

  function Count(seg: RingSegment): nat {
    if seg.firstSector <= seg.lastSector then seg.lastSector - seg.firstSector + 1 else 0
  }

  function Counts(segs: seq<RingSegment>): nat {
    if segs == [] then 0 else Counts(segs[..|segs| - 1]) + Count(segs[|segs| - 1])
  }

  /** The segments of an entry follow one another on the disk. */
  function EntryOrders(e: Entry): seq<Order> {
    seq(|e.segments|, k requires 0 <= k < |e.segments| =>
      Order(e.operation, e.sector + Counts(e.segments[..k]), e.segments[k]))
  }

  function Orders(entries: seq<Entry>): seq<Order> {
    if entries == [] then [] else Orders(entries[..|entries| - 1]) + EntryOrders(entries[|entries| - 1])
  }

  function OrderMemory(o: Order, frame: nat, ss: nat): seq<nat> {
    Range(frame * 4096 + o.segment.firstSector * ss, Count(o.segment) * ss)
  }

  function OrderDisk(o: Order, ss: nat): seq<nat> {
    Range(o.sector * ss, Count(o.segment) * ss)
  }

  /** Operation 0 reads from the disk, 1 writes to it. Any other moves nothing, and so does a segment that
      the backend has no grant for, or not the right one. */
  function Obey(w: World, o: Order, grants: map<int, Access>, ss: nat): World {
    if o.segment.gref !in grants then w
    else
      var access := grants[o.segment.gref];
      var memory, disk := OrderMemory(o, access.frame, ss), OrderDisk(o, ss);
      if o.operation == 0 && !access.readOnly then w.(mem := Scatter(w.mem, memory, Gather(w.disk, disk)))
      else if o.operation == 1 then w.(disk := Scatter(w.disk, disk, Gather(w.mem, memory)))
      else w
  }

  /** A run of a transfer: what the driver copies is as before, what the backend does it does by the
      entries on the ring. */
  function RingRun(w: World, entries: seq<Entry>, grants: map<int, Access>, job: Job, es: seq<Event>): World
    requires job.Layout() && job.Orderly(es)
    decreases |es|
  {
    if es == [] then w
    else
      job.OrderlyPrefix(es);
      job.LastEvent(es);
      var before := RingRun(w, entries, grants, job, es[..|es| - 1]);
      var e := es[|es| - 1];
      job.LayoutLengths(e.i);
      if e.Device? then
        if e.i < |Orders(entries)| then Obey(before, Orders(entries)[e.i], grants, job.ss) else before
      else job.Step(before, e)
  }

  // ---------------------------------------------------------------- the grant table

  /** The grant table has the grants of these segments. */
  ghost predicate Granted(grants: map<int, Access>, segs: seq<Segment>) {
    forall i :: 0 <= i < |segs| ==>
      && segs[i].grant.ref in grants
      && grants[segs[i].grant.ref] == Access(segs[i].grant.frame, segs[i].grant.readOnly)
  }

  function GrantsOf(segs: seq<Segment>): map<int, Access> {
    if segs == [] then map[]
    else
      var g := segs[|segs| - 1].grant;
      GrantsOf(segs[..|segs| - 1])[g.ref := Access(g.frame, g.readOnly)]
  }

  ghost predicate DistinctRefs(segs: seq<Segment>) {
    forall i, j :: 0 <= i < j < |segs| ==> segs[i].grant.ref != segs[j].grant.ref
  }

  lemma {:induction false} GrantsOfAgree(segs: seq<Segment>)
    requires DistinctRefs(segs)
    ensures Granted(GrantsOf(segs), segs)
  {
    if segs != [] {
      var last := |segs| - 1;
      GrantsOfAgree(segs[..last]);
      forall i | 0 <= i < last ensures segs[..last][i] == segs[i] {
      }
    }
  }

  /** The references that a transfer holds name its pages, because no two of them are the same. */
  lemma HeldAreGranted(env: Resources, n: int, before: seq<Segment>, segs: seq<Segment>)
    requires env.Holds(n, before + segs) && forall i :: 0 <= i < |segs| ==> segs[i].grant.ref != 0
    ensures Granted(GrantsOf(segs), segs)
  {
    forall i, j | 0 <= i < j < |segs| ensures segs[i].grant.ref != segs[j].grant.ref {
      TransferFacts.NoSharing(env, n, before, segs, i, j);
    }
    GrantsOfAgree(segs);
  }

  // ---------------------------------------------------------------- entries and requests

  lemma {:induction false} CountsAre(segs: seq<Segment>, k: nat)
    requires k <= |segs|
    ensures Counts(RingSegments(segs)[..k]) == SegmentSectors(segs[..k])
  {
    if k > 0 {
      CountsAre(segs, k - 1);
      assert RingSegments(segs)[..k][..k - 1] == RingSegments(segs)[..k - 1];
      assert segs[..k][..k - 1] == segs[..k - 1];
    }
  }

  /** The order says what the piece says. */
  ghost predicate SameOrder(o: Order, piece: Piece) {
    && o.operation == (match piece.op case READ => 0 case WRITE => 1 case WRITE_BARRIER => 2)
    && o.sector == piece.sector
    && o.segment == RingSegment(piece.segment.grant.ref, piece.segment.firstSector, piece.segment.lastSector)
  }

  lemma EntryOrdersAre(id: int, request: Request, k: nat)
    requires !request.operation.WRITE_BARRIER? && k < |request.segments|
    ensures |EntryOrders(EntryOf(id, request))| == |RequestPieces(request)| == |request.segments|
    ensures SameOrder(EntryOrders(EntryOf(id, request))[k], RequestPieces(request)[k])
  {
    hide SegmentSectors;
    CountsAre(request.segments, k);
  }

  /** The orders that the ring gives are the pieces of the transfer, one by one. */
  lemma {:induction false} OrdersAre(ids: seq<int>, reqs: seq<Request>)
    requires |ids| == |reqs| && forall r :: r in reqs ==> !r.operation.WRITE_BARRIER?
    ensures |Orders(Entries(ids, reqs))| == |Pieces(reqs)|
    ensures forall i :: 0 <= i < |Pieces(reqs)| ==> SameOrder(Orders(Entries(ids, reqs))[i], Pieces(reqs)[i])
  {
    hide EntryOf, EntryOrders, RequestPieces, SameOrder, Orders, Pieces, Entries;
    if reqs == [] {
      NoOrders();
    } else {
      var last := |reqs| - 1;
      OrdersAre(ids[..last], reqs[..last]);
      LastOrders(ids, reqs);
      SameNumber(ids[last], reqs[last]);
      var orders, pieces := Orders(Entries(ids[..last], reqs[..last])), Pieces(reqs[..last]);
      forall i | 0 <= i < |Pieces(reqs)| ensures SameOrder(Orders(Entries(ids, reqs))[i], Pieces(reqs)[i]) {
        if i >= |pieces| {
          EntryOrdersAre(ids[last], reqs[last], i - |pieces|);
        }
      }
    }
  }

  lemma NoOrders()
    ensures Orders(Entries([], [])) == [] && Pieces([]) == []
  {
  }

  lemma LastOrders(ids: seq<int>, reqs: seq<Request>)
    requires |ids| == |reqs| && reqs != []
    ensures var last := |reqs| - 1;
      && Orders(Entries(ids, reqs))
         == Orders(Entries(ids[..last], reqs[..last])) + EntryOrders(EntryOf(ids[last], reqs[last]))
      && Pieces(reqs) == Pieces(reqs[..last]) + RequestPieces(reqs[last])
  {
    hide EntryOf, EntryOrders, RequestPieces;
    assert Entries(ids, reqs)[..|reqs| - 1] == Entries(ids[..|reqs| - 1], reqs[..|reqs| - 1]);
  }

  lemma SameNumber(id: int, request: Request)
    requires !request.operation.WRITE_BARRIER?
    ensures |EntryOrders(EntryOf(id, request))| == |RequestPieces(request)| == |request.segments|
  {
  }

  /** A flush of the disk's cache gives the barrier operation, at its sector, and no orders. */
  lemma BarrierEntry(id: int, start: nat)
    ensures var e := EntryOf(id, Request(WRITE_BARRIER, start, []));
            e.id == id && e.operation == 2 && e.sector == start && e.segments == [] && Orders([e]) == []
  {
    assert Orders([]) == [];
  }

  /** Obeying an order is performing the piece. */
  lemma ObeyIsStep(job: Job, w: World, o: Order, grants: map<int, Access>, op: Operation, i: nat)
    requires job.Layout() && job.Does(op) && !op.WRITE_BARRIER? && i < |job.pieces| && SameOrder(o, job.pieces[i])
    requires var g := job.pieces[i].segment.grant; g.ref in grants && grants[g.ref] == Access(g.frame, g.readOnly)
    ensures |job.Caller(i)| == |job.Dma(i)|
    ensures Obey(w, o, grants, job.ss) == job.Step(w, Device(i))
  {
    hide Scatter, Distinct, Apart;
    var seg := job.pieces[i].segment;
    var access := grants[seg.grant.ref];
    assert OrderMemory(o, access.frame, job.ss) == job.Dma(i);
    assert Count(o.segment) == Sectors(seg);
    SameExtent(job, i);
    assert OrderDisk(o, job.ss) == job.OnDisk(i);
  }

  lemma SameExtent(job: Job, i: nat)
    requires job.Layout() && i < |job.pieces|
    ensures Extent(job.pieces[i].segment, job.ss) == Sectors(job.pieces[i].segment) * job.ss
    ensures |job.Caller(i)| == |job.Dma(i)|
  {
    hide Distinct, Apart;
    job.LayoutLengths(i);
  }

  lemma {:induction false} RingRunIsRun(w: World, entries: seq<Entry>, grants: map<int, Access>, job: Job,
                                        op: Operation, es: seq<Event>)
    requires job.Layout() && job.Orderly(es) && job.Does(op) && !op.WRITE_BARRIER?
    requires |Orders(entries)| == |job.pieces|
    requires forall i :: 0 <= i < |job.pieces| ==> SameOrder(Orders(entries)[i], job.pieces[i])
    requires forall i :: 0 <= i < |job.pieces| ==>
               var g := job.pieces[i].segment.grant; g.ref in grants && grants[g.ref] == Access(g.frame, g.readOnly)
    ensures RingRun(w, entries, grants, job, es) == job.Run(w, es)
    decreases |es|
  {
    hide Job.Layout, Job.Orderly, Job.Does, Orders, SameOrder, Obey, Job.Step;
    if es != [] {
      job.OrderlyPrefix(es);
      job.LastEvent(es);
      RingRunIsRun(w, entries, grants, job, op, es[..|es| - 1]);
      var e := es[|es| - 1];
      if e.Device? {
        ObeyIsStep(job, job.Run(w, es[..|es| - 1]), Orders(entries)[e.i], grants, op, e.i);
      }
    }
  }

  lemma NoBarrier(reqs: seq<Request>, op: Operation, sg: seq<SgElement>, start: nat, n: nat, ss: nat)
    requires |sg| > 0 && ss > 0 && Translates(reqs, op, sg, start, n, ss) && !op.WRITE_BARRIER?
    ensures forall r :: r in reqs ==> !r.operation.WRITE_BARRIER?
  {
  }

  /** For the entries of a transfer, what the backend does by the ring is what it should do by the
      requests. */
  lemma RingDoes(ids: seq<int>, reqs: seq<Request>, grants: map<int, Access>, op: Operation, sg: seq<SgElement>,
                 start: nat, n: nat, ss: nat, w0: World, es: seq<Event>)
    requires |sg| > 0 && ss > 0 && Translates(reqs, op, sg, start, n, ss) && !op.WRITE_BARRIER?
    requires Separate(sg, Flatten(reqs)) && |ids| == |reqs| && Granted(grants, Flatten(reqs))
    requires TransferJob(reqs, ss).Orderly(es)
    ensures TransferJob(reqs, ss).Layout()
    ensures RingRun(w0, Entries(ids, reqs), grants, TransferJob(reqs, ss), es) == TransferJob(reqs, ss).Run(w0, es)
  {
    hide Translates, Separate, Job.Layout, Job.Orderly, Job.Run, RingRun, Job.Does, Orders, SameOrder, Pieces, Entries,
         Flatten;
    TransferLayout(reqs, op, sg, start, n, ss);
    NoBarrier(reqs, op, sg, start, n, ss);
    OrdersAre(ids, reqs);
    var job := TransferJob(reqs, ss);
    forall i | 0 <= i < |job.pieces|
      ensures var g := job.pieces[i].segment.grant; g.ref in grants && grants[g.ref] == Access(g.frame, g.readOnly)
    {
      PieceFacts(reqs, op, sg, start, n, ss, i);
    }
    RingRunIsRun(w0, Entries(ids, reqs), grants, job, op, es);
  }

  /** A read that the backend performs by the entries on the ring, in any order, leaves the disk range in
      the caller's buffer and nothing else changed. */
  lemma RingReadDelivers(ids: seq<int>, reqs: seq<Request>, grants: map<int, Access>, sg: seq<SgElement>,
                         start: nat, n: nat, ss: nat, w0: World, es: seq<Event>)
    requires |sg| > 0 && ss > 0 && Translates(reqs, READ, sg, start, n, ss) && Separate(sg, Flatten(reqs))
    requires |ids| == |reqs| && Granted(grants, Flatten(reqs))
    requires TransferJob(reqs, ss).Orderly(es) && Finished(Flatten(reqs), es)
    ensures TransferJob(reqs, ss).Layout() && |SgAddresses(sg)| == n * ss
    ensures var w := RingRun(w0, Entries(ids, reqs), grants, TransferJob(reqs, ss), es);
            && w.disk == w0.disk
            && (forall b :: 0 <= b < n * ss ==> w.mem(SgAddresses(sg)[b]) == w0.disk(start * ss + b))
            && (forall a: nat :: Elsewhere(sg, Flatten(reqs), a) ==> w.mem(a) == w0.mem(a))
  {
    hide Translates, Separate, Job.Layout, Job.Orderly, Job.Run, RingRun, Flatten, SgAddresses, Elsewhere, Finished,
         Granted;
    RingDoes(ids, reqs, grants, READ, sg, start, n, ss, w0, es);
    ReadDelivers(reqs, sg, start, n, ss, w0, es);
  }

  /** A write that the backend performs by the entries on the ring, in any order, leaves what the caller's
      buffer held in the disk range. */
  lemma RingWriteDelivers(ids: seq<int>, reqs: seq<Request>, grants: map<int, Access>, sg: seq<SgElement>,
                          start: nat, n: nat, ss: nat, w0: World, es: seq<Event>)
    requires |sg| > 0 && ss > 0 && Translates(reqs, WRITE, sg, start, n, ss) && Separate(sg, Flatten(reqs))
    requires |ids| == |reqs| && Granted(grants, Flatten(reqs))
    requires TransferJob(reqs, ss).Orderly(es) && Finished(Flatten(reqs), es)
    ensures TransferJob(reqs, ss).Layout() && |SgAddresses(sg)| == n * ss
    ensures var w := RingRun(w0, Entries(ids, reqs), grants, TransferJob(reqs, ss), es);
            && (forall b :: 0 <= b < n * ss ==> w.disk(start * ss + b) == w0.mem(SgAddresses(sg)[b]))
            && (forall a: nat :: a < start * ss || start * ss + n * ss <= a ==> w.disk(a) == w0.disk(a))
            && (forall a: nat :: Elsewhere(sg, Flatten(reqs), a) ==> w.mem(a) == w0.mem(a))
  {
    hide Translates, Separate, Job.Layout, Job.Orderly, Job.Run, RingRun, Flatten, SgAddresses, Elsewhere, Finished,
         Granted;
    RingDoes(ids, reqs, grants, WRITE, sg, start, n, ss, w0, es);
    WriteDelivers(reqs, sg, start, n, ss, w0, es);
  }
}
