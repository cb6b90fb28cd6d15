/** End to end: what the caller's memory and the disk contain after the requests of a transfer have
    been prepared, performed by the backend in any order, and completed. */
module DataMovement {
  import opened Basics
  import opened Arithmetic
  import opened Transfer
  import opened Requests
  import opened TransferFacts

  type Bytes = int -> int

  /** Memory and disk, byte by byte. */
  datatype World = World(mem: Bytes, disk: Bytes)

  /** f with values[i] at addrs[i]. */
  function Scatter(f: Bytes, addrs: seq<nat>, values: seq<int>): Bytes
    requires |addrs| == |values|
  {
    if addrs == [] then f
    else
      var last := |addrs| - 1;
      var g := Scatter(f, addrs[..last], values[..last]);
      a => if a == addrs[last] then values[last] else g(a)
  }

  function Gather(f: Bytes, addrs: seq<nat>): (r: seq<int>)
    ensures |r| == |addrs| && forall i :: 0 <= i < |addrs| ==> r[i] == f(addrs[i])
  {
    seq(|addrs|, i requires 0 <= i < |addrs| => f(addrs[i]))
  }

  ghost predicate Apart(s: seq<nat>, t: seq<nat>) {
    forall i, j :: 0 <= i < |s| && 0 <= j < |t| ==> s[i] != t[j]
  }

  /** f holds at the addresses s what g holds at the addresses t. */
  ghost predicate Same(f: Bytes, s: seq<nat>, g: Bytes, t: seq<nat>) {
    |s| == |t| && forall x :: 0 <= x < |s| ==> f(s[x]) == g(t[x])
  }

  lemma {:induction false} ScatterAt(f: Bytes, addrs: seq<nat>, values: seq<int>)
    requires |addrs| == |values| && Distinct(addrs)
    ensures forall i :: 0 <= i < |addrs| ==> Scatter(f, addrs, values)(addrs[i]) == values[i]
  {
    if addrs != [] {
      var last := |addrs| - 1;
      ScatterAt(f, addrs[..last], values[..last]);
      forall i | 0 <= i < |addrs| ensures Scatter(f, addrs, values)(addrs[i]) == values[i] {
        if i < last {
          assert addrs[..last][i] == addrs[i];
        }
      }
    }
  }

  lemma {:induction false} ScatterElsewhere(f: Bytes, addrs: seq<nat>, values: seq<int>, a: nat)
    requires |addrs| == |values| && a !in addrs
    ensures Scatter(f, addrs, values)(a) == f(a)
  {
    if addrs != [] {
      ScatterElsewhere(f, addrs[..|addrs| - 1], values[..|addrs| - 1], a);
    }
  }

  /** Copying establishes the copy... */
  lemma CopyDone(f: Bytes, s: seq<nat>, g: Bytes, t: seq<nat>)
    requires |s| == |t| && Distinct(s)
    ensures Same(Scatter(f, s, Gather(g, t)), s, g, t)
  {
    ScatterAt(f, s, Gather(g, t));
  }

  /** ...and disturbs no other. */
  lemma CopyFrame(f: Bytes, addrs: seq<nat>, values: seq<int>, s: seq<nat>, g: Bytes, t: seq<nat>)
    requires |addrs| == |values| && Same(f, s, g, t) && Apart(s, addrs)
    ensures Same(Scatter(f, addrs, values), s, g, t)
  {
    forall x | 0 <= x < |s| ensures Scatter(f, addrs, values)(s[x]) == g(t[x]) {
      ScatterElsewhere(f, addrs, values, s[x]);
    }
  }

  // ---------------------------------------------------------------- a transfer in progress

  /** Begin copies a write into its bounce page, Device is the backend performing the segment,
      Finish copies a read out of its bounce page. */
  datatype Event = Begin(i: nat) | Device(i: nat) | Finish(i: nat)

  /** A segment as the backend sees it: its request says what to do and where on the disk. */
  datatype Piece = Piece(op: Operation, segment: Segment, sector: nat)

  /** The segments of a request, performed one after the other from the request's first sector on. */
  function RequestPieces(req: Request): seq<Piece> {
    seq(|req.segments|, k requires 0 <= k < |req.segments| =>
      Piece(req.operation, req.segments[k], req.firstSector + SegmentSectors(req.segments[..k])))
  }

  function Pieces(reqs: seq<Request>): seq<Piece> {
    if reqs == [] then [] else Pieces(reqs[..|reqs| - 1]) + RequestPieces(reqs[|reqs| - 1])
  }

  /** A transfer, segment by segment. */
  datatype Job = Job(pieces: seq<Piece>, ss: nat) {
    function Caller(i: nat): seq<nat>
      requires i < |pieces|
    {
      CallerBytes(pieces[i].segment, ss)
    }

    function Dma(i: nat): seq<nat>
      requires i < |pieces|
    {
      DeviceBytes(pieces[i].segment, ss)
    }

    /** The disk bytes of segment i, as many as it has. */
    function OnDisk(i: nat): seq<nat>
      requires i < |pieces|
    {
      Range(pieces[i].sector * ss, Extent(pieces[i].segment, ss))
    }

    predicate Bounced(i: nat)
      requires i < |pieces|
    {
      pieces[i].segment.buffer != 0
    }

    /** The backend can write to a page only if the grant lets it. */
    function Step(w: World, e: Event): World
      requires e.i < |pieces| && |Caller(e.i)| == |Dma(e.i)|
    {
      var piece := pieces[e.i];
      match e
      case Begin(i) =>
        if piece.op.WRITE? && Bounced(i) then w.(mem := Scatter(w.mem, Dma(i), Gather(w.mem, Caller(i)))) else w
      case Device(i) =>
        if piece.op.WRITE? then w.(disk := Scatter(w.disk, OnDisk(i), Gather(w.mem, Dma(i))))
        else if piece.segment.grant.readOnly then w
        else w.(mem := Scatter(w.mem, Dma(i), Gather(w.disk, OnDisk(i))))
      case Finish(i) =>
        if piece.op.READ? && Bounced(i) then w.(mem := Scatter(w.mem, Caller(i), Gather(w.mem, Dma(i)))) else w
    }

    /** All segments read or all write, and the grants allow exactly that. */
    ghost predicate Does(op: Operation) {
      forall i :: 0 <= i < |pieces| ==> pieces[i].op == op && (pieces[i].segment.grant.readOnly <==> op.WRITE?)
    }

    /** Each caller byte belongs to one segment, and bounce pages are apart from the caller's
        pages and from each other. */
    ghost predicate Layout() {
      && (forall i :: 0 <= i < |pieces| ==>
          |Caller(i)| == |Dma(i)| == |OnDisk(i)| && (!Bounced(i) ==> Dma(i) == Caller(i)))
      && (forall i :: 0 <= i < |pieces| ==> Distinct(Caller(i)) && Distinct(Dma(i)) && Distinct(OnDisk(i)))
      && (forall i, j :: 0 <= i < |pieces| && 0 <= j < |pieces| && i != j ==>
            Apart(Caller(i), Caller(j)) && Apart(Dma(i), Dma(j)) && Apart(OnDisk(i), OnDisk(j)))
      && (forall i, j :: 0 <= i < |pieces| && 0 <= j < |pieces| && Bounced(i) ==>
          Apart(Dma(i), Caller(j)) && Apart(Caller(j), Dma(i)))
    }

    /** The driver copies in before it submits, and completes only what has been performed. */
    ghost predicate Orderly(es: seq<Event>) {
      forall k :: 0 <= k < |es| ==>
        && es[k].i < |pieces|
        && (es[k].Device? ==> Begin(es[k].i) in es[..k])
        && (es[k].Finish? ==> Device(es[k].i) in es[..k])
    }

    ghost function Run(w: World, es: seq<Event>): World
      requires Layout() && Orderly(es)
    {
      if es == [] then w
      else
        OrderlyPrefix(es);
        Step(Run(w, es[..|es| - 1]), es[|es| - 1])
    }

    lemma OrderlyPrefix(es: seq<Event>)
      requires Orderly(es) && es != []
      ensures Orderly(es[..|es| - 1])
    {
      var front := es[..|es| - 1];
      forall k | 0 <= k < |front| ensures front[k] == es[k] && front[..k] == es[..k] {
      }
    }

    lemma LastEvent(es: seq<Event>)
      requires Orderly(es) && es != []
      ensures var e := es[|es| - 1];
        && e.i < |pieces|
        && (e.Device? ==> Begin(e.i) in es[..|es| - 1])
        && (e.Finish? ==> Device(e.i) in es[..|es| - 1])
      ensures es == es[..|es| - 1] + [es[|es| - 1]]
    {
    }

    lemma LayoutLengths(i: nat)
      requires Layout() && i < |pieces|
      ensures |Caller(i)| == |Dma(i)| == |OnDisk(i)|
    {
    }

    lemma RunLast(w0: World, es: seq<Event>)
      requires Layout() && Orderly(es) && es != [] && Orderly(es[..|es| - 1])
      requires es[|es| - 1].i < |pieces| && |Caller(es[|es| - 1].i)| == |Dma(es[|es| - 1].i)|
      ensures Run(w0, es) == Step(Run(w0, es[..|es| - 1]), es[|es| - 1])
    {
    }

    /** A read in progress. */
    ghost predicate ReadSoFar(w0: World, es: seq<Event>, w: World) {
      && w.disk == w0.disk
      && (forall i :: 0 <= i < |pieces| && Device(i) in es ==> Same(w.mem, Dma(i), w0.disk, OnDisk(i)))
      && (forall i :: 0 <= i < |pieces| && Finish(i) in es ==> Same(w.mem, Caller(i), w0.disk, OnDisk(i)))
    }

    /** A write in progress. */
    ghost predicate WriteSoFar(w0: World, es: seq<Event>, w: World) {
      && (forall i :: 0 <= i < |pieces| ==> Same(w.mem, Caller(i), w0.mem, Caller(i)))
      && (forall i :: 0 <= i < |pieces| && Begin(i) in es ==> Same(w.mem, Dma(i), w0.mem, Caller(i)))
      && (forall i :: 0 <= i < |pieces| && Device(i) in es ==> Same(w.disk, OnDisk(i), w0.mem, Caller(i)))
    }

    lemma Nothing(w0: World)
      ensures ReadSoFar(w0, [], w0) && WriteSoFar(w0, [], w0)
    {
    }

    lemma RunNothing(w0: World)
      requires Layout() && Orderly([])
      ensures Run(w0, []) == w0
    {
    }

    lemma {:induction false} ReadRun(w0: World, es: seq<Event>)
      requires Does(READ) && Layout() && Orderly(es)
      ensures ReadSoFar(w0, es, Run(w0, es))
    {
      hide Job.ReadSoFar, Job.Step, Job.Layout, Job.Orderly, Job.Run, Job.Caller, Job.Dma, Job.OnDisk;
      if es != [] {
        OrderlyPrefix(es);
        LastEvent(es);
        LayoutLengths(es[|es| - 1].i);
        RunLast(w0, es);
        ReadRun(w0, es[..|es| - 1]);
        ReadStep(w0, es[..|es| - 1], Run(w0, es[..|es| - 1]), es[|es| - 1]);
      } else {
        Nothing(w0);
        RunNothing(w0);
      }
    }

    lemma ReadStep(w0: World, es: seq<Event>, w: World, e: Event)
      requires Does(READ) && Layout() && e.i < |pieces| && ReadSoFar(w0, es, w)
      requires e.Finish? ==> Device(e.i) in es
      ensures ReadSoFar(w0, es + [e], Step(w, e))
    {
      hide Scatter, Same, Apart, Distinct, Job.Caller, Job.Dma, Job.OnDisk, Job.Bounced;
      var k := e.i;
      var w1 := Step(w, e);
      if e.Device? {
        CopyDone(w.mem, Dma(k), w.disk, OnDisk(k));
        forall i | 0 <= i < |pieces| && i != k && Device(i) in es ensures Same(w1.mem, Dma(i), w0.disk, OnDisk(i)) {
          CopyFrame(w.mem, Dma(k), Gather(w.disk, OnDisk(k)), Dma(i), w0.disk, OnDisk(i));
        }
        forall i | 0 <= i < |pieces| && Finish(i) in es ensures Same(w1.mem, Caller(i), w0.disk, OnDisk(i)) {
          if i != k || Bounced(k) {
            CopyFrame(w.mem, Dma(k), Gather(w.disk, OnDisk(k)), Caller(i), w0.disk, OnDisk(i));
          }
        }
      } else if e.Finish? && Bounced(k) {
        CopyDone(w.mem, Caller(k), w.mem, Dma(k));
        forall i | 0 <= i < |pieces| && i != k && Finish(i) in es ensures Same(w1.mem, Caller(i), w0.disk, OnDisk(i)) {
          CopyFrame(w.mem, Caller(k), Gather(w.mem, Dma(k)), Caller(i), w0.disk, OnDisk(i));
        }
        forall i | 0 <= i < |pieces| && Device(i) in es ensures Same(w1.mem, Dma(i), w0.disk, OnDisk(i)) {
          CopyFrame(w.mem, Caller(k), Gather(w.mem, Dma(k)), Dma(i), w0.disk, OnDisk(i));
        }
        SameTrans(w1.mem, Caller(k), w.mem, Dma(k), w0.disk, OnDisk(k));
      }
    }

    lemma SameTrans(f: Bytes, s: seq<nat>, g: Bytes, t: seq<nat>, h: Bytes, u: seq<nat>)
      requires Same(f, s, g, t) && Same(g, t, h, u)
      ensures Same(f, s, h, u)
    {
    }

    lemma {:induction false} WriteRun(w0: World, es: seq<Event>)
      requires Does(WRITE) && Layout() && Orderly(es)
      ensures WriteSoFar(w0, es, Run(w0, es))
    {
      hide Job.WriteSoFar, Job.Step, Job.Layout, Job.Orderly, Job.Run, Job.Caller, Job.Dma, Job.OnDisk;
      if es != [] {
        OrderlyPrefix(es);
        LastEvent(es);
        LayoutLengths(es[|es| - 1].i);
        RunLast(w0, es);
        WriteRun(w0, es[..|es| - 1]);
        WriteStep(w0, es[..|es| - 1], Run(w0, es[..|es| - 1]), es[|es| - 1]);
      } else {
        Nothing(w0);
        RunNothing(w0);
      }
    }

    lemma WriteStep(w0: World, es: seq<Event>, w: World, e: Event)
      requires Does(WRITE) && Layout() && e.i < |pieces| && WriteSoFar(w0, es, w)
      requires e.Device? ==> Begin(e.i) in es
      ensures WriteSoFar(w0, es + [e], Step(w, e))
    {
      hide Scatter, Same, Apart, Distinct, Job.Caller, Job.Dma, Job.OnDisk, Job.Bounced;
      var k := e.i;
      var w1 := Step(w, e);
      if e.Begin? && Bounced(k) {
        var values := Gather(w.mem, Caller(k));
        CopyDone(w.mem, Dma(k), w.mem, Caller(k));
        SameTrans(w1.mem, Dma(k), w.mem, Caller(k), w0.mem, Caller(k));
        forall i | 0 <= i < |pieces| && i != k && Begin(i) in es ensures Same(w1.mem, Dma(i), w0.mem, Caller(i)) {
          CopyFrame(w.mem, Dma(k), values, Dma(i), w0.mem, Caller(i));
        }
        forall i | 0 <= i < |pieces| ensures Same(w1.mem, Caller(i), w0.mem, Caller(i)) {
          CopyFrame(w.mem, Dma(k), values, Caller(i), w0.mem, Caller(i));
        }
      } else if e.Device? {
        CopyDone(w.disk, OnDisk(k), w.mem, Dma(k));
        SameTrans(w1.disk, OnDisk(k), w.mem, Dma(k), w0.mem, Caller(k));
        forall i | 0 <= i < |pieces| && i != k && Device(i) in es ensures Same(w1.disk, OnDisk(i), w0.mem, Caller(i)) {
          CopyFrame(w.disk, OnDisk(k), Gather(w.mem, Dma(k)), OnDisk(i), w0.mem, Caller(i));
        }
      }
    }

    /** Nothing but the caller's buffer, the bounce pages and the disk range is ever written. */
    lemma {:induction false} RunFrame(w0: World, es: seq<Event>, a: nat)
      requires Layout() && Orderly(es)
      ensures (forall i :: 0 <= i < |pieces| ==> a !in Caller(i) && a !in Dma(i)) ==> Run(w0, es).mem(a) == w0.mem(a)
      ensures (forall i :: 0 <= i < |pieces| ==> a !in OnDisk(i)) ==> Run(w0, es).disk(a) == w0.disk(a)
    {
      hide Job.Step, Job.Layout, Job.Orderly, Job.Run, Job.Caller, Job.Dma, Job.OnDisk;
      if es != [] {
        OrderlyPrefix(es);
        LastEvent(es);
        LayoutLengths(es[|es| - 1].i);
        RunLast(w0, es);
        RunFrame(w0, es[..|es| - 1], a);
        StepFrame(Run(w0, es[..|es| - 1]), es[|es| - 1], a);
      } else {
        RunNothing(w0);
      }
    }

    lemma StepFrame(w: World, e: Event, a: nat)
      requires e.i < |pieces| && |Caller(e.i)| == |Dma(e.i)| == |OnDisk(e.i)|
      ensures a !in Caller(e.i) && a !in Dma(e.i) ==> Step(w, e).mem(a) == w.mem(a)
      ensures a !in OnDisk(e.i) ==> Step(w, e).disk(a) == w.disk(a)
    {
      hide Scatter, Job.Caller, Job.Dma, Job.OnDisk, Job.Bounced;
      var k := e.i;
      if a !in Dma(k) {
        ScatterElsewhere(w.mem, Dma(k), Gather(w.mem, Caller(k)), a);
        ScatterElsewhere(w.mem, Dma(k), Gather(w.disk, OnDisk(k)), a);
      }
      if a !in Caller(k) {
        ScatterElsewhere(w.mem, Caller(k), Gather(w.mem, Dma(k)), a);
      }
      if a !in OnDisk(k) {
        ScatterElsewhere(w.disk, OnDisk(k), Gather(w.mem, Dma(k)), a);
      }
    }
  }

  // ---------------------------------------------------------------- where the segments of a transfer begin

  lemma {:induction false} BytesConcat(a: seq<Segment>, b: seq<Segment>, ss: nat)
    ensures SegmentBytes(a + b, ss) == SegmentBytes(a, ss) + SegmentBytes(b, ss)
  {
    hide CallerBytes;
    if b == [] {
      assert a + b == a;
    } else {
      assert (a + b)[..|a + b| - 1] == a + b[..|b| - 1];
      BytesConcat(a, b[..|b| - 1], ss);
    }
  }

  lemma {:induction false} BytesLength(segs: seq<Segment>, op: Operation, bounced: bool, ss: nat)
    requires AllGood(segs, op, bounced, ss)
    ensures |SegmentBytes(segs, ss)| == SegmentSectors(segs) * ss
  {
    hide CallerBytes, Sectors, GoodSegment;
    if segs != [] {
      var last := segs[|segs| - 1];
      BytesLength(segs[..|segs| - 1], op, bounced, ss);
      GoodLength(last, op, bounced, ss);
      assert (SegmentSectors(segs[..|segs| - 1]) + Sectors(last)) * ss
             == SegmentSectors(segs[..|segs| - 1]) * ss + Sectors(last) * ss;
    }
  }

  /** Where in the transfer segment i begins, and how long it is. */
  function Position(segs: seq<Segment>, i: nat, ss: nat): nat
    requires i <= |segs|
  {
    SegmentSectors(segs[..i]) * ss
  }

  function Extent(seg: Segment, ss: nat): nat {
    Sectors(seg) * ss
  }

  /** Segment i stands for the bytes of the transfer from its position on, and the next segment
      for the bytes after those. */
  lemma Slice(segs: seq<Segment>, op: Operation, bounced: bool, ss: nat, i: nat)
    requires AllGood(segs, op, bounced, ss) && i < |segs|
    ensures SegmentBytes(segs, ss)
            == SegmentBytes(segs[..i], ss) + CallerBytes(segs[i], ss) + SegmentBytes(segs[i + 1..], ss)
    ensures |SegmentBytes(segs[..i], ss)| == Position(segs, i, ss)
    ensures |CallerBytes(segs[i], ss)| == |DeviceBytes(segs[i], ss)| == Extent(segs[i], ss)
    ensures Position(segs, i + 1, ss) == Position(segs, i, ss) + Extent(segs[i], ss) <= |SegmentBytes(segs, ss)|
  {
    hide CallerBytes, Sectors, GoodSegment, SegmentBytes, SegmentSectors;
    var a, b, c := segs[..i], [segs[i]], segs[i + 1..];
    assert segs[..i + 1] == a + b;
    assert segs == segs[..i + 1] + c;
    GoodLength(segs[i], op, bounced, ss);
    BytesConcat(a + b, c, ss);
    LastSegment(a, segs[i], ss);
    BytesLength(a, op, bounced, ss);
    BytesLength(a + b, op, bounced, ss);
  }

  /** The bytes of a segment, cut out of those of the transfer. */
  lemma SliceAt(segs: seq<Segment>, op: Operation, bounced: bool, ss: nat, i: nat)
    requires AllGood(segs, op, bounced, ss) && i < |segs|
    ensures var p, len := Position(segs, i, ss), Extent(segs[i], ss);
            p + len <= |SegmentBytes(segs, ss)| && SegmentBytes(segs, ss)[p..p + len] == CallerBytes(segs[i], ss)
  {
    hide CallerBytes, GoodSegment, SegmentBytes, Position, Extent;
    Slice(segs, op, bounced, ss, i);
  }

  lemma LastSegment(a: seq<Segment>, seg: Segment, ss: nat)
    ensures SegmentBytes(a + [seg], ss) == SegmentBytes(a, ss) + CallerBytes(seg, ss)
    ensures SegmentSectors(a + [seg]) == SegmentSectors(a) + Sectors(seg)
  {
    assert (a + [seg])[..|a|] == a;
  }

  lemma {:induction false} PositionMonotone(segs: seq<Segment>, i: nat, j: nat)
    requires i <= j <= |segs|
    ensures SegmentSectors(segs[..i]) <= SegmentSectors(segs[..j])
  {
    if i < j {
      PositionMonotone(segs, i, j - 1);
      assert segs[..j][..j - 1] == segs[..j - 1];
    }
  }

  /** Every byte of the transfer belongs to some segment. */
  lemma {:induction false} Locate(segs: seq<Segment>, op: Operation, bounced: bool, ss: nat, k: nat, b: nat)
      returns (i: nat)
    requires AllGood(segs, op, bounced, ss) && k <= |segs| && b < Position(segs, k, ss)
    ensures i < k && Position(segs, i, ss) <= b < Position(segs, i, ss) + Extent(segs[i], ss)
  {
    hide CallerBytes, GoodSegment, SegmentBytes, Position, Extent;
    NoPosition(segs, ss);
    Slice(segs, op, bounced, ss, k - 1);
    if b < Position(segs, k - 1, ss) {
      i := Locate(segs, op, bounced, ss, k - 1, b);
    } else {
      i := k - 1;
    }
  }

  lemma NoPosition(segs: seq<Segment>, ss: nat)
    ensures Position(segs, 0, ss) == 0
  {
    assert segs[..0] == [];
  }

  // ---------------------------------------------------------------- the job of a translated transfer

  function TransferJob(reqs: seq<Request>, ss: nat): Job {
    Job(Pieces(reqs), ss)
  }

  /** Piece i is some segment of some request. */
  lemma {:induction false} PieceAt(reqs: seq<Request>, i: nat) returns (r: nat, k: nat)
    requires i < |Pieces(reqs)|
    ensures r < |reqs| && k < |reqs[r].segments| && i == |Flatten(reqs[..r])| + k
    ensures Pieces(reqs)[i]
            == Piece(reqs[r].operation, reqs[r].segments[k],
                     reqs[r].firstSector + SegmentSectors(reqs[r].segments[..k]))
  {
    hide SegmentSectors;
    var last := |reqs| - 1;
    var front := reqs[..last];
    PieceCount(front);
    if i < |Pieces(front)| {
      r, k := PieceAt(front, i);
      assert front[..r] == reqs[..r];
    } else {
      r, k := last, i - |Pieces(front)|;
    }
  }

  lemma {:induction false} PieceCount(reqs: seq<Request>)
    ensures |Pieces(reqs)| == |Flatten(reqs)|
  {
    if reqs != [] {
      PieceCount(reqs[..|reqs| - 1]);
    }
  }

  /** The pieces of a translation are its segments in order, each at the sector where its bytes
      belong. */
  lemma PieceFacts(reqs: seq<Request>, op: Operation, sg: seq<SgElement>, start: nat, n: nat, ss: nat, i: nat)
    requires |sg| > 0 && ss > 0 && Translates(reqs, op, sg, start, n, ss) && i < |Pieces(reqs)|
    ensures |Pieces(reqs)| == |Flatten(reqs)|
    ensures Pieces(reqs)[i] == Piece(op, Flatten(reqs)[i], start + SegmentSectors(Flatten(reqs)[..i]))
    ensures Pieces(reqs)[i].sector * ss == start * ss + Position(Flatten(reqs), i, ss)
  {
    hide Flatten, SegmentSectors, SegmentBytes, GoodSegment, Pieces;
    PieceCount(reqs);
    var r, k := PieceAt(reqs, i);
    BackendSector(reqs, op, sg, start, n, ss, r, k);
    assert reqs[r].operation == op;
    Distribute(start, SegmentSectors(Flatten(reqs)[..i]), ss);
  }

  lemma Distribute(a: nat, b: nat, s: nat)
    ensures (a + b) * s == a * s + b * s
  {
  }

  /** What the surroundings guarantee: the caller's pages are all different, the bounce pages are
      too (NoSharing), and none of them is a page of the caller. */
  ghost predicate Separate(sg: seq<SgElement>, segs: seq<Segment>) {
    && Distinct(SgAddresses(sg))
    && (forall i, j :: 0 <= i < |segs| && 0 <= j < |segs| && i != j && segs[i].buffer != 0 ==>
        segs[i].buffer != segs[j].buffer)
    && (forall i, b :: 0 <= i < |segs| && 0 <= b < |SgAddresses(sg)| && segs[i].buffer != 0 ==>
          SgAddresses(sg)[b] / PAGE_SIZE != segs[i].buffer)
  }

  lemma ApartPages(a: Segment, b: Segment, op: Operation, ss: nat)
    requires GoodSegment(a, op, true, ss) && GoodSegment(b, op, true, ss) && a.buffer != b.buffer
    ensures Apart(DeviceBytes(a, ss), DeviceBytes(b, ss))
  {
    hide Sectors;
    assert 0 * ss == 0;
  }

  lemma ApartFromPage(a: Segment, op: Operation, ss: nat, addrs: seq<nat>)
    requires GoodSegment(a, op, true, ss)
    requires forall b :: 0 <= b < |addrs| ==> addrs[b] / PAGE_SIZE != a.buffer
    ensures Apart(DeviceBytes(a, ss), addrs) && Apart(addrs, DeviceBytes(a, ss))
  {
    hide Sectors;
    assert 0 * ss == 0;
  }

  lemma SlicesApart(all: seq<nat>, p: nat, m: nat, q: nat, n: nat)
    requires Distinct(all) && p + m <= q && q + n <= |all|
    ensures Apart(all[p..p + m], all[q..q + n]) && Apart(all[q..q + n], all[p..p + m])
    ensures Distinct(all[p..p + m])
  {
  }

  lemma RangesApart(a: nat, m: nat, b: nat, n: nat)
    requires a + m <= b
    ensures Apart(Range(a, m), Range(b, n)) && Apart(Range(b, n), Range(a, m))
  {
  }

  lemma PairApart(segs: seq<Segment>, op: Operation, bounced: bool, ss: nat, base: nat, i: nat, j: nat)
    requires AllGood(segs, op, bounced, ss) && Distinct(SegmentBytes(segs, ss)) && i < j < |segs|
    ensures Apart(CallerBytes(segs[i], ss), CallerBytes(segs[j], ss))
    ensures Apart(CallerBytes(segs[j], ss), CallerBytes(segs[i], ss))
    ensures var p, q := base + Position(segs, i, ss), base + Position(segs, j, ss);
            var m, n := Extent(segs[i], ss), Extent(segs[j], ss);
            Apart(Range(p, m), Range(q, n)) && Apart(Range(q, n), Range(p, m))
  {
    hide CallerBytes, Extent, GoodSegment, SegmentBytes, SegmentSectors, Distinct, Apart, Range;
    Slice(segs, op, bounced, ss, i);
    SliceAt(segs, op, bounced, ss, i);
    SliceAt(segs, op, bounced, ss, j);
    PositionMonotone(segs, i + 1, j);
    MulMonotone(SegmentSectors(segs[..i + 1]), SegmentSectors(segs[..j]), ss);
    var p, q, m, n := Position(segs, i, ss), Position(segs, j, ss), Extent(segs[i], ss), Extent(segs[j], ss);
    SlicesApart(SegmentBytes(segs, ss), p, m, q, n);
    RangesApart(base + p, m, base + q, n);
  }

  lemma OneLayout(reqs: seq<Request>, op: Operation, sg: seq<SgElement>, start: nat, n: nat, ss: nat, i: nat)
    requires |sg| > 0 && ss > 0 && Translates(reqs, op, sg, start, n, ss) && Separate(sg, Flatten(reqs))
             && i < |Pieces(reqs)|
    ensures var job := TransferJob(reqs, ss);
      && |job.Caller(i)| == |job.Dma(i)| == |job.OnDisk(i)| && (!job.Bounced(i) ==> job.Dma(i) == job.Caller(i))
      && Distinct(job.Caller(i)) && Distinct(job.Dma(i)) && Distinct(job.OnDisk(i))
      && job.pieces[i].op == op && (job.pieces[i].segment.grant.readOnly <==> op.WRITE?)
  {
    hide CallerBytes, DeviceBytes, Extent, Position, GoodSegment, SegmentBytes, SegmentSectors, Distinct, Apart,
         Flatten, Pieces, Range, SgAddresses;
    var segs, bounced, all := Flatten(reqs), sg[0].addr % ss != 0, SgAddresses(sg);
    PieceFacts(reqs, op, sg, start, n, ss, i);
    Slice(segs, op, bounced, ss, i);
    SliceAt(segs, op, bounced, ss, i);
    SlicesApart(all, Position(segs, i, ss), Extent(segs[i], ss), |all|, 0);
    SegmentFacts(segs[i], op, bounced, ss);
    RangeDistinct(start * ss + Position(segs, i, ss), Extent(segs[i], ss));
  }

  lemma PairLayout(reqs: seq<Request>, op: Operation, sg: seq<SgElement>, start: nat, n: nat, ss: nat, i: nat, j: nat)
    requires |sg| > 0 && ss > 0 && Translates(reqs, op, sg, start, n, ss) && Separate(sg, Flatten(reqs))
    requires i < |Pieces(reqs)| && j < |Pieces(reqs)|
    ensures var job := TransferJob(reqs, ss);
      && (i != j ==>
            Apart(job.Caller(i), job.Caller(j)) && Apart(job.Dma(i), job.Dma(j)) && Apart(job.OnDisk(i), job.OnDisk(j)))
      && (job.Bounced(i) ==> Apart(job.Dma(i), job.Caller(j)) && Apart(job.Caller(j), job.Dma(i)))
  {
    hide CallerBytes, DeviceBytes, Extent, Position, GoodSegment, SegmentBytes, SegmentSectors, Distinct, Apart,
         Flatten, Pieces, Range, SgAddresses;
    var segs, bounced := Flatten(reqs), sg[0].addr % ss != 0;
    PieceFacts(reqs, op, sg, start, n, ss, i);
    PieceFacts(reqs, op, sg, start, n, ss, j);
    SegmentFacts(segs[i], op, bounced, ss);
    SegmentFacts(segs[j], op, bounced, ss);
    if i != j {
      if i < j {
        PairApart(segs, op, bounced, ss, start * ss, i, j);
      } else {
        PairApart(segs, op, bounced, ss, start * ss, j, i);
      }
      if bounced {
        ApartPages(segs[i], segs[j], op, ss);
      }
    }
    if bounced {
      SliceAt(segs, op, bounced, ss, j);
      ApartFromPage(segs[i], op, ss, CallerBytes(segs[j], ss));
    }
  }

  lemma TransferLayout(reqs: seq<Request>, op: Operation, sg: seq<SgElement>, start: nat, n: nat, ss: nat)
    requires |sg| > 0 && ss > 0 && Translates(reqs, op, sg, start, n, ss) && Separate(sg, Flatten(reqs))
    ensures TransferJob(reqs, ss).Layout() && TransferJob(reqs, ss).Does(op) && |Pieces(reqs)| == |Flatten(reqs)|
  {
    hide Translates, Separate, Job.Caller, Job.Dma, Job.OnDisk, Job.Bounced, Distinct, Apart, Flatten, Pieces;
    PieceCount(reqs);
    forall i | 0 <= i < |Pieces(reqs)| {
      OneLayout(reqs, op, sg, start, n, ss, i);
    }
    forall i, j | 0 <= i < |Pieces(reqs)| && 0 <= j < |Pieces(reqs)| {
      PairLayout(reqs, op, sg, start, n, ss, i, j);
    }
  }

  lemma SegmentFacts(seg: Segment, op: Operation, bounced: bool, ss: nat)
    requires GoodSegment(seg, op, bounced, ss)
    ensures seg.buffer != 0 <==> bounced
    ensures seg.grant.readOnly <==> op.WRITE?
    ensures seg.buffer == 0 ==> DeviceBytes(seg, ss) == CallerBytes(seg, ss)
    ensures Distinct(DeviceBytes(seg, ss))
  {
  }

  lemma RangeDistinct(a: nat, n: nat)
    ensures Distinct(Range(a, n))
  {
  }

  /** Every segment has been performed and completed. */
  ghost predicate Finished(segs: seq<Segment>, es: seq<Event>) {
    forall i :: 0 <= i < |segs| ==> Device(i) in es && Finish(i) in es
  }

  lemma TransferLength(reqs: seq<Request>, op: Operation, sg: seq<SgElement>, start: nat, n: nat, ss: nat)
    requires |sg| > 0 && ss > 0 && Translates(reqs, op, sg, start, n, ss)
    ensures |SgAddresses(sg)| == n * ss
  {
    hide CallerBytes, Sectors, GoodSegment, SegmentBytes, SegmentSectors, Flatten;
    BytesLength(Flatten(reqs), op, sg[0].addr % ss != 0, ss);
  }

  /** Every byte of the caller's buffer is a byte of one segment, in its place on the disk. */
  lemma ByteOfTransfer(reqs: seq<Request>, op: Operation, sg: seq<SgElement>, start: nat, n: nat, ss: nat, b: nat)
      returns (i: nat, x: nat)
    requires |sg| > 0 && ss > 0 && Translates(reqs, op, sg, start, n, ss) && b < n * ss
    ensures var job := TransferJob(reqs, ss);
      && b < |SgAddresses(sg)|
      && i < |job.pieces| && |job.pieces| == |Flatten(reqs)| && x < |job.Caller(i)| && x < |job.OnDisk(i)|
      && job.Caller(i)[x] == SgAddresses(sg)[b] && job.OnDisk(i)[x] == start * ss + b
  {
    hide CallerBytes, Extent, GoodSegment, SegmentBytes, SegmentSectors, Flatten, Pieces;
    var segs, bounced := Flatten(reqs), sg[0].addr % ss != 0;
    PieceCount(reqs);
    assert segs[..|segs|] == segs;
    BytesLength(segs, op, bounced, ss);
    i := Locate(segs, op, bounced, ss, |segs|, b);
    Slice(segs, op, bounced, ss, i);
    SliceAt(segs, op, bounced, ss, i);
    PieceFacts(reqs, op, sg, start, n, ss, i);
    var p := Position(segs, i, ss);
    x := b - p;
    assert SegmentBytes(segs, ss)[p..p + Extent(segs[i], ss)][x] == SgAddresses(sg)[b];
  }

  lemma SameAt(f: Bytes, s: seq<nat>, g: Bytes, t: seq<nat>, x: nat)
    requires Same(f, s, g, t) && x < |s|
    ensures |s| == |t| && f(s[x]) == g(t[x])
  {
  }

  lemma DiskUnread(job: Job, w0: World, es: seq<Event>, w: World)
    requires job.ReadSoFar(w0, es, w)
    ensures w.disk == w0.disk
    ensures forall i :: 0 <= i < |job.pieces| && Finish(i) in es ==> Same(w.mem, job.Caller(i), w0.disk, job.OnDisk(i))
  {
  }

  lemma DiskWritten(job: Job, w0: World, es: seq<Event>, w: World)
    requires job.WriteSoFar(w0, es, w)
    ensures forall i :: 0 <= i < |job.pieces| ==> Same(w.mem, job.Caller(i), w0.mem, job.Caller(i))
    ensures forall i :: 0 <= i < |job.pieces| && Device(i) in es ==> Same(w.disk, job.OnDisk(i), w0.mem, job.Caller(i))
  {
  }

  /** An address that is neither in the caller's buffer nor in a bounce page. */
  ghost predicate Elsewhere(sg: seq<SgElement>, segs: seq<Segment>, a: nat) {
    a !in SgAddresses(sg) && forall i :: 0 <= i < |segs| && segs[i].buffer != 0 ==> a / PAGE_SIZE != segs[i].buffer
  }

  lemma PieceElsewhere(reqs: seq<Request>, op: Operation, sg: seq<SgElement>, start: nat, n: nat, ss: nat, a: nat,
                       i: nat)
    requires |sg| > 0 && ss > 0 && Translates(reqs, op, sg, start, n, ss) && i < |Pieces(reqs)|
    ensures var job := TransferJob(reqs, ss);
      && (Elsewhere(sg, Flatten(reqs), a) ==> a !in job.Caller(i) && a !in job.Dma(i))
      && (a < start * ss || start * ss + n * ss <= a ==> a !in job.OnDisk(i))
  {
    hide CallerBytes, DeviceBytes, Extent, Position, GoodSegment, SegmentBytes, SegmentSectors, Flatten, Pieces,
         SgAddresses, Apart;
    var segs, bounced := Flatten(reqs), sg[0].addr % ss != 0;
    PieceFacts(reqs, op, sg, start, n, ss, i);
    Slice(segs, op, bounced, ss, i);
    TransferLength(reqs, op, sg, start, n, ss);
    SegmentFacts(segs[i], op, bounced, ss);
    if Elsewhere(sg, segs, a) && bounced {
      ApartFromPage(segs[i], op, ss, [a]);
      NotIn(DeviceBytes(segs[i], ss), a);
    }
  }

  lemma NotIn(s: seq<nat>, a: nat)
    requires Apart(s, [a])
    ensures a !in s
  {
    assert [a][0] == a;
  }

  /** What no segment of a transfer covers stays as it is. */
  lemma Untouched(reqs: seq<Request>, op: Operation, sg: seq<SgElement>, start: nat, n: nat, ss: nat, w0: World,
                  es: seq<Event>, a: nat)
    requires |sg| > 0 && ss > 0 && Translates(reqs, op, sg, start, n, ss)
    requires TransferJob(reqs, ss).Layout() && TransferJob(reqs, ss).Orderly(es)
    ensures Elsewhere(sg, Flatten(reqs), a) ==> TransferJob(reqs, ss).Run(w0, es).mem(a) == w0.mem(a)
    ensures a < start * ss || start * ss + n * ss <= a ==> TransferJob(reqs, ss).Run(w0, es).disk(a) == w0.disk(a)
  {
    hide Translates, Flatten, Pieces, Job.Layout, Job.Orderly, Job.Run, Job.Caller, Job.Dma, Job.OnDisk, Elsewhere;
    var job := TransferJob(reqs, ss);
    job.RunFrame(w0, es, a);
    forall i | 0 <= i < |job.pieces| {
      PieceElsewhere(reqs, op, sg, start, n, ss, a, i);
    }
  }

  /** A read, performed and completed in any order, leaves the caller's buffer equal to the disk
      range, and leaves everything outside the buffer and the bounce pages alone. */
  lemma ReadDelivers(reqs: seq<Request>, sg: seq<SgElement>, start: nat, n: nat, ss: nat, w0: World, es: seq<Event>)
    requires |sg| > 0 && ss > 0 && Translates(reqs, READ, sg, start, n, ss) && Separate(sg, Flatten(reqs))
    requires TransferJob(reqs, ss).Orderly(es) && Finished(Flatten(reqs), es)
    ensures TransferJob(reqs, ss).Layout() && |SgAddresses(sg)| == n * ss
    ensures var w := TransferJob(reqs, ss).Run(w0, es);
            && w.disk == w0.disk
            && (forall b :: 0 <= b < n * ss ==> w.mem(SgAddresses(sg)[b]) == w0.disk(start * ss + b))
            && (forall a: nat :: Elsewhere(sg, Flatten(reqs), a) ==> w.mem(a) == w0.mem(a))
  {
    hide Job.Layout, Job.Orderly, Job.Run, Job.ReadSoFar, Job.Caller, Job.OnDisk, Job.Does, Translates, Separate, Same,
         Flatten, SgAddresses, Elsewhere;
    TransferLayout(reqs, READ, sg, start, n, ss);
    TransferLength(reqs, READ, sg, start, n, ss);
    var job := TransferJob(reqs, ss);
    job.ReadRun(w0, es);
    var w := job.Run(w0, es);
    DiskUnread(job, w0, es, w);
    forall b | 0 <= b < n * ss ensures w.mem(SgAddresses(sg)[b]) == w0.disk(start * ss + b) {
      var i, x := ByteOfTransfer(reqs, READ, sg, start, n, ss, b);
      SameAt(w.mem, job.Caller(i), w0.disk, job.OnDisk(i), x);
    }
    forall a: nat | Elsewhere(sg, Flatten(reqs), a) ensures w.mem(a) == w0.mem(a) {
      Untouched(reqs, READ, sg, start, n, ss, w0, es, a);
    }
  }

  /** A write, performed in any order, leaves the disk range equal to what the caller's buffer
      held, and leaves the buffer, the rest of the disk and everything outside the bounce pages
      alone. */
  lemma WriteDelivers(reqs: seq<Request>, sg: seq<SgElement>, start: nat, n: nat, ss: nat, w0: World, es: seq<Event>)
    requires |sg| > 0 && ss > 0 && Translates(reqs, WRITE, sg, start, n, ss) && Separate(sg, Flatten(reqs))
    requires TransferJob(reqs, ss).Orderly(es) && Finished(Flatten(reqs), es)
    ensures TransferJob(reqs, ss).Layout() && |SgAddresses(sg)| == n * ss
    ensures var w := TransferJob(reqs, ss).Run(w0, es);
            && (forall b :: 0 <= b < n * ss ==> w.disk(start * ss + b) == w0.mem(SgAddresses(sg)[b]))
            && (forall b :: 0 <= b < n * ss ==> w.mem(SgAddresses(sg)[b]) == w0.mem(SgAddresses(sg)[b]))
            && (forall a: nat :: a < start * ss || start * ss + n * ss <= a ==> w.disk(a) == w0.disk(a))
            && (forall a: nat :: Elsewhere(sg, Flatten(reqs), a) ==> w.mem(a) == w0.mem(a))
  {
    hide Job.Layout, Job.Orderly, Job.Run, Job.WriteSoFar, Job.Caller, Job.OnDisk, Job.Does, Translates, Separate, Same,
         Flatten, SgAddresses, Elsewhere;
    TransferLayout(reqs, WRITE, sg, start, n, ss);
    TransferLength(reqs, WRITE, sg, start, n, ss);
    var job := TransferJob(reqs, ss);
    job.WriteRun(w0, es);
    var w := job.Run(w0, es);
    DiskWritten(job, w0, es, w);
    forall b | 0 <= b < n * ss ensures w.disk(start * ss + b) == w0.mem(SgAddresses(sg)[b]) {
      var i, x := ByteOfTransfer(reqs, WRITE, sg, start, n, ss, b);
      SameAt(w.disk, job.OnDisk(i), w0.mem, job.Caller(i), x);
    }
    forall b | 0 <= b < n * ss ensures w.mem(SgAddresses(sg)[b]) == w0.mem(SgAddresses(sg)[b]) {
      var i, x := ByteOfTransfer(reqs, WRITE, sg, start, n, ss, b);
      SameAt(w.mem, job.Caller(i), w0.mem, job.Caller(i), x);
    }
    forall a: nat | a < start * ss || start * ss + n * ss <= a ensures w.disk(a) == w0.disk(a) {
      Untouched(reqs, WRITE, sg, start, n, ss, w0, es, a);
    }
    forall a: nat | Elsewhere(sg, Flatten(reqs), a) ensures w.mem(a) == w0.mem(a) {
      Untouched(reqs, WRITE, sg, start, n, ss, w0, es, a);
    }
  }
}
