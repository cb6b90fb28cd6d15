/** From a completion to the data: an SRB that ends good has had its data moved, provided that the
    backend answers a request with success only after performing it. */
module Delivery {
  import opened Basics
  import opened Transfer
  import opened Requests
  import opened DataMovement
  import opened DataPath
  import opened RingBackend
  import FrontRing
  import TransferFacts

  /** What happens to a prepared transfer: the backend performs a segment, counted through all requests,
      or the driver reads a response to a request. */
  datatype Moment = Perform(i: nat) | Answers(j: nat, status: int)

  /** The number of the first segment of request j. */
  function First(reqs: seq<Request>, j: nat): nat
    requires j <= |reqs|
  {
    |Flatten(reqs[..j])|
  }

  /** The backend performs what it was asked for, and says that it has performed a request only when it
      has. */
  ghost predicate Honest(reqs: seq<Request>, ms: seq<Moment>) {
    forall k :: 0 <= k < |ms| ==>
      match ms[k]
      case Perform(i) => i < |Flatten(reqs)|
      case Answers(j, status) =>
        && j < |reqs|
        && (status == OKAY ==> forall i: nat :: First(reqs, j) <= i < First(reqs, j + 1) ==> Perform(i) in ms[..k])
  }

  /** The driver copies all bounced writes when it prepares the requests, and the bounced reads of a
      request when it reads the response to it. */
  function Events(reqs: seq<Request>, ms: seq<Moment>): seq<Event> {
    if ms == [] then seq(|Flatten(reqs)|, i requires 0 <= i => Begin(i))
    else
      var last := |ms| - 1;
      Events(reqs, ms[..last]) + Sets(reqs, ms[last])
  }

  function Sets(reqs: seq<Request>, m: Moment): seq<Event> {
    match m
    case Perform(i) => [Device(i)]
    case Answers(j, _) =>
      if j < |reqs| then seq(|reqs[j].segments|, x requires 0 <= x => Finish(First(reqs, j) + x)) else []
  }

  /** The responses that the driver reads, in order. */
  function Replies(reqs: seq<Request>, ms: seq<Moment>): seq<Reply> {
    if ms == [] then []
    else
      var last := |ms| - 1;
      Replies(reqs, ms[..last])
      + if ms[last].Answers? && ms[last].j < |reqs| then [Reply(reqs[ms[last].j], ms[last].status)] else []
  }

  // ---------------------------------------------------------------- requests of a translation

  lemma FirstNext(reqs: seq<Request>, j: nat)
    requires j < |reqs|
    ensures First(reqs, j + 1) == First(reqs, j) + |reqs[j].segments| <= |Flatten(reqs)|
  {
    assert reqs[..j + 1][..j] == reqs[..j];
    assert reqs == reqs[..j + 1] + reqs[j + 1..];
    FlattenConcat(reqs[..j + 1], reqs[j + 1..]);
  }

  /** The request that a segment belongs to. */
  lemma {:induction false} RequestOf(reqs: seq<Request>, i: nat) returns (j: nat)
    requires i < |Flatten(reqs)|
    ensures j < |reqs| && First(reqs, j) <= i < First(reqs, j + 1)
  {
    var last := |reqs| - 1;
    if i < First(reqs, last) {
      j := RequestOf(reqs[..last], i);
      assert reqs[..last][..j] == reqs[..j] && reqs[..last][..j + 1] == reqs[..j + 1];
    } else {
      j := last;
      assert reqs[..|reqs|] == reqs;
    }
  }

  lemma {:induction false} SectorsGrow(segs: seq<Segment>, op: Operation, bounced: bool, ss: nat)
    requires AllGood(segs, op, bounced, ss) && segs != []
    ensures SegmentSectors(segs) > 0
  {
    assert GoodSegment(segs[|segs| - 1], op, bounced, ss);
  }

  lemma FlattenBetween(reqs: seq<Request>, a: nat, b: nat)
    requires a < b <= |reqs|
    ensures Flatten(reqs[..b]) == Flatten(reqs[..a]) + Flatten(reqs[a..b])
    ensures Flatten(reqs) == Flatten(reqs[..a]) + Flatten(reqs[a..b]) + Flatten(reqs[b..])
    ensures |Flatten(reqs[a..b])| >= |reqs[a].segments|
  {
    hide Flatten;
    assert reqs[..b] == reqs[..a] + reqs[a..b];
    assert reqs == reqs[..b] + reqs[b..];
    FlattenConcat(reqs[..a], reqs[a..b]);
    FlattenConcat(reqs[..b], reqs[b..]);
    FlattenHead(reqs[a..b]);
  }

  lemma GoodMiddle(x: seq<Segment>, y: seq<Segment>, z: seq<Segment>, op: Operation, bounced: bool, ss: nat)
    requires AllGood(x + y + z, op, bounced, ss)
    ensures AllGood(y, op, bounced, ss)
  {
    hide GoodSegment;
    forall i | 0 <= i < |y| ensures y[i] == (x + y + z)[|x| + i] {
    }
  }

  /** The requests of a transfer start at different sectors. */
  lemma DistinctRequests(reqs: seq<Request>, op: Operation, sg: seq<SgElement>, start: nat, n: nat, ss: nat, a: nat,
                         b: nat)
    requires |sg| > 0 && ss > 0 && Translates(reqs, op, sg, start, n, ss) && a < b < |reqs|
    ensures reqs[a].firstSector < reqs[b].firstSector
  {
    hide Flatten, AllGood, SegmentSectors, SegmentBytes, SgAddresses, SegmentCount;
    var before, between := Flatten(reqs[..a]), Flatten(reqs[a..b]);
    FlattenBetween(reqs, a, b);
    TransferFacts.SectorsConcat(before, between);
    GoodMiddle(before, between, Flatten(reqs[b..]), op, sg[0].addr % ss != 0, ss);
    SectorsGrow(between, op, sg[0].addr % ss != 0, ss);
  }

  // ---------------------------------------------------------------- the events of a transfer

  lemma HonestPrefix(reqs: seq<Request>, ms: seq<Moment>, k: nat)
    requires Honest(reqs, ms) && k <= |ms|
    ensures Honest(reqs, ms[..k])
  {
    forall x | 0 <= x < k ensures ms[..k][x] == ms[x] && ms[..k][..x] == ms[..x] {
    }
  }

  lemma {:induction false} EventsPrefix(reqs: seq<Request>, ms: seq<Moment>, k: nat)
    requires k <= |ms|
    ensures Events(reqs, ms[..k]) <= Events(reqs, ms)
    decreases |ms|
  {
    if k == |ms| {
      assert ms[..k] == ms;
    } else {
      var last := |ms| - 1;
      EventsPrefix(reqs, ms[..last], k);
      assert ms[..last][..k] == ms[..k];
    }
  }

  /** What a moment sets off is among the events. */
  lemma MomentIn(reqs: seq<Request>, ms: seq<Moment>, k: nat, e: Event)
    requires k < |ms| && e in Sets(reqs, ms[k])
    ensures e in Events(reqs, ms)
  {
    hide Sets;
    EventsPrefix(reqs, ms, k + 1);
    assert ms[..k + 1][..k] == ms[..k];
    var before, after := Events(reqs, ms[..k + 1]), Events(reqs, ms);
    assert e in before;
    assert forall x :: 0 <= x < |before| ==> after[x] == before[x];
  }

  lemma BeginIn(reqs: seq<Request>, ms: seq<Moment>, i: nat)
    requires i < |Flatten(reqs)|
    ensures Begin(i) in Events(reqs, ms)
  {
    EventsPrefix(reqs, ms, 0);
    assert ms[..0] == [];
    assert Events(reqs, ms)[i] == Begin(i);
  }

  /** Events that may follow others. */
  ghost predicate Follow(job: Job, es: seq<Event>, more: seq<Event>) {
    forall e :: e in more ==>
      && e.i < |job.pieces|
      && (e.Device? ==> Begin(e.i) in es)
      && (e.Finish? ==> Device(e.i) in es)
  }

  lemma OrderlyMore(job: Job, es: seq<Event>, more: seq<Event>)
    requires job.Orderly(es) && Follow(job, es, more)
    ensures job.Orderly(es + more)
  {
    var all := es + more;
    forall k | 0 <= k < |all|
      ensures all[k].i < |job.pieces|
      ensures all[k].Device? ==> Begin(all[k].i) in all[..k]
      ensures all[k].Finish? ==> Device(all[k].i) in all[..k]
    {
      if k < |es| {
        assert all[..k] == es[..k];
      } else {
        assert all[k] in more;
        assert all[..k] == es + more[..k - |es|];
      }
    }
  }

  /** No answer but success. */
  ghost predicate Smooth(ms: seq<Moment>) {
    forall k :: 0 <= k < |ms| && ms[k].Answers? ==> ms[k].status == OKAY
  }

  lemma {:induction false} EventsOrderly(reqs: seq<Request>, ms: seq<Moment>, ss: nat)
    requires Honest(reqs, ms) && Smooth(ms)
    ensures TransferJob(reqs, ss).Orderly(Events(reqs, ms))
    decreases |ms|
  {
    hide Job.Orderly, Honest, Sets;
    var job := TransferJob(reqs, ss);
    PieceCount(reqs);
    if ms == [] {
      OrderlyStart(job, Events(reqs, []));
    } else {
      var last := |ms| - 1;
      HonestPrefix(reqs, ms, last);
      EventsOrderly(reqs, ms[..last], ss);
      MomentFollows(reqs, ms, ss);
      OrderlyMore(job, Events(reqs, ms[..last]), Sets(reqs, ms[last]));
    }
  }

  lemma OrderlyStart(job: Job, es: seq<Event>)
    requires forall e :: e in es ==> e.Begin? && e.i < |job.pieces|
    ensures job.Orderly(es)
  {
  }

  lemma MomentFollows(reqs: seq<Request>, ms: seq<Moment>, ss: nat)
    requires Honest(reqs, ms) && Smooth(ms) && ms != []
    ensures Follow(TransferJob(reqs, ss), Events(reqs, ms[..|ms| - 1]), Sets(reqs, ms[|ms| - 1]))
  {
    hide Events, Flatten;
    var last := |ms| - 1;
    PieceCount(reqs);
    match ms[last] {
      case Perform(i) =>
        BeginIn(reqs, ms[..last], i);
      case Answers(j, status) =>
        FirstNext(reqs, j);
        forall e | e in Sets(reqs, ms[last])
            ensures e.Finish? && e.i < |Flatten(reqs)| && Device(e.i) in Events(reqs, ms[..last]) {
          assert Perform(e.i) in ms[..last];
          PerformedIn(reqs, ms[..last], e.i);
        }
    }
  }

  lemma PerformedIn(reqs: seq<Request>, ms: seq<Moment>, i: nat)
    requires Perform(i) in ms
    ensures Device(i) in Events(reqs, ms)
  {
    hide Events;
    var k :| 0 <= k < |ms| && ms[k] == Perform(i);
    MomentIn(reqs, ms, k, Device(i));
  }

  // ---------------------------------------------------------------- replies

  lemma {:induction false} RepliesAre(reqs: seq<Request>, ms: seq<Moment>)
    requires Honest(reqs, ms)
    ensures forall k :: 0 <= k < |ms| && ms[k].Answers? ==> Reply(reqs[ms[k].j], ms[k].status) in Replies(reqs, ms)
    ensures forall r :: r in Replies(reqs, ms) ==>
              exists k :: 0 <= k < |ms| && ms[k].Answers? && r == Reply(reqs[ms[k].j], ms[k].status)
    decreases |ms|
  {
    if ms != [] {
      var last := |ms| - 1;
      HonestPrefix(reqs, ms, last);
      RepliesAre(reqs, ms[..last]);
    }
  }

  /** Once every request has been answered with success, every segment has been performed and completed. */
  lemma AllFinished(reqs: seq<Request>, op: Operation, sg: seq<SgElement>, start: nat, n: nat, ss: nat, ms: seq<Moment>)
    requires |sg| > 0 && ss > 0 && Translates(reqs, op, sg, start, n, ss)
    requires Honest(reqs, ms) && Smooth(ms) && multiset(Asked(Replies(reqs, ms))) == multiset(reqs)
    ensures Finished(Flatten(reqs), Events(reqs, ms))
  {
    hide Translates, Events, Replies, Flatten;
    forall i | 0 <= i < |Flatten(reqs)| ensures Device(i) in Events(reqs, ms) && Finish(i) in Events(reqs, ms) {
      var j := RequestOf(reqs, i);
      var k := AnswerTo(reqs, op, sg, start, n, ss, ms, j);
      FirstNext(reqs, j);
      assert Perform(i) in ms[..k];
      PerformedIn(reqs, ms, i);
      assert Sets(reqs, ms[k])[i - First(reqs, j)] == Finish(i);
      MomentIn(reqs, ms, k, Finish(i));
    }
  }

  lemma AnswerTo(reqs: seq<Request>, op: Operation, sg: seq<SgElement>, start: nat, n: nat, ss: nat, ms: seq<Moment>,
                 j: nat)
    returns (k: nat)
    requires |sg| > 0 && ss > 0 && Translates(reqs, op, sg, start, n, ss) && j < |reqs|
    requires Honest(reqs, ms) && multiset(Asked(Replies(reqs, ms))) == multiset(reqs)
    ensures k < |ms| && ms[k].Answers? && ms[k].j == j
  {
    hide Translates, Replies, Flatten;
    var replies := Replies(reqs, ms);
    RepliesAre(reqs, ms);
    assert reqs[j] in multiset(Asked(replies));
    var x :| 0 <= x < |replies| && Asked(replies)[x] == reqs[j];
    assert replies[x] in replies;
    k :| 0 <= k < |ms| && ms[k].Answers? && replies[x] == Reply(reqs[ms[k].j], ms[k].status);
    var j1 := ms[k].j;
    if j1 < j {
      DistinctRequests(reqs, op, sg, start, n, ss, j1, j);
    } else if j < j1 {
      DistinctRequests(reqs, op, sg, start, n, ss, j, j1);
    }
  }

  /** The backend may perform everything and then answer in any order: whatever the responses are, there
      is a history with them. */
  lemma {:induction false} SomeHistory(reqs: seq<Request>, replies: seq<Reply>) returns (ms: seq<Moment>)
    requires forall r :: r in replies ==> r.request in reqs
    ensures Honest(reqs, ms) && Replies(reqs, ms) == replies
    ensures forall i: nat :: i < |Flatten(reqs)| ==> Perform(i) in ms
  {
    hide Flatten, Honest;
    if replies == [] {
      ms := Performs(|Flatten(reqs)|);
      NoReplies(reqs, |Flatten(reqs)|);
      PerformsAll(reqs);
    } else {
      var last := |replies| - 1;
      var before := SomeHistory(reqs, replies[..last]);
      assert replies[last].request in reqs;
      var j :| 0 <= j < |reqs| && reqs[j] == replies[last].request;
      ms := before + [Answers(j, replies[last].status)];
      assert ms[..|before|] == before;
      AnswersMore(reqs, before, j, replies[last].status);
    }
  }

  lemma PerformsAll(reqs: seq<Request>)
    ensures Honest(reqs, Performs(|Flatten(reqs)|))
    ensures forall i: nat :: i < |Flatten(reqs)| ==> Perform(i) in Performs(|Flatten(reqs)|)
  {
    hide Flatten;
    var ms := Performs(|Flatten(reqs)|);
    assert forall i: nat :: i < |Flatten(reqs)| ==> ms[i] == Perform(i);
  }

  lemma AnswersMore(reqs: seq<Request>, ms: seq<Moment>, j: nat, status: int)
    requires Honest(reqs, ms) && j < |reqs| && forall i: nat :: i < |Flatten(reqs)| ==> Perform(i) in ms
    ensures Honest(reqs, ms + [Answers(j, status)])
  {
    hide Flatten, First;
    FirstNext(reqs, j);
    var all := ms + [Answers(j, status)];
    assert all[..|ms|] == ms;
    forall k | 0 <= k < |ms| ensures all[k] == ms[k] && all[..k] == ms[..k] {
    }
  }

  function Performs(n: nat): seq<Moment> {
    seq(n, i requires 0 <= i => Perform(i))
  }

  lemma {:induction false} NoReplies(reqs: seq<Request>, n: nat)
    ensures Replies(reqs, Performs(n)) == []
  {
    if n > 0 {
      assert Performs(n)[..n - 1] == Performs(n - 1);
      NoReplies(reqs, n - 1);
    }
  }

  // ---------------------------------------------------------------- the result

  /** The history of a transfer that ended good. What kind of transfer it is, is what it was accepted as. */
  ghost predicate EndedGood(pdo: Pdo, c: Completion, write: bool, ms: seq<Moment>)
    reads pdo, pdo.env
  {
    && pdo.Valid() && c in pdo.completed && c.end.Answered? && c.srb.scsi == GOOD
    && c.srb.id in pdo.asked && pdo.asked[c.srb.id].kind == ReadWrite(write)
    && Honest(c.srb.sent, ms) && Replies(c.srb.sent, ms) == c.srb.responses
  }

  /** For every completed SRB whose requests have been answered there is a history to go with it. */
  lemma HasHistory(pdo: Pdo, c: Completion) returns (ms: seq<Moment>)
    requires pdo.Valid() && c in pdo.completed && c.end.Answered?
    ensures Honest(c.srb.sent, ms) && Replies(c.srb.sent, ms) == c.srb.responses
  {
    hide Translates, Honest, Replies, MdlShape, Flatten;
    assert Lawful(c, pdo.ss);
    forall r | r in c.srb.responses ensures r.request in c.srb.sent {
      var x :| 0 <= x < |c.srb.responses| && c.srb.responses[x] == r;
      assert Asked(c.srb.responses)[x] == r.request;
      assert r.request in multiset(Asked(c.srb.responses));
    }
    ms := SomeHistory(c.srb.sent, c.srb.responses);
  }

  lemma GoodIsFinished(pdo: Pdo, c: Completion, write: bool, ms: seq<Moment>)
    requires EndedGood(pdo, c, write, ms)
    ensures c.srb.id in pdo.asked
    ensures var t := pdo.asked[c.srb.id];
            && c.srb.sg == t.sg && |t.sg| > 0 && pdo.ss > 0
            && Translates(c.srb.sent, if write then WRITE else READ, t.sg, t.start, t.count, pdo.ss)
    ensures TransferJob(c.srb.sent, pdo.ss).Orderly(Events(c.srb.sent, ms))
    ensures Finished(Flatten(c.srb.sent), Events(c.srb.sent, ms))
  {
    hide Translates, Honest, Replies, Finished, Job.Orderly, Events, MdlShape;
    var reqs := c.srb.sent;
    assert Lawful(c, pdo.ss) && Remembers(pdo.asked, c.srb);
    SmoothAnswers(reqs, ms);
    EventsOrderly(reqs, ms, pdo.ss);
    AllFinished(reqs, c.srb.Op(), c.srb.sg, c.srb.start, c.srb.count, pdo.ss, ms);
  }

  lemma SmoothAnswers(reqs: seq<Request>, ms: seq<Moment>)
    requires Honest(reqs, ms) && AllOkay(Replies(reqs, ms))
    ensures Smooth(ms)
  {
    hide Honest, Replies;
    RepliesAre(reqs, ms);
  }

  /** A read that ends good has its data: the buffer that the port driver named when it handed the SRB in
      equals the disk range that it named. What the backend did it did by the entries of the SRB's
      requests on the ring. */
  lemma GoodReadIsDelivered(pdo: Pdo, c: Completion, ms: seq<Moment>, ids: seq<int>, grants: map<int, Access>,
                            w0: World)
    requires EndedGood(pdo, c, false, ms) && Separate(c.srb.sg, Flatten(c.srb.sent))
    requires |ids| == |c.srb.sent| && Granted(grants, Flatten(c.srb.sent))
    ensures var t, job, es := pdo.asked[c.srb.id], TransferJob(c.srb.sent, pdo.ss), Events(c.srb.sent, ms);
            && |SgAddresses(t.sg)| == t.count * pdo.ss
            && job.Layout() && job.Orderly(es)
            && var w := RingRun(w0, FrontRing.Entries(ids, c.srb.sent), grants, job, es);
               && w.disk == w0.disk
               && forall b :: 0 <= b < t.count * pdo.ss ==>
                  w.mem(SgAddresses(t.sg)[b]) == w0.disk(t.start * pdo.ss + b)
  {
    hide Translates, EndedGood, Job.Orderly, Job.Layout, RingRun, Granted, Separate, Finished, Events, Flatten,
         SgAddresses;
    GoodIsFinished(pdo, c, false, ms);
    var t := pdo.asked[c.srb.id];
    RingReadDelivers(ids, c.srb.sent, grants, t.sg, t.start, t.count, pdo.ss, w0, Events(c.srb.sent, ms));
  }

  /** A write that ends good is on the disk, where the port driver wanted it. */
  lemma GoodWriteIsDelivered(pdo: Pdo, c: Completion, ms: seq<Moment>, ids: seq<int>, grants: map<int, Access>,
                             w0: World)
    requires EndedGood(pdo, c, true, ms) && Separate(c.srb.sg, Flatten(c.srb.sent))
    requires |ids| == |c.srb.sent| && Granted(grants, Flatten(c.srb.sent))
    ensures var t, job, es := pdo.asked[c.srb.id], TransferJob(c.srb.sent, pdo.ss), Events(c.srb.sent, ms);
            && |SgAddresses(t.sg)| == t.count * pdo.ss
            && job.Layout() && job.Orderly(es)
            && var w := RingRun(w0, FrontRing.Entries(ids, c.srb.sent), grants, job, es);
               && (forall b :: 0 <= b < t.count * pdo.ss ==>
                   w.disk(t.start * pdo.ss + b) == w0.mem(SgAddresses(t.sg)[b]))
               && (forall a: nat :: a < t.start * pdo.ss || (t.start + t.count) * pdo.ss <= a ==>
                   w.disk(a) == w0.disk(a))
  {
    hide Translates, EndedGood, Job.Orderly, Job.Layout, RingRun, Granted, Separate, Finished, Events, Flatten,
         SgAddresses;
    GoodIsFinished(pdo, c, true, ms);
    var t := pdo.asked[c.srb.id];
    RingWriteDelivers(ids, c.srb.sent, grants, t.sg, t.start, t.count, pdo.ss, w0, Events(c.srb.sent, ms));
  }
}
