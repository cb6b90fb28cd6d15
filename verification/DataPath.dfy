/** The life of an SRB in the driver: fresh, prepared, submitted, completed; reverted on resume,
    aborted on power down, put back when a step fails. */
module DataPath {
  import opened Basics
  import opened Transfer
  import opened Requests
  import TransferFacts
  import Frontends = Frontend

  const OKAY: int := 0           // BLKIF_RSP_OKAY
  const EOPNOTSUPP: int := -2    // BLKIF_RSP_EOPNOTSUPP

  /** What an SRB asks for: a transfer, a flush of the disk's cache, a flush or shutdown of the adapter, a
      device reset, a command that always succeeds, one that is answered from what is known of the
      disk, or one that the driver does not know. */
  datatype Kind = ReadWrite(write: bool) | SyncCache | Flush | ResetDevice | Ready | Inquiry | Unsupported

  /** OTHER is for what the inquiry commands set. */
  datatype SrbStatus = INVALID_REQUEST | SUCCESS | ERROR | INVALID_PATH_ID | INVALID_LUN | NO_DEVICE | OTHER(code: int)

  /** UNSET is whatever the port driver left in the field. */
  datatype ScsiStatus = UNSET | GOOD | ABORTED | CHECK_CONDITION

  /** What an inquiry command sets. Most leave the SCSI status alone. */
  datatype Verdict = Verdict(status: SrbStatus, scsi: Option<ScsiStatus>) {
    function Of(srb: Srb): Srb {
      srb.(status := status, scsi := if scsi.Some? then scsi.value else srb.scsi)
    }
  }

  /** A response, and the request that it answers. */
  datatype Reply = Reply(request: Request, status: int)

  function Asked(replies: seq<Reply>): (r: seq<Request>)
    ensures |r| == |replies|
  {
    seq(|replies|, i requires 0 <= i < |replies| => replies[i].request)
  }

  /** An SRB and what the driver keeps about it. Sent and responses are history that the driver does
      not keep: the requests of the last submission, and the responses to these so far. */
  datatype Srb = Srb(id: int, pathId: int, lun: int, kind: Kind, sg: seq<SgElement>, start: nat, count: nat,
                     status: SrbStatus, scsi: ScsiStatus, requests: seq<Request>,
                     sent: seq<Request>, responses: seq<Reply>) {

    function Op(): Operation {
      if kind.ReadWrite? then if kind.write then WRITE else READ else WRITE_BARRIER
    }

    /** The caller's buffer has exactly as many bytes as the transfer. */
    ghost predicate WellShaped(ss: nat) {
      kind.ReadWrite? ==> count > 0 && MdlShape(sg, count * ss)
    }

    /** These requests do what the SRB asks for. */
    ghost predicate Proper(reqs: seq<Request>, ss: nat) {
      && WellShaped(ss)
      && match kind
         case ReadWrite(_) => |sg| > 0 && ss > 0 && Translates(reqs, Op(), sg, start, count, ss)
         case SyncCache => reqs == [Request(WRITE_BARRIER, start, [])]
         case _ => false
    }

    /** As the port driver finds it before it starts it. */
    ghost predicate Built() {
      requests == [] && status == INVALID_REQUEST
    }

    ghost predicate Fresh(ss: nat) {
      WellShaped(ss) && requests == [] && (kind.ReadWrite? || kind.SyncCache?)
    }

    ghost predicate Ready(ss: nat) {
      Proper(requests, ss) && requests != []
    }

    /** Some requests are still out, the others have been answered once each, and the status tells
        whether all answers were okay. */
    ghost predicate Waiting(ss: nat) {
      && Proper(sent, ss) && requests != []
      && |requests| + |responses| == |sent|
      && (forall r :: r in requests ==> r in sent)
      && multiset(requests) + multiset(Asked(responses)) == multiset(sent)
      && (status == SUCCESS <==> AllOkay(responses))
    }
  }

  /** What the port driver asked for. */
  datatype Task = Task(pathId: int, lun: int, kind: Kind, sg: seq<SgElement>, start: nat, count: nat)

  /** The SRB still asks for what it was accepted for. */
  ghost predicate Remembers(asked: map<int, Task>, srb: Srb) {
    srb.id in asked && asked[srb.id] == Task(srb.pathId, srb.lun, srb.kind, srb.sg, srb.start, srb.count)
  }

  lemma StillRemembers(asked: map<int, Task>, s: Srb, t: Srb)
    requires Remembers(asked, s)
    requires t == s.(status := t.status, scsi := t.scsi, requests := t.requests, sent := t.sent,
                     responses := t.responses)
    ensures Remembers(asked, t)
  {
  }

  lemma RemembersMore(asked: map<int, Task>, id: int, task: Task)
    requires id !in asked
    ensures forall s :: Remembers(asked, s) ==> Remembers(asked[id := task], s)
    ensures forall s: Srb :: s.id == id && task == Task(s.pathId, s.lun, s.kind, s.sg, s.start, s.count) ==>
              Remembers(asked[id := task], s)
  {
  }

  ghost predicate AllOkay(responses: seq<Reply>) {
    forall r :: r in responses ==> r.status == OKAY
  }

  /** Every request has been answered, and answered once. */
  ghost predicate AllAnswered(srb: Srb) {
    && |srb.responses| == |srb.sent|
    && multiset(Asked(srb.responses)) == multiset(srb.sent)
  }

  /** How an SRB came to be completed. */
  datatype End = AtOnce | Answered | Aborting | Flushed

  datatype Completion = Completion(srb: Srb, end: End)

  /** An SRB that went to the backend ends good if and only if every request of a correct
      translation has been answered, once, and every answer was okay; and a completed SRB owns nothing. */
  ghost predicate Lawful(c: Completion, ss: nat) {
    && c.srb.requests == []
    && match c.end
       case AtOnce => true
       case Answered =>
         && c.srb.Proper(c.srb.sent, ss) && AllAnswered(c.srb)
         && (c.srb.scsi == GOOD || c.srb.scsi == ABORTED)
         && (c.srb.scsi == GOOD <==> AllOkay(c.srb.responses))
         && (c.srb.status == SUCCESS <==> AllOkay(c.srb.responses))
       case Aborting => c.srb.scsi == ABORTED
       case Flushed => c.srb.status == SUCCESS
  }

  /** All requests of a queue of SRBs, in order. */
  function Owned(q: seq<Srb>): seq<Request> {
    if q == [] then [] else Owned(q[..|q| - 1]) + q[|q| - 1].requests
  }

  lemma {:induction false} OwnedConcat(a: seq<Srb>, b: seq<Srb>)
    ensures Owned(a + b) == Owned(a) + Owned(b)
  {
    if b == [] {
      assert a + b == a;
    } else {
      assert (a + b)[..|a + b| - 1] == a + b[..|b| - 1];
      OwnedConcat(a, b[..|b| - 1]);
    }
  }

  lemma OwnedLast(q: seq<Srb>, s: Srb)
    ensures Owned(q + [s]) == Owned(q) + s.requests
  {
    assert (q + [s])[..|q|] == q;
  }

  lemma OwnedParts(q: seq<Srb>, before: seq<Srb>, srb: Srb, after: seq<Srb>)
    requires q == before + [srb] + after
    ensures Owned(q) == Owned(before) + srb.requests + Owned(after)
  {
    hide Owned;
    OwnedConcat(before + [srb], after);
    OwnedLast(before, srb);
  }

  /** The requests of a queue in terms of one SRB in it. */
  lemma OwnedAt(q: seq<Srb>, i: nat)
    requires i < |q|
    ensures Owned(q) == Owned(q[..i]) + q[i].requests + Owned(q[i + 1..])
  {
    hide Owned;
    SplitAt(q, i);
    OwnedParts(q, q[..i], q[i], q[i + 1..]);
  }

  // ---------------------------------------------------------------- where SRBs are

  /** BUILT SRBs have been accepted, but the port driver has not started them yet. */
  datatype Place = BUILT | FRESH | PREPARED | SUBMITTED | SHUTDOWN | COMPLETED

  function Ids(q: seq<Srb>): (r: seq<int>)
    ensures |r| == |q|
  {
    seq(|q|, i requires 0 <= i < |q| => q[i].id)
  }

  /** The queue holds exactly the SRBs that are in this place, each once. */
  ghost predicate Housed(place: map<int, Place>, p: Place, q: seq<int>) {
    && (forall i, j :: 0 <= i < j < |q| ==> q[i] != q[j])
    && (forall s :: s in q ==> s in place && place[s] == p)
    && (forall s :: s in place && place[s] == p ==> s in q)
  }

  lemma Leave(place: map<int, Place>, p: Place, q: seq<int>, i: nat, to: Place)
    requires Housed(place, p, q) && i < |q| && to != p
    ensures q[i] in place && place[q[i]] == p
    ensures Housed(place[q[i] := to], p, Without(q, i))
  {
    var rest := Without(q, i);
    assert q[i] in q;
    forall s | s in q && s != q[i] ensures s in rest {
      var k :| 0 <= k < |q| && q[k] == s;
      assert rest[if k < i then k else k - 1] == s;
    }
  }

  lemma Enter(place: map<int, Place>, p: Place, q: seq<int>, s: int)
    requires Housed(place, p, q) && (s in place ==> place[s] != p)
    ensures Housed(place[s := p], p, q + [s]) && Housed(place[s := p], p, [s] + q)
  {
  }

  lemma Unmoved(place: map<int, Place>, p: Place, q: seq<int>, s: int, to: Place)
    requires Housed(place, p, q) && (s in place ==> place[s] != p) && to != p
    ensures Housed(place[s := to], p, q)
  {
  }

  /** The driver's queues, as far as SRBs move between them. */
  datatype Queues = Queues(built: seq<int>, idle: seq<int>, prepared: seq<int>, submitted: seq<int>, shutdown: seq<int>,
                           completed: seq<int>) {
    function At(p: Place): seq<int> {
      match p
      case BUILT => built
      case FRESH => idle
      case PREPARED => prepared
      case SUBMITTED => submitted
      case SHUTDOWN => shutdown
      case COMPLETED => completed
    }
  }

  /** Every accepted SRB is in exactly one place, once. */
  ghost predicate Filed(place: map<int, Place>, qs: Queues) {
    forall p :: Housed(place, p, qs.At(p))
  }

  /** Moving one SRB from one queue to the tail or the head of another. */
  lemma Move(place: map<int, Place>, qs: Queues, from: Place, i: nat, to: Place, qs1: Queues)
    requires Filed(place, qs) && i < |qs.At(from)| && from != to
    requires forall p :: p != from && p != to ==> qs1.At(p) == qs.At(p)
    requires qs1.At(from) == Without(qs.At(from), i)
    requires qs1.At(to) == qs.At(to) + [qs.At(from)[i]] || qs1.At(to) == [qs.At(from)[i]] + qs.At(to)
    ensures qs.At(from)[i] in place
    ensures Filed(place[qs.At(from)[i] := to], qs1)
    ensures |place[qs.At(from)[i] := to]| == |place|
  {
    hide Housed, Without;
    var s := qs.At(from)[i];
    Leave(place, from, qs.At(from), i, to);
    Enter(place, to, qs.At(to), s);
    forall p ensures Housed(place[s := to], p, qs1.At(p)) {
      if p != from && p != to {
        Unmoved(place, p, qs.At(p), s, to);
      }
    }
  }

  lemma Arrive(place: map<int, Place>, qs: Queues, s: int)
    requires Filed(place, qs) && s !in place
    ensures Filed(place[s := BUILT], qs.(built := qs.built + [s]))
    ensures |place[s := BUILT]| == |place| + 1
  {
    hide Housed;
    var qs1 := qs.(built := qs.built + [s]);
    Enter(place, BUILT, qs.built, s);
    assert qs1.At(BUILT) == qs.At(BUILT) + [s];
    forall p ensures Housed(place[s := BUILT], p, qs1.At(p)) {
      if p != BUILT {
        Unmoved(place, p, qs.At(p), s, BUILT);
      }
    }
  }

  lemma IdsWithout(q: seq<Srb>, i: nat)
    requires i < |q|
    ensures Ids(Without(q, i)) == Without(Ids(q), i) && Ids(q)[i] == q[i].id
    ensures i == 0 ==> Without(q, i) == q[1..]
    ensures i == |q| - 1 ==> Without(q, i) == q[..i]
  {
  }

  lemma IdsEnds(q: seq<Srb>, s: Srb)
    ensures Ids(q + [s]) == Ids(q) + [s.id] && Ids([s] + q) == [s.id] + Ids(q)
  {
  }

  /** What is true of every SRB, by where it is. */
  ghost predicate AllLawful(asked: map<int, Task>, ss: nat, built: seq<Srb>, idle: seq<Srb>, prepared: seq<Srb>,
                            submitted: seq<Srb>, shutdown: seq<Srb>, completed: seq<Completion>) {
    && (forall s :: s in built ==> s.Built() && Remembers(asked, s))
    && (forall s :: s in idle ==> s.Fresh(ss) && Remembers(asked, s))
    && (forall s :: s in prepared ==> s.Ready(ss) && Remembers(asked, s))
    && (forall s :: s in submitted ==> s.Waiting(ss) && Remembers(asked, s))
    && (forall s :: s in shutdown ==> s.requests == [] && Remembers(asked, s))
    && (forall c :: c in completed ==> Lawful(c, ss) && Remembers(asked, c.srb))
  }

  /** The head of a queue is completed. */
  lemma HeadCompleted(asked: map<int, Task>, ss: nat, built: seq<Srb>, idle: seq<Srb>, prepared: seq<Srb>,
                      submitted: seq<Srb>, shutdown: seq<Srb>, completed: seq<Completion>, c: Completion)
    requires AllLawful(asked, ss, built, idle, prepared, submitted, shutdown, completed)
    requires Lawful(c, ss) && Remembers(asked, c.srb)
    ensures idle != [] ==>
              AllLawful(asked, ss, built, idle[1..], prepared, submitted, shutdown, completed + [c])
    ensures prepared != [] ==>
              AllLawful(asked, ss, built, idle, prepared[1..], submitted, shutdown, completed + [c])
    ensures submitted != [] ==>
              AllLawful(asked, ss, built, idle, prepared, submitted[1..], shutdown, completed + [c])
    ensures shutdown != [] ==>
              AllLawful(asked, ss, built, idle, prepared, submitted, shutdown[1..], completed + [c])
  {
    hide Lawful, Remembers, Srb.Built, Srb.Fresh, Srb.Ready, Srb.Waiting;
  }

  lemma SubmittedCompleted(asked: map<int, Task>, ss: nat, built: seq<Srb>, idle: seq<Srb>, prepared: seq<Srb>,
                           submitted: seq<Srb>, shutdown: seq<Srb>, completed: seq<Completion>, k: nat, c: Completion)
    requires AllLawful(asked, ss, built, idle, prepared, submitted, shutdown, completed) && k < |submitted|
    requires Lawful(c, ss) && Remembers(asked, c.srb)
    ensures AllLawful(asked, ss, built, idle, prepared, Without(submitted, k), shutdown, completed + [c])
  {
    hide Lawful, Remembers, Srb.Built, Srb.Fresh, Srb.Ready, Srb.Waiting;
    InWithout(submitted, k);
  }

  lemma HeadSubmitted(asked: map<int, Task>, ss: nat, built: seq<Srb>, idle: seq<Srb>, prepared: seq<Srb>,
                      submitted: seq<Srb>, shutdown: seq<Srb>, completed: seq<Completion>)
    requires AllLawful(asked, ss, built, idle, prepared, submitted, shutdown, completed) && prepared != []
    ensures AllLawful(asked, ss, built, idle, prepared[1..], submitted + [Submitted(prepared[0])], shutdown, completed)
  {
    hide Lawful, Remembers, Submitted, Srb.Built, Srb.Fresh, Srb.Ready, Srb.Waiting;
    assert prepared[0] in prepared;
    ReadyWaits(prepared[0], ss);
    SubmittedFacts(prepared[0]);
    StillRemembers(asked, prepared[0], Submitted(prepared[0]));
  }

  lemma BuiltCompleted(asked: map<int, Task>, ss: nat, built: seq<Srb>, idle: seq<Srb>, prepared: seq<Srb>,
                       submitted: seq<Srb>, shutdown: seq<Srb>, completed: seq<Completion>, k: nat, c: Completion)
    requires AllLawful(asked, ss, built, idle, prepared, submitted, shutdown, completed) && k < |built|
    requires Lawful(c, ss) && Remembers(asked, c.srb)
    ensures AllLawful(asked, ss, Without(built, k), idle, prepared, submitted, shutdown, completed + [c])
  {
    hide Lawful, Remembers, Srb.Built, Srb.Fresh, Srb.Ready, Srb.Waiting;
    InWithout(built, k);
  }

  lemma LawfulOnes(asked: map<int, Task>, ss: nat, built: seq<Srb>, idle: seq<Srb>, prepared: seq<Srb>,
                   submitted: seq<Srb>, shutdown: seq<Srb>, completed: seq<Completion>)
    requires AllLawful(asked, ss, built, idle, prepared, submitted, shutdown, completed)
    ensures forall i :: 0 <= i < |idle| ==> idle[i].Fresh(ss) && Remembers(asked, idle[i])
    ensures forall i :: 0 <= i < |prepared| ==> prepared[i].Ready(ss) && Remembers(asked, prepared[i])
    ensures forall i :: 0 <= i < |submitted| ==> submitted[i].Waiting(ss) && Remembers(asked, submitted[i])
    ensures forall i :: 0 <= i < |shutdown| ==> shutdown[i].requests == [] && Remembers(asked, shutdown[i])
  {
    hide Lawful, Remembers, Srb.Built, Srb.Fresh, Srb.Ready, Srb.Waiting;
  }

  class Pdo {
    const ss: nat
    const ringSize: nat
    const env: Resources
    const frontend: Frontends.Frontend
    var freshSrbs: seq<Srb>
    var preparedSrbs: seq<Srb>
    var submittedSrbs: seq<Srb>
    var shutdownSrbs: seq<Srb>
    var barrier: bool
    var readOnly: bool
    var missing: bool
    var emulatedMasked: bool
    var sectorCount: nat
    var outstanding: int              // req_prod_pvt - rsp_cons of the ring
    var currentSrbs: int
    var built: seq<Srb>               // in the hands of the port driver between BuildIo and StartIo
    ghost var completed: seq<Completion>
    ghost var place: map<int, Place>  // every SRB ever accepted for I/O, and where it is
    ghost var asked: map<int, Task>   // what each was accepted for
    ghost var callbacks: seq<seq<Response>>   // the responses of each event callback so far

    ghost function Filing(): Queues
      reads this
    {
      Queues(Ids(built), Ids(freshSrbs), Ids(preparedSrbs), Ids(submittedSrbs), Ids(shutdownSrbs),
             CompletedIds(completed))
    }

    /** Every accepted SRB is in exactly one place, and CurrentSrbs counts those not completed. */
    ghost predicate Conserved()
      reads this
    {
      Filed(place, Filing()) && currentSrbs == |place| - |completed|
    }

    ghost predicate Laws()
      reads this
    {
      && asked.Keys == place.Keys
      && AllLawful(asked, ss, built, freshSrbs, preparedSrbs, submittedSrbs, shutdownSrbs, completed)
    }

    /** Everything in use belongs to the requests of submitted and prepared SRBs. */
    ghost predicate Owns()
      reads this, env
    {
      HoldsExactly(env, Owned(submittedSrbs) + Owned(preparedSrbs))
    }

    ghost predicate RingAccounted()
      reads this
    {
      outstanding == |Owned(submittedSrbs)| && outstanding < ringSize
    }

    /** Everything holds, except that the ring may have been torn down. */
    ghost predicate Core()
      reads this, env
    {
      ValidSectorSize(ss) && Conserved() && Laws() && Owns()
    }

    ghost predicate Valid()
      reads this, env
    {
      Core() && RingAccounted()
    }

    constructor (ss: nat, ringSize: nat, frontend: Frontends.Frontend)
      requires ValidSectorSize(ss) && ringSize > 0
      ensures Valid() && place == map[] && completed == [] && fresh(env)
      ensures this.ss == ss && this.ringSize == ringSize && this.frontend == frontend
              && preparedSrbs == submittedSrbs == []
    {
      this.ss, this.ringSize, this.frontend := ss, ringSize, frontend;
      env := new Resources();
      freshSrbs, preparedSrbs, submittedSrbs, shutdownSrbs := [], [], [], [];
      barrier, readOnly, missing, emulatedMasked, sectorCount := false, false, false, false, 0;
      outstanding, currentSrbs := 0, 0;
      place, asked, built, completed, callbacks := map[], map[], [], [], [];
    }

    /** Takes an SRB in, before the port driver starts it. */
    method BuildIo(srb0: Srb)
      requires Valid() && srb0.id !in place
      modifies `place, `asked, `built, `currentSrbs
      ensures Valid() && place == old(place)[srb0.id := BUILT] && |built| == |old(built)| + 1
      ensures asked == old(asked)[srb0.id := Task(srb0.pathId, srb0.lun, srb0.kind, srb0.sg, srb0.start, srb0.count)]
      ensures built == old(built) + [srb0.(requests := [], status := INVALID_REQUEST)]
      ensures currentSrbs == old(currentSrbs) + 1
    {
      hide Housed, Owned, Lawful, ValidSectorSize, Srb.Ready, Srb.Waiting, HoldsExactly, Remembers;
      var srb := srb0.(requests := [], status := INVALID_REQUEST);
      Arrive(place, Filing(), srb.id);
      IdsEnds(built, srb);
      currentSrbs := currentSrbs + 1;
      place := place[srb.id := BUILT];
      RemembersMore(asked, srb.id, Task(srb.pathId, srb.lun, srb.kind, srb.sg, srb.start, srb.count));
      asked := asked[srb.id := Task(srb.pathId, srb.lun, srb.kind, srb.sg, srb.start, srb.count)];
      built := built + [srb];
      assert Remembers(asked, srb);
    }

    /** One turn of the submit loop: an SRB's requests go on the ring together, or it stays where
        it was. */
    method SubmitOne() returns (ok: bool)
      requires Valid() && preparedSrbs != []
      modifies `preparedSrbs, `submittedSrbs, `outstanding, `place
      ensures Valid()
      ensures ok <==> ringSize - old(outstanding) > |old(preparedSrbs)[0].requests|
      ensures ok ==> submittedSrbs == old(submittedSrbs) + [Submitted(old(preparedSrbs)[0])]
      ensures ok ==> preparedSrbs == old(preparedSrbs)[1..]
      ensures ok ==> outstanding == old(outstanding) + |old(preparedSrbs)[0].requests|
      ensures !ok ==>
              submittedSrbs == old(submittedSrbs) && preparedSrbs == old(preparedSrbs)
                  && outstanding == old(outstanding)
      ensures place.Keys == old(place).Keys
    {
      hide Housed, Owned, Lawful, ValidSectorSize, Filed, HoldsExactly, Srb.Ready, Srb.Waiting, Srb.Fresh, Remembers,
           AllLawful;
      var srb := preparedSrbs[0];
      ghost var was := preparedSrbs;
      preparedSrbs := preparedSrbs[1..];
      ok := ringSize - outstanding > |srb.requests|;
      if !ok {
        preparedSrbs := [srb] + preparedSrbs;
        assert preparedSrbs == was;
        return;
      }
      outstanding := outstanding + |srb.requests|;
      SubmitMove(place, old(Filing()), was, submittedSrbs);
      HeadSubmitted(asked, ss, built, freshSrbs, was, submittedSrbs, shutdownSrbs, completed);
      submittedSrbs := submittedSrbs + [Submitted(srb)];
      place := place[srb.id := SUBMITTED];
    }

    /** Submits prepared SRBs in order until the ring cannot take the next one whole. */
    method SubmitPrepared() returns (count: nat)
      requires Valid()
      modifies `preparedSrbs, `submittedSrbs, `outstanding, `place
      ensures Valid() && count <= |old(preparedSrbs)|
      ensures submittedSrbs == old(submittedSrbs) + SubmittedAll(old(preparedSrbs)[..count])
      ensures preparedSrbs == old(preparedSrbs)[count..]
      ensures preparedSrbs != [] ==> ringSize - outstanding <= |preparedSrbs[0].requests|
      ensures place.Keys == old(place).Keys
    {
      hide Core, RingAccounted, Submitted;
      count := 0;
      while preparedSrbs != []
        invariant Valid() && count <= |old(preparedSrbs)|
        invariant submittedSrbs == old(submittedSrbs) + SubmittedAll(old(preparedSrbs)[..count])
        invariant preparedSrbs == old(preparedSrbs)[count..] && place.Keys == old(place).Keys
        decreases |preparedSrbs|
      {
        var ok := SubmitOne();
        if !ok {
          return;
        }
        SubmittedOneMore(old(preparedSrbs), count);
        count := count + 1;
      }
    }

    /** Makes the requests for an SRB, or nothing. */
    method Prepare(srb: Srb, ghost all: seq<Request>) returns (ok: bool, reqs: seq<Request>)
      requires ValidSectorSize(ss) && srb.Fresh(ss) && HoldsExactly(env, all)
      modifies env
      ensures env.refusals >= old(env.refusals) && (!ok ==> env.refusals > old(env.refusals))
      ensures ok ==> srb.(requests := reqs).Ready(ss) && HoldsExactly(env, all + reqs)
      ensures !ok ==> HoldsExactly(env, all)
    {
      hide Translates, MdlShape, ValidSectorSize, Grants, Buffers, Pages, Flatten;
      if srb.kind.ReadWrite? {
        ok, reqs := PrepareReadWrite(env, srb.Op(), srb.sg, srb.start, srb.count, ss, |all|, Flatten(all));
        FlattenConcat(all, reqs);
        if ok {
          NotEmpty(srb.sg, srb.count * ss, ss);
          SomeRequests(reqs, srb.Op(), srb.sg, srb.start, srb.count, ss);
        }
      } else {
        ok := env.AllocRequest();
        reqs := [Request(WRITE_BARRIER, srb.start, [])];
        NoSegments(all, reqs[0]);
      }
    }

    /** One turn of the prepare loop: an SRB that cannot be prepared goes back where it was, and owns
        nothing. */
    method PrepareOne() returns (ok: bool)
      requires Valid() && freshSrbs != []
      modifies `freshSrbs, `preparedSrbs, `place, env
      ensures Valid() && place.Keys == old(place).Keys
      ensures ok ==> freshSrbs == old(freshSrbs)[1..] && |preparedSrbs| == |old(preparedSrbs)| + 1
      ensures ok ==>
                var added := old(freshSrbs)[0].(requests := preparedSrbs[|old(preparedSrbs)|].requests);
                preparedSrbs == old(preparedSrbs) + [added]
      ensures !ok ==> freshSrbs == old(freshSrbs) && preparedSrbs == old(preparedSrbs)
      ensures env.refusals >= old(env.refusals) && (!ok ==> env.refusals > old(env.refusals))
    {
      hide Housed, Owned, Lawful, ValidSectorSize, Filed, HoldsExactly, Srb.Ready, Srb.Waiting, Srb.Fresh, Remembers;
      var srb := freshSrbs[0];
      ghost var was := freshSrbs;
      freshSrbs := freshSrbs[1..];
      var reqs;
      ok, reqs := Prepare(srb, Owned(submittedSrbs) + Owned(preparedSrbs));
      if !ok {
        freshSrbs := [srb] + freshSrbs;
        assert freshSrbs == was;
        return;
      }
      StorePrepared(srb, reqs, was);
    }

    /** Puts an SRB that has come off the fresh queue on the prepared queue, with its requests. */
    method StorePrepared(srb: Srb, reqs: seq<Request>, ghost was: seq<Srb>)
      requires was != [] && srb == was[0] && freshSrbs == was[1..]
      requires ValidSectorSize(ss) && Filed(place, Filing().(idle := Ids(was))) && currentSrbs == |place| - |completed|
      requires Laws() && RingAccounted() && srb.(requests := reqs).Ready(ss) && Remembers(asked, srb)
      requires HoldsExactly(env, Owned(submittedSrbs) + Owned(preparedSrbs) + reqs)
      modifies `preparedSrbs, `place
      ensures Valid() && place.Keys == old(place).Keys
      ensures preparedSrbs == old(preparedSrbs) + [srb.(requests := reqs)]
    {
      hide Housed, Owned, Lawful, ValidSectorSize, Filed, HoldsExactly, Ids, Srb.Built, Srb.Ready, Srb.Waiting,
           Srb.Fresh, Remembers;
      PrepareMove(place, Filing().(idle := Ids(was)), FRESH, was, 0, preparedSrbs, reqs);
      StillRemembers(asked, srb, srb.(requests := reqs));
      assert Owned(submittedSrbs) + Owned(preparedSrbs) + reqs == Owned(submittedSrbs) + (Owned(preparedSrbs) + reqs);
      preparedSrbs := preparedSrbs + [srb.(requests := reqs)];
      place := place[srb.id := PREPARED];
    }

    /** Prepares fresh SRBs in order until one cannot be prepared. */
    method PrepareFresh() returns (count: nat)
      requires Valid()
      modifies `freshSrbs, `preparedSrbs, `place, env
      ensures Valid() && count <= |old(freshSrbs)| && place.Keys == old(place).Keys
      ensures freshSrbs == old(freshSrbs)[count..]
      ensures Extends(old(preparedSrbs), preparedSrbs, old(freshSrbs)[..count])
      ensures freshSrbs != [] ==> env.refusals > old(env.refusals)
    {
      hide Core, RingAccounted, Extends;
      count := 0;
      ghost var q := freshSrbs;
      ExtendsNone(preparedSrbs, q);
      while freshSrbs != []
        invariant place.Keys == old(place).Keys
        invariant Valid() && count <= |q| && env.refusals >= old(env.refusals)
        invariant freshSrbs == q[count..]
        invariant Extends(old(preparedSrbs), preparedSrbs, q[..count])
        decreases |freshSrbs|
      {
        ghost var before := preparedSrbs;
        var ok := PrepareOne();
        if !ok {
          return;
        }
        ExtendsOne(old(preparedSrbs), before, q, count, preparedSrbs[|before|]);
        count := count + 1;
      }
    }

    /** A response arrives for one of the requests of a submitted SRB. The last one completes it. */
    method CompleteSubmittedRequest(k: nat, i: nat, status: int)
      requires Valid() && k < |submittedSrbs| && i < |submittedSrbs[k].requests|
      modifies `submittedSrbs, `completed, `place, `currentSrbs, `outstanding, `barrier, env
      ensures Valid() && outstanding == old(outstanding) - 1 && place.Keys == old(place).Keys
      ensures env.refusals == old(env.refusals)
      ensures var srb := AnsweredBy(old(submittedSrbs)[k], i, status);
              if srb.requests != [] then
                submittedSrbs == old(submittedSrbs)[k := srb] && completed == old(completed)
                    && currentSrbs == old(currentSrbs)
              else
                && submittedSrbs == Without(old(submittedSrbs), k) && currentSrbs == old(currentSrbs) - 1
                && completed == old(completed) + [Ended(srb)]
      ensures barrier == (old(barrier) && !(old(submittedSrbs)[k].kind.SyncCache? && status == EOPNOTSUPP))
    {
      hide Housed, Owned, Lawful, ValidSectorSize, Filed, HoldsExactly, Srb.Ready, Srb.Waiting, Srb.Fresh, AllOkay,
           AnsweredBy, Without, Remembers;
      outstanding := outstanding - 1;
      ghost var before, after := Owned(submittedSrbs[..k]), Owned(submittedSrbs[k + 1..]) + Owned(preparedSrbs);
      OwnedAt(submittedSrbs, k);
      assert Owned(submittedSrbs) + Owned(preparedSrbs) == before + submittedSrbs[k].requests + after;
      var srb := Answer(submittedSrbs[k], i, status, before, after);
      AnsweredFacts(submittedSrbs[k], i, status);
      StillRemembers(asked, submittedSrbs[k], srb);
      OwnedChanges(submittedSrbs, k, srb, Owned(preparedSrbs));
      if srb.requests != [] {
        KeepSubmitted(k, srb);
      } else {
        CompleteSubmitted(k, srb);
      }
    }

    /** Stores a submitted SRB that is still waiting. */
    method KeepSubmitted(k: nat, srb: Srb)
      requires ValidSectorSize(ss) && Conserved() && Laws() && k < |submittedSrbs| && srb.id == submittedSrbs[k].id
      requires HoldsExactly(env, Owned(submittedSrbs[k := srb]) + Owned(preparedSrbs))
      requires outstanding == |Owned(submittedSrbs[k := srb])| < ringSize
      requires srb.Waiting(ss) && Remembers(asked, srb)
      modifies `submittedSrbs
      ensures Valid() && submittedSrbs == old(submittedSrbs)[k := srb]
    {
      hide Housed, Owned, ValidSectorSize, Filed, HoldsExactly, Srb.Ready, Srb.Waiting, Srb.Fresh, Lawful, Remembers;
      assert Ids(submittedSrbs[k := srb]) == Ids(submittedSrbs);
      submittedSrbs := submittedSrbs[k := srb];
    }

    /** Completes a submitted SRB whose requests have all been answered. */
    method CompleteSubmitted(k: nat, srb0: Srb)
      requires ValidSectorSize(ss) && Conserved() && Laws() && k < |submittedSrbs| && srb0.id == submittedSrbs[k].id
      requires HoldsExactly(env, Owned(Without(submittedSrbs, k)) + Owned(preparedSrbs))
      requires outstanding == |Owned(Without(submittedSrbs, k))| < ringSize
      requires srb0.requests == [] && srb0.Proper(srb0.sent, ss) && AllAnswered(srb0)
      requires (srb0.status == SUCCESS <==> AllOkay(srb0.responses)) && Remembers(asked, srb0)
      modifies `submittedSrbs, `completed, `place, `currentSrbs
      ensures Valid() && submittedSrbs == Without(old(submittedSrbs), k) && currentSrbs == old(currentSrbs) - 1
      ensures place.Keys == old(place).Keys
      ensures completed
              == old(completed)
                  + [Completion(srb0.(scsi := if srb0.status == SUCCESS then GOOD else ABORTED), Answered)]
    {
      hide Housed, Owned, ValidSectorSize, Filed, HoldsExactly, Srb.Ready, Srb.Waiting, Srb.Fresh, Translates, MdlShape,
           Without, Remembers, AllLawful;
      var srb := srb0.(scsi := if srb0.status == SUCCESS then GOOD else ABORTED);
      ghost var c := Completion(srb, Answered);
      CompleteMove(place, Filing(), SUBMITTED, submittedSrbs, k, completed, c);
      StillRemembers(asked, srb0, srb);
      SubmittedCompleted(asked, ss, built, freshSrbs, preparedSrbs, submittedSrbs, shutdownSrbs, completed, k, c);
      submittedSrbs := Without(submittedSrbs, k);
      place := place[srb.id := COMPLETED];
      FdoCompleteSrb(srb, Answered);
    }

    /** Hands an SRB back to the port driver. */
    method FdoCompleteSrb(srb: Srb, ghost end: End)
      modifies `currentSrbs, `completed
      ensures currentSrbs == old(currentSrbs) - 1 && completed == old(completed) + [Completion(srb, end)]
    {
      currentSrbs := currentSrbs - 1;
      completed := completed + [Completion(srb, end)];
    }

    /** What a response does to its SRB: the request it answers is taken off the list and everything
        it holds is released. */
    method Answer(srb0: Srb, i: nat, status: int, ghost a: seq<Request>, ghost b: seq<Request>) returns (srb: Srb)
      requires srb0.Waiting(ss) && i < |srb0.requests| && HoldsExactly(env, a + srb0.requests + b)
      modifies `barrier, env
      ensures HoldsExactly(env, a + srb.requests + b)
      ensures srb == AnsweredBy(srb0, i, status)
      ensures srb.status == SUCCESS <==> AllOkay(srb.responses)
      ensures srb.requests != [] ==> srb.Waiting(ss)
      ensures srb.requests == [] ==> srb.Proper(srb.sent, ss) && AllAnswered(srb)
      ensures env.refusals == old(env.refusals)
      ensures barrier == (old(barrier) && !(srb0.kind.SyncCache? && status == EOPNOTSUPP))
    {
      hide Srb.WellShaped, HoldsExactly, Translates, Srb.Waiting, Srb.Proper, AllAnswered, AllOkay, Asked, Without;
      srb := srb0;
      var request := srb.requests[i];
      RequestOp(srb, ss, i);
      if status != OKAY {
        srb := srb.(status := ERROR);
      }
      ghost var before, after := a + srb.requests[..i], srb.requests[i + 1..] + b;
      assert a + srb.requests + b == before + [request] + after;
      assert before + after == a + Without(srb.requests, i) + b by { WithoutParts(srb.requests, i); }
      match request.operation {
        case READ | WRITE =>
        case WRITE_BARRIER =>
          if status == EOPNOTSUPP {
            barrier := false;
            srb := srb.(status := INVALID_REQUEST);
          }
      }
      Release(env, request, before, after);
      srb := srb.(requests := Without(srb.requests, i), responses := srb.responses + [Reply(request, status)]);
      AnswerKeeps(srb0, srb, i, status, ss);
    }

    /** Completes the waiting flushes, once nothing is on its way any more. */
    method CompleteShutdown()
      requires Valid()
      modifies `shutdownSrbs, `completed, `place, `currentSrbs
      ensures Valid() && place.Keys == old(place).Keys
      ensures if freshSrbs == [] && preparedSrbs == [] && submittedSrbs == [] then
                shutdownSrbs == [] && completed == old(completed) + FlushAll(old(shutdownSrbs))
              else
                shutdownSrbs == old(shutdownSrbs) && completed == old(completed) && currentSrbs == old(currentSrbs)
    {
      hide Core, RingAccounted, FlushAll;
      FlushNone(shutdownSrbs);
      if shutdownSrbs == [] || freshSrbs != [] || preparedSrbs != [] || submittedSrbs != [] {
        return;
      }
      ghost var done, q := 0, shutdownSrbs;
      while shutdownSrbs != []
        invariant place.Keys == old(place).Keys
        invariant Valid() && done <= |q| && shutdownSrbs == q[done..]
        invariant completed == old(completed) + FlushAll(q[..done])
        decreases |shutdownSrbs|
      {
        CompleteFlush();
        FlushOneMore(q, done);
        done := done + 1;
      }
      assert q[..done] == q;
    }

    method CompleteFlush()
      requires Valid() && shutdownSrbs != []
      modifies `shutdownSrbs, `completed, `place, `currentSrbs
      ensures Valid() && shutdownSrbs == old(shutdownSrbs)[1..] && place.Keys == old(place).Keys
      ensures completed == old(completed) + [Completion(old(shutdownSrbs)[0].(status := SUCCESS), Flushed)]
    {
      hide Housed, Owned, ValidSectorSize, Filed, HoldsExactly, Srb.Ready, Srb.Waiting, Srb.Fresh, Srb.WellShaped,
           Srb.Proper, Without, Remembers;
      assert shutdownSrbs[0] in shutdownSrbs;
      var srb := shutdownSrbs[0].(status := SUCCESS);
      CompleteMove(place, Filing(), SHUTDOWN, shutdownSrbs, 0, completed, Completion(srb, Flushed));
      StillRemembers(asked, shutdownSrbs[0], srb);
      shutdownSrbs := shutdownSrbs[1..];
      place := place[srb.id := COMPLETED];
      FdoCompleteSrb(srb, Flushed);
    }

    // Suspend and resume.

    /** The last prepared SRB becomes the first fresh one, and gives back what it holds. */
    method RevertPrepared()
      requires Core() && preparedSrbs != []
      modifies `preparedSrbs, `freshSrbs, `place, env
      ensures Core() && preparedSrbs == old(preparedSrbs)[..|old(preparedSrbs)| - 1]
      ensures freshSrbs == [Reset(old(preparedSrbs)[|old(preparedSrbs)| - 1])] + old(freshSrbs)
      ensures place.Keys == old(place).Keys
    {
      hide Housed, Owned, ValidSectorSize, Filed, HoldsExactly, Srb.Ready, Srb.Waiting, Srb.Fresh, Lawful, Without,
           Reset, Remembers;
      var last := |preparedSrbs| - 1;
      var srb := preparedSrbs[last];
      RevertMove(place, Filing(), PREPARED, preparedSrbs, freshSrbs, ss);
      ResetRemembers(asked, srb);
      NothingOwned();
      ReleaseList(env, srb.requests, Owned(submittedSrbs) + Owned(preparedSrbs[..last]), [],
                  Owned(submittedSrbs) + Owned(preparedSrbs), Owned(submittedSrbs) + Owned(preparedSrbs[..last]));
      preparedSrbs := preparedSrbs[..last];
      freshSrbs := [Reset(srb)] + freshSrbs;
      place := place[srb.id := FRESH];
    }

    /** The last submitted SRB becomes the first fresh one; no SRB is prepared any more. */
    method RevertSubmitted()
      requires Core() && submittedSrbs != [] && preparedSrbs == []
      modifies `submittedSrbs, `freshSrbs, `place, env
      ensures Core() && submittedSrbs == old(submittedSrbs)[..|old(submittedSrbs)| - 1]
      ensures freshSrbs == [Reset(old(submittedSrbs)[|old(submittedSrbs)| - 1])] + old(freshSrbs)
      ensures place.Keys == old(place).Keys
    {
      hide Housed, Owned, ValidSectorSize, Filed, HoldsExactly, Srb.Ready, Srb.Waiting, Srb.Fresh, Lawful, Without,
           Reset, Remembers;
      var last := |submittedSrbs| - 1;
      var srb := submittedSrbs[last];
      RevertMove(place, Filing(), SUBMITTED, submittedSrbs, freshSrbs, ss);
      ResetRemembers(asked, srb);
      NothingOwned();
      ReleaseList(env, srb.requests, Owned(submittedSrbs[..last]), [],
                  Owned(submittedSrbs) + Owned(preparedSrbs), Owned(submittedSrbs[..last]) + Owned(preparedSrbs));
      submittedSrbs := submittedSrbs[..last];
      freshSrbs := [Reset(srb)] + freshSrbs;
      place := place[srb.id := FRESH];
    }

    method RevertAllPrepared()
      requires Core()
      modifies `preparedSrbs, `freshSrbs, `place, env
      ensures Core() && preparedSrbs == [] && freshSrbs == ResetAll(old(preparedSrbs)) + old(freshSrbs)
    {
      hide Core, Reset;
      ghost var k, q := |preparedSrbs|, preparedSrbs;
      AllReset(q);
      while preparedSrbs != []
        invariant Core() && 0 <= k <= |q| && preparedSrbs == q[..k]
        invariant freshSrbs == ResetAll(q[k..]) + old(freshSrbs)
        decreases |preparedSrbs|
      {
        RevertPrepared();
        ResetOneMore(q, k - 1);
        k := k - 1;
      }
      assert q[0..] == q;
    }

    method RevertAllSubmitted()
      requires Core() && preparedSrbs == []
      modifies `submittedSrbs, `freshSrbs, `place, env
      ensures Core() && submittedSrbs == [] && freshSrbs == ResetAll(old(submittedSrbs)) + old(freshSrbs)
    {
      hide Core, Reset;
      ghost var k, q := |submittedSrbs|, submittedSrbs;
      AllReset(q);
      while submittedSrbs != []
        invariant Core() && 0 <= k <= |q| && submittedSrbs == q[..k]
        invariant freshSrbs == ResetAll(q[k..]) + old(freshSrbs)
        decreases |submittedSrbs|
      {
        RevertSubmitted();
        ResetOneMore(q, k - 1);
        k := k - 1;
      }
      assert q[0..] == q;
    }

    /** Everything that was on its way starts again, in its old order. */
    method PreResume()
      requires Core()
      modifies `submittedSrbs, `preparedSrbs, `freshSrbs, `place, env
      ensures Core() && preparedSrbs == [] && submittedSrbs == [] && env.Holds(0, [])
      ensures freshSrbs == ResetAll(old(submittedSrbs)) + ResetAll(old(preparedSrbs)) + old(freshSrbs)
    {
      hide Core, ResetAll;
      RevertAllPrepared();
      RevertAllSubmitted();
      OwnsNothing();
    }

    /** With nothing prepared and nothing submitted, nothing is in use. */
    lemma OwnsNothing()
      requires Core() && preparedSrbs == [] && submittedSrbs == []
      ensures env.Holds(0, []) && Owned(submittedSrbs) == []
    {
    }

    /** With nothing on it, the ring may be taken down or made anew. */
    method RenewRing()
      requires Core() && submittedSrbs == [] && ringSize > 0
      modifies `outstanding
      ensures Valid() && outstanding == 0
    {
      hide Filed, HoldsExactly, Lawful, ValidSectorSize, Srb.Built, Srb.Fresh, Srb.Ready, Srb.Waiting, Remembers;
      outstanding := 0;
    }

    method PostResume()
      requires Valid()
      modifies `missing
      ensures Valid() && !missing
    {
      hide Filed, Owned, HoldsExactly, Lawful, ValidSectorSize, Srb.Built, Srb.Fresh, Srb.Ready, Srb.Waiting, Remembers;
      missing := false;
    }

    /** Around a suspend everything in flight becomes fresh, the frontend goes down and comes up again
        with a new ring, and the target is no longer missing. */
    method SuspendLate() returns (ok: bool)
      requires Valid() && frontend.Valid()
      modifies `submittedSrbs, `preparedSrbs, `freshSrbs, `place, `outstanding, `missing, env, frontend
      ensures Valid() && preparedSrbs == [] && submittedSrbs == [] && env.Holds(0, []) && !missing
      ensures freshSrbs == ResetAll(old(submittedSrbs)) + ResetAll(old(preparedSrbs)) + old(freshSrbs)
      ensures frontend.Valid() && (ok ==> frontend.state == old(frontend.state))
      ensures !ok ==>
              frontend.troubles > old(frontend.troubles) || old(frontend.state).INITIALIZED?
                  || old(frontend.state).INVALID?
    {
      hide Core, RingAccounted, ResetAll, Resources.Holds, Frontends.Frontend.Valid;
      RingIsSome();
      var state := frontend.state;
      PreResume();
      var down := frontend.SetState(Frontends.CLOSED_MODE);
      RenewRing();
      var up := frontend.SetState(state);
      PostResume();
      ok := down && up;
    }

    // Abort.

    function QueueAt(p: Place): seq<Srb>
      reads this
    {
      match p
      case FRESH => freshSrbs
      case PREPARED => preparedSrbs
      case SUBMITTED => submittedSrbs
      case SHUTDOWN => shutdownSrbs
      case _ => []
    }

    method Pop(p: Place) returns (srb: Srb)
      requires (p == FRESH || p == PREPARED || p == SUBMITTED) && QueueAt(p) != []
      modifies `freshSrbs, `preparedSrbs, `submittedSrbs
      ensures srb == old(QueueAt(p))[0] && QueueAt(p) == old(QueueAt(p))[1..]
      ensures p != FRESH ==> freshSrbs == old(freshSrbs)
      ensures p != PREPARED ==> preparedSrbs == old(preparedSrbs)
      ensures p != SUBMITTED ==> submittedSrbs == old(submittedSrbs)
    {
      srb := QueueAt(p)[0];
      if p == FRESH {
        freshSrbs := freshSrbs[1..];
      } else if p == PREPARED {
        preparedSrbs := preparedSrbs[1..];
      } else {
        submittedSrbs := submittedSrbs[1..];
      }
    }

    /** The head of a queue is completed as aborted, and gives back what it holds. */
    method AbortOne(p: Place)
      requires Core() && (p == FRESH || p == PREPARED || p == SUBMITTED) && QueueAt(p) != []
      modifies `freshSrbs, `preparedSrbs, `submittedSrbs, `completed, `place, `currentSrbs, env
      ensures Core() && QueueAt(p) == old(QueueAt(p))[1..] && place.Keys == old(place).Keys
      ensures p != FRESH ==> freshSrbs == old(freshSrbs)
      ensures p != PREPARED ==> preparedSrbs == old(preparedSrbs)
      ensures p != SUBMITTED ==> submittedSrbs == old(submittedSrbs)
      ensures completed == old(completed) + [Completion(Abort(old(QueueAt(p))[0]), Aborting)]
      ensures Abort(old(QueueAt(p))[0]) == old(QueueAt(p))[0].(requests := [], scsi := ABORTED)
    {
      hide Housed, Owned, ValidSectorSize, Filed, HoldsExactly, Srb.Ready, Srb.Waiting, Srb.Fresh, Lawful, Without,
           Remembers, AllLawful;
      ghost var q := QueueAt(p);
      AbortMove(place, Filing(), p, q, completed, ss);
      AbortLaws(p);
      ghost var a := if p == PREPARED then Owned(submittedSrbs) else [];
      ghost var b := if p == PREPARED then Owned(preparedSrbs[1..])
                     else Owned(if p == SUBMITTED then submittedSrbs[1..] else submittedSrbs) + Owned(preparedSrbs);
      ghost var all := Owned(submittedSrbs) + Owned(preparedSrbs);
      AbortOwned(p, preparedSrbs, submittedSrbs);
      var srb := Pop(p);
      if p != FRESH {
        assert p == SUBMITTED ==> a + b == b;
        ReleaseList(env, srb.requests, a, b, all, a + b);
      }
      srb := Abort(srb);
      place := place[srb.id := COMPLETED];
      FdoCompleteSrb(srb, Aborting);
    }

    lemma AbortLaws(p: Place)
      requires Laws() && (p == FRESH || p == PREPARED || p == SUBMITTED) && QueueAt(p) != []
      ensures var c := Completion(Abort(QueueAt(p)[0]), Aborting);
              AllLawful(asked, ss, built, if p == FRESH then freshSrbs[1..] else freshSrbs,
                        if p == PREPARED then preparedSrbs[1..] else preparedSrbs,
                        if p == SUBMITTED then submittedSrbs[1..] else submittedSrbs, shutdownSrbs, completed + [c])
    {
      hide AllLawful, Remembers, Srb.Built, Srb.Fresh, Srb.Ready, Srb.Waiting;
      var srb := QueueAt(p)[0];
      LawfulOnes(asked, ss, built, freshSrbs, preparedSrbs, submittedSrbs, shutdownSrbs, completed);
      StillRemembers(asked, srb, Abort(srb));
      HeadCompleted(asked, ss, built, freshSrbs, preparedSrbs, submittedSrbs, shutdownSrbs, completed,
                    Completion(Abort(srb), Aborting));
    }

    method AbortSrbQueue(p: Place)
      requires Core() && (p == FRESH || p == PREPARED || p == SUBMITTED)
      modifies `freshSrbs, `preparedSrbs, `submittedSrbs, `completed, `place, `currentSrbs, env
      ensures Core() && QueueAt(p) == [] && place.Keys == old(place).Keys
      ensures p != FRESH ==> freshSrbs == old(freshSrbs)
      ensures p != PREPARED ==> preparedSrbs == old(preparedSrbs)
      ensures p != SUBMITTED ==> submittedSrbs == old(submittedSrbs)
      ensures completed == old(completed) + AbortAll(old(QueueAt(p)))
    {
      hide Core, Abort;
      ghost var k, q := 0, QueueAt(p);
      while QueueAt(p) != []
        invariant Core() && 0 <= k <= |q| && QueueAt(p) == q[k..] && place.Keys == old(place).Keys
        invariant p != FRESH ==> freshSrbs == old(freshSrbs)
        invariant p != PREPARED ==> preparedSrbs == old(preparedSrbs)
        invariant p != SUBMITTED ==> submittedSrbs == old(submittedSrbs)
        invariant completed == old(completed) + AbortAll(q[..k])
        decreases |QueueAt(p)|
      {
        AbortOne(p);
        AbortOneMore(q, k);
        k := k + 1;
      }
      assert q[..k] == q;
    }

    /** Powering down: with the ring gone, every SRB that has not been completed is aborted. */
    method AbortAllSrbs()
      requires Core()
      modifies `freshSrbs, `preparedSrbs, `submittedSrbs, `completed, `place, `currentSrbs, env
      ensures Core() && freshSrbs == [] && preparedSrbs == [] && submittedSrbs == [] && env.Holds(0, [])
      ensures place.Keys == old(place).Keys
      ensures completed
              == old(completed) + AbortAll(old(freshSrbs)) + AbortAll(old(preparedSrbs)) + AbortAll(old(submittedSrbs))
    {
      hide Core, AbortAll;
      AbortSrbQueue(FRESH);
      AbortSrbQueue(PREPARED);
      AbortSrbQueue(SUBMITTED);
      OwnsNothing();
    }

    /** Waits until nothing is submitted any more. The script is what the backend answers in each call of
        the event callback; with too little of it the call does not return. */
    method PauseDataPath(script: seq<seq<Response>>) returns (returned: bool)
      requires Valid()
      modifies `freshSrbs, `preparedSrbs, `submittedSrbs, `shutdownSrbs, `completed, `place, `currentSrbs, `outstanding,
               `barrier, `callbacks, env
      ensures Valid() && place.Keys == old(place).Keys && old(completed) <= completed
      ensures returned <==> submittedSrbs == []
      ensures Called(old(callbacks), callbacks, script, returned)
    {
      hide Core, RingAccounted, After, Ids, FlushAll;
      var turn := 0;
      while submittedSrbs != []
        invariant Valid() && place.Keys == old(place).Keys && old(completed) <= completed && 0 <= turn <= |script|
        invariant callbacks == old(callbacks) + script[..turn]
        decreases |script| - turn
      {
        if turn == |script| {
          return false;
        }
        EvtchnCallback(script[turn]);
        turn := turn + 1;
      }
      returned := true;
    }

    lemma RingIsSome()
      requires Valid()
      ensures ringSize > 0
    {
    }

    /** Powering down waits for what is submitted, closes the frontend, which frees the ring, and aborts
        what is left. */
    method PowerDown(script: seq<seq<Response>>) returns (returned: bool)
      requires Valid() && frontend.Valid()
      modifies `freshSrbs, `preparedSrbs, `submittedSrbs, `shutdownSrbs, `completed, `place, `currentSrbs, `outstanding,
               `barrier, `callbacks, env, frontend
      ensures Valid() && frontend.Valid() && place.Keys == old(place).Keys && old(completed) <= completed
      ensures !emulatedMasked ==> returned && completed == old(completed) && frontend.state == old(frontend.state)
      ensures returned && emulatedMasked ==>
                && freshSrbs == [] && preparedSrbs == [] && submittedSrbs == [] && env.Holds(0, [])
                && frontend.NoRing() && !frontend.connected
      ensures !returned ==> submittedSrbs != [] && frontend.state == old(frontend.state)
    {
      hide Core, RingAccounted, AbortAll, Resources.Holds, Frontends.Frontend.Valid;
      RingIsSome();
      returned := true;
      if emulatedMasked {
        returned := PauseDataPath(script);
        if returned {
          var closed := frontend.SetState(Frontends.CLOSED_MODE);
          AbortAllSrbs();
          RenewRing();
        }
      }
    }

    /** A device reset aborts what is fresh, and then calls the event callback until what was prepared or
        submitted has completed. The script is what the backend answers in each call; with too little
        of it the call does not return. */
    method PdoReset(script: seq<seq<Response>>) returns (returned: bool)
      requires Valid()
      modifies `freshSrbs, `preparedSrbs, `submittedSrbs, `shutdownSrbs, `completed, `place, `currentSrbs, `outstanding,
               `barrier, `callbacks, env
      ensures Valid() && place.Keys == old(place).Keys
      ensures old(completed) + AbortAll(old(freshSrbs)) <= completed && freshSrbs == []
      ensures returned <==> preparedSrbs == [] && submittedSrbs == []
      ensures if returned then
                && callbacks != [] && callbacks[|callbacks| - 1] == []
                && Called(old(callbacks), callbacks[..|callbacks| - 1], script, true)
              else Called(old(callbacks), callbacks, script, false)
    {
      hide Core, AbortAll, RingAccounted, After, FlushAll;
      AbortFresh();
      var turn := 0;
      while preparedSrbs != [] || submittedSrbs != []
        invariant Valid() && place.Keys == old(place).Keys && 0 <= turn <= |script|
        invariant old(completed) + AbortAll(old(freshSrbs)) <= completed && freshSrbs == []
        invariant callbacks == old(callbacks) + script[..turn]
        decreases |script| - turn
      {
        if turn == |script| {
          return false;
        }
        EvtchnCallback(script[turn]);
        turn := turn + 1;
      }
      AfterEmpty(Progress(submittedSrbs, completed), []);
      EvtchnCallback([]);
      returned := true;
    }

    method AbortFresh()
      requires Valid()
      modifies `freshSrbs, `preparedSrbs, `submittedSrbs, `completed, `place, `currentSrbs, env
      ensures Valid() && freshSrbs == [] && preparedSrbs == old(preparedSrbs) && submittedSrbs == old(submittedSrbs)
      ensures completed == old(completed) + AbortAll(old(freshSrbs)) && place.Keys == old(place).Keys
    {
      hide Core, AbortAll, Owned;
      AbortSrbQueue(FRESH);
    }

    /** Takes responses in, one after the other. One that is to no submitted request is passed over. */
    method CompleteResponses(responses: seq<Response>)
      requires Valid()
      modifies `submittedSrbs, `completed, `place, `currentSrbs, `outstanding, `barrier, env
      ensures Valid() && place.Keys == old(place).Keys
      ensures Progress(submittedSrbs, completed) == After(Progress(old(submittedSrbs), old(completed)), responses)
      ensures env.refusals == old(env.refusals)
    {
      hide Core, RingAccounted, AnsweredBy, Ended, Without, Submitted, AllOkay;
      assert responses[..|responses|] == responses;
      for n := 0 to |responses|
        invariant Valid() && place.Keys == old(place).Keys && env.refusals == old(env.refusals)
        invariant Progress(submittedSrbs, completed)
                  == After(Progress(old(submittedSrbs), old(completed)), responses[..n])
      {
        assert responses[..n + 1][..n] == responses[..n];
        var r := responses[n];
        if r.srb < |submittedSrbs| && r.request < |submittedSrbs[r.srb].requests| {
          CompleteSubmittedRequest(r.srb, r.request, r.status);
        }
      }
    }

    /** What the event channel sets off: responses are taken in, and whatever they make room for goes
        on, in order. An SRB stays fresh only when something could not be acquired, and prepared only when
        the ring has no room for the first that is. */
    method EvtchnCallback(responses: seq<Response>)
      requires Valid()
      modifies `freshSrbs, `preparedSrbs, `submittedSrbs, `shutdownSrbs, `completed, `place, `currentSrbs, `outstanding,
               `barrier, `callbacks, env
      ensures Valid() && place.Keys == old(place).Keys && old(completed) <= completed
      ensures callbacks == old(callbacks) + [responses]
      ensures var p := After(Progress(old(submittedSrbs), old(completed)), responses);
        && p.submitted <= submittedSrbs
        && Ids(submittedSrbs + preparedSrbs + freshSrbs) == Ids(p.submitted + old(preparedSrbs) + old(freshSrbs))
        && (if freshSrbs == [] && preparedSrbs == [] && submittedSrbs == [] then
              shutdownSrbs == [] && completed == p.completed + FlushAll(old(shutdownSrbs))
            else
              shutdownSrbs == old(shutdownSrbs) && completed == p.completed)
      ensures |freshSrbs| <= |old(freshSrbs)| && freshSrbs == old(freshSrbs)[|old(freshSrbs)| - |freshSrbs|..]
      ensures freshSrbs != [] ==> env.refusals > old(env.refusals)
      ensures preparedSrbs != [] ==> ringSize - outstanding <= |preparedSrbs[0].requests|
    {
      hide Core, RingAccounted, Extends, SubmittedAll, FlushAll, After, Ids;
      AfterGrows(Progress(old(submittedSrbs), old(completed)), responses);
      CompleteResponses(responses);
      ghost var taken := submittedSrbs;
      var prepared := PrepareFresh();
      ghost var ready := preparedSrbs;
      var submitted := SubmitPrepared();
      OrderKept(taken, old(preparedSrbs), ready, old(freshSrbs), prepared, submitted);
      NoteCallback(responses);
      CompleteShutdown();
    }

    method NoteCallback(responses: seq<Response>)
      requires Valid()
      modifies `callbacks
      ensures Valid() && callbacks == old(callbacks) + [responses]
    {
      hide Filed, Owned, HoldsExactly, ValidSectorSize, AllLawful;
      callbacks := callbacks + [responses];
    }

    // Starting.

    /** The address is wrong, or there is no such target. */
    predicate Refused(srb: Srb)
      reads `missing, `emulatedMasked
    {
      srb.pathId != 0 || srb.lun != 0 || missing || !emulatedMasked
    }

    /** The SRB is going to the backend. */
    predicate Prepares(srb: Srb)
      reads `missing, `emulatedMasked, `readOnly, `barrier, `sectorCount, frontend
    {
      && !Refused(srb) && !readOnly && frontend.connected
      && match srb.kind
         case ReadWrite(_) => TransferFacts.ValidateSectors(sectorCount, srb.start, srb.count)
         case SyncCache => barrier
         case _ => false
    }

    /** The status and the SCSI status with which an SRB is handed back at once, by cause. */
    ghost predicate HandedBack(srb: Srb, r: Srb, verdict: Verdict)
      reads `missing, `emulatedMasked, `readOnly, frontend
    {
      && r == srb.(status := r.status, scsi := r.scsi)
      && (Refused(srb) ==> r.scsi == srb.scsi)
      && (srb.pathId != 0 ==> r.status == INVALID_PATH_ID)
      && (srb.pathId == 0 && srb.lun != 0 ==> r.status == INVALID_LUN)
      && (srb.pathId == 0 && srb.lun == 0 && (missing || !emulatedMasked) ==> r.status == NO_DEVICE)
      && (!Refused(srb) && readOnly ==> r.status == INVALID_REQUEST && r.scsi == ABORTED)
      && (!Refused(srb) && !readOnly ==>
            && (srb.kind.Ready? ==> r.status == SUCCESS && r.scsi == srb.scsi)
            && (srb.kind.Unsupported? ==> r.status == INVALID_REQUEST && r.scsi == srb.scsi)
            && (srb.kind.Inquiry? ==> r.status == verdict.status)
            && (srb.kind.Inquiry? && verdict.scsi.Some? ==> r.scsi == verdict.scsi.value)
            && (srb.kind.Inquiry? && verdict.scsi.None? ==> r.scsi == srb.scsi)
            && (srb.kind.ReadWrite? ==> r.status == INVALID_REQUEST && r.scsi == ABORTED)
            && (srb.kind.SyncCache? && !frontend.connected ==> r.status == INVALID_REQUEST && r.scsi == ABORTED)
            && (srb.kind.SyncCache? && frontend.connected ==> r.status == SUCCESS && r.scsi == GOOD))
    }

    /** Whether an SRB can be handed back at once, and with what. */
    method Decide(srb: Srb, verdict: Verdict) returns (done: bool, r: Srb)
      requires srb.Built()
      ensures done <==> Refused(srb) || !(Prepares(srb) || srb.kind.Flush? || srb.kind.ResetDevice?)
      ensures if done then HandedBack(srb, r, verdict) else r == srb
    {
      hide TransferFacts.ValidateSectors;
      done, r := true, srb;
      if srb.pathId != 0 {
        r := srb.(status := INVALID_PATH_ID);
      } else if srb.lun != 0 {
        r := srb.(status := INVALID_LUN);
      } else if missing || !emulatedMasked {
        r := srb.(status := NO_DEVICE);
      } else if srb.kind.Flush? || srb.kind.ResetDevice? {
        done := false;
      } else if readOnly {
        r := srb.(scsi := ABORTED);
      } else {
        match srb.kind {
          case ReadWrite(_) =>
            if !frontend.connected || !TransferFacts.ValidateSectors(sectorCount, srb.start, srb.count) {
              r := srb.(scsi := ABORTED);
            } else {
              done := false;
            }
          case SyncCache =>
            if !frontend.connected {
              r := srb.(scsi := ABORTED);
            } else if !barrier {
              r := srb.(status := SUCCESS, scsi := GOOD);
            } else {
              done := false;
            }
          case Inquiry => r := verdict.Of(srb);
          case Ready => r := srb.(status := SUCCESS);
          case Unsupported =>
        }
      }
    }

    /** Hands an SRB back that the port driver has just started. */
    method HandBack(k: nat, srb: Srb)
      requires Valid() && k < |built| && srb.id == built[k].id && srb.requests == [] && Remembers(asked, srb)
      modifies `built, `completed, `place, `currentSrbs
      ensures Valid() && built == Without(old(built), k) && place.Keys == old(place).Keys
      ensures completed == old(completed) + [Completion(srb, AtOnce)] && currentSrbs == old(currentSrbs) - 1
    {
      hide Housed, Owned, ValidSectorSize, Filed, HoldsExactly, Srb.Ready, Srb.Waiting, Srb.Fresh, Srb.WellShaped,
           Srb.Proper, Without, Srb.Built, Remembers, AllLawful;
      CompleteMove(place, Filing(), BUILT, built, k, completed, Completion(srb, AtOnce));
      BuiltCompleted(asked, ss, built, freshSrbs, preparedSrbs, submittedSrbs, shutdownSrbs, completed, k,
                     Completion(srb, AtOnce));
      built := Without(built, k);
      place := place[srb.id := COMPLETED];
      FdoCompleteSrb(srb, AtOnce);
    }

    method StartFlush(k: nat)
      requires Valid() && k < |built|
      modifies `built, `shutdownSrbs, `place
      ensures Valid() && built == Without(old(built), k) && place.Keys == old(place).Keys
      ensures shutdownSrbs == old(shutdownSrbs) + [old(built)[k]]
    {
      hide Housed, Owned, ValidSectorSize, Filed, HoldsExactly, Srb.Ready, Srb.Waiting, Srb.Fresh, Lawful, Without,
           Remembers;
      var srb := built[k];
      assert srb in built;
      Known(place, Filing(), BUILT, built, k, SHUTDOWN);
      StartMove(place, Filing(), built, k, SHUTDOWN, shutdownSrbs);
      InWithout(built, k);
      built := Without(built, k);
      shutdownSrbs := shutdownSrbs + [srb];
      place := place[srb.id := SHUTDOWN];
    }

    /** A read, a write or a flush of the cache is prepared at once, or joins the fresh SRBs. */
    method StartPrepare(k: nat) returns (ok: bool)
      requires Valid() && k < |built| && (built[k].kind.ReadWrite? || built[k].kind.SyncCache?)
               && built[k].WellShaped(ss)
      modifies `built, `freshSrbs, `preparedSrbs, `place, env
      ensures Valid() && built == Without(old(built), k) && place.Keys == old(place).Keys
      ensures !ok ==> freshSrbs == old(freshSrbs) + [old(built)[k]] && preparedSrbs == old(preparedSrbs)
      ensures !ok ==> env.refusals > old(env.refusals)
      ensures ok ==> freshSrbs == old(freshSrbs) && Ids(preparedSrbs) == Ids(old(preparedSrbs) + [old(built)[k]])
    {
      hide Housed, Owned, ValidSectorSize, Filed, HoldsExactly, Srb.Ready, Srb.Waiting, Lawful, Without, Remembers;
      assert built[k] in built;
      BuiltIsFresh(built[k], ss);
      var reqs;
      ok, reqs := Prepare(built[k], Owned(submittedSrbs) + Owned(preparedSrbs));
      if ok {
        StartPrepared(k, reqs);
      } else {
        StartFresh(k);
      }
    }

    method StartPrepared(k: nat, reqs: seq<Request>)
      requires ValidSectorSize(ss) && Conserved() && Laws() && RingAccounted() && k < |built|
      requires HoldsExactly(env, Owned(submittedSrbs) + Owned(preparedSrbs) + reqs)
               && built[k].(requests := reqs).Ready(ss)
      modifies `built, `preparedSrbs, `place
      ensures Valid() && built == Without(old(built), k) && place.Keys == old(place).Keys
      ensures preparedSrbs == old(preparedSrbs) + [old(built)[k].(requests := reqs)]
      ensures Ids(preparedSrbs) == Ids(old(preparedSrbs) + [old(built)[k]])
    {
      hide Housed, Owned, ValidSectorSize, Filed, HoldsExactly, Srb.Ready, Srb.Waiting, Srb.Fresh, Lawful, Without,
           Remembers;
      var srb := built[k];
      Known(place, Filing(), BUILT, built, k, PREPARED);
      PrepareMove(place, Filing(), BUILT, built, k, preparedSrbs, reqs);
      assert srb in built;
      StillRemembers(asked, srb, srb.(requests := reqs));
      assert Owned(submittedSrbs) + Owned(preparedSrbs) + reqs == Owned(submittedSrbs) + (Owned(preparedSrbs) + reqs);
      InWithout(built, k);
      built := Without(built, k);
      preparedSrbs := preparedSrbs + [srb.(requests := reqs)];
      place := place[srb.id := PREPARED];
    }

    method StartFresh(k: nat)
      requires Valid() && k < |built| && built[k].Fresh(ss)
      modifies `built, `freshSrbs, `place
      ensures Valid() && built == Without(old(built), k) && place.Keys == old(place).Keys
      ensures freshSrbs == old(freshSrbs) + [old(built)[k]]
    {
      hide Housed, Owned, ValidSectorSize, Filed, HoldsExactly, Srb.Ready, Srb.Waiting, Srb.Fresh, Lawful, Without,
           Remembers;
      var srb := built[k];
      Known(place, Filing(), BUILT, built, k, FRESH);
      StartMove(place, Filing(), built, k, FRESH, freshSrbs);
      InWithout(built, k);
      built := Without(built, k);
      freshSrbs := freshSrbs + [srb];
      place := place[srb.id := FRESH];
    }

    /** The port driver starts an SRB. The verdict is that of the inquiry commands, and the script is for
        a device reset. A transfer that goes to the backend has a buffer of the right size. */
    method StartIo(k: nat, verdict: Verdict, script: seq<seq<Response>>) returns (returned: bool)
      requires Valid() && k < |built| && (Prepares(built[k]) ==> built[k].WellShaped(ss))
      modifies `built, `freshSrbs, `preparedSrbs, `submittedSrbs, `shutdownSrbs, `completed, `place, `currentSrbs,
               `outstanding, `barrier, `callbacks, env
      ensures Valid() && place.Keys == old(place).Keys
      ensures var srb := old(built)[k];
              if !old(Refused(srb)) && srb.kind.ResetDevice? then
                && old(completed) + AbortAll(old(freshSrbs)) <= completed
                && (returned <==> preparedSrbs == [] && submittedSrbs == [])
                && (returned ==>
                    built == Without(old(built), k) && completed != []
                        && completed[|completed| - 1] == Completion(srb, AtOnce))
                && (!returned ==> built == old(built))
              else
                returned && built == Without(old(built), k) && barrier == old(barrier)
      ensures var srb := old(built)[k];
              if old(Refused(srb)) || !(old(Prepares(srb)) || srb.kind.Flush? || srb.kind.ResetDevice?) then
                && |completed| == |old(completed)| + 1 && completed[..|old(completed)|] == old(completed)
                && completed[|old(completed)|].end == AtOnce
                   && HandedBack(srb, completed[|old(completed)|].srb, verdict)
                && currentSrbs == old(currentSrbs) - 1
                && freshSrbs == old(freshSrbs) && preparedSrbs == old(preparedSrbs)
                   && submittedSrbs == old(submittedSrbs)
                && shutdownSrbs == old(shutdownSrbs)
              else if srb.kind.Flush? then
                && completed == old(completed) && currentSrbs == old(currentSrbs)
                && shutdownSrbs == old(shutdownSrbs) + [srb]
                && freshSrbs == old(freshSrbs) && preparedSrbs == old(preparedSrbs)
                   && submittedSrbs == old(submittedSrbs)
              else
                old(Prepares(srb)) ==>
                  && completed == old(completed) && currentSrbs == old(currentSrbs) && shutdownSrbs == old(shutdownSrbs)
                  && (|| (env.refusals > old(env.refusals) && freshSrbs == old(freshSrbs) + [srb]
                          && preparedSrbs == old(preparedSrbs) && submittedSrbs == old(submittedSrbs))
                      || (freshSrbs == old(freshSrbs)
                          && Ids(submittedSrbs + preparedSrbs) == Ids(old(submittedSrbs) + old(preparedSrbs) + [srb])
                          && (preparedSrbs != [] ==> ringSize - outstanding <= |preparedSrbs[0].requests|)))
    {
      hide Core, RingAccounted, Without, Ids, Submitted, TransferFacts.ValidateSectors, Prepares, Srb.WellShaped,
           Called, Remembers, AbortAll, HandedBack;
      var srb := built[k];
      BuiltSrb(k);
      PreparesKind(srb);
      var done, r := Decide(srb, verdict);
      returned := true;
      if done {
        HandedBackId(srb, r, verdict);
        HandBack(k, r);
      } else if srb.kind.Flush? {
        StartFlush(k);
      } else if srb.kind.ResetDevice? {
        returned := PdoReset(script);
        if returned {
          HandBack(k, srb);
        }
      } else {
        StartTransfer(k);
      }
    }

    /** A transfer or a flush of the cache is prepared, and whatever the ring takes is submitted; or it
        joins the fresh SRBs. */
    method StartTransfer(k: nat)
      requires Valid() && k < |built| && (built[k].kind.ReadWrite? || built[k].kind.SyncCache?)
               && built[k].WellShaped(ss)
      modifies `built, `freshSrbs, `preparedSrbs, `submittedSrbs, `place, `outstanding, env
      ensures Valid() && built == Without(old(built), k) && place.Keys == old(place).Keys
      ensures var srb := old(built)[k];
        || (env.refusals > old(env.refusals) && freshSrbs == old(freshSrbs) + [srb]
            && preparedSrbs == old(preparedSrbs) && submittedSrbs == old(submittedSrbs))
        || (freshSrbs == old(freshSrbs)
            && Ids(submittedSrbs + preparedSrbs) == Ids(old(submittedSrbs) + old(preparedSrbs) + [srb])
            && (preparedSrbs != [] ==> ringSize - outstanding <= |preparedSrbs[0].requests|))
    {
      hide Core, RingAccounted, Without, Ids, Submitted, SubmittedAll, Srb.WellShaped;
      ghost var srb := built[k];
      var ok := StartPrepare(k);
      if ok {
        ghost var before, prepared := submittedSrbs, preparedSrbs;
        var count := SubmitPrepared();
        SameOrder(before, prepared, count, old(preparedSrbs) + [srb]);
        assert before + (old(preparedSrbs) + [srb]) == before + old(preparedSrbs) + [srb];
      }
    }

    lemma BuiltSrb(k: nat)
      requires Valid() && k < |built|
      ensures built[k].Built() && built[k].requests == [] && Remembers(asked, built[k])
    {
      assert built[k] in built;
    }

    lemma PreparesKind(srb: Srb)
      ensures Prepares(srb) ==> (srb.kind.ReadWrite? || srb.kind.SyncCache?) && !Refused(srb)
    {
    }

    lemma HandedBackId(srb: Srb, r: Srb, verdict: Verdict)
      requires HandedBack(srb, r, verdict) && Remembers(asked, srb)
      ensures r.id == srb.id && r.requests == srb.requests && Remembers(asked, r)
    {
      StillRemembers(asked, srb, r);
    }
  }

  /** A response names a request by the position of its SRB and its own among that SRB's requests. */
  datatype Response = Response(srb: nat, request: nat, status: int)

  /** The event callback has been called with the script from its start on, and with all of it if the
      caller is still waiting. */
  ghost predicate Called(before: seq<seq<Response>>, after: seq<seq<Response>>, script: seq<seq<Response>>,
                         done: bool) {
    && before <= after && after[|before|..] <= script
    && (!done ==> after[|before|..] == script)
  }

  // ---------------------------------------------------------------- what responses do

  /** The SRBs that wait for responses, and those that have been completed. */
  datatype Progress = Progress(submitted: seq<Srb>, completed: seq<Completion>)

  predicate Names(q: seq<Srb>, r: Response) {
    r.srb < |q| && r.request < |q[r.srb].requests|
  }

  ghost function AfterOne(p: Progress, r: Response): Progress {
    if !Names(p.submitted, r) then p
    else
      var srb := AnsweredBy(p.submitted[r.srb], r.request, r.status);
      if srb.requests != [] then p.(submitted := p.submitted[r.srb := srb])
      else Progress(Without(p.submitted, r.srb), p.completed + [Ended(srb)])
  }

  ghost function After(p: Progress, responses: seq<Response>): Progress {
    if responses == [] then p
    else AfterOne(After(p, responses[..|responses| - 1]), responses[|responses| - 1])
  }

  /** What one response does: its SRB gets a reply with the request and the status, loses the request,
      and is completed if it was the last; it ends good if and only if no reply reports an error.
      Nothing else changes. */
  lemma OneResponse(p: Progress, r: Response)
    requires Names(p.submitted, r)
    ensures var s, p' := p.submitted[r.srb], AfterOne(p, r);
            var replies := s.responses + [Reply(s.requests[r.request], r.status)];
            var rest := s.requests[..r.request] + s.requests[r.request + 1..];
            var status := if r.status == 0 then s.status
                          else if s.kind.SyncCache? && r.status == -2 then INVALID_REQUEST else ERROR;
            if rest != [] then
              && p'.completed == p.completed && |p'.submitted| == |p.submitted|
              && p'.submitted[r.srb] == s.(status := status, requests := rest, responses := replies)
              && forall k :: 0 <= k < |p.submitted| && k != r.srb ==> p'.submitted[k] == p.submitted[k]
            else
              && p'.submitted == p.submitted[..r.srb] + p.submitted[r.srb + 1..]
              && |p'.completed| == |p.completed| + 1 && p.completed <= p'.completed
              && var c := p'.completed[|p.completed|];
              && c.end.Answered?
              && c.srb == s.(status := status, scsi := c.srb.scsi, requests := [], responses := replies)
              && (c.srb.scsi == GOOD || c.srb.scsi == ABORTED)
              && (c.srb.scsi == GOOD <==> forall x :: x in replies ==> x.status == 0)
  {
  }

  lemma {:induction false} AfterGrows(p: Progress, responses: seq<Response>)
    ensures p.completed <= After(p, responses).completed
  {
    hide AnsweredBy, Ended, Without;
    if responses != [] {
      AfterGrows(p, responses[..|responses| - 1]);
    }
  }

  lemma {:induction false} AfterPrefix(p: Progress, responses: seq<Response>, n: nat)
    requires n <= |responses|
    ensures After(After(p, responses[..n]), responses[n..]) == After(p, responses)
    decreases |responses|
  {
    hide AfterOne;
    if n == |responses| {
      assert responses[..n] == responses;
    } else {
      var last := |responses| - 1;
      AfterPrefix(p, responses[..last], n);
      assert responses[..last][..n] == responses[..n] && responses[..last][n..] == responses[n..][..last - n];
    }
  }

  /** Which SRBs there are does not change. */
  lemma {:induction false} AfterKeeps(p: Progress, responses: seq<Response>)
    ensures var p' := After(p, responses);
            && p.completed <= p'.completed
            && multiset(Ids(p'.submitted)) + multiset(CompletedIds(p'.completed[|p.completed|..]))
               == multiset(Ids(p.submitted))
    decreases |responses|
  {
    hide After, AfterOne, Ids, CompletedIds;
    AfterNothing(p);
    if responses == [] {
      assert p.completed[|p.completed|..] == [];
      NoCompletedIds();
    } else {
      var last := |responses| - 1;
      var q := After(p, responses[..last]);
      AfterKeeps(p, responses[..last]);
      AfterLast(p, responses);
      OneKeeps(q, responses[last]);
      var q' := After(p, responses);
      if q'.completed != q.completed {
        var c := q'.completed[|q.completed|];
        assert q'.completed[|p.completed|..] == q.completed[|p.completed|..] + [c];
        CompletedIdsMore(q.completed[|p.completed|..], c);
      }
    }
  }

  lemma {:induction false} AfterEmpty(p: Progress, responses: seq<Response>)
    requires p.submitted == []
    ensures After(p, responses) == p
  {
    if responses != [] {
      AfterEmpty(p, responses[..|responses| - 1]);
    }
  }

  lemma AfterNothing(p: Progress)
    ensures After(p, []) == p
  {
  }

  lemma NoCompletedIds()
    ensures CompletedIds([]) == []
  {
  }

  lemma CompletedIdsMore(cs: seq<Completion>, c: Completion)
    ensures CompletedIds(cs + [c]) == CompletedIds(cs) + [c.srb.id]
  {
  }

  lemma AfterLast(p: Progress, responses: seq<Response>)
    requires responses != []
    ensures After(p, responses) == AfterOne(After(p, responses[..|responses| - 1]), responses[|responses| - 1])
  {
  }

  lemma OneKeeps(p: Progress, r: Response)
    ensures var p' := AfterOne(p, r);
            || (p'.completed == p.completed && Ids(p'.submitted) == Ids(p.submitted))
            || (exists c :: p'.completed == p.completed + [c]
                  && multiset(Ids(p'.submitted)) + multiset{c.srb.id} == multiset(Ids(p.submitted)))
  {
    hide AnsweredBy, Ended, Without, Ids;
    if Names(p.submitted, r) {
      var srb := AnsweredBy(p.submitted[r.srb], r.request, r.status);
      AnsweredFacts(p.submitted[r.srb], r.request, r.status);
      if srb.requests != [] {
        SameIds(p.submitted, r.srb, srb);
      } else {
        IdsWithout(p.submitted, r.srb);
        SplitAt(Ids(p.submitted), r.srb);
        WithoutParts(Ids(p.submitted), r.srb);
        EndedId(srb);
        assert AfterOne(p, r).completed == p.completed + [Ended(srb)];
      }
    }
  }

  lemma EndedId(srb: Srb)
    ensures Ended(srb).srb.id == srb.id
  {
  }

  lemma SameIds(q: seq<Srb>, k: nat, srb: Srb)
    requires k < |q| && srb.id == q[k].id
    ensures Ids(q[k := srb]) == Ids(q)
  {
  }

  /** An SRB of which some reply reports an error. */
  predicate Failing(srb: Srb) {
    exists r :: r in srb.responses && r.status != OKAY
  }

  /** An SRB with an error stays so, and does not end good. */
  ghost predicate NotGood(p: Progress, done: nat, id: int) {
    && (forall s :: s in p.submitted && s.id == id ==> Failing(s))
    && (forall k :: done <= k < |p.completed| && p.completed[k].srb.id == id ==> p.completed[k].srb.scsi != GOOD)
  }

  lemma {:induction false} StaysNotGood(p: Progress, responses: seq<Response>, done: nat, id: int)
    requires NotGood(p, done, id)
    ensures NotGood(After(p, responses), done, id)
    decreases |responses|
  {
    hide NotGood, AfterOne;
    if responses != [] {
      var last := |responses| - 1;
      StaysNotGood(p, responses[..last], done, id);
      OneStaysNotGood(After(p, responses[..last]), responses[last], done, id);
    }
  }

  lemma OneStaysNotGood(p: Progress, r: Response, done: nat, id: int)
    requires NotGood(p, done, id)
    ensures NotGood(AfterOne(p, r), done, id)
  {
    hide AnsweredBy, Ended, AfterOne;
    if Names(p.submitted, r) {
      var srb := AnsweredBy(p.submitted[r.srb], r.request, r.status);
      AnsweredFacts(p.submitted[r.srb], r.request, r.status);
      AnsweredFails(p.submitted[r.srb], r.request, r.status);
      assert p.submitted[r.srb] in p.submitted;
      assert AfterOne(p, r) == if srb.requests != [] then p.(submitted := p.submitted[r.srb := srb])
                               else Progress(Without(p.submitted, r.srb), p.completed + [Ended(srb)])
        by { AfterNamed(p, r); }
      InWithout(p.submitted, r.srb);
    } else {
      AfterUnnamed(p, r);
    }
  }

  lemma AfterUnnamed(p: Progress, r: Response)
    requires !Names(p.submitted, r)
    ensures AfterOne(p, r) == p
  {
  }

  lemma AfterNamed(p: Progress, r: Response)
    requires Names(p.submitted, r)
    ensures var srb := AnsweredBy(p.submitted[r.srb], r.request, r.status);
            AfterOne(p, r) == if srb.requests != [] then p.(submitted := p.submitted[r.srb := srb])
                              else Progress(Without(p.submitted, r.srb), p.completed + [Ended(srb)])
  {
    hide AnsweredBy, Ended, Without;
  }

  lemma AnsweredFails(srb: Srb, i: nat, status: int)
    requires i < |srb.requests|
    ensures Failing(AnsweredBy(srb, i, status)) <==> Failing(srb) || status != OKAY
    ensures Failing(AnsweredBy(srb, i, status)) ==> Ended(AnsweredBy(srb, i, status)).srb.scsi != GOOD
    ensures Ended(AnsweredBy(srb, i, status)).srb.id == srb.id
  {
    var t := AnsweredBy(srb, i, status);
    assert t.responses[|srb.responses|].status == status;
    assert forall r :: r in srb.responses ==> r in t.responses;
  }

  /** An SRB that gets an error among these responses is not completed as good by them. */
  lemma ErrorIsNeverGood(p: Progress, responses: seq<Response>, n: nat)
    requires Distinct(Ids(p.submitted)) && n < |responses| && responses[n].status != OKAY
    requires Names(After(p, responses[..n]).submitted, responses[n])
    ensures var p', id := After(p, responses), After(p, responses[..n]).submitted[responses[n].srb].id;
            forall k :: |p.completed| <= k < |p'.completed| && p'.completed[k].srb.id == id ==>
              p'.completed[k].srb.scsi != GOOD
  {
    hide After, AfterOne, AnsweredBy, Ended, Ids, CompletedIds, NotGood;
    var q, r := After(p, responses[..n]), responses[n];
    var id := q.submitted[r.srb].id;
    AfterKeeps(p, responses[..n]);
    OnlyOnce(p, q, r.srb);
    OneError(q, r, |p.completed|);
    AfterPrefix(p, responses, n);
    AfterFirst(q, responses[n..]);
    StaysNotGood(AfterOne(q, r), responses[n..][1..], |p.completed|, id);
    NotGoodMeans(After(p, responses), |p.completed|, id);
  }

  lemma NotGoodMeans(p: Progress, done: nat, id: int)
    requires NotGood(p, done, id)
    ensures forall k :: done <= k < |p.completed| && p.completed[k].srb.id == id ==> p.completed[k].srb.scsi != GOOD
  {
  }

  lemma AfterFirst(p: Progress, responses: seq<Response>)
    requires responses != []
    ensures After(p, responses) == After(AfterOne(p, responses[0]), responses[1..])
  {
    hide AfterOne;
    AfterPrefix(p, responses, 1);
    assert responses[..1] == [responses[0]];
    assert responses[..1][..0] == [];
  }

  /** An SRB that still waits has not been completed, and there is no other with its identity. */
  lemma OnlyOnce(p: Progress, q: Progress, k: nat)
    requires Distinct(Ids(p.submitted)) && k < |q.submitted| && |p.completed| <= |q.completed|
    requires multiset(Ids(q.submitted)) + multiset(CompletedIds(q.completed[|p.completed|..]))
             == multiset(Ids(p.submitted))
    ensures forall j :: 0 <= j < |q.submitted| && j != k ==> q.submitted[j].id != q.submitted[k].id
    ensures forall j :: |p.completed| <= j < |q.completed| ==> q.completed[j].srb.id != q.submitted[k].id
  {
    hide Distinct, Ids, CompletedIds;
    var id, now, ended := q.submitted[k].id, Ids(q.submitted), CompletedIds(q.completed[|p.completed|..]);
    AtMostOnce(Ids(p.submitted), id);
    IdAt(q.submitted);
    CompletedIdAt(q.completed, |p.completed|);
    assert now[k] in multiset(now);
    OnePlace(now, k);
    assert id !in multiset(ended);
  }

  lemma IdAt(q: seq<Srb>)
    ensures |Ids(q)| == |q| && forall j :: 0 <= j < |q| ==> q[j].id == Ids(q)[j]
  {
  }

  lemma CompletedIdAt(cs: seq<Completion>, from: nat)
    requires from <= |cs|
    ensures forall j :: from <= j < |cs| ==> cs[j].srb.id in multiset(CompletedIds(cs[from..]))
  {
    forall j | from <= j < |cs| ensures cs[j].srb.id in multiset(CompletedIds(cs[from..])) {
      assert CompletedIds(cs[from..])[j - from] == cs[j].srb.id;
    }
  }

  lemma OnePlace(s: seq<int>, k: nat)
    requires k < |s| && multiset(s)[s[k]] <= 1
    ensures forall j :: 0 <= j < |s| && j != k ==> s[j] != s[k]
  {
    SplitAt(s, k);
    assert multiset(s) == multiset(Without(s, k)) + multiset{s[k]};
    assert s[k] !in multiset(Without(s, k));
    forall j | 0 <= j < |s| && j != k ensures s[j] != s[k] {
      assert s[j] == Without(s, k)[if j < k then j else j - 1];
    }
  }

  lemma {:induction false} AtMostOnce(s: seq<int>, x: int)
    requires Distinct(s)
    ensures multiset(s)[x] <= 1
  {
    if s != [] {
      var last := |s| - 1;
      AtMostOnce(s[..last], x);
      assert s == s[..last] + [s[last]];
    }
  }

  lemma OneError(q: Progress, r: Response, done: nat)
    requires Names(q.submitted, r) && r.status != OKAY && done <= |q.completed|
    requires forall j :: 0 <= j < |q.submitted| && j != r.srb ==> q.submitted[j].id != q.submitted[r.srb].id
    requires forall j :: done <= j < |q.completed| ==> q.completed[j].srb.id != q.submitted[r.srb].id
    ensures NotGood(AfterOne(q, r), done, q.submitted[r.srb].id)
  {
    hide AnsweredBy, Ended, Failing, AfterOne;
    var srb := AnsweredBy(q.submitted[r.srb], r.request, r.status);
    AnsweredFacts(q.submitted[r.srb], r.request, r.status);
    AnsweredFails(q.submitted[r.srb], r.request, r.status);
    AfterNamed(q, r);
  }

  /** The response to the last request of an SRB completes it. */
  lemma LastResponseCompletes(p: Progress, responses: seq<Response>, n: nat)
    requires n < |responses| && Names(After(p, responses[..n]).submitted, responses[n])
    requires |After(p, responses[..n]).submitted[responses[n].srb].requests| == 1
    ensures var srb := After(p, responses[..n]).submitted[responses[n].srb];
            exists c :: c in After(p, responses).completed && c.end.Answered? && c.srb.id == srb.id
              && c.srb.responses == srb.responses + [Reply(srb.requests[0], responses[n].status)]
  {
    hide After, AfterOne;
    var q, r := After(p, responses[..n]), responses[n];
    OneResponse(q, r);
    AfterPrefix(p, responses, n);
    AfterFirst(q, responses[n..]);
    AfterGrows(AfterOne(q, r), responses[n..][1..]);
    var c := AfterOne(q, r).completed[|q.completed|];
    assert After(p, responses).completed[|q.completed|] == c;
  }

  /** No SRB is submitted twice. */
  lemma DistinctSubmitted(pdo: Pdo)
    requires pdo.Valid()
    ensures Distinct(Ids(pdo.submittedSrbs))
  {
    assert Housed(pdo.place, SUBMITTED, pdo.Filing().At(SUBMITTED));
  }

  /** Preparing and submitting more keeps the order of what waits. */
  lemma OrderKept(taken: seq<Srb>, prepared: seq<Srb>, ready: seq<Srb>, idle: seq<Srb>, more: nat, count: nat)
    requires more <= |idle| && count <= |ready| && Extends(prepared, ready, idle[..more])
    ensures Ids(taken + SubmittedAll(ready[..count]) + ready[count..] + idle[more..]) == Ids(taken + prepared + idle)
    ensures taken <= taken + SubmittedAll(ready[..count])
  {
    var a, b := taken + SubmittedAll(ready[..count]) + ready[count..] + idle[more..], taken + prepared + idle;
    assert |a| == |b|;
    forall i | 0 <= i < |a| ensures a[i].id == b[i].id {
      if |taken| + |prepared| <= i < |taken| + |ready| {
        var j := i - |taken| - |prepared|;
        assert ready[|prepared| + j] == idle[..more][j].(requests := ready[|prepared| + j].requests);
      } else if |taken| <= i < |taken| + |prepared| {
        assert ready[..|prepared|][i - |taken|] == prepared[i - |taken|];
      }
    }
  }

  function Abort(srb: Srb): Srb {
    srb.(requests := [], scsi := ABORTED)
  }

  function AbortAll(q: seq<Srb>): (r: seq<Completion>)
    ensures |r| == |q|
    ensures forall i :: 0 <= i < |q| ==> r[i] == Completion(q[i].(requests := [], scsi := ABORTED), Aborting)
  {
    seq(|q|, i requires 0 <= i < |q| => Completion(Abort(q[i]), Aborting))
  }

  lemma AbortOneMore(q: seq<Srb>, k: nat)
    requires k < |q|
    ensures AbortAll(q[..k + 1]) == AbortAll(q[..k]) + [Completion(Abort(q[k]), Aborting)]
    ensures q[k..][0] == q[k] && q[k..][1..] == q[k + 1..]
  {
    hide Abort;
  }

  lemma AbortMove(place: map<int, Place>, qs: Queues, p: Place, q: seq<Srb>, completed: seq<Completion>, ss: nat)
    requires Filed(place, qs) && p != COMPLETED && qs.At(p) == Ids(q) && q != []
             && qs.completed == CompletedIds(completed)
    ensures var c := Completion(Abort(q[0]), Aborting);
      && Filed(place[q[0].id := COMPLETED], Removed(qs, p, Ids(q[1..])).(completed := CompletedIds(completed + [c])))
      && |place[q[0].id := COMPLETED]| == |place| && place[q[0].id := COMPLETED].Keys == place.Keys
      && Lawful(c, ss)
  {
    hide Filed;
    CompleteMove(place, qs, p, q, 0, completed, Completion(Abort(q[0]), Aborting));
  }

  /** Where the requests of the head of a queue are among all requests. */
  lemma AbortOwned(p: Place, prepared: seq<Srb>, submitted: seq<Srb>)
    ensures p == PREPARED && prepared != [] ==>
              Owned(submitted) + Owned(prepared) == Owned(submitted) + prepared[0].requests + Owned(prepared[1..])
    ensures p == SUBMITTED && submitted != [] ==>
              Owned(submitted) + Owned(prepared)
                  == [] + submitted[0].requests + (Owned(submitted[1..]) + Owned(prepared))
  {
    hide Owned;
    if p == PREPARED && prepared != [] {
      OwnedHead(prepared);
    }
    if p == SUBMITTED && submitted != [] {
      OwnedHead(submitted);
    }
  }

  lemma OwnedHead(q: seq<Srb>)
    requires q != []
    ensures Owned(q) == q[0].requests + Owned(q[1..])
  {
    hide Owned;
    OwnedAt(q, 0);
    NothingOwned();
    assert q[..0] == [];
  }

  lemma Known(place: map<int, Place>, qs: Queues, p: Place, q: seq<Srb>, k: nat, to: Place)
    requires Filed(place, qs) && qs.At(p) == Ids(q) && k < |q|
    ensures q[k].id in place && place[q[k].id := to].Keys == place.Keys
  {
    assert Housed(place, p, qs.At(p));
    assert Ids(q)[k] in Ids(q);
    assert place[q[k].id := to].Keys == place.Keys + {q[k].id};
  }

  lemma BuiltIsFresh(srb: Srb, ss: nat)
    requires srb.Built() && srb.WellShaped(ss) && (srb.kind.ReadWrite? || srb.kind.SyncCache?)
    ensures srb.Fresh(ss)
  {
  }

  lemma StartMove(place: map<int, Place>, qs: Queues, built: seq<Srb>, k: nat, to: Place, q: seq<Srb>)
    requires Filed(place, qs) && qs.built == Ids(built) && k < |built| && (to == FRESH || to == SHUTDOWN)
             && qs.At(to) == Ids(q)
    ensures Filed(place[built[k].id := to],
                  Removed(Removed(qs, BUILT, Ids(Without(built, k))), to, Ids(q + [built[k]])))
    ensures |place[built[k].id := to]| == |place| && place[built[k].id := to].Keys == place.Keys
  {
    hide Housed, Filed;
    Known(place, qs, BUILT, built, k, to);
    IdsWithout(built, k);
    IdsEnds(q, built[k]);
    Move(place, qs, BUILT, k, to, Removed(Removed(qs, BUILT, Ids(Without(built, k))), to, Ids(q + [built[k]])));
  }

  /** Submitting some of the prepared SRBs changes nothing about their order. */
  lemma SameOrder(submitted: seq<Srb>, prepared: seq<Srb>, count: nat, same: seq<Srb>)
    requires count <= |prepared| && Ids(prepared) == Ids(same)
    ensures Ids(submitted + SubmittedAll(prepared[..count]) + prepared[count..]) == Ids(submitted + same)
  {
    assert forall i :: 0 <= i < |prepared| ==> Ids(prepared)[i] == prepared[i].id && Ids(same)[i] == same[i].id;
    assert |prepared| == |Ids(prepared)| == |same|;
  }

  /** An accepted SRB is in exactly one queue, once, or has been completed exactly once; CurrentSrbs
      is the number of those that have not been completed. */
  lemma Conservation(pdo: Pdo, id: int)
    requires pdo.Valid() && id in pdo.place
    ensures exists i :: 0 <= i < |pdo.Filing().At(pdo.place[id])| && pdo.Filing().At(pdo.place[id])[i] == id
    ensures forall p, i, j :: (&& 0 <= i < |pdo.Filing().At(p)| && 0 <= j < |pdo.Filing().At(p)|
                               && pdo.Filing().At(p)[i] == id && pdo.Filing().At(p)[j] == id)
                              ==> p == pdo.place[id] && i == j
    ensures pdo.currentSrbs == |pdo.place| - |pdo.completed|
  {
    var p := pdo.place[id];
    assert Housed(pdo.place, p, pdo.Filing().At(p));
    assert id in pdo.Filing().At(p);
    forall p, i, j | 0 <= i < |pdo.Filing().At(p)| && 0 <= j < |pdo.Filing().At(p)|
        && pdo.Filing().At(p)[i] == id && pdo.Filing().At(p)[j] == id
      ensures p == pdo.place[id] && i == j
    {
      assert Housed(pdo.place, p, pdo.Filing().At(p));
    }
  }

  /** An empty ring of at least 32 slots always accepts the next prepared SRB. */
  lemma EmptyRingAccepts(pdo: Pdo)
    requires pdo.Valid() && pdo.preparedSrbs != [] && pdo.submittedSrbs == [] && pdo.ringSize >= 32
    requires pdo.preparedSrbs[0].count * pdo.ss <= MAX_TRANSFER_LENGTH
    ensures pdo.ringSize - pdo.outstanding > |pdo.preparedSrbs[0].requests|
  {
    hide Translates, MdlShape, Filed, HoldsExactly;
    var srb := pdo.preparedSrbs[0];
    assert srb.Ready(pdo.ss);
    if srb.kind.ReadWrite? {
      TransferFacts.MaximalTransfer(srb.requests, srb.Op(), srb.sg, srb.start, srb.count, pdo.ss);
    }
  }

  /** Fresh SRBs, and those that only wait, own nothing; so when nothing is prepared or submitted,
      nothing is in use. */
  lemma NothingInUse(pdo: Pdo)
    requires pdo.Valid() && pdo.preparedSrbs == [] && pdo.submittedSrbs == []
    ensures pdo.env.requestListUsed == 0 && pdo.env.grants == multiset{} && pdo.env.buffers == multiset{}
    ensures pdo.env.outstandingMappedPages == 0 && pdo.outstanding == 0
  {
    pdo.OwnsNothing();
  }

  /** An SRB as it was before it was first prepared. */
  function Reset(srb: Srb): Srb {
    srb.(requests := [], status := INVALID_REQUEST)
  }

  function ResetAll(q: seq<Srb>): (r: seq<Srb>)
    ensures |r| == |q| && forall i :: 0 <= i < |q| ==> r[i] == q[i].(requests := [], status := INVALID_REQUEST)
  {
    seq(|q|, i requires 0 <= i < |q| => Reset(q[i]))
  }

  lemma AllReset(q: seq<Srb>)
    ensures ResetAll(q[|q|..]) == [] && q[..|q|] == q
  {
  }

  lemma ResetOneMore(q: seq<Srb>, k: nat)
    requires k < |q|
    ensures ResetAll(q[k..]) == [Reset(q[k])] + ResetAll(q[k + 1..])
    ensures q[..k + 1][..k] == q[..k] && q[..k + 1][k] == q[k]
  {
    hide Reset;
  }

  lemma ResetIsFresh(srb: Srb, ss: nat)
    ensures srb.Ready(ss) || srb.Waiting(ss) ==> Reset(srb).Fresh(ss)
  {
    hide Translates, MdlShape;
  }

  lemma ResetRemembers(asked: map<int, Task>, srb: Srb)
    requires Remembers(asked, srb)
    ensures Remembers(asked, Reset(srb))
  {
    StillRemembers(asked, srb, Reset(srb));
  }

  lemma ResetId(srb: Srb)
    ensures Reset(srb).id == srb.id
  {
  }

  /** An SRB moves from the tail of a queue to the head of the fresh queue. */
  lemma RevertMove(place: map<int, Place>, qs: Queues, from: Place, q: seq<Srb>, idle: seq<Srb>, ss: nat)
    requires Filed(place, qs) && (from == PREPARED || from == SUBMITTED) && qs.At(from) == Ids(q)
             && qs.idle == Ids(idle) && q != []
    ensures var srb, last := q[|q| - 1], |q| - 1;
      && Filed(place[srb.id := FRESH], Removed(qs, from, Ids(q[..last])).(idle := Ids([Reset(srb)] + idle)))
      && |place[srb.id := FRESH]| == |place| && place[srb.id := FRESH].Keys == place.Keys
      && Owned(q) == Owned(q[..last]) + srb.requests
      && (srb.Ready(ss) || srb.Waiting(ss) ==> Reset(srb).Fresh(ss))
  {
    hide Housed, Filed, Owned, Ids, Without, Reset, Srb.Ready, Srb.Waiting, Srb.Fresh, Remembers;
    var last := |q| - 1;
    var srb := q[last];
    ResetIsFresh(srb, ss);
    ResetId(srb);
    Known(place, qs, from, q, last, FRESH);
    assert q == q[..last] + [srb];
    OwnedLast(q[..last], srb);
    IdsWithout(q, last);
    IdsEnds(idle, Reset(srb));
    Move(place, qs, from, last, FRESH, Removed(qs, from, Ids(q[..last])).(idle := Ids([Reset(srb)] + idle)));
  }

  /** Releases a list of requests and what they hold. */
  method ReleaseList(env: Resources, reqs: seq<Request>, ghost a: seq<Request>, ghost b: seq<Request>,
                     ghost all: seq<Request>, ghost rest: seq<Request>)
    requires HoldsExactly(env, all) && all == a + reqs + b && rest == a + b
    modifies env
    ensures HoldsExactly(env, rest)
  {
    hide Flatten, Grants, Buffers, Pages;
    FlattenConcat(a + reqs, b);
    FlattenConcat(a, reqs);
    FlattenConcat(a, b);
    CleanupSrb(env, reqs, |a| + |b|, Flatten(a), Flatten(b));
  }

  /** An SRB after a response to one of its requests. */
  function AnsweredBy(srb: Srb, i: nat, status: int): Srb
    requires i < |srb.requests|
  {
    srb.(status := if srb.kind.SyncCache? && status == EOPNOTSUPP then INVALID_REQUEST
                   else if status != OKAY then ERROR else srb.status,
         requests := Without(srb.requests, i), responses := srb.responses + [Reply(srb.requests[i], status)])
  }

  /** How an SRB ends whose requests have all been answered. */
  ghost function Ended(srb: Srb): Completion {
    Completion(srb.(scsi := if AllOkay(srb.responses) then GOOD else ABORTED), Answered)
  }

  lemma AnsweredFacts(srb: Srb, i: nat, status: int)
    requires i < |srb.requests|
    ensures AnsweredBy(srb, i, status).id == srb.id && |AnsweredBy(srb, i, status).requests| == |srb.requests| - 1
    ensures var t := AnsweredBy(srb, i, status);
            t == srb.(status := t.status, scsi := t.scsi, requests := t.requests, sent := t.sent,
                      responses := t.responses)
  {
  }

  /** Releases a request and what it holds. A barrier holds nothing, and nothing is cleaned up for it. */
  method Release(env: Resources, request: Request, ghost a: seq<Request>, ghost b: seq<Request>)
    requires HoldsExactly(env, a + [request] + b) && (request.operation.WRITE_BARRIER? ==> request.segments == [])
    modifies env
    ensures HoldsExactly(env, a + b) && env.refusals == old(env.refusals)
  {
    hide Flatten, Grants, Buffers, Pages;
    FlattenAppend(a, request);
    FlattenConcat(a + [request], b);
    FlattenConcat(a, b);
    ghost var n := |a| + 1 + |b|;
    if !request.operation.WRITE_BARRIER? {
      env.CleanupRequest(request, n, Flatten(a), Flatten(b));
    } else {
      assert Flatten(a) + [] + Flatten(b) == Flatten(a) + Flatten(b);
    }
    env.FreeRequest();
  }

  lemma AnswerKeeps(srb0: Srb, srb: Srb, i: nat, status: int, ss: nat)
    requires srb0.Waiting(ss) && i < |srb0.requests|
    requires srb == srb0.(status := srb.status, requests := Without(srb0.requests, i),
                          responses := srb0.responses + [Reply(srb0.requests[i], status)])
    requires srb.status == SUCCESS <==> srb0.status == SUCCESS && status == OKAY
    ensures srb.status == SUCCESS <==> AllOkay(srb.responses)
    ensures srb.requests != [] ==> srb.Waiting(ss)
    ensures srb.requests == [] ==> srb.Proper(srb.sent, ss) && AllAnswered(srb)
  {
    hide Translates, MdlShape;
    assert srb.responses[|srb0.responses|].status == status;
    AskedOneMore(srb0.requests, i, srb0.responses, status);
    assert forall r :: r in srb0.responses ==> r in srb.responses;
    assert forall r :: r in srb.requests ==> r in srb0.requests;
  }

  /** A request that is answered moves from those that are out to those that have been answered. */
  lemma AskedOneMore(requests: seq<Request>, i: nat, replies: seq<Reply>, status: int)
    requires i < |requests|
    ensures multiset(Without(requests, i)) + multiset(Asked(replies + [Reply(requests[i], status)]))
            == multiset(requests) + multiset(Asked(replies))
  {
    SplitAt(requests, i);
    assert Asked(replies + [Reply(requests[i], status)]) == Asked(replies) + [requests[i]];
  }

  lemma RequestOp(srb: Srb, ss: nat, i: nat)
    requires srb.Waiting(ss) && i < |srb.requests|
    ensures srb.requests[i].operation == srb.Op()
    ensures srb.kind.SyncCache? ==> srb.requests[i].segments == []
    ensures srb.kind.ReadWrite? || srb.kind.SyncCache?
  {
    hide Translates, Srb.WellShaped;
    var r := srb.requests[i];
    assert r in srb.sent;
    var j :| 0 <= j < |srb.sent| && srb.sent[j] == r;
    if srb.kind.ReadWrite? {
      OpOf(srb.sent, srb.Op(), srb.sg, srb.start, srb.count, ss, j);
    }
  }

  lemma OpOf(reqs: seq<Request>, op: Operation, sg: seq<SgElement>, start: nat, n: nat, ss: nat, j: nat)
    requires |sg| > 0 && ss > 0 && Translates(reqs, op, sg, start, n, ss) && j < |reqs|
    ensures reqs[j].operation == op
  {
  }

  /** What is owned when the requests of one submitted SRB change, or the SRB leaves with none. */
  lemma OwnedChanges(q: seq<Srb>, k: nat, srb: Srb, others: seq<Request>)
    requires k < |q|
    ensures Owned(q[k := srb]) + others == Owned(q[..k]) + srb.requests + (Owned(q[k + 1..]) + others)
    ensures |Owned(q[k := srb])| == |Owned(q)| - |q[k].requests| + |srb.requests|
    ensures srb.requests == [] ==> Owned(Without(q, k)) == Owned(q[k := srb])
  {
    hide Owned;
    var q1 := q[k := srb];
    assert q1[..k] == q[..k] && q1[k + 1..] == q[k + 1..];
    OwnedAt(q, k);
    OwnedAt(q1, k);
    OwnedConcat(q[..k], q[k + 1..]);
  }

  function Removed(qs: Queues, from: Place, q: seq<int>): Queues {
    match from
    case BUILT => qs.(built := q)
    case FRESH => qs.(idle := q)
    case PREPARED => qs.(prepared := q)
    case SUBMITTED => qs.(submitted := q)
    case SHUTDOWN => qs.(shutdown := q)
    case COMPLETED => qs.(completed := q)
  }

  /** Completing an SRB. */
  lemma CompleteMove(place: map<int, Place>, qs: Queues, from: Place, q: seq<Srb>, k: nat, completed: seq<Completion>,
                     c: Completion)
    requires Filed(place, qs) && from != COMPLETED && qs.At(from) == Ids(q) && k < |q| && q[k].id == c.srb.id
    requires qs.completed == CompletedIds(completed)
    ensures Filed(place[c.srb.id := COMPLETED],
                  Removed(qs, from, Ids(Without(q, k))).(completed := CompletedIds(completed + [c])))
    ensures |place[c.srb.id := COMPLETED]| == |place| && place[c.srb.id := COMPLETED].Keys == place.Keys
    ensures k == 0 ==> Without(q, k) == q[1..]
  {
    hide Housed, Filed;
    Known(place, qs, from, q, k, COMPLETED);
    IdsWithout(q, k);
    assert CompletedIds(completed + [c]) == CompletedIds(completed) + [c.srb.id];
    Move(place, qs, from, k, COMPLETED,
         Removed(qs, from, Ids(Without(q, k))).(completed := CompletedIds(completed + [c])));
  }

  /** The second queue is the first, followed by the SRBs of the third with requests of their own. */
  ghost predicate Extends(before: seq<Srb>, after: seq<Srb>, more: seq<Srb>) {
    && |after| == |before| + |more| && after[..|before|] == before
    && forall i :: 0 <= i < |more| ==> after[|before| + i] == more[i].(requests := after[|before| + i].requests)
  }

  lemma NothingMore(before: seq<Srb>, after: seq<Srb>, more: seq<Srb>)
    requires Extends(before, after, more)
    ensures more == [] && before == [] ==> after == []
    ensures SubmittedAll([]) == []
  {
  }

  lemma ExtendsNone(q: seq<Srb>, more: seq<Srb>)
    ensures Extends(q, q, more[..0])
  {
  }

  lemma ExtendsOne(before: seq<Srb>, after: seq<Srb>, q: seq<Srb>, k: nat, srb: Srb)
    requires k < |q| && Extends(before, after, q[..k]) && srb == q[k].(requests := srb.requests)
    ensures Extends(before, after + [srb], q[..k + 1])
    ensures q[k..][1..] == q[k + 1..] && q[k..][0] == q[k]
  {
  }

  /** Flushes as they are handed back. */
  function FlushAll(q: seq<Srb>): seq<Completion> {
    seq(|q|, i requires 0 <= i < |q| => Completion(q[i].(status := SUCCESS), Flushed))
  }

  lemma FlushNone(q: seq<Srb>)
    ensures FlushAll(q[..0]) == [] && FlushAll([]) == []
  {
  }

  lemma FlushOneMore(q: seq<Srb>, k: nat)
    requires k < |q|
    ensures FlushAll(q[..k + 1]) == FlushAll(q[..k]) + [Completion(q[k].(status := SUCCESS), Flushed)]
    ensures q[k..][1..] == q[k + 1..] && q[k..][0] == q[k]
  {
  }

  function SubmittedAll(q: seq<Srb>): seq<Srb> {
    seq(|q|, i requires 0 <= i < |q| => Submitted(q[i]))
  }

  lemma SubmittedOneMore(q: seq<Srb>, k: nat)
    requires k < |q|
    ensures SubmittedAll(q[..k + 1]) == SubmittedAll(q[..k]) + [Submitted(q[k])]
    ensures q[k..][1..] == q[k + 1..]
  {
    hide Submitted;
  }

  lemma NoSegments(all: seq<Request>, req: Request)
    requires req.segments == []
    ensures Flatten(all + [req]) == Flatten(all)
  {
    FlattenAppend(all, req);
  }

  lemma SomeRequests(reqs: seq<Request>, op: Operation, sg: seq<SgElement>, start: nat, n: nat, ss: nat)
    requires |sg| > 0 && ss > 0 && n > 0 && Translates(reqs, op, sg, start, n, ss)
    ensures reqs != []
  {
  }

  /** An SRB that becomes prepared brings its requests to the end of all requests. */
  lemma PrepareMove(place: map<int, Place>, qs: Queues, from: Place, q: seq<Srb>, k: nat, prepared: seq<Srb>,
                    reqs: seq<Request>)
    requires Filed(place, qs) && qs.prepared == Ids(prepared) && (from == FRESH || from == BUILT)
             && qs.At(from) == Ids(q) && k < |q|
    ensures var srb := q[k].(requests := reqs);
            var rest := Ids(Without(q, k));
            var qs0 := if from == FRESH then qs.(idle := rest) else qs.(built := rest);
            var qs1 := qs0.(prepared := Ids(prepared + [srb]));
      && Filed(place[srb.id := PREPARED], qs1)
      && |place[srb.id := PREPARED]| == |place| && place[srb.id := PREPARED].Keys == place.Keys
      && Owned(prepared + [srb]) == Owned(prepared) + reqs
      && (k == 0 ==> Without(q, k) == q[1..])
  {
    hide Housed, Filed, Owned;
    var srb := q[k].(requests := reqs);
    var rest := Ids(Without(q, k));
    var qs0 := if from == FRESH then qs.(idle := rest) else qs.(built := rest);
    var qs1 := qs0.(prepared := Ids(prepared + [srb]));
    Known(place, qs, from, q, k, PREPARED);
    IdsWithout(q, k);
    IdsEnds(prepared, srb);
    Move(place, qs, from, k, PREPARED, qs1);
    OwnedLast(prepared, srb);
  }

  ghost predicate HoldsExactly(env: Resources, reqs: seq<Request>)
    reads env
  {
    env.Holds(|reqs|, Flatten(reqs))
  }

  function Submitted(srb: Srb): Srb {
    srb.(status := SUCCESS, sent := srb.requests, responses := [])
  }

  lemma ReadyWaits(srb: Srb, ss: nat)
    requires srb.Ready(ss)
    ensures Submitted(srb).Waiting(ss)
  {
  }

  function CompletedIds(cs: seq<Completion>): seq<int> {
    seq(|cs|, i requires 0 <= i < |cs| => cs[i].srb.id)
  }

  /** An SRB that moves from the head of the prepared queue to the tail of the submitted queue keeps
      its place in the order of all requests. */
  lemma SubmitMove(place: map<int, Place>, qs: Queues, prepared: seq<Srb>, submitted: seq<Srb>)
    requires Filed(place, qs) && qs.prepared == Ids(prepared) && qs.submitted == Ids(submitted) && prepared != []
    ensures var srb := Submitted(prepared[0]);
            var submitted1 := submitted + [srb];
      && Filed(place[srb.id := SUBMITTED], qs.(prepared := Ids(prepared[1..]), submitted := Ids(submitted1)))
      && |place[srb.id := SUBMITTED]| == |place| && place[srb.id := SUBMITTED].Keys == place.Keys
      && Owned(submitted1) == Owned(submitted) + srb.requests
      && Owned(submitted1) + Owned(prepared[1..]) == Owned(submitted) + Owned(prepared)
  {
    hide Housed, Filed, Owned, Ids, Submitted, Without;
    var srb := Submitted(prepared[0]);
    SubmittedFacts(prepared[0]);
    Known(place, qs, PREPARED, prepared, 0, SUBMITTED);
    IdsWithout(prepared, 0);
    IdsEnds(submitted, srb);
    Move(place, qs, PREPARED, 0, SUBMITTED, qs.(prepared := Ids(prepared[1..]), submitted := Ids(submitted + [srb])));
    OwnedLast(submitted, srb);
    OwnedHead(prepared);
  }

  lemma SubmittedFacts(srb: Srb)
    ensures Submitted(srb).id == srb.id && Submitted(srb).requests == srb.requests
    ensures Submitted(srb) == srb.(status := SUCCESS, sent := srb.requests, responses := [])
  {
  }

  lemma NothingOwned()
    ensures Owned([]) == []
  {
  }
}
