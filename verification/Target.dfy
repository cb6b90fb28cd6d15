/** A target: the driver's queues and its end of the ring, step by step together. */
module Target {
  import opened Basics
  import opened Words
  import opened SharedRing
  import opened FrontRing
  import DataPath
  import Requests
  import Frontends = Frontend
  import Transfer

  class Target {
    const pdo: DataPath.Pdo
    var ring: Ring
    var ids: seq<int>                // of the requests of submitted SRBs: their addresses
    ghost var finished: seq<Entry>   // what has been answered, in the order in which it was

    /** The driver's count of outstanding requests is that of the ring. What has been put on the ring has
        been answered or belongs to a submitted SRB, entry by entry; the identifiers of the latter
        are different from each other. */
    ghost predicate Coupled()
      reads this, pdo, pdo.env, ring
    {
      && pdo.Valid() && Inv(ring.s) && ring.s.n == pdo.ringSize
      && pdo.outstanding == |ring.s.h.sent| - |ring.s.h.completed|
      && Matched(ids, DataPath.Owned(pdo.submittedSrbs), finished, ring.s.h)
    }

    constructor (ss: nat, ringSize: nat, frontend: Frontends.Frontend)
      requires Transfer.ValidSectorSize(ss) && RingSize(ringSize)
      ensures Coupled() && ring.s.front.Idle? && fresh(pdo) && fresh(pdo.env) && fresh(ring)
    {
      hide DataPath.Pdo.Valid, Inv, Init, RingSize, Transfer.ValidSectorSize;
      RingSizeBound(ringSize);
      pdo := new DataPath.Pdo(ss, ringSize, frontend);
      ring := new Ring(ringSize);
      ids, finished := [], [];
      new;
      NothingOut();
    }

    lemma NothingOut()
      requires pdo.Valid() && pdo.submittedSrbs == [] && ring.s == Init(ring.s.n)
      ensures pdo.outstanding == 0 == |ring.s.h.sent| - |ring.s.h.completed|
      ensures Matched([], DataPath.Owned(pdo.submittedSrbs), [], ring.s.h)
    {
    }

    /** One turn of the submit loop, with the ring: the queue's test and the ring's agree, and the
        entries on the ring are those of the SRB's requests. Identifiers are the addresses of
        requests in use. */
    method SubmitOne(newIds: seq<int>) returns (ok: bool)
      requires Coupled() && ring.s.front.Idle? && pdo.preparedSrbs != [] && |newIds| == |pdo.preparedSrbs[0].requests|
      requires Distinct(ids + newIds) && 0 !in newIds
      modifies this, pdo, ring
      ensures Coupled() && ring.s.front.Idle? && ring == old(ring)
      ensures ok ==>
                && pdo.submittedSrbs == old(pdo.submittedSrbs) + [DataPath.Submitted(old(pdo.preparedSrbs)[0])]
                && ring.s.h.sent == old(ring.s.h.sent) + Entries(newIds, old(pdo.preparedSrbs)[0].requests)
                && ring.s.h.published == |ring.s.h.sent| && ids == old(ids) + newIds
      ensures !ok ==>
                && pdo.submittedSrbs == old(pdo.submittedSrbs) && pdo.preparedSrbs == old(pdo.preparedSrbs)
                && ring.s == old(ring.s) && ids == old(ids)
    {
      hide DataPath.Pdo.Valid, Inv, Matched, DataPath.Submitted;
      IdleAccounts(ring.s);
      ghost var srb := pdo.preparedSrbs[0];
      MatchMore(ids, DataPath.Owned(pdo.submittedSrbs), finished, ring.s.h, newIds, srb.requests);
      OwnedSubmitted(pdo.submittedSrbs, srb);
      var inserted := ring.SubmitRequest(newIds, pdo.preparedSrbs[0].requests);
      ok := pdo.SubmitOne();
      assert ok == inserted;
      if ok {
        ring.PushRequests();
        ids := ids + newIds;
        MatchedAlike(ids, DataPath.Owned(pdo.submittedSrbs), finished, old(ring.s.h), Entries(newIds, srb.requests),
                     ring.s.h);
      }
    }

    /** The frontend reads a response. Its identifier is that of exactly one outstanding request, request
        i of submitted SRB k; that SRB has one request less out, or is completed. */
    method Complete() returns (k: nat, i: nat)
      requires Coupled() && ring.s.front.Consume? && ring.s.front.cons != ring.s.front.prod
      modifies this, pdo, pdo.env, ring
      ensures Coupled() && ring.s.front.Consume? && ring == old(ring)
      ensures var done, answered := |old(ring.s.h.completed)|, old(ring.s.h.answered);
        && done < |answered| && ring.s.h.completed == old(ring.s.h.completed) + [answered[done]]
        && k < |old(pdo.submittedSrbs)| && i < |old(pdo.submittedSrbs)[k].requests|
        && var j := Place(old(pdo.submittedSrbs), k, i);
           var srb := DataPath.AnsweredBy(old(pdo.submittedSrbs)[k], i, answered[done].status);
        && j < |old(ids)| && (forall x :: 0 <= x < |old(ids)| ==> (old(ids)[x] == answered[done].id <==> x == j))
        && ids == Without(old(ids), j)
        && finished == old(finished) + [EntryOf(answered[done].id, old(pdo.submittedSrbs)[k].requests[i])]
        && (if srb.requests != [] then
              pdo.submittedSrbs == old(pdo.submittedSrbs)[k := srb] && pdo.completed == old(pdo.completed)
            else
              && pdo.submittedSrbs == Without(old(pdo.submittedSrbs), k)
              && pdo.completed == old(pdo.completed) + [DataPath.Ended(srb)])
    {
      hide DataPath.Pdo.Valid, Inv, Matched, DataPath.AnsweredBy, Without, DataPath.AllOkay, DataPath.Ended, Distinct,
           EntryOf, Place, Locate;
      NextResponse(ring.s);
      NextIsOut(ring.s, ids, DataPath.Owned(pdo.submittedSrbs), finished);
      var answer := Get(ring.s.slots, ring.s.n, ring.s.front.cons).answer;
      ring.Do(FrontConsume);
      if answer.id != 0 {
        var j :| 0 <= j < |ids| && ids[j] == answer.id;
        OnlyPlace(ids, j);
        var owner := Locate(pdo.submittedSrbs, j);
        k, i := owner.0, owner.1;
        MatchLess(ids, pdo.submittedSrbs, finished, old(ring.s.h), k, i, answer);
        pdo.CompleteSubmittedRequest(k, i, answer.status);
        finished := finished + [EntryOf(answer.id, old(pdo.submittedSrbs)[k].requests[i])];
        ids := Without(ids, j);
      }
    }

    /** As long as a response is there to be read, some submitted SRB has a request out. */
    lemma SomeoneWaits()
      requires Coupled() && ring.s.front.Consume? && ring.s.front.cons != ring.s.front.prod
      ensures exists k :: 0 <= k < |pdo.submittedSrbs| && pdo.submittedSrbs[k].requests != []
    {
      hide DataPath.Pdo.Core, Inv, Matched;
      NextResponse(ring.s);
      InvFacts(ring.s);
      SomeRequests(pdo.submittedSrbs);
    }

    /** Around a suspend the ring is made anew, with nothing on it. */
    method SuspendLate() returns (ok: bool)
      requires Coupled() && pdo.frontend.Valid()
      modifies this, pdo, pdo.env, pdo.frontend
      ensures Coupled() && ring.s.front.Idle? && fresh(ring) && pdo.frontend.Valid()
      ensures pdo.preparedSrbs == [] && pdo.submittedSrbs == []
      ensures ok ==> pdo.frontend.state == old(pdo.frontend.state)
    {
      hide DataPath.Pdo.Valid, Inv, Matched, Frontends.Frontend.Valid, RingSize;
      SizeOfRing(ring.s);
      ok := pdo.SuspendLate();
      ring := new Ring(pdo.ringSize);
      ids, finished := [], [];
      NothingOut();
    }
  }

  /** Outside the completion loop the ring's room test counts what the driver counts. */
  lemma IdleAccounts(s: State)
    requires Inv(s) && s.front.Idle?
    ensures s.h.consumed == |s.h.completed|
  {
  }

  // ---------------------------------------------------------------- requests and their identifiers

  /** The entries put on the ring are those that have been answered and those of the requests out. */
  ghost predicate Matched(ids: seq<int>, out: seq<Requests.Request>, finished: seq<Entry>, h: History) {
    && |ids| == |out| && Distinct(ids) && 0 !in ids
    && Ids(h.completed) == EntryIds(finished)
    && multiset(h.sent) == multiset(finished) + multiset(Entries(ids, out))
  }

  lemma MatchedAlike(ids: seq<int>, out: seq<Requests.Request>, finished: seq<Entry>, h: History, more: seq<Entry>,
                     h1: History)
    requires Matched(ids, out, finished, h.(sent := h.sent + more)) && h1.sent == h.sent + more
             && h1.completed == h.completed
    ensures Matched(ids, out, finished, h1)
  {
  }

  lemma MatchMore(ids: seq<int>, out: seq<Requests.Request>, finished: seq<Entry>, h: History,
                  newIds: seq<int>, requests: seq<Requests.Request>)
    requires Matched(ids, out, finished, h) && |newIds| == |requests| && Distinct(ids + newIds) && 0 !in newIds
    ensures Matched(ids + newIds, out + requests, finished, h.(sent := h.sent + Entries(newIds, requests)))
  {
    hide EntryOf;
    assert Entries(ids + newIds, out + requests) == Entries(ids, out) + Entries(newIds, requests);
  }

  lemma OwnedSubmitted(q: seq<DataPath.Srb>, srb: DataPath.Srb)
    ensures DataPath.Owned(q + [DataPath.Submitted(srb)]) == DataPath.Owned(q) + srb.requests
  {
    DataPath.OwnedLast(q, DataPath.Submitted(srb));
  }

  /** Where request i of SRB k is among all requests. */
  function Place(q: seq<DataPath.Srb>, k: nat, i: nat): nat
    requires k < |q|
  {
    |DataPath.Owned(q[..k])| + i
  }

  /** The SRB that a request belongs to, and its number there. */
  function Locate(q: seq<DataPath.Srb>, j: nat): (r: (nat, nat))
    requires j < |DataPath.Owned(q)|
    ensures r.0 < |q| && r.1 < |q[r.0].requests| && j == Place(q, r.0, r.1)
    ensures DataPath.Owned(q)[j] == q[r.0].requests[r.1]
  {
    var last := |q| - 1;
    var before := |DataPath.Owned(q[..last])|;
    if j >= before then (last, j - before)
    else
      var r := Locate(q[..last], j);
      assert q[..last][..r.0] == q[..r.0];
      r
  }

  lemma OnlyPlace(ids: seq<int>, j: nat)
    requires Distinct(ids) && j < |ids|
    ensures forall x :: 0 <= x < |ids| ==> (ids[x] == ids[j] <==> x == j)
  {
  }

  /** The next response is to a request that is out. */
  lemma NextIsOut(s: State, ids: seq<int>, out: seq<Requests.Request>, finished: seq<Entry>)
    requires Inv(s) && |s.h.completed| < |s.h.answered| && Matched(ids, out, finished, s.h)
    ensures s.h.answered[|s.h.completed|].id in ids && 0 !in ids && Distinct(ids) && |ids| == |out|
  {
    hide Inv, EntryOf, EntryIds, Ids;
    var done, sent, all := |s.h.completed|, s.h.sent, Entries(ids, out);
    TakenAndAnswered(s);
    ReadAreAnswered(s);
    IdsPrefix(s.h.answered, done);
    EntryIdsPrefix(sent, s.h.taken);
    SameIds(sent, finished + all);
    EntryIdsConcat(finished, all);
    EntriesIds(ids, out);
    CompletedAnswers(s);
    Counted(multiset(EntryIds(sent)), multiset(EntryIds(sent[..s.h.taken])), s.held, multiset(Ids(s.h.answered)),
            multiset(EntryIds(finished)), ids, s.h.answered[done].id);
  }

  lemma Counted(all: multiset<int>, taken: multiset<int>, held: multiset<int>, answered: multiset<int>,
                 finished: multiset<int>, ids: seq<int>, id: int)
    requires all == finished + multiset(ids) && taken <= all && taken == answered + held
             && finished + multiset{id} <= answered
    ensures id in ids
  {
    assert finished[id] + 1 <= answered[id] <= all[id];
    assert id in multiset(ids);
  }

  lemma CompletedAnswers(s: State)
    requires Inv(s)
    ensures |s.h.completed| <= |s.h.answered| && s.h.answered[..|s.h.completed|] == s.h.completed
  {
  }

  lemma TakenAndAnswered(s: State)
    requires Inv(s)
    ensures s.h.taken <= |s.h.sent| && multiset(EntryIds(s.h.sent[..s.h.taken])) == multiset(Ids(s.h.answered)) + s.held
  {
  }

  lemma {:induction false} IdsPrefix(answers: seq<Answer>, k: nat)
    requires k < |answers|
    ensures multiset(Ids(answers[..k])) + multiset{answers[k].id} <= multiset(Ids(answers))
  {
    hide Ids;
    var last := |answers| - 1;
    assert answers == answers[..last] + [answers[last]];
    IdsAppend(answers[..last], answers[last]);
    if k < last {
      IdsPrefix(answers[..last], k);
      assert answers[..last][..k] == answers[..k];
    }
  }

  lemma EntryIdsConcat(a: seq<Entry>, b: seq<Entry>)
    ensures EntryIds(a + b) == EntryIds(a) + EntryIds(b)
  {
  }

  lemma EntryIdsPrefix(entries: seq<Entry>, k: nat)
    requires k <= |entries|
    ensures multiset(EntryIds(entries[..k])) <= multiset(EntryIds(entries))
  {
    EntryIdsConcat(entries[..k], entries[k..]);
    assert entries == entries[..k] + entries[k..];
  }

  lemma EntriesIds(ids: seq<int>, out: seq<Requests.Request>)
    requires |ids| == |out|
    ensures EntryIds(Entries(ids, out)) == ids
  {
  }

  /** Entries in another order have their identifiers in another order. */
  lemma {:induction false} SameIds(a: seq<Entry>, b: seq<Entry>)
    requires multiset(a) == multiset(b)
    ensures multiset(EntryIds(a)) == multiset(EntryIds(b))
    decreases |a|
  {
    hide EntryIds, Without;
    if a == [] {
      assert |multiset(b)| == 0;
    } else {
      var last := |a| - 1;
      assert a[last] in multiset(b);
      var j :| 0 <= j < |b| && b[j] == a[last];
      Removed(a, last);
      Removed(b, j);
      SameIds(Without(a, last), Without(b, j));
      EntryIdsLess(a, last);
      EntryIdsLess(b, j);
    }
  }

  lemma Removed<T>(s: seq<T>, j: nat)
    requires j < |s|
    ensures multiset(s) == multiset(Without(s, j)) + multiset{s[j]}
    ensures multiset(Without(s, j)) == multiset(s) - multiset{s[j]}
    ensures |Without(s, j)| == |s| - 1
  {
    SplitAt(s, j);
  }

  lemma EntryIdsLess(s: seq<Entry>, j: nat)
    requires j < |s|
    ensures multiset(EntryIds(s)) == multiset(EntryIds(Without(s, j))) + multiset{s[j].id}
  {
    assert EntryIds(Without(s, j)) == Without(EntryIds(s), j);
    Removed(EntryIds(s), j);
  }

  /** A request that is answered is out no more. */
  lemma MatchLess(ids: seq<int>, q: seq<DataPath.Srb>, finished: seq<Entry>, h: History, k: nat, i: nat, answer: Answer)
    requires Matched(ids, DataPath.Owned(q), finished, h) && k < |q| && i < |q[k].requests|
    requires Place(q, k, i) < |ids| && ids[Place(q, k, i)] == answer.id
    ensures var ids', finished' := Without(ids, Place(q, k, i)), finished + [EntryOf(answer.id, q[k].requests[i])];
            var h' := h.(completed := h.completed + [answer]);
            var srb := DataPath.AnsweredBy(q[k], i, answer.status);
      && Matched(ids', DataPath.Owned(q[k := srb]), finished', h')
      && (srb.requests == [] ==> Matched(ids', DataPath.Owned(Without(q, k)), finished', h'))
  {
    hide EntryOf, EntryIds, Ids, DataPath.Owned, Without;
    var j, out, srb := Place(q, k, i), DataPath.Owned(q), DataPath.AnsweredBy(q[k], i, answer.status);
    OwnedLess(q, k, i, srb);
    EntriesLess(ids, out, j);
    DistinctLess(ids, j);
    var entry := EntryOf(answer.id, q[k].requests[i]);
    assert entry.id == answer.id by { EntryId(answer.id, q[k].requests[i]); }
    IdsAppend(h.completed, answer);
    EntryIdsConcat(finished, [entry]);
    OneEntryId(entry);
  }

  lemma EntryId(id: int, request: Requests.Request)
    ensures EntryOf(id, request).id == id
  {
  }

  lemma OneEntryId(entry: Entry)
    ensures EntryIds([entry]) == [entry.id]
  {
  }

  lemma DistinctLess(ids: seq<int>, j: nat)
    requires j < |ids| && Distinct(ids) && 0 !in ids
    ensures Distinct(Without(ids, j)) && 0 !in Without(ids, j)
  {
  }

  lemma EntriesLess(ids: seq<int>, out: seq<Requests.Request>, j: nat)
    requires |ids| == |out| && j < |ids|
    ensures |Without(ids, j)| == |Without(out, j)| == |out| - 1
    ensures multiset(Entries(ids, out))
            == multiset{EntryOf(ids[j], out[j])} + multiset(Entries(Without(ids, j), Without(out, j)))
  {
    hide EntryOf;
    var all := Entries(ids, out);
    SplitAt(all, j);
    assert Entries(Without(ids, j), Without(out, j)) == all[..j] + all[j + 1..];
  }

  lemma OwnedLess(q: seq<DataPath.Srb>, k: nat, i: nat, srb: DataPath.Srb)
    requires k < |q| && i < |q[k].requests| && srb.requests == Without(q[k].requests, i)
    ensures var j, out := Place(q, k, i), DataPath.Owned(q);
      && j < |out| && out[j] == q[k].requests[i]
      && DataPath.Owned(q[k := srb]) == Without(out, j)
      && (srb.requests == [] ==> DataPath.Owned(Without(q, k)) == Without(out, j))
  {
    hide DataPath.Owned;
    DataPath.OwnedChanges(q, k, srb, []);
    Nothing(DataPath.Owned(q[k := srb]));
    Nothing(DataPath.Owned(q[k + 1..]));
    DataPath.OwnedAt(q, k);
    WithoutInside(DataPath.Owned(q[..k]), q[k].requests, DataPath.Owned(q[k + 1..]), i);
  }

  lemma Nothing<T>(s: seq<T>)
    ensures s + [] == s
  {
  }

  lemma WithoutInside<T>(a: seq<T>, b: seq<T>, c: seq<T>, i: nat)
    requires i < |b|
    ensures (a + b + c)[|a| + i] == b[i]
    ensures Without(a + b + c, |a| + i) == a + Without(b, i) + c
  {
  }

  lemma SizeOfRing(s: State)
    requires Inv(s)
    ensures RingSize(s.n)
  {
  }

  lemma NextResponse(s: State)
    requires Inv(s) && s.front.Consume? && s.front.cons != s.front.prod
    ensures |s.h.completed| < |s.h.answered| && Get(s.slots, s.n, s.front.cons) == Rsp(s.h.answered[|s.h.completed|])
  {
    hide Accounts, FrontWakes, BackWakes, RingSize, W, Get, Slots;
    NextSlots(s);
  }

  lemma {:induction false} SomeRequests(q: seq<DataPath.Srb>)
    requires |DataPath.Owned(q)| > 0
    ensures exists k :: 0 <= k < |q| && q[k].requests != []
  {
    var last := |q| - 1;
    if q[last].requests == [] {
      SomeRequests(q[..last]);
      var k :| 0 <= k < last && q[..last][k].requests != [];
      assert q[k].requests != [];
    }
  }
}
