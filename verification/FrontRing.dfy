/** The frontend's ring functions, with the backend interfering between any two accesses to the
    shared page. */
module FrontRing {
  import opened Words
  import opened SharedRing
  import Requests

  // blkif operations
  const BLKIF_OP_READ: int := 0
  const BLKIF_OP_WRITE: int := 1
  const BLKIF_OP_WRITE_BARRIER: int := 2

  function Opcode(op: Requests.Operation): int {
    match op
    case READ => BLKIF_OP_READ
    case WRITE => BLKIF_OP_WRITE
    case WRITE_BARRIER => BLKIF_OP_WRITE_BARRIER
  }

  /** What goes into the ring slot of a request. A barrier has no segments. */
  function EntryOf(id: int, request: Requests.Request): Entry {
    Entry(id, Opcode(request.operation), request.firstSector,
          if request.operation.WRITE_BARRIER? then [] else RingSegments(request.segments))
  }

  function RingSegments(segs: seq<Requests.Segment>): seq<RingSegment> {
    seq(|segs|, i requires 0 <= i < |segs| => RingSegment(segs[i].grant.ref, segs[i].firstSector, segs[i].lastSector))
  }

  /** The requests of an SRB, as they go into the ring. */
  function Entries(ids: seq<int>, requests: seq<Requests.Request>): seq<Entry>
    requires |ids| == |requests|
  {
    seq(|ids|, i requires 0 <= i < |ids| => EntryOf(ids[i], requests[i]))
  }

  /** What becomes of a state when the backend does those of these actions that it can. */
  function Interleave(s: State, actions: seq<Action>): State
    decreases |actions|
  {
    if actions == [] then s
    else Interleave(if !ByFrontend(actions[0]) && Enabled(s, actions[0]) then Apply(s, actions[0]) else s, actions[1..])
  }

  /** What the frontend can rely on whatever the backend does. */
  ghost predicate LeavesFrontend(s: State, t: State) {
    && t.n == s.n && t.front == s.front && t.reqProdPvt == s.reqProdPvt && t.rspCons == s.rspCons
    && t.reqProd == s.reqProd && t.rspEvent == s.rspEvent
    && t.h.sent == s.h.sent && t.h.published == s.h.published && t.h.completed == s.h.completed
       && t.h.consumed == s.h.consumed
    && t.h.snap == s.h.snap && t.h.frontOld == s.h.frontOld && s.h.pushed <= t.h.pushed
    && s.h.answered <= t.h.answered
  }

  lemma BackStep(s: State, a: Action)
    requires Inv(s) && !ByFrontend(a) && Enabled(s, a)
    ensures Inv(Apply(s, a)) && LeavesFrontend(s, Apply(s, a))
  {
    hide Stored, Slots, Accounts, FrontWakes, BackWakes, RingSize, Put, Get, W, Sub, Crosses;
    StepSafe(s, a);
  }

  lemma {:induction false} Background(s: State, actions: seq<Action>)
    requires Inv(s)
    ensures Inv(Interleave(s, actions)) && LeavesFrontend(s, Interleave(s, actions))
    decreases |actions|
  {
    hide Inv, Enabled, Apply, ByFrontend;
    if actions != [] {
      var t := if !ByFrontend(actions[0]) && Enabled(s, actions[0]) then Apply(s, actions[0]) else s;
      if !ByFrontend(actions[0]) && Enabled(s, actions[0]) {
        BackStep(s, actions[0]);
      }
      Background(t, actions[1..]);
    }
  }

  /** The front end of a completion pass sees as many responses as had been pushed at the last look. */
  lemma InvFacts(s: State)
    requires Inv(s)
    ensures |s.h.completed| <= |s.h.answered| <= |s.h.sent| && s.h.pushed <= |s.h.sent|
    ensures s.h.consumed <= |s.h.completed|
    ensures s.front.Consume? ==>
            (s.front.cons != s.front.prod <==> |s.h.completed| < s.h.snap) && s.h.snap <= s.h.pushed
    ensures !s.front.Consume? ==> |s.h.completed| == s.h.consumed
    ensures HasResponses(s) <==> s.h.pushed > s.h.consumed
    ensures forall k: nat :: CanSubmit(s, k) <==> |s.h.sent| - s.h.consumed + k < s.n
  {
    hide Slots, Accounts, FrontWakes, BackWakes, RingSize, W, Sub, HasResponses, CanSubmit;
    Tests(s);
  }

  /** Where no response is missed: all have been read, or an event is pending, or the backend is about
      to send one. */
  ghost predicate NothingMissed(s: State) {
    || |s.h.completed| == s.h.pushed
    || s.toFront
    || (s.push.Pushed? && Crosses(s.push.newProd, s.rspEvent, s.push.oldProd))
  }

  lemma IdleMissesNothing(s: State)
    requires Inv(s) && s.front.Idle?
    ensures NothingMissed(s)
  {
    hide Crosses, W, Slots, Accounts, RingSize, BackWakes;
    RingSizeBound(s.n);
    if s.push.Pushed? && s.h.rspAt == s.h.consumed + 1 && s.h.backOld <= s.h.consumed {
      CrossesNearby(s.h.pushed, s.h.rspAt, s.h.backOld);
    }
  }

  class Ring {
    var s: State

    constructor (n: int)
      requires RingSize(n)
      ensures Inv(s) && s.front.Idle? && s.n == n && s == Init(n)
    {
      s := Init(n);
      InitIsSafe(n);
    }

    /** One access to memory by the frontend. */
    method Do(a: Action)
      requires Inv(s) && Enabled(s, a)
      modifies this
      ensures s == Apply(old(s), a) && Inv(s)
    {
      hide Inv, Enabled, Apply;
      StepSafe(s, a);
      s := Apply(s, a);
    }

    /** Any number of steps of the backend. */
    method Interfere()
      requires Inv(s)
      modifies this
      ensures Inv(s) && LeavesFrontend(old(s), s)
    {
      hide Inv, LeavesFrontend, Interleave;
      var actions: seq<Action> := *;
      Background(s, actions);
      s := Interleave(s, actions);
    }

    /** One pass over the responses pushed so far; tells whether there are more. */
    method CompletionPass() returns (more: bool)
      requires Inv(s) && s.front.Top?
      modifies this
      ensures Inv(s) && (if more then s.front.Top? else s.front.Idle?)
      ensures s.h.sent == old(s.h.sent) && old(s.h.completed) <= s.h.completed && |s.h.completed| >= old(s.h.pushed)
      ensures more ==> s.h.pushed > |s.h.completed|
    {
      hide Inv, Interleave;
      Interfere();
      Do(FrontRead);
      InvFacts(s);
      Interfere();
      InvFacts(s);
      ghost var s0 := old(s);
      while s.front.cons != s.front.prod
        invariant Inv(s) && s.front.Consume?
        invariant s.h.sent == s0.h.sent && s0.h.completed <= s.h.completed && s.h.snap >= s0.h.pushed
        decreases |s.h.sent| - |s.h.completed|
      {
        InvFacts(s);
        ghost var before := |s.h.completed|;
        Do(FrontConsume);
        assert |s.h.completed| == before + 1;
        Interfere();
        InvFacts(s);
      }
      InvFacts(s);
      Do(FrontStore);
      Interfere();
      more := FinalCheck();
    }

    /** Looks for responses, asks for an event if there are none, and looks again. */
    method FinalCheck() returns (more: bool)
      requires Inv(s) && s.front.Check?
      modifies this
      ensures Inv(s) && (if more then s.front.Top? else s.front.Idle?)
      ensures s.h.sent == old(s.h.sent) && s.h.completed == old(s.h.completed)
      ensures more ==> s.h.pushed > |s.h.completed|
    {
      hide Inv, Interleave, HasResponses;
      InvFacts(s);
      more := HasResponses(s);
      Do(FrontCheck);
      if more {
        return;
      }
      Interfere();
      Do(FrontSetEvent);
      Interfere();
      InvFacts(s);
      more := HasResponses(s);
      Do(FrontRecheck);
    }

    /** Reads responses until none is left. It comes to an end, because no request is inserted
        meanwhile; and when it does, nothing has been missed. */
    method CompleteResponses(interrupt: bool)
      requires Inv(s) && s.front.Idle? && (interrupt ==> s.toFront)
      modifies this
      ensures Inv(s) && s.front.Idle? && NothingMissed(s)
      ensures s.h.sent == old(s.h.sent) && old(s.h.completed) <= s.h.completed <= s.h.answered
      ensures |s.h.completed| >= old(s.h.pushed)
    {
      hide Inv, NothingMissed, HasResponses;
      Do(FrontWake(interrupt));
      ghost var s0 := s;
      var more := true;
      ghost var first := true;
      while more
        invariant Inv(s) && (if more then s.front.Top? else s.front.Idle?)
        invariant s.h.sent == s0.h.sent && s0.h.completed <= s.h.completed
        invariant first ==> more && s == s0
        invariant !first ==> |s.h.completed| >= s0.h.pushed && (more ==> s.h.pushed > |s.h.completed|)
        decreases more, |s.h.sent| - |s.h.completed| + if first then 1 else 0
      {
        InvFacts(s);
        more := CompletionPass();
        first := false;
        InvFacts(s);
      }
      IdleMissesNothing(s);
      ReadAreAnswered(s);
    }

    /** All requests of an SRB go on the ring, or none. */
    method SubmitRequest(ids: seq<int>, requests: seq<Requests.Request>) returns (ok: bool)
      requires Inv(s) && s.front.Idle? && |ids| == |requests|
      modifies this
      ensures Inv(s) && s.front.Idle?
      ensures ok <==> |old(s.h.sent)| - old(s.h.consumed) + |requests| < s.n
      ensures s.h.sent == old(s.h.sent) + if ok then Entries(ids, requests) else []
      ensures s.h.completed == old(s.h.completed) && s.n == old(s.n) && (!ok ==> s == old(s))
    {
      hide Inv, CanSubmit;
      InvFacts(s);
      ok := CanSubmit(s, |requests|);
      if ok {
        var entries: seq<Entry> := [];
        for i := 0 to |requests|
          invariant |entries| == i && forall k :: 0 <= k < i ==> entries[k] == EntryOf(ids[k], requests[k])
          invariant s == old(s)
        {
          entries := entries + [EntryOf(ids[i], requests[i])];
        }
        assert entries == Entries(ids, requests);
        Do(FrontInsert(entries));
      }
    }

    /** Publishes what has been inserted and notifies the backend if it asked for that. */
    method PushRequests()
      requires Inv(s) && s.front.Idle?
      modifies this
      ensures Inv(s) && s.front.Idle? && s.h.published == |s.h.sent| && s.h.sent == old(s.h.sent)
      ensures s.h.completed == old(s.h.completed) && s.n == old(s.n)
      ensures s.back.Asleep? ==> s.h.taken == s.h.published || s.toBack
    {
      hide Inv;
      Do(FrontPush);
      Interfere();
      Do(FrontNotify);
      SleepingBackend(s);
    }
  }

  /** A backend that sleeps has taken everything, or has been woken. */
  lemma SleepingBackend(s: State)
    requires Inv(s) && s.front.Idle?
    ensures s.back.Asleep? ==> s.h.taken == s.h.published || s.toBack
  {
    hide Stored, Slots, Accounts, FrontWakes, RingSize;
  }

  lemma ReadAreAnswered(s: State)
    requires Inv(s)
    ensures s.h.completed <= s.h.answered
  {
  }
}
