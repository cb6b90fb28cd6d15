/** The frontend's connection to its backend: the states it goes through, what it holds in each, and
    what it publishes in XenStore. The crash dump driver and the full driver share the machine; they
    differ in the watches, which only the full driver has, and in the order of closing and freeing
    the ring. */
module Frontend {

  // XenbusState, in XenStore. A backend may publish any number.
  const UNKNOWN: int := 0
  const INITIALISING: int := 1
  const INIT_WAIT: int := 2
  const INITIALISED: int := 3
  const CONNECTED: int := 4
  const CLOSING: int := 5
  const CLOSED: int := 6

  /** The states of the frontend itself. */
  datatype Mode = INVALID | INITIALIZED | CLOSED_MODE | PREPARED | CONNECTED_MODE | ENABLED

  /** What XenStore is asked: the backend's state, a new state of the frontend's own, other values to
      read, numbers and texts to store, a watch, and the ends of a transaction. */
  datatype Question =
    | ReadState | WriteState(state: int)
    | Read(node: string) | Print(node: string, value: int) | Put(node: string) | Register(node: string)
    | Begin | End(commit: bool)

  /** What XenStore answers: a failure, a transaction to be retried, or success with a value. */
  datatype Reply = Failed | Retry | Value(v: int)

  datatype Exchange = Exchange(question: Question, reply: Reply) {
    /** The backend's state has been read and was this. */
    predicate Sees(s: int) {
      question.ReadState? && reply == Value(s)
    }

    /** The frontend's state has been written, or at least that was tried. */
    predicate Writes() {
      question.WriteState?
    }

    predicate Wrote(s: int) {
      question == WriteState(s) && reply.Value?
    }

    predicate Commits() {
      question == End(true) && reply.Value?
    }
  }

  // ---------------------------------------------------------------- the law of published states

  const NO_WRITE: Exchange := Exchange(WriteState(UNKNOWN), Failed)

  /** The last attempt to write the frontend's state. */
  function LastWrite(trace: seq<Exchange>): Exchange {
    if trace == [] then NO_WRITE
    else if trace[|trace| - 1].Writes() then trace[|trace| - 1]
    else LastWrite(trace[..|trace| - 1])
  }

  /** What has happened since. */
  function Since(trace: seq<Exchange>): seq<Exchange> {
    if trace == [] || trace[|trace| - 1].Writes() then []
    else Since(trace[..|trace| - 1]) + [trace[|trace| - 1]]
  }

  ghost predicate Saw(events: seq<Exchange>, s: int) {
    exists e :: e in events && e.Sees(s)
  }

  ghost predicate Committed(events: seq<Exchange>) {
    exists e :: e in events && e.Commits()
  }

  /** The backend's state has been read until it was none of those that are waited through. */
  ghost predicate Awaited(es: seq<Exchange>, passed: set<int>, s: int) {
    Reading(es, passed, s) && s !in passed
  }

  /** The same, but for the last state, which may be any. */
  ghost predicate Reading(es: seq<Exchange>, passed: set<int>, s: int) {
    && es != [] && es[|es| - 1].Sees(s)
    && forall k :: 0 <= k < |es| - 1 && es[k].question.ReadState? ==>
         es[k].reply.Value? && (es[k].reply.v in passed || es[k].reply.v == UNKNOWN)
  }

  /** XenStore has just refused something. */
  ghost predicate Refused(trace: seq<Exchange>) {
    trace != [] && (!trace[|trace| - 1].reply.Value? || trace[|trace| - 1].question == End(false))
  }

  /** The transaction that publishes a ring. */
  function RingQuestions(full: bool, port: int, ref: int): seq<Question> {
    [Begin, Print("event-channel", port), Print("ring-ref", ref)]
    + (if full then [Put("target-id")] else [])
    + [Put("protocol"), Put("feature-surprise-remove"), Put("feature-online-resize"), End(true)]
  }

  /** Up to position i, the transaction for this ring has been gone through with success. */
  ghost predicate RingWritten(trace: seq<Exchange>, i: int, full: bool, port: int, ref: int) {
    var n := |RingQuestions(full, port, ref)|;
    && n - 1 <= i < |trace|
    && forall k :: 0 <= k < n ==>
         trace[i + 1 - n + k].question == RingQuestions(full, port, ref)[k] && trace[i + 1 - n + k].reply.Value?
  }

  /** Whether a state may be written after this history. */
  ghost predicate MayWrite(state: int, trace: seq<Exchange>) {
    && (state == INITIALISING ==> Saw(Since(trace), CLOSED))
    && (state == INITIALISED ==> LastWrite(trace).Wrote(INITIALISING) && Committed(Since(trace)))
    && (state == CONNECTED ==>
          LastWrite(trace).Wrote(INITIALISED)
          && Awaited(Since(trace), {INITIALISING, INIT_WAIT, INITIALISED}, CONNECTED))
    && (state == CLOSING ==>
          trace != [] && trace[|trace| - 1].question.ReadState?
          && !trace[|trace| - 1].Sees(CLOSING) && !trace[|trace| - 1].Sees(CLOSED))
    && (state == CLOSED ==>
          trace != [] && trace[|trace| - 1].question.ReadState? && !trace[|trace| - 1].Sees(CLOSED)
          && (trace[|trace| - 1].Sees(CLOSING) || LastWrite(trace).Wrote(CLOSED)))
  }

  ghost predicate LawfulAt(trace: seq<Exchange>, full: bool, i: nat)
    requires i < |trace|
  {
    && (trace[i].Writes() ==> MayWrite(trace[i].question.state, trace[..i]))
    && (trace[i].Commits() ==> exists port, ref :: RingWritten(trace, i, full, port, ref))
  }

  ghost predicate Lawful(trace: seq<Exchange>, full: bool) {
    forall i :: 0 <= i < |trace| ==> LawfulAt(trace, full, i)
  }

  /** Where the last ring was published. */
  function LastCommit(trace: seq<Exchange>): (i: int)
    ensures -1 <= i < |trace|
  {
    if trace == [] then -1
    else if trace[|trace| - 1].Commits() then |trace| - 1
    else LastCommit(trace[..|trace| - 1])
  }

  /** The ring that was published last is this one. */
  ghost predicate RingPublished(trace: seq<Exchange>, full: bool, port: int, ref: int) {
    RingWritten(trace, LastCommit(trace), full, port, ref)
  }

  lemma LawfulMore(trace: seq<Exchange>, full: bool, e: Exchange)
    requires Lawful(trace, full) && LawfulAt(trace + [e], full, |trace|)
    ensures Lawful(trace + [e], full)
  {
    hide RingWritten, MayWrite;
    var t := trace + [e];
    forall i | 0 <= i < |t| ensures LawfulAt(t, full, i) {
      if i < |trace| {
        assert LawfulAt(trace, full, i);
        assert t[..i] == trace[..i];
        if t[i].Commits() {
          var port, ref :| RingWritten(trace, i, full, port, ref);
          RingWrittenMore(trace, i, full, port, ref, e);
        }
      }
    }
  }

  lemma AppendFacts(trace: seq<Exchange>, e: Exchange)
    ensures LastWrite(trace + [e]) == if e.Writes() then e else LastWrite(trace)
    ensures Since(trace + [e]) == if e.Writes() then [] else Since(trace) + [e]
    ensures LastCommit(trace + [e]) == if e.Commits() then |trace| else LastCommit(trace)
  {
    assert (trace + [e])[..|trace|] == trace;
  }

  lemma RingStays(trace: seq<Exchange>, full: bool, e: Exchange)
    requires !e.Commits()
    ensures forall port, ref :: RingPublished(trace, full, port, ref) ==> RingPublished(trace + [e], full, port, ref)
  {
    hide RingWritten;
    AppendFacts(trace, e);
    forall port, ref | RingPublished(trace, full, port, ref) ensures RingPublished(trace + [e], full, port, ref) {
      RingWrittenMore(trace, LastCommit(trace), full, port, ref, e);
    }
  }

  lemma RingWrittenMore(trace: seq<Exchange>, i: int, full: bool, port: int, ref: int, e: Exchange)
    requires RingWritten(trace, i, full, port, ref)
    ensures RingWritten(trace + [e], i, full, port, ref)
  {
    hide RingQuestions;
  }

  lemma WriteLawfully(trace: seq<Exchange>, full: bool, state: int, r: Reply)
    requires Lawful(trace, full) && MayWrite(state, trace)
    ensures var t := trace + [Exchange(WriteState(state), r)];
            && Lawful(t, full) && LastWrite(t) == Exchange(WriteState(state), r) && Since(t) == []
            && forall port, ref :: RingPublished(trace, full, port, ref) ==> RingPublished(t, full, port, ref)
  {
    hide MayWrite, RingPublished;
    var e := Exchange(WriteState(state), r);
    AppendFacts(trace, e);
    RingStays(trace, full, e);
    assert (trace + [e])[..|trace|] == trace;
    LawfulMore(trace, full, e);
  }

  /** Nothing has been written or published in between. */
  ghost predicate Quiet(before: seq<Exchange>, after: seq<Exchange>, full: bool) {
    && before <= after
    && (Lawful(before, full) ==> Lawful(after, full))
    && LastWrite(after) == LastWrite(before)
    && Since(after) == Since(before) + after[|before|..]
    && (forall port, ref :: RingPublished(before, full, port, ref) ==> RingPublished(after, full, port, ref))
  }

  lemma QuietSame(trace: seq<Exchange>, full: bool)
    ensures Quiet(trace, trace, full)
  {
  }

  lemma QuietTrans(a: seq<Exchange>, b: seq<Exchange>, c: seq<Exchange>, full: bool)
    requires Quiet(a, b, full) && Quiet(b, c, full)
    ensures Quiet(a, c, full)
  {
    hide Lawful, Since, LastWrite, RingPublished;
    assert c[|a|..] == b[|a|..] + c[|b|..];
  }

  lemma QuietStep(trace: seq<Exchange>, full: bool, e: Exchange)
    requires !e.Writes() && !e.Commits()
    ensures Quiet(trace, trace + [e], full)
    ensures e in Since(trace + [e])
  {
    hide Lawful, Since, LastWrite, RingPublished;
    AppendFacts(trace, e);
    RingStays(trace, full, e);
    if Lawful(trace, full) {
      LawfulMore(trace, full, e);
    }
  }

  /** Where the last write is. */
  lemma {:induction false} WriteIndex(trace: seq<Exchange>) returns (w: int)
    ensures -1 <= w < |trace| && NoWrites(trace, w, |trace|)
    ensures if w >= 0 then trace[w] == LastWrite(trace) && trace[w].Writes() else LastWrite(trace) == NO_WRITE
    ensures |Since(trace)| == |trace| - 1 - w
  {
    if trace == [] {
      w := -1;
    } else {
      var last := |trace| - 1;
      if trace[last].Writes() {
        w := last;
      } else {
        w := WriteIndex(trace[..last]);
        forall k | w < k < |trace| ensures !trace[k].Writes() {
          assert k < last ==> trace[..last][k] == trace[k];
        }
      }
    }
  }

  /** What has happened since the last write, by position. */
  lemma {:induction false} SinceAt(trace: seq<Exchange>, k: nat)
    requires k < |Since(trace)|
    ensures |Since(trace)| <= |trace| && Since(trace)[k] == trace[|trace| - |Since(trace)| + k]
  {
    var last := |trace| - 1;
    if k < |Since(trace)| - 1 {
      SinceAt(trace[..last], k);
    } else if k > 0 {
      SinceAt(trace[..last], 0);
    }
  }

  /** An event since the last write, and the last write. */
  lemma SinceIndex(trace: seq<Exchange>, e: Exchange) returns (w: int, k: nat)
    requires e in Since(trace)
    ensures -1 <= w < k < |trace| && NoWrites(trace, w, |trace|) && trace[k] == e
    ensures if w >= 0 then trace[w] == LastWrite(trace) else LastWrite(trace) == NO_WRITE
  {
    hide Since, LastWrite;
    w := WriteIndex(trace);
    var i :| 0 <= i < |Since(trace)| && Since(trace)[i] == e;
    SinceAt(trace, i);
    k := w + 1 + i;
  }

  /** The law in plain terms, over what XenStore was asked and what it answered: every write of
      Initialising comes after the backend was read as closed, with no write in between; the write
      before one of Initialised is a successful one of Initialising, and a ring was published between
      them; the write before one of Connected is a successful one of Initialised, and the backend was
      read as connected between them. */
  lemma LawOfStates(trace: seq<Exchange>, full: bool, i: nat)
    requires Lawful(trace, full) && i < |trace|
    ensures trace[i].question == WriteState(1) ==>
              exists j :: 0 <= j < i && trace[j] == Exchange(ReadState, Value(6)) && NoWrites(trace, j, i)
    ensures trace[i].question == WriteState(3) ==>
              exists j, k :: 0 <= j < k < i && trace[j].Wrote(1) && trace[k].Commits() && NoWrites(trace, j, i)
                && exists port, ref :: RingWritten(trace, k, full, port, ref)
    ensures trace[i].question == WriteState(4) ==>
              exists j, k :: 0 <= j < k < i && trace[j].Wrote(3) && trace[k] == Exchange(ReadState, Value(4))
                  && NoWrites(trace, j, i)
  {
    hide Since, LastWrite, RingWritten;
    var before := trace[..i];
    assert LawfulAt(trace, full, i);
    if trace[i].question == WriteState(INITIALISING) {
      var e :| e in Since(before) && e.Sees(CLOSED);
      var w, k := SinceIndex(before, e);
      assert trace[k] == before[k];
      PrefixWrites(trace, i, k, w);
    } else if trace[i].question == WriteState(INITIALISED) {
      var e :| e in Since(before) && e.Commits();
      var w, k := SinceIndex(before, e);
      assert trace[k] == before[k] && trace[w] == before[w];
      PrefixWrites(trace, i, w, w);
      assert LawfulAt(trace, full, k);
    } else if trace[i].question == WriteState(CONNECTED) {
      var e := Since(before)[|Since(before)| - 1];
      assert e in Since(before);
      var w, k := SinceIndex(before, e);
      assert trace[k] == before[k] && trace[w] == before[w];
      PrefixWrites(trace, i, w, w);
    }
  }

  /** On the way down: Closing is written right after the backend was read as neither closing nor closed,
      and Closed right after it was read as not closed, the first time as closing. */
  lemma LawOfClosing(trace: seq<Exchange>, full: bool, i: nat)
    requires Lawful(trace, full) && i < |trace|
    ensures trace[i].question == WriteState(5) ==>
              i > 0 && trace[i - 1].question == ReadState && !trace[i - 1].Sees(5) && !trace[i - 1].Sees(6)
    ensures trace[i].question == WriteState(6) ==>
              && i > 0 && trace[i - 1].question == ReadState && !trace[i - 1].Sees(6)
              && (trace[i - 1].Sees(5) || exists j :: 0 <= j < i && trace[j].Wrote(6) && NoWrites(trace, j, i))
  {
    hide Since, LastWrite, RingWritten;
    assert LawfulAt(trace, full, i);
    if trace[i].question == WriteState(CLOSED) && !trace[i - 1].Sees(CLOSING) {
      var w := WriteIndex(trace[..i]);
      assert trace[w] == trace[..i][w];
      PrefixWrites(trace, i, w, w);
    }
  }

  /** How a ring is published, question by question, all answered with success. */
  lemma RingNodes(trace: seq<Exchange>, i: nat, full: bool, port: int, ref: int)
    requires RingWritten(trace, i, full, port, ref)
    ensures var b := i - if full then 7 else 6;
            && 0 <= b < i < |trace| && (forall k :: b <= k <= i ==> trace[k].reply.Value?)
            && trace[b].question == Begin && trace[b + 1].question == Print("event-channel", port)
            && trace[b + 2].question == Print("ring-ref", ref) && (full ==> trace[b + 3].question == Put("target-id"))
            && trace[i - 3].question == Put("protocol") && trace[i - 2].question == Put("feature-surprise-remove")
            && trace[i - 1].question == Put("feature-online-resize") && trace[i].question == End(true)
  {
    var questions := RingQuestions(full, port, ref);
    var b := i - if full then 7 else 6;
    assert |questions| == i - b + 1;
    forall k | b <= k <= i ensures trace[k].question == questions[k - b] && trace[k].reply.Value? {
      assert trace[i + 1 - |questions| + (k - b)] == trace[k];
    }
  }

  lemma PrefixWrites(trace: seq<Exchange>, i: int, j: int, w: int)
    requires -1 <= w <= j < i <= |trace| && NoWrites(trace[..i], w, i)
    ensures NoWrites(trace, j, i)
  {
    assert forall k :: w < k < i ==> trace[..i][k] == trace[k];
  }

  ghost predicate NoWrites(trace: seq<Exchange>, j: int, i: int)
    requires -1 <= j < i <= |trace|
  {
    forall k :: j < k < i ==> !trace[k].Writes()
  }

  // ---------------------------------------------------------------- the machine

  class Frontend {
    const full: bool             // the full driver, as opposed to the crash dump driver
    var state: Mode
    var connected: bool
    var sharedRing: bool         // whether there is a page for the ring
    var ringGrantRef: int
    var evtchnPort: int
    var watches: set<string>
    var script: seq<Reply>       // what XenStore is going to answer; it fails from then on
    ghost const given: seq<Reply>   // what the script was at first
    // What the frontend has acquired and not given back.
    ghost var pages: int
    ghost var grants: set<int>
    ghost var ports: set<int>
    ghost var trace: seq<Exchange>   // what XenStore has been asked, and what it has answered
    ghost var troubles: nat      // how often something went wrong that was not the frontend's doing

    /** The fields tell exactly what is held. */
    ghost predicate Held()
      reads this
    {
      && pages == (if sharedRing then 1 else 0)
      && grants == (if ringGrantRef != 0 then {ringGrantRef} else {})
      && ports == (if evtchnPort != 0 then {evtchnPort} else {})
    }

    ghost predicate RingHeld()
      reads this
    {
      sharedRing && ringGrantRef != 0 && evtchnPort != 0
    }

    ghost predicate NoRing()
      reads this
    {
      !sharedRing && ringGrantRef == 0 && evtchnPort == 0
    }

    ghost predicate Resources()
      reads this
    {
      && Held()
      && (if state == CONNECTED_MODE || state == ENABLED then RingHeld() else NoRing())
      && (connected <==> state == ENABLED)
      && watches == (if full && (state == PREPARED || state == CONNECTED_MODE || state == ENABLED) then AllWatches()
                     else {})
    }

    /** The answers in the history are those that XenStore gave, in order. */
    ghost predicate Heard()
      reads `script, `trace
    {
      && (forall i :: 0 <= i < |trace| ==> trace[i].reply == if i < |given| then given[i] else Failed)
      && script == if |trace| <= |given| then given[|trace|..] else []
    }

    /** What the history says in each state. */
    ghost predicate Published()
      reads this
    {
      && Heard() && Lawful(trace, full)
      && (state == CLOSED_MODE ==> Saw(Since(trace), CLOSED))
      && (state == PREPARED ==>
            LastWrite(trace).Wrote(INITIALISING) && Awaited(Since(trace), {INITIALISING, CLOSED}, INIT_WAIT))
      && (state == CONNECTED_MODE || state == ENABLED ==>
            LastWrite(trace).Wrote(CONNECTED) && RingPublished(trace, full, evtchnPort, ringGrantRef))
    }

    ghost predicate Valid()
      reads this
    {
      Resources() && Published()
    }

    constructor (full: bool, script: seq<Reply>)
      ensures Valid() && state == INITIALIZED && this.full == full && this.script == script && trace == []
    {
      this.full, this.script, given, state, connected := full, script, script, INITIALIZED, false;
      sharedRing, ringGrantRef, evtchnPort, watches := false, 0, 0, {};
      pages, grants, ports, trace, troubles := 0, {}, {}, [], 0;
    }

    /** One answer of XenStore. Only the end of a transaction may be told to retry. */
    method Ask(q: Question) returns (r: Reply)
      requires Heard()
      modifies `script, `trace, `troubles
      ensures Heard() && trace == old(trace) + [Exchange(q, r)]
      ensures r == if old(script) == [] then Failed else old(script)[0]
      ensures |script| == if old(script) == [] then 0 else |old(script)| - 1
      ensures troubles == old(troubles) + if r.Failed? || (r.Retry? && q != End(true)) then 1 else 0
    {
      if script == [] {
        r := Failed;
      } else {
        r := script[0];
        script := script[1..];
      }
      trace := trace + [Exchange(q, r)];
      troubles := troubles + if r.Failed? || (r.Retry? && q != End(true)) then 1 else 0;
    }

    /** The same for anything but a new state and the end of a transaction. */
    method AskQuietly(q: Question) returns (r: Reply)
      requires Heard() && !q.WriteState? && !q.End?
      modifies `script, `trace, `troubles
      ensures Heard() && trace == old(trace) + [Exchange(q, r)] && Quiet(old(trace), trace, full)
      ensures Exchange(q, r) in Since(trace)
      ensures |script| <= |old(script)| && (r.Value? ==> |script| < |old(script)|)
      ensures troubles == old(troubles) + if r.Value? then 0 else 1
    {
      hide Quiet, Since, Heard;
      QuietNext(q);
      r := Ask(q);
    }

    lemma QuietNext(q: Question)
      requires !q.WriteState? && !q.End?
      ensures forall r ::
              Quiet(trace, trace + [Exchange(q, r)], full) && Exchange(q, r) in Since(trace + [Exchange(q, r)])
    {
      hide Quiet, Since;
      forall r {
        QuietStep(trace, full, Exchange(q, r));
      }
    }

    /** Waits until the backend's state is no longer the given one. */
    method WaitState(before: int) returns (ok: bool, now: int)
      requires Heard()
      modifies `script, `trace, `troubles
      ensures Heard() && Quiet(old(trace), trace, full) && Waited(trace[|old(trace)|..], full, before, ok, now)
      ensures troubles >= old(troubles) && (!ok ==> troubles > old(troubles) && Refused(trace))
      ensures |script| <= |old(script)|
      ensures ok ==> now != before && |script| < |old(script)| && Saw(Since(trace), now) && trace != []
      ensures ok ==> trace[|trace| - 1] == Exchange(ReadState, Value(now))
    {
      hide Quiet, Heard, Since, Lawful, Waited, Saw, OnHold, Moved;
      ok, now := true, before;
      ghost var t0 := trace;
      if full {
        var watch := AskQuietly(Register("state"));
        if !watch.Value? {
          WatchFailed(t0, trace, before, now);
          return false, UNKNOWN;
        }
      }
      HoldStarts(t0, trace, full, before);
      while now == before
        invariant troubles == old(troubles) && ok && Heard() && |script| <= |old(script)|
        invariant if now == before then OnHold(t0, trace, full, before)
                  else Moved(t0, trace, full, before, now) && |script| < |old(script)|
        decreases now == before, |script|
      {
        ghost var t1 := trace;
        var r := Ask(ReadState);
        HoldGoes(t0, t1, full, before, r);
        if !r.Value? {
          return false, UNKNOWN;
        }
        now := r.v;
      }
      MovedFacts(t0, trace, full, before, now);
    }

    /** Publishes a state. */
    method PublishState(s: int) returns (ok: bool)
      requires Heard() && Lawful(trace, full) && MayWrite(s, trace)
      modifies `script, `trace, `troubles
      ensures Heard() && Lawful(trace, full) && |script| <= |old(script)| && Since(trace) == []
      ensures |trace| == |old(trace)| + 1 && old(trace) <= trace
      ensures var e := trace[|trace| - 1];
              e.question == WriteState(s) && LastWrite(trace) == e && (ok <==> e.reply.Value?)
      ensures forall port, ref :: RingPublished(old(trace), full, port, ref) ==> RingPublished(trace, full, port, ref)
      ensures (!ok ==> troubles > old(troubles) && Refused(trace)) && troubles >= old(troubles)
    {
      hide Heard, Lawful, MayWrite, Since, LastWrite, RingPublished;
      WriteNext(s);
      var r := Ask(WriteState(s));
      ok := r.Value?;
    }

    lemma WriteNext(s: int)
      requires Lawful(trace, full) && MayWrite(s, trace)
      ensures forall r ::
                var t := trace + [Exchange(WriteState(s), r)];
                && Lawful(t, full) && LastWrite(t) == Exchange(WriteState(s), r) && Since(t) == []
                && forall port, ref :: RingPublished(trace, full, port, ref) ==> RingPublished(t, full, port, ref)
    {
      hide Lawful, MayWrite, Since, LastWrite, RingPublished;
      forall r {
        WriteLawfully(trace, full, s, r);
      }
    }

    /** Looks up who the backend is and where it keeps its state. */
    method UpdateBackendPath() returns (ok: bool)
      requires Heard()
      modifies `script, `trace, `troubles
      ensures Heard() && Quiet(old(trace), trace, full) && |script| <= |old(script)|
      ensures troubles >= old(troubles) && (!ok ==> troubles > old(troubles) && Refused(trace))
      ensures var es := trace[|old(trace)|..];
        && |es| == 2 && es[0].question == Read("backend-id") && es[1].question == Read("backend")
        && (ok <==> es[1].reply.Value?)
    {
      hide Quiet, Heard, Since, Lawful;
      ghost var t0 := trace;
      var id := AskQuietly(Read("backend-id"));
      ghost var t1 := trace;
      var path := AskQuietly(Read("backend"));
      QuietTrans(t0, t1, trace, full);
      ok := path.Value?;
    }

    /** Gets the backend to close. Any state of the backend but Initialising and Closed has been answered
        by a state of the frontend's own. */
    method Close() returns (ok: bool)
      requires Heard() && Lawful(trace, full)
      modifies `script, `trace, `watches, `troubles
      ensures Heard() && Lawful(trace, full) && old(trace) <= trace
      ensures troubles >= old(troubles) && (!ok ==> troubles > old(troubles) && Refused(trace))
      ensures (full ==> watches == {}) && (!full ==> watches == old(watches))
      ensures ok ==> Saw(Since(trace), CLOSED) && Shut(trace[|old(trace)|..])
    {
      hide Heard, Lawful, Since, LastWrite, Quiet, Shut, ShutBut, RingPublished, Saw;
      ghost var t0 := trace;
      if full {
        watches := {};
      }
      ok := UpdateBackendPath();
      QuietIs(t0, trace, full);
      if !ok {
        return;
      }
      NothingSeen(t0, trace);
      var backend;
      ok, backend := WaitInitialised(t0);
      while ok && backend != CLOSING && backend != CLOSED
        invariant watches == (if full then {} else old(watches))
        invariant troubles >= old(troubles) && (!ok ==> troubles > old(troubles) && Refused(trace))
        invariant Heard() && Lawful(trace, full) && t0 <= trace && (ok ==> Standing(t0, backend))
        decreases ok, |script|
      {
        MayClose(trace, backend);
        ok, backend := WriteAndWait(CLOSING, backend, t0);
      }
      while ok && backend != CLOSED
        invariant watches == (if full then {} else old(watches))
        invariant troubles >= old(troubles) && (!ok ==> troubles > old(troubles) && Refused(trace))
        invariant Heard() && Lawful(trace, full) && t0 <= trace && (ok ==> Standing(t0, backend))
        invariant ok ==> backend == CLOSING || backend == CLOSED || LastWrite(trace).Wrote(CLOSED)
        decreases ok, |script|
      {
        MayShut(trace, backend);
        ok, backend := WriteAndWait(CLOSED, backend, t0);
      }
      if ok {
        ShutAtLast(trace[|t0|..]);
      }
    }

    /** The backend's state has just been read, and everything it was before has been answered. */
    ghost predicate Standing(t0: seq<Exchange>, backend: int)
      reads `trace
    {
      && t0 <= trace && trace != [] && trace[|trace| - 1] == Exchange(ReadState, Value(backend))
      && Saw(Since(trace), backend) && ShutBut(trace[|t0|..], backend)
    }

    method WaitInitialised(ghost t0: seq<Exchange>) returns (ok: bool, backend: int)
      requires Heard() && Lawful(trace, full) && t0 <= trace && forall s :: ShutBut(trace[|t0|..], s)
      modifies `script, `trace, `troubles
      ensures Heard() && Lawful(trace, full) && t0 <= trace
      ensures troubles >= old(troubles) && (!ok ==> troubles > old(troubles) && Refused(trace))
      ensures ok ==> Standing(t0, backend) && backend != INITIALISING
    {
      hide Heard, Lawful, Since, LastWrite, Quiet, Waited, Shut, ShutBut, MayWrite, RingPublished, Saw;
      ghost var t1 := trace;
      ok, backend := WaitState(UNKNOWN);
      QuietIs(t1, trace, full);
      if ok {
        SeenNext(t0, t1, trace, full, UNKNOWN, backend);
      }
      while ok && backend == INITIALISING
        invariant troubles >= old(troubles) && (!ok ==> troubles > old(troubles) && Refused(trace))
        invariant Heard() && Lawful(trace, full) && t0 <= trace && (ok ==> Standing(t0, backend))
        decreases ok, |script|
      {
        t1 := trace;
        ok, backend := WaitState(backend);
        QuietIs(t1, trace, full);
        if ok {
          SeenNext(t0, t1, trace, full, INITIALISING, backend);
        }
      }
    }

    /** Publishes a state and waits for the backend to change its own. */
    method WriteAndWait(s: int, before: int, ghost t0: seq<Exchange>) returns (ok: bool, now: int)
      requires Heard() && Lawful(trace, full) && MayWrite(s, trace)
      requires s == CLOSING || s == CLOSED
      requires before == CLOSING ==> s == CLOSED
      requires Standing(t0, before)
      modifies `script, `trace, `troubles
      ensures Heard() && Lawful(trace, full) && |script| <= |old(script)| && old(trace) <= trace
      ensures troubles >= old(troubles) && (!ok ==> troubles > old(troubles) && Refused(trace))
      ensures ok ==> Standing(t0, now) && |script| < |old(script)| && LastWrite(trace).Wrote(s)
    {
      hide Heard, Lawful, Since, LastWrite, Quiet, Waited, ShutBut, MayWrite, RingPublished;
      now := before;
      ghost var t1 := trace;
      ok := PublishState(s);
      if ok {
        ghost var t2 := trace;
        ok, now := WaitState(before);
        QuietIs(t2, trace, full);
        if ok {
          SeenAfterWrite(t0, t1, t2, trace, full, s, before, now);
        }
      }
    }

    method WriteTargetPath() returns (ok: bool)
      requires Heard()
      modifies `script, `trace, `troubles
      ensures Heard() && Quiet(old(trace), trace, full) && |script| <= |old(script)|
      ensures troubles >= old(troubles) && (!ok ==> troubles > old(troubles))
      ensures Asked(trace[|old(trace)|..], [Put("frontend"), Put("device"), Put("filter")], ok)
    {
      hide Quiet, Heard, Since, Lawful;
      ghost var t0 := trace;
      var r := AskQuietly(Put("frontend"));
      ghost var es := [Exchange(Put("frontend"), r)];
      if r.Value? {
        ghost var t1 := trace;
        r := AskQuietly(Put("device"));
        QuietTrans(t0, t1, trace, full);
        es := es + [Exchange(Put("device"), r)];
      }
      if r.Value? {
        ghost var t1 := trace;
        r := AskQuietly(Put("filter"));
        QuietTrans(t0, t1, trace, full);
        es := es + [Exchange(Put("filter"), r)];
      }
      ok := r.Value?;
      Tail(t0, es);
      assert trace == t0 + es;
    }

    /** Registers the watches that are missing, up to the first failure. */
    method WatchBackend() returns (ok: bool)
      requires Heard() && watches <= AllWatches()
      modifies `script, `trace, `watches, `troubles
      ensures Heard() && Quiet(old(trace), trace, full)
      ensures troubles >= old(troubles) && (!ok ==> troubles > old(troubles))
      ensures old(watches) == {} ==>
                var es := trace[|old(trace)|..];
                Asked(es, [Register("state"), Register("info"), Register("sector-size"), Register("sectors")], ok)
      ensures |script| <= |old(script)| && (ok ==> watches == AllWatches())
      ensures forall w :: w in watches && w !in old(watches) ==>
                exists e :: e in trace[|old(trace)|..] && e.question == Register(w) && e.reply.Value?
    {
      hide Quiet, Heard, Since, Lawful, Registered, FirstWatches;
      ghost var t0 := trace;
      QuietSame(trace, full);
      NothingRegistered(t0);
      var order := ["state", "info", "sector-size", "sectors"];
      for i := 0 to 4
        invariant troubles == old(troubles) && |script| <= |old(script)|
                  && forall j :: 0 <= j < i ==> order[j] in watches
        invariant Heard() && t0 <= trace && Quiet(t0, trace, full)
        invariant forall w :: w in watches && w !in old(watches) ==>
                    exists e :: e in trace[|t0|..] && e.question == Register(w) && e.reply.Value?
        invariant watches <= old(watches) + AllWatches()
        invariant old(watches) == {} ==> watches == FirstWatches(i) && Registered(trace[|t0|..], i)
      {
        NewWatch(i);
        if order[i] !in watches {
          ghost var t1 := trace;
          var r := AskQuietly(Register(order[i]));
          QuietTrans(t0, t1, trace, full);
          assert trace[|t0|..] == t1[|t0|..] + [Exchange(Register(order[i]), r)];
          NextWatch(t1[|t0|..], i, r);
          if !r.Value? {
            return false;
          }
          watches := watches + {order[i]};
        }
      }
      if old(watches) == {} {
        AllRegistered(trace[|t0|..]);
      }
      assert order[0] in watches && order[1] in watches && order[2] in watches && order[3] in watches;
      ok := true;
    }

    /** What is read, watched and written before the frontend announces itself. */
    method PreparePaths() returns (ok: bool)
      requires Heard() && watches == {}
      modifies `script, `trace, `watches, `troubles
      ensures Heard() && Quiet(old(trace), trace, full)
      ensures troubles >= old(troubles) && (!ok ==> troubles > old(troubles))
      ensures |script| <= |old(script)|
      ensures if full then ok ==> watches == AllWatches() else watches == {}
      ensures var es := trace[|old(trace)|..];
        && (ok ==> QuestionsOf(es) == PathQuestions(full))
        && (!ok ==> es != [] && QuestionsOf(es) <= PathQuestions(full) && !es[|es| - 1].reply.Value?)
    {
      hide Heard, Lawful, Since, LastWrite, Quiet, RingPublished;
      ghost var t0, t1, t2 := trace, trace, trace;
      QuietSame(trace, full);
      ok := true;
      if full {
        ok := UpdateBackendPath();
        QuietIs(t0, trace, full);
        t1, t2 := trace, trace;
        if ok {
          ok := WatchBackend();
          QuietIs(t1, trace, full);
          QuietTrans(t0, t1, trace, full);
          t2 := trace;
        }
      }
      if ok {
        ok := WriteTargetPath();
        QuietIs(t2, trace, full);
        QuietTrans(t0, t2, trace, full);
      }
      PathsAsked(t0, t1, t2, trace, full, ok);
    }

    /** Announces the frontend and waits for the backend to be ready. */
    method Prepare() returns (ok: bool)
      requires Heard() && Lawful(trace, full) && Saw(Since(trace), CLOSED) && watches == {}
      modifies `script, `trace, `watches, `troubles
      ensures Heard() && Lawful(trace, full) && old(trace) <= trace
      ensures troubles >= old(troubles) && (!ok ==> troubles > old(troubles))
      ensures ok ==> LastWrite(trace).Wrote(INITIALISING) && Awaited(Since(trace), {INITIALISING, CLOSED}, INIT_WAIT)
      ensures !ok ==> Refused(trace) || exists s :: s != INIT_WAIT && Awaited(Since(trace), {INITIALISING, CLOSED}, s)
      ensures ok ==> watches == if full then AllWatches() else {}
      ensures !ok ==> watches == {}
    {
      hide Heard, Lawful, Since, LastWrite, Quiet, Waited, RingPublished, Saw, Reading;
      ghost var t0, passed := trace, {INITIALISING, CLOSED};
      ok := PreparePaths();
      QuietSaw(t0, trace, full, CLOSED);
      if ok {
        ok := PublishState(INITIALISING);
      }
      var backend := UNKNOWN;
      if ok {
        ghost var t1 := trace;
        ok, backend := WaitState(backend);
        QuietIs(t1, trace, full);
        if ok {
          AwaitMore(t1, trace, full, passed, UNKNOWN, backend);
        }
      }
      while ok && (backend == CLOSED || backend == INITIALISING)
        invariant troubles >= old(troubles) && (!ok ==> troubles > old(troubles) && Refused(trace))
        invariant if full then ok ==> watches == AllWatches() else watches == {}
        invariant Heard() && Lawful(trace, full) && t0 <= trace
        invariant ok ==> LastWrite(trace).Wrote(INITIALISING) && Reading(Since(trace), passed, backend)
        decreases ok, |script|
      {
        ghost var t1, was := trace, backend;
        ok, backend := WaitState(backend);
        QuietIs(t1, trace, full);
        if ok {
          AwaitMore(t1, trace, full, passed, was, backend);
        }
      }
      assert ok ==> Awaited(Since(trace), passed, backend);
      if ok && backend != INIT_WAIT {
        ok, troubles := false, troubles + 1;
      }
      if !ok && full {
        watches := {};
      }
    }

    /** A page, a grant and an event channel for the ring, or none of them. */
    method AllocRing() returns (ok: bool)
      requires Held() && NoRing()
      modifies `sharedRing, `ringGrantRef, `evtchnPort, `pages, `grants, `ports, `troubles
      ensures troubles >= old(troubles) && (!ok ==> troubles > old(troubles))
      ensures Held() && if ok then RingHeld() else NoRing()
    {
      ok := *;
      if !ok {
        troubles := troubles + 1;
        return;
      }
      sharedRing, pages := true, pages + 1;
      var ref: int;
      ok, ref := *, *;
      ok := ok && ref != 0;
      if ok {
        ringGrantRef, grants := ref, grants + {ref};
        var port: int;
        ok, port := *, *;
        ok := ok && port != 0;
        if ok {
          evtchnPort, ports := port, ports + {port};
          return;
        }
        if ringGrantRef != 0 {
          grants := grants - {ringGrantRef};
          ringGrantRef := 0;
        }
      }
      sharedRing, pages, troubles := false, pages - 1, troubles + 1;
    }

    method FreeRing()
      requires Held()
      modifies `sharedRing, `ringGrantRef, `evtchnPort, `pages, `grants, `ports
      ensures Held() && NoRing()
    {
      if evtchnPort != 0 {
        ports := ports - {evtchnPort};
        evtchnPort := 0;
      }
      if ringGrantRef != 0 {
        grants := grants - {ringGrantRef};
        ringGrantRef := 0;
      }
      if sharedRing {
        pages := pages - 1;
        sharedRing := false;
      }
    }

    /** Publishes the ring in a transaction, which is repeated for as long as XenStore asks for it. */
    method WriteRing() returns (ok: bool)
      requires Heard() && Lawful(trace, full)
      modifies `script, `trace, `troubles
      ensures Heard() && Lawful(trace, full) && old(trace) <= trace && LastWrite(trace) == LastWrite(old(trace))
      ensures troubles >= old(troubles) && (!ok ==> troubles > old(troubles) && Refused(trace))
      ensures ok ==> Committed(Since(trace)) && RingPublished(trace, full, evtchnPort, ringGrantRef)
    {
      hide Heard, Lawful, Since, LastWrite, Quiet, RingPublished;
      while true
        invariant Heard() && Lawful(trace, full) && old(trace) <= trace && LastWrite(trace) == LastWrite(old(trace))
        invariant troubles == old(troubles)
        decreases |script|
      {
        ghost var t0 := trace;
        var r := WriteRingNodes();
        QuietIs(t0, trace, full);
        if !r.Value? {
          assert trace[|t0|..][|trace| - |t0| - 1] == trace[|trace| - 1];
          return false;
        }
        ghost var t1 := trace;
        EndQuietly(t1, full);
        r := Ask(End(true));
        RingDone(t0, t1, full, evtchnPort, ringGrantRef, r);
        if r.Retry? {
          continue;
        }
        ok := r.Value?;
        return;
      }
    }

    /** The transaction without its end, or what of it succeeds and an abort. */
    method WriteRingNodes() returns (r: Reply)
      requires Heard()
      modifies `script, `trace, `troubles
      ensures Heard() && Quiet(old(trace), trace, full)
      ensures |script| <= |old(script)| && (r.Value? ==> |script| < |old(script)|)
      ensures if r.Value? then troubles == old(troubles) else troubles > old(troubles)
      ensures r.Value? ==> RingBegun(trace[|old(trace)|..], full, evtchnPort, ringGrantRef)
      ensures !r.Value? ==>
                var es := trace[|old(trace)|..];
                es != [] && ((|es| == 1 && !es[0].reply.Value?) || es[|es| - 1].question == End(false))
    {
      hide Heard, Lawful, Since, LastWrite, Quiet, RingPublished;
      ghost var t0 := trace;
      var questions := RingQuestions(full, evtchnPort, ringGrantRef);
      QuietSame(trace, full);
      r := AskQuietly(Begin);
      if !r.Value? {
        return;
      }
      for i := 1 to |questions| - 1
        invariant Heard() && t0 <= trace && Quiet(t0, trace, full)
        invariant |script| < |old(script)| && troubles == old(troubles) && r.Value?
        invariant AllDone(trace[|t0|..], questions[..i])
      {
        ghost var t1 := trace;
        r := AskQuietly(questions[i]);
        QuietTrans(t0, t1, trace, full);
        DoneMore(t0, t1, questions, i, r);
        if !r.Value? {
          ghost var t2 := trace;
          AbortQuietly(t2, full);
          var aborted := Ask(End(false));
          QuietTrans(t0, t2, trace, full);
          return;
        }
      }
    }

    /** Waits for the backend to connect, or to do something else. */
    method WaitAttached() returns (ok: bool, backend: int)
      requires Heard() && Lawful(trace, full) && Since(trace) == []
      modifies `script, `trace, `troubles
      ensures Heard() && Quiet(old(trace), trace, full)
      ensures troubles >= old(troubles) && (!ok ==> troubles > old(troubles) && Refused(trace))
      ensures ok ==> Awaited(Since(trace), {INITIALISING, INIT_WAIT, INITIALISED}, backend)
    {
      hide Heard, Lawful, Since, LastWrite, Quiet, Waited, RingPublished, Reading, Awaited;
      ghost var t0, passed := trace, {INITIALISING, INIT_WAIT, INITIALISED};
      ok, backend := WaitState(UNKNOWN);
      if ok {
        AwaitMore(t0, trace, full, passed, UNKNOWN, backend);
      }
      while ok && (backend == INIT_WAIT || backend == INITIALISING || backend == INITIALISED)
        invariant troubles >= old(troubles) && (!ok ==> troubles > old(troubles) && Refused(trace))
        invariant Heard() && Quiet(t0, trace, full) && (ok ==> Reading(Since(trace), passed, backend))
        decreases ok, |script|
      {
        ghost var t1, was := trace, backend;
        ok, backend := WaitState(backend);
        QuietTrans(t0, t1, trace, full);
        if ok {
          AwaitMore(t1, trace, full, passed, was, backend);
        }
      }
      if ok {
        AwaitedIs(Since(trace), passed, backend);
      }
    }

    /** Makes the ring, publishes it and waits for the backend to connect. */
    method Connect() returns (ok: bool)
      requires Heard() && Lawful(trace, full) && LastWrite(trace).Wrote(INITIALISING) && Held() && NoRing()
      modifies `script, `trace, `sharedRing, `ringGrantRef, `evtchnPort, `pages, `grants, `ports, `troubles
      ensures Heard() && Lawful(trace, full) && Held() && old(trace) <= trace
      ensures troubles >= old(troubles) && (!ok ==> troubles > old(troubles))
      ensures !ok ==>
                || trace == old(trace) || Refused(trace)
                || exists s :: s != CONNECTED && Awaited(Since(trace), {INITIALISING, INIT_WAIT, INITIALISED}, s)
      ensures if ok then
                && RingHeld() && LastWrite(trace).Wrote(CONNECTED)
                && RingPublished(trace, full, evtchnPort, ringGrantRef)
              else NoRing()
    {
      hide Heard, Lawful, Since, LastWrite, Quiet, Waited, RingPublished, Committed, Reading, Awaited, Refused;
      ok := AllocRing();
      if !ok {
        return;
      }
      ok := WriteRing();
      if ok {
        ok := PublishState(INITIALISED);
      } else {
        FreeRing();
        return;
      }
      var backend := UNKNOWN;
      if ok {
        ghost var t1 := trace;
        ok, backend := WaitAttached();
        QuietIs(t1, trace, full);
      }
      if ok && backend != CONNECTED {
        ok, troubles := false, troubles + 1;
      }
      if ok {
        ok := PublishState(CONNECTED);
      }
      if !ok {
        FreeRing();
      }
    }

    /** Closing after a failure, or on the way down. */
    method CloseOrInvalid() returns (ok: bool)
      requires Heard() && Lawful(trace, full) && Held() && NoRing() && !connected && (full || watches == {})
      modifies `state, `script, `trace, `watches, `troubles
      ensures old(trace) <= trace
      ensures troubles >= old(troubles) && (!ok ==> troubles > old(troubles))
      ensures Valid() && state == if ok then CLOSED_MODE else INVALID
    {
      hide Lawful, Since, LastWrite, RingPublished, Heard, Shut, Saw;
      ok := Close();
      state := if ok then CLOSED_MODE else INVALID;
    }

    method GetPrepared() returns (failed: bool)
      requires Valid() && state == CLOSED_MODE
      modifies this
      ensures Valid() && troubles >= old(troubles) && (failed ==> troubles > old(troubles))
      ensures if failed then state == CLOSED_MODE || state == INVALID else state == PREPARED
      ensures old(trace) <= trace
    {
      hide Lawful, Since, LastWrite, RingPublished, Heard, Saw;
      var prepared := Prepare();
      if prepared {
        state := PREPARED;
      } else {
        var closed := CloseOrInvalid();
      }
      failed := !prepared;
    }

    method GetConnected() returns (failed: bool)
      requires Valid() && state == PREPARED
      modifies this
      ensures Valid() && troubles >= old(troubles) && (failed ==> troubles > old(troubles))
      ensures if failed then state == CLOSED_MODE || state == INVALID else state == CONNECTED_MODE
      ensures old(trace) <= trace
    {
      hide Lawful, Since, LastWrite, RingPublished, Heard, Saw;
      var attached := Connect();
      if attached {
        state := CONNECTED_MODE;
      } else {
        var closed := CloseOrInvalid();
      }
      failed := !attached;
    }

    /** One step on the way to a state, or a failure. */
    method Step(target: Mode) returns (failed: bool)
      requires Valid() && state != target
      modifies this
      ensures Valid() && troubles >= old(troubles)
      ensures !failed ==> Distance(state, target) < Distance(old(state), target)
      ensures !failed ==> state != INVALID && state != INITIALIZED && old(state) != INVALID
      ensures failed ==> state != target && (troubles > old(troubles) || Hopeless(old(state), target))
      ensures failed ==>
              state == CLOSED_MODE || state == INVALID
                  || (state == old(state) && (state == INITIALIZED || Hopeless(state, target)))
      ensures Hopeless(old(state), target) ==> failed && state == old(state)
    {
      hide Lawful, Since, LastWrite, RingPublished, Heard, Shut, Saw;
      failed := false;
      match state {
        case INITIALIZED =>
          if target == INVALID {
            failed := true;
          } else {
            var closed := Close();
            if closed {
              state := CLOSED_MODE;
            } else {
              failed := true;
            }
          }
        case CLOSED_MODE =>
          if target == PREPARED || target == CONNECTED_MODE || target == ENABLED {
            failed := GetPrepared();
          } else {
            failed := true;
          }
        case PREPARED =>
          if target == CONNECTED_MODE || target == ENABLED {
            failed := GetConnected();
          } else if target == CLOSED_MODE {
            var closed := CloseOrInvalid();
            failed := !closed;
          } else {
            failed := true;
          }
        case CONNECTED_MODE =>
          if target == ENABLED {
            connected := true;
            state := ENABLED;
          } else if target == CLOSED_MODE || target == PREPARED {
            failed := CloseConnected();
          } else {
            failed := true;
          }
        case ENABLED =>
          if target == CLOSED_MODE || target == PREPARED || target == CONNECTED_MODE {
            connected := false;
            state := CONNECTED_MODE;
          } else {
            failed := true;
          }
        case INVALID =>
          failed := true;
      }
    }

    lemma IdleHoldsNothing()
      requires Valid()
      ensures state == CLOSED_MODE || state == INVALID || state == INITIALIZED ==> NoRing() && !connected
    {
    }

    /** Moves to a state, step by step, until it is reached or a step fails. */
    method SetState(target: Mode) returns (ok: bool)
      requires Valid()
      modifies this
      ensures Valid() && (ok <==> state == target)
      ensures Hopeless(old(state), target) ==> state == old(state)
      ensures state == INITIALIZED ==> old(state) == INITIALIZED
      ensures !ok ==> state == old(state) || state == CLOSED_MODE || state == INVALID
      ensures !ok ==> troubles > old(troubles) || Hopeless(old(state), target)
      ensures troubles >= old(troubles)
      ensures target == CLOSED_MODE ==> NoRing() && !connected
    {
      hide Valid;
      var failed := false;
      while !failed && state != target
        invariant Valid() && (failed ==> state != target) && troubles >= old(troubles)
        invariant Hopeless(old(state), target) ==> state == old(state)
        invariant state == INITIALIZED ==> old(state) == INITIALIZED
        invariant !failed && state == INVALID ==> old(state) == INVALID
        invariant failed ==> troubles > old(troubles) || Hopeless(old(state), target)
        invariant failed ==> state == old(state) || state == CLOSED_MODE || state == INVALID
        invariant failed && target == CLOSED_MODE ==> state == CLOSED_MODE || state == INVALID || state == INITIALIZED
        decreases if failed then 0 else 1 + Distance(state, target)
      {
        failed := Step(target);
      }
      ok := !failed;
      IdleHoldsNothing();
    }

    /** The crash dump driver frees the ring before it closes, the full driver afterwards. */
    method CloseConnected() returns (failed: bool)
      requires Valid() && state == CONNECTED_MODE
      modifies this
      ensures Valid() && state == if failed then INVALID else CLOSED_MODE
      ensures troubles >= old(troubles) && (failed ==> troubles > old(troubles))
    {
      hide Lawful, Since, LastWrite, RingPublished, Heard, Shut, Saw;
      if !full {
        FreeRing();
      }
      var closed := Close();
      if full {
        FreeRing();
      }
      state := if closed then CLOSED_MODE else INVALID;
      failed := !closed;
    }

    /** What happens around a suspend: down to closed, and back to the old state. It fails unless both
        halves succeed, which they never do for a frontend that was not yet closed. */
    method SuspendLate() returns (ok: bool)
      requires Valid()
      modifies this
      ensures Valid() && (ok ==> state == old(state))
      ensures old(state) == INITIALIZED || old(state) == INVALID ==> !ok
      ensures !ok ==> state == old(state) || state == CLOSED_MODE || state == INVALID
      ensures !ok ==> troubles > old(troubles) || old(state) == INITIALIZED || old(state) == INVALID
    {
      hide Valid;
      var saved := state;
      var down := SetState(CLOSED_MODE);
      var up := SetState(saved);
      ok := down && up;
    }
  }

  function AllWatches(): set<string> {
    {"state", "info", "sector-size", "sectors"}
  }

  /** No way leads from an invalid frontend anywhere, or back to the states before the first close. */
  predicate Hopeless(from: Mode, to: Mode) {
    from != to && (from == INVALID || to == INVALID || to == INITIALIZED)
  }

  /** How many steps lead from one state to another. */
  function Distance(from: Mode, to: Mode): nat {
    if from == to then 0 else
    match from
    case INITIALIZED =>
      if to == CLOSED_MODE then 1 else if to == PREPARED then 2 else if to == CONNECTED_MODE then 3 else 4
    case CLOSED_MODE => if to == PREPARED then 1 else if to == CONNECTED_MODE then 2 else 3
    case PREPARED => if to == ENABLED then 2 else 1
    case CONNECTED_MODE => if to == PREPARED then 2 else 1
    case ENABLED => if to == PREPARED then 3 else if to == CLOSED_MODE then 2 else 1
    case INVALID => 0
  }

  function QuestionsOf(es: seq<Exchange>): seq<Question> {
    seq(|es|, i requires 0 <= i < |es| => es[i].question)
  }

  ghost predicate Registered(es: seq<Exchange>, n: nat) {
    && |es| == n <= 4
    && forall k :: 0 <= k < n ==>
         es[k].question == Register(["state", "info", "sector-size", "sectors"][k]) && es[k].reply.Value?
  }

  function FirstWatches(n: nat): set<string> {
    (if n > 0 then {"state"} else {}) + (if n > 1 then {"info"} else {})
    + (if n > 2 then {"sector-size"} else {}) + (if n > 3 then {"sectors"} else {})
  }

  lemma NothingRegistered(t: seq<Exchange>)
    ensures Registered(t[|t|..], 0) && FirstWatches(0) == {}
  {
  }

  lemma NewWatch(n: nat)
    requires n < 4
    ensures ["state", "info", "sector-size", "sectors"][n] !in FirstWatches(n)
  {
    assert "state"[0] == 's' && "info"[0] == 'i' && |"sector-size"| == 11 && |"sectors"| == 7 && |"state"| == 5;
  }

  lemma NextWatch(es: seq<Exchange>, n: nat, r: Reply)
    requires n < 4
    ensures var w := ["state", "info", "sector-size", "sectors"][n];
            var all := [Register("state"), Register("info"), Register("sector-size"), Register("sectors")];
            && FirstWatches(n + 1) == FirstWatches(n) + {w}
            && (Registered(es, n) && r.Value? ==> Registered(es + [Exchange(Register(w), r)], n + 1))
            && (Registered(es, n) && !r.Value? ==> Asked(es + [Exchange(Register(w), r)], all, false))
  {
  }

  /** The three parts together. */
  lemma PathsAsked(t0: seq<Exchange>, t1: seq<Exchange>, t2: seq<Exchange>, t3: seq<Exchange>, full: bool, ok: bool)
    requires t0 <= t1 <= t2 <= t3
    requires !full ==> t2 == t1 == t0
    requires full ==> QuestionsOf(t1[|t0|..]) == [Read("backend-id"), Read("backend")]
    requires full && t1[|t1| - 1].reply.Value? ==>
               Asked(t2[|t1|..], [Register("state"), Register("info"), Register("sector-size"), Register("sectors")],
                     t3 != t2)
    requires full && !t1[|t1| - 1].reply.Value? ==> t3 == t2 == t1 && !ok
    requires full && t3 == t2 ==> !ok
    requires t3 != t2 || !full ==> Asked(t3[|t2|..], [Put("frontend"), Put("device"), Put("filter")], ok)
    ensures var es := t3[|t0|..];
      && (ok ==> QuestionsOf(es) == PathQuestions(full))
      && (!ok ==> es != [] && QuestionsOf(es) <= PathQuestions(full) && !es[|es| - 1].reply.Value?)
  {
    hide Asked, QuestionsOf;
    QuestionsJoin(t0, t1, t2);
    QuestionsJoin(t0, t2, t3);
    NoQuestions(t0);
    NoQuestions(t1);
    NoQuestions(t2);
    if t3 != t2 || !full {
      AskedQuestions(t3[|t2|..], [Put("frontend"), Put("device"), Put("filter")], ok);
    }
    if full && t1[|t1| - 1].reply.Value? {
      AskedQuestions(t2[|t1|..], [Register("state"), Register("info"), Register("sector-size"), Register("sectors")],
                     t3 != t2);
    }
  }

  lemma Tail<T>(a: seq<T>, b: seq<T>)
    ensures (a + b)[|a|..] == b
  {
  }

  lemma NoQuestions(t: seq<Exchange>)
    ensures QuestionsOf(t[|t|..]) == []
  {
  }

  lemma AllRegistered(es: seq<Exchange>)
    requires Registered(es, 4)
    ensures Asked(es, [Register("state"), Register("info"), Register("sector-size"), Register("sectors")], true)
  {
  }

  lemma QuestionsJoin(t0: seq<Exchange>, t1: seq<Exchange>, t2: seq<Exchange>)
    requires t0 <= t1 <= t2
    ensures QuestionsOf(t2[|t0|..]) == QuestionsOf(t1[|t0|..]) + QuestionsOf(t2[|t1|..])
  {
  }

  lemma AskedQuestions(es: seq<Exchange>, questions: seq<Question>, ok: bool)
    requires Asked(es, questions, ok)
    ensures QuestionsOf(es) <= questions && (ok ==> QuestionsOf(es) == questions) && es != []
    ensures !ok ==> !es[|es| - 1].reply.Value?
  {
  }

  /** What is read, watched and written before the frontend announces itself. */
  function PathQuestions(full: bool): seq<Question> {
    (if full then
       [Read("backend-id"), Read("backend"), Register("state"), Register("info"), Register("sector-size"),
        Register("sectors")]
     else [])
    + [Put("frontend"), Put("device"), Put("filter")]
  }

  /** These questions have been asked in order, up to the first that failed. */
  ghost predicate Asked(es: seq<Exchange>, questions: seq<Question>, ok: bool) {
    && 0 < |es| <= |questions|
    && (forall k :: 0 <= k < |es| ==> es[k].question == questions[k])
    && (forall k :: 0 <= k < |es| - 1 ==> es[k].reply.Value?)
    && (ok <==> es[|es| - 1].reply.Value?) && (ok ==> |es| == |questions|)
  }

  // ---------------------------------------------------------------- waiting

  /** The state has been read and is still the same. The full driver sets a watch first. */
  ghost predicate Waiting(es: seq<Exchange>, full: bool, before: int) {
    var first := if full then 1 else 0;
    && |es| >= first
    && (full ==> es[0].question == Register("state") && es[0].reply.Value?)
    && forall k :: first <= k < |es| ==> es[k] == Exchange(ReadState, Value(before))
  }

  /** A wait: the state read last is another than before, or could not be read; those read until then are
      the same as before. */
  ghost predicate Waited(es: seq<Exchange>, full: bool, before: int, ok: bool, now: int) {
    && es != []
    && (ok <==> es[|es| - 1].question.ReadState? && es[|es| - 1].reply.Value?)
    && (ok ==> es[|es| - 1].reply == Value(now) && now != before)
    && (if full && |es| == 1 then !ok && es[0].question == Register("state")
        else Waiting(es[..|es| - 1], full, before) && es[|es| - 1].question.ReadState?)
  }

  lemma SawIt(events: seq<Exchange>, s: int)
    requires Exchange(ReadState, Value(s)) in events
    ensures Saw(events, s)
  {
  }

  lemma WatchFailed(t0: seq<Exchange>, t1: seq<Exchange>, before: int, now: int)
    requires |t1| == |t0| + 1 && t0 <= t1
    requires t1[|t0|].question == Register("state") && !t1[|t0|].reply.Value?
    ensures Waited(t1[|t0|..], true, before, false, now)
    ensures Waited(t1[|t0|..], true, before, false, UNKNOWN)
  {
  }

  /** A wait that is still going on, and one that has come to an end. */
  ghost predicate OnHold(t0: seq<Exchange>, t: seq<Exchange>, full: bool, before: int) {
    Quiet(t0, t, full) && Waiting(t[|t0|..], full, before)
  }

  ghost predicate Moved(t0: seq<Exchange>, t: seq<Exchange>, full: bool, before: int, now: int) {
    && Quiet(t0, t, full) && Waited(t[|t0|..], full, before, true, now) && now != before
    && Saw(Since(t), now) && t != [] && t[|t| - 1] == Exchange(ReadState, Value(now))
  }

  lemma MovedFacts(t0: seq<Exchange>, t: seq<Exchange>, full: bool, before: int, now: int)
    requires Moved(t0, t, full, before, now)
    ensures t0 <= t && Quiet(t0, t, full) && Waited(t[|t0|..], full, before, true, now) && now != before
    ensures Saw(Since(t), now) && t != [] && t[|t| - 1] == Exchange(ReadState, Value(now))
  {
    hide Waited, Since, Saw, Lawful;
  }

  lemma HoldStarts(t0: seq<Exchange>, t: seq<Exchange>, full: bool, before: int)
    requires !full ==> t == t0
    requires full ==> Quiet(t0, t, full) && |t| == |t0| + 1 && t[|t0|].question == Register("state")
    requires full ==> t[|t0|].reply.Value?
    ensures OnHold(t0, t, full, before)
  {
    hide Lawful, Since, LastWrite, RingPublished;
    QuietSame(t, full);
  }

  lemma HoldGoes(t0: seq<Exchange>, t1: seq<Exchange>, full: bool, before: int, r: Reply)
    requires OnHold(t0, t1, full, before)
    ensures var t := t1 + [Exchange(ReadState, r)];
            && t0 <= t && Quiet(t0, t, full)
            && if !r.Value? then Waited(t[|t0|..], full, before, false, UNKNOWN)
               else if r.v == before then OnHold(t0, t, full, before)
               else Moved(t0, t, full, before, r.v)
  {
    hide Quiet, Since, Saw, Waiting, Waited;
    var e := Exchange(ReadState, r);
    QuietIs(t0, t1, full);
    QuietStep(t1, full, e);
    QuietTrans(t0, t1, t1 + [e], full);
    WaitGoes(t0, t1, full, before, r);
    if r.Value? {
      SawIt(Since(t1 + [e]), r.v);
    }
  }

  lemma WaitGoes(t0: seq<Exchange>, t1: seq<Exchange>, full: bool, before: int, r: Reply)
    requires t0 <= t1 && Waiting(t1[|t0|..], full, before)
    ensures var es := (t1 + [Exchange(ReadState, r)])[|t0|..];
            if !r.Value? then Waited(es, full, before, false, UNKNOWN)
            else if r.v == before then Waiting(es, full, before)
            else Waited(es, full, before, true, r.v)
  {
    var es := (t1 + [Exchange(ReadState, r)])[|t0|..];
    assert es[..|es| - 1] == t1[|t0|..];
  }

  lemma QuietIs(before: seq<Exchange>, after: seq<Exchange>, full: bool)
    requires Quiet(before, after, full)
    ensures before <= after && LastWrite(after) == LastWrite(before)
    ensures Lawful(before, full) ==> Lawful(after, full)
    ensures forall s :: Saw(Since(before), s) ==> Saw(Since(after), s)
    ensures forall port, ref :: RingPublished(before, full, port, ref) ==> RingPublished(after, full, port, ref)
  {
    hide Lawful, Since, LastWrite, RingPublished;
    forall s | Saw(Since(before), s) ensures Saw(Since(after), s) {
      var e :| e in Since(before) && e.Sees(s);
      assert e in Since(after);
    }
  }

  /** Waiting goes on. */
  lemma AwaitMore(t1: seq<Exchange>, t2: seq<Exchange>, full: bool, passed: set<int>, before: int, now: int)
    requires Quiet(t1, t2, full) && Waited(t2[|t1|..], full, before, true, now)
             && (before in passed || before == UNKNOWN)
    requires Since(t1) == [] || Reading(Since(t1), passed, before)
    ensures Reading(Since(t2), passed, now)
  {
    hide Lawful, LastWrite, RingPublished, Since;
    var es, more := Since(t1), t2[|t1|..];
    var all := es + more;
    assert Since(t2) == all;
    forall k | 0 <= k < |all| - 1 && all[k].question.ReadState?
      ensures all[k].reply.Value? && (all[k].reply.v in passed || all[k].reply.v == UNKNOWN)
    {
      if k >= |es| {
        assert more[..|more| - 1][k - |es|] == all[k];
      }
    }
  }

  lemma AwaitedIs(es: seq<Exchange>, passed: set<int>, s: int)
    requires Reading(es, passed, s) && s !in passed
    ensures Awaited(es, passed, s)
  {
  }

  lemma QuietSaw(before: seq<Exchange>, after: seq<Exchange>, full: bool, s: int)
    requires Quiet(before, after, full) && Saw(Since(before), s) && Lawful(before, full)
    ensures Saw(Since(after), s) && Lawful(after, full) && before <= after
  {
    hide Lawful, Since, LastWrite, RingPublished;
    QuietIs(before, after, full);
  }

  // ---------------------------------------------------------------- closing

  ghost predicate Sees(es: seq<Exchange>, s: int) {
    exists e :: e in es && e.Sees(s)
  }

  ghost predicate Writes(es: seq<Exchange>, s: int) {
    exists e :: e in es && e.question == WriteState(s)
  }

  /** A closing backend has been answered with Closed, any other with Closing or Closed; nothing is due to
      one that has no state, is initialising or closed, or whose state is this one. */
  ghost predicate ShutBut(es: seq<Exchange>, last: int) {
    forall e :: e in es && e.question.ReadState? && e.reply.Value? ==>
      var s := e.reply.v;
      || s == last || s == UNKNOWN || s == INITIALISING || s == CLOSED
      || Writes(es, CLOSED) || (s != CLOSING && Writes(es, CLOSING))
  }

  ghost predicate Shut(es: seq<Exchange>) {
    forall e :: e in es && e.question.ReadState? && e.reply.Value? && e.reply.v !in {0, 1, 6} ==>
      || (exists w :: w in es && w.question == WriteState(6))
      || (e.reply.v != 5 && exists w :: w in es && w.question == WriteState(5))
  }

  lemma ShutAtLast(es: seq<Exchange>)
    requires ShutBut(es, CLOSED)
    ensures Shut(es)
  {
  }

  lemma NothingSeen(t0: seq<Exchange>, t1: seq<Exchange>)
    requires t0 <= t1 && forall k :: |t0| <= k < |t1| ==> !t1[k].question.ReadState?
    ensures forall s :: ShutBut(t1[|t0|..], s)
  {
  }

  /** What has been read while waiting is the old state and the new one. */
  lemma WaitSees(es: seq<Exchange>, full: bool, before: int, now: int)
    requires Waited(es, full, before, true, now)
    ensures forall e :: e in es && e.question.ReadState? && e.reply.Value? ==> e.reply.v == before || e.reply.v == now
  {
    var k := |es| - 1;
    forall e | e in es && e.question.ReadState? && e.reply.Value? ensures e.reply.v == before || e.reply.v == now {
      var i :| 0 <= i < |es| && es[i] == e;
      if i < k {
        assert es[..k][i] == e;
      }
    }
  }

  lemma SeenNext(t0: seq<Exchange>, t1: seq<Exchange>, t2: seq<Exchange>, full: bool, before: int, now: int)
    requires t0 <= t1 <= t2 && ShutBut(t1[|t0|..], before) && (before == UNKNOWN || before == INITIALISING)
    requires Waited(t2[|t1|..], full, before, true, now)
    ensures ShutBut(t2[|t0|..], now)
  {
  }

  lemma SeenAfterWrite(t0: seq<Exchange>, t1: seq<Exchange>, t2: seq<Exchange>, t3: seq<Exchange>, full: bool, s: int,
                       before: int, now: int)
    requires t0 <= t1 <= t2 <= t3 && ShutBut(t1[|t0|..], before)
    requires |t2| == |t1| + 1 && t2[|t1|].question == WriteState(s)
             && (s == CLOSED || (s == CLOSING && before != CLOSING))
    requires Waited(t3[|t2|..], full, before, true, now)
    ensures ShutBut(t3[|t0|..], now)
  {
  }

  lemma MayClose(trace: seq<Exchange>, backend: int)
    requires trace != [] && trace[|trace| - 1] == Exchange(ReadState, Value(backend))
    requires backend != CLOSING && backend != CLOSED
    ensures MayWrite(CLOSING, trace)
  {
  }

  lemma MayShut(trace: seq<Exchange>, backend: int)
    requires trace != [] && trace[|trace| - 1] == Exchange(ReadState, Value(backend)) && backend != CLOSED
    requires backend == CLOSING || LastWrite(trace).Wrote(CLOSED)
    ensures MayWrite(CLOSED, trace)
  {
  }

  // ---------------------------------------------------------------- publishing the ring

  /** These questions have been asked, and all have been answered. */
  ghost predicate AllDone(es: seq<Exchange>, questions: seq<Question>) {
    |es| == |questions| && forall k :: 0 <= k < |es| ==> es[k].question == questions[k] && es[k].reply.Value?
  }

  lemma DoneMore(t0: seq<Exchange>, t1: seq<Exchange>, questions: seq<Question>, i: nat, r: Reply)
    requires t0 <= t1 && i < |questions| && AllDone(t1[|t0|..], questions[..i])
    ensures var es := (t1 + [Exchange(questions[i], r)])[|t0|..];
            && es == t1[|t0|..] + [Exchange(questions[i], r)]
            && (r.Value? ==> AllDone(es, questions[..i + 1]))
  {
  }

  /** All of the transaction but its end. */
  ghost predicate RingBegun(es: seq<Exchange>, full: bool, port: int, ref: int) {
    var questions := RingQuestions(full, port, ref);
    AllDone(es, questions[..|questions| - 1])
  }

  lemma AbortQuietly(trace: seq<Exchange>, full: bool)
    ensures forall r :: Quiet(trace, trace + [Exchange(End(false), r)], full)
  {
    hide Quiet;
    forall r {
      QuietStep(trace, full, Exchange(End(false), r));
    }
  }

  lemma EndQuietly(trace: seq<Exchange>, full: bool)
    ensures forall r: Reply :: !r.Value? ==> Quiet(trace, trace + [Exchange(End(true), r)], full)
  {
    hide Quiet;
    forall r: Reply | !r.Value? {
      QuietStep(trace, full, Exchange(End(true), r));
    }
  }

  lemma RingDone(t0: seq<Exchange>, t1: seq<Exchange>, full: bool, port: int, ref: int, r: Reply)
    requires t0 <= t1 && Lawful(t1, full) && RingBegun(t1[|t0|..], full, port, ref)
    ensures var t := t1 + [Exchange(End(true), r)];
            && Lawful(t, full) && LastWrite(t) == LastWrite(t1)
            && (r.Value? ==> RingPublished(t, full, port, ref) && Committed(Since(t)))
  {
    hide Lawful, LastWrite, LastCommit, Since;
    var e := Exchange(End(true), r);
    var t := t1 + [e];
    AppendFacts(t1, e);
    if r.Value? {
      assert forall k :: 0 <= k < |t1| - |t0| ==> t[|t0| + k] == t1[|t0|..][k];
      assert RingWritten(t, |t1|, full, port, ref);
      assert e in Since(t);
    }
    LawfulMore(t1, full, e);
  }
}
