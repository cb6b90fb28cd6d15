/** The block ring shared with the backend, as a state machine over single memory accesses of both
    sides. All indices are 32-bit words; the history in each state counts without bound and is
    never consulted by a step. */
module SharedRing {
  import opened Basics
  import opened Words

  datatype Answer = Answer(id: int, status: int)

  /** What a request slot holds (blkif_request): what to do, where on the disk, and for each segment
      the grant reference and the first and last sector of the page. */
  datatype Entry = Entry(id: int, operation: int, sector: nat, segments: seq<RingSegment>)

  datatype RingSegment = RingSegment(gref: int, firstSector: nat, lastSector: nat)

  datatype Slot = Empty | Req(entry: Entry) | Rsp(answer: Answer)

  /** Where the frontend is: idle, at the top of the completion loop, consuming up to a producer
      index read earlier, in the three accesses of the final check, or about to decide whether
      to notify the backend of the requests it has pushed. */
  datatype FrontPc = Idle | Top | Consume(prod: int, cons: int) | Check | SetEvent | Recheck
      | Notify(newProd: int, oldProd: int)

  /** Where the backend's request loop is. */
  datatype BackPc = Asleep | Awake | FinalSet | FinalCheck

  /** Whether the backend is about to decide whether to notify the frontend of pushed responses. */
  datatype PushPc = Quiet | Pushed(newProd: int, oldProd: int)

  /** What has happened so far, with unbounded positions. */
  datatype History = History(
    sent: seq<Entry>,        // requests inserted, in order
    published: nat,          // of these, how many the shared producer index covers
    taken: nat,              // how many the backend has read
    answered: seq<Answer>,   // responses written, in order
    pushed: nat,             // of these, how many the shared producer index covers
    completed: seq<Answer>,  // responses the frontend has read
    consumed: nat,           // how many of them its stored consumer index covers
    snap: nat,               // the response position read at the top of the loop
    reqAt: int, rspAt: int,  // the positions at which events are wanted
    frontOld: nat, backOld: nat)

  datatype State = State(
    n: int,
    reqProd: int, reqEvent: int, rspProd: int, rspEvent: int, slots: seq<Slot>,  // shared page
    reqProdPvt: int, rspCons: int, front: FrontPc,                               // frontend
    rspProdPvt: int, reqCons: int, held: multiset<int>, back: BackPc, push: PushPc,  // backend
    toFront: bool, toBack: bool,                                                 // event channel
    h: History)

  datatype Action =
    | FrontWake(interrupt: bool) | FrontRead | FrontConsume | FrontStore | FrontCheck | FrontSetEvent | FrontRecheck
    | FrontInsert(entries: seq<Entry>) | FrontPush | FrontNotify
    | BackWake(interrupt: bool) | BackTake | BackFinal | BackSetEvent | BackRecheck
    | BackAnswer(answer: Answer) | BackPush | BackNotify

  function Init(n: int): State {
    var slots := if n >= 0 then seq(n, i => Empty) else [];
    State(n, 0, 1, 0, 1, slots, 0, 0, Idle, 0, 0, multiset{}, Asleep, Quiet, false, false,
          History([], 0, 0, [], 0, [], 0, 0, 1, 1, 0, 0))
  }

  predicate HasResponses(s: State) {
    Sub(s.rspProd, s.rspCons) > 0
  }

  predicate CanSubmit(s: State, requests: nat) {
    Sub(s.n, Sub(s.reqProdPvt, s.rspCons)) > requests
  }

  /** Requests to take, unless taking one could overrun the responses. */
  predicate HasRequests(s: State) {
    Sub(s.reqProd, s.reqCons) > 0 && Sub(s.n, Sub(s.reqCons, s.rspProdPvt)) > 0
  }

  function Put(slots: seq<Slot>, n: int, index: int, slot: Slot): (r: seq<Slot>)
    ensures |r| == |slots|
  {
    if 0 < n <= |slots| then slots[index % n := slot] else slots
  }

  function Get(slots: seq<Slot>, n: int, index: int): Slot {
    if 0 < n <= |slots| then slots[index % n] else Empty
  }

  function PutRequests(slots: seq<Slot>, n: int, index: int, entries: seq<Entry>): (r: seq<Slot>)
    ensures |r| == |slots|
    decreases |entries|
  {
    if entries == [] then slots else PutRequests(Put(slots, n, index, Req(entries[0])), n, W(index + 1), entries[1..])
  }

  predicate Enabled(s: State, a: Action) {
    match a
    case FrontWake(interrupt) => s.front.Idle? && (interrupt ==> s.toFront)
    case FrontRead => s.front.Top?
    case FrontConsume => s.front.Consume? && s.front.cons != s.front.prod
    case FrontStore => s.front.Consume? && s.front.cons == s.front.prod
    case FrontCheck => s.front.Check?
    case FrontSetEvent => s.front.SetEvent?
    case FrontRecheck => s.front.Recheck?
    case FrontInsert(entries) => s.front.Idle? && CanSubmit(s, |entries|)
    case FrontPush => s.front.Idle?
    case FrontNotify => s.front.Notify?
    case BackWake(interrupt) => s.back.Asleep? && (interrupt ==> s.toBack)
    case BackTake => s.back.Awake? && HasRequests(s)
    case BackFinal => s.back.Awake? && !HasRequests(s)
    case BackSetEvent => s.back.FinalSet?
    case BackRecheck => s.back.FinalCheck?
    case BackAnswer(answer) => s.push.Quiet? && answer.id in s.held
    case BackPush => s.push.Quiet?
    case BackNotify => s.push.Pushed?
  }

  function Apply(s: State, a: Action): State
    requires Enabled(s, a)
  {
    match a
    case FrontWake(interrupt) => s.(front := Top, toFront := s.toFront && !interrupt)
    case FrontRead => s.(front := Consume(s.rspProd, s.rspCons), h := s.h.(snap := s.h.pushed))
    case FrontConsume =>
      var slot := Get(s.slots, s.n, s.front.cons);
      var answer := if slot.Rsp? then slot.answer else Answer(0, 0);
      s.(front := s.front.(cons := W(s.front.cons + 1)), slots := Put(s.slots, s.n, s.front.cons, Empty),
         h := s.h.(completed := s.h.completed + [answer]))
    case FrontStore => s.(rspCons := s.front.cons, front := Check, h := s.h.(consumed := |s.h.completed|))
    case FrontCheck => s.(front := if HasResponses(s) then Top else SetEvent)
    case FrontSetEvent => s.(rspEvent := W(s.rspCons + 1), front := Recheck, h := s.h.(rspAt := s.h.consumed + 1))
    case FrontRecheck => s.(front := if HasResponses(s) then Top else Idle)
    case FrontInsert(entries) =>
      s.(slots := PutRequests(s.slots, s.n, s.reqProdPvt, entries), reqProdPvt := W(s.reqProdPvt + |entries|),
         h := s.h.(sent := s.h.sent + entries))
    case FrontPush =>
      s.(reqProd := s.reqProdPvt, front := Notify(s.reqProdPvt, s.reqProd),
         h := s.h.(frontOld := s.h.published, published := |s.h.sent|))
    case FrontNotify =>
      s.(front := Idle, toBack := s.toBack || Crosses(s.front.newProd, s.reqEvent, s.front.oldProd))
    case BackWake(interrupt) => s.(back := Awake, toBack := s.toBack && !interrupt)
    case BackTake =>
      var slot := Get(s.slots, s.n, s.reqCons);
      s.(held := s.held + multiset{if slot.Req? then slot.entry.id else 0}, reqCons := W(s.reqCons + 1),
         h := s.h.(taken := s.h.taken + 1))
    case BackFinal => s.(back := FinalSet)
    case BackSetEvent => s.(reqEvent := W(s.reqCons + 1), back := FinalCheck, h := s.h.(reqAt := s.h.taken + 1))
    case BackRecheck => s.(back := if HasRequests(s) then Awake else Asleep)
    case BackAnswer(answer) =>
      s.(slots := Put(s.slots, s.n, s.rspProdPvt, Rsp(answer)), rspProdPvt := W(s.rspProdPvt + 1),
         held := s.held - multiset{answer.id},
         h := s.h.(answered := s.h.answered + [answer]))
    case BackPush =>
      s.(rspProd := s.rspProdPvt, push := Pushed(s.rspProdPvt, s.rspProd),
         h := s.h.(backOld := s.h.pushed, pushed := |s.h.answered|))
    case BackNotify =>
      s.(push := Quiet, toFront := s.toFront || Crosses(s.push.newProd, s.rspEvent, s.push.oldProd))
  }

  // ---------------------------------------------------------------- the invariant

  /** The positions are ordered, and fewer requests than slots are outstanding. */
  ghost predicate Order(s: State) {
    var h := s.h;
    && RingSize(s.n) && |s.slots| == s.n
    && h.consumed <= |h.completed| <= h.pushed <= |h.answered| <= h.taken <= h.published <= |h.sent|
    && |h.sent| - h.consumed < s.n
    && (s.front.Consume? ==> |h.completed| <= h.snap <= h.pushed)
    && (!s.front.Consume? ==> |h.completed| == h.consumed)
    && (s.front.Notify? ==> h.consumed <= h.frontOld <= h.published < h.frontOld + s.n)
    && (s.push.Pushed? ==> h.backOld <= h.pushed < h.backOld + s.n)
  }

  /** Every stored index is the word of its position. */
  ghost predicate Stored(s: State) {
    var h := s.h;
    && s.reqProdPvt == W(|h.sent|) && s.reqProd == W(h.published) && s.reqCons == W(h.taken) && s.reqEvent == W(h.reqAt)
    && s.rspProdPvt == W(|h.answered|) && s.rspProd == W(h.pushed) && s.rspCons == W(h.consumed)
       && s.rspEvent == W(h.rspAt)
    && (s.front.Consume? ==> s.front.prod == W(h.snap) && s.front.cons == W(|h.completed|))
    && (s.front.Notify? ==> s.front.newProd == W(h.published) && s.front.oldProd == W(h.frontOld))
    && (s.push.Pushed? ==> s.push.newProd == W(h.pushed) && s.push.oldProd == W(h.backOld))
  }

  /** Responses not yet read and requests not yet taken are in their slots. */
  ghost predicate Slots(s: State)
    requires Order(s)
  {
    var h := s.h;
    && (forall p :: |h.completed| <= p < |h.answered| ==> s.slots[p % s.n] == Rsp(h.answered[p]))
    && (forall p :: h.taken <= p < |h.sent| ==> s.slots[p % s.n] == Req(h.sent[p]))
  }

  function Ids(answers: seq<Answer>): seq<int> {
    if answers == [] then [] else Ids(answers[..|answers| - 1]) + [answers[|answers| - 1].id]
  }

  function EntryIds(entries: seq<Entry>): seq<int> {
    seq(|entries|, i requires 0 <= i < |entries| => entries[i].id)
  }

  /** Every request taken has been answered or is in the backend's hands. */
  ghost predicate Accounts(s: State)
    requires Order(s)
  {
    multiset(EntryIds(s.h.sent[..s.h.taken])) == multiset(Ids(s.h.answered)) + s.held
  }

  /** The frontend has read the responses in the order in which they were written. */
  ghost predicate InOrder(s: State)
    requires Order(s)
  {
    s.h.completed == s.h.answered[..|s.h.completed|]
  }

  /** A frontend outside its completion loop wants an event for the next response, and a response
      it has not seen has been or will be notified. */
  ghost predicate FrontWakes(s: State) {
    s.front.Idle? || s.front.Notify? || s.front.Recheck? ==>
      && s.h.rspAt == s.h.consumed + 1
      && (s.h.pushed > s.h.consumed ==>
          s.toFront || s.front.Recheck? || (s.push.Pushed? && s.h.backOld <= s.h.consumed))
  }

  ghost predicate BackWakes(s: State) {
    s.back.Asleep? || s.back.FinalCheck? ==>
      && s.h.reqAt == s.h.taken + 1
      && (s.h.published > s.h.taken ==>
          s.toBack || s.back.FinalCheck? || (s.front.Notify? && s.h.frontOld <= s.h.taken))
  }

  ghost predicate Inv(s: State) {
    Order(s) && Stored(s) && Slots(s) && Accounts(s) && InOrder(s) && FrontWakes(s) && BackWakes(s)
  }

  // ---------------------------------------------------------------- every step keeps it

  /** What the tests on words say about the positions. */
  lemma Tests(s: State)
    requires Order(s) && Stored(s)
    ensures HasResponses(s) <==> s.h.pushed > s.h.consumed
    ensures HasRequests(s) <==> s.h.published > s.h.taken
    ensures forall k: nat :: CanSubmit(s, k) <==> |s.h.sent| - s.h.consumed + k < s.n
    ensures s.front.Consume? ==> (s.front.cons == s.front.prod <==> |s.h.completed| == s.h.snap)
  {
    hide W, Sub, Slots, Put, Get, RingSize;
    var h := s.h;
    RingSizeBound(s.n);
    SubExact(h.pushed, h.consumed);
    SubExact(h.published, h.taken);
    SubExact(h.taken, |h.answered|);
    SubSmall(s.n, h.taken - |h.answered|);
    SubExact(|h.sent|, h.consumed);
    SubSmall(s.n, |h.sent| - h.consumed);
    if s.front.Consume? {
      SubExact(h.snap, |h.completed|);
      SubExact(h.snap, h.snap);
    }
  }

  predicate ByFrontend(a: Action) {
    a.FrontWake? || a.FrontRead? || a.FrontConsume? || a.FrontStore? || a.FrontCheck? || a.FrontSetEvent?
        || a.FrontRecheck?
    || a.FrontInsert? || a.FrontPush? || a.FrontNotify?
  }

  /** The steps of the frontend that read. */
  lemma CompletionOrder(s: State, a: Action)
    requires Order(s) && Stored(s) && Enabled(s, a) && ByFrontend(a)
    requires !a.FrontInsert? && !a.FrontPush? && !a.FrontNotify?
    ensures Order(Apply(s, a)) && Stored(Apply(s, a))
  {
    hide Put, PutRequests, Get, W, Sub, RingSize, CanSubmit, HasRequests, HasResponses, Crosses;
    Tests(s);
    Increment(|s.h.completed|, 1);
    Increment(s.h.consumed, 1);
  }

  /** The steps of the frontend that submit. */
  lemma SubmissionOrder(s: State, a: Action)
    requires Order(s) && Stored(s) && Enabled(s, a) && (a.FrontInsert? || a.FrontPush? || a.FrontNotify?)
    ensures Order(Apply(s, a)) && Stored(Apply(s, a))
  {
    hide Put, PutRequests, Get, W, Sub, RingSize, CanSubmit, HasRequests, HasResponses, Crosses;
    Tests(s);
    Increment(|s.h.sent|, if a.FrontInsert? then |a.entries| else 0);
  }

  lemma BackendOrder(s: State, a: Action)
    requires Order(s) && Stored(s) && Enabled(s, a) && !ByFrontend(a)
    requires a.BackAnswer? ==> |s.h.answered| < s.h.taken
    ensures Order(Apply(s, a)) && Stored(Apply(s, a))
  {
    hide Put, PutRequests, Get, W, Sub, RingSize, CanSubmit, HasRequests, HasResponses, Crosses;
    Tests(s);
    Increment(|s.h.answered|, 1);
    Increment(s.h.taken, 1);
  }

  lemma StepOrder(s: State, a: Action)
    requires Order(s) && Stored(s) && Enabled(s, a)
    requires a.BackAnswer? ==> |s.h.answered| < s.h.taken
    ensures Order(Apply(s, a)) && Stored(Apply(s, a))
  {
    hide Order, Stored, Enabled, Apply;
    if !ByFrontend(a) {
      BackendOrder(s, a);
    } else if a.FrontInsert? || a.FrontPush? || a.FrontNotify? {
      SubmissionOrder(s, a);
    } else {
      CompletionOrder(s, a);
    }
  }

  lemma PutAt(slots: seq<Slot>, n: int, x: int, slot: Slot)
    requires RingSize(n) && |slots| == n && 0 <= x
    ensures 0 <= x % n < n && Put(slots, n, W(x), slot) == slots[x % n := slot] && Get(slots, n, W(x)) == slots[x % n]
  {
    SlotOfWord(x, n);
  }

  lemma OtherSlot(n: int, x: int, y: int)
    requires RingSize(n) && 0 <= x && 0 <= y && x != y && -n < x - y < n
    ensures x % n != y % n
  {
    hide RingSize;
    if x < y {
      DifferentSlots(x, y, n);
    } else {
      DifferentSlots(y, x, n);
    }
  }

  lemma {:induction false} PutRequestsAt(slots: seq<Slot>, n: int, x: int, entries: seq<Entry>)
    requires RingSize(n) && |slots| == n && 0 <= x && |entries| <= n
    ensures forall p :: x <= p < x + |entries| ==> PutRequests(slots, n, W(x), entries)[p % n] == Req(entries[p - x])
    ensures forall p :: 0 <= p < x && x + |entries| <= p + n ==>
            PutRequests(slots, n, W(x), entries)[p % n] == slots[p % n]
    decreases |entries|
  {
    hide W, Put, RingSize;
    if entries != [] {
      PutAt(slots, n, x, Req(entries[0]));
      var next := Put(slots, n, W(x), Req(entries[0]));
      Increment(x, 1);
      PutRequestsAt(next, n, x + 1, entries[1..]);
      var r := PutRequests(next, n, W(x + 1), entries[1..]);
      assert PutRequests(slots, n, W(x), entries) == r;
      assert r[x % n] == Req(entries[0]);
      forall p | 0 <= p < x && x + |entries| <= p + n ensures r[p % n] == slots[p % n] {
        OtherSlot(n, x, p);
      }
    }
  }

  lemma ConsumeSlots(s: State)
    requires Order(s) && Stored(s) && Slots(s) && Enabled(s, FrontConsume)
    ensures Order(Apply(s, FrontConsume)) && Slots(Apply(s, FrontConsume))
  {
    hide Put, PutRequests, Get, W, Sub, RingSize;
    StepOrder(s, FrontConsume);
    Tests(s);
    var n, x, t := s.n, |s.h.completed|, Apply(s, FrontConsume);
    PutAt(s.slots, n, x, Empty);
    forall p | x < p < |s.h.sent| ensures t.slots[p % n] == s.slots[p % n] {
      OtherSlot(n, x, p);
    }
  }

  lemma InsertSlots(s: State, entries: seq<Entry>)
    requires Order(s) && Stored(s) && Slots(s) && Enabled(s, FrontInsert(entries))
    ensures Order(Apply(s, FrontInsert(entries))) && Slots(Apply(s, FrontInsert(entries)))
  {
    hide Put, PutRequests, Get, W, Sub, RingSize;
    StepOrder(s, FrontInsert(entries));
    Tests(s);
    PutRequestsAt(s.slots, s.n, |s.h.sent|, entries);
  }

  lemma AnswerSlots(s: State, answer: Answer)
    requires Order(s) && Stored(s) && Slots(s) && Enabled(s, BackAnswer(answer)) && |s.h.answered| < s.h.taken
    ensures Order(Apply(s, BackAnswer(answer))) && Slots(Apply(s, BackAnswer(answer)))
  {
    hide Put, PutRequests, Get, W, Sub, RingSize;
    StepOrder(s, BackAnswer(answer));
    var n, x, t := s.n, |s.h.answered|, Apply(s, BackAnswer(answer));
    PutAt(s.slots, n, x, Rsp(answer));
    forall p | |s.h.completed| <= p < |s.h.sent| && p != x ensures t.slots[p % n] == s.slots[p % n] {
      OtherSlot(n, x, p);
    }
  }

  lemma StepSlots(s: State, a: Action)
    requires Order(s) && Stored(s) && Slots(s) && Enabled(s, a)
    requires a.BackAnswer? ==> |s.h.answered| < s.h.taken
    ensures Order(Apply(s, a)) && Slots(Apply(s, a))
  {
    hide Put, PutRequests, Get, W, Sub, RingSize, HasRequests, HasResponses, CanSubmit;
    match a
    case FrontConsume => ConsumeSlots(s);
    case FrontInsert(entries) => InsertSlots(s, entries);
    case BackAnswer(answer) => AnswerSlots(s, answer);
    case _ => StepOrder(s, a);
  }

  lemma {:induction false} IdsLength(answers: seq<Answer>)
    ensures |Ids(answers)| == |answers|
  {
    if answers != [] {
      IdsLength(answers[..|answers| - 1]);
    }
  }

  /** An answer always finds a request that has been taken, so it never overruns the requests. */
  lemma HeldRoom(s: State, id: int)
    requires Order(s) && Accounts(s) && id in s.held
    ensures |s.h.answered| < s.h.taken
  {
    IdsLength(s.h.answered);
    assert |multiset(EntryIds(s.h.sent[..s.h.taken]))| == |multiset(Ids(s.h.answered))| + |s.held|;
  }

  /** The next response to read and the next request to take are where the indices say. */
  lemma NextSlots(s: State)
    requires Order(s) && Stored(s) && Slots(s)
    ensures s.front.Consume? && s.front.cons != s.front.prod ==>
              |s.h.completed| < |s.h.answered| && Get(s.slots, s.n, s.front.cons) == Rsp(s.h.answered[|s.h.completed|])
    ensures HasRequests(s) ==> s.h.taken < |s.h.sent| && Get(s.slots, s.n, s.reqCons) == Req(s.h.sent[s.h.taken])
  {
    hide Put, Get, W, Sub, RingSize, HasRequests;
    Tests(s);
    PutAt(s.slots, s.n, |s.h.completed|, Empty);
    PutAt(s.slots, s.n, s.h.taken, Empty);
  }

  lemma TakeAccounts(s: State)
    requires Order(s) && Stored(s) && Slots(s) && Accounts(s) && Enabled(s, BackTake)
    ensures Order(Apply(s, BackTake)) && Accounts(Apply(s, BackTake))
  {
    hide Put, PutRequests, W, Sub, RingSize, HasRequests, HasResponses, CanSubmit, Get, Slots, Stored, Crosses, Ids,
         EntryIds;
    StepOrder(s, BackTake);
    NextSlots(s);
    var h := s.h;
    EntryIdsNext(h.sent, h.taken);
    TakeOne(multiset(EntryIds(h.sent[..h.taken])), multiset(Ids(h.answered)), s.held, h.sent[h.taken].id);
  }

  lemma AnswerAccounts(s: State, answer: Answer)
    requires Order(s) && Stored(s) && Accounts(s) && Enabled(s, BackAnswer(answer))
    ensures Order(Apply(s, BackAnswer(answer))) && Accounts(Apply(s, BackAnswer(answer)))
  {
    hide Put, PutRequests, W, Sub, RingSize, HasRequests, HasResponses, CanSubmit, Get, Slots, Stored, Crosses, Ids,
         EntryIds;
    HeldRoom(s, answer.id);
    StepOrder(s, BackAnswer(answer));
    IdsAppend(s.h.answered, answer);
    AnswerOne(multiset(Ids(s.h.answered)), s.held, answer.id);
  }

  lemma StepAccounts(s: State, a: Action)
    requires Order(s) && Stored(s) && Slots(s) && Accounts(s) && Enabled(s, a)
    ensures Order(Apply(s, a)) && Accounts(Apply(s, a))
  {
    hide Put, PutRequests, W, Sub, RingSize, HasRequests, HasResponses, CanSubmit, Get, Slots, Stored, Crosses, Ids,
         EntryIds;
    match a
    case BackTake => TakeAccounts(s);
    case BackAnswer(answer) => AnswerAccounts(s, answer);
    case FrontInsert(entries) =>
      StepOrder(s, a);
      assert (s.h.sent + entries)[..s.h.taken] == s.h.sent[..s.h.taken];
    case _ => StepOrder(s, a);
  }

  lemma EntryIdsNext(entries: seq<Entry>, k: nat)
    requires k < |entries|
    ensures EntryIds(entries[..k + 1]) == EntryIds(entries[..k]) + [entries[k].id]
  {
  }

  lemma IdsAppend(answers: seq<Answer>, answer: Answer)
    ensures Ids(answers + [answer]) == Ids(answers) + [answer.id]
  {
    assert (answers + [answer])[..|answers|] == answers;
  }

  lemma TakeOne(taken: multiset<int>, answered: multiset<int>, held: multiset<int>, id: int)
    requires taken == answered + held
    ensures taken + multiset{id} == answered + (held + multiset{id})
  {
  }

  lemma AnswerOne(answered: multiset<int>, held: multiset<int>, id: int)
    requires id in held
    ensures (answered + multiset{id}) + (held - multiset{id}) == answered + held
  {
  }

  lemma StepInOrder(s: State, a: Action)
    requires Order(s) && Stored(s) && Slots(s) && InOrder(s) && Enabled(s, a)
    requires a.BackAnswer? ==> |s.h.answered| < s.h.taken
    ensures Order(Apply(s, a)) && InOrder(Apply(s, a))
  {
    hide Put, PutRequests, W, Sub, RingSize, HasRequests, HasResponses, CanSubmit, Get, Slots, Stored, Crosses;
    StepOrder(s, a);
    NextSlots(s);
    if a.BackAnswer? {
      assert (s.h.answered + [a.answer])[..|s.h.completed|] == s.h.answered[..|s.h.completed|];
    }
  }

  lemma StepFrontWakes(s: State, a: Action)
    requires Order(s) && Stored(s) && FrontWakes(s) && Enabled(s, a)
    ensures FrontWakes(Apply(s, a))
  {
    hide Put, PutRequests, W, Sub, RingSize, HasRequests, HasResponses, CanSubmit, Get, Slots, Crosses;
    RingSizeBound(s.n);
    Tests(s);
    if a.BackNotify? && s.h.rspAt == s.h.consumed + 1 && s.h.backOld <= s.h.consumed {
      CrossesNearby(s.h.pushed, s.h.rspAt, s.h.backOld);
    }
  }

  lemma StepBackWakes(s: State, a: Action)
    requires Order(s) && Stored(s) && BackWakes(s) && Enabled(s, a)
    ensures BackWakes(Apply(s, a))
  {
    hide Put, PutRequests, W, Sub, RingSize, HasRequests, HasResponses, CanSubmit, Get, Slots, Crosses;
    RingSizeBound(s.n);
    Tests(s);
    if a.FrontNotify? && s.h.reqAt == s.h.taken + 1 && s.h.frontOld <= s.h.taken {
      CrossesNearby(s.h.published, s.h.reqAt, s.h.frontOld);
    }
  }

  // ---------------------------------------------------------------- all runs

  ghost predicate IsRun(s: State, actions: seq<Action>, t: State)
    decreases |actions|
  {
    if actions == [] then t == s
    else Enabled(s, actions[0]) && IsRun(Apply(s, actions[0]), actions[1..], t)
  }

  ghost predicate Reachable(n: int, t: State) {
    RingSize(n) && exists actions :: IsRun(Init(n), actions, t)
  }

  lemma {:induction false} RunKeepsInv(s: State, actions: seq<Action>, t: State)
    requires Inv(s) && IsRun(s, actions, t)
    ensures Inv(t) && t.n == s.n
    decreases |actions|
  {
    hide Order, Stored, Slots, Accounts, InOrder, FrontWakes, BackWakes;
    if actions != [] {
      StepSafe(s, actions[0]);
      RunKeepsInv(Apply(s, actions[0]), actions[1..], t);
    }
  }

  lemma StepSafe(s: State, a: Action)
    requires Inv(s) && Enabled(s, a)
    ensures Inv(Apply(s, a)) && Apply(s, a).n == s.n
  {
    hide Order, Stored, Slots, Accounts, InOrder, FrontWakes, BackWakes;
    if a.BackAnswer? {
      HeldRoom(s, a.answer.id);
    }
    StepOrder(s, a);
    StepSlots(s, a);
    StepAccounts(s, a);
    StepInOrder(s, a);
    StepFrontWakes(s, a);
    StepBackWakes(s, a);
  }

  lemma InitIsSafe(n: int)
    requires RingSize(n)
    ensures Inv(Init(n))
  {
  }

  lemma ReachableIsSafe(n: int, s: State)
    requires Reachable(n, s)
    ensures Inv(s) && s.n == n
  {
    hide Inv;
    var actions :| IsRun(Init(n), actions, s);
    InitIsSafe(n);
    RunKeepsInv(Init(n), actions, s);
  }

  /** No lost wakeup: when the frontend is outside its completion loop, every pushed response has
      been read, or an event is pending, or the backend is about to test rsp_event and the test
      will come out true. The same holds of a sleeping backend and the frontend's requests. */
  lemma NoLostWakeup(n: int, s: State)
    requires Reachable(n, s)
    ensures s.front.Idle? ==>
              |s.h.completed| == s.h.pushed || s.toFront
              || (s.push.Pushed? && Crosses(s.push.newProd, s.rspEvent, s.push.oldProd))
    ensures s.back.Asleep? ==>
              s.h.taken == s.h.published || s.toBack
              || (s.front.Notify? && Crosses(s.front.newProd, s.reqEvent, s.front.oldProd))
  {
    hide Crosses, W, Slots, Accounts, Reachable, RingSize;
    ReachableIsSafe(n, s);
    RingSizeBound(s.n);
    if s.push.Pushed? && s.h.rspAt == s.h.consumed + 1 && s.h.backOld <= s.h.consumed {
      CrossesNearby(s.h.pushed, s.h.rspAt, s.h.backOld);
    }
    if s.front.Notify? && s.h.reqAt == s.h.taken + 1 && s.h.frontOld <= s.h.taken {
      CrossesNearby(s.h.published, s.h.reqAt, s.h.frontOld);
    }
  }

  /** The ring is a faithful pair of queues: the frontend reads exactly the responses written, in
      order, and never an empty or foreign slot; the backend takes exactly the requests
      inserted, in order. */
  lemma FaithfulQueues(n: int, s: State)
    requires Reachable(n, s)
    ensures s.h.completed <= s.h.answered
    ensures s.front.Consume? && s.front.cons != s.front.prod ==>
              |s.h.completed| < |s.h.answered| && Get(s.slots, n, s.front.cons) == Rsp(s.h.answered[|s.h.completed|])
    ensures HasRequests(s) ==> s.h.taken < |s.h.sent| && Get(s.slots, n, s.reqCons) == Req(s.h.sent[s.h.taken])
    ensures s.h.taken <= |s.h.sent| && multiset(EntryIds(s.h.sent[..s.h.taken])) == multiset(Ids(s.h.answered)) + s.held
  {
    ReachableIsSafe(n, s);
    NextSlots(s);
  }

  /** A slot that holds nothing that anyone still has to read. */
  ghost predicate Dead(s: State, index: int)
    requires Order(s)
  {
    forall p :: (|s.h.completed| <= p < |s.h.answered| || s.h.taken <= p < |s.h.sent|) ==> p % s.n != index % s.n
  }

  lemma DeadSlot(s: State, index: int)
    requires Order(s) && |s.h.completed| <= index < s.h.consumed + s.n
    requires |s.h.answered| <= index < s.h.taken || |s.h.sent| <= index
    ensures Dead(s, index)
  {
    hide RingSize;
    forall p | |s.h.completed| <= p < |s.h.sent| && p != index ensures p % s.n != index % s.n {
      OtherSlot(s.n, index, p);
    }
  }

  /** Fewer requests than slots are ever outstanding, and no step writes to a slot that someone
      still has to read: inserting up to as many requests as CanSubmit allows, writing a
      response, and zeroing a response that has just been read. */
  lemma SlotSafety(n: int, s: State, k: nat, id: int)
    requires Reachable(n, s)
    ensures Order(s) && |s.h.sent| - s.h.consumed < n
    ensures CanSubmit(s, k) <==> |s.h.sent| + k - s.h.consumed < n
    ensures CanSubmit(s, k) ==> forall index :: |s.h.sent| <= index < |s.h.sent| + k ==> Dead(s, index)
    ensures id in s.held ==> Dead(s, |s.h.answered|)
    ensures forall p :: |s.h.completed| < p < |s.h.sent| ==> p % n != |s.h.completed| % n
  {
    hide Put, Get, W, Sub, RingSize, HasRequests, CanSubmit, Slots, Stored, Dead, Accounts, Reachable;
    ReachableIsSafe(n, s);
    Tests(s);
    if CanSubmit(s, k) {
      forall index | |s.h.sent| <= index < |s.h.sent| + k ensures Dead(s, index) {
        DeadSlot(s, index);
      }
    }
    if id in s.held {
      HeldRoom(s, id);
      DeadSlot(s, |s.h.answered|);
    }
    forall p | |s.h.completed| < p < |s.h.sent| ensures p % n != |s.h.completed| % n {
      OtherSlot(n, |s.h.completed|, p);
    }
  }
}
