/** The queue of SRBs, linked both ways through the SRBs themselves. */
module SrbQueue {
  import opened Basics

  class Srb {
    var queueHead: Queue?
    var queueNext: Srb?
    var queuePrev: Srb?

    constructor ()
      ensures queueHead == null && queueNext == null && queuePrev == null
    {
      queueHead, queueNext, queuePrev := null, null, null;
    }
  }

  class Queue {
    var head: Srb?
    var tail: Srb?
    var count: int
    var maxCount: int
    ghost var contents: seq<Srb>

    /** The links are exactly those of the sequence, in both directions. */
    ghost predicate Valid()
      reads this, contents
    {
      && head == At(contents, 0, null) && tail == At(contents, |contents| - 1, null)
      && count == |contents| <= maxCount
      && (forall i :: 0 <= i < |contents| ==> Linked(contents, i))
      && Distinct(contents)
    }

    ghost predicate Linked(q: seq<Srb>, i: nat)
      requires i < |q|
      reads q
    {
      q[i].queueHead == this && q[i].queueNext == At(q, i + 1, null) && q[i].queuePrev == At(q, i - 1, null)
    }

    /** The test that the driver asserts after every change. */
    predicate QueueValid()
      reads this
    {
      !((count == 0 && (head != null || tail != null)) || (count != 0 && (head == null || tail == null)) || count < 0)
    }

    constructor ()
      ensures Valid() && contents == []
    {
      head, tail, count, maxCount, contents := null, null, 0, 0, [];
    }

    /** The SRBs in a queue know that they are in it. */
    lemma Mine()
      requires Valid()
      ensures forall s :: s in contents ==> s.queueHead == this
    {
      forall s | s in contents ensures s.queueHead == this {
        var i :| 0 <= i < |contents| && contents[i] == s;
        assert Linked(contents, i);
      }
    }

    method InsertHead(srb: Srb)
      requires Valid() && srb.queueHead == null
      modifies this, srb, contents
      ensures Valid() && contents == [srb] + old(contents) && QueueValid()
      ensures maxCount == if |contents| > old(maxCount) then |contents| else old(maxCount)
    {
      hide Distinct;
      ghost var q := contents;
      assert srb !in q by { Mine(); }
      DistinctWith(q, srb);
      srb.queuePrev := null;
      srb.queueNext := head;
      if head != null {
        head.queuePrev := srb;
      }
      head := srb;
      if tail == null {
        tail := srb;
      }
      count := count + 1;
      if count > maxCount {
        maxCount := count;
      }
      srb.queueHead := this;
      contents := [srb] + contents;
      forall j | 0 <= j < |contents| ensures Linked(contents, j) {
        if j > 0 {
          assert old(Linked(q, j - 1));
          if j > 1 { Differs(q, j - 1, 0); }
        }
      }
    }

    method InsertTail(srb: Srb)
      requires Valid() && srb.queueHead == null
      modifies this, srb, contents
      ensures Valid() && contents == old(contents) + [srb] && QueueValid()
      ensures maxCount == if |contents| > old(maxCount) then |contents| else old(maxCount)
    {
      hide Distinct;
      ghost var q := contents;
      assert srb !in q by { Mine(); }
      DistinctWith(q, srb);
      srb.queueNext := null;
      srb.queuePrev := tail;
      if tail != null {
        tail.queueNext := srb;
      }
      tail := srb;
      if head == null {
        head := srb;
      }
      count := count + 1;
      if count > maxCount {
        maxCount := count;
      }
      srb.queueHead := this;
      contents := contents + [srb];
      forall j | 0 <= j < |contents| ensures Linked(contents, j) {
        if j < |q| {
          assert old(Linked(q, j));
          if j < |q| - 1 { Differs(q, j, |q| - 1); }
        }
      }
    }

    /** Takes an SRB out of the links of its neighbours. */
    method Unlink(srb: Srb, ghost i: nat)
      requires Valid() && i < |contents| && contents[i] == srb
      modifies `head, `tail, contents`queueNext, contents`queuePrev
      ensures var rest := contents[..i] + contents[i + 1..];
        && head == At(rest, 0, null) && tail == At(rest, |rest| - 1, null)
        && forall j :: 0 <= j < |rest| ==> Linked(rest, j)
    {
      hide Distinct;
      ghost var q := contents;
      assert Linked(q, i);
      Differs(q, i, i + 1);
      Differs(q, i, i - 1);
      if srb.queueNext != null {
        srb.queueNext.queuePrev := srb.queuePrev;
      } else {
        assert tail == srb;   // asserted by the driver
        tail := srb.queuePrev;
      }
      if srb.queuePrev != null {
        srb.queuePrev.queueNext := srb.queueNext;
      } else {
        assert head == srb;   // asserted by the driver
        head := srb.queueNext;
      }
      ghost var rest := q[..i] + q[i + 1..];
      forall j | 0 <= j < |rest| ensures Linked(rest, j) {
        var k := if j < i then j else j + 1;
        assert old(Linked(q, k));
        Differs(q, k, i);
        if k != i - 1 { Differs(q, k, i - 1); }
        if k != i + 1 { Differs(q, k, i + 1); }
      }
    }

    /** Unlinks an SRB from anywhere in the queue. */
    method Remove(srb: Srb, ghost i: nat)
      requires Valid() && i < |contents| && contents[i] == srb
      modifies this, contents
      ensures Valid() && contents == old(contents)[..i] + old(contents)[i + 1..] && QueueValid()
      ensures srb.queueHead == null && srb.queueNext == null && srb.queuePrev == null
      ensures maxCount == old(maxCount)
    {
      hide Distinct;
      DistinctWithout(contents, i);
      Unlink(srb, i);
      ghost var rest := contents[..i] + contents[i + 1..];
      assert count > 0;       // asserted by the driver
      count := count - 1;
      LeftOut(contents, i);
      label cleared:
      srb.queueHead, srb.queueNext, srb.queuePrev := null, null, null;
      contents := rest;
      forall j | 0 <= j < |contents| ensures Linked(contents, j) {
        assert old@cleared(Linked(rest, j));
      }
    }

    method Peek() returns (srb: Srb?)
      requires Valid()
      ensures QueueValid()
      ensures srb == At(contents, 0, null)
    {
      srb := head;
    }

    method Pop() returns (srb: Srb?)
      requires Valid()
      modifies this, contents
      ensures Valid() && srb == old(At(contents, 0, null))
      ensures contents == if srb == null then old(contents) else old(contents)[1..]
      ensures srb != null ==> srb.queueHead == null
    {
      srb := head;
      if srb != null {
        Remove(srb, 0);
      }
    }

    method RemoveTail() returns (srb: Srb?)
      requires Valid()
      modifies this, contents
      ensures Valid() && srb == old(At(contents, |contents| - 1, null))
      ensures contents == if srb == null then old(contents) else old(contents)[..|old(contents)| - 1]
      ensures srb != null ==> srb.queueHead == null
    {
      srb := tail;
      if srb != null {
        Remove(srb, |contents| - 1);
      }
    }
  }

  /** An SRB differs from the SRBs at other positions. */
  lemma Differs(q: seq<Srb>, k: nat, i: int)
    requires Distinct(q) && k < |q| && i != k
    ensures At(q, i, null) != q[k]
  {
  }

  lemma DistinctWithout(q: seq<Srb>, i: nat)
    requires Distinct(q) && i < |q|
    ensures Distinct(q[..i] + q[i + 1..])
  {
    var rest := q[..i] + q[i + 1..];
    forall j | 0 <= j < |rest| ensures rest[j] == q[if j < i then j else j + 1] {
    }
  }

  lemma LeftOut(q: seq<Srb>, i: nat)
    requires Distinct(q) && i < |q|
    ensures var rest := q[..i] + q[i + 1..]; forall j :: 0 <= j < |rest| ==> rest[j] != q[i]
  {
  }

  lemma DistinctWith(q: seq<Srb>, s: Srb)
    requires Distinct(q) && s !in q
    ensures Distinct([s] + q) && Distinct(q + [s])
  {
  }

  /** Two queues never share an SRB, so what is done to one leaves the other alone. */
  lemma QueuesAreApart(a: Queue, b: Queue)
    requires a.Valid() && b.Valid() && a != b
    ensures forall s :: s in a.contents ==> s !in b.contents
  {
    a.Mine();
    b.Mine();
  }

  /** Moving the head of one queue to the tail of another, as the data path does. */
  method MoveHead(from: Queue, to: Queue) returns (srb: Srb?)
    requires from.Valid() && to.Valid() && from != to
    modifies from, to, from.contents, to.contents
    ensures from.Valid() && to.Valid() && srb == old(At(from.contents, 0, null))
    ensures if srb == null then from.contents == old(from.contents) && to.contents == old(to.contents)
            else from.contents == old(from.contents)[1..] && to.contents == old(to.contents) + [srb]
  {
    hide Distinct;
    QueuesAreApart(from, to);
    ghost var q := to.contents;
    assert forall i :: 0 <= i < |q| ==> q[i] !in from.contents;
    srb := from.Pop();
    assert forall i :: 0 <= i < |q| ==> old(to.Linked(q, i)) && to.Linked(q, i);
    if srb != null {
      ghost var rest := from.contents;
      QueuesAreApart(from, to);
      from.Mine();
      assert forall i :: 0 <= i < |rest| ==> rest[i] !in to.contents && rest[i] != srb && from.Linked(rest, i);
      label insert:
      to.InsertTail(srb);
      assert forall i :: 0 <= i < |rest| ==> old@insert(from.Linked(rest, i)) && from.Linked(rest, i);
    }
  }

  /** A failed step: what was taken from the head is put back, and nothing has changed. */
  method PutBack(queue: Queue)
    requires queue.Valid() && queue.contents != []
    modifies queue, queue.contents
    ensures queue.Valid() && queue.contents == old(queue.contents)
  {
    var srb := queue.Pop();
    queue.InsertHead(srb);
    assert queue.contents == old(queue.contents);
  }
}
