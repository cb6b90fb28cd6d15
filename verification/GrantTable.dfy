/** Grant references: a free list threaded through an array. */
module GrantTable {
  import opened Basics

  const ENTRIES: nat := 256    // entries of 16 bytes in one frame
  const RESERVED: nat := 8
  const INVALID: int := 0

  /** Keeps the references from RESERVED to ENTRIES that are not on the list in use. */
  class Table {
    const next: array<int>
    var head: int
    var count: int
    ghost var chain: seq<int>

    ghost predicate Valid()
      reads this, next
    {
      && next.Length == ENTRIES
      && head == At(chain, 0, INVALID)
      && (forall i :: 0 <= i < |chain| ==>
          RESERVED <= chain[i] < ENTRIES && next[chain[i]] == At(chain, i + 1, INVALID))
      && Distinct(chain)
      && (forall r :: Live(r) ==> next[r] == INVALID)
      && count + |chain| == ENTRIES - RESERVED
    }

    /** A reference that has been handed out and not been put back. */
    ghost predicate Live(r: int)
      reads this
    {
      RESERVED <= r < ENTRIES && r !in chain
    }

    /** Threads all references into the free list, the lowest first. */
    constructor ()
      ensures Valid() && count == 0 && fresh(next) && forall r :: !Live(r)
      ensures |chain| == ENTRIES - RESERVED && forall i :: 0 <= i < |chain| ==> chain[i] == RESERVED + i
    {
      next := new int[ENTRIES](i => INVALID);
      head, count, chain := INVALID, 0, [];
      new;
      var reference := ENTRIES - 1;
      while reference >= RESERVED
        invariant RESERVED - 1 <= reference < ENTRIES
        invariant next.Length == ENTRIES && fresh(next) && count == 0
        invariant |chain| == ENTRIES - 1 - reference && forall i :: 0 <= i < |chain| ==> chain[i] == reference + 1 + i
        invariant head == At(chain, 0, INVALID)
                  && forall i :: 0 <= i < |chain| ==> next[chain[i]] == At(chain, i + 1, INVALID)
        invariant forall r :: RESERVED <= r <= reference ==> next[r] == INVALID
        modifies this, next
      {
        assert next[reference] == INVALID;   // asserted by the driver
        next[reference] := head;
        head := reference;
        chain := [reference] + chain;
        reference := reference - 1;
      }
      AllOnChain(chain);
    }

    /** Hands out a reference that is not in use, unless all are. */
    method Get() returns (ok: bool, reference: int)
      requires Valid()
      modifies this, next
      ensures Valid()
      ensures ok <==> old(count) < ENTRIES - RESERVED
      ensures ok ==> !old(Live(reference)) && Live(reference) && count == old(count) + 1
      ensures ok ==> forall r :: Live(r) <==> old(Live(r)) || r == reference
      ensures !ok ==> forall r :: RESERVED <= r < ENTRIES ==> Live(r)
      ensures !ok ==> chain == old(chain) && count == old(count)
      ensures ok ==> chain == old(chain)[1..]
    {
      if head < RESERVED {
        return false, 0;
      }
      assert RESERVED <= head <= ENTRIES;   // asserted by the driver
      ok, reference := true, head;
      head := next[reference];
      next[reference] := INVALID;
      count := count + 1;
      ghost var was := chain;
      chain := chain[1..];
      assert forall i :: 0 <= i < |chain| ==> chain[i] == was[i + 1];
      assert forall r :: r in was <==> r == reference || r in chain;
    }

    /** Takes back a reference that is in use. */
    method Put(reference: int)
      requires Valid() && Live(reference)
      modifies this, next
      ensures Valid() && count == old(count) - 1
      ensures forall r :: Live(r) <==> old(Live(r)) && r != reference
      ensures chain == [reference] + old(chain)
    {
      AssertsOfPut(reference);
      assert RESERVED <= reference <= ENTRIES;   // asserted by the driver
      assert count != 0;                         // asserted by the driver
      count := count - 1;
      assert next[reference] < RESERVED;         // asserted by the driver
      next[reference] := head;
      head := reference;
      ghost var was := chain;
      chain := [reference] + chain;
      assert forall i :: 0 < i < |chain| ==> chain[i] == was[i - 1];
    }

    /** The link of a reference. The range test lets ENTRIES pass, for which the array has no entry;
        the word that is read in its place is the next field of the table, the head of the list. */
    function Link(reference: int): int
      requires RESERVED <= reference <= next.Length
      reads this, next
    {
      if reference < next.Length then next[reference] else head
    }

    /** What the driver asserts before it puts a reference back. */
    predicate PutAsserts(reference: int)
      requires next.Length == ENTRIES
      reads this, next
    {
      RESERVED <= reference <= ENTRIES && count != 0 && Link(reference) < RESERVED
    }

    /** These assertions hold of every reference in use, and besides of two others: of the last one of
        the free list, as soon as one is in use, and of the one past the end, when all are in use.
        Nothing else is let pass. */
    lemma AssertsOfPut(reference: int)
      requires Valid()
      ensures PutAsserts(reference) <==>
                || Live(reference)
                || (count != 0 && chain != [] && reference == chain[|chain| - 1])
                || (chain == [] && reference == ENTRIES)
    {
      if Live(reference) {
        Pigeons(chain, reference);
      }
      if reference in chain {
        var i :| 0 <= i < |chain| && chain[i] == reference;
        assert next[chain[i]] == At(chain, i + 1, INVALID);
      }
    }
  }

  lemma AllOnChain(chain: seq<int>)
    requires |chain| == ENTRIES - RESERVED && forall i :: 0 <= i < |chain| ==> chain[i] == RESERVED + i
    ensures Distinct(chain) && forall r :: RESERVED <= r < ENTRIES ==> r in chain
  {
    forall r | RESERVED <= r < ENTRIES ensures r in chain {
      assert chain[r - RESERVED] == r;
    }
  }

  function ToSet(s: seq<int>): set<int> {
    set x | x in s
  }

  lemma {:induction false} SetSize(s: seq<int>)
    requires Distinct(s)
    ensures |ToSet(s)| == |s|
  {
    if s != [] {
      var last := |s| - 1;
      SetSize(s[..last]);
      assert s == s[..last] + [s[last]];
      assert ToSet(s) == ToSet(s[..last]) + {s[last]};
    }
  }

  function Between(a: int, b: int): (r: set<int>)
    ensures forall x :: x in r <==> a <= x < b
    ensures |r| == if a < b then b - a else 0
    decreases b - a
  {
    if a < b then Between(a, b - 1) + {b - 1} else {}
  }

  /** A free list that misses a reference is not full. */
  lemma Pigeons(s: seq<int>, missing: int)
    requires Distinct(s) && forall i :: 0 <= i < |s| ==> RESERVED <= s[i] < ENTRIES
    requires RESERVED <= missing < ENTRIES && missing !in s
    ensures |s| < ENTRIES - RESERVED
  {
    SetSize(s);
    var all := Between(RESERVED, ENTRIES);
    assert ToSet(s) <= all - {missing};
    Smaller(ToSet(s), all - {missing});
    assert |all - {missing}| == |all| - 1;
  }

  lemma Smaller(a: set<int>, b: set<int>)
    requires a <= b
    ensures |a| <= |b|
  {
    assert b == a + (b - a);
  }

  /** A reference that is not in use and passes the assertions: once one reference has been handed out,
      the last one of the free list. */
  method FreeOnePasses() returns (table: Table, reference: int)
    ensures table.Valid() && !table.Live(reference) && table.PutAsserts(reference)
  {
    hide Table.Valid, Table.PutAsserts;
    table := new Table();
    var ok, other := table.Get();
    reference := ENTRIES - 1;
    assert table.chain[ENTRIES - RESERVED - 2] == reference;
    table.AssertsOfPut(reference);
  }

  /** Another: once all have been handed out, the one past the end of the table. */
  method PastTheEndPasses() returns (table: Table)
    ensures table.Valid() && !table.Live(ENTRIES) && table.PutAsserts(ENTRIES)
  {
    table := new Table();
    var ok, other := table.Get();
    while ok
      invariant table.Valid() && fresh(table) && fresh(table.next)
      invariant !ok ==> table.chain == []
      decreases ENTRIES - RESERVED - table.count, ok
    {
      ok, other := table.Get();
    }
    table.AssertsOfPut(ENTRIES);
  }

  /** Putting a reference back and asking again returns the same one. */
  method PutThenGet(table: Table, reference: int) returns (again: int)
    requires table.Valid() && table.Live(reference)
    modifies table, table.next
    ensures table.Valid() && again == reference && forall r :: table.Live(r) <==> old(table.Live(r))
  {
    table.Put(reference);
    ghost var chain := table.chain;
    var ok, r := table.Get();
    again := r;
    assert chain[0] == reference;
  }
}
