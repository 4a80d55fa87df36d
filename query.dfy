/**
 * The result cursor `Query`: a driver handle whose rows are fetched, in
 * order, into an owned array `$object`, and PHP's internal pointer of that
 * array, here an explicit position.
 */
module Query {
  import opened Wrappers

  /** Whether a row follows position `p` of `count` rows (`hasNext`: `next` does not give `false`). */
  predicate HasNext(count: nat, p: nat)
  {
    p + 1 < count
  }

  /** Whether a row precedes position `p` (`hasPrev`: `prev` does not give `false`). */
  predicate HasPrev(p: nat)
  {
    p > 0
  }

  /** The position after `nextRow`: one further when a row follows, else where it was. */
  function NextPosition(count: nat, p: nat): nat
  {
    if HasNext(count, p) then p + 1 else p
  }

  /** The position after `prevRow`: one back when a row precedes, else where it was. */
  function PrevPosition(p: nat): nat
  {
    if HasPrev(p) then p - 1 else p
  }

  /** The position after `end`: the last row, or 0 when there is none. */
  function LastPosition(count: nat): nat
  {
    if count > 0 then count - 1 else 0
  }

  /** `current`: the row at `p`, or nothing (PHP's `false`) when `p` holds no row. */
  function At<T>(rows: seq<T>, p: nat): (r: Option<T>)
    ensures r.Some? <==> p < |rows|
    ensures r.Some? ==> r.value == rows[p]
  {
    if p < |rows| then Some(rows[p]) else None
  }

  /** `$this->object[$pos]`: the row at `pos`, or nothing (PHP's `null`) for an absent index. */
  function Item<T>(rows: seq<T>, pos: int): (r: Option<T>)
    ensures r.Some? <==> 0 <= pos < |rows|
    ensures r.Some? ==> r.value == rows[pos]
  {
    if 0 <= pos < |rows| then Some(rows[pos]) else None
  }

  /** The position after `k` calls of `nextRow` from `p`. */
  function Advance(count: nat, p: nat, k: nat): nat
    decreases k
  {
    if k == 0 then p else Advance(count, NextPosition(count, p), k - 1)
  }

  /** `nextRow` never leaves the rows: from a row it reaches a row. */
  lemma NextStaysOnRows(count: nat, p: nat)
    requires p < count
    ensures NextPosition(count, p) < count
    ensures NextPosition(count, p) == p <==> p == count - 1
  {
  }

  /** `hasNext` holds exactly when `current` after `next` gives a row. */
  lemma HasNextIffRowFollows<T>(rows: seq<T>, p: nat)
    ensures HasNext(|rows|, p) <==> At(rows, p + 1).Some?
  {
  }

  /** From a position on or just past the rows, `hasPrev` holds exactly when a row stands before it. */
  lemma HasPrevIffRowPrecedes<T>(rows: seq<T>, p: nat)
    requires p <= |rows|
    ensures HasPrev(p) <==> Item(rows, p - 1).Some?
  {
  }

  /** `prevRow` undoes a `nextRow` that moved. */
  lemma PrevUndoesNext(count: nat, p: nat)
    requires HasNext(count, p)
    ensures PrevPosition(NextPosition(count, p)) == p
  {
  }

  /** `k` calls of `nextRow` from a row move `k` rows on, but never past the last row. */
  lemma {:induction false} AdvanceSaturates(count: nat, p: nat, k: nat)
    requires p < count
    ensures Advance(count, p, k) == if p + k < count then p + k else count - 1
    decreases k
  {
    if k > 0 {
      AdvanceSaturates(count, NextPosition(count, p), k - 1);
    }
  }

  /** After `firstRow`, `count - 1` calls of `nextRow` stand on the row `lastRow` gives. */
  lemma FirstThenNextReachesLast<T>(rows: seq<T>)
    requires rows != []
    ensures Advance(|rows|, 0, |rows| - 1) == LastPosition(|rows|)
    ensures At(rows, Advance(|rows|, 0, |rows| - 1)) == Some(rows[|rows| - 1])
  {
    AdvanceSaturates(|rows|, 0, |rows| - 1);
  }

  class Query<T> {
    /** The rows the driver has not delivered yet, in fetch order. */
    var handle: seq<T>
    /** `$object`: the rows fetched so far. */
    var rows: seq<T>
    /** The internal pointer of `$object`. */
    var position: nat

    /** The pointer stands on a row, or at 0 while there is none. */
    ghost predicate Valid()
      reads this`rows, this`position
    {
      position < |rows| || (rows == [] && position == 0)
    }

    /** `new Query($result)`: nothing fetched, the pointer at the start. */
    constructor(handle: seq<T>)
      ensures Valid()
      ensures this.handle == handle && rows == [] && position == 0
    {
      this.handle := handle;
      rows := [];
      position := 0;
    }

    /** The `while ($row = fetch_object())` loop: every remaining row appended in fetch order. */
    method FetchAll()
      requires Valid()
      modifies this`handle, this`rows
      ensures Valid()
      ensures rows == old(rows) + old(handle) && handle == []
    {
      while handle != []
        invariant rows + handle == old(rows) + old(handle)
        invariant Valid()
        decreases |handle|
      {
        assert rows + handle == (rows + [handle[0]]) + handle[1..];
        rows := rows + [handle[0]];
        handle := handle[1..];
      }
    }

    /** `result()`: fetch the rest, return every row. */
    method Result() returns (r: seq<T>)
      requires Valid()
      modifies this`handle, this`rows
      ensures Valid()
      ensures rows == old(rows) + old(handle) && handle == []
      ensures r == rows
    {
      FetchAll();
      r := rows;
    }

    /** `row($pos)`: fetch the rest, return the row at `pos`. */
    method Row(pos: int) returns (r: Option<T>)
      requires Valid()
      modifies this`handle, this`rows
      ensures Valid()
      ensures rows == old(rows) + old(handle) && handle == []
      ensures r == Item(rows, pos)
    {
      FetchAll();
      r := if 0 <= pos < |rows| then Some(rows[pos]) else None;
    }

    /** `nextRow()`: one row on if there is one, then the current row. */
    method NextRow() returns (r: Option<T>)
      requires Valid()
      modifies this`position
      ensures Valid()
      ensures position == NextPosition(|rows|, old(position))
      ensures r == At(rows, position)
    {
      if HasNext(|rows|, position) {
        position := position + 1;
      }
      r := if position < |rows| then Some(rows[position]) else None;
    }

    /** `prevRow()`: one row back if there is one, then the current row. */
    method PrevRow() returns (r: Option<T>)
      requires Valid()
      modifies this`position
      ensures Valid()
      ensures position == PrevPosition(old(position))
      ensures r == At(rows, position)
    {
      if HasPrev(position) {
        position := position - 1;
      }
      r := if position < |rows| then Some(rows[position]) else None;
    }

    /** `firstRow()`: `reset`, then the current row. */
    method FirstRow() returns (r: Option<T>)
      requires Valid()
      modifies this`position
      ensures Valid()
      ensures position == 0
      ensures r == At(rows, 0)
    {
      position := 0;
      r := if position < |rows| then Some(rows[position]) else None;
    }

    /** `lastRow()`: `end`, then the current row. */
    method LastRow() returns (r: Option<T>)
      requires Valid()
      modifies this`position
      ensures Valid()
      ensures position == LastPosition(|rows|)
      ensures r == At(rows, position)
    {
      position := if |rows| > 0 then |rows| - 1 else 0;
      r := if position < |rows| then Some(rows[position]) else None;
    }
  }

  /**
   * A caller that goes to the first row and then calls `nextRow` until it
   * has made `|rows| - 1` moves ends on the row `lastRow` returns.
   */
  method WalkToLast<T>(q: Query<T>) returns (r: Option<T>)
    requires q.Valid() && q.rows != []
    modifies q`position
    ensures q.position == LastPosition(|q.rows|)
    ensures r == Some(q.rows[|q.rows| - 1])
  {
    r := q.FirstRow();
    var k := 0;
    while k < |q.rows| - 1
      invariant 0 <= k <= |q.rows| - 1
      invariant q.Valid()
      invariant q.position == Advance(|q.rows|, 0, k)
      invariant r == At(q.rows, q.position)
    {
      AdvanceSnoc(|q.rows|, 0, k);
      r := q.NextRow();
      k := k + 1;
    }
    FirstThenNextReachesLast(q.rows);
  }

  /** One more `nextRow` after `k` of them. */
  lemma {:induction false} AdvanceSnoc(count: nat, p: nat, k: nat)
    ensures Advance(count, p, k + 1) == NextPosition(count, Advance(count, p, k))
    decreases k
  {
    if k > 0 {
      AdvanceSnoc(count, NextPosition(count, p), k - 1);
    }
  }
}
