/** The bounded diagnostic ring behind the audit log (capacity 128) and the fault reporter
    (capacity 64): it overwrites the oldest record and numbers every record it is given. */
module Ring {
  import opened Machine

  const MAX_AUDIT_EVENTS := 128
  const MAX_FAULT_RECORDS := 64

  /** A record with the sequence number the ring gave it. */
  datatype Stamped<T> = Stamped(sequence: u64, record: T)

  /** The number of the k-th record, counting from one: the counter starts at 1 and wraps. */
  function SequenceOf(k: nat): u64 {
    k % 0x1_0000_0000_0000_0000
  }

  function WrappingIncrement(x: u64): u64 {
    if x == U64_MAX then 0 else x + 1
  }

  lemma SequenceAdvances(k: nat)
    ensures SequenceOf(1) == 1
    ensures WrappingIncrement(SequenceOf(k)) == SequenceOf(k + 1)
  {
  }

  /** The numbered history of everything ever appended. */
  function History<T>(records: seq<T>): (h: seq<Stamped<T>>)
    ensures |h| == |records|
    ensures forall k | 0 <= k < |records| :: h[k] == Stamped(SequenceOf(k + 1), records[k])
  {
    seq(|records|, k requires 0 <= k < |records| => Stamped(SequenceOf(k + 1), records[k]))
  }

  /** The part of the history that a ring of this capacity retains. */
  function Retained<T>(records: seq<T>, capacity: nat): (r: seq<Stamped<T>>)
    ensures |r| == Min(|records|, capacity)
  {
    History(records)[|records| - Min(|records|, capacity)..]
  }

  /** The cells of the ring hold the retained history, oldest first from the cursor. */
  ghost predicate Holds<T>(cells: seq<Stamped<T>>, cursor: nat, count: nat, retained: seq<Stamped<T>>) {
    && count == |retained| <= |cells|
    && cursor < |cells|
    && if count < |cells|
       then cursor == count && cells[..count] == retained
       else cells[cursor..] + cells[..cursor] == retained
  }

  lemma HistoryGrows<T>(records: seq<T>, r: T)
    ensures History(records + [r]) == History(records) + [Stamped(SequenceOf(|records| + 1), r)]
  {
  }

  /** Writing at the cursor drops the oldest retained record, if the ring is full, and adds the new one. */
  lemma WriteHolds<T>(cells: seq<Stamped<T>>, cursor: nat, count: nat, retained: seq<Stamped<T>>, e: Stamped<T>)
    requires Holds(cells, cursor, count, retained)
    ensures var next := if cursor + 1 == |cells| then 0 else cursor + 1;
            var kept := if count == |cells| then retained[1..] else retained;
            Holds(cells[cursor := e], next, Min(count + 1, |cells|), kept + [e])
  {
    var cells' := cells[cursor := e];
    if count < |cells| {
      assert cells'[..count + 1] == retained + [e];
      if count + 1 == |cells| { assert cells'[0..] + cells'[..0] == retained + [e]; }
    } else {
      assert retained[1..] == cells[cursor + 1..] + cells[..cursor];
      if cursor + 1 == |cells| {
        assert cells'[0..] + cells'[..0] == retained[1..] + [e];
      } else {
        assert cells'[cursor + 1..] + cells'[..cursor + 1] == retained[1..] + [e];
      }
    }
  }

  lemma AppendRetains<T>(records: seq<T>, r: T, capacity: nat)
    requires capacity > 0
    ensures var old' := Retained(records, capacity);
            Retained(records + [r], capacity)
            == (if |records| >= capacity then old'[1..] else old') + [Stamped(SequenceOf(|records| + 1), r)]
  {
    HistoryGrows(records, r);
  }

  /** A ring in this state retains the newest records of this history. */
  ghost predicate Reflects<T>(cells: seq<Stamped<T>>, cursor: nat, count: nat, records: seq<T>) {
    |cells| > 0 && Holds(cells, cursor, count, Retained(records, |cells|))
  }

  lemma EmptyReflects<T>(cells: seq<Stamped<T>>)
    requires |cells| > 0
    ensures Reflects(cells, 0, 0, [])
  {
  }

  lemma AppendReflects<T>(cells: seq<Stamped<T>>, cursor: nat, count: nat, records: seq<T>, r: T,
                           cursor': nat, count': nat)
    requires Reflects(cells, cursor, count, records)
    requires cursor' == if cursor + 1 < |cells| then cursor + 1 else 0
    requires count' == if count < |cells| then count + 1 else count
    ensures Reflects(cells[cursor := Stamped(SequenceOf(|records| + 1), r)], cursor', count', records + [r])
  {
    WriteHolds(cells, cursor, count, Retained(records, |cells|), Stamped(SequenceOf(|records| + 1), r));
    AppendRetains(records, r, |cells|);
  }

  /** The position after the cursor, round the end. */
  function Advance(cursor: nat, capacity: nat): (r: nat)
    requires cursor < capacity
    ensures r == if cursor + 1 < capacity then cursor + 1 else 0
  {
    WrapOnce(cursor + 1, capacity);
    (cursor + 1) % capacity
  }

  /** A ring in this state retains the newest records of this history and numbers the next one so. */
  ghost predicate Numbers<T>(cells: seq<Stamped<T>>, cursor: nat, count: nat, next: u64, records: seq<T>) {
    Reflects(cells, cursor, count, records) && next == SequenceOf(|records| + 1)
  }

  lemma AppendNumbers<T>(cells: seq<Stamped<T>>, cursor: nat, count: nat, next: u64, records: seq<T>, r: T)
    requires Numbers(cells, cursor, count, next, records)
    ensures cursor < |cells|
    ensures Numbers(cells[cursor := Stamped(next, r)], Advance(cursor, |cells|),
                    if count < |cells| then count + 1 else count, WrappingIncrement(next), records + [r])
  {
    SequenceAdvances(|records| + 1);
    AppendReflects(cells, cursor, count, records, r, Advance(cursor, |cells|),
                   if count < |cells| then count + 1 else count);
  }

  /** The cell that holds the retained record at a chronological position. */
  lemma CellOf<T>(cells: seq<Stamped<T>>, cursor: nat, count: nat, records: seq<T>, index: nat)
    requires Reflects(cells, cursor, count, records) && index < count
    ensures var physical := ((if count == |cells| then cursor else 0) + index) % |cells|;
            var k := |records| - count + index;
            cells[physical] == Stamped(SequenceOf(k + 1), records[k])
  {
    var oldest := if count == |cells| then cursor else 0;
    WrapOnce(oldest + index, |cells|);
    var physical := (oldest + index) % |cells|;
    assert cells[physical] == Retained(records, |cells|)[index];
  }

  lemma WrapOnce(x: nat, n: nat)
    requires x < 2 * n
    ensures x % n == if x < n then x else x - n
  {
  }
}

module DiagnosticRing {
  import opened Machine
  import opened Ring

  class DiagnosticRing<T> {
    const events: array<Stamped<T>>
    var cursor: nat
    var count: nat
    var nextSequence: u64
    /** Everything ever appended, in order. */
    ghost var history: seq<T>

    ghost function Repr(): set<object> {
      {this, events}
    }

    ghost predicate Valid()
      reads this, events
    {
      Numbers(events[..], cursor, count, nextSequence, history)
    }

    constructor (capacity: nat, empty: T)
      requires capacity > 0
      ensures Valid() && fresh(events)
      ensures history == [] && events.Length == capacity
    {
      events := new Stamped<T>[capacity](_ => Stamped(0, empty));
      cursor, count, nextSequence := 0, 0, 1;
      history := [];
      new;
      EmptyReflects(events[..]);
      SequenceAdvances(0);
    }

    /** Appends a record, numbering it with the next sequence number. */
    method Append(record: T)
      requires Valid()
      modifies this, events
      ensures Valid()
      ensures history == old(history) + [record]
    {
      AppendNumbers(events[..], cursor, count, nextSequence, history, record);
      events[cursor] := Stamped(nextSequence, record);
      assert events[..] == old(events[..])[cursor := Stamped(nextSequence, record)];
      nextSequence := WrappingIncrement(nextSequence);
      cursor := Advance(cursor, events.Length);
      if count < events.Length {
        count := count + 1;
      }
      history := history + [record];
    }

    /** The most recent record of the whole history. */
    method Last() returns (r: Option<Stamped<T>>)
      requires Valid()
      ensures r == if history == [] then None
                   else Some(Stamped(SequenceOf(|history|), history[|history| - 1]))
    {
      if count == 0 { return None; }
      var index := if cursor == 0 then events.Length - 1 else cursor - 1;
      assert events[..][index] == Retained(history, events.Length)[count - 1];
      return Some(events[index]);
    }

    /** The record at a chronological position among the retained ones. */
    method Get(index: nat) returns (r: Option<Stamped<T>>)
      requires Valid()
      ensures var n := |history|;
              var len := Min(n, events.Length);
              r == if index < len
                   then Some(Stamped(SequenceOf(n - len + index + 1), history[n - len + index]))
                   else None
    {
      if index >= count { return None; }
      var oldest := if count == events.Length then cursor else 0;
      CellOf(events[..], cursor, count, history, index);
      var physical := (oldest + index) % events.Length;
      return Some(events[physical]);
    }

    /** The number of retained records. */
    function Len(): (n: nat)
      requires Valid()
      reads this, events
      ensures n == Min(|history|, events.Length)
    {
      count
    }
  }
}
