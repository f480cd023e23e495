/**
 The gas price queue (src/config_wrapper.cpp, `enqueue` and `process_queue`).

 New gas prices wait in a table keyed by their activation block.  The configuration keeps a
 copy of the first key so that most transactions need not open the table; 0 stands for an
 empty table.  What the queue means is again a function of the block number: the last price
 set whose activation block has come.
 */
module PriceQueue {
  import opened Words

  datatype Row = Row(block: nat, price: Word64)

  /** The table in key order, the cached first key, and the gas price in force. */
  datatype Queue = Queue(rows: seq<Row>, front: nat, price: Word64)

  function FrontOf(rows: seq<Row>): nat {
    if rows == [] then 0 else rows[0].block
  }

  /** `enqueue` of a price with activation block a. */
  function Enqueue(q: Queue, price: Word64, a: nat): Outcome<Queue> {
    var n := |q.rows|;
    if n > 0 && a < q.rows[n - 1].block then Abort
    else if n > 0 && a == q.rows[n - 1].block then
      Commit(q.(rows := q.rows[..n - 1] + [Row(a, price)]))
    else
      Commit(q.(rows := q.rows + [Row(a, price)], front := if q.front == 0 then a else q.front))
  }

  /** The queue without its first row, whose price is now in force. */
  function Advance(q: Queue): Queue
    requires q.rows != []
  {
    Queue(q.rows[1..], FrontOf(q.rows[1..]), q.rows[0].price)
  }

  /** Apply and remove every row whose block has come, looking at the table itself. */
  function Scan(q: Queue, b: nat): Queue
    decreases |q.rows|
  {
    if q.rows == [] || b < q.rows[0].block then q
    else Scan(Advance(q), b)
  }

  /** `process_queue` in block b: scan only if the cached first key says that it is time. */
  function Process(q: Queue, b: nat): Queue {
    if q.front == 0 || b < q.front then q else Scan(q, b)
  }

  /** Keys strictly increase from 1, and the cached key is the first, or 0 for none. */
  ghost predicate Ordered(q: Queue) {
    && (forall i :: 0 <= i < |q.rows| ==> 0 < q.rows[i].block)
    && (forall i, j :: 0 <= i < j < |q.rows| ==> q.rows[i].block < q.rows[j].block)
    && q.front == FrontOf(q.rows)
  }

  /** The last price of a history whose activation block is at most b. */
  function PriceAt(initial: Word64, history: seq<Row>, b: nat): Word64 {
    if history == [] then initial
    else if history[|history| - 1].block <= b then history[|history| - 1].price
    else PriceAt(initial, history[..|history| - 1], b)
  }

  lemma {:induction false} FirstRowDue(initial: Word64, rows: seq<Row>, b: nat)
    requires rows != [] && rows[0].block <= b
    ensures PriceAt(initial, rows, b) == PriceAt(rows[0].price, rows[1..], b)
  {
    var n := |rows|;
    if n > 1 && rows[n - 1].block > b {
      FirstRowDue(initial, rows[..n - 1], b);
      assert rows[..n - 1][1..] == rows[1..][..n - 2];
    }
  }

  lemma {:induction false} NothingDue(initial: Word64, rows: seq<Row>, b: nat)
    requires forall i :: 0 <= i < |rows| ==> b < rows[i].block
    ensures PriceAt(initial, rows, b) == initial
  {
    if rows != [] {
      NothingDue(initial, rows[..|rows| - 1], b);
    }
  }

  /** Scanning removes rows from the front, exactly those whose block has come. */
  lemma {:induction false} ScanRows(q: Queue, b: nat)
    requires Ordered(q)
    ensures var q' := Scan(q, b);
            && Ordered(q')
            && |q'.rows| <= |q.rows| && q'.rows == q.rows[|q.rows| - |q'.rows|..]
            && (forall i :: 0 <= i < |q.rows| - |q'.rows| ==> q.rows[i].block <= b)
            && (forall i :: 0 <= i < |q'.rows| ==> b < q'.rows[i].block)
    decreases |q.rows|
  {
    if q.rows == [] || b < q.rows[0].block {
      assert q.rows == q.rows[0..];
    } else {
      ScanRows(Advance(q), b);
      var q' := Scan(q, b);
      forall i | 0 <= i < |q.rows| - |q'.rows|
        ensures q.rows[i].block <= b
      {
        assert i > 0 ==> q.rows[i] == Advance(q).rows[i - 1];
      }
    }
  }

  /** Scanning changes nothing for the blocks to come, and puts the price of block b in force. */
  lemma {:induction false} ScanPrice(q: Queue, b: nat, c: nat)
    requires Ordered(q) && b <= c
    ensures PriceAt(Scan(q, b).price, Scan(q, b).rows, c) == PriceAt(q.price, q.rows, c)
    ensures Scan(q, b).price == PriceAt(q.price, q.rows, b)
    decreases |q.rows|
  {
    if q.rows == [] || b < q.rows[0].block {
      NothingDue(q.price, q.rows, b);
    } else {
      FirstRowDue(q.price, q.rows, c);
      FirstRowDue(q.price, q.rows, b);
      ScanPrice(Advance(q), b, c);
    }
  }

  /** The shortcut is sound: with it or without it, processing does the same. */
  lemma ShortcutIsSound(q: Queue, b: nat)
    requires Ordered(q)
    ensures Process(q, b) == Scan(q, b)
  {
  }

  /** The table stands for all prices set so far, from block `now` on. */
  ghost predicate Represents(initial: Word64, history: seq<Row>, q: Queue, now: nat) {
    && Ordered(q)
    && (forall b :: b >= now ==> PriceAt(q.price, q.rows, b) == PriceAt(initial, history, b))
  }

  lemma ProcessRepresents(initial: Word64, history: seq<Row>, q: Queue, now: nat, b: nat)
    requires Represents(initial, history, q, now) && now <= b
    ensures Represents(initial, history, Process(q, b), b)
    ensures Process(q, b).price == PriceAt(initial, history, b)
    ensures var rows' := Process(q, b).rows;
            rows' != [] ==> q.rows != [] && rows'[|rows'| - 1] == q.rows[|q.rows| - 1]
  {
    ShortcutIsSound(q, b);
    ScanRows(q, b);
    ScanPrice(q, b, b);
    forall c | c >= b
      ensures PriceAt(Process(q, b).price, Process(q, b).rows, c) == PriceAt(initial, history, c)
    {
      ScanPrice(q, b, c);
    }
  }

  lemma {:induction false} Overrides(initial: Word64, history: seq<Row>, x: Row, b: nat)
    ensures PriceAt(initial, history + [x], b) == if x.block <= b then x.price else PriceAt(initial, history, b)
  {
    assert (history + [x])[..|history|] == history;
  }

  /**
   If the activation block is not before the last key, which holds as long as time does not
   run backwards, the internal check passes and the new price joins the history.
   */
  lemma EnqueueRepresents(initial: Word64, history: seq<Row>, q: Queue, now: nat, price: Word64, a: nat)
    requires Represents(initial, history, q, now)
    requires 0 < a && (q.rows != [] ==> q.rows[|q.rows| - 1].block <= a)
    ensures var r := Enqueue(q, price, a);
            && r.Commit?
            && r.value.rows != [] && r.value.rows[|r.value.rows| - 1] == Row(a, price)
            && r.value.price == q.price
            && Represents(initial, history + [Row(a, price)], r.value, now)
  {
    var x, n := Row(a, price), |q.rows|;
    var q' := Enqueue(q, price, a).value;
    var kept := if n > 0 && a == q.rows[n - 1].block then q.rows[..n - 1] else q.rows;
    assert q'.rows == kept + [x];
    forall b | b >= now
      ensures PriceAt(q'.price, q'.rows, b) == PriceAt(initial, history + [x], b)
    {
      Overrides(q.price, kept, x, b);
      Overrides(initial, history, x, b);
      assert PriceAt(q.price, q.rows, b) == PriceAt(initial, history, b);
    }
  }
}
