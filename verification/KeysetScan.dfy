/**
 * The keyset-paginated scan of undecrypted packets.
 *
 * Other tasks may write between batches, so each batch sees its own table: `tables(n)` is what the n-th read finds.
 * Nothing is assumed about how one table leads to the next, except that rows come back in id order.
 */
module KeysetScan {
  import opened Common
  import opened PathCodec
  import opened RawPackets

  const TEXT_MESSAGE := 2

  // ------------------------------------------------------------ one query

  function Wanted<D>(last: int): Row<D> -> bool {
    (r: Row<D>) => r.messageId.None? && r.id > last
  }

  /** WHERE message_id IS NULL AND id > last. */
  function Undecrypted<D>(rows: seq<Row<D>>, last: int): seq<Row<D>> {
    Keep(rows, Wanted(last))
  }

  /** ... ORDER BY id ASC LIMIT size, on a table in id order. */
  function Batch<D>(rows: seq<Row<D>>, last: int, size: nat): seq<Row<D>> {
    var all := Undecrypted(rows, last);
    if |all| <= size then all else all[..size]
  }

  lemma BatchFacts<D>(rows: seq<Row<D>>, last: int, size: nat)
    requires SortedById(rows)
    ensures var batch := Batch(rows, last, size);
            && SortedById(batch)
            && |batch| <= size
            && forall i :: 0 <= i < |batch| ==> batch[i] in rows && batch[i].messageId.None? && batch[i].id > last
  {
    KeepMembers(rows, Wanted(last));
    KeepOrder(rows, Wanted(last));
  }

  /** A wanted row up to the last of the batch is in the batch. */
  lemma BatchReaches<D>(rows: seq<Row<D>>, last: int, size: nat, i: nat)
    requires SortedById(rows) && i < |rows| && Wanted(last)(rows[i]) && size > 0
    ensures var batch := Batch(rows, last, size);
            batch != [] && (rows[i].id <= batch[|batch| - 1].id ==> rows[i] in batch)
  {
    KeepMembers(rows, Wanted(last));
    KeepOrder(rows, Wanted(last));
    var all := Undecrypted(rows, last);
    var j :| 0 <= j < |all| && all[j] == rows[i];
    var batch := Batch(rows, last, size);
    if rows[i].id <= batch[|batch| - 1].id {
      assert j < |batch| && batch[j] == rows[i];
    }
  }

  // ------------------------------------------------------------ reference: a scan of n batches

  /** The cursor and what has been yielded after n batches. */
  function Scan<D>(tables: nat -> seq<Row<D>>, size: nat, n: nat): (int, seq<Row<D>>) {
    if n == 0 then (-1, [])
    else
      var (last, yielded) := Scan(tables, size, n - 1);
      var batch := Batch(tables(n - 1), last, size);
      (if batch == [] then last else batch[|batch| - 1].id, yielded + batch)
  }

  ghost predicate Ordered<D>(tables: nat -> seq<Row<D>>) {
    forall n: nat :: SortedById(tables(n))
  }

  /** The scan has ended when a batch comes back empty. */
  ghost predicate Ends<D>(tables: nat -> seq<Row<D>>, size: nat, n: nat) {
    Batch(tables(n), Scan(tables, size, n).0, size) == []
  }

  /** The cursor is the last id yielded. */
  lemma {:induction false} ScanCursor<D>(tables: nat -> seq<Row<D>>, size: nat, n: nat)
    ensures var (last, yielded) := Scan(tables, size, n);
            last == if |yielded| == 0 then -1 else yielded[|yielded| - 1].id
  {
    if n > 0 {
      ScanCursor(tables, size, n - 1);
      var (last, yielded) := Scan(tables, size, n - 1);
      LastOfBoth(yielded, Batch(tables(n - 1), last, size));
    }
  }

  lemma LastOfBoth<T>(a: seq<T>, b: seq<T>)
    ensures if b == [] then a + b == a else (a + b)[|a + b| - 1] == b[|b| - 1]
  {
  }

  /** Whatever is written in between, ids are yielded in strictly increasing order. */
  lemma {:induction false} ScanIncreasing<D>(tables: nat -> seq<Row<D>>, size: nat, n: nat)
    requires Ordered(tables)
    ensures SortedById(Scan(tables, size, n).1)
  {
    if n > 0 {
      ScanIncreasing(tables, size, n - 1);
      IncreasingStep(tables, size, n);
    }
  }

  lemma IncreasingStep<D>(tables: nat -> seq<Row<D>>, size: nat, n: nat)
    requires n > 0 && Ordered(tables) && SortedById(Scan(tables, size, n - 1).1)
    ensures SortedById(Scan(tables, size, n).1)
  {
    ScanCursor(tables, size, n - 1);
    var before := Scan(tables, size, n - 1);
    assert SortedById(tables(n - 1));
    OneMoreBatch(tables(n - 1), size, before.0, before.1);
  }

  lemma OneMoreBatch<D>(rows: seq<Row<D>>, size: nat, last: int, yielded: seq<Row<D>>)
    requires SortedById(rows) && SortedById(yielded)
    requires last == if |yielded| == 0 then -1 else yielded[|yielded| - 1].id
    ensures SortedById(yielded + Batch(rows, last, size))
  {
    BatchFacts(rows, last, size);
    AppendSorted(yielded, Batch(rows, last, size), last);
  }

  lemma AppendSorted<D>(a: seq<Row<D>>, b: seq<Row<D>>, last: int)
    requires SortedById(a) && SortedById(b) && (a != [] ==> last == a[|a| - 1].id)
    requires forall i :: 0 <= i < |b| ==> b[i].id > last
    ensures SortedById(a + b)
  {
    assert forall i :: 0 <= i < |a| ==> a[i].id <= last;
  }

  /** Each yielded row stood undecrypted in the table its batch read. */
  lemma {:induction false} YieldedWasWaiting<D>(tables: nat -> seq<Row<D>>, size: nat, n: nat, i: nat)
    requires Ordered(tables) && i < |Scan(tables, size, n).1|
    ensures var r := Scan(tables, size, n).1[i];
            r.messageId.None? && exists m: nat :: m < n && r in tables(m)
  {
    var (last, yielded) := Scan(tables, size, n - 1);
    if i < |yielded| {
      YieldedWasWaiting(tables, size, n - 1, i);
      var m: nat :| m < n - 1 && yielded[i] in tables(m);
    } else {
      assert SortedById(tables(n - 1));
      BatchFacts(tables(n - 1), last, size);
    }
  }

  /** Present, and not linked to a message. */
  ghost predicate Waiting<D>(rows: seq<Row<D>>, id: nat) {
    exists i :: 0 <= i < |rows| && rows[i].id == id && rows[i].messageId.None?
  }

  ghost predicate Yielded<D>(yielded: seq<Row<D>>, id: nat) {
    exists i :: 0 <= i < |yielded| && yielded[i].id == id
  }

  lemma YieldedStays<D>(yielded: seq<Row<D>>, batch: seq<Row<D>>, id: nat)
    ensures Yielded(yielded, id) || Yielded(batch, id) ==> Yielded(yielded + batch, id)
  {
    if Yielded(yielded, id) {
      var i :| 0 <= i < |yielded| && yielded[i].id == id;
      assert (yielded + batch)[i].id == id;
    } else if Yielded(batch, id) {
      var j :| 0 <= j < |batch| && batch[j].id == id;
      assert (yielded + batch)[|yielded| + j].id == id;
    }
  }

  /** A batch that reaches past a waiting row has it. */
  lemma BatchPasses<D>(rows: seq<Row<D>>, last: int, size: nat, id: nat)
    requires SortedById(rows) && size > 0 && Waiting(rows, id) && id > last
    ensures var batch := Batch(rows, last, size);
            batch != [] && (id <= batch[|batch| - 1].id ==> Yielded(batch, id))
  {
    var i :| 0 <= i < |rows| && rows[i].id == id && rows[i].messageId.None?;
    BatchReaches(rows, last, size, i);
  }

  lemma {:induction false} PassedMeansYielded<D>(tables: nat -> seq<Row<D>>, size: nat, n: nat, id: nat)
    requires Ordered(tables) && size > 0
    requires forall m: nat :: m < n ==> Waiting(tables(m), id)
    ensures var (last, yielded) := Scan(tables, size, n); id <= last ==> Yielded(yielded, id)
  {
    if n > 0 {
      PassedMeansYielded(tables, size, n - 1, id);
      var (last, yielded) := Scan(tables, size, n - 1);
      var rows := tables(n - 1);
      assert SortedById(rows) && Waiting(rows, id);
      YieldedStays(yielded, Batch(rows, last, size), id);
      if id > last {
        BatchPasses(rows, last, size, id);
      }
    }
  }

  /** Main result: a row that stays present and undecrypted in every table the scan reads is yielded exactly once. */
  lemma WaitingRowYieldedOnce<D>(tables: nat -> seq<Row<D>>, size: nat, n: nat, id: nat)
    requires Ordered(tables) && size > 0 && Ends(tables, size, n)
    requires forall m: nat :: m <= n ==> Waiting(tables(m), id)
    ensures var yielded := Scan(tables, size, n).1;
            && Yielded(yielded, id)
            && forall i, j :: 0 <= i < |yielded| && 0 <= j < |yielded| && yielded[i].id == id && yielded[j].id == id ==>
                 i == j
  {
    var (last, yielded) := Scan(tables, size, n);
    PassedMeansYielded(tables, size, n, id);
    ScanIncreasing(tables, size, n);
    ScanCursor(tables, size, n);
    var rows := tables(n);
    assert SortedById(rows) && Waiting(rows, id);
    var i :| 0 <= i < |rows| && rows[i].id == id && rows[i].messageId.None?;
    if id > last {
      BatchReaches(rows, last, size, i);
    }
  }

  // ------------------------------------------------------------ without interference

  lemma {:induction false} NoneAbove<D>(rows: seq<Row<D>>, last: int)
    requires forall i :: 0 <= i < |rows| ==> rows[i].id <= last
    ensures Undecrypted(rows, last) == []
  {
    if rows != [] {
      NoneAbove(rows[..|rows| - 1], last);
    }
  }

  /** Moving the cursor to the k-th wanted row leaves exactly the rows after it. */
  lemma {:induction false} UndecryptedAfter<D>(rows: seq<Row<D>>, last: int, k: nat)
    requires SortedById(rows) && 0 < k <= |Undecrypted(rows, last)|
    ensures Undecrypted(rows, Undecrypted(rows, last)[k - 1].id) == Undecrypted(rows, last)[k..]
  {
    var init := rows[..|rows| - 1];
    var before := Undecrypted(init, last);
    var r := rows[|rows| - 1];
    if k <= |before| {
      UndecryptedAfter(init, last, k);
      KeepMembers(init, Wanted(last));
      var n :| 0 <= n < |init| && init[n] == before[k - 1];
      assert rows[n].id < r.id;
      if Wanted(last)(r) {
        assert (before + [r])[k..] == before[k..] + [r];
      }
    } else {
      NoneAbove(init, r.id);
    }
  }

  lemma {:induction false} QuietProgress<D>(tables: nat -> seq<Row<D>>, rows: seq<Row<D>>, size: nat, n: nat)
    requires SortedById(rows) && forall m: nat :: tables(m) == rows
    ensures var (last, yielded) := Scan(tables, size, n);
            yielded + Undecrypted(rows, last) == Undecrypted(rows, -1)
  {
    if n > 0 {
      QuietProgress(tables, rows, size, n - 1);
      var (last, yielded) := Scan(tables, size, n - 1);
      var batch := Batch(rows, last, size);
      if batch != [] {
        SplitBatch(rows, last, size);
        var rest := Undecrypted(rows, batch[|batch| - 1].id);
        assert yielded + (batch + rest) == yielded + batch + rest;
      } else {
        assert yielded + batch == yielded;
      }
    }
  }

  lemma SplitBatch<D>(rows: seq<Row<D>>, last: int, size: nat)
    requires SortedById(rows) && Batch(rows, last, size) != []
    ensures var batch := Batch(rows, last, size);
            Undecrypted(rows, last) == batch + Undecrypted(rows, batch[|batch| - 1].id)
  {
    var all := Undecrypted(rows, last);
    var batch := Batch(rows, last, size);
    UndecryptedAfter(rows, last, |batch|);
    assert all == all[..|batch|] + all[|batch|..];
  }

  /** With no writer about, the batched scan is the plain filtered table. */
  lemma QuietScan<D>(tables: nat -> seq<Row<D>>, rows: seq<Row<D>>, size: nat, n: nat)
    requires SortedById(rows) && (forall m: nat :: tables(m) == rows) && size > 0 && Ends(tables, size, n)
    ensures Scan(tables, size, n).1 == Undecrypted(rows, -1)
  {
    QuietProgress(tables, rows, size, n);
  }

  // ------------------------------------------------------------ the program

  /** The scan ends once no ids beyond `bound` appear (in particular when nothing is inserted), whatever the batch
      size; it yields what the reference scan does up to the first empty batch. */
  method StreamUndecryptedRows<D>(tables: nat -> seq<Row<D>>, size: nat, ghost bound: nat)
    returns (yielded: seq<Row<D>>, batches: nat)
    requires Ordered(tables) && size > 0
    requires forall n: nat, i :: 0 <= i < |tables(n)| ==> tables(n)[i].id < bound
    ensures yielded == Scan(tables, size, batches).1 && Ends(tables, size, batches)
    ensures forall n: nat :: n < batches ==> !Ends(tables, size, n)
  {
    var last: int := -1;
    yielded, batches := [], 0;
    while true
      invariant (last, yielded) == Scan(tables, size, batches)
      invariant last < bound
      invariant forall n: nat :: n < batches ==> !Ends(tables, size, n)
      decreases bound - last
    {
      var rows := Batch(tables(batches), last, size);
      if rows == [] {
        return;
      }
      assert SortedById(tables(batches));
      LastOfBatch(tables(batches), last, size, bound);
      last, yielded := YieldRows(rows, last, yielded);
      batches := batches + 1;
    }
  }

  /** A batch moves the cursor up, but not past the bound. */
  lemma LastOfBatch<D>(rows: seq<Row<D>>, last: int, size: nat, bound: nat)
    requires SortedById(rows) && Batch(rows, last, size) != []
    requires forall i :: 0 <= i < |rows| ==> rows[i].id < bound
    ensures var batch := Batch(rows, last, size); last < batch[|batch| - 1].id < bound
  {
    BatchFacts(rows, last, size);
    var batch := Batch(rows, last, size);
    assert batch[|batch| - 1] in rows;
  }

  /** The inner loop: the cursor follows every row handed out. */
  method YieldRows<D>(rows: seq<Row<D>>, last: int, before: seq<Row<D>>) returns (last': int, yielded: seq<Row<D>>)
    ensures last' == if rows == [] then last else rows[|rows| - 1].id
    ensures yielded == before + rows
  {
    last', yielded := last, before;
    for i := 0 to |rows|
      invariant last' == if i == 0 then last else rows[i - 1].id
      invariant yielded == before + rows[..i]
    {
      last' := rows[i].id;
      yielded := yielded + [rows[i]];
    }
    assert rows[..|rows|] == rows;
  }

  /** `get_packet_payload_type(data) == TEXT_MESSAGE`: the header alone decides. */
  predicate IsText(data: seq<byte>) {
    |data| >= 1 && PayloadType(data[0]) == TEXT_MESSAGE
  }

  /** In plain numbers, and for packets that parse, the payload type they are parsed to. */
  lemma TextExactly(data: seq<byte>)
    ensures IsText(data) <==> data != [] && (data[0] / 4) % 16 == 2
    ensures ParseEnvelope(data).Some? ==> (IsText(data) <==> ParseEnvelope(data).value.payloadType == 2)
  {
  }

  function TextOnly<D>(rows: seq<Row<D>>): seq<Row<D>> {
    Keep(rows, (r: Row<D>) => IsText(r.arrival.data))
  }

  /** The filtered stream: increasing ids, text packets only, and every text packet of the underlying scan. */
  method StreamUndecryptedTextMessages<D>(tables: nat -> seq<Row<D>>, size: nat, ghost bound: nat)
    returns (texts: seq<Row<D>>, ghost scanned: seq<Row<D>>, ghost batches: nat)
    requires Ordered(tables) && size > 0
    requires forall n: nat, i :: 0 <= i < |tables(n)| ==> tables(n)[i].id < bound
    ensures scanned == Scan(tables, size, batches).1 && Ends(tables, size, batches)
    ensures SortedById(texts)
    ensures forall i :: 0 <= i < |texts| ==> texts[i] in scanned && IsText(texts[i].arrival.data)
    ensures forall i :: 0 <= i < |scanned| && IsText(scanned[i].arrival.data) ==> scanned[i] in texts
  {
    var rows, n := StreamUndecryptedRows(tables, size, bound);
    scanned, batches := rows, n;
    ScanIncreasing(tables, size, n);
    KeepMembers(rows, (r: Row<D>) => IsText(r.arrival.data));
    KeepOrder(rows, (r: Row<D>) => IsText(r.arrival.data));
    texts := TextOnly(rows);
  }
}
