/**
 * Batched INSERTs: rows wait in a slice and are written in full batches, the rest at commit
 * (`pending`, `flush` and `flushPending` in cmd/stellar-rpc/internal/db/event.go and
 * cmd/stellar-rpc/internal/db/transaction.go).
 */
module BatchWriters {

  /** Bind variables in a full batch: 10 * 3,000 event columns, 3 * 10,000 transaction columns. */
  const MAX_VARIABLES: nat := 30_000

  const MAX_EVENTS_PER_BATCH: nat := 3_000
  const EVENT_COLUMNS: nat := 10
  const MAX_TX_ROWS_PER_BATCH: nat := 10_000
  const TX_COLUMNS: nat := 3

  class BatchWriter<T(0)> {
    const batch: nat
    const columns: nat
    const faultAt: nat -> bool     // does the i-th INSERT fail?
    var data: array<T>             // backing array of the slice `pending`
    var size: nat                  // its length
    var flushed: seq<T>            // the rows of all successful INSERTs, in order
    var attempts: nat
    ghost var widest: nat          // most bind variables in a statement so far

    ghost predicate Valid()
      reads this
    {
      && 0 < batch && 0 < columns && batch * columns <= MAX_VARIABLES
      && size <= data.Length
      && widest <= MAX_VARIABLES
    }

    /** Between inserts less than a batch is waiting. */
    ghost predicate Settled()
      reads this
    {
      Valid() && size < batch
    }

    function Pending(): seq<T>
      reads this, data
    {
      if size <= data.Length then data[..size] else []
    }

    /** Everything appended so far, in order: written rows, then waiting ones. */
    function Appended(): seq<T>
      reads this, data
    {
      flushed + Pending()
    }

    ghost predicate FaultIn(from: nat, to: nat) {
      exists i :: from <= i < to && faultAt(i)
    }

    constructor (batch: nat, columns: nat, faultAt: nat -> bool)
      requires 0 < batch && 0 < columns && batch * columns <= MAX_VARIABLES
      ensures Settled() && fresh(data) && this.faultAt == faultAt && this.batch == batch && this.columns == columns
      ensures Appended() == [] && flushed == [] && attempts == 0
    {
      this.batch, this.columns, this.faultAt := batch, columns, faultAt;
      data := new T[0];
      size, flushed, attempts, widest := 0, [], 0, 0;
    }

    /** `pending = append(pending, row)`: grows the backing array when it is full. */
    method Append(row: T)
      requires Valid()
      modifies this`data, this`size, data
      ensures Valid() && size == old(size) + 1
      ensures data == old(data) || fresh(data)
      ensures Pending() == old(Pending()) + [row] && Appended() == old(Appended()) + [row]
    {
      if size == data.Length {
        var bigger := new T[2 * data.Length + 1];
        forall i | 0 <= i < size {
          bigger[i] := data[i];
        }
        data := bigger;
      }
      data[size] := row;
      size := size + 1;
    }

    /** Writes the first n rows in one statement and shifts the rest to the front, in place. */
    method Flush(n: nat) returns (ok: bool)
      requires Valid() && n <= size && n <= batch
      modifies this`size, this`flushed, this`attempts, this`widest, data
      ensures Valid() && attempts == old(attempts) + 1 && ok == !faultAt(old(attempts))
      ensures Appended() == old(Appended())
      ensures size == if ok then old(size) - n else old(size)
      ensures n * columns <= widest && old(widest) <= widest
      ensures ok ==> flushed == old(flushed) + old(Pending())[..n]
    {
      MulMonotone(n, batch, columns);
      widest := if n * columns > widest then n * columns else widest;
      ok := !faultAt(attempts);
      attempts := attempts + 1;
      if !ok {
        return;
      }
      ghost var before, written := data[..size], flushed;
      flushed := flushed + data[..n];
      ShiftDown(data, n, size);
      size := size - n;
      TakeAndDrop(written, before, n);
    }

    /** Full fixed-size batches; the remainder waits for the commit. */
    method FlushFullBatches() returns (ok: bool)
      requires Valid()
      modifies this`size, this`flushed, this`attempts, this`widest, data
      ensures Valid() && old(attempts) <= attempts
      ensures Appended() == old(Appended())
      ensures ok ==> size < batch && old(size) == (attempts - old(attempts)) * batch + size
      ensures !ok ==> FaultIn(old(attempts), attempts)
    {
      while size >= batch
        invariant Valid() && old(attempts) <= attempts && data == old(data)
        invariant Appended() == old(Appended()) && old(size) == (attempts - old(attempts)) * batch + size
      {
        OneMoreBatch(attempts - old(attempts), batch);
        ok := Flush(batch);
        if !ok {
          return;
        }
      }
      ok := true;
    }

    /** flushPending: on success nothing is waiting and every appended row is written. */
    method FlushPending() returns (ok: bool)
      requires Settled()
      modifies this`size, this`flushed, this`attempts, this`widest, data
      ensures size < batch && Settled() && attempts == old(attempts) + if old(size) == 0 then 0 else 1
      ensures Appended() == old(Appended())
      ensures ok ==> Pending() == [] && flushed == old(Appended())
      ensures !ok ==> FaultIn(old(attempts), attempts)
    {
      if size == 0 {
        return true;
      }
      ok := Flush(size);
    }
  }

  lemma TakeAndDrop<T>(written: seq<T>, pending: seq<T>, n: nat)
    requires n <= |pending|
    ensures written + pending[..n] + pending[n..] == written + pending
  {
    assert pending == pending[..n] + pending[n..];
  }

  /** `copy(a, a[n:size])` within one array. */
  method ShiftDown<T>(a: array<T>, n: nat, size: nat)
    requires n <= size <= a.Length
    modifies a
    ensures a[..size - n] == old(a[n..size])
  {
    for i := 0 to size - n
      invariant forall k :: 0 <= k < i ==> a[k] == old(a[k + n])
      invariant forall k :: i <= k < a.Length ==> a[k] == old(a[k])
    {
      a[i] := a[i + n];
    }
  }

  lemma OneMoreBatch(k: int, batch: nat)
    ensures (k + 1) * batch == k * batch + batch
  {
  }

  lemma MulMonotone(a: nat, b: nat, c: nat)
    requires a <= b
    ensures a * c <= b * c
  {
  }
}
