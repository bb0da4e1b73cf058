/**
 * Gathering a ledger's events into the batch writer
 * (InsertEvents in cmd/stellar-rpc/internal/db/event.go).
 */
module EventIngest {
  import opened Words
  import opened Cursors
  import opened Ledgers
  import opened EventOrder
  import opened BatchWriters

  /** txEventIndices: per-stage counters of a ledger's transaction-level events. */
  class TxEventIndices {
    var beforeAll: u32
    var afterAll: u32
    var afterTx: u32

    function View(): Indices
      reads this
    {
      Indices(beforeAll, afterAll, afterTx)
    }

    constructor ()
      ensures View() == ZERO
    {
      beforeAll, afterAll, afterTx := 0, 0, 0;
    }

    /** The cursor of a transaction-level event, advancing the counter of its stage. */
    method NextCursor(stage: Stage, ledgerSeq: LedgerNo, txIndex: TxIndex) returns (ok: bool, cursor: Cursor)
      modifies this
      ensures ok == !stage.UnknownStage?
      ensures ok ==> cursor == CursorFor(old(View()), stage, ledgerSeq, txIndex)
      ensures ok ==> View() == Advance(old(View()), stage)
    {
      cursor := Cursor(ledgerSeq, 0, 0, 0);
      match stage {
        case BeforeAllTxs =>
          cursor := cursor.(event := beforeAll);
          beforeAll := Add32(beforeAll, 1);
        case AfterAllTxs =>
          cursor := cursor.(tx := TRANSACTION_MASK, event := afterAll); // behind all transactions
          afterAll := Add32(afterAll, 1);
        case AfterTx =>
          cursor := cursor.(tx := txIndex, op := OPERATION_MASK, event := afterTx); // behind the operations
          afterTx := Add32(afterTx, 1);
        case UnknownStage(_) =>
          return false, cursor;
      }
      ok := true;
    }
  }

  method GatherTxEvents(l: Ledger, i: nat, indices: TxEventIndices, w: BatchWriter<EventRow>) returns (ok: bool)
    requires FitsToid(l) && i < |l.txs| && w.Valid()
    modifies indices, w, w.data
    ensures ok <==> KnownIn(l, i)
    ensures w.Valid() && w.attempts == old(w.attempts) && (w.data == old(w.data) || fresh(w.data))
    ensures ok ==> w.Appended() == old(w.Appended()) + TxRows(l, i, |l.txs[i].txEvents|, old(indices.View()))
    ensures ok ==> indices.View() == IndicesAfter(l, i, |l.txs[i].txEvents|, old(indices.View()))
  {
    hide FitsToid, TxRows, IndicesAfter, TxRow;
    TransactionLimit(l);
    ghost var x := indices.View();
    var tx := l.txs[i];
    NoTxRows(l, i, x);
    for k := 0 to |tx.txEvents|
      invariant w.Valid() && w.attempts == old(w.attempts) && (w.data == old(w.data) || fresh(w.data))
      invariant forall j :: 0 <= j < k ==> !tx.txEvents[j].stage.UnknownStage?
      invariant w.Appended() == old(w.Appended()) + TxRows(l, i, k, x)
      invariant indices.View() == IndicesAfter(l, i, k, x)
    {
      var cursor;
      ok, cursor := indices.NextCursor(tx.txEvents[k].stage, l.seqNo, i + 1);
      if !ok {
        return;
      }
      OneMoreTxRow(l, i, k, x);
      w.Append(Row(l, tx, cursor, tx.txEvents[k].event));
    }
    ok := true;
  }

  lemma NoTxRows(l: Ledger, i: nat, x: Indices)
    requires i < |l.txs| < TRANSACTION_MASK
    ensures TxRows(l, i, 0, x) == [] && IndicesAfter(l, i, 0, x) == x
  {
  }

  lemma OneMoreTxRow(l: Ledger, i: nat, k: nat, x: Indices)
    requires i < |l.txs| < TRANSACTION_MASK && k < |l.txs[i].txEvents|
    ensures var e, y := l.txs[i].txEvents[k], IndicesAfter(l, i, k, x);
            && IndicesAfter(l, i, k + 1, x) == Advance(y, e.stage)
            && TxRows(l, i, k + 1, x)
                 == TxRows(l, i, k, x) + [Row(l, l.txs[i], CursorFor(y, e.stage, l.seqNo, i + 1), e.event)]
  {
  }

  method GatherOpEvents(l: Ledger, i: nat, w: BatchWriter<EventRow>)
    requires FitsToid(l) && i < |l.txs| && w.Valid()
    modifies w, w.data
    ensures w.Valid() && w.attempts == old(w.attempts) && (w.data == old(w.data) || fresh(w.data))
    ensures w.Appended() == old(w.Appended()) + OpRows(l, i, |l.txs[i].opEvents|)
  {
    hide FitsToid, OpRows, OneOpRows;
    var tx := l.txs[i];
    OpLimits(l, i);
    NoOpRows(l, i);
    for opIndex := 0 to |tx.opEvents|
      invariant w.Valid() && w.attempts == old(w.attempts) && (w.data == old(w.data) || fresh(w.data))
      invariant w.Appended() == old(w.Appended()) + OpRows(l, i, opIndex)
    {
      OneMoreOp(l, i, opIndex);
      GatherOneOp(l, i, opIndex, w);
    }
  }

  lemma OpLimits(l: Ledger, i: nat)
    requires FitsToid(l) && i < |l.txs|
    ensures |l.txs| < TRANSACTION_MASK && |l.txs[i].opEvents| <= OPERATION_MASK
    ensures forall j :: 0 <= j < |l.txs[i].opEvents| ==> |l.txs[i].opEvents[j]| < U32_COUNT
  {
  }

  lemma NoOpRows(l: Ledger, i: nat)
    requires FitsToid(l) && i < |l.txs|
    ensures OpRows(l, i, 0) == []
  {
  }

  lemma OneMoreOp(l: Ledger, i: nat, j: nat)
    requires FitsToid(l) && i < |l.txs| && j < |l.txs[i].opEvents|
    ensures |l.txs| < TRANSACTION_MASK && |l.txs[i].opEvents| <= OPERATION_MASK && |l.txs[i].opEvents[j]| < U32_COUNT
    ensures OpRows(l, i, j + 1) == OpRows(l, i, j) + OneOpRows(l, i, j, |l.txs[i].opEvents[j]|)
  {
  }

  method GatherOneOp(l: Ledger, i: nat, opIndex: nat, w: BatchWriter<EventRow>)
    requires FitsToid(l) && i < |l.txs| && opIndex < |l.txs[i].opEvents| && w.Valid()
    modifies w, w.data
    ensures w.Valid() && w.attempts == old(w.attempts) && (w.data == old(w.data) || fresh(w.data))
    ensures w.Appended() == old(w.Appended()) + OneOpRows(l, i, opIndex, |l.txs[i].opEvents[opIndex]|)
  {
    var tx := l.txs[i];
    for eventIndex := 0 to |tx.opEvents[opIndex]|
      invariant w.Valid() && w.attempts == old(w.attempts) && (w.data == old(w.data) || fresh(w.data))
      invariant w.Appended() == old(w.Appended()) + OneOpRows(l, i, opIndex, eventIndex)
    {
      w.Append(Row(l, tx, Cursor(l.seqNo, i + 1, opIndex, eventIndex), tx.opEvents[opIndex][eventIndex]));
    }
  }

  /**
   * InsertEvents. The rows reach the writer in the order of the code, whole batches are written on
   * the way, and less than a batch is left waiting. It fails only on an unknown stage or a failing
   * INSERT.
   */
  method InsertEvents(l: Ledger, w: BatchWriter<EventRow>) returns (ok: bool)
    requires FitsToid(l) && w.Settled()
    modifies w, w.data
    ensures w.Valid() && old(w.attempts) <= w.attempts && (w.data == old(w.data) || fresh(w.data))
    ensures ok ==> KnownStages(l) && w.Settled() && w.Appended() == old(w.Appended()) + Emitted(l)
    ensures !ok ==> !KnownStages(l) || w.FaultIn(old(w.attempts), w.attempts)
  {
    hide FitsToid, TxRows, OpRows, KnownIn, IndicesAt, KnownStages, EmittedTo, Emitted;
    FirstIndices(l);
    NothingEmitted(l);
    if |l.txs| == 0 {
      StagesKnown(l);
      return true;
    }
    TransactionLimit(l);
    var indices := new TxEventIndices();
    for i := 0 to |l.txs|
      invariant w.Settled() && old(w.attempts) <= w.attempts && (w.data == old(w.data) || fresh(w.data))
      invariant fresh(indices) && indices.View() == IndicesAt(l, i).(afterTx := indices.afterTx)
      invariant forall n :: 0 <= n < i ==> KnownIn(l, n)
      invariant w.Appended() == old(w.Appended()) + EmittedTo(l, i)
    {
      ok := InsertTransactionEvents(l, i, indices, w);
      if !ok {
        StagesKnown(l);
        return;
      }
      OneMoreTransaction(l, i);
    }
    StagesKnown(l);
    ok := true;
  }

  lemma OneMoreTransaction(l: Ledger, i: nat)
    requires FitsToid(l) && i < |l.txs| < TRANSACTION_MASK
    ensures EmittedTo(l, i + 1)
         == EmittedTo(l, i)
            + (TxRows(l, i, |l.txs[i].txEvents|, IndicesAt(l, i)) + OpRows(l, i, |l.txs[i].opEvents|))
  {
    hide FitsToid, TxRows, OpRows, IndicesAt;
  }

  lemma NothingEmitted(l: Ledger)
    requires FitsToid(l)
    ensures EmittedTo(l, 0) == [] && Emitted(l) == EmittedTo(l, |l.txs|)
  {
  }

  ghost predicate KnownIn(l: Ledger, i: nat)
    requires i < |l.txs|
  {
    forall k :: 0 <= k < |l.txs[i].txEvents| ==> !l.txs[i].txEvents[k].stage.UnknownStage?
  }

  lemma FirstIndices(l: Ledger)
    ensures IndicesAt(l, 0) == ZERO
  {
  }

  lemma StagesKnown(l: Ledger)
    ensures KnownStages(l) <==> forall n :: 0 <= n < |l.txs| ==> KnownIn(l, n)
  {
    if forall n :: 0 <= n < |l.txs| ==> KnownIn(l, n) {
      forall i, j | 0 <= i < |l.txs| && 0 <= j < |l.txs[i].txEvents|
        ensures !l.txs[i].txEvents[j].stage.UnknownStage?
      {
        assert KnownIn(l, i);
      }
    }
  }

  /** One round of the loop over transactions. */
  method InsertTransactionEvents(l: Ledger, i: nat, indices: TxEventIndices, w: BatchWriter<EventRow>)
    returns (ok: bool)
    requires FitsToid(l) && i < |l.txs| && w.Valid()
    requires indices.View() == IndicesAt(l, i).(afterTx := indices.afterTx)
    modifies indices, w, w.data
    ensures w.Valid() && old(w.attempts) <= w.attempts && (w.data == old(w.data) || fresh(w.data))
    ensures ok ==> KnownIn(l, i) && w.Settled()
    ensures ok ==> indices.View() == IndicesAt(l, i + 1).(afterTx := indices.afterTx)
    ensures ok ==> w.Appended() == old(w.Appended())
                                   + (TxRows(l, i, |l.txs[i].txEvents|, IndicesAt(l, i))
                                      + OpRows(l, i, |l.txs[i].opEvents|))
    ensures !ok ==> !KnownIn(l, i) || w.FaultIn(old(w.attempts), w.attempts)
  {
    hide FitsToid, TxRows, OpRows, IndicesAfter, IndicesAt, KnownIn;
    TransactionLimit(l);
    NextIndices(l, i);
    indices.afterTx := 0; // this counter is per transaction
    FreshAfterTx(l, i);
    ok := GatherTxEvents(l, i, indices, w);
    if !ok {
      return;
    }
    GatherOpEvents(l, i, w);
    ok := w.FlushFullBatches();
  }

  lemma NextIndices(l: Ledger, i: nat)
    requires i < |l.txs|
    ensures IndicesAt(l, i + 1) == IndicesAfter(l, i, |l.txs[i].txEvents|, IndicesAt(l, i)).(afterTx := 0)
  {
  }
}
