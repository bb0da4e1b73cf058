/**
 * What the emitted rows carry: every event of a ledger under its own identity, once, and nothing else
 * (InsertEvents in cmd/stellar-rpc/internal/db/event.go).
 *
 * The numbers of the transaction-level events are counted here from the ledger alone, without the
 * counters of the code.
 */
module EventContent {
  import opened Words
  import opened Cursors
  import opened Ledgers
  import opened EventOrder

  // ---------- counting a ledger's events ----------

  /** Of these transaction-level events, how many are of one stage. */
  function OfStage(events: seq<TxEvent>, stage: Stage): nat {
    if events == [] then 0
    else OfStage(events[..|events| - 1], stage) + if events[|events| - 1].stage == stage then 1 else 0
  }

  /** Of the first n transactions, how many transaction-level events are of one stage. */
  function OfStageTo(txs: seq<Transaction>, n: nat, stage: Stage): nat
    requires n <= |txs|
  {
    if n == 0 then 0 else OfStageTo(txs, n - 1, stage) + OfStage(txs[n - 1].txEvents, stage)
  }

  function CountOps(ops: seq<seq<Event>>): nat {
    if ops == [] then 0 else CountOps(ops[..|ops| - 1]) + |ops[|ops| - 1]|
  }

  /** All events of the first n transactions. */
  function CountEvents(txs: seq<Transaction>, n: nat): nat
    requires n <= |txs|
  {
    if n == 0 then 0 else CountEvents(txs, n - 1) + |txs[n - 1].txEvents| + CountOps(txs[n - 1].opEvents)
  }

  // ---------- the rows a ledger should have ----------

  /** Event k of operation j of transaction i. */
  ghost predicate IsOpEvent(l: Ledger, i: nat, j: nat, k: nat, r: EventRow) {
    && i < |l.txs| && j < |l.txs[i].opEvents| && k < |l.txs[i].opEvents[j]|
    && r.cursor.ledger == l.seqNo && r.cursor.tx == i + 1 && r.cursor.op == j && r.cursor.event == k
    && r.event == l.txs[i].opEvents[j][k]
    && r.txHash == l.txs[i].hash && r.successful == l.txs[i].successful && r.closeTime == l.closeTime
  }

  /**
   * Transaction-level event k of transaction i. Before and after all transactions the events of the stage
   * are numbered across the ledger; after a transaction they are numbered within it.
   */
  ghost predicate IsTxEvent(l: Ledger, i: nat, k: nat, r: EventRow) {
    && i < |l.txs| && k < |l.txs[i].txEvents|
    && var e, c := l.txs[i].txEvents[k], r.cursor;
       var within := OfStage(l.txs[i].txEvents[..k], e.stage);
       var number := OfStageTo(l.txs, i, e.stage) + within;
       && c.ledger == l.seqNo
       && (e.stage == BeforeAllTxs ==> c.tx == 0 && c.op == 0 && c.event == number)
       && (e.stage == AfterAllTxs ==> c.tx == TRANSACTION_MASK && c.op == 0 && c.event == number)
       && (e.stage == AfterTx ==> c.tx == i + 1 && c.op == OPERATION_MASK && c.event == within)
       && r.event == e.event
       && r.txHash == l.txs[i].hash && r.successful == l.txs[i].successful && r.closeTime == l.closeTime
  }

  ghost predicate IsEventOf(l: Ledger, r: EventRow) {
    (exists i, j, k :: IsOpEvent(l, i, j, k, r)) || (exists i, k :: IsTxEvent(l, i, k, r))
  }

  // ---------- the counters of the code count ----------

  lemma {:induction false} CounterAfter(l: Ledger, i: nat, k: nat, x: Indices, stage: Stage)
    requires i < |l.txs| && k <= |l.txs[i].txEvents| && !stage.UnknownStage? && Counter(x, stage) + k < U32_COUNT
    ensures OfStage(l.txs[i].txEvents[..k], stage) <= k
    ensures Counter(IndicesAfter(l, i, k, x), stage) == Counter(x, stage) + OfStage(l.txs[i].txEvents[..k], stage)
  {
    if k > 0 {
      assert l.txs[i].txEvents[..k][..k - 1] == l.txs[i].txEvents[..k - 1];
      CounterAfter(l, i, k - 1, x, stage);
    }
  }

  lemma {:induction false} CounterAt(l: Ledger, i: nat, stage: Stage)
    requires FitsToid(l) && i <= |l.txs| && (stage == BeforeAllTxs || stage == AfterAllTxs)
    ensures Counter(IndicesAt(l, i), stage) == OfStageTo(l.txs, i, stage) <= CountTxEvents(l.txs[..i])
  {
    hide FitsToid;
    if i > 0 {
      CounterAt(l, i - 1, stage);
      CountersFit(l, i - 1);
      var events := l.txs[i - 1].txEvents;
      assert events[..|events|] == events;
      CounterAfter(l, i - 1, |events|, IndicesAt(l, i - 1), stage);
    }
  }

  lemma CountersFit(l: Ledger, i: nat)
    requires FitsToid(l) && i < |l.txs|
    ensures CountTxEvents(l.txs[..i]) + |l.txs[i].txEvents| == CountTxEvents(l.txs[..i + 1]) < U32_COUNT
  {
    CountPrefix(l.txs, i + 1);
  }

  // ---------- what the rows carry ----------

  lemma TxRowIsTxEvent(l: Ledger, i: nat, k: nat)
    requires FitsToid(l) && i < |l.txs| < TRANSACTION_MASK && k < |l.txs[i].txEvents|
    ensures IsTxEvent(l, i, k, TxRow(l, i, k, IndicesAt(l, i)))
  {
    hide FitsToid, IndicesAt, IndicesAfter, OfStage, OfStageTo;
    var x, stage := IndicesAt(l, i), l.txs[i].txEvents[k].stage;
    CountersFit(l, i);
    FreshAfterTx(l, i);
    if stage == BeforeAllTxs || stage == AfterAllTxs {
      CounterAt(l, i, stage);
    }
    if !stage.UnknownStage? {
      CounterAfter(l, i, k, x, stage);
    }
  }

  lemma {:induction false} TxRowsAt(l: Ledger, i: nat, n: nat, x: Indices)
    requires i < |l.txs| < TRANSACTION_MASK && n <= |l.txs[i].txEvents|
    ensures |TxRows(l, i, n, x)| == n
    ensures forall k :: 0 <= k < n ==> TxRows(l, i, n, x)[k] == TxRow(l, i, k, x)
  {
    hide TxRow;
    if n > 0 {
      TxRowsAt(l, i, n - 1, x);
    }
  }

  lemma {:induction false} OneOpRowsAt(l: Ledger, i: nat, j: nat, n: nat)
    requires i < |l.txs| < TRANSACTION_MASK && j < |l.txs[i].opEvents| <= OPERATION_MASK
    requires n <= |l.txs[i].opEvents[j]| && n < U32_COUNT
    ensures |OneOpRows(l, i, j, n)| == n
    ensures forall k :: 0 <= k < n ==> IsOpEvent(l, i, j, k, OneOpRows(l, i, j, n)[k])
  {
    if n > 0 {
      OneOpRowsAt(l, i, j, n - 1);
    }
  }

  /** An event is determined by its place. */
  lemma OpEventIsUnique(l: Ledger, i: nat, j: nat, k: nat, r: EventRow, s: EventRow)
    requires IsOpEvent(l, i, j, k, r) && IsOpEvent(l, i, j, k, s)
    ensures r == s
  {
  }

  lemma TxEventIsUnique(l: Ledger, i: nat, k: nat, r: EventRow, s: EventRow)
    requires IsTxEvent(l, i, k, r) && IsTxEvent(l, i, k, s) && KnownStages(l)
    ensures r == s
  {
  }

  // ---------- membership ----------

  ghost predicate IsOpEventOfTx(l: Ledger, i: nat, n: nat, r: EventRow) {
    exists j, k :: 0 <= j < n && IsOpEvent(l, i, j, k, r)
  }

  ghost predicate IsTxEventOfTx(l: Ledger, i: nat, r: EventRow) {
    exists k :: IsTxEvent(l, i, k, r)
  }

  lemma OneOpMembers(l: Ledger, i: nat, j: nat, r: EventRow)
    requires FitsToid(l) && i < |l.txs| < TRANSACTION_MASK && j < |l.txs[i].opEvents| <= OPERATION_MASK
    requires |l.txs[i].opEvents[j]| < U32_COUNT
    ensures r in OneOpRows(l, i, j, |l.txs[i].opEvents[j]|) <==> exists k :: IsOpEvent(l, i, j, k, r)
  {
    hide FitsToid, OneOpRows;
    var n := |l.txs[i].opEvents[j]|;
    OneOpRowsAt(l, i, j, n);
    if k: nat :| IsOpEvent(l, i, j, k, r) {
      OpEventIsUnique(l, i, j, k, r, OneOpRows(l, i, j, n)[k]);
    }
  }

  lemma {:induction false} OpMembers(l: Ledger, i: nat, n: nat, r: EventRow)
    requires FitsToid(l) && i < |l.txs| < TRANSACTION_MASK && n <= |l.txs[i].opEvents| <= OPERATION_MASK
    ensures r in OpRows(l, i, n) <==> IsOpEventOfTx(l, i, n, r)
  {
    if n > 0 {
      OpFits(l, i, n - 1);
      hide FitsToid, IsOpEvent;
      OpMembers(l, i, n - 1, r);
      OneOpMembers(l, i, n - 1, r);
      var n' := n - 1;
      assert IsOpEventOfTx(l, i, n, r) <==> IsOpEventOfTx(l, i, n', r) || exists k :: IsOpEvent(l, i, n', k, r);
    }
  }

  lemma OpFits(l: Ledger, i: nat, j: nat)
    requires FitsToid(l) && i < |l.txs| && j < |l.txs[i].opEvents|
    ensures |l.txs[i].opEvents[j]| < U32_COUNT
  {
  }

  lemma TxMembers(l: Ledger, i: nat, r: EventRow)
    requires FitsToid(l) && KnownStages(l) && i < |l.txs| < TRANSACTION_MASK
    ensures r in TxRows(l, i, |l.txs[i].txEvents|, IndicesAt(l, i)) <==> IsTxEventOfTx(l, i, r)
  {
    hide FitsToid, KnownStages, TxRow, TxRows, IsTxEvent;
    var n, x := |l.txs[i].txEvents|, IndicesAt(l, i);
    TxRowsAt(l, i, n, x);
    if r in TxRows(l, i, n, x) {
      var k :| 0 <= k < n && TxRows(l, i, n, x)[k] == r;
      TxRowIsTxEvent(l, i, k);
      assert IsTxEvent(l, i, k, r);
    }
    if k: nat :| IsTxEvent(l, i, k, r) {
      TxEventPlace(l, i, k, r);
      TxRowIsTxEvent(l, i, k);
      TxEventIsUnique(l, i, k, r, TxRow(l, i, k, x));
      assert TxRows(l, i, n, x)[k] == r;
    }
  }

  lemma TxEventPlace(l: Ledger, i: nat, k: nat, r: EventRow)
    requires IsTxEvent(l, i, k, r)
    ensures i < |l.txs| && k < |l.txs[i].txEvents|
  {
  }

  ghost predicate IsEventTo(l: Ledger, n: nat, r: EventRow)
    requires n <= |l.txs|
  {
    exists i :: 0 <= i < n && (IsTxEventOfTx(l, i, r) || IsOpEventOfTx(l, i, |l.txs[i].opEvents|, r))
  }

  lemma {:induction false} EmittedMembers(l: Ledger, n: nat, r: EventRow)
    requires FitsToid(l) && KnownStages(l) && n <= |l.txs|
    ensures r in EmittedTo(l, n) <==> IsEventTo(l, n, r)
  {
    hide FitsToid, KnownStages, TxRows, OpRows, IndicesAt, IsTxEventOfTx, IsOpEventOfTx, EmittedTo;
    if n == 0 {
      NothingEmitted(l);
    } else {
      FitsAt(l, n - 1);
      EmittedMembers(l, n - 1, r);
      TxMembers(l, n - 1, r);
      OpMembers(l, n - 1, |l.txs[n - 1].opEvents|, r);
      OneMoreTransaction(l, n);
    }
  }

  lemma NothingEmitted(l: Ledger)
    requires FitsToid(l)
    ensures EmittedTo(l, 0) == []
  {
  }

  lemma OneMoreTransaction(l: Ledger, n: nat)
    requires FitsToid(l) && 0 < n <= |l.txs| < TRANSACTION_MASK
    ensures var a, b := TxRows(l, n - 1, |l.txs[n - 1].txEvents|, IndicesAt(l, n - 1)),
                        OpRows(l, n - 1, |l.txs[n - 1].opEvents|);
            && (forall r :: r in EmittedTo(l, n) <==> r in EmittedTo(l, n - 1) || r in a || r in b)
            && |EmittedTo(l, n)| == |EmittedTo(l, n - 1)| + |a| + |b|
  {
    hide FitsToid, TxRows, OpRows, IndicesAt;
  }

  lemma FitsAt(l: Ledger, i: nat)
    requires FitsToid(l) && i < |l.txs|
    ensures |l.txs| < TRANSACTION_MASK && |l.txs[i].opEvents| <= OPERATION_MASK
  {
  }

  // ---------- how many ----------

  lemma {:induction false} OpRowsCount(l: Ledger, i: nat, n: nat)
    requires FitsToid(l) && i < |l.txs| < TRANSACTION_MASK && n <= |l.txs[i].opEvents| <= OPERATION_MASK
    ensures |OpRows(l, i, n)| == CountOps(l.txs[i].opEvents[..n])
  {
    if n > 0 {
      OpFits(l, i, n - 1);
      hide FitsToid;
      var ops := l.txs[i].opEvents;
      assert ops[..n][..n - 1] == ops[..n - 1];
      OpRowsCount(l, i, n - 1);
      OneOpRowsAt(l, i, n - 1, |ops[n - 1]|);
    }
  }

  lemma {:induction false} EmittedCount(l: Ledger, n: nat)
    requires FitsToid(l) && n <= |l.txs|
    ensures |EmittedTo(l, n)| == CountEvents(l.txs, n)
  {
    hide FitsToid, TxRows, OpRows, EmittedTo, IndicesAt, CountOps;
    if n == 0 {
      NothingEmitted(l);
    } else {
      FitsAt(l, n - 1);
      OneMoreTransaction(l, n);
      EmittedCount(l, n - 1);
      TxRowsAt(l, n - 1, |l.txs[n - 1].txEvents|, IndicesAt(l, n - 1));
      var ops := l.txs[n - 1].opEvents;
      assert ops[..|ops|] == ops;
      OpRowsCount(l, n - 1, |ops|);
    }
  }

  // ---------- results ----------

  /**
   * The rows of a ledger are its events, each under its own identity and with its own content, and as
   * many as there are; IdsAreDistinct says that no two share an identity.
   */
  lemma EmittedAreTheEvents(l: Ledger)
    requires FitsToid(l) && KnownStages(l)
    ensures forall r :: r in Emitted(l) <==> IsEventOf(l, r)
    ensures |Emitted(l)| == CountEvents(l.txs, |l.txs|)
  {
    hide FitsToid, KnownStages, EmittedTo;
    EmittedCount(l, |l.txs|);
    forall r
      ensures r in Emitted(l) <==> IsEventOf(l, r)
    {
      EmittedMembers(l, |l.txs|, r);
      EventsByTransaction(l, r);
    }
  }

  lemma EventsByTransaction(l: Ledger, r: EventRow)
    ensures IsEventTo(l, |l.txs|, r) <==> IsEventOf(l, r)
  {
    if i: nat, j: nat, k: nat :| IsOpEvent(l, i, j, k, r) {
      assert IsOpEventOfTx(l, i, |l.txs[i].opEvents|, r);
    }
    if i: nat, k: nat :| IsTxEvent(l, i, k, r) {
      assert IsTxEventOfTx(l, i, r);
    }
  }

  /** Event k of operation j of transaction i is emitted as itself. */
  lemma OpEventIsEmitted(l: Ledger, i: nat, j: nat, k: nat)
    requires FitsToid(l) && KnownStages(l)
    requires i < |l.txs| < TRANSACTION_MASK && j < |l.txs[i].opEvents| <= OPERATION_MASK
    requires k < |l.txs[i].opEvents[j]| && k < U32_COUNT
    ensures EventRow(Cursor(l.seqNo, i + 1, j, k), l.txs[i].hash, l.txs[i].successful, l.txs[i].opEvents[j][k],
                     l.closeTime) in Emitted(l)
  {
    hide FitsToid, KnownStages, Emitted;
    EmittedAreTheEvents(l);
    var r := EventRow(Cursor(l.seqNo, i + 1, j, k), l.txs[i].hash, l.txs[i].successful, l.txs[i].opEvents[j][k],
                      l.closeTime);
    assert IsOpEvent(l, i, j, k, r);
  }
}
