/** Ledgers, transactions and events as the ingestion code sees them. */
module Ledgers {
  import opened Words
  import opened Cursors
  import opened Wrappers

  /** Byte strings, compared as a whole only. */
  datatype Hash = Hash(bytes: string)
  datatype ContractId = ContractId(bytes: string)

  /** XDR value of a topic; two values are equal exactly when their encodings are. */
  datatype ScVal = ScVal(encoding: string)

  datatype Event = Event(contractId: Option<ContractId>, eventType: int, topics: seq<ScVal>, data: string)

  datatype Stage = BeforeAllTxs | AfterTx | AfterAllTxs | UnknownStage(code: int)

  /** A transaction-level event. */
  datatype TxEvent = TxEvent(stage: Stage, event: Event)

  /** A transaction; a fee bump also has the hash of its inner transaction. */
  datatype Transaction = Transaction(
    hash: Hash, innerHash: Option<Hash>, successful: bool,
    txEvents: seq<TxEvent>, opEvents: seq<seq<Event>>)

  /** A closed ledger; transaction i (from 0) has application order i + 1. */
  datatype Ledger = Ledger(seqNo: LedgerNo, closeTime: int, txs: seq<Transaction>)

  /** A row of the events table; its key is the printed cursor. */
  datatype EventRow = EventRow(cursor: Cursor, txHash: Hash, successful: bool, event: Event, closeTime: int)
  {
    function Id(): string {
      ToString(cursor)
    }
  }

  function Row(l: Ledger, tx: Transaction, cursor: Cursor, event: Event): EventRow {
    EventRow(cursor, tx.hash, tx.successful, event, l.closeTime)
  }

  /** What the indices of a TOID can hold, with the largest values left for the special cursors. */
  ghost predicate FitsToid(l: Ledger) {
    && |l.txs| < TRANSACTION_MASK
    && (forall i :: 0 <= i < |l.txs| ==> |l.txs[i].opEvents| <= OPERATION_MASK)
    && (forall i, j :: 0 <= i < |l.txs| && 0 <= j < |l.txs[i].opEvents| ==> |l.txs[i].opEvents[j]| < U32_COUNT)
    && CountTxEvents(l.txs) < U32_COUNT
  }

  function CountTxEvents(txs: seq<Transaction>): nat {
    if txs == [] then 0 else CountTxEvents(txs[..|txs| - 1]) + |txs[|txs| - 1].txEvents|
  }

  /** Only the three known stages occur. */
  ghost predicate KnownStages(l: Ledger) {
    forall i, j :: 0 <= i < |l.txs| && 0 <= j < |l.txs[i].txEvents| ==> !l.txs[i].txEvents[j].stage.UnknownStage?
  }
}
