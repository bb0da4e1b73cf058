/**
 * The identity and the order of a ledger's events
 * (InsertEvents and txEventIndices.cursor in cmd/stellar-rpc/internal/db/event.go).
 *
 * `Emitted` lists the events in the order in which the code appends them, numbered with its
 * counters. `Chronological` lists them in the order in which they happened.
 */
module EventOrder {
  import opened Words
  import opened Cursors
  import opened Ledgers
  import opened Wrappers

  datatype Indices = Indices(beforeAll: u32, afterAll: u32, afterTx: u32)

  const ZERO := Indices(0, 0, 0)

  /** The cursor of a transaction-level event; `txIndex` counts from 1. */
  function CursorFor(x: Indices, stage: Stage, ledger: LedgerNo, txIndex: TxIndex): Cursor {
    match stage
    case BeforeAllTxs => Cursor(ledger, 0, 0, x.beforeAll)
    case AfterAllTxs => Cursor(ledger, TRANSACTION_MASK, 0, x.afterAll)
    case AfterTx => Cursor(ledger, txIndex, OPERATION_MASK, x.afterTx)
    case UnknownStage(_) => Cursor(ledger, 0, 0, 0)
  }

  function Advance(x: Indices, stage: Stage): Indices {
    match stage
    case BeforeAllTxs => x.(beforeAll := Add32(x.beforeAll, 1))
    case AfterAllTxs => x.(afterAll := Add32(x.afterAll, 1))
    case AfterTx => x.(afterTx := Add32(x.afterTx, 1))
    case UnknownStage(_) => x
  }

  // ---------- the order of the code ----------

  /** The counters after the first k transaction-level events of transaction i. */
  function IndicesAfter(l: Ledger, i: nat, k: nat, x: Indices): Indices
    requires i < |l.txs| && k <= |l.txs[i].txEvents|
  {
    if k == 0 then x else Advance(IndicesAfter(l, i, k - 1, x), l.txs[i].txEvents[k - 1].stage)
  }

  function TxRow(l: Ledger, i: nat, k: nat, x: Indices): EventRow
    requires i < |l.txs| < TRANSACTION_MASK && k < |l.txs[i].txEvents|
  {
    var e := l.txs[i].txEvents[k];
    Row(l, l.txs[i], CursorFor(IndicesAfter(l, i, k, x), e.stage, l.seqNo, i + 1), e.event)
  }

  /** The rows of the first k transaction-level events of transaction i. */
  function TxRows(l: Ledger, i: nat, k: nat, x: Indices): seq<EventRow>
    requires i < |l.txs| < TRANSACTION_MASK && k <= |l.txs[i].txEvents|
  {
    if k == 0 then [] else TxRows(l, i, k - 1, x) + [TxRow(l, i, k - 1, x)]
  }

  function OpRow(l: Ledger, i: nat, j: nat, k: nat): EventRow
    requires i < |l.txs| < TRANSACTION_MASK && j < |l.txs[i].opEvents| <= OPERATION_MASK
    requires k < |l.txs[i].opEvents[j]| && k < U32_COUNT
  {
    Row(l, l.txs[i], Cursor(l.seqNo, i + 1, j, k), l.txs[i].opEvents[j][k])
  }

  /** The rows of the first k events of operation j. */
  function OneOpRows(l: Ledger, i: nat, j: nat, k: nat): (r: seq<EventRow>)
    requires i < |l.txs| < TRANSACTION_MASK && j < |l.txs[i].opEvents| <= OPERATION_MASK
    requires k <= |l.txs[i].opEvents[j]| && k < U32_COUNT
  {
    if k == 0 then [] else OneOpRows(l, i, j, k - 1) + [OpRow(l, i, j, k - 1)]
  }

  /** The rows of the first j operations of transaction i. */
  function OpRows(l: Ledger, i: nat, j: nat): seq<EventRow>
    requires FitsToid(l) && i < |l.txs| && j <= |l.txs[i].opEvents|
  {
    if j == 0 then [] else OpRows(l, i, j - 1) + OneOpRows(l, i, j - 1, |l.txs[i].opEvents[j - 1]|)
  }

  /** The counters when transaction i begins: those of the ledger, with a fresh per-transaction one. */
  function IndicesAt(l: Ledger, i: nat): Indices
    requires i <= |l.txs|
  {
    if i == 0 then ZERO
    else IndicesAfter(l, i - 1, |l.txs[i - 1].txEvents|, IndicesAt(l, i - 1)).(afterTx := 0)
  }

  /** Everything the code appends for the first n transactions. */
  function EmittedTo(l: Ledger, n: nat): seq<EventRow>
    requires FitsToid(l) && n <= |l.txs|
  {
    if n == 0 then []
    else
      EmittedTo(l, n - 1)
      + TxRows(l, n - 1, |l.txs[n - 1].txEvents|, IndicesAt(l, n - 1))
      + OpRows(l, n - 1, |l.txs[n - 1].opEvents|)
  }

  function Emitted(l: Ledger): seq<EventRow>
    requires FitsToid(l)
  {
    EmittedTo(l, |l.txs|)
  }

  // ---------- the order of events ----------

  /** Of the first k transaction-level events of transaction i, those of one stage. */
  function Staged(l: Ledger, i: nat, k: nat, x: Indices, stage: Stage): seq<EventRow>
    requires i < |l.txs| < TRANSACTION_MASK && k <= |l.txs[i].txEvents|
  {
    if k == 0 then []
    else AddIf(l.txs[i].txEvents[k - 1].stage == stage, Staged(l, i, k - 1, x, stage), TxRow(l, i, k - 1, x))
  }

  function AddIf<T>(c: bool, s: seq<T>, r: T): seq<T> {
    if c then s + [r] else s
  }

  function StagedOf(l: Ledger, i: nat, stage: Stage): seq<EventRow>
    requires i < |l.txs| < TRANSACTION_MASK
  {
    Staged(l, i, |l.txs[i].txEvents|, IndicesAt(l, i), stage)
  }

  /** The events of one ledger-wide stage, transaction by transaction. */
  function LedgerWide(l: Ledger, n: nat, stage: Stage): seq<EventRow>
    requires n <= |l.txs| < TRANSACTION_MASK
  {
    if n == 0 then [] else LedgerWide(l, n - 1, stage) + StagedOf(l, n - 1, stage)
  }

  /** Each transaction's operation events, then its post-apply events. */
  function Applying(l: Ledger, n: nat): seq<EventRow>
    requires FitsToid(l) && n <= |l.txs|
  {
    if n == 0 then []
    else Applying(l, n - 1) + OpRows(l, n - 1, |l.txs[n - 1].opEvents|) + StagedOf(l, n - 1, AfterTx)
  }

  function Chronological(l: Ledger): seq<EventRow>
    requires FitsToid(l)
  {
    var n := |l.txs|;
    LedgerWide(l, n, BeforeAllTxs) + Applying(l, n) + LedgerWide(l, n, AfterAllTxs)
  }

  // ---------- the same events in both orders ----------

  ghost predicate Partition<T>(all: seq<T>, a: seq<T>, b: seq<T>, c: seq<T>) {
    multiset(all) == multiset(a) + multiset(b) + multiset(c)
  }

  lemma AddToOne<T>(all: seq<T>, a: seq<T>, b: seq<T>, c: seq<T>, r: T, stage: Stage)
    requires Partition(all, a, b, c) && !stage.UnknownStage?
    ensures Partition(all + [r], AddIf(stage == BeforeAllTxs, a, r), AddIf(stage == AfterTx, b, r),
                      AddIf(stage == AfterAllTxs, c, r))
  {
  }

  lemma JoinPartitions<T>(e: seq<T>, a: seq<T>, b: seq<T>, c: seq<T>, more: seq<T>, x: seq<T>, y: seq<T>, z: seq<T>,
                          ops: seq<T>)
    requires Partition(e, a, b, c) && Partition(more, x, y, z)
    ensures Partition(e + more + ops, a + x, b + ops + y, c + z)
  {
  }

  lemma {:induction false} StagesPartition(l: Ledger, i: nat, k: nat, x: Indices)
    requires i < |l.txs| < TRANSACTION_MASK && k <= |l.txs[i].txEvents| && KnownStages(l)
    ensures Partition(TxRows(l, i, k, x), Staged(l, i, k, x, BeforeAllTxs), Staged(l, i, k, x, AfterTx),
                      Staged(l, i, k, x, AfterAllTxs))
  {
    if k == 0 {
      PartitionOfNothing<EventRow>();
    } else {
      hide Partition, TxRows, Staged, TxRow, KnownStages, AddIf;
      StagesPartition(l, i, k - 1, x);
      KnownStage(l, i, k - 1);
      OneMoreStaged(l, i, k, x, BeforeAllTxs);
      OneMoreStaged(l, i, k, x, AfterTx);
      OneMoreStaged(l, i, k, x, AfterAllTxs);
      AddToOne(TxRows(l, i, k - 1, x), Staged(l, i, k - 1, x, BeforeAllTxs), Staged(l, i, k - 1, x, AfterTx),
               Staged(l, i, k - 1, x, AfterAllTxs), TxRow(l, i, k - 1, x), l.txs[i].txEvents[k - 1].stage);
    }
  }

  lemma OneMoreStaged(l: Ledger, i: nat, k: nat, x: Indices, stage: Stage)
    requires i < |l.txs| < TRANSACTION_MASK && 0 < k <= |l.txs[i].txEvents|
    ensures TxRows(l, i, k, x) == TxRows(l, i, k - 1, x) + [TxRow(l, i, k - 1, x)]
    ensures Staged(l, i, k, x, stage)
         == AddIf(l.txs[i].txEvents[k - 1].stage == stage, Staged(l, i, k - 1, x, stage), TxRow(l, i, k - 1, x))
  {
    hide TxRow;
  }

  lemma PartitionOfNothing<T>()
    ensures Partition<T>([], [], [], [])
  {
  }

  lemma KnownStage(l: Ledger, i: nat, k: nat)
    requires KnownStages(l) && i < |l.txs| && k < |l.txs[i].txEvents|
    ensures !l.txs[i].txEvents[k].stage.UnknownStage?
  {
  }

  lemma {:induction false} SameRows(l: Ledger, n: nat)
    requires FitsToid(l) && KnownStages(l) && n <= |l.txs|
    ensures Partition(EmittedTo(l, n), LedgerWide(l, n, BeforeAllTxs), Applying(l, n), LedgerWide(l, n, AfterAllTxs))
  {
    hide FitsToid, KnownStages, TxRows, Staged, OpRows, Partition, IndicesAt;
    TransactionLimit(l);
    if n == 0 {
      PartitionOfNothing<EventRow>();
    } else {
      var x := IndicesAt(l, n - 1);
      var k := |l.txs[n - 1].txEvents|;
      SameRows(l, n - 1);
      StagesPartition(l, n - 1, k, x);
      JoinPartitions(EmittedTo(l, n - 1), LedgerWide(l, n - 1, BeforeAllTxs), Applying(l, n - 1),
                     LedgerWide(l, n - 1, AfterAllTxs), TxRows(l, n - 1, k, x), Staged(l, n - 1, k, x, BeforeAllTxs),
                     Staged(l, n - 1, k, x, AfterTx), Staged(l, n - 1, k, x, AfterAllTxs),
                     OpRows(l, n - 1, |l.txs[n - 1].opEvents|));
    }
  }

  // ---------- where each event gets its number ----------

  function Counter(x: Indices, stage: Stage): u32 {
    match stage
    case BeforeAllTxs => x.beforeAll
    case AfterAllTxs => x.afterAll
    case AfterTx => x.afterTx
    case UnknownStage(_) => 0
  }

  function NumberedCursor(l: Ledger, i: nat, stage: Stage, number: u32): Cursor
    requires i < |l.txs| < TRANSACTION_MASK
  {
    match stage
    case BeforeAllTxs => Cursor(l.seqNo, 0, 0, number)
    case AfterAllTxs => Cursor(l.seqNo, TRANSACTION_MASK, 0, number)
    case AfterTx => Cursor(l.seqNo, i + 1, OPERATION_MASK, number)
    case UnknownStage(_) => Cursor(l.seqNo, 0, 0, 0)
  }

  /** The events of a stage are numbered consecutively from the counter on. */
  lemma {:induction false} StagedNumbers(l: Ledger, i: nat, k: nat, x: Indices, stage: Stage)
    requires i < |l.txs| < TRANSACTION_MASK && k <= |l.txs[i].txEvents| && !stage.UnknownStage?
    requires Counter(x, stage) + k < U32_COUNT
    ensures var rows := Staged(l, i, k, x, stage);
            && |rows| <= k
            && Counter(IndicesAfter(l, i, k, x), stage) == Counter(x, stage) + |rows|
            && forall p :: 0 <= p < |rows| ==> rows[p].cursor == NumberedCursor(l, i, stage, Counter(x, stage) + p)
  {
    if k > 0 {
      StagedNumbers(l, i, k - 1, x, stage);
    }
  }

  lemma {:induction false} CountPrefix(txs: seq<Transaction>, n: nat)
    requires n <= |txs|
    ensures CountTxEvents(txs[..n]) <= CountTxEvents(txs)
    ensures n > 0 ==> CountTxEvents(txs[..n]) == CountTxEvents(txs[..n - 1]) + |txs[n - 1].txEvents|
    decreases |txs|
  {
    if n > 0 {
      assert txs[..n][..n - 1] == txs[..n - 1];
    }
    if n == |txs| {
      assert txs[..n] == txs;
    } else {
      CountPrefix(txs[..|txs| - 1], n);
      assert txs[..|txs| - 1][..n] == txs[..n];
    }
  }

  /** A ledger-wide stage is numbered 0, 1, 2, ... across all transactions. */
  lemma {:induction false} LedgerWideNumbers(l: Ledger, n: nat, stage: Stage)
    requires FitsToid(l) && n <= |l.txs| && (stage == BeforeAllTxs || stage == AfterAllTxs)
    ensures var rows := LedgerWide(l, n, stage);
            && |rows| == Counter(IndicesAt(l, n), stage) <= CountTxEvents(l.txs[..n])
            && forall p :: 0 <= p < |rows| ==>
                 rows[p].cursor == Cursor(l.seqNo, if stage == BeforeAllTxs then 0 else TRANSACTION_MASK, 0, p)
  {
    CountPrefix(l.txs, n);
    if n > 0 {
      LedgerWideNumbers(l, n - 1, stage);
      StagedNumbers(l, n - 1, |l.txs[n - 1].txEvents|, IndicesAt(l, n - 1), stage);
    }
  }

  // ---------- ascending IDs ----------

  ghost predicate Ascending(rows: seq<EventRow>) {
    forall p, q :: 0 <= p < q < |rows| ==> Less(rows[p].cursor, rows[q].cursor)
  }

  ghost predicate AllBelow(a: seq<EventRow>, b: seq<EventRow>) {
    forall p, q :: 0 <= p < |a| && 0 <= q < |b| ==> Less(a[p].cursor, b[q].cursor)
  }

  lemma AscendingConcat(a: seq<EventRow>, b: seq<EventRow>)
    requires Ascending(a) && Ascending(b) && AllBelow(a, b)
    ensures Ascending(a + b)
  {
  }

  lemma {:induction false} OneOpAscends(l: Ledger, i: nat, j: nat, k: nat)
    requires i < |l.txs| < TRANSACTION_MASK && j < |l.txs[i].opEvents| <= OPERATION_MASK
    requires k <= |l.txs[i].opEvents[j]| && k < U32_COUNT
    ensures var rows := OneOpRows(l, i, j, k);
            |rows| == k && forall p :: 0 <= p < k ==> rows[p].cursor == Cursor(l.seqNo, i + 1, j, p)
    ensures Ascending(OneOpRows(l, i, j, k))
  {
    if k > 0 {
      OneOpAscends(l, i, j, k - 1);
    }
  }

  lemma {:induction false} OpsAscend(l: Ledger, i: nat, j: nat)
    requires FitsToid(l) && i < |l.txs| && j <= |l.txs[i].opEvents|
    ensures Ascending(OpRows(l, i, j))
    ensures forall r :: r in OpRows(l, i, j) ==>
              r.cursor.ledger == l.seqNo && r.cursor.tx == i + 1 && r.cursor.op < j && r.cursor.event < U32_COUNT - 1
  {
    if j > 0 {
      OpsAscend(l, i, j - 1);
      var a, b := OpRows(l, i, j - 1), OneOpRows(l, i, j - 1, |l.txs[i].opEvents[j - 1]|);
      OneOpAscends(l, i, j - 1, |l.txs[i].opEvents[j - 1]|);
      assert forall p :: 0 <= p < |a| ==> a[p] in a;
      AscendingConcat(a, b);
    }
  }

  /** One transaction: operations first, then post-apply events, all under its own index. */
  lemma TransactionAscends(l: Ledger, i: nat)
    requires FitsToid(l) && i < |l.txs|
    ensures var rows := OpRows(l, i, |l.txs[i].opEvents|) + StagedOf(l, i, AfterTx);
            && Ascending(rows)
            && forall r :: r in rows ==>
                 r.cursor.ledger == l.seqNo && r.cursor.tx == i + 1 && r.cursor.event < U32_COUNT - 1
  {
    var a, b := OpRows(l, i, |l.txs[i].opEvents|), StagedOf(l, i, AfterTx);
    OpsAscend(l, i, |l.txs[i].opEvents|);
    TxEventBound(l, i);
    FreshAfterTx(l, i);
    StagedNumbers(l, i, |l.txs[i].txEvents|, IndicesAt(l, i), AfterTx);
    assert forall p :: 0 <= p < |a| ==> a[p] in a;
    AscendingConcat(a, b);
  }

  lemma FreshAfterTx(l: Ledger, i: nat)
    requires i <= |l.txs|
    ensures IndicesAt(l, i).afterTx == 0
  {
  }

  lemma TxEventBound(l: Ledger, i: nat)
    requires FitsToid(l) && i < |l.txs|
    ensures |l.txs[i].txEvents| < U32_COUNT
  {
    CountPrefix(l.txs, i + 1);
  }

  lemma {:induction false} ApplyingAscends(l: Ledger, n: nat)
    requires FitsToid(l) && n <= |l.txs|
    ensures Ascending(Applying(l, n))
    ensures forall r :: r in Applying(l, n) ==>
              r.cursor.ledger == l.seqNo && 1 <= r.cursor.tx <= n && r.cursor.event < U32_COUNT - 1
  {
    hide OpRows, StagedOf, FitsToid, Ascending;
    TransactionLimit(l);
    if n > 0 {
      ApplyingAscends(l, n - 1);
      TransactionAscends(l, n - 1);
      var a, b := Applying(l, n - 1), OpRows(l, n - 1, |l.txs[n - 1].opEvents|) + StagedOf(l, n - 1, AfterTx);
      LaterTransaction(a, b, l.seqNo, n);
      assert Applying(l, n) == a + b;
    } else {
      NothingAscends();
    }
  }

  /**
   * The chronological order is the order of the cursors, the two orders hold the same events, and
   * so all cursors of a ledger differ.
   */
  lemma ChronologicalOrder(l: Ledger)
    requires FitsToid(l) && KnownStages(l)
    ensures multiset(Emitted(l)) == multiset(Chronological(l))
    ensures Ascending(Chronological(l))
    ensures forall r :: r in Chronological(l) ==>
              r.cursor.ledger == l.seqNo && r.cursor.event < U32_COUNT - 1
              && !(r.cursor.tx == TRANSACTION_MASK && r.cursor.op == OPERATION_MASK)
  {
    hide FitsToid, KnownStages, LedgerWide, Applying;
    var n := |l.txs|;
    TransactionLimit(l);
    var a, b, c := LedgerWide(l, n, BeforeAllTxs), Applying(l, n), LedgerWide(l, n, AfterAllTxs);
    SameRows(l, n);
    LedgerWideNumbers(l, n, BeforeAllTxs);
    LedgerWideNumbers(l, n, AfterAllTxs);
    ApplyingAscends(l, n);
    ThreeParts(a, b, c, l.seqNo, n);
  }

  lemma NothingAscends()
    ensures Ascending([])
  {
  }

  lemma LaterTransaction(a: seq<EventRow>, b: seq<EventRow>, ledger: LedgerNo, n: nat)
    requires Ascending(a) && Ascending(b)
    requires forall r :: r in a ==> r.cursor.ledger == ledger && r.cursor.tx < n
    requires forall r :: r in b ==> r.cursor.ledger == ledger && r.cursor.tx == n
    ensures Ascending(a + b)
  {
    assert forall p :: 0 <= p < |a| ==> a[p] in a;
    assert forall q :: 0 <= q < |b| ==> b[q] in b;
    AscendingConcat(a, b);
  }

  lemma TransactionLimit(l: Ledger)
    requires FitsToid(l)
    ensures |l.txs| < TRANSACTION_MASK
  {
  }

  lemma ThreeParts(a: seq<EventRow>, b: seq<EventRow>, c: seq<EventRow>, ledger: LedgerNo, n: nat)
    requires n < TRANSACTION_MASK && |a| < U32_COUNT && |c| < U32_COUNT
    requires forall p :: 0 <= p < |a| ==> a[p].cursor == Cursor(ledger, 0, 0, p)
    requires forall p :: 0 <= p < |c| ==> c[p].cursor == Cursor(ledger, TRANSACTION_MASK, 0, p)
    requires Ascending(b)
    requires forall r :: r in b ==> r.cursor.ledger == ledger && 1 <= r.cursor.tx <= n && r.cursor.event < U32_COUNT - 1
    ensures Ascending(a + b + c)
    ensures forall r :: r in a + b + c ==>
              r.cursor.ledger == ledger && r.cursor.event < U32_COUNT - 1
              && !(r.cursor.tx == TRANSACTION_MASK && r.cursor.op == OPERATION_MASK)
  {
    assert forall p :: 0 <= p < |b| ==> b[p] in b;
    AscendingConcat(a, b);
    AscendingConcat(a + b, c);
  }

  // ---------- sorting by the printed ID ----------

  /** The order of a scan by primary key. */
  ghost predicate SortedById(rows: seq<EventRow>) {
    forall p, q :: 0 <= p < q < |rows| ==> !StrLess(rows[q].Id(), rows[p].Id())
  }

  lemma {:induction false} SortedUnique(a: seq<EventRow>, b: seq<EventRow>)
    requires Ascending(a) && multiset(a) == multiset(b)
    requires forall p, q :: 0 <= p < q < |b| ==> !Less(b[q].cursor, b[p].cursor)
    ensures a == b
  {
    if a == [] {
      assert |multiset(a)| == |multiset(b)|;
    } else {
      SameLeast(a, b);
      TailMultiset(a);
      TailMultiset(b);
      SortedUnique(a[1..], b[1..]);
      assert a == [a[0]] + a[1..] && b == [b[0]] + b[1..];
    }
  }

  lemma SameLeast(a: seq<EventRow>, b: seq<EventRow>)
    requires Ascending(a) && multiset(a) == multiset(b) && a != []
    requires forall p, q :: 0 <= p < q < |b| ==> !Less(b[q].cursor, b[p].cursor)
    ensures b != [] && a[0] == b[0]
  {
    assert a[0] in multiset(b);
    assert b[0] in multiset(a);
    var p :| 0 <= p < |a| && a[p] == b[0];
    var q :| 0 <= q < |b| && b[q] == a[0];
  }

  /** Reading a ledger's events in the order of their string IDs yields the chronological order. */
  lemma SortingByIdIsChronological(l: Ledger, rows: seq<EventRow>)
    requires FitsToid(l) && KnownStages(l)
    requires multiset(rows) == multiset(Emitted(l)) && SortedById(rows)
    ensures rows == Chronological(l)
  {
    ChronologicalOrder(l);
    forall p, q | 0 <= p < q < |rows|
      ensures !Less(rows[q].cursor, rows[p].cursor)
    {
      PrintOrder(rows[q].cursor, rows[p].cursor);
    }
    SortedUnique(Chronological(l), rows);
  }

  /** No two events of a ledger share an ID. */
  lemma IdsAreDistinct(l: Ledger, p: nat, q: nat)
    requires FitsToid(l) && KnownStages(l) && p < q < |Emitted(l)|
    ensures Emitted(l)[p].Id() != Emitted(l)[q].Id()
  {
    ChronologicalOrder(l);
    var a, b := Chronological(l), Emitted(l);
    DistinctInAnyOrder(a, b, p, q);
    PrintOrder(b[p].cursor, b[q].cursor);
  }

  lemma {:induction false} DistinctInAnyOrder(a: seq<EventRow>, b: seq<EventRow>, p: nat, q: nat)
    requires Ascending(a) && multiset(a) == multiset(b) && p < q < |b|
    ensures b[p].cursor != b[q].cursor
  {
    assert b[p] in multiset(a) && b[q] in multiset(a);
    var i :| 0 <= i < |a| && a[i] == b[p];
    var j :| 0 <= j < |a| && a[j] == b[q];
    if b[p].cursor == b[q].cursor {
      OccursOnce(a, i);
      OccursTwice(b, p, q);
    }
  }

  lemma OccursTwice(b: seq<EventRow>, p: nat, q: nat)
    requires p < q < |b|
    ensures b[p] == b[q] ==> multiset(b)[b[q]] >= 2
  {
    assert b == b[..q] + [b[q]] + b[q + 1..];
    assert b[..q][p] in multiset(b[..q]);
  }

  lemma OccursOnce(a: seq<EventRow>, i: nat)
    requires Ascending(a) && i < |a|
    ensures multiset(a)[a[i]] == 1
  {
    assert a == a[..i] + [a[i]] + a[i + 1..];
    assert a[i] !in a[..i] && a[i] !in a[i + 1..];
    assert a[i] !in multiset(a[..i]) && a[i] !in multiset(a[i + 1..]);
  }
}
