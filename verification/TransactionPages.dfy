/**
 * Pages of transactions (initializePagination, processTransactionsInLedger and
 * getTransactionsByLedgerSequence in cmd/stellar-rpc/internal/methods/get_transactions.go).
 */
module TransactionPages {
  import opened Words
  import opened Cursors
  import opened Ledgers
  import opened Wrappers

  /** A transaction with its place: ledger, and application order from 1. */
  datatype Item = Item(ledger: LedgerNo, order: nat, tx: Transaction)

  /** The next transaction to read. */
  datatype Position = Position(ledger: int, order: nat)

  predicate Before(p: Position, q: Position) {
    p.ledger < q.ledger || (p.ledger == q.ledger && p.order < q.order)
  }

  // ---------- all transactions in order ----------

  /** Consecutive ledgers whose transaction orders fit a TOID. */
  ghost predicate Gapless(chain: seq<Ledger>) {
    forall i :: 0 <= i < |chain| ==> chain[i].seqNo == chain[0].seqNo + i && |chain[i].txs| < TRANSACTION_MASK
  }

  function ItemsOf(l: Ledger): (items: seq<Item>)
    ensures |items| == |l.txs|
    ensures forall k :: 0 <= k < |items| ==> items[k] == Item(l.seqNo, k + 1, l.txs[k])
  {
    seq(|l.txs|, k requires 0 <= k < |l.txs| => Item(l.seqNo, k + 1, l.txs[k]))
  }

  /** The transactions of the first n ledgers. */
  function Items(chain: seq<Ledger>, n: nat): seq<Item>
    requires n <= |chain|
  {
    if n == 0 then [] else Items(chain, n - 1) + ItemsOf(chain[n - 1])
  }

  /** How many transactions come before a position. */
  function Rank(chain: seq<Ledger>, i: nat, order: nat): (rank: nat)
    requires i < |chain| && 1 <= order
  {
    |Items(chain, i)| + Min(order - 1, |chain[i].txs|)
  }

  lemma {:induction false} ItemsGrow(chain: seq<Ledger>, m: nat, n: nat)
    requires m <= n <= |chain|
    ensures Items(chain, m) <= Items(chain, n)
    decreases n
  {
    if m < n {
      ItemsGrow(chain, m, n - 1);
    }
  }

  /** Each transaction stands at its rank. */
  lemma {:induction false} ItemAtRank(chain: seq<Ledger>, n: nat, k: nat)
    requires Gapless(chain) && n <= |chain| && k < |Items(chain, n)|
    ensures var item := Items(chain, n)[k];
            && chain[0].seqNo <= item.ledger < chain[0].seqNo + n
            && var l := chain[item.ledger - chain[0].seqNo];
            && 1 <= item.order <= |l.txs| && item.tx == l.txs[item.order - 1]
            && Rank(chain, item.ledger - chain[0].seqNo, item.order) == k
  {
    if k < |Items(chain, n - 1)| {
      ItemAtRank(chain, n - 1, k);
    } else {
      assert Items(chain, n)[k] == ItemsOf(chain[n - 1])[k - |Items(chain, n - 1)|];
    }
  }

  /** The list is in strictly ascending order, so every transaction is in it once. */
  lemma ItemsAscend(chain: seq<Ledger>, n: nat, j: nat, k: nat)
    requires Gapless(chain) && n <= |chain| && j < k < |Items(chain, n)|
    ensures var a, b := Items(chain, n)[j], Items(chain, n)[k];
            Before(Position(a.ledger, a.order), Position(b.ledger, b.order))
  {
    ItemAtRank(chain, n, j);
    ItemAtRank(chain, n, k);
    var a, b := Items(chain, n)[j], Items(chain, n)[k];
    if b.ledger < a.ledger {
      ItemsGrow(chain, b.ledger - chain[0].seqNo + 1, a.ledger - chain[0].seqNo);
    }
  }

  // ---------- what a page is ----------

  /** A call with a start in the chain; chain[n - 1] is its latest ledger. */
  ghost predicate Sees(chain: seq<Ledger>, n: nat, start: Position) {
    Gapless(chain) && 1 <= n <= |chain| && chain[0].seqNo <= start.ledger < chain[0].seqNo + n && 1 <= start.order
  }

  function IndexOf(chain: seq<Ledger>, ledger: int): (i: int)
    requires chain != []
  {
    ledger - chain[0].seqNo
  }

  /** The page from `start`: at most `limit` transactions (one when limit is 0), up to the latest ledger. */
  ghost function PageItems(chain: seq<Ledger>, n: nat, start: Position, limit: nat): seq<Item>
    requires Sees(chain, n, start)
  {
    var a := Rank(chain, IndexOf(chain, start.ledger), start.order);
    RankInside(chain, n, start);
    Items(chain, n)[a..Min(a + Max(limit, 1), |Items(chain, n)|)]
  }

  lemma RankInside(chain: seq<Ledger>, n: nat, start: Position)
    requires Sees(chain, n, start)
    ensures Rank(chain, IndexOf(chain, start.ledger), start.order) <= |Items(chain, IndexOf(chain, start.ledger) + 1)|
                                                                   <= |Items(chain, n)|
  {
    ItemsGrow(chain, IndexOf(chain, start.ledger) + 1, n);
  }

  /** The start is in the latest ledger, after its last transaction. */
  predicate AtExhaustedTip(chain: seq<Ledger>, n: nat, start: Position)
    requires 1 <= n <= |chain|
  {
    IndexOf(chain, start.ledger) == n - 1 && start.order > |chain[n - 1].txs|
  }

  /** The returned cursor: the last transaction of a full page, else the last one of the latest ledger. */
  ghost function PageCursor(chain: seq<Ledger>, n: nat, start: Position, limit: nat): Position
    requires Sees(chain, n, start)
  {
    var page := PageItems(chain, n, start, limit);
    if |page| >= Max(limit, 1) then Position(page[|page| - 1].ledger, page[|page| - 1].order)
    else Position(chain[n - 1].seqNo, if AtExhaustedTip(chain, n, start) then 0 else |chain[n - 1].txs|)
  }

  ghost function NextStart(chain: seq<Ledger>, n: nat, start: Position, limit: nat): Position
    requires Sees(chain, n, start)
  {
    var c := PageCursor(chain, n, start, limit);
    Position(c.ledger, c.order + 1)
  }

  // ---------- cursors on the wire ----------

  /** toid.New(ledger, order, 1).ToInt64() */
  function CursorId(ledger: LedgerNo, order: TxIndex): i64 {
    ToInt64(Cursor(ledger, order, 1, 0))
  }

  /** toid.Parse, then the next transaction; a negative number has a negative ledger. */
  function StartAfter(id: i64): Position {
    Position(id / 0x1_0000_0000, (id % 0x1_0000_0000) / 0x1000 + 1)
  }

  lemma CursorRoundTrip(ledger: LedgerNo, order: TxIndex)
    ensures StartAfter(CursorId(ledger, order)) == Position(ledger, order + 1)
  {
    ToidRoundTrip(Cursor(ledger, order, 1, 0));
  }

  // ---------- the code ----------

  datatype Page = Page(txns: seq<Item>, cursor: i64, latest: LedgerNo, oldest: LedgerNo)

  /** How many transactions of the ledger the start skips. */
  function First(ledger: Ledger, start: Position): (from: int)
    ensures from <= |ledger.txs|
  {
    if start.ledger == ledger.seqNo then Min(start.order - 1, |ledger.txs|) else 0
  }

  /** processTransactionsInLedger: appends to `txns`; the order of the cursor is 0 when it read nothing. */
  method ProcessTransactionsInLedger(ledger: Ledger, start: Position, txns: seq<Item>, limit: nat)
      returns (r: seq<Item>, order: nat, done: bool)
    requires start.ledger == ledger.seqNo ==> 1 <= start.order
    requires |txns| < Max(limit, 1)
    ensures var from := First(ledger, start);
            r == txns + ItemsOf(ledger)[from..Min(from + Max(limit, 1) - |txns|, |ledger.txs|)]
    ensures order == if First(ledger, start) == |ledger.txs| then 0 else First(ledger, start) + |r| - |txns|
    ensures done <==> |r| >= Max(limit, 1)
  {
    hide ItemsOf;
    var startTxIdx := 1;
    if ledger.seqNo == start.ledger {
      startTxIdx := start.order; // seeking past the end is not an error
    }
    var txCount := |ledger.txs|;
    r, order := txns, 0;
    var i := startTxIdx;
    while i <= txCount
      invariant if startTxIdx <= txCount then startTxIdx <= i <= txCount + 1 else i == startTxIdx
      invariant r == txns + ItemsOf(ledger)[Min(startTxIdx - 1, txCount)..Min(i - 1, txCount)]
      invariant order == (if i == startTxIdx then 0 else i - 1)
      invariant startTxIdx <= txCount ==> |r| == |txns| + (i - startTxIdx)
      invariant |r| < Max(limit, 1)
    {
      order := i;
      NextItem(ledger, startTxIdx - 1, i);
      r := r + [Item(ledger.seqNo, i, ledger.txs[i - 1])];
      if |r| >= limit {
        return r, order, true;
      }
      i := i + 1;
    }
    done := false;
  }

  lemma NextItem(ledger: Ledger, from: nat, i: nat)
    requires from < i <= |ledger.txs|
    ensures ItemsOf(ledger)[from..i] == ItemsOf(ledger)[from..i - 1] + [Item(ledger.seqNo, i, ledger.txs[i - 1])]
  {
  }

  /** The stored ledgers are chain[m..n]. */
  ghost predicate Holds(ledgers: map<LedgerNo, Ledger>, chain: seq<Ledger>, m: nat, n: nat)
    requires m < n <= |chain|
  {
    && Gapless(chain)
    && (forall s :: s in ledgers <==> chain[0].seqNo + m <= s < chain[0].seqNo + n)
    && (forall s :: s in ledgers ==> ledgers[s] == chain[s - chain[0].seqNo])
  }

  /** The transactions from the start up to ledger i. */
  ghost predicate ReadUpTo(chain: seq<Ledger>, n: nat, start: Position, txns: seq<Item>, i: nat)
    requires Sees(chain, n, start)
  {
    && IndexOf(chain, start.ledger) < i <= n
    && Rank(chain, IndexOf(chain, start.ledger), start.order) <= |Items(chain, i)| <= |Items(chain, n)|
    && txns == Items(chain, n)[Rank(chain, IndexOf(chain, start.ledger), start.order)..|Items(chain, i)|]
  }

  function OrderRead(l: Ledger, start: Position): nat {
    if First(l, start) == |l.txs| then 0 else |l.txs|
  }

  /** Reading ledger i from its first transaction on extends the page. */
  lemma ReadOneMore(chain: seq<Ledger>, n: nat, start: Position, txns: seq<Item>, i: nat, to: nat)
    requires Sees(chain, n, start) && i < n && First(chain[i], start) <= to <= |chain[i].txs|
    requires if i == IndexOf(chain, start.ledger) then txns == [] else ReadUpTo(chain, n, start, txns, i)
    ensures var rank := Rank(chain, IndexOf(chain, start.ledger), start.order);
            && rank <= |Items(chain, i)| + to <= |Items(chain, n)|
            && txns + ItemsOf(chain[i])[First(chain[i], start)..to] == Items(chain, n)[rank..|Items(chain, i)| + to]
  {
    hide Items, ItemsOf;
    ItemsGrow(chain, i, n);
    var rank := Rank(chain, IndexOf(chain, start.ledger), start.order);
    var all, base, from := Items(chain, n), |Items(chain, i)|, First(chain[i], start);
    LedgerSlice(chain, n, i, from, to);
    assert rank <= base + from;
    assert txns == all[rank..base + from] by {
      if i == IndexOf(chain, start.ledger) {
        assert rank == base + from;
      } else {
        assert from == 0;
      }
    }
    AppendSlice(all, rank, base + from, base + to);
  }

  lemma AppendSlice<T>(all: seq<T>, a: nat, b: nat, c: nat)
    requires a <= b <= c <= |all|
    ensures all[a..b] + all[b..c] == all[a..c]
  {
  }

  lemma LedgerSlice(chain: seq<Ledger>, n: nat, i: nat, from: nat, to: nat)
    requires i < n <= |chain| && from <= to <= |chain[i].txs|
    ensures |Items(chain, i)| + |chain[i].txs| <= |Items(chain, n)|
    ensures Items(chain, n)[|Items(chain, i)| + from..|Items(chain, i)| + to] == ItemsOf(chain[i])[from..to]
  {
    hide *;
    ItemsGrow(chain, i + 1, n);
    NextItems(chain, i);
    InnerSlice(Items(chain, n), Items(chain, i), ItemsOf(chain[i]), from, to);
  }

  lemma NextItems(chain: seq<Ledger>, i: nat)
    requires i < |chain|
    ensures Items(chain, i + 1) == Items(chain, i) + ItemsOf(chain[i])
  {
  }

  lemma InnerSlice<T>(all: seq<T>, a: seq<T>, b: seq<T>, from: nat, to: nat)
    requires a + b <= all && from <= to <= |b|
    ensures all[|a| + from..|a| + to] == b[from..to]
  {
    assert all[..|a + b|] == a + b;
    assert all[|a| + from..|a| + to] == (a + b)[|a| + from..|a| + to];
  }

  lemma FullPage(chain: seq<Ledger>, n: nat, start: Position, limit: nat, txns: seq<Item>, r: seq<Item>, i: nat)
    requires Sees(chain, n, start) && i < n && |txns| < Max(limit, 1) <= |r|
    requires if i == IndexOf(chain, start.ledger) then txns == [] else ReadUpTo(chain, n, start, txns, i)
    requires var from := First(chain[i], start);
             r == txns + ItemsOf(chain[i])[from..Min(from + Max(limit, 1) - |txns|, |chain[i].txs|)]
    ensures r == PageItems(chain, n, start, limit)
    ensures PageCursor(chain, n, start, limit)
         == Position(chain[i].seqNo, First(chain[i], start) + |r| - |txns|)
  {
    hide Items, ReadUpTo, Rank, PageItems;
    var from := First(chain[i], start);
    var to := Min(from + Max(limit, 1) - |txns|, |chain[i].txs|);
    assert r[|r| - 1] == ItemsOf(chain[i])[to - 1];
    ReadOneMore(chain, n, start, txns, i, to);
    SliceIsPage(chain, n, start, limit, |Items(chain, i)| + to, r);
  }

  lemma SliceIsPage(chain: seq<Ledger>, n: nat, start: Position, limit: nat, to: nat, r: seq<Item>)
    requires Sees(chain, n, start)
    requires var rank := Rank(chain, IndexOf(chain, start.ledger), start.order);
             rank <= to <= |Items(chain, n)| && to - rank == Max(limit, 1) && r == Items(chain, n)[rank..to]
    ensures r == PageItems(chain, n, start, limit)
  {
    hide Items, Rank;
  }

  lemma LastPage(chain: seq<Ledger>, n: nat, start: Position, limit: nat, txns: seq<Item>)
    requires Sees(chain, n, start) && ReadUpTo(chain, n, start, txns, n) && |txns| < Max(limit, 1)
    ensures txns == PageItems(chain, n, start, limit)
    ensures PageCursor(chain, n, start, limit) == Position(chain[n - 1].seqNo, OrderRead(chain[n - 1], start))
  {
    hide Items;
  }

  /**
   * The loop over ledgers. With a start that is stored it reads exactly the page; a start below the
   * first ledger is an error; a start above the last one reads nothing and returns cursor 0.
   */
  method ReadLedgers(ledgers: map<LedgerNo, Ledger>, last: LedgerNo, start: Position, limit: nat,
                     ghost chain: seq<Ledger>, ghost m: nat, ghost n: nat)
      returns (r: Result<(seq<Item>, LedgerNo, nat)>)
    requires m < n <= |chain| && Holds(ledgers, chain, m, n) && last == chain[0].seqNo + n - 1 && 1 <= start.order
    ensures r.Err? <==> start.ledger < chain[0].seqNo + m
    ensures start.ledger > last ==> r == Ok(([], 0, 0))
    ensures r.Ok? && start.ledger <= last ==>
              && r.value.0 == PageItems(chain, n, start, limit)
              && Position(r.value.1, r.value.2) == PageCursor(chain, n, start, limit)
  {
    hide ReadUpTo, PageItems, PageCursor, First, ItemsOf;
    var txns: seq<Item>, done, order := [], false, 0;
    var ledgerSeq, cursorLedger := start.ledger, 0;
    while ledgerSeq <= last
      invariant |txns| < Max(limit, 1) && start.ledger <= ledgerSeq
      invariant ledgerSeq == start.ledger ==> txns == [] && order == 0 && cursorLedger == 0
      invariant ledgerSeq > start.ledger ==>
                  && Sees(chain, n, start) && chain[0].seqNo + m <= start.ledger
                  && cursorLedger == ledgerSeq - 1 <= last
                  && ReadUpTo(chain, n, start, txns, IndexOf(chain, ledgerSeq))
                  && order == OrderRead(chain[IndexOf(chain, cursorLedger)], start)
    {
      if ledgerSeq < 0 {
        return Err("cursor ledger sequence cannot be negative");
      }
      if ledgerSeq !in ledgers {
        return Err("database does not contain metadata for the ledger");
      }
      ghost var i := IndexOf(chain, ledgerSeq);
      var more;
      more, order, done := ProcessTransactionsInLedger(ledgers[ledgerSeq], start, txns, limit);
      cursorLedger := ledgerSeq;
      if done {
        FullPage(chain, n, start, limit, txns, more, i);
        return Ok((more, cursorLedger, order));
      }
      ReadWholeLedger(chain, n, start, limit, txns, more, i);
      txns := more;
      ledgerSeq := ledgerSeq + 1;
    }
    if start.ledger <= last {
      LastPage(chain, n, start, limit, txns);
    }
    r := Ok((txns, cursorLedger, order));
  }

  lemma ReadWholeLedger(chain: seq<Ledger>, n: nat, start: Position, limit: nat, txns: seq<Item>, r: seq<Item>, i: nat)
    requires Sees(chain, n, start) && i < n && |txns| < Max(limit, 1) && |r| < Max(limit, 1)
    requires if i == IndexOf(chain, start.ledger) then txns == [] else ReadUpTo(chain, n, start, txns, i)
    requires var from := First(chain[i], start);
             r == txns + ItemsOf(chain[i])[from..Min(from + Max(limit, 1) - |txns|, |chain[i].txs|)]
    ensures ReadUpTo(chain, n, start, r, i + 1)
    ensures OrderRead(chain[i], start)
         == if First(chain[i], start) == |chain[i].txs| then 0 else First(chain[i], start) + |r| - |txns|
  {
    ReadOneMore(chain, n, start, txns, i, |chain[i].txs|);
    ItemsGrow(chain, i + 1, n);
  }

  // ---------- the request ----------

  /** A request has a start ledger or the number of a cursor; `limit` 0 is absent. */
  datatype Request = Request(startLedger: u32, cursor: Option<i64>, limit: nat)

  function StartOf(request: Request): (start: Position)
    ensures 1 <= start.order
  {
    if request.cursor.Some? then StartAfter(request.cursor.value) else Position(request.startLedger, 1)
  }

  // ---------- what a request asks for ----------

  /** A transaction of a stored ledger at its place. */
  ghost predicate IsStored(ledgers: map<LedgerNo, Ledger>, item: Item) {
    && item.ledger in ledgers && 1 <= item.order <= |ledgers[item.ledger].txs|
    && item.tx == ledgers[item.ledger].txs[item.order - 1]
  }

  /** From the start ledger on, or strictly after the ledger and the order in the cursor's number. */
  ghost predicate Wanted(request: Request, item: Item) {
    match request.cursor
    case None => request.startLedger <= item.ledger
    case Some(id) =>
      || id / 0x1_0000_0000 < item.ledger
      || (id / 0x1_0000_0000 == item.ledger && (id % 0x1_0000_0000) / 0x1000 < item.order)
  }

  /** The first `limit` stored transactions that are wanted, in the order of application. */
  ghost predicate FirstWanted(page: seq<Item>, ledgers: map<LedgerNo, Ledger>, request: Request, limit: nat) {
    && |page| <= limit
    && (forall j, k :: 0 <= j < k < |page| ==> Before(PositionOf(page[j]), PositionOf(page[k])))
    && (forall item :: item in page ==> IsStored(ledgers, item) && Wanted(request, item))
    && (forall item :: IsStored(ledgers, item) && Wanted(request, item) && item !in page ==>
          |page| == limit && forall q :: q in page ==> Before(PositionOf(q), PositionOf(item)))
  }

  function PositionOf(item: Item): Position {
    Position(item.ledger, item.order)
  }

  /**
   * The number that a page returns: of its last transaction if it is full, else of the last transaction of the
   * latest ledger, or of order 0 there if it read none of that ledger; 0 for a cursor beyond it.
   */
  ghost function CursorAfter(page: seq<Item>, ledgers: map<LedgerNo, Ledger>, last: LedgerNo, request: Request,
                             limit: nat): int
    requires 1 <= limit && last in ledgers
  {
    if request.cursor.Some? && request.cursor.value / 0x1_0000_0000 > last then 0
    else if |page| >= limit then page[|page| - 1].ledger * 0x1_0000_0000 + page[|page| - 1].order * 0x1000 + 1
    else
      var read := page != [] && page[|page| - 1].ledger == last;
      last * 0x1_0000_0000 + (if read then |ledgers[last].txs| else 0) * 0x1000 + 1
  }

  lemma StartLedgerOf(request: Request)
    ensures StartOf(request).ledger
         == if request.cursor.Some? then request.cursor.value / 0x1_0000_0000 else request.startLedger
  {
  }

  /** The position of the start separates the transactions that are wanted from the others. */
  lemma WantedFromStart(request: Request, item: Item)
    requires 1 <= item.order
    ensures Wanted(request, item) <==> !Before(PositionOf(item), StartOf(request))
  {
  }

  /** The rank of a position counts the transactions before it. */
  lemma RankCounts(chain: seq<Ledger>, n: nat, k: nat, p: Position)
    requires Sees(chain, n, p) && k < |Items(chain, n)|
    ensures k < Rank(chain, IndexOf(chain, p.ledger), p.order) <==> Before(PositionOf(Items(chain, n)[k]), p)
  {
    hide Items;
    ItemAtRank(chain, n, k);
    var i, q := IndexOf(chain, p.ledger), IndexOf(chain, Items(chain, n)[k].ledger);
    NextItems(chain, i);
    NextItems(chain, q);
    if q < i {
      ItemsGrow(chain, q + 1, i);
    } else if i < q {
      ItemsGrow(chain, i + 1, q);
    }
  }

  /** Every transaction of the chain is in the list. */
  lemma ItemIsListed(chain: seq<Ledger>, n: nat, i: nat, order: nat)
    requires i < n <= |chain| && 1 <= order <= |chain[i].txs|
    ensures var k := |Items(chain, i)| + order - 1;
            k < |Items(chain, n)| && Items(chain, n)[k] == Item(chain[i].seqNo, order, chain[i].txs[order - 1])
  {
    hide Items;
    NextItems(chain, i);
    ItemsGrow(chain, i + 1, n);
  }

  /** The stored transactions are those of the list from the first stored ledger on. */
  lemma StoredIsListed(ledgers: map<LedgerNo, Ledger>, chain: seq<Ledger>, m: nat, n: nat, item: Item)
    requires m < n <= |chain| && Holds(ledgers, chain, m, n)
    ensures IsStored(ledgers, item) <==> item in Items(chain, n) && chain[0].seqNo + m <= item.ledger
  {
    hide Items;
    if IsStored(ledgers, item) {
      ItemIsListed(chain, n, item.ledger - chain[0].seqNo, item.order);
    }
    if item in Items(chain, n) {
      var k :| 0 <= k < |Items(chain, n)| && Items(chain, n)[k] == item;
      ItemAtRank(chain, n, k);
    }
  }

  lemma SeesStart(ledgers: map<LedgerNo, Ledger>, chain: seq<Ledger>, m: nat, n: nat, start: Position)
    requires m < n <= |chain| && Holds(ledgers, chain, m, n) && 1 <= start.order
    requires chain[0].seqNo + m <= start.ledger < chain[0].seqNo + n
    ensures Sees(chain, n, start)
  {
  }

  lemma NothingWanted(ledgers: map<LedgerNo, Ledger>, chain: seq<Ledger>, m: nat, n: nat, request: Request, limit: nat)
    requires m < n <= |chain| && Holds(ledgers, chain, m, n) && StartOf(request).ledger >= chain[0].seqNo + n
    ensures FirstWanted([], ledgers, request, limit)
  {
    forall item | IsStored(ledgers, item)
      ensures !Wanted(request, item)
    {
      WantedFromStart(request, item);
    }
  }

  /** Of an ordered list of which everything from place a on is wanted, the slice from a on is what is asked for. */
  lemma SliceIsFirstWanted(all: seq<Item>, a: nat, page: seq<Item>, ledgers: map<LedgerNo, Ledger>, request: Request,
                           limit: nat)
    requires a <= |all| && page == all[a..Min(a + limit, |all|)]
    requires forall j, k :: 0 <= j < k < |all| ==> Before(PositionOf(all[j]), PositionOf(all[k]))
    requires forall k :: 0 <= k < |all| ==>
               (Wanted(request, all[k]) <==> k >= a) && (k >= a ==> IsStored(ledgers, all[k]))
    requires forall item :: IsStored(ledgers, item) && Wanted(request, item) ==> item in all
    ensures FirstWanted(page, ledgers, request, limit)
  {
    hide IsStored, Wanted, Before;
    forall item | IsStored(ledgers, item) && Wanted(request, item) && item !in page
      ensures |page| == limit && forall q :: q in page ==> Before(PositionOf(q), PositionOf(item))
    {
      var k :| 0 <= k < |all| && all[k] == item;
      InSlice(all, a, a + |page|, k);
    }
  }

  lemma InSlice<T>(all: seq<T>, a: nat, b: nat, k: nat)
    requires a <= b <= |all| && k < |all|
    ensures a <= k < b ==> all[k] in all[a..b]
  {
    if a <= k < b {
      assert all[a..b][k - a] == all[k];
    }
  }

  /** The slice of the list from the rank of the start on is what the request asks for. */
  lemma PageIsFirstWanted(ledgers: map<LedgerNo, Ledger>, chain: seq<Ledger>, m: nat, n: nat, request: Request,
                          limit: nat)
    requires m < n <= |chain| && Holds(ledgers, chain, m, n) && Sees(chain, n, StartOf(request))
    requires chain[0].seqNo + m <= StartOf(request).ledger
    ensures FirstWanted(PageItems(chain, n, StartOf(request), limit), ledgers, request, Max(limit, 1))
  {
    hide Items, Rank, Holds, IsStored, Wanted, Before, FirstWanted;
    var start, all := StartOf(request), Items(chain, n);
    RankInside(chain, n, start);
    forall j, k | 0 <= j < k < |all|
      ensures Before(PositionOf(all[j]), PositionOf(all[k]))
    {
      ItemsAscend(chain, n, j, k);
    }
    forall k | 0 <= k < |all|
      ensures var a := Rank(chain, IndexOf(chain, start.ledger), start.order);
              (Wanted(request, all[k]) <==> k >= a) && (k >= a ==> IsStored(ledgers, all[k]))
    {
      ListedIsWanted(ledgers, chain, m, n, request, k);
    }
    forall item | IsStored(ledgers, item)
      ensures item in all
    {
      StoredIsListed(ledgers, chain, m, n, item);
    }
    SliceIsFirstWanted(all, Rank(chain, IndexOf(chain, start.ledger), start.order),
                       PageItems(chain, n, start, limit), ledgers, request, Max(limit, 1));
  }

  lemma CursorIsAfter(ledgers: map<LedgerNo, Ledger>, chain: seq<Ledger>, m: nat, n: nat, request: Request, limit: nat,
                      ledger: LedgerNo, order: TxIndex)
    requires m < n <= |chain| && Holds(ledgers, chain, m, n) && Sees(chain, n, StartOf(request))
    requires Position(ledger, order) == PageCursor(chain, n, StartOf(request), limit)
    ensures var last := chain[0].seqNo + n - 1;
            && last in ledgers
            && CursorId(ledger, order)
               == CursorAfter(PageItems(chain, n, StartOf(request), limit), ledgers, last, request, Max(limit, 1))
  {
    hide PageItems, Rank, Items;
    var start, page := StartOf(request), PageItems(chain, n, StartOf(request), limit);
    assert chain[0].seqNo + n - 1 in ledgers && ledgers[chain[0].seqNo + n - 1] == chain[n - 1];
    if |page| < Max(limit, 1) {
      ShortPage(chain, n, start, limit);
    }
  }

  /** A page that is not full ends with the latest ledger, if it reads anything there. */
  lemma ShortPage(chain: seq<Ledger>, n: nat, start: Position, limit: nat)
    requires Sees(chain, n, start) && |PageItems(chain, n, start, limit)| < Max(limit, 1)
    ensures var page := PageItems(chain, n, start, limit);
            page != [] && page[|page| - 1].ledger == chain[n - 1].seqNo
            <==> !AtExhaustedTip(chain, n, start) && chain[n - 1].txs != []
  {
    hide Items;
    var page, all := PageItems(chain, n, start, limit), Items(chain, n);
    var i := IndexOf(chain, start.ledger);
    RankInside(chain, n, start);
    NextItems(chain, n - 1);
    if page != [] {
      assert page[|page| - 1] == all[|all| - 1];
      ItemAtRank(chain, n, |all| - 1);
    }
    if i < n - 1 {
      ItemsGrow(chain, i + 1, n - 1);
      RankInside(chain, n - 1, start);
    }
    if chain[n - 1].txs == [] && page != [] {
      var item := all[|all| - 1];
      assert item.ledger != chain[n - 1].seqNo;
    }
  }

  /** Of the list, exactly the transactions from the rank of the start on are wanted, and they are stored. */
  lemma ListedIsWanted(ledgers: map<LedgerNo, Ledger>, chain: seq<Ledger>, m: nat, n: nat, request: Request, k: nat)
    requires m < n <= |chain| && Holds(ledgers, chain, m, n) && Sees(chain, n, StartOf(request))
    requires chain[0].seqNo + m <= StartOf(request).ledger && k < |Items(chain, n)|
    ensures var start, item := StartOf(request), Items(chain, n)[k];
            && (Wanted(request, item) <==> k >= Rank(chain, IndexOf(chain, start.ledger), start.order))
            && (Wanted(request, item) ==> IsStored(ledgers, item))
  {
    hide Items, Rank, IsStored, Holds;
    var item := Items(chain, n)[k];
    ItemAtRank(chain, n, k);
    RankCounts(chain, n, k, StartOf(request));
    WantedFromStart(request, item);
    StoredIsListed(ledgers, chain, m, n, item);
  }

  /**
   * getTransactionsByLedgerSequence. A start ledger must be stored; a cursor must not lie below the
   * stored ledgers; the returned number is the printed position of the page's cursor.
   */
  method GetTransactions(ledgers: map<LedgerNo, Ledger>, defaultLimit: nat, maxLimit: nat, request: Request,
                         first: LedgerNo, last: LedgerNo, ghost chain: seq<Ledger>, ghost m: nat, ghost n: nat)
      returns (r: Result<Page>)
    requires m < n <= |chain| && Holds(ledgers, chain, m, n)
    requires first == chain[0].seqNo + m && last == chain[0].seqNo + n - 1
    ensures var start := if request.cursor.Some? then request.cursor.value / 0x1_0000_0000 else request.startLedger;
            r.Err? <==> request.limit > maxLimit || start < first || (request.cursor.None? && start > last)
    ensures r.Ok? ==>
              var limit := if request.limit > 0 then request.limit else defaultLimit;
              && r.value.oldest == first && r.value.latest == last
              && FirstWanted(r.value.txns, ledgers, request, Max(limit, 1))
              && r.value.cursor == CursorAfter(r.value.txns, ledgers, last, request, Max(limit, 1))
              && (StartOf(request).ledger <= last ==>
                    && r.value.txns == PageItems(chain, n, StartOf(request), limit)
                    && StartAfter(r.value.cursor) == NextStart(chain, n, StartOf(request), limit))
  {
    hide PageItems, PageCursor, StartAfter, CursorId, FirstWanted, Holds, Sees;
    StartLedgerOf(request);
    if request.limit > maxLimit || (request.cursor.None? && !(first <= request.startLedger <= last)) {
      return Err("invalid request");
    }
    var start, limit := StartOf(request), defaultLimit;
    if request.limit > 0 {
      limit := request.limit;
    }
    var read := ReadLedgers(ledgers, last, start, limit, chain, m, n);
    if read.Err? {
      return Err(read.message);
    }
    if start.ledger > last {
      NothingWanted(ledgers, chain, m, n, request, Max(limit, 1));
      return Ok(Page([], 0, last, first)); // toid.New(0, 0, 0)
    }
    var (txns, ledger, order) := read.value;
    SeesStart(ledgers, chain, m, n, start);
    CursorFits(chain, n, start, limit);
    CursorRoundTrip(ledger, order);
    PageIsFirstWanted(ledgers, chain, m, n, request, limit);
    CursorIsAfter(ledgers, chain, m, n, request, limit, ledger, order);
    r := Ok(Page(txns, CursorId(ledger, order), last, first));
  }

  lemma CursorFits(chain: seq<Ledger>, n: nat, start: Position, limit: nat)
    requires Sees(chain, n, start)
    ensures var c := PageCursor(chain, n, start, limit);
            && 0 <= IndexOf(chain, c.ledger) < n && c.order <= |chain[IndexOf(chain, c.ledger)].txs| < TRANSACTION_MASK
  {
    hide Items;
    var page := PageItems(chain, n, start, limit);
    if |page| >= Max(limit, 1) {
      LastOfPage(chain, n, start, limit);
    }
  }

  lemma LastOfPage(chain: seq<Ledger>, n: nat, start: Position, limit: nat)
    requires Sees(chain, n, start) && PageItems(chain, n, start, limit) != []
    ensures var page := PageItems(chain, n, start, limit);
            var item := page[|page| - 1];
            && 0 <= IndexOf(chain, item.ledger) < n && 1 <= item.order <= |chain[IndexOf(chain, item.ledger)].txs|
            && Rank(chain, IndexOf(chain, item.ledger), item.order + 1)
               == Rank(chain, IndexOf(chain, start.ledger), start.order) + |page|
  {
    hide Items;
    RankInside(chain, n, start);
    var page := PageItems(chain, n, start, limit);
    var rank := Rank(chain, IndexOf(chain, start.ledger), start.order);
    assert page[|page| - 1] == Items(chain, n)[rank + |page| - 1];
    ItemAtRank(chain, n, rank + |page| - 1);
  }

  // ---------- chains of pages ----------

  /** What a call sees: chain[m..n], and its limit. */
  datatype Call = Call(m: nat, n: nat, limit: nat)

  /** The call is accepted and its start is in a stored ledger. */
  ghost predicate Accepted(chain: seq<Ledger>, start: Position, c: Call) {
    c.m < c.n <= |chain| && Sees(chain, c.n, start) && c.m <= IndexOf(chain, start.ledger)
  }

  /** The guard of the case in which the cursor goes back to the start of the latest ledger. */
  predicate Repeats(chain: seq<Ledger>, start: Position, n: nat)
    requires 1 <= n <= |chain|
  {
    AtExhaustedTip(chain, n, start) && chain[n - 1].txs != []
  }

  ghost predicate AcceptedChain(chain: seq<Ledger>, start: Position, calls: seq<Call>)
    decreases |calls|
  {
    calls == []
    || (Accepted(chain, start, calls[0]) && !Repeats(chain, start, calls[0].n)
        && AcceptedChain(chain, NextStart(chain, calls[0].n, start, calls[0].limit), calls[1..]))
  }

  ghost function Delivered(chain: seq<Ledger>, start: Position, calls: seq<Call>): seq<Item>
    requires AcceptedChain(chain, start, calls)
    decreases |calls|
  {
    if calls == [] then []
    else
      PageItems(chain, calls[0].n, start, calls[0].limit)
      + Delivered(chain, NextStart(chain, calls[0].n, start, calls[0].limit), calls[1..])
  }

  ghost function FinalStart(chain: seq<Ledger>, start: Position, calls: seq<Call>): Position
    requires AcceptedChain(chain, start, calls)
    decreases |calls|
  {
    if calls == [] then start
    else FinalStart(chain, NextStart(chain, calls[0].n, start, calls[0].limit), calls[1..])
  }

  /** A page is the slice between its start and the next one; a page that is not full ends at the tip. */
  lemma PageIsSlice(chain: seq<Ledger>, n: nat, start: Position, limit: nat)
    requires Sees(chain, n, start) && !Repeats(chain, start, n)
    ensures var next, all := NextStart(chain, n, start, limit), Items(chain, |chain|);
            && Sees(chain, n, next)
            && var a := Rank(chain, IndexOf(chain, start.ledger), start.order);
               var b := Rank(chain, IndexOf(chain, next.ledger), next.order);
            && a <= b <= |all| && PageItems(chain, n, start, limit) == all[a..b]
            && (|PageItems(chain, n, start, limit)| < Max(limit, 1) ==> b == |Items(chain, n)|)
  {
    hide Items;
    ItemsGrow(chain, n, |chain|);
    RankInside(chain, n, start);
    var page := PageItems(chain, n, start, limit);
    if |page| >= Max(limit, 1) {
      LastOfPage(chain, n, start, limit);
    } else {
      NextItems(chain, n - 1);
    }
    var a, all := Rank(chain, IndexOf(chain, start.ledger), start.order), Items(chain, |chain|);
    PrefixSlice(Items(chain, n), all, a, a + |page|);
  }

  lemma PrefixSlice<T>(some: seq<T>, all: seq<T>, a: nat, b: nat)
    requires some <= all && a <= b <= |some|
    ensures some[a..b] == all[a..b]
  {
    assert all[..|some|] == some;
  }

  /**
   * The pages of a chain, one after the other, are the transactions between the first start and the
   * place where the next page would start: each once (ItemsAscend), in the order of application.
   */
  lemma {:induction false} ChainDeliversExactlyOnce(chain: seq<Ledger>, start: Position, calls: seq<Call>)
    requires AcceptedChain(chain, start, calls) && Sees(chain, |chain|, start)
    ensures var final, all := FinalStart(chain, start, calls), Items(chain, |chain|);
            && Sees(chain, |chain|, final)
            && var a := Rank(chain, IndexOf(chain, start.ledger), start.order);
               var b := Rank(chain, IndexOf(chain, final.ledger), final.order);
            && a <= b <= |all| && Delivered(chain, start, calls) == all[a..b]
    decreases |calls|
  {
    hide PageItems, NextStart, Items, Repeats;
    RankInside(chain, |chain|, start);
    if calls != [] {
      var c := calls[0];
      var next := NextStart(chain, c.n, start, c.limit);
      PageIsSlice(chain, c.n, start, c.limit);
      ChainDeliversExactlyOnce(chain, next, calls[1..]);
    }
  }

  /**
   * A chain that begins at a start ledger delivers, up to where its next page would start, exactly the
   * transactions of that ledger and the later ones.
   */
  lemma ChainCoversFromLedger(chain: seq<Ledger>, startLedger: LedgerNo, calls: seq<Call>)
    requires AcceptedChain(chain, Position(startLedger, 1), calls) && Sees(chain, |chain|, Position(startLedger, 1))
    ensures var start, all := Position(startLedger, 1), Items(chain, |chain|);
            forall item :: item in Delivered(chain, start, calls)
              <==> && item in all && startLedger <= item.ledger
                   && Before(PositionOf(item), FinalStart(chain, start, calls))
  {
    hide Items, Rank, AcceptedChain, Delivered, FinalStart, Gapless;
    var start, all := Position(startLedger, 1), Items(chain, |chain|);
    var final, items := FinalStart(chain, start, calls), Delivered(chain, start, calls);
    ChainDeliversExactlyOnce(chain, start, calls);
    var a := Rank(chain, IndexOf(chain, start.ledger), start.order);
    var b := Rank(chain, IndexOf(chain, final.ledger), final.order);
    forall item
      ensures item in items <==> item in all && startLedger <= item.ledger && Before(PositionOf(item), final)
    {
      if item in all {
        var k :| 0 <= k < |all| && all[k] == item;
        RankCounts(chain, |chain|, k, start);
        RankCounts(chain, |chain|, k, final);
        ItemPlace(chain, |chain|, k);
        InSlice(all, a, b, k);
      }
      if item in items {
        var j :| 0 <= j < |items| && items[j] == item;
        RankCounts(chain, |chain|, a + j, start);
        RankCounts(chain, |chain|, a + j, final);
        ItemPlace(chain, |chain|, a + j);
      }
    }
  }

  lemma ItemPlace(chain: seq<Ledger>, n: nat, k: nat)
    requires 1 <= n <= |chain| && Gapless(chain) && k < |Items(chain, n)|
    ensures 1 <= Items(chain, n)[k].order
  {
    ItemAtRank(chain, n, k);
  }

  /** The cursor goes back exactly when the start is past the end of a latest ledger with transactions. */
  lemma CursorRegressesIff(chain: seq<Ledger>, n: nat, start: Position, limit: nat)
    requires Sees(chain, n, start)
    ensures var next := NextStart(chain, n, start, limit);
            && Sees(chain, n, next)
            && (Repeats(chain, start, n)
                <==> Rank(chain, IndexOf(chain, next.ledger), next.order)
                     < Rank(chain, IndexOf(chain, start.ledger), start.order))
  {
    if Repeats(chain, start, n) {
      RankInside(chain, n, start);
      ExhaustedTipRepeatsLedger(chain, n, start, limit);
    } else {
      PageIsSlice(chain, n, start, limit);
    }
  }

  /** The page at the exhausted tip is empty, and the next one delivers the latest ledger again. */
  lemma ExhaustedTipRepeatsLedger(chain: seq<Ledger>, n: nat, start: Position, limit: nat)
    requires Sees(chain, n, start) && Repeats(chain, start, n)
    ensures PageItems(chain, n, start, limit) == []
    ensures NextStart(chain, n, start, limit) == Position(chain[n - 1].seqNo, 1)
    ensures Sees(chain, n, NextStart(chain, n, start, limit))
    ensures PageItems(chain, n, NextStart(chain, n, start, limit), limit)
         == ItemsOf(chain[n - 1])[..Min(Max(limit, 1), |chain[n - 1].txs|)]
  {
    assert Items(chain, n) == Items(chain, n - 1) + ItemsOf(chain[n - 1]);
    var next := Position(chain[n - 1].seqNo, 1);
    var to := Min(Max(limit, 1), |chain[n - 1].txs|);
    LedgerSlice(chain, n, n - 1, 0, to);
    assert PageItems(chain, n, next, limit) == Items(chain, n)[|Items(chain, n - 1)|..|Items(chain, n - 1)| + to];
  }

  /** A run in which it happens: one ledger, one transaction, delivered by the first and the third call. */
  lemma RepeatedDelivery(l: Ledger, limit: nat)
    requires |l.txs| == 1 && 2 <= limit
    ensures var start := Position(l.seqNo, 1);
            && Sees([l], 1, start)
            && PageItems([l], 1, start, limit) == ItemsOf(l)
            && var second := NextStart([l], 1, start, limit);
            && Sees([l], 1, second) && Repeats([l], second, 1)
            && NextStart([l], 1, second, limit) == start
  {
    var start := Position(l.seqNo, 1);
    assert Items([l], 1) == Items([l], 0) + ItemsOf(l);
    assert PageItems([l], 1, start, limit) == ItemsOf(l);
    ExhaustedTipRepeatsLedger([l], 1, NextStart([l], 1, start, limit), limit);
  }
}
