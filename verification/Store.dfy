/**
 * The ledger, transaction and event tables and the write transaction over them
 * (writeTx.Commit, flushWriters and trimTables in cmd/stellar-rpc/internal/db/db.go, the three trims,
 * and getTransactionByHash in cmd/stellar-rpc/internal/db/transaction.go).
 */
module Store {
  import opened Cursors
  import opened Ledgers
  import opened LedgerSets
  import opened EventOrder
  import opened EventContent
  import opened BatchWriters
  import EventIngest
  import opened TxIndex
  import opened Wrappers

  /** Where a transaction is: its ledger and its application order, from 1. */
  datatype TxRef = TxRef(seqNo: LedgerNo, index: nat)

  type TxTable = map<Hash, TxRef>
  type EventTable = map<string, EventRow>

  datatype Tables = Tables(ledgers: map<LedgerNo, Ledger>, transactions: TxTable, events: EventTable)

  // ---------- what it means that the tables describe the same ledgers ----------

  ghost predicate LedgersOk(ledgers: map<LedgerNo, Ledger>) {
    forall s :: s in ledgers ==> ledgers[s].seqNo == s && FitsToid(ledgers[s]) && KnownStages(ledgers[s])
  }

  ghost predicate EntriesOk(ledgers: map<LedgerNo, Ledger>, t: TxTable) {
    forall h :: h in t ==> t[h].seqNo in ledgers && 1 <= t[h].index && HashAt(ledgers[t[h].seqNo], t[h].index - 1, h)
  }

  /** The transactions table indexes exactly the transactions of the stored ledgers. */
  ghost predicate IndexOk(ledgers: map<LedgerNo, Ledger>, t: TxTable) {
    && EntriesOk(ledgers, t)
    && (forall s, i: nat, h :: s in ledgers && HashAt(ledgers[s], i, h) ==> h in t && t[h] == TxRef(s, i + 1))
  }

  ghost predicate EventOf(ledgers: map<LedgerNo, Ledger>, r: EventRow)
    requires LedgersOk(ledgers)
  {
    r.cursor.ledger in ledgers && r in Emitted(ledgers[r.cursor.ledger])
  }

  /** The events table holds exactly the events of the stored ledgers, under their printed cursors. */
  ghost predicate EventsOk(ledgers: map<LedgerNo, Ledger>, e: EventTable)
    requires LedgersOk(ledgers)
  {
    && (forall id :: id in e ==> e[id].Id() == id && EventOf(ledgers, e[id]))
    && (forall r :: EventOf(ledgers, r) ==> r.Id() in e && e[r.Id()] == r)
  }

  ghost predicate Consistent(t: Tables) {
    LedgersOk(t.ledgers) && IndexOk(t.ledgers, t.transactions) && EventsOk(t.ledgers, t.events)
  }

  // ---------- INSERT ----------

  /** INSERT INTO transactions; `None` is a violated key. */
  function InsertTxs(t: TxTable, rows: seq<PendingTx>): Option<TxTable> {
    if rows == [] then Some(t)
    else
      var r := rows[|rows| - 1];
      match InsertTxs(t, rows[..|rows| - 1])
      case None => None
      case Some(u) => if r.hash in u then None else Some(u[r.hash := TxRef(r.seqNo, r.index)])
  }

  function InsertRows(e: EventTable, rows: seq<EventRow>): Option<EventTable> {
    if rows == [] then Some(e)
    else
      var r := rows[|rows| - 1];
      match InsertRows(e, rows[..|rows| - 1])
      case None => None
      case Some(u) => if r.Id() in u then None else Some(u[r.Id() := r])
  }

  lemma {:induction false} InsertTxsConcat(t: TxTable, a: seq<PendingTx>, b: seq<PendingTx>)
    requires InsertTxs(t, a).Some?
    ensures InsertTxs(t, a + b) == InsertTxs(InsertTxs(t, a).value, b)
    decreases |b|
  {
    if b == [] {
      assert a + b == a;
    } else {
      InsertTxsConcat(t, a, b[..|b| - 1]);
      assert (a + b)[..|a + b| - 1] == a + b[..|b| - 1];
    }
  }

  lemma {:induction false} InsertRowsConcat(e: EventTable, a: seq<EventRow>, b: seq<EventRow>)
    requires InsertRows(e, a).Some?
    ensures InsertRows(e, a + b) == InsertRows(InsertRows(e, a).value, b)
    decreases |b|
  {
    if b == [] {
      assert a + b == a;
    } else {
      InsertRowsConcat(e, a, b[..|b| - 1]);
      assert (a + b)[..|a + b| - 1] == a + b[..|b| - 1];
    }
  }

  /** Fresh, pairwise different keys: the insert succeeds and adds exactly the rows. */
  lemma {:induction false} InsertTxsExact(t: TxTable, rows: seq<PendingTx>)
    requires forall p :: 0 <= p < |rows| ==> rows[p].hash !in t
    requires forall p, q :: 0 <= p < q < |rows| ==> rows[p].hash != rows[q].hash
    ensures InsertTxs(t, rows).Some?
    ensures var u := InsertTxs(t, rows).value;
            && (forall h :: h in t ==> h in u && u[h] == t[h])
            && (forall p :: 0 <= p < |rows| ==>
                  rows[p].hash in u && u[rows[p].hash] == TxRef(rows[p].seqNo, rows[p].index))
            && (forall h :: h in u ==> h in t || exists p :: 0 <= p < |rows| && rows[p].hash == h)
  {
    if rows != [] {
      var init, last := rows[..|rows| - 1], rows[|rows| - 1];
      InsertTxsExact(t, init);
      InsertLastTx(t, InsertTxs(t, init).value, init, last);
      assert rows == init + [last];
    }
  }

  lemma InsertLastTx(t: TxTable, u: TxTable, init: seq<PendingTx>, last: PendingTx)
    requires last.hash !in u && last.hash !in t
    requires forall h :: h in t ==> h in u && u[h] == t[h]
    requires forall p :: 0 <= p < |init| ==> init[p].hash in u && u[init[p].hash] == TxRef(init[p].seqNo, init[p].index)
    requires forall h :: h in u ==> h in t || exists p :: 0 <= p < |init| && init[p].hash == h
    ensures var v, rows := u[last.hash := TxRef(last.seqNo, last.index)], init + [last];
            && (forall h :: h in t ==> h in v && v[h] == t[h])
            && (forall p :: 0 <= p < |rows| ==>
                  rows[p].hash in v && v[rows[p].hash] == TxRef(rows[p].seqNo, rows[p].index))
            && (forall h :: h in v ==> h in t || exists p :: 0 <= p < |rows| && rows[p].hash == h)
  {
    var v, rows := u[last.hash := TxRef(last.seqNo, last.index)], init + [last];
    forall h | h in v && h !in t
      ensures exists p :: 0 <= p < |rows| && rows[p].hash == h
    {
      if h == last.hash {
        assert rows[|init|].hash == h;
      } else {
        var p :| 0 <= p < |init| && init[p].hash == h;
        assert rows[p].hash == h;
      }
    }
  }

  lemma {:induction false} InsertRowsExact(e: EventTable, rows: seq<EventRow>)
    requires forall p :: 0 <= p < |rows| ==> rows[p].Id() !in e
    requires forall p, q :: 0 <= p < q < |rows| ==> rows[p].Id() != rows[q].Id()
    ensures InsertRows(e, rows).Some?
    ensures var u := InsertRows(e, rows).value;
            && (forall id :: id in e ==> id in u && u[id] == e[id])
            && (forall p :: 0 <= p < |rows| ==> rows[p].Id() in u && u[rows[p].Id()] == rows[p])
            && (forall id :: id in u ==>
                  id in e || exists p :: 0 <= p < |rows| && rows[p].Id() == id && u[id] == rows[p])
  {
    hide ToString, InsertRows;
    if rows == [] {
      NothingInserted(e);
    } else {
      var init, last := rows[..|rows| - 1], rows[|rows| - 1];
      InsertRowsExact(e, init);
      OneMoreInserted(e, rows);
      var u := InsertRows(e, init).value;
      InsertLast(e, u, init, last);
      assert rows == init + [last];
    }
  }

  lemma NothingInserted(e: EventTable)
    ensures InsertRows(e, []) == Some(e)
  {
  }

  lemma OneMoreInserted(e: EventTable, rows: seq<EventRow>)
    requires rows != [] && InsertRows(e, rows[..|rows| - 1]).Some?
    requires rows[|rows| - 1].Id() !in InsertRows(e, rows[..|rows| - 1]).value
    ensures var last := rows[|rows| - 1];
            InsertRows(e, rows) == Some(InsertRows(e, rows[..|rows| - 1]).value[last.Id() := last])
  {
    hide ToString;
  }

  lemma InsertLast(e: EventTable, u: EventTable, init: seq<EventRow>, last: EventRow)
    requires last.Id() !in u && last.Id() !in e
    requires forall id :: id in e ==> id in u && u[id] == e[id]
    requires forall p :: 0 <= p < |init| ==> init[p].Id() in u && u[init[p].Id()] == init[p]
    requires forall id :: id in u ==> id in e || exists p :: 0 <= p < |init| && init[p].Id() == id && u[id] == init[p]
    ensures var v, rows := u[last.Id() := last], init + [last];
            && (forall id :: id in e ==> id in v && v[id] == e[id])
            && (forall p :: 0 <= p < |rows| ==> rows[p].Id() in v && v[rows[p].Id()] == rows[p])
            && (forall id :: id in v ==>
                  id in e || exists p :: 0 <= p < |rows| && rows[p].Id() == id && v[id] == rows[p])
  {
    hide ToString;
    var v, rows := u[last.Id() := last], init + [last];
    forall id | id in v && id !in e
      ensures exists p :: 0 <= p < |rows| && rows[p].Id() == id && v[id] == rows[p]
    {
      if id == last.Id() {
        assert rows[|init|].Id() == id;
      } else {
        var p :| 0 <= p < |init| && init[p].Id() == id && u[id] == init[p];
        assert rows[p].Id() == id;
      }
    }
  }

  // ---------- adding one ledger ----------

  /** No hash of `l` is already indexed, and none occurs twice in `l`. */
  ghost predicate NewHashes(t: TxTable, l: Ledger) {
    UniqueInLedger(l) && forall i: nat, h :: HashAt(l, i, h) ==> h !in t
  }

  lemma AddLedgerToIndex(ledgers: map<LedgerNo, Ledger>, t: TxTable, l: Ledger, rows: seq<PendingTx>)
    requires IndexOk(ledgers, t) && l.seqNo !in ledgers && NewHashes(t, l)
    requires Lists(rows, Lookup(l, |l.txs|), l.seqNo)
    ensures InsertTxs(t, rows).Some? && IndexOk(ledgers[l.seqNo := l], InsertTxs(t, rows).value)
  {
    hide HashAt, Lookup, IndexOk, EntriesOk, InsertTxs, Lists, UniqueInLedger;
    ListedRowsPoint(t, l, rows);
    InsertTxsExact(t, rows);
    var u := InsertTxs(t, rows).value;
    EntriesPoint(ledgers, t, l, rows, u);
    forall i: nat, h | HashAt(l, i, h)
      ensures h in u && u[h] == TxRef(l.seqNo, i + 1)
    {
      var p := RowOf(l, rows, i, h);
      assert u[rows[p].hash] == TxRef(rows[p].seqNo, rows[p].index);
    }
    MergedIndex(ledgers, t, l, u);
  }

  /** Every row of a ledger points at a transaction with its hash, and was not indexed before. */
  lemma ListedRowsPoint(t: TxTable, l: Ledger, rows: seq<PendingTx>)
    requires NewHashes(t, l) && Lists(rows, Lookup(l, |l.txs|), l.seqNo)
    ensures forall p :: 0 <= p < |rows| ==>
              && rows[p].hash !in t && rows[p].index >= 1 && rows[p].seqNo == l.seqNo
              && HashAt(l, rows[p].index - 1, rows[p].hash)
    ensures forall p, q :: 0 <= p < q < |rows| ==> rows[p].hash != rows[q].hash
  {
    hide HashAt, Lookup, Occurs;
    LookupExact(l, |l.txs|);
    var m := Lookup(l, |l.txs|);
    forall p | 0 <= p < |rows|
      ensures rows[p].hash !in t && rows[p].index >= 1 && HashAt(l, rows[p].index - 1, rows[p].hash)
    {
      assert rows[p].hash in m;
      assert HashAt(l, m[rows[p].hash] - 1, rows[p].hash);
    }
  }

  /** Every hash of a ledger has its row. */
  lemma RowOf(l: Ledger, rows: seq<PendingTx>, i: nat, h: Hash) returns (p: nat)
    requires UniqueInLedger(l) && Lists(rows, Lookup(l, |l.txs|), l.seqNo) && HashAt(l, i, h)
    ensures p < |rows| && rows[p] == PendingTx(h, l.seqNo, i + 1)
  {
    LookupExact(l, |l.txs|);
    var m := Lookup(l, |l.txs|);
    assert h in m && m[h] == i + 1;
    assert Occurs(rows, h);
    p :| 0 <= p < |rows| && rows[p].hash == h;
  }

  lemma EntriesPoint(ledgers: map<LedgerNo, Ledger>, t: TxTable, l: Ledger, rows: seq<PendingTx>, u: TxTable)
    requires IndexOk(ledgers, t) && l.seqNo !in ledgers
    requires forall h :: h in t ==> h in u && u[h] == t[h]
    requires forall p :: 0 <= p < |rows| ==> rows[p].hash in u && u[rows[p].hash] == TxRef(rows[p].seqNo, rows[p].index)
    requires forall h :: h in u ==> h in t || exists p :: 0 <= p < |rows| && rows[p].hash == h
    requires forall p :: 0 <= p < |rows| ==>
               rows[p].index >= 1 && rows[p].seqNo == l.seqNo && HashAt(l, rows[p].index - 1, rows[p].hash)
    ensures EntriesOk(ledgers[l.seqNo := l], u)
  {
    hide HashAt;
    var ledgers' := ledgers[l.seqNo := l];
    forall h | h in u
      ensures u[h].seqNo in ledgers' && 1 <= u[h].index && HashAt(ledgers'[u[h].seqNo], u[h].index - 1, h)
    {
      if h in t {
        assert t[h].seqNo in ledgers;
      } else {
        var p :| 0 <= p < |rows| && rows[p].hash == h;
      }
    }
  }

  lemma MergedIndex(ledgers: map<LedgerNo, Ledger>, t: TxTable, l: Ledger, u: TxTable)
    requires IndexOk(ledgers, t) && l.seqNo !in ledgers && EntriesOk(ledgers[l.seqNo := l], u)
    requires forall h :: h in t ==> h in u && u[h] == t[h]
    requires forall i: nat, h :: HashAt(l, i, h) ==> h in u && u[h] == TxRef(l.seqNo, i + 1)
    ensures IndexOk(ledgers[l.seqNo := l], u)
  {
    hide HashAt, EntriesOk;
    var ledgers' := ledgers[l.seqNo := l];
    forall s, i: nat, h | s in ledgers' && HashAt(ledgers'[s], i, h)
      ensures h in u && u[h] == TxRef(s, i + 1)
    {
      if s != l.seqNo {
        assert s in ledgers && HashAt(ledgers[s], i, h);
      }
    }
  }

  lemma EmittedLedger(l: Ledger, r: EventRow)
    requires FitsToid(l) && KnownStages(l) && r in Emitted(l)
    ensures r.cursor.ledger == l.seqNo
  {
    ChronologicalOrder(l);
    assert r in multiset(Emitted(l));
    assert r in Chronological(l);
  }

  lemma EmittedIdsFresh(ledgers: map<LedgerNo, Ledger>, e: EventTable, l: Ledger, p: nat)
    requires LedgersOk(ledgers) && EventsOk(ledgers, e) && l.seqNo !in ledgers && FitsToid(l) && KnownStages(l)
    requires p < |Emitted(l)|
    ensures Emitted(l)[p].Id() !in e
  {
    var r := Emitted(l)[p];
    EmittedLedger(l, r);
    if r.Id() in e {
      var r' := e[r.Id()];
      assert EventOf(ledgers, r');
      PrintOrder(r.cursor, r'.cursor);
      assert false;
    }
  }

  lemma AddLedgerToEvents(ledgers: map<LedgerNo, Ledger>, e: EventTable, l: Ledger)
    requires LedgersOk(ledgers) && EventsOk(ledgers, e) && l.seqNo !in ledgers && FitsToid(l) && KnownStages(l)
    ensures LedgersOk(ledgers[l.seqNo := l])
    ensures InsertRows(e, Emitted(l)).Some?
    ensures EventsOk(ledgers[l.seqNo := l], InsertRows(e, Emitted(l)).value)
  {
    hide Emitted, FitsToid, KnownStages, ToString, InsertRows;
    var rows := Emitted(l);
    forall p | 0 <= p < |rows|
      ensures rows[p].Id() !in e && rows[p].cursor.ledger == l.seqNo
    {
      EmittedIdsFresh(ledgers, e, l, p);
      EmittedLedger(l, rows[p]);
    }
    forall p, q | 0 <= p < q < |rows|
      ensures rows[p].Id() != rows[q].Id()
    {
      IdsAreDistinct(l, p, q);
    }
    InsertRowsExact(e, rows);
    MergedEvents(ledgers, e, l, InsertRows(e, rows).value);
  }

  lemma MergedEvents(ledgers: map<LedgerNo, Ledger>, e: EventTable, l: Ledger, u: EventTable)
    requires LedgersOk(ledgers) && EventsOk(ledgers, e) && l.seqNo !in ledgers && FitsToid(l) && KnownStages(l)
    requires var rows := Emitted(l);
             && (forall p :: 0 <= p < |rows| ==> rows[p].cursor.ledger == l.seqNo)
             && (forall id :: id in e ==> id in u && u[id] == e[id])
             && (forall p :: 0 <= p < |rows| ==> rows[p].Id() in u && u[rows[p].Id()] == rows[p])
             && (forall id :: id in u ==>
                   id in e || exists p :: 0 <= p < |rows| && rows[p].Id() == id && u[id] == rows[p])
    ensures LedgersOk(ledgers[l.seqNo := l]) && EventsOk(ledgers[l.seqNo := l], u)
  {
    hide Emitted, FitsToid, KnownStages, ToString;
    var rows := Emitted(l);
    var ledgers' := ledgers[l.seqNo := l];
    forall id | id in u
      ensures u[id].Id() == id && EventOf(ledgers', u[id])
    {
      if id in e {
        assert EventOf(ledgers, e[id]);
      } else {
        var p :| 0 <= p < |rows| && rows[p].Id() == id && u[id] == rows[p];
        assert rows[p] in rows;
      }
    }
    forall r | EventOf(ledgers', r)
      ensures r.Id() in u && u[r.Id()] == r
    {
      if r.cursor.ledger == l.seqNo {
        var p :| 0 <= p < |rows| && rows[p] == r;
        assert u[rows[p].Id()] == rows[p];
      } else {
        assert EventOf(ledgers, r);
      }
    }
  }

  // ---------- trimming ----------

  /** DELETE ... WHERE sequence < cutoff, ledger_sequence < cutoff, id < Cursor{cutoff}. */
  function TrimTables(t: Tables, last: LedgerNo, window: nat): Tables
    requires 1 <= window
  {
    if last + 1 <= window then t
    else
      var cutoff: LedgerNo := last + 1 - window;
      var id := ToString(Cursor(cutoff, 0, 0, 0));
      Tables(map s | s in t.ledgers && s >= cutoff :: t.ledgers[s],
             map h | h in t.transactions && t.transactions[h].seqNo >= cutoff :: t.transactions[h],
             map i | i in t.events && !StrLess(i, id) :: t.events[i])
  }

  /** The string comparison with the cutoff's cursor is the comparison of ledgers. */
  lemma TrimById(r: EventRow, cutoff: LedgerNo)
    ensures StrLess(r.Id(), ToString(Cursor(cutoff, 0, 0, 0))) <==> r.cursor.ledger < cutoff
  {
    PrintOrder(r.cursor, Cursor(cutoff, 0, 0, 0));
  }

  /** The three trims remove the same ledgers: no event or transaction outlives or loses its ledger. */
  lemma TrimKeepsConsistent(t: Tables, last: LedgerNo, window: nat)
    requires 1 <= window && Consistent(t)
    ensures Consistent(TrimTables(t, last, window))
    ensures forall s :: s in TrimTables(t, last, window).ledgers <==> s in t.ledgers && s >= last + 1 - window
  {
    hide LedgersOk, IndexOk, EventsOk, StrLess, ToString;
    if last + 1 > window {
      var u := TrimTables(t, last, window);
      EventsTrimmedByLedger(t, last, window);
      TrimKeepsEvents(t, u, last + 1 - window);
      TrimKeepsIndex(t, u, last + 1 - window);
    }
  }

  lemma EventsTrimmedByLedger(t: Tables, last: LedgerNo, window: nat)
    requires 1 <= window <= last && LedgersOk(t.ledgers) && EventsOk(t.ledgers, t.events)
    ensures var u := TrimTables(t, last, window);
            && (forall id :: id in u.events ==> id in t.events && u.events[id] == t.events[id])
            && (forall id :: id in t.events ==> (id in u.events <==> t.events[id].cursor.ledger >= last + 1 - window))
  {
    hide FitsToid, KnownStages, Emitted, StrLess, ToString;
    var u := TrimTables(t, last, window);
    forall id | id in t.events
      ensures id in u.events <==> t.events[id].cursor.ledger >= last + 1 - window
    {
      TrimById(t.events[id], last + 1 - window);
    }
  }

  lemma TrimKeepsIndex(t: Tables, u: Tables, cutoff: int)
    requires IndexOk(t.ledgers, t.transactions)
    requires u.ledgers == map s | s in t.ledgers && s >= cutoff :: t.ledgers[s]
    requires u.transactions == map h | h in t.transactions && t.transactions[h].seqNo >= cutoff :: t.transactions[h]
    ensures IndexOk(u.ledgers, u.transactions)
  {
  }

  lemma TrimKeepsEvents(t: Tables, u: Tables, cutoff: int)
    requires LedgersOk(t.ledgers) && EventsOk(t.ledgers, t.events)
    requires u.ledgers == map s | s in t.ledgers && s >= cutoff :: t.ledgers[s]
    requires forall id :: id in u.events ==> id in t.events && u.events[id] == t.events[id]
    requires forall id :: id in t.events ==> (id in u.events <==> t.events[id].cursor.ledger >= cutoff)
    ensures LedgersOk(u.ledgers) && EventsOk(u.ledgers, u.events)
  {
    hide FitsToid, KnownStages, Emitted;
    forall r | EventOf(u.ledgers, r)
      ensures r.Id() in u.events && u.events[r.Id()] == r
    {
      assert EventOf(t.ledgers, r);
    }
    forall id | id in u.events
      ensures u.events[id].Id() == id && EventOf(u.ledgers, u.events[id])
    {
      assert EventOf(t.ledgers, t.events[id]);
    }
  }

  // ---------- the database ----------

  /** Every hash belongs to one transaction of one ledger (hashes do not collide). */
  ghost predicate UniqueHashes(all: set<Ledger>) {
    forall l, m, i: nat, j: nat, h {:trigger HashAt(l, i, h), HashAt(m, j, h)} ::
      l in all && m in all && HashAt(l, i, h) && HashAt(m, j, h) ==> l == m && i == j
  }

  /** The ledgers to commit: new sequence numbers, well-formed, hashes unique with the stored ones. */
  ghost predicate Acceptable(t: Tables, lcms: seq<Ledger>) {
    && (forall p :: 0 <= p < |lcms| ==> lcms[p].seqNo !in t.ledgers && FitsToid(lcms[p]) && KnownStages(lcms[p]))
    && (forall p, q :: 0 <= p < q < |lcms| ==> lcms[p].seqNo != lcms[q].seqNo)
    && UniqueHashes(t.ledgers.Values + (set l | l in lcms))
  }

  /** The stored ledgers together with the new ones. */
  function WithLedgers(ledgers: map<LedgerNo, Ledger>, lcms: seq<Ledger>): map<LedgerNo, Ledger> {
    if lcms == [] then ledgers
    else WithLedgers(ledgers, lcms[..|lcms| - 1])[lcms[|lcms| - 1].seqNo := lcms[|lcms| - 1]]
  }

  lemma {:induction false} WithLedgersContents(ledgers: map<LedgerNo, Ledger>, lcms: seq<Ledger>)
    ensures forall s :: s in WithLedgers(ledgers, lcms) ==>
              || (s in ledgers && WithLedgers(ledgers, lcms)[s] == ledgers[s])
              || WithLedgers(ledgers, lcms)[s] in lcms
    ensures forall s :: s in WithLedgers(ledgers, lcms) ==>
              s in ledgers || exists p :: 0 <= p < |lcms| && lcms[p].seqNo == s
  {
    if lcms != [] {
      WithLedgersContents(ledgers, lcms[..|lcms| - 1]);
    }
  }

  ghost predicate Numbers(lcms: seq<Ledger>, s: LedgerNo) {
    exists p :: 0 <= p < |lcms| && lcms[p].seqNo == s
  }

  lemma OneMoreNumber(lcms: seq<Ledger>, n: nat)
    requires |lcms| == n + 1
    ensures forall s :: Numbers(lcms, s) <==> Numbers(lcms[..n], s) || s == lcms[n].seqNo
  {
    assert forall p :: 0 <= p < n ==> lcms[..n][p] == lcms[p];
  }

  /** New ledgers are added to the old ones, each as it is. */
  lemma {:induction false} WithLedgersExact(ledgers: map<LedgerNo, Ledger>, lcms: seq<Ledger>)
    requires forall p :: 0 <= p < |lcms| ==> lcms[p].seqNo !in ledgers
    requires forall p, q :: 0 <= p < q < |lcms| ==> lcms[p].seqNo != lcms[q].seqNo
    ensures forall s :: s in WithLedgers(ledgers, lcms) <==> s in ledgers || Numbers(lcms, s)
    ensures forall s :: s in ledgers ==> WithLedgers(ledgers, lcms)[s] == ledgers[s]
    ensures forall p :: 0 <= p < |lcms| ==>
              lcms[p].seqNo in WithLedgers(ledgers, lcms) && WithLedgers(ledgers, lcms)[lcms[p].seqNo] == lcms[p]
  {
    if lcms != [] {
      var n := |lcms| - 1;
      WithLedgersExact(ledgers, lcms[..n]);
      OneMoreNumber(lcms, n);
    }
  }

  lemma OneMoreLedger(ledgers: map<LedgerNo, Ledger>, lcms: seq<Ledger>, n: nat)
    requires n < |lcms|
    ensures WithLedgers(ledgers, lcms[..n + 1]) == WithLedgers(ledgers, lcms[..n])[lcms[n].seqNo := lcms[n]]
  {
    assert lcms[..n + 1][..n] == lcms[..n];
  }

  /** Distinct hashes mean that the next ledger's hashes are new to the index. */
  lemma NextHashesAreNew(t: Tables, lcms: seq<Ledger>, n: nat, u: TxTable)
    requires Acceptable(t, lcms) && n < |lcms|
    requires LedgersOk(WithLedgers(t.ledgers, lcms[..n])) && EntriesOk(WithLedgers(t.ledgers, lcms[..n]), u)
    ensures NewHashes(u, lcms[n]) && lcms[n].seqNo !in WithLedgers(t.ledgers, lcms[..n])
  {
    hide FitsToid, KnownStages, HashAt;
    var all := t.ledgers.Values + (set l | l in lcms);
    var l := lcms[n];
    var now := WithLedgers(t.ledgers, lcms[..n]);
    WithLedgersContents(t.ledgers, lcms[..n]);
    assert l in all;
    assert l.seqNo !in now;
    forall h | h in u
      ensures now[u[h].seqNo] in all && now[u[h].seqNo] != l
    {
      if now[u[h].seqNo] in lcms[..n] {
        assert now[u[h].seqNo] in lcms;
      }
    }
    forall i: nat, h | HashAt(l, i, h)
      ensures h !in u
    {
      if h in u {
        assert false;
      }
    }
  }

  /** What the write transaction holds after n ledgers, with these rows handed to the two writers. */
  ghost predicate Staging(t: Tables, lcms: seq<Ledger>, n: nat, txRows: seq<PendingTx>, eventRows: seq<EventRow>)
    requires n <= |lcms|
  {
    var transactions, events := InsertTxs(t.transactions, txRows), InsertRows(t.events, eventRows);
    && transactions.Some? && events.Some?
    && Consistent(Tables(WithLedgers(t.ledgers, lcms[..n]), transactions.value, events.value))
  }

  lemma StageOneLedger(t: Tables, lcms: seq<Ledger>, n: nat,
                       txRows: seq<PendingTx>, eventRows: seq<EventRow>, newRows: seq<PendingTx>)
    requires Acceptable(t, lcms) && n < |lcms| && Staging(t, lcms, n, txRows, eventRows)
    requires Lists(newRows, Lookup(lcms[n], |lcms[n].txs|), lcms[n].seqNo)
    requires FitsToid(lcms[n]) && KnownStages(lcms[n])
    ensures Staging(t, lcms, n + 1, txRows + newRows, eventRows + Emitted(lcms[n]))
  {
    hide FitsToid, KnownStages, Lists, Lookup, LedgersOk, EventsOk, EntriesOk, InsertTxs, InsertRows, WithLedgers,
      Acceptable, NewHashes, Emitted;
    var now := WithLedgers(t.ledgers, lcms[..n]);
    var u, e := InsertTxs(t.transactions, txRows).value, InsertRows(t.events, eventRows).value;
    NextHashesAreNew(t, lcms, n, u);
    AddLedgerToIndex(now, u, lcms[n], newRows);
    AddLedgerToEvents(now, e, lcms[n]);
    InsertTxsConcat(t.transactions, txRows, newRows);
    InsertRowsConcat(t.events, eventRows, Emitted(lcms[n]));
    OneMoreLedger(t.ledgers, lcms, n);
  }

  lemma NothingStaged(t: Tables, lcms: seq<Ledger>)
    requires Consistent(t)
    ensures Staging(t, lcms, 0, [], [])
  {
    hide Consistent;
    assert Tables(WithLedgers(t.ledgers, lcms[..0]), t.transactions, t.events) == t;
  }

  /** A row is stored exactly when it is an event of a stored ledger, under its identity and with its content. */
  lemma StoredAreTheEvents(t: Tables, r: EventRow)
    requires Consistent(t)
    ensures r in t.events.Values <==> r.cursor.ledger in t.ledgers && IsEventOf(t.ledgers[r.cursor.ledger], r)
    ensures r in t.events.Values ==> r.Id() in t.events && t.events[r.Id()] == r
  {
    hide FitsToid, KnownStages, Emitted, ToString, IndexOk, IsEventOf;
    if r.cursor.ledger in t.ledgers {
      EmittedAreTheEvents(t.ledgers[r.cursor.ledger]);
    }
    assert EventOf(t.ledgers, r) ==> t.events[r.Id()] == r;
    if id :| id in t.events && t.events[id] == r {
      assert EventOf(t.ledgers, r);
    }
  }

  /** The retained ledgers determine the two other tables. */
  lemma ConsistentIsUnique(t: Tables, u: Tables)
    requires Consistent(t) && Consistent(u) && t.ledgers == u.ledgers
    ensures t == u
  {
    hide FitsToid, KnownStages, Emitted, HashAt, ToString;
    forall h | h in t.transactions
      ensures h in u.transactions && u.transactions[h] == t.transactions[h]
    {
      assert HashAt(t.ledgers[t.transactions[h].seqNo], t.transactions[h].index - 1, h);
    }
    forall h | h in u.transactions
      ensures h in t.transactions
    {
      assert HashAt(u.ledgers[u.transactions[h].seqNo], u.transactions[h].index - 1, h);
    }
    assert t.transactions == u.transactions;
    forall id | id in t.events
      ensures id in u.events && u.events[id] == t.events[id]
    {
      assert EventOf(u.ledgers, t.events[id]);
    }
    forall id | id in u.events
      ensures id in t.events
    {
      assert EventOf(t.ledgers, u.events[id]);
    }
    assert t.events == u.events;
  }

  class Database {
    const window: nat             // HistoryRetentionWindow
    const faultAt: nat -> bool    // does the i-th SQL statement or commit fail?
    var clock: nat
    var tables: Tables

    ghost predicate Valid()
      reads this
    {
      1 <= window && Consistent(tables)
    }

    constructor (window: nat, faultAt: nat -> bool)
      requires 1 <= window
      ensures Valid() && this.window == window && tables == Tables(map[], map[], map[])
    {
      this.window, this.faultAt, this.clock := window, faultAt, 0;
      tables := Tables(map[], map[], map[]);
    }

    ghost predicate FaultIn(from: nat, to: nat) {
      exists i :: from <= i < to && faultAt(i)
    }

    /**
     * One write transaction: insert every ledger with its transactions and events, flush the
     * batches, trim, commit. Whatever fails on the way leaves the tables as they were.
     */
    method Ingest(lcms: seq<Ledger>) returns (ok: bool)
      requires Valid() && lcms != [] && Acceptable(tables, lcms)
      modifies this
      ensures Valid() && old(clock) <= clock
      ensures ok ==>
                tables.ledgers == Retained(WithLedgers(old(tables).ledgers, lcms), lcms[|lcms| - 1].seqNo + 1 - window)
      ensures !ok ==> tables == old(tables)
      ensures !ok ==> FaultIn(old(clock), clock)
    {
      hide Consistent, Acceptable, Staging, WithLedgers;
      var start := clock;
      var ledgers, txRows, eventRows, steps;
      ok, ledgers, txRows, eventRows, steps := Write(lcms, start);
      clock := start + 3 * steps;
      if ok {
        ok := Commit(lcms, ledgers, txRows, eventRows, start + 3 * |lcms| + 2);
      }
    }

    /**
     * Everything before the commit: the rows that the two writers wrote. The writers' statements and
     * all others are three streams of the clock; `steps` bounds how far they got.
     */
    method Write(lcms: seq<Ledger>, start: nat)
        returns (ok: bool, ledgers: map<LedgerNo, Ledger>, txRows: seq<PendingTx>, eventRows: seq<EventRow>, steps: nat)
      requires Valid() && Acceptable(tables, lcms)
      ensures ok ==> ledgers == WithLedgers(tables.ledgers, lcms) && Staging(tables, lcms, |lcms|, txRows, eventRows)
      ensures |lcms| < steps
      ensures !ok ==> FaultIn(start, start + 3 * steps)
    {
      hide Consistent, Acceptable, Staging, WithLedgers, BatchWriter.Settled, BatchWriter.Valid;
      var fault := faultAt;
      var txWriter := new BatchWriter<PendingTx>(MAX_TX_ROWS_PER_BATCH, TX_COLUMNS, (i: nat) => fault(start + 3 * i));
      var eventWriter := new BatchWriter<EventRow>(MAX_EVENTS_PER_BATCH, EVENT_COLUMNS,
                                                   (i: nat) => fault(start + 3 * i + 1));
      ok, ledgers := Stage(lcms, txWriter, eventWriter, start);
      if ok {
        ok := Flush(txWriter, eventWriter);
      }
      txRows, eventRows := txWriter.flushed, eventWriter.flushed;
      steps := txWriter.attempts + eventWriter.attempts + |lcms| + 1;
      if !ok {
        FaultInStreams(fault, start, txWriter.attempts, eventWriter.attempts, |lcms|);
      }
    }

    /** Inserts ledger by ledger; the tables themselves stay as they are. */
    method Stage(lcms: seq<Ledger>, txWriter: BatchWriter<PendingTx>, eventWriter: BatchWriter<EventRow>, start: nat)
        returns (ok: bool, ledgers: map<LedgerNo, Ledger>)
      requires Valid() && Acceptable(tables, lcms)
      requires txWriter.Settled() && eventWriter.Settled() && txWriter.Appended() == [] && eventWriter.Appended() == []
      requires {txWriter, txWriter.data} !! {eventWriter, eventWriter.data}
      modifies txWriter, txWriter.data, eventWriter, eventWriter.data
      ensures {txWriter, txWriter.data} !! {eventWriter, eventWriter.data}
      ensures txWriter.data == old(txWriter.data) || fresh(txWriter.data)
      ensures eventWriter.data == old(eventWriter.data) || fresh(eventWriter.data)
      ensures old(txWriter.attempts) <= txWriter.attempts && old(eventWriter.attempts) <= eventWriter.attempts
      ensures ok ==> txWriter.Settled() && eventWriter.Settled() && ledgers == WithLedgers(tables.ledgers, lcms)
      ensures ok ==> Staging(tables, lcms, |lcms|, txWriter.Appended(), eventWriter.Appended())
      ensures !ok ==>
                || txWriter.FaultIn(0, txWriter.attempts) || eventWriter.FaultIn(0, eventWriter.attempts)
                || exists n :: 0 <= n < |lcms| && faultAt(start + 3 * n + 2)
    {
      hide FitsToid, KnownStages, Consistent, TrimTables, Acceptable, Staging, Lists, Lookup, WithLedgers;
      ledgers := tables.ledgers;
      NothingStaged(tables, lcms);
      EmptyPrefix(ledgers, lcms);
      for n := 0 to |lcms|
        invariant {txWriter, txWriter.data} !! {eventWriter, eventWriter.data}
        invariant txWriter.data == old(txWriter.data) || fresh(txWriter.data)
        invariant eventWriter.data == old(eventWriter.data) || fresh(eventWriter.data)
        invariant old(txWriter.attempts) <= txWriter.attempts && old(eventWriter.attempts) <= eventWriter.attempts
        invariant txWriter.Settled() && eventWriter.Settled()
        invariant ledgers == WithLedgers(tables.ledgers, lcms[..n])
        invariant Staging(tables, lcms, n, txWriter.Appended(), eventWriter.Appended())
      {
        if faultAt(start + 3 * n + 2) {
          return false, ledgers;
        }
        var l := lcms[n];
        WellFormed(tables, lcms, n);
        OneMoreLedger(tables.ledgers, lcms, n);
        ledgers := ledgers[l.seqNo := l];
        ghost var txRows, eventRows := txWriter.Appended(), eventWriter.Appended();
        ghost var newRows;
        ok, newRows := InsertLedger(l, txWriter, eventWriter);
        if !ok {
          return;
        }
        StageOneLedger(tables, lcms, n, txRows, eventRows, newRows);
      }
      assert lcms[..|lcms|] == lcms;
      ok := true;
    }

    /** flushWriters */
    method Flush(txWriter: BatchWriter<PendingTx>, eventWriter: BatchWriter<EventRow>) returns (ok: bool)
      requires txWriter.Settled() && eventWriter.Settled()
      requires {txWriter, txWriter.data} !! {eventWriter, eventWriter.data}
      modifies txWriter, txWriter.data, eventWriter, eventWriter.data
      ensures old(txWriter.attempts) <= txWriter.attempts && old(eventWriter.attempts) <= eventWriter.attempts
      ensures ok ==> txWriter.flushed == old(txWriter.Appended()) && eventWriter.flushed == old(eventWriter.Appended())
      ensures !ok ==> txWriter.FaultIn(0, txWriter.attempts) || eventWriter.FaultIn(0, eventWriter.attempts)
    {
      ok := txWriter.FlushPending();
      if !ok {
        return;
      }
      ok := eventWriter.FlushPending();
    }

    /** Trims the three tables and makes the write transaction visible, all at once. */
    method Commit(lcms: seq<Ledger>, ledgers: map<LedgerNo, Ledger>, txRows: seq<PendingTx>, eventRows: seq<EventRow>,
                  at: nat)
        returns (ok: bool)
      requires Valid() && lcms != [] && ledgers == WithLedgers(tables.ledgers, lcms)
      requires Staging(tables, lcms, |lcms|, txRows, eventRows)
      modifies this`tables
      ensures Valid() && ok == !faultAt(at)
      ensures ok ==> tables.ledgers == Retained(ledgers, lcms[|lcms| - 1].seqNo + 1 - window)
      ensures !ok ==> tables == old(tables)
    {
      hide Consistent, InsertTxs, InsertRows, TrimTables, WithLedgers;
      assert lcms[..|lcms|] == lcms;
      var staged := Tables(ledgers, InsertTxs(tables.transactions, txRows).value,
                           InsertRows(tables.events, eventRows).value);
      TrimKeepsConsistent(staged, lcms[|lcms| - 1].seqNo, window);
      if faultAt(at) {
        return false;
      }
      TrimmedLedgers(staged, lcms[|lcms| - 1].seqNo, window);
      tables := TrimTables(staged, lcms[|lcms| - 1].seqNo, window);
      ok := true;
    }

    /** getTransactionByHash: join the index with the ledgers, seek to the position before, read. */
    method GetTransactionByHash(h: Hash) returns (r: LookupResult)
      requires Valid()
      ensures r.Found? ==> exists s, i: nat :: s in tables.ledgers && HashAt(tables.ledgers[s], i, h)
                                             && r == Found(tables.ledgers[s], tables.ledgers[s].txs[i])
      ensures !r.Found? ==>
                r == NoTransaction && forall s, i: nat :: s in tables.ledgers ==> !HashAt(tables.ledgers[s], i, h)
    {
      hide LedgersOk, EventsOk;
      if h !in tables.transactions || tables.transactions[h].seqNo !in tables.ledgers {
        return NoTransaction;
      }
      var ref := tables.transactions[h];
      var lcm := tables.ledgers[ref.seqNo];
      assert HashAt(lcm, ref.index - 1, h);
      if ref.index - 1 < 0 || ref.index - 1 > |lcm.txs| {
        return SeekFailed;
      }
      if ref.index - 1 == |lcm.txs| {
        return EndOfLedger;
      }
      r := Found(lcm, lcm.txs[ref.index - 1]);
    }
  }

  /** A fault in one of the three streams is a fault of the clock. */
  lemma FaultInStreams(fault: nat -> bool, start: nat, a: nat, b: nat, c: nat)
    requires || (exists i: nat :: i < a && fault(start + 3 * i))
             || (exists i: nat :: i < b && fault(start + 3 * i + 1))
             || (exists i: nat :: i < c && fault(start + 3 * i + 2))
    ensures exists i: nat :: start <= i < start + 3 * (a + b + c) && fault(i)
  {
  }

  datatype LookupResult = Found(lcm: Ledger, tx: Transaction) | NoTransaction | SeekFailed | EndOfLedger

  function Retained(ledgers: map<LedgerNo, Ledger>, cutoff: int): map<LedgerNo, Ledger> {
    map s | s in ledgers && s >= cutoff :: ledgers[s]
  }

  lemma TrimmedLedgers(t: Tables, last: LedgerNo, window: nat)
    requires 1 <= window
    ensures TrimTables(t, last, window).ledgers == Retained(t.ledgers, last + 1 - window)
  {
  }

  /** The retained ledgers are the trimmed set of ledgers. */
  lemma RetainedIsTrimmed(ledgers: map<LedgerNo, Ledger>, last: LedgerNo, window: nat)
    ensures Retained(ledgers, last + 1 - window).Keys == Trimmed(ledgers.Keys, last, window)
  {
  }

  lemma EmptyPrefix(ledgers: map<LedgerNo, Ledger>, lcms: seq<Ledger>)
    ensures WithLedgers(ledgers, lcms[..0]) == ledgers
  {
  }

  lemma WellFormed(t: Tables, lcms: seq<Ledger>, n: nat)
    requires Acceptable(t, lcms) && n < |lcms|
    ensures FitsToid(lcms[n]) && KnownStages(lcms[n])
  {
  }

  /** ingestLedgerCloseMeta after the ledger row itself: the transactions, then the events. */
  method InsertLedger(l: Ledger, txWriter: BatchWriter<PendingTx>, eventWriter: BatchWriter<EventRow>)
      returns (ok: bool, ghost newRows: seq<PendingTx>)
    requires FitsToid(l) && KnownStages(l) && txWriter.Settled() && eventWriter.Settled()
    requires {txWriter, txWriter.data} !! {eventWriter, eventWriter.data}
    modifies txWriter, txWriter.data, eventWriter, eventWriter.data
    ensures txWriter.data == old(txWriter.data) || fresh(txWriter.data)
    ensures eventWriter.data == old(eventWriter.data) || fresh(eventWriter.data)
    ensures {txWriter, txWriter.data} !! {eventWriter, eventWriter.data}
    ensures ok ==> txWriter.Settled() && eventWriter.Settled()
    ensures ok ==> txWriter.Appended() == old(txWriter.Appended()) + newRows
    ensures ok ==> Lists(newRows, Lookup(l, |l.txs|), l.seqNo)
    ensures ok ==> eventWriter.Appended() == old(eventWriter.Appended()) + Emitted(l)
    ensures old(txWriter.attempts) <= txWriter.attempts && old(eventWriter.attempts) <= eventWriter.attempts
    ensures !ok ==> || txWriter.FaultIn(old(txWriter.attempts), txWriter.attempts)
                    || eventWriter.FaultIn(old(eventWriter.attempts), eventWriter.attempts)
  {
    hide FitsToid, KnownStages, Lists, Lookup, Emitted;
    ok, newRows := InsertTransactions(l, txWriter);
    if !ok {
      return;
    }
    ok := EventIngest.InsertEvents(l, eventWriter);
  }
}
