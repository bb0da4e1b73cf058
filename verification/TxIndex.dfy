/**
 * The hash index of a ledger's transactions
 * (InsertTransactions in cmd/stellar-rpc/internal/db/transaction.go).
 */
module TxIndex {
  import opened Cursors
  import opened Ledgers
  import opened BatchWriters
  import opened Wrappers

  /** A row of the transactions table; `index` is the application order, from 1. */
  datatype PendingTx = PendingTx(hash: Hash, seqNo: LedgerNo, index: nat)

  /** h is the outer or the inner hash of transaction i (from 0). */
  predicate HashAt(l: Ledger, i: nat, h: Hash) {
    i < |l.txs| && (l.txs[i].hash == h || l.txs[i].innerHash == Some(h))
  }

  /** The Go map from hash to transaction after reading n transactions; later ones overwrite. */
  function Lookup(l: Ledger, n: nat): map<Hash, nat>
    requires n <= |l.txs|
  {
    if n == 0 then map[]
    else
      var m := Lookup(l, n - 1);
      var tx := l.txs[n - 1];
      (if tx.innerHash.Some? then m[tx.innerHash.value := n] else m)[tx.hash := n]
  }

  ghost predicate UniqueInLedger(l: Ledger) {
    forall i: nat, j: nat, h {:trigger HashAt(l, i, h), HashAt(l, j, h)} ::
      HashAt(l, i, h) && HashAt(l, j, h) ==> i == j
  }

  /** The map holds exactly the hashes of the transactions read, with their positions. */
  lemma {:induction false} LookupExact(l: Ledger, n: nat)
    requires n <= |l.txs| && UniqueInLedger(l)
    ensures forall h :: h in Lookup(l, n) ==> 1 <= Lookup(l, n)[h] <= n && HashAt(l, Lookup(l, n)[h] - 1, h)
    ensures forall i: nat, h :: i < n && HashAt(l, i, h) ==> h in Lookup(l, n) && Lookup(l, n)[h] == i + 1
  {
    if n > 0 {
      LookupExact(l, n - 1);
      forall i: nat, h | i < n && HashAt(l, i, h)
        ensures h in Lookup(l, n) && Lookup(l, n)[h] == i + 1
      {
        if HashAt(l, n - 1, h) {
          assert i == n - 1;
        }
      }
    }
  }

  /** `rows` lists the entries of m, each once, in some order. */
  ghost predicate Lists(rows: seq<PendingTx>, m: map<Hash, nat>, ledger: LedgerNo) {
    && (forall p :: 0 <= p < |rows| ==>
          rows[p].hash in m && rows[p].index == m[rows[p].hash] && rows[p].seqNo == ledger)
    && (forall p, q :: 0 <= p < q < |rows| ==> rows[p].hash != rows[q].hash)
    && (forall h :: h in m ==> Occurs(rows, h))
  }

  ghost predicate Occurs(rows: seq<PendingTx>, h: Hash) {
    exists p :: 0 <= p < |rows| && rows[p].hash == h
  }

  method BuildLookup(l: Ledger) returns (transactions: map<Hash, nat>)
    ensures transactions == Lookup(l, |l.txs|)
  {
    transactions := map[];
    for i := 0 to |l.txs|
      invariant transactions == Lookup(l, i)
    {
      var tx := l.txs[i];
      // a fee bump is found under either hash
      if tx.innerHash.Some? {
        transactions := transactions[tx.innerHash.value := i + 1];
      }
      transactions := transactions[tx.hash := i + 1];
    }
  }

  /** InsertTransactions: one row per distinct hash, in the map's arbitrary order. */
  method InsertTransactions(l: Ledger, w: BatchWriter<PendingTx>) returns (ok: bool, ghost rows: seq<PendingTx>)
    requires w.Settled()
    modifies w, w.data
    ensures w.Valid() && old(w.attempts) <= w.attempts && (w.data == old(w.data) || fresh(w.data))
    ensures Lists(rows, Lookup(l, |l.txs|), l.seqNo)
    ensures w.Appended() == old(w.Appended()) + rows
    ensures ok ==> w.Settled()
    ensures !ok ==> w.FaultIn(old(w.attempts), w.attempts)
  {
    rows := [];
    if |l.txs| == 0 {
      return true, rows;
    }
    var transactions := BuildLookup(l);
    rows := AppendAll(transactions, l.seqNo, w);
    ok := w.FlushFullBatches();
  }

  method AppendAll(m: map<Hash, nat>, ledger: LedgerNo, w: BatchWriter<PendingTx>) returns (ghost rows: seq<PendingTx>)
    requires w.Valid()
    modifies w, w.data
    ensures w.Valid() && w.attempts == old(w.attempts) && (w.data == old(w.data) || fresh(w.data))
    ensures Lists(rows, m, ledger)
    ensures w.Appended() == old(w.Appended()) + rows
  {
    rows := [];
    var todo := m.Keys;
    while todo != {}
      invariant w.Valid() && w.attempts == old(w.attempts) && (w.data == old(w.data) || fresh(w.data))
      invariant todo <= m.Keys && Lists(rows, map h | h in m && h !in todo :: m[h], ledger)
      invariant w.Appended() == old(w.Appended()) + rows
      decreases todo
    {
      var h :| h in todo;
      ListsOneMore(rows, m, todo, h, ledger);
      w.Append(PendingTx(h, ledger, m[h]));
      rows := rows + [PendingTx(h, ledger, m[h])];
      todo := todo - {h};
    }
    assert (map h | h in m && h !in todo :: m[h]) == m;
  }

  lemma ListsOneMore(rows: seq<PendingTx>, m: map<Hash, nat>, todo: set<Hash>, h: Hash, ledger: LedgerNo)
    requires h in todo && todo <= m.Keys && Lists(rows, map x | x in m && x !in todo :: m[x], ledger)
    ensures Lists(rows + [PendingTx(h, ledger, m[h])], map x | x in m && x !in todo - {h} :: m[x], ledger)
  {
    var rows' := rows + [PendingTx(h, ledger, m[h])];
    var done := map x | x in m && x !in todo :: m[x];
    forall x | x in m && x !in todo - {h}
      ensures Occurs(rows', x)
    {
      if x == h {
        assert rows'[|rows|].hash == x;
      } else {
        assert x in done;
        var p :| 0 <= p < |rows| && rows[p].hash == x;
        assert rows'[p].hash == x;
      }
    }
  }
}
