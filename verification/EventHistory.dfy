/**
 * The events table and the history of a chain of ledgers: what getEvents reads by ID is the
 * chronological history of the stored ledgers.
 */
module EventHistory {
  import opened Cursors
  import opened Ledgers
  import opened EventOrder
  import opened EventFilter
  import opened EventPages
  import opened Store

  /** Consecutive ledgers. */
  ghost predicate Chain(chain: seq<Ledger>) {
    forall i :: 0 <= i < |chain| ==> FitsToid(chain[i]) && KnownStages(chain[i]) && chain[i].seqNo == chain[0].seqNo + i
  }

  /** The events of the first n ledgers, in the order in which they happened. */
  ghost function History(chain: seq<Ledger>, n: nat): seq<EventRow>
    requires Chain(chain) && n <= |chain|
  {
    if n == 0 then [] else History(chain, n - 1) + Chronological(chain[n - 1])
  }

  /** A history is what the paging theorems ask for: strictly ascending cursors below the special ones. */
  lemma {:induction false} HistoryIsStorable(chain: seq<Ledger>, n: nat)
    requires Chain(chain) && n <= |chain|
    ensures Storable(History(chain, n))
    ensures forall r :: r in History(chain, n) <==> exists i :: 0 <= i < n && r in Chronological(chain[i])
    ensures forall r :: r in History(chain, n) ==> chain[0].seqNo <= r.cursor.ledger < chain[0].seqNo + n
  {
    hide FitsToid, KnownStages, Chronological, Ascending, Less;
    if n > 0 {
      HistoryIsStorable(chain, n - 1);
      ChronologicalOrder(chain[n - 1]);
      LaterLedger(History(chain, n - 1), Chronological(chain[n - 1]), chain[n - 1].seqNo);
    } else {
      NothingAscends();
    }
  }

  lemma LaterLedger(a: seq<EventRow>, b: seq<EventRow>, ledger: int)
    requires Ascending(a) && Ascending(b)
    requires forall r :: r in a ==> r.cursor.ledger < ledger
    requires forall r :: r in b ==> r.cursor.ledger == ledger
    ensures Ascending(a + b)
  {
    assert forall p :: 0 <= p < |a| ==> a[p] in a;
    assert forall q :: 0 <= q < |b| ==> b[q] in b;
    AscendingConcat(a, b);
  }

  /** Ascending lists with the same rows are the same list. */
  lemma {:induction false} AscendingUnique(a: seq<EventRow>, b: seq<EventRow>)
    requires Ascending(a) && Ascending(b)
    requires forall r :: r in a <==> r in b
    ensures a == b
  {
    if a == [] {
      FirstMember(b);
    } else {
      assert a[0] in b;
      assert b[0] in a;
      var i :| 0 <= i < |a| && a[i] == b[0];
      var j :| 0 <= j < |b| && b[j] == a[0];
      assert a[0] == b[0];
      NotInTail(a);
      NotInTail(b);
      AscendingTail(a);
      AscendingTail(b);
      forall r
        ensures r in a[1..] <==> r in b[1..]
      {
        assert r in a <==> r == a[0] || r in a[1..];
        assert r in b <==> r == b[0] || r in b[1..];
      }
      AscendingUnique(a[1..], b[1..]);
      assert a == [a[0]] + a[1..] && b == [b[0]] + b[1..];
    }
  }

  lemma NotInTail(a: seq<EventRow>)
    requires Ascending(a) && a != []
    ensures a[0] !in a[1..]
  {
  }

  /** The stored ledgers are the ledgers [first, last] of the chain. */
  ghost predicate HoldsRange(t: Tables, chain: seq<Ledger>, first: LedgerNo, last: LedgerNo)
    requires Chain(chain)
  {
    && chain != [] && chain[0].seqNo <= first && last < chain[0].seqNo + |chain|
    && (forall s :: s in t.ledgers <==> first <= s <= last)
    && (forall s :: s in t.ledgers ==> t.ledgers[s] == chain[s - chain[0].seqNo])
  }

  lemma SameEvents(l: Ledger, r: EventRow)
    requires FitsToid(l) && KnownStages(l)
    ensures r in Emitted(l) <==> r in Chronological(l)
    ensures r in Emitted(l) ==> r.cursor.ledger == l.seqNo
  {
    hide FitsToid, KnownStages, Chronological, Emitted;
    ChronologicalOrder(l);
    assert r in Emitted(l) <==> r in multiset(Emitted(l));
    assert r in Chronological(l) <==> r in multiset(Chronological(l));
  }

  lemma RowIsInHistory(t: Tables, chain: seq<Ledger>, first: LedgerNo, last: LedgerNo, r: EventRow)
    requires Chain(chain) && Consistent(t) && HoldsRange(t, chain, first, last) && r in t.events.Values
    ensures r in History(chain, |chain|) && first <= r.cursor.ledger <= last
  {
    hide FitsToid, KnownStages, Chronological, Emitted, ToString, Select, IndexOk, History;
    HistoryIsStorable(chain, |chain|);
    assert EventOf(t.ledgers, r);
    var i := r.cursor.ledger - chain[0].seqNo;
    assert t.ledgers[r.cursor.ledger] == chain[i];
    SameEvents(chain[i], r);
  }

  lemma HistoryRowIsStored(t: Tables, chain: seq<Ledger>, first: LedgerNo, last: LedgerNo, r: EventRow)
    requires Chain(chain) && Consistent(t) && HoldsRange(t, chain, first, last)
    requires r in History(chain, |chain|) && first <= r.cursor.ledger <= last
    ensures r in t.events.Values
  {
    hide FitsToid, KnownStages, Chronological, Emitted, ToString, Select, IndexOk, History;
    HistoryIsStorable(chain, |chain|);
    var i :| 0 <= i < |chain| && r in Chronological(chain[i]);
    SameEvents(chain[i], r);
    assert t.ledgers[r.cursor.ledger] == chain[i];
    assert EventOf(t.ledgers, r);
    assert t.events[r.Id()] == r;
  }

  /** A row is stored exactly when it happened in one of the stored ledgers. */
  lemma StoredRows(t: Tables, chain: seq<Ledger>, first: LedgerNo, last: LedgerNo, r: EventRow)
    requires Chain(chain) && Consistent(t) && HoldsRange(t, chain, first, last)
    ensures r in t.events.Values <==> r in Stored(History(chain, |chain|), first, last)
  {
    hide Chain, Consistent, HoldsRange, Select, History;
    SelectMembers(History(chain, |chain|), InLedgers(first, last));
    if r in t.events.Values {
      RowIsInHistory(t, chain, first, last, r);
    }
    if r in Stored(History(chain, |chain|), first, last) {
      HistoryRowIsStored(t, chain, first, last, r);
    }
  }

  /**
   * Reading the whole events table in the order of the string IDs yields the history of the stored
   * ledgers, ledger by ledger, each in chronological order.
   */
  lemma TableIsHistory(t: Tables, chain: seq<Ledger>, first: LedgerNo, last: LedgerNo, rows: seq<EventRow>)
    requires Chain(chain) && Consistent(t) && HoldsRange(t, chain, first, last)
    requires forall r :: r in rows <==> r in t.events.Values
    requires forall p, q :: 0 <= p < q < |rows| ==> StrLess(rows[p].Id(), rows[q].Id())
    ensures rows == Stored(History(chain, |chain|), first, last)
  {
    hide Consistent, Chain, HoldsRange, History, Select, StrLess, ToString;
    forall p, q | 0 <= p < q < |rows|
      ensures Less(rows[p].cursor, rows[q].cursor)
    {
      PrintOrder(rows[p].cursor, rows[q].cursor);
    }
    HistoryIsStorable(chain, |chain|);
    SelectAscends(History(chain, |chain|), InLedgers(first, last));
    forall r
      ensures r in rows <==> r in Stored(History(chain, |chain|), first, last)
    {
      StoredRows(t, chain, first, last, r);
    }
    AscendingUnique(rows, Stored(History(chain, |chain|), first, last));
  }
}
