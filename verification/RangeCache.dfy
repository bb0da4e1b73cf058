/**
 * The oldest/latest ledger cache (dbCache in cmd/stellar-rpc/internal/db/db.go) and the functions
 * that read and write it (GetLedgerRange, NewTx in cmd/stellar-rpc/internal/db/ledger.go,
 * getLatestLedgerSequence and writeTx.Commit in db.go).
 *
 * `DbCache` holds the fields and the bodies of the locked sections. The steps of CacheProtocol, of many
 * readers and one writer, interleave these sections with the queries made outside the lock.
 */
module RangeCache {
  import opened Words
  import opened LedgerSets
  import opened Wrappers

  /** Sequence and close time of a ledger; sequence 0 means "unknown". */
  datatype Info = Info(seqNo: nat, closeTime: int)
  datatype Range = Range(first: Info, last: Info)
  datatype Cache = Cache(latest: Info, first: Info)

  const UNKNOWN := Info(0, 0)
  const EMPTY_CACHE := Cache(UNKNOWN, UNKNOWN)

  /** Ledger numbers are positive and leave room for the `ledgerSeq + 1` of the retention arithmetic. */
  type Ledger = n: int | 0 < n < 0xFFFF_FFFF witness 1

  /** The ledger table: close time of every stored ledger. */
  type Table = map<Ledger, int>

  // ---------- MIN(sequence) and MAX(sequence) ----------

  function MinLedger(t: Table): (lo: Ledger)
    requires t != map[]
    ensures lo in t && forall x :: x in t ==> lo <= x
  {
    MinOf(t.Keys)
  }

  function MaxLedger(t: Table): (hi: Ledger)
    requires t != map[]
    ensures hi in t && forall x :: x in t ==> x <= hi
  {
    MaxOf(t.Keys)
  }

  function Oldest(t: Table): Info
    requires t != map[]
  {
    Info(MinLedger(t), t[MinLedger(t)])
  }

  function Latest(t: Table): Info
    requires t != map[]
  {
    Info(MaxLedger(t), t[MaxLedger(t)])
  }

  // ---------- a commit ----------

  /** The first ledger to keep; `trims` false means that nothing is cut off. */
  function Cutoff(ledgerSeq: Ledger, window: nat): int {
    ledgerSeq + 1 - window
  }

  /** trimLedgers: deletes sequence < cutoff unless ledgerSeq + 1 <= window. */
  function Trim(t: Table, ledgerSeq: Ledger, window: nat): Table {
    if ledgerSeq + 1 <= window then t
    else map x | x in t && x >= Cutoff(ledgerSeq, window) :: t[x]
  }

  function Committed(t: Table, rows: Table, ledgerSeq: Ledger, window: nat): Table {
    Trim(t + rows, ledgerSeq, window)
  }

  /** The cache update that follows the SQL commit inside the lock. */
  function CacheAfterCommit(c: Cache, ledgerSeq: Ledger, closeTime: int, window: nat): Cache {
    var latest := if ledgerSeq > c.latest.seqNo then Info(ledgerSeq, closeTime) else c.latest;
    var first :=
      if window != 0 && ledgerSeq + 1 > window && c.first.seqNo != 0 && c.first.seqNo < Cutoff(ledgerSeq, window)
      then UNKNOWN else c.first;
    Cache(latest, first)
  }

  /** The second locked section of GetLedgerRange. */
  function CacheAfterMemoize(c: Cache, snapshot: Info, oldest: Info): Cache {
    if c.first.seqNo == 0 && c.latest.seqNo == snapshot.seqNo then c.(first := oldest) else c
  }

  /** The second locked section of getLatestLedgerSequence. */
  function CacheAfterRaise(c: Cache, last: Info): Cache {
    if c.latest.seqNo < last.seqNo then c.(latest := last) else c
  }

  /** Every known cached end is the table's. */
  ghost predicate Agrees(c: Cache, t: Table) {
    && (c.latest.seqNo != 0 ==> t != map[] && c.latest == Latest(t))
    && (c.first.seqNo != 0 ==> t != map[] && c.first == Oldest(t))
  }

  /** An ascending commit: only ledgers above everything stored, and `ledgerSeq` the highest of them. */
  ghost predicate Ascending(t: Table, rows: Table, ledgerSeq: Ledger) {
    && ledgerSeq in rows
    && (forall r :: r in rows ==> r <= ledgerSeq)
    && (forall r, x :: r in rows && x in t ==> x < r)
  }

  /** A latest ledger read by a query, perhaps before the last commit; then the cache already has one. */
  ghost predicate MayRaise(c: Cache, t: Table, last: Info) {
    && t != map[] && 0 < last.seqNo <= MaxLedger(t)
    && (last.seqNo == MaxLedger(t) ==> last == Latest(t))
    && (last.seqNo < MaxLedger(t) ==> c.latest.seqNo != 0)
  }

  /** The cache fields, updated in place under the lock. */
  class DbCache {
    var latestLedgerSeq: nat
    var latestLedgerCloseTime: int
    var firstLedgerSeq: nat
    var firstLedgerCloseTime: int

    function View(): Cache
      reads this
    {
      Cache(Info(latestLedgerSeq, latestLedgerCloseTime), Info(firstLedgerSeq, firstLedgerCloseTime))
    }

    constructor ()
      ensures View() == EMPTY_CACHE
    {
      latestLedgerSeq, latestLedgerCloseTime := 0, 0;
      firstLedgerSeq, firstLedgerCloseTime := 0, 0;
    }

    method ResetCache()
      modifies this
      ensures View() == EMPTY_CACHE
    {
      latestLedgerSeq, latestLedgerCloseTime := 0, 0;
      firstLedgerSeq, firstLedgerCloseTime := 0, 0;
    }

    /** commitAndUpdateCache, after the SQL commit of ascending rows to the table t. */
    method UpdateAfterCommit(ledgerSeq: Ledger, ledgerCloseTime: int, historyRetentionWindow: nat,
                             ghost t: Table, ghost rows: Table)
      requires 1 <= historyRetentionWindow && Agrees(View(), t)
      requires Ascending(t, rows, ledgerSeq) && rows[ledgerSeq] == ledgerCloseTime
      modifies this
      ensures Agrees(View(), Committed(t, rows, ledgerSeq, historyRetentionWindow))
      ensures latestLedgerSeq == ledgerSeq
      ensures View() == CacheAfterCommit(old(View()), ledgerSeq, ledgerCloseTime, historyRetentionWindow)
    {
      AscendingCommitAgrees(View(), t, rows, ledgerSeq, historyRetentionWindow);
      if ledgerSeq > latestLedgerSeq {
        latestLedgerSeq := ledgerSeq;
        latestLedgerCloseTime := ledgerCloseTime;
      }
      if historyRetentionWindow != 0 && ledgerSeq + 1 > historyRetentionWindow {
        var cutoff := ledgerSeq + 1 - historyRetentionWindow;
        if firstLedgerSeq != 0 && firstLedgerSeq < cutoff {
          firstLedgerSeq := 0;
          firstLedgerCloseTime := 0;
        }
      }
    }

    /** The queried oldest is current if no commit came in between; only then it is kept. */
    method MemoizeOldest(latestLedgerSeqCache: Info, oldest: Info, ghost t: Table)
      requires Agrees(View(), t)
      requires latestLedgerSeq == latestLedgerSeqCache.seqNo ==> t != map[] && oldest == Oldest(t)
      modifies this
      ensures Agrees(View(), t) && View().latest == old(View()).latest
      ensures latestLedgerSeq == latestLedgerSeqCache.seqNo ==> firstLedgerSeq != 0
      ensures View() == CacheAfterMemoize(old(View()), latestLedgerSeqCache, oldest)
    {
      if firstLedgerSeq == 0 && latestLedgerSeq == latestLedgerSeqCache.seqNo {
        firstLedgerSeq := oldest.seqNo;
        firstLedgerCloseTime := oldest.closeTime;
      }
    }

    /** Adds a latest ledger that is missing, and never replaces a newer one. */
    method AddMissingLatest(last: Info, ghost t: Table)
      requires Agrees(View(), t) && MayRaise(View(), t, last)
      modifies this
      ensures Agrees(View(), t) && View().first == old(View()).first && latestLedgerSeq == MaxLedger(t)
      ensures View() == CacheAfterRaise(old(View()), last)
    {
      if latestLedgerSeq < last.seqNo {
        latestLedgerSeq := last.seqNo;
        latestLedgerCloseTime := last.closeTime;
      }
    }
  }

  /** The database with its cache, used by one thread; CacheProtocol interleaves many. */
  class LedgerDb {
    const window: nat
    const cache: DbCache
    var table: Table

    ghost predicate Valid()
      reads this, cache
    {
      1 <= window && Agrees(cache.View(), table)
    }

    constructor (window: nat, stored: Table)
      requires 1 <= window
      ensures Valid() && table == stored && this.window == window && fresh(cache)
    {
      this.window, table := window, stored;
      cache := new DbCache();
    }

    /** GetLedgerRange: the extremes of the table, whatever is cached; `None` is ErrEmptyDB. */
    method GetLedgerRange() returns (r: Option<Range>)
      requires Valid()
      modifies cache
      ensures Valid() && cache.View().latest == old(cache.View()).latest
      ensures r == if table == map[] then None else Some(Range(Oldest(table), Latest(table)))
      ensures old(cache.latestLedgerSeq) != 0 ==> cache.firstLedgerSeq != 0
    {
      var cached := cache.View();
      if cached.latest.seqNo != 0 && cached.first.seqNo != 0 {
        return Some(Range(cached.first, cached.latest));
      }
      if table == map[] {
        return None;
      }
      if cached.latest.seqNo != 0 {
        r := Some(Range(Oldest(table), cached.latest));
        cache.MemoizeOldest(cached.latest, Oldest(table), table);
      } else {
        r := Some(Range(Oldest(table), Latest(table)));
      }
    }

    method GetLatestLedgerSequence() returns (r: Option<nat>)
      requires Valid()
      modifies cache
      ensures Valid()
      ensures r == if table == map[] then None else Some(MaxLedger(table))
      ensures table != map[] ==> cache.latestLedgerSeq == MaxLedger(table)
    {
      if cache.latestLedgerSeq != 0 {
        return Some(cache.latestLedgerSeq);
      }
      var range := GetLedgerRange();
      if range.None? {
        return None;
      }
      cache.AddMissingLatest(range.value.last, table);
      r := Some(range.value.last.seqNo);
    }

    /** writeTx.Commit of ledgers above everything stored. */
    method Commit(rows: Table, ledgerSeq: Ledger, fault: bool) returns (ok: bool)
      requires Valid() && Ascending(table, rows, ledgerSeq)
      modifies this, cache
      ensures Valid() && ok == !fault
      ensures table == if ok then Committed(old(table), rows, ledgerSeq, window) else old(table)
      ensures ok ==> cache.latestLedgerSeq == ledgerSeq
      ensures !ok ==> cache.View() == old(cache.View())
    {
      if fault {
        return false;
      }
      ghost var before := table;
      table := Committed(table, rows, ledgerSeq, window);
      cache.UpdateAfterCommit(ledgerSeq, rows[ledgerSeq], window, before, rows);
      ok := true;
    }
  }

  /** The trim of the table is the trim of its set of ledgers. */
  lemma TrimIsTrimmed(t: Table, ledgerSeq: Ledger, window: nat)
    ensures Trim(t, ledgerSeq, window).Keys == Trimmed(t.Keys, ledgerSeq, window)
  {
  }

  lemma TrimKeeps(t: Table, ledgerSeq: Ledger, window: nat)
    requires ledgerSeq in t && 1 <= window && forall x :: x in t ==> x <= ledgerSeq
    ensures Trim(t, ledgerSeq, window) != map[]
    ensures Latest(Trim(t, ledgerSeq, window)) == Info(ledgerSeq, t[ledgerSeq])
    ensures forall x :: x in Trim(t, ledgerSeq, window) <==> x in t && x >= Cutoff(ledgerSeq, window)
  {
    var u := Trim(t, ledgerSeq, window);
    assert ledgerSeq in u;
    assert MaxLedger(u) == ledgerSeq;
  }

  lemma AscendingCommitShape(t: Table, rows: Table, ledgerSeq: Ledger, window: nat)
    requires 1 <= window && Ascending(t, rows, ledgerSeq)
    ensures var u := Committed(t, rows, ledgerSeq, window);
            && u != map[] && Latest(u) == Info(ledgerSeq, rows[ledgerSeq])
            && (t != map[] ==> MaxLedger(t) < ledgerSeq)
            && (t != map[] && MinLedger(t) >= Cutoff(ledgerSeq, window) ==> Oldest(u) == Oldest(t))
  {
    var u := Committed(t, rows, ledgerSeq, window);
    TrimKeeps(t + rows, ledgerSeq, window);
    if t != map[] && MinLedger(t) >= Cutoff(ledgerSeq, window) {
      var lo := MinLedger(t);
      assert lo in u && lo < ledgerSeq;
      assert forall x :: x in u ==> lo <= x;
      assert lo !in rows;
      assert u[lo] == t[lo];
    }
  }

  /** Commit and cache update together keep the cache right. */
  lemma AscendingCommitAgrees(c: Cache, t: Table, rows: Table, ledgerSeq: Ledger, window: nat)
    requires 1 <= window && Agrees(c, t) && Ascending(t, rows, ledgerSeq)
    ensures Agrees(CacheAfterCommit(c, ledgerSeq, rows[ledgerSeq], window), Committed(t, rows, ledgerSeq, window))
  {
    AscendingCommitShape(t, rows, ledgerSeq, window);
  }

  /**
   * Commits in any order, a backward backfill included. Afterwards the cache is right exactly when
   * the latest ledger was known (or the commit is above everything stored), and no committed row
   * that survives the trim is older than a memoized oldest ledger.
   */
  lemma CommitAgreesIff(c: Cache, t: Table, rows: Table, ledgerSeq: Ledger, window: nat)
    requires 1 <= window && Agrees(c, t)
    requires ledgerSeq in rows && (forall r :: r in rows ==> r <= ledgerSeq) && rows.Keys !! t.Keys
    ensures Agrees(CacheAfterCommit(c, ledgerSeq, rows[ledgerSeq], window), Committed(t, rows, ledgerSeq, window))
       <==> && (c.latest.seqNo != 0 || forall x :: x in t ==> x < ledgerSeq)
            && (c.first.seqNo == 0 || !exists r :: r in rows && Cutoff(ledgerSeq, window) <= r < c.first.seqNo)
  {
    var u := Committed(t, rows, ledgerSeq, window);
    var all := t + rows;
    var cut := Cutoff(ledgerSeq, window);
    assert forall x :: x in u <==> x in all && x >= cut;
    var hi := if t == map[] then ledgerSeq else Max(ledgerSeq, MaxLedger(t));
    assert hi in u && forall x :: x in u ==> x <= hi;
    assert MaxLedger(u) == hi;
    if c.first.seqNo >= cut && c.first.seqNo != 0 {
      var lo := MinLedger(t);
      assert lo in u;
      if forall r :: r in rows && cut <= r ==> lo <= r {
        assert MinLedger(u) == lo;
      } else {
        var r :| r in rows && cut <= r && r < lo;
        assert r in u;
      }
    }
  }

  /** A backward chunk below a memoized oldest ledger leaves that ledger cached although older rows are stored. */
  lemma BackwardCommitLeavesStaleOldest()
    ensures var c := Cache(Info(200, 0), Info(100, 0));
            var t := map[100 := 0, 200 := 0];
            var rows := map[98 := 0, 99 := 0];
            && Agrees(c, t)
            && CacheAfterCommit(c, 99, 0, 1000) == c
            && Oldest(Committed(t, rows, 99, 1000)).seqNo == 98
  {
    var t: Table := map[100 := 0, 200 := 0];
    var rows: Table := map[98 := 0, 99 := 0];
    assert 100 in t && 200 in t && 98 in rows;
    assert MinLedger(t) == 100 && MaxLedger(t) == 200;
    assert 98 in t + rows && MinLedger(t + rows) == 98;
  }

  /** A backward chunk committed to a cold cache becomes the cached latest, below the ledgers above it. */
  lemma BackwardCommitIntoColdCacheLowersLatest()
    ensures var t := map[100 := 0, 200 := 0];
            var rows := map[98 := 0, 99 := 0];
            && Agrees(EMPTY_CACHE, t)
            && CacheAfterCommit(EMPTY_CACHE, 99, 0, 1000).latest.seqNo == 99
            && 200 in Committed(t, rows, 99, 1000) && Latest(Committed(t, rows, 99, 1000)).seqNo == 200
  {
    var t: Table := map[100 := 0, 200 := 0];
    var rows: Table := map[98 := 0, 99 := 0];
    assert 200 in t + rows && MaxLedger(t + rows) == 200;
  }

  /**
   * Why the lemmas above ask for a window of at least one ledger, which the configuration validates: with a
   * window of 0 the trim would delete the ledger just committed, while the cache would report it.
   */
  lemma ZeroWindowLosesEverything(c: Cache, t: Table, rows: Table, ledgerSeq: Ledger)
    requires Agrees(c, t) && Ascending(t, rows, ledgerSeq)
    ensures Committed(t, rows, ledgerSeq, 0) == map[]
    ensures !Agrees(CacheAfterCommit(c, ledgerSeq, rows[ledgerSeq], 0), Committed(t, rows, ledgerSeq, 0))
  {
    var u := Committed(t, rows, ledgerSeq, 0);
    assert forall x :: x in u ==> x >= ledgerSeq + 1 && (x in t || x in rows);
    assert forall x :: x in t || x in rows ==> x <= ledgerSeq;
    assert u.Keys == {};
  }
}
