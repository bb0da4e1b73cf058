/**
 * The schema while a fresh database is bulk-loaded, with crashes
 * (PrepareBulkLoad and FinalizeBulkLoad in cmd/stellar-rpc/internal/db/db.go, the startup order of
 * MustNew in cmd/stellar-rpc/internal/daemon/daemon.go).
 */
module BulkLoad {
  import opened Cursors
  import opened Ledgers
  import opened LedgerSets
  import opened Wrappers

  datatype Index = Index(name: string, table: string, unique: bool)

  const TRANSACTIONS := "transactions"
  const EVENTS := "events"

  const HASH_INDEX := Index("idx_transactions_hash", TRANSACTIONS, true)
  const CONTRACT_INDEX := Index("idx_id_contract_id", EVENTS, false)
  const TOPIC_INDEX := Index("idx_id_topic1", EVENTS, false)
  const LEDGER_INDEX := Index("index_ledger_sequence", TRANSACTIONS, false)

  const DEFERRED: seq<Index> := [HASH_INDEX, CONTRACT_INDEX, TOPIC_INDEX]

  datatype TxRow = TxRow(hash: Hash, ledger: LedgerNo)

  /** The transactions table; the migrations give it a primary key, a bulk load does not. */
  datatype TxTable = TxTable(primaryKey: bool, rows: seq<TxRow>)

  /** `record` is the list of indexes still to be built, kept in the metadata table. */
  datatype Schema = Schema(
    indexes: map<string, Index>, transactions: Option<TxTable>, record: Option<seq<Index>>, ledgers: set<LedgerNo>)

  // ---------- statements ----------

  datatype Stmt =
    | DropIndex(name: string)            // DROP INDEX IF EXISTS
    | DropTransactions                   // DROP TABLE IF EXISTS transactions: its indexes go with it
    | CreateBulkTransactions
    | CreateIndex(index: Index)
    | ReplaceRecord(pending: seq<Index>)
    | DeleteRecord

  predicate Distinct(rows: seq<TxRow>) {
    forall p, q :: 0 <= p < q < |rows| ==> rows[p].hash != rows[q].hash
  }

  /** None is an SQL error. */
  function Exec(s: Schema, stmt: Stmt): Option<Schema> {
    match stmt
    case DropIndex(name) => Some(s.(indexes := s.indexes - {name}))
    case DropTransactions =>
      Some(s.(transactions := None,
              indexes := map n | n in s.indexes && s.indexes[n].table != TRANSACTIONS :: s.indexes[n]))
    case CreateBulkTransactions =>
      if s.transactions.Some? then None else Some(s.(transactions := Some(TxTable(false, []))))
    case CreateIndex(index) =>
      if index.name in s.indexes || (index.table == TRANSACTIONS && s.transactions.None?) then None
      else if index.unique && index.table == TRANSACTIONS && !Distinct(s.transactions.value.rows) then None
      else Some(s.(indexes := s.indexes[index.name := index]))
    case ReplaceRecord(pending) => Some(s.(record := Some(pending)))
    case DeleteRecord => Some(s.(record := None))
  }

  function ExecAll(s: Schema, stmts: seq<Stmt>): Option<Schema> {
    if stmts == [] then Some(s)
    else
      match ExecAll(s, stmts[..|stmts| - 1])
      case None => None
      case Some(t) => Exec(t, stmts[|stmts| - 1])
  }

  // ---------- what holds in every life of the database ----------

  /** Something rejects a second row with the same hash. */
  predicate Enforced(s: Schema) {
    s.transactions.Some? && (s.transactions.value.primaryKey || HASH_INDEX.name in s.indexes)
  }

  predicate Known(indexes: map<string, Index>) {
    forall n :: n in indexes ==> indexes[n].name == n && (indexes[n] in DEFERRED || indexes[n] == LEDGER_INDEX)
  }

  /**
   * The invariant. A deferred index that is missing from a bulk-loaded database is in the record, and
   * the record never lists less than everything that was deferred.
   */
  ghost predicate Sound(s: Schema) {
    && s.transactions.Some? && Known(s.indexes) && LEDGER_INDEX.name in s.indexes
    && (Enforced(s) ==> Distinct(s.transactions.value.rows))
    && (forall row :: row in s.transactions.value.rows ==> row.ledger in s.ledgers)
    && (s.record.Some? ==> s.record.value == DEFERRED && !s.transactions.value.primaryKey)
    && (s.transactions.value.primaryKey ==> CONTRACT_INDEX.name in s.indexes && TOPIC_INDEX.name in s.indexes)
    && (!s.transactions.value.primaryKey ==>
          forall i :: i in DEFERRED && i.name !in s.indexes ==> s.record.Some? && i in s.record.value)
  }

  /** The canonical schema: nothing pending, both event indexes, and transaction hashes kept unique. */
  ghost predicate Restored(s: Schema) {
    && s.record.None? && Enforced(s) && Distinct(s.transactions.value.rows)
    && LEDGER_INDEX.name in s.indexes && CONTRACT_INDEX.name in s.indexes && TOPIC_INDEX.name in s.indexes
  }

  /** No record means that nothing is missing. */
  lemma NoRecordMeansRestored(s: Schema)
    requires Sound(s) && s.record.None?
    ensures Restored(s)
  {
    assert HASH_INDEX in DEFERRED && CONTRACT_INDEX in DEFERRED && TOPIC_INDEX in DEFERRED;
  }

  /** The schema of the migrations. */
  function Migrated(): Schema {
    Schema(map[LEDGER_INDEX.name := LEDGER_INDEX, CONTRACT_INDEX.name := CONTRACT_INDEX,
               TOPIC_INDEX.name := TOPIC_INDEX], Some(TxTable(true, [])), None, {})
  }

  lemma MigratedIsSound()
    ensures Sound(Migrated()) && Restored(Migrated())
  {
    assert TOPIC_INDEX in DEFERRED && CONTRACT_INDEX in DEFERRED;
  }

  // ---------- prepare ----------

  /** An empty bulk table with its one index; everything else deferred and recorded. */
  function Prepared(s: Schema): Schema {
    Schema(map[LEDGER_INDEX.name := LEDGER_INDEX], Some(TxTable(false, [])), Some(DEFERRED), s.ledgers)
  }

  function PrepareStmts(): seq<Stmt> {
    [DropIndex(HASH_INDEX.name), DropIndex(CONTRACT_INDEX.name), DropIndex(TOPIC_INDEX.name),
     DropTransactions, CreateBulkTransactions, CreateIndex(LEDGER_INDEX)]
  }

  lemma ExecOneMore(s: Schema, stmts: seq<Stmt>, n: nat)
    requires n < |stmts| && ExecAll(s, stmts[..n]).Some?
    ensures ExecAll(s, stmts[..n + 1]) == Exec(ExecAll(s, stmts[..n]).value, stmts[n])
  {
    assert stmts[..n + 1][..n] == stmts[..n];
  }

  /** Dropping the deferred indexes and the transactions table leaves no index behind. */
  lemma DropsLeaveNothing(s: Schema)
    requires Known(s.indexes)
    ensures ExecAll(s, PrepareStmts()[..4]) == Some(s.(indexes := map[], transactions := None))
  {
    hide Exec;
    var stmts := PrepareStmts();
    var a := s.(indexes := s.indexes - {HASH_INDEX.name});
    var b := s.(indexes := s.indexes - {HASH_INDEX.name} - {CONTRACT_INDEX.name});
    var c := s.(indexes := s.indexes - {HASH_INDEX.name} - {CONTRACT_INDEX.name} - {TOPIC_INDEX.name});
    assert ExecAll(s, stmts[..0]) == Some(s);
    ExecOneMore(s, stmts, 0);
    DropOne(s, HASH_INDEX.name);
    ExecOneMore(s, stmts, 1);
    DropOne(a, CONTRACT_INDEX.name);
    ExecOneMore(s, stmts, 2);
    DropOne(b, TOPIC_INDEX.name);
    ExecOneMore(s, stmts, 3);
    DropTable(c);
  }

  lemma DropOne(s: Schema, name: string)
    ensures Exec(s, DropIndex(name)) == Some(s.(indexes := s.indexes - {name}))
  {
  }

  lemma DropTable(s: Schema)
    requires Known(s.indexes)
    requires HASH_INDEX.name !in s.indexes && CONTRACT_INDEX.name !in s.indexes && TOPIC_INDEX.name !in s.indexes
    ensures Exec(s, DropTransactions) == Some(s.(indexes := map[], transactions := None))
  {
  }

  lemma PrepareStmtsPrepare(s: Schema)
    requires Known(s.indexes)
    ensures var t := ExecAll(s, PrepareStmts());
            t.Some? && Exec(t.value, ReplaceRecord(DEFERRED)) == Some(Prepared(s))
  {
    var stmts := PrepareStmts();
    DropsLeaveNothing(s);
    ExecOneMore(s, stmts, 4);
    ExecOneMore(s, stmts, 5);
    assert stmts[..6] == stmts;
  }

  /** Preparing twice is preparing once, and a prepared empty database is sound. */
  lemma PrepareIsIdempotent(s: Schema)
    ensures Prepared(Prepared(s)) == Prepared(s)
    ensures Sound(Prepared(s))
  {
  }

  // ---------- loading ----------

  /** One commit of the load: a ledger, its transaction hashes, and the first ledger that is kept. */
  datatype Commit = Commit(ledger: LedgerNo, hashes: seq<Hash>, keepFrom: LedgerNo)

  function NewRows(c: Commit): (rows: seq<TxRow>)
    ensures |rows| == |c.hashes|
    ensures forall i :: 0 <= i < |rows| ==> rows[i].hash == c.hashes[i] && rows[i].ledger == c.ledger
  {
    seq(|c.hashes|, i requires 0 <= i < |c.hashes| => TxRow(c.hashes[i], c.ledger))
  }

  function Trim(rows: seq<TxRow>, keepFrom: LedgerNo): (kept: seq<TxRow>)
    ensures forall r :: r in kept <==> r in rows && r.ledger >= keepFrom
    ensures Distinct(rows) ==> Distinct(kept)
  {
    if rows == [] then []
    else
      var kept := Trim(rows[1..], keepFrom);
      assert forall r :: r in kept ==> r in rows[1..];
      assert forall p :: 0 <= p < |kept| ==> kept[p] in kept;
      if rows[0].ledger >= keepFrom then [rows[0]] + kept else kept
  }

  /** With the retention cutoff the rows kept are those of the ledgers that the trim keeps. */
  lemma TrimIsRetention(rows: seq<TxRow>, ledgers: set<LedgerNo>, last: LedgerNo, window: nat)
    requires 1 <= window <= last + 1 && forall r :: r in rows ==> r.ledger in ledgers
    ensures forall r :: r in Trim(rows, last + 1 - window) <==> r in rows && r.ledger in Trimmed(ledgers, last, window)
  {
  }

  function RowsAfter(rows: seq<TxRow>, c: Commit): seq<TxRow> {
    Trim(rows + NewRows(c), c.keepFrom)
  }

  function RowsAfterAll(rows: seq<TxRow>, commits: seq<Commit>): seq<TxRow> {
    if commits == [] then rows
    else RowsAfter(RowsAfterAll(rows, commits[..|commits| - 1]), commits[|commits| - 1])
  }

  function LedgersAfter(ledgers: set<LedgerNo>, c: Commit): set<LedgerNo> {
    set s | s in ledgers + {c.ledger} && s >= c.keepFrom
  }

  function LedgersAfterAll(ledgers: set<LedgerNo>, commits: seq<Commit>): set<LedgerNo> {
    if commits == [] then ledgers
    else LedgersAfter(LedgersAfterAll(ledgers, commits[..|commits| - 1]), commits[|commits| - 1])
  }

  /** A trim loses no row of a ledger that is kept, and doubles none. */
  lemma {:induction false} TrimKeepsRows(rows: seq<TxRow>, keepFrom: LedgerNo, r: TxRow)
    ensures multiset(Trim(rows, keepFrom))[r] == if r.ledger >= keepFrom then multiset(rows)[r] else 0
  {
    if rows != [] {
      TrimKeepsRows(rows[1..], keepFrom, r);
      assert rows == [rows[0]] + rows[1..];
    }
  }

  /** What the database refuses to commit: a stored ledger, or a hash twice while something keeps them unique. */
  predicate Rejected(s: Schema, c: Commit) {
    || c.ledger in s.ledgers
    || (Enforced(s) && !Distinct(s.transactions.value.rows + NewRows(c)))
  }

  lemma {:induction false} AfterConcat(rows: seq<TxRow>, ledgers: set<LedgerNo>, a: seq<Commit>, b: seq<Commit>)
    ensures RowsAfterAll(rows, a + b) == RowsAfterAll(RowsAfterAll(rows, a), b)
    ensures LedgersAfterAll(ledgers, a + b) == LedgersAfterAll(LedgersAfterAll(ledgers, a), b)
    decreases |b|
  {
    hide RowsAfter, LedgersAfter;
    if b == [] {
      assert a + b == a;
    } else {
      AfterConcat(rows, ledgers, a, b[..|b| - 1]);
      assert (a + b)[..|a + b| - 1] == a + b[..|b| - 1];
    }
  }

  /** The transactions table is that of the migrations, not that of a bulk load. */
  predicate HasKey(s: Schema) {
    s.transactions.Some? && s.transactions.value.primaryKey
  }

  function RowsOf(s: Schema): seq<TxRow> {
    if s.transactions.Some? then s.transactions.value.rows else []
  }

  // ---------- the database ----------

  /** A start of the daemon: whether it backfills, and what the two backfills commit. */
  datatype Life = Life(backfill: bool, load: seq<Commit>, topUp: seq<Commit>)

  /** One start: what it found and left, between which steps, whether it got to the end, and how many commits. */
  datatype Attempt = Attempt(
    life: Life, found: Schema, began: nat, left: Schema, ended: nat, ok: bool, done: nat)

  /** Each start finds what the one before it left. */
  ghost predicate InTurn(attempts: seq<Attempt>, s0: Schema, t0: nat, s: Schema, t: nat) {
    && (if attempts == [] then s == s0 && t == t0
        else
          && attempts[0].found == s0 && attempts[0].began == t0
          && attempts[|attempts| - 1].left == s && attempts[|attempts| - 1].ended == t)
    && forall i :: 0 < i < |attempts| ==>
         attempts[i].found == attempts[i - 1].left && attempts[i].began == attempts[i - 1].ended
  }

  lemma NoStarts(s: Schema, t: nat)
    ensures InTurn([], s, t, s, t)
  {
  }

  lemma OneMoreStart(attempts: seq<Attempt>, a: Attempt, s0: Schema, t0: nat, s: Schema, t: nat)
    requires InTurn(attempts, s0, t0, s, t) && a.found == s && a.began == t
    ensures InTurn(attempts + [a], s0, t0, a.left, a.ended)
  {
  }

  class BulkDb {
    const faultAt: nat -> bool   // does the i-th step fail, by an error or by a crash?
    var clock: nat
    var schema: Schema

    ghost predicate Valid()
      reads this
    {
      Sound(schema)
    }

    function Rows(): seq<TxRow>
      reads this
    {
      RowsOf(schema)
    }

    ghost predicate FaultIn(from: nat, to: nat) {
      exists i :: from <= i < to && faultAt(i)
    }

    constructor (faultAt: nat -> bool)
      ensures Valid() && schema == Migrated() && clock == 0 && this.faultAt == faultAt
    {
      this.faultAt, clock, schema := faultAt, 0, Migrated();
      new;
      MigratedIsSound();
    }

    method Step() returns (ok: bool)
      modifies this`clock
      ensures clock == old(clock) + 1 && ok == !faultAt(old(clock))
    {
      ok := !faultAt(clock);
      clock := clock + 1;
    }

    /** PrepareBulkLoad: one transaction, so it happens entirely or not at all. */
    method Prepare() returns (ok: bool)
      requires Valid()
      modifies this
      ensures Valid() && old(clock) < clock
      ensures schema == if ok then Prepared(old(schema)) else old(schema)
      // BEGIN, six statements, the record, COMMIT
      ensures (ok ==> clock == old(clock) + 9) && (ok <==> !FaultIn(old(clock), clock))
    {
      hide Exec, Sound, Prepared;
      var work := schema;
      ok := Step(); // BEGIN
      if !ok {
        return;
      }
      var stmts: seq<Stmt> := [];
      for i := 0 to |DEFERRED|
        invariant stmts == PrepareStmts()[..i] && schema == old(schema)
      {
        stmts := stmts + [DropIndex(DEFERRED[i].name)];
      }
      stmts := stmts + [DropTransactions, CreateBulkTransactions, CreateIndex(LEDGER_INDEX)];
      KnownIndexes(schema);
      PrepareStmtsPrepare(schema);
      assert stmts == PrepareStmts();
      assert ExecAll(schema, stmts[..0]) == Some(schema);
      for i := 0 to |stmts|
        invariant schema == old(schema) && clock == old(clock) + 1 + i && !FaultIn(old(clock), clock)
        invariant ExecAll(schema, stmts[..i]) == Some(work)
      {
        ExecOneMore(schema, stmts, i);
        PrefixSucceeds(schema, stmts, i + 1);
        ok := Step();
        if !ok {
          return;
        }
        work := Exec(work, stmts[i]).value;
      }
      assert stmts[..|stmts|] == stmts;
      ok := Step();
      if !ok {
        return;
      }
      work := Exec(work, ReplaceRecord(DEFERRED)).value;
      ok := Step(); // COMMIT
      if !ok {
        return;
      }
      PrepareIsIdempotent(schema);
      schema := work;
    }

    /**
     * FinalizeBulkLoad: index by index, each kept when a later one fails. It succeeds only with every
     * recorded index in place and the record cleared; without a record it changes nothing.
     */
    method Finalize() returns (ok: bool)
      requires Valid()
      modifies this
      ensures Valid() && old(clock) <= clock
      ensures schema.transactions == old(schema).transactions && schema.ledgers == old(schema).ledgers
      ensures old(schema).indexes.Keys <= schema.indexes.Keys
      ensures ok ==> Restored(schema) && schema.record == None
      ensures ok && old(schema).record.None? ==> schema == old(schema)
      ensures !ok ==> schema.record == old(schema).record
      ensures !ok ==> FaultIn(old(clock), clock) || !Distinct(Rows())
      // reading the record, an index and its checkpoint each, clearing the record
      ensures ok ==> !FaultIn(old(clock), clock)
      ensures ok && old(schema).record.Some? ==>
                clock == old(clock) + 2 + 2 * (|schema.indexes| - |old(schema).indexes|)
    {
      hide Sound, Distinct, Restored;
      RecordIsDeferred(schema);
      ok := Step(); // reading the record
      if !ok {
        return;
      }
      if schema.record.None? {
        NoRecordMeansRestored(schema);
        return true;
      }
      ok := BuildPending(schema.record.value);
      if !ok {
        return;
      }
      ok := Step();
      if !ok {
        return;
      }
      schema := schema.(record := None);
      ClearedIsSound(schema);
      NoRecordMeansRestored(schema);
    }

    /** Builds what is missing of the record; on success nothing is. */
    method BuildPending(pending: seq<Index>) returns (ok: bool)
      requires Valid() && schema.record == Some(pending) && pending == DEFERRED
      modifies this
      ensures Valid() && old(clock) <= clock && schema == old(schema).(indexes := schema.indexes)
      ensures old(schema).indexes.Keys <= schema.indexes.Keys
      ensures ok ==> forall k :: 0 <= k < |DEFERRED| ==> DEFERRED[k].name in schema.indexes
      ensures !ok ==> FaultIn(old(clock), clock) || !Distinct(Rows())
      ensures ok ==> !FaultIn(old(clock), clock)
      ensures ok ==> clock == old(clock) + 2 * (|schema.indexes| - |old(schema).indexes|)
    {
      hide Sound, Distinct;
      for i := 0 to |pending|
        invariant Valid() && old(clock) <= clock && schema == old(schema).(indexes := schema.indexes)
        invariant !FaultIn(old(clock), clock)
        invariant clock == old(clock) + 2 * (|schema.indexes| - |old(schema).indexes|)
        invariant old(schema).indexes.Keys <= schema.indexes.Keys
        invariant forall k :: 0 <= k < i ==> DEFERRED[k].name in schema.indexes
      {
        if pending[i].name !in schema.indexes { // a name that exists is left over from a failed attempt
          ok := BuildIndex(pending[i]);
          if !ok {
            return;
          }
        }
      }
      ok := true;
    }

    /** CREATE INDEX and the checkpoint after it; a failed checkpoint leaves the index built. */
    method BuildIndex(index: Index) returns (ok: bool)
      requires Valid() && index in DEFERRED && index.name !in schema.indexes && schema.record == Some(DEFERRED)
      modifies this
      ensures Valid() && old(clock) < clock
      ensures schema == old(schema).(indexes := schema.indexes)
      ensures schema.indexes == old(schema).indexes || schema.indexes == old(schema).indexes[index.name := index]
      ensures ok ==> index.name in schema.indexes && clock == old(clock) + 2 && !FaultIn(old(clock), clock)
      ensures ok ==> |schema.indexes| == |old(schema).indexes| + 1
      ensures !ok ==> FaultIn(old(clock), clock) || !Distinct(Rows())
    {
      hide Sound, Distinct;
      IndexIsSound(schema, index);
      ok := Step();
      if !ok {
        return;
      }
      var built := Exec(schema, CreateIndex(index));
      if built.None? {
        return false;
      }
      schema := built.value;
      ok := Step();
    }

    /** The commits of a load, one after the other; a commit with a rejected row fails as a whole. */
    method Load(commits: seq<Commit>) returns (ok: bool, done: nat)
      requires Valid()
      modifies this
      ensures Valid() && old(clock) <= clock && done <= |commits|
      ensures schema.indexes == old(schema).indexes && schema.record == old(schema).record
      ensures HasKey(schema) == HasKey(old(schema))
      ensures Rows() == RowsAfterAll(old(Rows()), commits[..done])
      ensures schema.ledgers == LedgersAfterAll(old(schema).ledgers, commits[..done])
      ensures (ok <==> done == |commits|) && (ok ==> !FaultIn(old(clock), clock))
      ensures !ok ==> FaultIn(old(clock), clock) || Rejected(schema, commits[done])
    {
      hide Sound, RowsAfter, LedgersAfter, Rejected;
      done := 0;
      while done < |commits|
        invariant Valid() && old(clock) <= clock && done <= |commits|
        invariant schema.indexes == old(schema).indexes && schema.record == old(schema).record
        invariant HasKey(schema) == HasKey(old(schema)) && !FaultIn(old(clock), clock)
        invariant Rows() == RowsAfterAll(old(Rows()), commits[..done])
        invariant schema.ledgers == LedgersAfterAll(old(schema).ledgers, commits[..done])
      {
        ok := CommitLedger(commits[done]);
        if !ok {
          return;
        }
        assert commits[..done + 1][..done] == commits[..done];
        done := done + 1;
      }
      assert commits[..done] == commits;
      ok := true;
    }

    method CommitLedger(c: Commit) returns (ok: bool)
      requires Valid()
      modifies this
      ensures Valid() && clock == old(clock) + 1
      ensures ok <==> !faultAt(old(clock)) && !Rejected(old(schema), c)
      ensures schema.indexes == old(schema).indexes && schema.record == old(schema).record
      ensures HasKey(schema) == HasKey(old(schema))
      ensures ok ==> Rows() == RowsAfter(old(Rows()), c) && schema.ledgers == LedgersAfter(old(schema).ledgers, c)
      ensures !ok ==> schema == old(schema)
    {
      ok := Step();
      if !ok {
        return;
      }
      var table := schema.transactions.value;
      var rows := table.rows + NewRows(c);
      if c.ledger in schema.ledgers || (Enforced(schema) && !Distinct(rows)) {
        return false;
      }
      assert forall r :: r in NewRows(c) ==> r.ledger == c.ledger;
      schema := schema.(transactions := Some(table.(rows := Trim(rows, c.keepFrom))),
                        ledgers := set s | s in schema.ledgers + {c.ledger} && s >= c.keepFrom);
    }

    lemma NoFaultYet(t: nat)
      ensures !FaultIn(t, t)
    {
    }

    lemma FaultsJoin(a: nat, b: nat, c: nat)
      requires a <= b <= c
      ensures FaultIn(a, c) <==> FaultIn(a, b) || FaultIn(b, c)
    {
    }

    /** What is true of every start. */
    ghost predicate StartedUp(a: Attempt) {
      var commits := a.life.load + a.life.topUp;
      && a.began <= a.ended && a.done <= |commits| && (a.ok ==> Restored(a.left) && !FaultIn(a.began, a.ended))
      // no step but the load's own commits changes what is stored
      && RowsOf(a.left) == RowsAfterAll(RowsOf(a.found), commits[..a.done])
      && a.left.ledgers == LedgersAfterAll(a.found.ledgers, commits[..a.done])
      && (!a.life.backfill ==> a.done == 0) && (a.ok && a.life.backfill ==> a.done == |commits|)
      // an empty database is prepared before it is loaded, and no other
      && (if a.life.backfill && a.found.ledgers == {} then a.ok || a.done > 0 ==> !HasKey(a.left)
          else HasKey(a.left) == HasKey(a.found))
      // it stops at a failing step, at hashes that no index can keep unique, or at a rejected commit
      && (!a.ok ==>
            || FaultIn(a.began, a.ended) || !Distinct(RowsOf(a.left))
            || (a.done < |commits| && Rejected(a.left, commits[a.done])))
    }

    /**
     * MustNew: prepare on an empty database, backfill, finalize, backfill again. Whenever it gets to
     * the end the canonical schema is back, wherever earlier lives were interrupted.
     */
    method Startup(life: Life) returns (ok: bool, ghost a: Attempt)
      requires Valid()
      modifies this
      ensures Valid() && StartedUp(a) && a.life == life && a.ok == ok
      ensures a.found == old(schema) && a.began == old(clock) && a.left == schema && a.ended == clock
    {
      hide Sound, Restored, Prepared, RowsAfterAll, LedgersAfterAll, Rejected, Distinct, FaultIn;
      var load, topUp := life.load, life.topUp;
      ghost var found, began, commits := schema, clock, load + topUp;
      NothingCommitted(commits, schema);
      NoFaultYet(clock);
      a := Attempt(life, found, began, schema, clock, false, 0);
      ok := true;
      if life.backfill {
        if schema.ledgers == {} {
          NoLedgersNoRows(schema);
          ok := Prepare();
          PreparedIsEmpty(found);
          a := a.(left := schema, ended := clock);
          if !ok {
            return;
          }
        }
        var done;
        ghost var t := clock;
        ok, done := Load(load);
        FaultsJoin(began, t, clock);
        assert commits[..done] == load[..done];
        a := a.(left := schema, ended := clock, done := done);
        if !ok {
          assert commits[done] == load[done];
          return;
        }
        assert load[..done] == load;
      }
      ghost var t := clock;
      ok := Finalize();
      FaultsJoin(began, t, clock);
      a := a.(left := schema, ended := clock, ok := ok);
      if !ok || !life.backfill {
        return;
      }
      ghost var rows, ledgers := Rows(), schema.ledgers;
      var more;
      t := clock;
      ok, more := Load(topUp);
      FaultsJoin(began, t, clock);
      AfterConcat(RowsOf(found), found.ledgers, load, topUp[..more]);
      assert load[..|load|] == load && commits[..|load| + more] == load + topUp[..more];
      assert more < |topUp| ==> commits[|load| + more] == topUp[more];
      StaysRestored(schema);
      a := a.(left := schema, ended := clock, ok := ok, done := |load| + more);
    }

    /** Any number of lives, each ended by its end, an error or a crash. */
    method Lifetimes(lives: seq<Life>) returns (ghost attempts: seq<Attempt>)
      requires Valid()
      modifies this
      ensures Valid() && |attempts| == |lives|
      ensures forall i :: 0 <= i < |lives| ==> attempts[i].life == lives[i] && StartedUp(attempts[i])
      ensures InTurn(attempts, old(schema), old(clock), schema, clock)
    {
      hide StartedUp, InTurn, Sound;
      attempts := [];
      NoStarts(schema, clock);
      for n := 0 to |lives|
        invariant Valid() && |attempts| == n
        invariant forall i :: 0 <= i < n ==> attempts[i].life == lives[i] && StartedUp(attempts[i])
        invariant InTurn(attempts, old(schema), old(clock), schema, clock)
      {
        var ok;
        ghost var a;
        ghost var found, began := schema, clock;
        ok, a := Startup(lives[n]);
        OneMoreStart(attempts, a, old(schema), old(clock), found, began);
        attempts := attempts + [a];
      }
    }
  }

  lemma NothingCommitted(commits: seq<Commit>, s: Schema)
    ensures RowsAfterAll(RowsOf(s), commits[..0]) == RowsOf(s)
    ensures LedgersAfterAll(s.ledgers, commits[..0]) == s.ledgers
  {
  }

  lemma KnownIndexes(s: Schema)
    requires Sound(s)
    ensures Known(s.indexes)
  {
  }

  lemma {:induction false} PrefixSucceeds(s: Schema, stmts: seq<Stmt>, n: nat)
    requires n <= |stmts| && ExecAll(s, stmts).Some?
    ensures ExecAll(s, stmts[..n]).Some?
    decreases |stmts|
  {
    if n == |stmts| {
      assert stmts[..n] == stmts;
    } else {
      PrefixSucceeds(s, stmts[..|stmts| - 1], n);
      assert stmts[..|stmts| - 1][..n] == stmts[..n];
    }
  }

  /** A deferred index is built unless two rows have the same hash, and a new one keeps the invariant. */
  lemma IndexIsSound(s: Schema, index: Index)
    requires Sound(s) && index in DEFERRED && index.name !in s.indexes && s.record == Some(DEFERRED)
    ensures var built := Exec(s, CreateIndex(index));
            && (built.None? ==> !Distinct(RowsOf(s)))
            && (built.Some? ==> built.value == s.(indexes := s.indexes[index.name := index]) && Sound(built.value))
  {
  }

  lemma RecordIsDeferred(s: Schema)
    requires Sound(s)
    ensures s.record.Some? ==> s.record.value == DEFERRED
  {
  }

  lemma ClearedIsSound(s: Schema)
    requires Sound(s.(record := Some(DEFERRED))) && s.record.None?
    requires forall k :: 0 <= k < |DEFERRED| ==> DEFERRED[k].name in s.indexes
    ensures Sound(s)
  {
    forall i | i in DEFERRED
      ensures i.name in s.indexes
    {
      var k :| 0 <= k < |DEFERRED| && DEFERRED[k] == i;
    }
  }

  /** An empty ledger table means an empty transactions table: preparing drops no row. */
  lemma NoLedgersNoRows(s: Schema)
    requires Sound(s) && s.ledgers == {}
    ensures s.transactions.Some? && s.transactions.value.rows == []
  {
    if s.transactions.value.rows != [] {
      FirstRowHasLedger(s);
    }
  }

  lemma FirstRowHasLedger(s: Schema)
    requires Sound(s) && s.transactions.value.rows != []
    ensures s.transactions.value.rows[0].ledger in s.ledgers
  {
    assert s.transactions.value.rows[0] in s.transactions.value.rows;
  }

  lemma PreparedIsEmpty(s: Schema)
    ensures Prepared(s).transactions == Some(TxTable(false, [])) && Prepared(s).ledgers == s.ledgers
    ensures !HasKey(Prepared(s))
  {
  }

  /** A sound database without a record is canonical, also after further commits. */
  lemma StaysRestored(s: Schema)
    requires Sound(s)
    ensures s.record.None? ==> Restored(s)
  {
    if s.record.None? {
      NoRecordMeansRestored(s);
    }
  }
}
