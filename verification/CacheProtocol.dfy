/**
 * Readers and one writer on the ledger-range cache, interleaved step by step.
 *
 * A critical section under the cache lock is one step; a query outside the lock is a step of its
 * own. The writer's SQL commit and its cache update are two steps with the lock held in between,
 * so a query can see new rows before the cache knows of them.
 *
 * Sources: GetLedgerRange and NewTx (cmd/stellar-rpc/internal/db/ledger.go), getLatestLedgerSequence,
 * writeTx.Commit and ResetCache (cmd/stellar-rpc/internal/db/db.go) and the read order of
 * GetTransaction (cmd/stellar-rpc/internal/methods/get_transaction.go).
 */
module CacheProtocol {
  import opened RangeCache

  /** Why a thread asks for the ledger range. */
  datatype Purpose =
    | ForRange
    | ForLatest                           // inside getLatestLedgerSequence
    | ForTransaction(foundIn: Ledger)     // GetTransaction, after finding the transaction

  datatype Reader =
    | Idle
    | TxFound(foundIn: Ledger)            // the transaction row is read, the range is not
    | LatestUnknown                       // getLatestLedgerSequence saw no cached latest
    | NeedOldest(purpose: Purpose, latest: Info)
    | NeedBoth(purpose: Purpose)
    | HaveOldest(purpose: Purpose, latest: Info, oldest: Info)
    | HaveLast(last: Info)                // getLatestLedgerSequence, before the second locked section
    | InTx(snapshot: Table, latest: Info) // a read transaction of NewTx
    | Answered(purpose: Purpose, range: Range)
    | AnsweredLatest(last: Info)
    | AnsweredTx(snapshot: Table, range: Range)
    | Empty                               // ErrEmptyDB

  datatype Writer =
    | Resting
    | Locked(rows: Table, ledgerSeq: Ledger)
    | RowsVisible(ledgerSeq: Ledger, closeTime: int)

  datatype State = State(window: nat, table: Table, cache: Cache, writer: Writer, readers: seq<Reader>)

  datatype Step =
    | FindTransaction(i: nat, foundIn: Ledger)
    | AskLatest(i: nat)
    | AskRange(i: nat)          // the first locked section of GetLedgerRange
    | QueryOldest(i: nat)
    | QueryBoth(i: nat)
    | Memoize(i: nat)
    | RaiseLatest(i: nat)
    | BeginTx(i: nat)
    | QueryInTx(i: nat)
    | Forget(i: nat)
    | TakeLock(rows: Table, ledgerSeq: Ledger)
    | CommitFails
    | CommitRows
    | UpdateCache
    | Reset

  predicate LockFree(s: State) {
    s.writer == Resting
  }

  predicate AtRest(r: Reader) {
    r.Idle? || r.Answered? || r.AnsweredLatest? || r.AnsweredTx? || r.Empty?
  }

  predicate MayAskRange(r: Reader) {
    r.Idle? || r.TxFound? || r.LatestUnknown?
  }

  function PurposeOf(r: Reader): Purpose {
    if r.TxFound? then ForTransaction(r.foundIn) else if r.LatestUnknown? then ForLatest else ForRange
  }

  /** Somewhere in getLatestLedgerSequence, with a latest ledger that a commit has since overtaken. */
  predicate HoldsOldLatest(t: Table, r: Reader) {
    && t != map[]
    && match r
       case NeedOldest(ForLatest, latest) => latest.seqNo < MaxLedger(t)
       case HaveOldest(ForLatest, latest, _) => latest.seqNo < MaxLedger(t)
       case HaveLast(last) => last.seqNo < MaxLedger(t)
       case _ => false
  }

  ghost predicate Enabled(s: State, step: Step) {
    match step
    case TakeLock(rows, ledgerSeq) => LockFree(s) && Ascending(s.table, rows, ledgerSeq)
    case CommitFails => s.writer.Locked?
    case CommitRows => s.writer.Locked?
    case UpdateCache => s.writer.RowsVisible?
    case Reset => LockFree(s) && forall i :: 0 <= i < |s.readers| ==> !HoldsOldLatest(s.table, s.readers[i])
    case _ =>
      && step.i < |s.readers|
      && var r := s.readers[step.i];
         match step
         case FindTransaction(_, foundIn) => r.Idle? && foundIn in s.table
         case AskLatest(_) => r.Idle? && LockFree(s)
         case AskRange(_) => MayAskRange(r) && LockFree(s)
         case QueryOldest(_) => r.NeedOldest?
         case QueryBoth(_) => r.NeedBoth?
         case Memoize(_) => r.HaveOldest? && LockFree(s)
         case RaiseLatest(_) => r.HaveLast? && LockFree(s)
         case BeginTx(_) => r.Idle? && LockFree(s)
         case QueryInTx(_) => r.InTx?
         case Forget(_) => AtRest(r)
         case _ => false
  }

  /** GetLedgerRange returns to whoever asked. */
  function Finish(purpose: Purpose, range: Range): Reader {
    if purpose.ForLatest? then HaveLast(range.last) else Answered(purpose, range)
  }

  /** The reader after its step; `cache` and `table` are the shared state it sees. */
  function ReaderAfter(r: Reader, step: Step, table: Table, cache: Cache): Reader {
    match step
    case FindTransaction(_, foundIn) => TxFound(foundIn)
    case AskLatest(_) => if cache.latest.seqNo != 0 then AnsweredLatest(cache.latest) else LatestUnknown
    case AskRange(_) =>
      if cache.latest.seqNo != 0 && cache.first.seqNo != 0
      then Finish(PurposeOf(r), Range(cache.first, cache.latest))
      else if cache.latest.seqNo != 0 then NeedOldest(PurposeOf(r), cache.latest)
      else NeedBoth(PurposeOf(r))
    case QueryOldest(_) =>
      if r.NeedOldest? && table != map[] then HaveOldest(r.purpose, r.latest, Oldest(table)) else Empty
    case QueryBoth(_) =>
      if r.NeedBoth? && table != map[] then Finish(r.purpose, Range(Oldest(table), Latest(table))) else Empty
    case Memoize(_) => if r.HaveOldest? then Finish(r.purpose, Range(r.oldest, r.latest)) else r
    case RaiseLatest(_) => if r.HaveLast? then AnsweredLatest(r.last) else r
    case BeginTx(_) => InTx(table, cache.latest)
    case QueryInTx(_) =>
      if r.InTx? && r.snapshot != map[]
      then AnsweredTx(r.snapshot, Range(Oldest(r.snapshot),
                                        if r.latest.seqNo != 0 then r.latest else Latest(r.snapshot)))
      else Empty
    case Forget(_) => Idle
    case _ => r
  }

  function CacheAfter(s: State, step: Step): Cache {
    match step
    case Memoize(i) =>
      if i < |s.readers| && s.readers[i].HaveOldest?
      then CacheAfterMemoize(s.cache, s.readers[i].latest, s.readers[i].oldest) else s.cache
    case RaiseLatest(i) =>
      if i < |s.readers| && s.readers[i].HaveLast? then CacheAfterRaise(s.cache, s.readers[i].last) else s.cache
    case UpdateCache =>
      if s.writer.RowsVisible?
      then CacheAfterCommit(s.cache, s.writer.ledgerSeq, s.writer.closeTime, s.window) else s.cache
    case Reset => EMPTY_CACHE
    case _ => s.cache
  }

  function Apply(s: State, step: Step): State {
    match step
    case TakeLock(rows, ledgerSeq) => s.(writer := Locked(rows, ledgerSeq))
    case CommitFails => s.(writer := Resting)
    case CommitRows =>
      if s.writer.Locked? && s.writer.ledgerSeq in s.writer.rows
      then s.(table := Committed(s.table, s.writer.rows, s.writer.ledgerSeq, s.window),
              writer := RowsVisible(s.writer.ledgerSeq, s.writer.rows[s.writer.ledgerSeq]))
      else s
    case UpdateCache => s.(cache := CacheAfter(s, step), writer := Resting)
    case Reset => s.(cache := EMPTY_CACHE)
    case _ =>
      if step.i < |s.readers|
      then s.(cache := CacheAfter(s, step),
              readers := s.readers[step.i := ReaderAfter(s.readers[step.i], step, s.table, s.cache)])
      else s
  }

  ghost predicate Legal(s: State, run: seq<Step>)
    decreases |run|
  {
    run == [] || (Enabled(s, run[0]) && Legal(Apply(s, run[0]), run[1..]))
  }

  function After(s: State, run: seq<Step>): State
    decreases |run|
  {
    if run == [] then s else After(Apply(s, run[0]), run[1..])
  }

  /** A freshly opened database: any table, an empty cache, no calls under way. */
  ghost predicate Start(s: State) {
    && 1 <= s.window && s.cache == EMPTY_CACHE && s.writer == Resting
    && forall i :: 0 <= i < |s.readers| ==> s.readers[i] == Idle
  }

  // ---------- the invariant ----------

  ghost predicate WriterOk(s: State) {
    match s.writer
    case Resting => Agrees(s.cache, s.table)
    case Locked(rows, ledgerSeq) => Agrees(s.cache, s.table) && Ascending(s.table, rows, ledgerSeq)
    case RowsVisible(ledgerSeq, closeTime) =>
      && s.table != map[] && Latest(s.table) == Info(ledgerSeq, closeTime)
      && s.cache.latest.seqNo < ledgerSeq
      && Agrees(CacheAfterCommit(s.cache, ledgerSeq, closeTime, s.window), s.table)
  }

  /** A transaction that was found is not newer than the latest ledger known to the reader. */
  predicate Covers(purpose: Purpose, latest: nat) {
    purpose.ForTransaction? ==> purpose.foundIn <= latest
  }

  /** A value that MAX has or once had. */
  ghost predicate WasLatest(t: Table, latest: Info) {
    t != map[] && 0 < latest.seqNo <= MaxLedger(t) && (latest.seqNo == MaxLedger(t) ==> latest == Latest(t))
  }

  /** The cache knows a latest ledger, or is about to learn one. */
  predicate KnowsLatest(s: State) {
    s.cache.latest.seqNo != 0 || s.writer.RowsVisible?
  }

  /** What a reader in flight relies on; of the cache only that it knows some latest ledger. */
  ghost predicate ReaderOk(s: State, r: Reader) {
    match r
    case TxFound(foundIn) => s.table != map[] && foundIn <= MaxLedger(s.table)
    case NeedOldest(purpose, latest) =>
      && WasLatest(s.table, latest) && Covers(purpose, latest.seqNo)
      && (HoldsOldLatest(s.table, r) ==> KnowsLatest(s))
    case NeedBoth(purpose) =>
      purpose.ForTransaction? ==> s.table != map[] && purpose.foundIn <= MaxLedger(s.table)
    case HaveOldest(purpose, latest, oldest) =>
      && WasLatest(s.table, latest) && Covers(purpose, latest.seqNo)
      // an unchanged latest proves that the queried oldest is current
      && (latest.seqNo == MaxLedger(s.table) ==> oldest == Oldest(s.table))
      && (HoldsOldLatest(s.table, r) ==> KnowsLatest(s))
    case HaveLast(last) => WasLatest(s.table, last) && (HoldsOldLatest(s.table, r) ==> KnowsLatest(s))
    case InTx(snapshot, latest) => latest.seqNo != 0 ==> snapshot != map[] && latest == Latest(snapshot)
    case Answered(purpose, range) => Covers(purpose, range.last.seqNo)
    case AnsweredTx(snapshot, range) =>
      snapshot != map[] && range == Range(Oldest(snapshot), Latest(snapshot))
    case _ => true
  }

  ghost predicate Invariant(s: State) {
    && 1 <= s.window
    && WriterOk(s)
    && forall i :: 0 <= i < |s.readers| ==> ReaderOk(s, s.readers[i])
  }

  // ---------- each step keeps it ----------

  lemma CommitKeepsReader(s: State, r: Reader)
    requires 1 <= s.window && WriterOk(s) && s.writer.Locked? && ReaderOk(s, r)
    ensures ReaderOk(Apply(s, CommitRows), r)
  {
    AscendingCommitShape(s.table, s.writer.rows, s.writer.ledgerSeq, s.window);
  }

  lemma UpdateKeepsReader(s: State, r: Reader)
    requires 1 <= s.window && WriterOk(s) && s.writer.RowsVisible? && ReaderOk(s, r)
    ensures ReaderOk(Apply(s, UpdateCache), r)
  {
  }

  lemma WriterStepKeepsInvariant(s: State, step: Step)
    requires Invariant(s) && Enabled(s, step)
    requires step.TakeLock? || step.CommitFails? || step.CommitRows? || step.UpdateCache? || step.Reset?
    ensures Invariant(Apply(s, step))
  {
    hide ReaderOk;
    var s' := Apply(s, step);
    if step.CommitRows? {
      AscendingCommitAgrees(s.cache, s.table, s.writer.rows, s.writer.ledgerSeq, s.window);
      AscendingCommitShape(s.table, s.writer.rows, s.writer.ledgerSeq, s.window);
    }
    forall i | 0 <= i < |s.readers|
      ensures ReaderOk(s', s'.readers[i])
    {
      if step.CommitRows? {
        CommitKeepsReader(s, s.readers[i]);
      } else if step.UpdateCache? {
        UpdateKeepsReader(s, s.readers[i]);
      } else {
        OtherStepKeepsReader(s, step, s.readers[i]);
      }
    }
  }

  lemma OtherStepKeepsReader(s: State, step: Step, r: Reader)
    requires Enabled(s, step) && ReaderOk(s, r) && (step.Reset? ==> !HoldsOldLatest(s.table, r))
    requires step.TakeLock? || step.CommitFails? || step.Reset?
    ensures ReaderOk(Apply(s, step), r)
  {
  }

  predicate IsReaderStep(step: Step) {
    !(step.TakeLock? || step.CommitFails? || step.CommitRows? || step.UpdateCache? || step.Reset?)
  }

  /** A reader's step leaves the shared state right and never lowers the cached latest. */
  lemma ReaderStepKeepsShared(s: State, step: Step)
    requires 1 <= s.window && WriterOk(s) && IsReaderStep(step) && Enabled(s, step)
    requires ReaderOk(s, s.readers[step.i])
    ensures WriterOk(Apply(s, step))
    ensures s.cache.latest.seqNo <= Apply(s, step).cache.latest.seqNo
    ensures Apply(s, step).cache.latest != s.cache.latest ==> s.cache.latest.seqNo == 0
  {
  }

  lemma ReaderStepKeepsItself(s: State, step: Step)
    requires 1 <= s.window && WriterOk(s) && IsReaderStep(step) && Enabled(s, step)
    requires ReaderOk(s, s.readers[step.i])
    ensures ReaderOk(Apply(s, step), Apply(s, step).readers[step.i])
  {
  }

  lemma ReaderStepKeepsOther(s: State, step: Step, r: Reader)
    requires 1 <= s.window && WriterOk(s) && IsReaderStep(step) && Enabled(s, step)
    requires ReaderOk(s, s.readers[step.i]) && ReaderOk(s, r)
    ensures ReaderOk(Apply(s, step), r)
  {
    ReaderStepKeepsShared(s, step);
  }

  lemma StepKeepsInvariant(s: State, step: Step)
    requires Invariant(s) && Enabled(s, step)
    ensures Invariant(Apply(s, step))
  {
    hide ReaderOk, WriterOk;
    if IsReaderStep(step) {
      ReaderStepKeepsShared(s, step);
      ReaderStepKeepsItself(s, step);
      var s' := Apply(s, step);
      forall i | 0 <= i < |s.readers|
        ensures ReaderOk(s', s'.readers[i])
      {
        ReaderStepKeepsOther(s, step, s.readers[i]);
      }
    } else {
      WriterStepKeepsInvariant(s, step);
    }
  }

  lemma {:induction false} RunKeepsInvariant(s: State, run: seq<Step>)
    requires Invariant(s) && Legal(s, run)
    ensures Invariant(After(s, run))
    decreases |run|
  {
    hide Invariant, Enabled, Apply;
    if run != [] {
      StepKeepsInvariant(s, run[0]);
      RunKeepsInvariant(Apply(s, run[0]), run[1..]);
    }
  }

  // ---------- results ----------

  /** In every interleaving, whenever the lock is free, each known cached end is the table's. */
  lemma CacheAgreesInEveryRun(s: State, run: seq<Step>)
    requires Start(s) && Legal(s, run)
    ensures LockFree(After(s, run)) ==> Agrees(After(s, run).cache, After(s, run).table)
  {
    RunKeepsInvariant(s, run);
  }

  /** GetTransaction never reports a latest ledger below the ledger of the transaction it returns. */
  lemma TransactionIsWithinReportedRange(s: State, run: seq<Step>, i: nat)
    requires Start(s) && Legal(s, run)
    requires i < |After(s, run).readers| && After(s, run).readers[i].Answered?
    requires After(s, run).readers[i].purpose.ForTransaction?
    ensures After(s, run).readers[i].purpose.foundIn <= After(s, run).readers[i].range.last.seqNo
  {
    RunKeepsInvariant(s, run);
    assert ReaderOk(After(s, run), After(s, run).readers[i]);
  }

  /** A read transaction reports exactly the extremes of the snapshot it reads from. */
  lemma ReadTxReportsItsSnapshot(s: State, run: seq<Step>, i: nat)
    requires Start(s) && Legal(s, run)
    requires i < |After(s, run).readers| && After(s, run).readers[i].AnsweredTx?
    ensures var r := After(s, run).readers[i];
            r.snapshot != map[] && r.range == Range(Oldest(r.snapshot), Latest(r.snapshot))
  {
    RunKeepsInvariant(s, run);
    assert ReaderOk(After(s, run), After(s, run).readers[i]);
  }

  /** An answer taken from the cache alone is the table's range at that moment. */
  lemma CachedAnswerIsCurrent(s: State, run: seq<Step>, i: nat)
    requires Start(s) && Legal(s, run) && Enabled(After(s, run), AskRange(i))
    requires After(s, run).readers[i].Idle?
    requires After(s, run).cache.latest.seqNo != 0 && After(s, run).cache.first.seqNo != 0
    ensures var t := After(s, run);
            t.table != map[]
            && Apply(t, AskRange(i)).readers[i] == Answered(ForRange, Range(Oldest(t.table), Latest(t.table)))
  {
    RunKeepsInvariant(s, run);
  }

  /** So is a latest ledger taken from the cache. */
  lemma CachedLatestIsCurrent(s: State, run: seq<Step>, i: nat)
    requires Start(s) && Legal(s, run) && Enabled(After(s, run), AskLatest(i))
    requires After(s, run).cache.latest.seqNo != 0
    ensures var t := After(s, run);
            t.table != map[] && Apply(t, AskLatest(i)).readers[i] == AnsweredLatest(Latest(t.table))
  {
    RunKeepsInvariant(s, run);
  }

  // ---------- what an answer is an answer of ----------

  /** The ledger table at every state of a run. */
  function TablesOf(s: State, run: seq<Step>): (ts: seq<Table>)
    ensures |ts| == |run| + 1 && ts[0] == s.table
    decreases |run|
  {
    [s.table] + if run == [] then [] else TablesOf(Apply(s, run[0]), run[1..])
  }

  ghost predicate WasOldestOf(ts: seq<Table>, oldest: Info) {
    exists k :: 0 <= k < |ts| && ts[k] != map[] && oldest == Oldest(ts[k])
  }

  ghost predicate WasLatestOf(ts: seq<Table>, latest: Info) {
    exists k :: 0 <= k < |ts| && ts[k] != map[] && latest == Latest(ts[k])
  }

  ghost predicate WasRangeOf(ts: seq<Table>, range: Range) {
    exists k :: 0 <= k < |ts| && ts[k] != map[] && range == Range(Oldest(ts[k]), Latest(ts[k]))
  }

  /**
   * What the tables since a reader asked say of it: what it was told comes from one of them, close times
   * included, and a latest ledger from the cache is that of the first.
   */
  ghost predicate Told(ts: seq<Table>, r: Reader)
    requires ts != []
  {
    match r
    case NeedOldest(_, latest) => ts[0] != map[] && latest == Latest(ts[0])
    case NeedBoth(_) => true
    case HaveOldest(_, latest, oldest) => ts[0] != map[] && latest == Latest(ts[0]) && WasOldestOf(ts, oldest)
    case Answered(_, range) =>
      WasRangeOf(ts, range) || (ts[0] != map[] && range.last == Latest(ts[0]) && WasOldestOf(ts, range.first))
    case HaveLast(last) => WasLatestOf(ts, last)
    case AnsweredLatest(last) => WasLatestOf(ts, last)
    case InTx(snapshot, _) => snapshot == ts[0]
    case AnsweredTx(snapshot, _) => snapshot == ts[0]
    case Empty => map[] in ts
    case _ => false
  }

  lemma ToldLater(ts: seq<Table>, t: Table, r: Reader)
    requires ts != [] && Told(ts, r)
    ensures Told(ts + [t], r)
  {
    assert forall k :: 0 <= k < |ts| ==> (ts + [t])[k] == ts[k];
  }

  lemma ToldNow(ts: seq<Table>, t: Table)
    ensures t != map[] ==> WasOldestOf(ts + [t], Oldest(t)) && WasLatestOf(ts + [t], Latest(t))
    ensures t != map[] ==> WasRangeOf(ts + [t], Range(Oldest(t), Latest(t)))
    ensures t == map[] ==> map[] in ts + [t]
  {
    assert (ts + [t])[|ts|] == t;
  }

  lemma AskedIsTold(s: State, step: Step)
    requires Invariant(s) && Enabled(s, step) && (step.AskRange? || step.BeginTx?)
    ensures Told([s.table], Apply(s, step).readers[step.i])
  {
    ToldNow([], s.table);
    assert [] + [s.table] == [s.table];
    assert Agrees(s.cache, s.table);
  }

  /** A step of the reader itself, which sees the last of the tables. */
  lemma OwnStepIsTold(s: State, step: Step, ts: seq<Table>)
    requires IsReaderStep(step) && !step.Forget? && Enabled(s, step)
    requires Told(ts + [s.table], s.readers[step.i])
    ensures Told(ts + [s.table], Apply(s, step).readers[step.i])
  {
    hide WasOldestOf, WasLatestOf, WasRangeOf;
    ToldNow(ts, s.table);
    LatestOfFirst(ts + [s.table]);
  }

  lemma LatestOfFirst(ts: seq<Table>)
    requires ts != []
    ensures ts[0] != map[] ==> WasLatestOf(ts, Latest(ts[0]))
  {
  }

  lemma StepIsTold(s: State, step: Step, ts: seq<Table>, i: nat)
    requires Enabled(s, step) && step != Forget(i) && i < |s.readers|
    requires Told(ts + [s.table], s.readers[i])
    ensures i < |Apply(s, step).readers| && Told(ts + [s.table] + [Apply(s, step).table], Apply(s, step).readers[i])
  {
    hide Told;
    if IsReaderStep(step) && step.i == i {
      OwnStepIsTold(s, step, ts);
    }
    ToldLater(ts + [s.table], Apply(s, step).table, Apply(s, step).readers[i]);
  }

  lemma {:induction false} RunIsTold(s: State, run: seq<Step>, ts: seq<Table>, i: nat)
    requires Legal(s, run) && i < |s.readers| && Told(ts + [s.table], s.readers[i])
    requires Forget(i) !in run
    ensures i < |After(s, run).readers| && Told(ts + TablesOf(s, run), After(s, run).readers[i])
    decreases |run|
  {
    hide Told, Enabled, Apply;
    if run == [] {
      assert TablesOf(s, run) == [s.table];
    } else {
      StepIsTold(s, run[0], ts, i);
      RunIsTold(Apply(s, run[0]), run[1..], ts + [s.table], i);
      assert ts + TablesOf(s, run) == ts + [s.table] + TablesOf(Apply(s, run[0]), run[1..]);
    }
  }

  /**
   * Any run, and in it a reader that asks for the range or begins a read transaction. The range it is told has
   * the ends of the table at one moment since, or, when the latest ledger was cached, the latest of the moment
   * of asking and the oldest of a moment since. A latest ledger is that of one moment since, a read
   * transaction sees the table as it was when it began, and "empty" is said only if the table was.
   */
  lemma AnswersAreOfTheTable(s: State, before: seq<Step>, step: Step, after: seq<Step>)
    requires Start(s) && Legal(s, before) && (step.AskRange? || step.BeginTx?) && Enabled(After(s, before), step)
    requires var asked := Apply(After(s, before), step); Legal(asked, after) && Forget(step.i) !in after
    ensures var asked := Apply(After(s, before), step);
            && step.i < |After(asked, after).readers|
            && Told(TablesOf(asked, after), After(asked, after).readers[step.i])
  {
    hide Told, Start, Enabled, Invariant, Legal;
    var now := After(s, before);
    StartIsInvariant(s);
    RunKeepsInvariant(s, before);
    AskedIsTold(now, step);
    ReaderStepFrame(now, step);
    assert [] + [now.table] == [now.table];
    RunIsTold(Apply(now, step), after, [], step.i);
    assert [] + TablesOf(Apply(now, step), after) == TablesOf(Apply(now, step), after);
  }

  lemma StartIsInvariant(s: State)
    requires Start(s)
    ensures Invariant(s)
  {
  }

  lemma ReaderStepFrame(s: State, step: Step)
    requires Enabled(s, step) && IsReaderStep(step)
    ensures Apply(s, step).table == s.table && step.i < |Apply(s, step).readers|
  {
  }

  /** If no commit became visible in between, both ends are those of the table. */
  lemma UndisturbedAnswerIsCurrent(ts: seq<Table>, r: Reader)
    requires ts != [] && Told(ts, r) && (forall k :: 0 <= k < |ts| ==> ts[k] == ts[0])
    ensures r.Answered? ==> ts[0] != map[] && r.range == Range(Oldest(ts[0]), Latest(ts[0]))
    ensures r.AnsweredLatest? ==> ts[0] != map[] && r.last == Latest(ts[0])
    ensures r.Empty? ==> ts[0] == map[]
  {
  }

  // ---------- an oldest ledger above the latest ----------

  /** The latest ledger of an earlier table, in a later one: it goes when a whole window was committed since. */
  ghost predicate OutlivedBy(t0: Table, t: Table, window: nat) {
    t0 != map[] ==>
      && t != map[] && MaxLedger(t0) <= MaxLedger(t)
      && (MaxLedger(t) < MaxLedger(t0) + window ==> MaxLedger(t0) in t)
      && (MaxLedger(t) >= MaxLedger(t0) + window ==> forall x :: x in t ==> MaxLedger(t0) < x)
  }

  lemma CommitOutlives(t0: Table, t: Table, rows: Table, ledgerSeq: Ledger, window: nat)
    requires OutlivedBy(t0, t, window) && 1 <= window && Ascending(t, rows, ledgerSeq)
    ensures OutlivedBy(t0, Committed(t, rows, ledgerSeq, window), window)
  {
    if t0 != map[] {
      AscendingCommitShape(t, rows, ledgerSeq, window);
      var u := Committed(t, rows, ledgerSeq, window);
      assert forall x :: x in u <==> (x in t || x in rows) && x >= Cutoff(ledgerSeq, window);
    }
  }

  lemma {:induction false} TablesOutlive(s: State, run: seq<Step>, t0: Table, k: nat)
    requires Invariant(s) && Legal(s, run) && OutlivedBy(t0, s.table, s.window) && k <= |run|
    ensures OutlivedBy(t0, TablesOf(s, run)[k], s.window)
    decreases |run|
  {
    hide Invariant, OutlivedBy, Enabled, Apply;
    if k > 0 {
      StepKeepsInvariant(s, run[0]);
      StepOutlives(s, run[0], t0);
      TablesOutlive(Apply(s, run[0]), run[1..], t0, k - 1);
    }
  }

  lemma StepOutlives(s: State, step: Step, t0: Table)
    requires Invariant(s) && Enabled(s, step) && OutlivedBy(t0, s.table, s.window)
    ensures Apply(s, step).window == s.window && OutlivedBy(t0, Apply(s, step).table, s.window)
  {
    hide OutlivedBy, ReaderOk;
    if step.CommitRows? {
      CommitOutlives(t0, s.table, s.writer.rows, s.writer.ledgerSeq, s.window);
    }
  }

  /** A range of the latest ledger at asking and the oldest of a moment a whole window of ledgers later. */
  ghost predicate TurnedAt(ts: seq<Table>, k: nat, range: Range, window: nat) {
    && k < |ts| && ts[0] != map[] && ts[k] != map[]
    && range == Range(Oldest(ts[k]), Latest(ts[0])) && MaxLedger(ts[k]) - MaxLedger(ts[0]) >= window
  }

  /**
   * The first ledger that a reader is told lies above the last one exactly when that one came from the cache and
   * a whole window of ledgers was committed before the query for the first.
   */
  lemma RangeIsTurnedIff(s: State, before: seq<Step>, step: Step, after: seq<Step>)
    requires Start(s) && Legal(s, before) && step.AskRange? && Enabled(After(s, before), step)
    requires var asked := Apply(After(s, before), step); Legal(asked, after) && Forget(step.i) !in after
    ensures var asked := Apply(After(s, before), step);
            && step.i < |After(asked, after).readers|
            && var r, ts := After(asked, after).readers[step.i], TablesOf(asked, after);
               r.Answered? ==>
                 (r.range.first.seqNo > r.range.last.seqNo <==> exists k :: TurnedAt(ts, k, r.range, s.window))
  {
    hide Start, Enabled, Invariant, Legal, OutlivedBy, Apply, After, Told, TurnedAt;
    AnswersAreOfTheTable(s, before, step, after);
    StartIsInvariant(s);
    RunKeepsInvariant(s, before);
    RunKeepsWindow(s, before);
    var now, asked := After(s, before), Apply(After(s, before), step);
    var ts := TablesOf(asked, after);
    ReaderStepFrame(now, step);
    forall k | 0 <= k < |ts| && now.table != map[]
      ensures OutlivedBy(now.table, ts[k], s.window)
    {
      OutlivedSince(now, step, after, k);
    }
    if After(asked, after).readers[step.i].Answered? {
      TurnedOrNot(ts, After(asked, after).readers[step.i], s.window);
    }
  }

  lemma TurnedOrNot(ts: seq<Table>, r: Reader, window: nat)
    requires ts != [] && r.Answered? && Told(ts, r)
    requires forall k :: 0 <= k < |ts| && ts[0] != map[] ==> OutlivedBy(ts[0], ts[k], window)
    ensures r.range.first.seqNo > r.range.last.seqNo <==> exists k :: TurnedAt(ts, k, r.range, window)
  {
    hide OutlivedBy;
    forall k | 0 <= k < |ts| && ts[0] != map[]
      ensures ts[k] != map[]
      ensures Oldest(ts[k]).seqNo > Latest(ts[0]).seqNo <==> MaxLedger(ts[k]) - MaxLedger(ts[0]) >= window
    {
      OutlivedMeans(ts[0], ts[k], window);
    }
    if r.range.first.seqNo > r.range.last.seqNo {
      assert !WasRangeOf(ts, r.range);
      var k :| 0 <= k < |ts| && ts[k] != map[] && r.range.first == Oldest(ts[k]);
      assert TurnedAt(ts, k, r.range, window);
    }
  }

  lemma OutlivedSince(s: State, step: Step, after: seq<Step>, k: nat)
    requires Invariant(s) && step.AskRange? && Enabled(s, step)
    requires Legal(Apply(s, step), after) && k <= |after| && s.table != map[]
    ensures OutlivedBy(s.table, TablesOf(Apply(s, step), after)[k], s.window)
  {
    hide Enabled, Invariant, Legal, OutlivedBy;
    StepKeepsInvariant(s, step);
    ReaderStepFrame(s, step);
    OutlivedByItself(s);
    TablesOutlive(Apply(s, step), after, s.table, k);
  }

  lemma OutlivedByItself(s: State)
    requires Invariant(s)
    ensures OutlivedBy(s.table, s.table, s.window)
  {
    hide ReaderOk, WriterOk;
  }

  lemma OutlivedMeans(t0: Table, t: Table, window: nat)
    requires OutlivedBy(t0, t, window) && t0 != map[]
    ensures t != map[] && (Oldest(t).seqNo > Latest(t0).seqNo <==> MaxLedger(t) - MaxLedger(t0) >= window)
  {
  }

  lemma {:induction false} RunKeepsWindow(s: State, run: seq<Step>)
    requires Legal(s, run)
    ensures After(s, run).window == s.window
    decreases |run|
  {
    if run != [] {
      RunKeepsWindow(Apply(s, run[0]), run[1..]);
    }
  }

  /** A queried oldest ledger is memoized if the latest has not changed since; then the whole range is cached. */
  lemma MemoizedIsCached(s: State, i: nat)
    requires Invariant(s) && Enabled(s, Memoize(i))
    requires s.cache.first.seqNo == 0 && s.cache.latest.seqNo == s.readers[i].latest.seqNo
    ensures var s' := Apply(s, Memoize(i));
            && s'.table != map[] && s'.cache == Cache(Latest(s'.table), Oldest(s'.table))
            && s'.cache.latest.seqNo != 0 && s'.cache.first.seqNo != 0
  {
    assert ReaderOk(s, s.readers[i]);
  }

  // ---------- nobody is stuck ----------

  /** The steps a reader has left until it is answered. */
  function StepsLeft(r: Reader): nat {
    match r
    case LatestUnknown => 5
    case TxFound(_) => 5
    case NeedOldest(_, _) => 4
    case NeedBoth(_) => 4
    case HaveOldest(_, _, _) => 3
    case HaveLast(_) => 2
    case InTx(_, _) => 1
    case _ => 0
  }

  /** While the lock is free every reader can go on, and one in the middle of a call comes nearer to its answer. */
  lemma ReaderGoesOn(s: State, i: nat) returns (step: Step)
    requires LockFree(s) && i < |s.readers|
    ensures Enabled(s, step) && IsReaderStep(step) && step.i == i && i < |Apply(s, step).readers|
    ensures StepsLeft(s.readers[i]) > 0 ==> StepsLeft(Apply(s, step).readers[i]) < StepsLeft(s.readers[i])
    ensures StepsLeft(s.readers[i]) == 0 <==> AtRest(s.readers[i])
  {
    match s.readers[i]
    case NeedOldest(_, _) => step := QueryOldest(i);
    case NeedBoth(_) => step := QueryBoth(i);
    case HaveOldest(_, _, _) => step := Memoize(i);
    case HaveLast(_) => step := RaiseLatest(i);
    case InTx(_, _) => step := QueryInTx(i);
    case LatestUnknown => step := AskRange(i);
    case TxFound(_) => step := AskRange(i);
    case Idle => step := AskRange(i);
    case _ => step := Forget(i);
  }

  /** A writer that holds the lock can always go on, and at most two steps later the lock is free. */
  lemma WriterGoesOn(s: State) returns (step: Step)
    requires Invariant(s) && !LockFree(s)
    ensures Enabled(s, step)
    ensures if s.writer.Locked? then Apply(s, step).writer.RowsVisible? else LockFree(Apply(s, step))
  {
    step := if s.writer.Locked? then CommitRows else UpdateCache;
  }

  // ---------- resetting the cache under readers ----------

  /** Every way to go on after a reset leads to a right cache whenever the lock is free. */
  ghost predicate ResetIsHarmless(s: State) {
    forall run :: Legal(Apply(s, Reset), run) && LockFree(After(Apply(s, Reset), run)) ==>
      Agrees(After(Apply(s, Reset), run).cache, After(Apply(s, Reset), run).table)
  }

  /**
   * In every reachable state with the lock free, a reset is harmless exactly when no reader inside
   * getLatestLedgerSequence holds a latest ledger that a commit has overtaken; readers in any other
   * position do not matter.
   */
  lemma ResetIsHarmlessIff(s: State)
    requires Invariant(s) && LockFree(s)
    ensures ResetIsHarmless(s) <==> forall i :: 0 <= i < |s.readers| ==> !HoldsOldLatest(s.table, s.readers[i])
  {
    hide Invariant, Legal, After, Agrees, HoldsOldLatest;
    if forall i :: 0 <= i < |s.readers| ==> !HoldsOldLatest(s.table, s.readers[i]) {
      StepKeepsInvariant(s, Reset);
      forall run | Legal(Apply(s, Reset), run) && LockFree(After(Apply(s, Reset), run))
        ensures Agrees(After(Apply(s, Reset), run).cache, After(Apply(s, Reset), run).table)
      {
        RunKeepsInvariant(Apply(s, Reset), run);
        InvariantAtRest(After(Apply(s, Reset), run));
      }
    } else {
      var i :| 0 <= i < |s.readers| && HoldsOldLatest(s.table, s.readers[i]);
      var run := OldLatestComesBack(s, i);
      assert Legal(Apply(s, Reset), run);
    }
  }

  lemma InvariantAtRest(s: State)
    requires Invariant(s) && LockFree(s)
    ensures Agrees(s.cache, s.table)
  {
  }

  /** The reader goes on alone and puts its old latest ledger into the empty cache. */
  lemma OldLatestComesBack(s: State, i: nat) returns (run: seq<Step>)
    requires Invariant(s) && LockFree(s) && i < |s.readers| && HoldsOldLatest(s.table, s.readers[i])
    ensures Legal(Apply(s, Reset), run)
    ensures LockFree(After(Apply(s, Reset), run))
    ensures !Agrees(After(Apply(s, Reset), run).cache, After(Apply(s, Reset), run).table)
  {
    var s0 := Apply(s, Reset);
    assert ReaderOk(s, s.readers[i]);
    match s.readers[i]
    case HaveLast(last) =>
      run := [RaiseLatest(i)];
      OneStep(s0, RaiseLatest(i));
    case HaveOldest(_, latest, _) =>
      run := ThenRaise(s0, i);
    case NeedOldest(_, latest) =>
      var s1 := Apply(s0, QueryOldest(i));
      var rest := ThenRaise(s1, i);
      run := [QueryOldest(i)] + rest;
      StepThen(s0, QueryOldest(i), rest);
  }

  lemma OneStep(s: State, step: Step)
    requires Enabled(s, step)
    ensures Legal(s, [step]) && After(s, [step]) == Apply(s, step)
  {
    hide Enabled, Apply;
    assert [step][1..] == [];
  }

  lemma StepThen(s: State, step: Step, rest: seq<Step>)
    requires Enabled(s, step) && Legal(Apply(s, step), rest)
    ensures Legal(s, [step] + rest) && After(s, [step] + rest) == After(Apply(s, step), rest)
  {
    hide Enabled, Apply;
    assert ([step] + rest)[1..] == rest;
  }

  /** Memoizing nothing, then raising: from an empty cache the latest becomes the reader's. */
  lemma ThenRaise(s: State, i: nat) returns (run: seq<Step>)
    requires LockFree(s) && s.cache == EMPTY_CACHE && i < |s.readers| && s.readers[i].HaveOldest?
    requires s.readers[i].purpose == ForLatest && WasLatest(s.table, s.readers[i].latest)
    requires s.readers[i].latest.seqNo < MaxLedger(s.table)
    ensures Legal(s, run) && LockFree(After(s, run)) && !Agrees(After(s, run).cache, After(s, run).table)
  {
    var s1 := Apply(s, Memoize(i));
    run := [Memoize(i)] + [RaiseLatest(i)];
    OneStep(s1, RaiseLatest(i));
    StepThen(s, Memoize(i), [RaiseLatest(i)]);
  }

  const FIVE: Table := map[5 := 0]
  const SIX: Table := map[6 := 0]

  /** The start of the failing run, and its state after the reader was told that ledger 5 is the latest. */
  const ONE_READER := State(10, FIVE, EMPTY_CACHE, Resting, [Idle])
  const TOLD_FIVE := State(10, FIVE, EMPTY_CACHE, Resting, [HaveLast(Info(5, 0))])

  /** Its state after ledger 6 is committed. */
  const SIX_COMMITTED := State(10, FIVE + SIX, Cache(Info(6, 0), UNKNOWN), Resting, [HaveLast(Info(5, 0))])

  const ASK: seq<Step> := [AskLatest(0), AskRange(0), QueryBoth(0)]
  const COMMIT: seq<Step> := [TakeLock(SIX, 6), CommitRows, UpdateCache]

  lemma ToldFive()
    ensures Legal(ONE_READER, ASK) && After(ONE_READER, ASK) == TOLD_FIVE
  {
    assert 5 in FIVE && MaxLedger(FIVE) == 5 && MinLedger(FIVE) == 5;
    var s1 := ONE_READER.(readers := [LatestUnknown]);
    var s2 := ONE_READER.(readers := [NeedBoth(ForLatest)]);
    assert Apply(ONE_READER, ASK[0]) == s1 && Apply(s1, ASK[1]) == s2 && Apply(s2, ASK[2]) == TOLD_FIVE;
    ThreeSteps(ONE_READER, s1, s2, ASK);
  }

  lemma CommittedSix()
    ensures Legal(TOLD_FIVE, COMMIT) && After(TOLD_FIVE, COMMIT) == SIX_COMMITTED
  {
    assert Ascending(FIVE, SIX, 6);
    var s1 := TOLD_FIVE.(writer := Locked(SIX, 6));
    var s2 := TOLD_FIVE.(table := FIVE + SIX, writer := RowsVisible(6, 0));
    assert Apply(TOLD_FIVE, COMMIT[0]) == s1 && Apply(s1, COMMIT[1]) == s2 && Apply(s2, COMMIT[2]) == SIX_COMMITTED;
    ThreeSteps(TOLD_FIVE, s1, s2, COMMIT);
  }

  lemma ThreeSteps(s0: State, s1: State, s2: State, run: seq<Step>)
    requires |run| == 3 && Enabled(s0, run[0]) && Apply(s0, run[0]) == s1
    requires Enabled(s1, run[1]) && Apply(s1, run[1]) == s2 && Enabled(s2, run[2])
    ensures Legal(s0, run) && After(s0, run) == Apply(s2, run[2])
  {
    hide Enabled, Apply;
    OneStep(s2, run[2]);
    StepThen(s1, run[1], [run[2]]);
    StepThen(s0, run[0], [run[1], run[2]]);
    assert [run[1]] + [run[2]] == [run[1], run[2]] && run == [run[0]] + [run[1], run[2]];
  }

  lemma {:induction false} RunThen(s: State, a: seq<Step>, b: seq<Step>)
    requires Legal(s, a) && Legal(After(s, a), b)
    ensures Legal(s, a + b) && After(s, a + b) == After(After(s, a), b)
    decreases |a|
  {
    hide Enabled, Apply;
    if a == [] {
      assert a + b == b;
    } else {
      RunThen(Apply(s, a[0]), a[1..], b);
      assert (a + b)[1..] == a[1..] + b;
    }
  }

  /**
   * A run from the start in which an unguarded reset breaks the cache: a reader asks for the latest
   * ledger and is told 5, ledger 6 is committed, the cache is reset, and the reader puts 5 into it.
   */
  lemma ResetUnderAReaderBreaksTheCache()
    ensures Start(ONE_READER) && Legal(ONE_READER, ASK + COMMIT)
    ensures var before := After(ONE_READER, ASK + COMMIT);
            && LockFree(before) && Agrees(before.cache, before.table) && !Enabled(before, Reset)
            && var reset := Apply(before, Reset);
            && Enabled(reset, RaiseLatest(0)) && !Agrees(Apply(reset, RaiseLatest(0)).cache, reset.table)
  {
    hide Legal, After, Apply, Enabled, Agrees;
    ToldFive();
    CommittedSix();
    RunThen(ONE_READER, ASK, COMMIT);
    ResetAfterSix();
    IdleStart();
  }

  lemma IdleStart()
    ensures Start(ONE_READER)
  {
  }

  lemma ResetAfterSix()
    ensures LockFree(SIX_COMMITTED) && Agrees(SIX_COMMITTED.cache, SIX_COMMITTED.table)
    ensures !Enabled(SIX_COMMITTED, Reset)
    ensures var reset := Apply(SIX_COMMITTED, Reset);
            Enabled(reset, RaiseLatest(0)) && !Agrees(Apply(reset, RaiseLatest(0)).cache, reset.table)
  {
    assert 6 in FIVE + SIX && MaxLedger(FIVE + SIX) == 6;
    assert HoldsOldLatest(SIX_COMMITTED.table, SIX_COMMITTED.readers[0]);
  }

  // ---------- a run in which the range is turned ----------

  const NARROW := State(1, FIVE, EMPTY_CACHE, Resting, [Idle])
  const FIVE_CACHED := State(1, FIVE, Cache(Info(5, 0), UNKNOWN), Resting, [NeedOldest(ForRange, Info(5, 0))])
  const FIVE_GONE := State(1, SIX, Cache(Info(6, 0), UNKNOWN), Resting, [NeedOldest(ForRange, Info(5, 0))])
  const ASK_AGAIN: seq<Step> := [RaiseLatest(0), Forget(0), AskRange(0)]
  const READ: seq<Step> := [QueryOldest(0), Memoize(0)]

  lemma NarrowStarts()
    ensures Start(NARROW)
  {
  }

  const NARROW_TOLD := State(1, FIVE, EMPTY_CACHE, Resting, [HaveLast(Info(5, 0))])

  lemma NarrowAsks()
    ensures Legal(NARROW, ASK) && After(NARROW, ASK) == NARROW_TOLD
  {
    assert 5 in FIVE && MaxLedger(FIVE) == 5 && MinLedger(FIVE) == 5;
    var s1, s2 := NARROW.(readers := [LatestUnknown]), NARROW.(readers := [NeedBoth(ForLatest)]);
    assert Apply(NARROW, ASK[0]) == s1 && Apply(s1, ASK[1]) == s2 && Apply(s2, ASK[2]) == NARROW_TOLD;
    ThreeSteps(NARROW, s1, s2, ASK);
  }

  lemma NarrowAsksAgain()
    ensures Legal(NARROW_TOLD, ASK_AGAIN) && After(NARROW_TOLD, ASK_AGAIN) == FIVE_CACHED
  {
    var s1 := NARROW_TOLD.(cache := Cache(Info(5, 0), UNKNOWN), readers := [AnsweredLatest(Info(5, 0))]);
    var s2 := s1.(readers := [Idle]);
    assert Apply(NARROW_TOLD, ASK_AGAIN[0]) == s1 && Apply(s1, ASK_AGAIN[1]) == s2;
    assert Apply(s2, ASK_AGAIN[2]) == FIVE_CACHED;
    ThreeSteps(NARROW_TOLD, s1, s2, ASK_AGAIN);
  }

  lemma NarrowCommits()
    ensures Legal(FIVE_CACHED, COMMIT) && After(FIVE_CACHED, COMMIT) == FIVE_GONE
  {
    assert Ascending(FIVE, SIX, 6);
    var s1 := FIVE_CACHED.(writer := Locked(SIX, 6));
    var s2 := FIVE_CACHED.(table := SIX, writer := RowsVisible(6, 0));
    assert Committed(FIVE, SIX, 6, 1) == SIX;
    assert Apply(FIVE_CACHED, COMMIT[0]) == s1 && Apply(s1, COMMIT[1]) == s2 && Apply(s2, COMMIT[2]) == FIVE_GONE;
    ThreeSteps(FIVE_CACHED, s1, s2, COMMIT);
  }

  lemma NarrowReads()
    ensures Legal(FIVE_GONE, READ)
    ensures After(FIVE_GONE, READ).readers == [Answered(ForRange, Range(Info(6, 0), Info(5, 0)))]
  {
    assert 6 in SIX && MinLedger(SIX) == 6;
    var s1 := FIVE_GONE.(readers := [HaveOldest(ForRange, Info(5, 0), Info(6, 0))]);
    assert Apply(FIVE_GONE, READ[0]) == s1;
    OneStep(s1, READ[1]);
    StepThen(FIVE_GONE, READ[0], [READ[1]]);
    assert [READ[0]] + [READ[1]] == READ;
  }

  /**
   * A run from the start with a window of one ledger: ledger 5 is cached as the latest, a reader asks for the
   * range, ledger 6 replaces ledger 5, and the reader is told a range from 6 to 5.
   */
  lemma RangeFromSixToFive()
    ensures Start(NARROW) && Legal(NARROW, ASK + ASK_AGAIN + COMMIT + READ)
    ensures After(NARROW, ASK + ASK_AGAIN + COMMIT + READ).readers
         == [Answered(ForRange, Range(Info(6, 0), Info(5, 0)))]
  {
    hide Legal, After, Apply, Enabled;
    NarrowStarts();
    NarrowAsks();
    NarrowAsksAgain();
    NarrowCommits();
    NarrowReads();
    RunThen(NARROW, ASK, ASK_AGAIN);
    RunThen(NARROW, ASK + ASK_AGAIN, COMMIT);
    RunThen(NARROW, ASK + ASK_AGAIN + COMMIT, READ);
  }
}
