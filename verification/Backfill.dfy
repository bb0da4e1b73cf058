/**
 * Backfilling the local database from the datastore
 * (cmd/stellar-rpc/internal/ingest/backfill.go) and live ingestion after it
 * (ingestRange, run and getNextLedgerSequence in cmd/stellar-rpc/internal/ingest/service.go).
 *
 * `BackfillMeta` carries the stored ledgers, the ledger-range cache and every constant the planner
 * reads. Whatever is outside (the datastore tip, a failing fetch or commit, a crash) is an oracle
 * indexed by a clock that ticks at each external call. A crash leaves the rows of the last commit
 * behind, exactly as a failed call does, so what holds of every commit holds at every restart.
 */
module Backfill {
  import opened Words
  import opened LedgerSets
  import opened BackfillPlan
  import RangeCache
  import opened Wrappers

  class BackfillMeta {
    const window: u32                    // HistoryRetentionWindow
    const dsFirst: u32                   // oldest ledger of the datastore
    const tipAt: nat -> u32              // latest ledger of the datastore at a tick
    const faultAt: nat -> bool           // does the external call of a tick fail?
    const prevCheckpoint: u32 -> u32
    var clock: nat
    var rows: set<int>                   // the stored ledger sequences
    var cache: RangeCache.Cache          // close times play no part here
    // every committed chunk, oldest first; the first entry stands for what was stored to begin with
    ghost var commits: seq<Commit>

    /** The datastore tip never goes back and checkpoints lie at or below their argument. */
    ghost predicate Environment() {
      && 1 <= window && 1 <= dsFirst < LEDGER_LIMIT
      && (forall i :: 1 <= tipAt(i) < LEDGER_LIMIT)
      && (forall i, j | i <= j :: tipAt(i) <= tipAt(j))
      && (forall c :: prevCheckpoint(c) <= c)
    }

    ghost predicate Valid()
      reads this
    {
      && Environment()
      && (forall x :: x in rows ==> 1 <= x < LEDGER_LIMIT)
      && Plausible(cache, rows)
      && commits != [] && rows == commits[|commits| - 1].after
    }

    constructor (window: u32, dsFirst: u32, tipAt: nat -> u32, faultAt: nat -> bool, prevCheckpoint: u32 -> u32,
                 stored: set<int>)
      ensures this.window == window && this.dsFirst == dsFirst && this.tipAt == tipAt && this.faultAt == faultAt
      ensures this.prevCheckpoint == prevCheckpoint && clock == 0 && rows == stored
      ensures cache == RangeCache.EMPTY_CACHE && commits == [Commit(0, 0, stored)]
    {
      this.window, this.dsFirst, this.tipAt, this.faultAt := window, dsFirst, tipAt, faultAt;
      this.prevCheckpoint, clock, rows, commits := prevCheckpoint, 0, stored, [Commit(0, 0, stored)];
      cache := RangeCache.EMPTY_CACHE;
    }

    ghost predicate FaultIn(from: nat, to: nat) {
      exists i :: from <= i < to && faultAt(i)
    }

    /** The chunks committed since there were `n` of them. */
    ghost function Since(n: nat): seq<Commit>
      reads this
    {
      if n <= |commits| then commits[n..] else []
    }

    lemma Positive()
      requires Valid()
      ensures 1 <= window && 1 <= dsFirst < LEDGER_LIMIT && 0 !in rows
    {
    }

    lemma TipNeverFalls(i: nat, j: nat)
      requires Valid() && i <= j
      ensures 1 <= tipAt(i) <= tipAt(j) < LEDGER_LIMIT
    {
    }

    // ---------- storage ----------

    /** ingestRange: insert every ledger in one transaction, then trim, commit and update the cache. */
    method IngestRange(lo: u32, hi: u32) returns (ok: bool)
      requires Valid() && 1 <= lo <= hi < LEDGER_LIMIT
      modifies this
      ensures Valid() && clock == old(clock) + 1
      ensures ok <==> !faultAt(old(clock)) && old(rows) !! Interval(lo, hi)
      ensures ok ==> rows == Trimmed(old(rows) + Interval(lo, hi), hi, window)
      ensures ok ==> commits == old(commits) + [Commit(lo, hi, rows)]
      ensures ok ==> cache == RangeCache.CacheAfterCommit(old(cache), hi, 0, window)
      ensures !ok ==> rows == old(rows) && commits == old(commits) && cache == old(cache)
    {
      hide Plausible;
      var fault := faultAt(clock);
      clock := clock + 1;
      var view := rows;
      for seqNo := lo to hi + 1
        invariant view == rows + Interval(lo, seqNo - 1)
        invariant rows !! Interval(lo, seqNo - 1)
        invariant rows == old(rows) && commits == old(commits) && cache == old(cache)
      {
        if seqNo in view { // the primary key of ledger_close_meta
          return false;
        }
        view := view + {seqNo};
      }
      if fault {
        return false;
      }
      CommitIsPlausible(cache, rows, lo, hi, window);
      rows := Trimmed(view, hi, window);
      commits := commits + [Commit(lo, hi, rows)];
      cache := RangeCache.CacheAfterCommit(cache, hi, 0, window);
      ok := true;
    }

    /** GetLedgerRange of the only thread at startup; `None` is ErrEmptyDB. */
    method GetLedgerRange() returns (r: Option<(int, int)>)
      requires Valid()
      modifies this`cache
      ensures Valid()
      ensures r == if rows == {} then None else Some((ReportedFirst(old(cache), rows), ReportedLast(old(cache), rows)))
      ensures cache.latest == old(cache).latest
      ensures OldestMemoized(cache, rows)
      ensures cache.first.seqNo
           == if rows != {} && cache.latest.seqNo != 0 then ReportedFirst(old(cache), rows) else old(cache).first.seqNo
      ensures Exact(old(cache), rows) ==> Exact(cache, rows)
    {
      var c := cache;
      if c.latest.seqNo != 0 && c.first.seqNo != 0 {
        return Some((c.first.seqNo, c.latest.seqNo));
      }
      if rows == {} {
        return None;
      }
      if c.latest.seqNo != 0 {
        cache := RangeCache.CacheAfterMemoize(c, c.latest, RangeCache.Info(MinOf(rows), 0));
        return Some((MinOf(rows), c.latest.seqNo));
      }
      r := Some((MinOf(rows), MaxOf(rows)));
    }

    method FindLatestLedgerSequence() returns (ok: bool, tip: u32)
      requires Valid()
      modifies this`clock
      ensures Valid() && clock == old(clock) + 1
      ensures ok == !faultAt(old(clock)) && tip == tipAt(old(clock))
    {
      ok, tip := !faultAt(clock), tipAt(clock);
      clock := clock + 1;
    }

    /** verifyDbGapless: counts the ledgers of the range that the cache reports. */
    method VerifyDbGapless() returns (ok: bool)
      requires Valid()
      modifies this`cache
      ensures Valid()
      ensures ok <==> rows == {} || Interval(ReportedFirst(old(cache), rows), ReportedLast(old(cache), rows)) <= rows
      ensures Gapless(rows) ==> ok
      ensures Exact(old(cache), rows) ==> Exact(cache, rows) && (ok <==> Gapless(rows))
      ensures cache.latest == old(cache).latest && OldestMemoized(cache, rows)
    {
      hide Interval, Gapless, Plausible, Exact;
      EmptyIsGapless(rows);
      var range := GetLedgerRange();
      if range.None? {
        return true;
      }
      var (lo, hi) := range.value;
      CheckOfReportedRange(old(cache), rows);
      CountDetectsGaps(rows, lo, hi);
      ok := |rows * Interval(lo, hi)| == hi - lo + 1;
    }

    // ---------- the backward phase ----------

    /**
     * backfillChunks. On success exactly [a, backfillLast] was added in descending chunks; a is the
     * end computed by `Reached`, at or below the returned left bound, although the bound moves up with
     * the datastore tip. A cold cache is left with the top of the chunks as the latest ledger.
     */
    method BackfillChunks(b: FillBounds, ghost tip: u32) returns (ok: bool, b': FillBounds, ghost a: int)
      requires Valid() && 1 <= tip <= tipAt(clock)
      requires b.nBackfill == Min(window, tip) && b.backfillFirst == Edge(tip, window, dsFirst)
      requires b.backfillFirst <= b.backfillLast < tip
      requires forall x :: x in rows ==> b.backfillLast < x
      modifies this
      ensures Valid() && old(clock) < clock
      ensures b.backfillFirst <= a
      ensures BackwardKept(old(rows), old(commits), old(cache), b.backfillLast, commits, cache, rows, a)
      ensures ok ==> a == Reached(tipAt, b.nBackfill, dsFirst, b.backfillFirst, b.backfillLast, 0, old(clock))
      ensures ok ==> a <= b'.backfillFirst && a <= b.backfillLast && b' == b.(backfillFirst := b'.backfillFirst)
      ensures ok ==> b.backfillFirst <= b'.backfillFirst <= Max(tipAt(clock) - b.nBackfill + 1, dsFirst)
      ensures ok <==> !FaultIn(old(clock), clock)
    {
      hide Interval, Reached, Plausible, BackwardKept, Environment;
      Positive();
      TipNeverFalls(clock, clock);
      var lBound, rBound := b.backfillFirst, b.backfillLast;
      var i, rChunkBound := 0, rBound;
      ghost var target := Reached(tipAt, b.nBackfill, dsFirst, lBound, rBound, 0, clock);
      b' := b;
      a := rBound + 1;
      BackwardBegins(rows, commits, cache, rBound);
      while rChunkBound >= lBound // the bound can rise inside the loop
        invariant Valid() && old(clock) <= clock && tip <= tipAt(clock) && !FaultIn(old(clock), clock)
        invariant i > 0 ==> old(clock) < clock && a <= rBound
        invariant b.backfillFirst <= lBound <= Max(tipAt(clock) - b.nBackfill + 1, dsFirst)
        invariant b.backfillFirst <= rChunkBound <= rBound && a == rChunkBound + 1 && (i == 0 ==> lBound <= rChunkBound)
        invariant BackwardKept(old(rows), old(commits), old(cache), rBound, commits, cache, rows, a)
        invariant target
               == if rChunkBound < lBound then a
                  else Reached(tipAt, b.nBackfill, dsFirst, lBound, rChunkBound, i, clock)
        decreases rChunkBound
      {
        var lChunkBound;
        ReachedStep(tipAt, b.nBackfill, dsFirst, lBound, rChunkBound, i, clock);
        ok, lChunkBound := FillNextChunk(lBound, rChunkBound, rBound, old(rows), old(commits), old(cache), tip);
        if !ok {
          return;
        }
        a := lChunkBound;
        if lChunkBound <= lBound {
          break;
        }
        rChunkBound := Sub32(lChunkBound, 1);
        ok, lBound := RefreshBound(i, lBound, b.nBackfill, tip);
        if !ok {
          return;
        }
        i := i + 1;
      }
      b' := b.(backfillFirst := lBound);
      ok := true;
    }

    /** After every tenth chunk but the first the left bound is computed anew from the current tip. */
    method RefreshBound(i: nat, lBound: u32, nBackfill: u32, ghost tip: u32) returns (ok: bool, lBound': u32)
      requires Valid() && 1 <= tip <= tipAt(clock) && nBackfill == Min(window, tip)
      requires Edge(tip, window, dsFirst) <= lBound <= Max(tipAt(clock) - nBackfill + 1, dsFirst)
      modifies this`clock
      ensures Valid() && tip <= tipAt(clock)
      ensures clock == if i > 0 && i % 10 == 0 then old(clock) + 1 else old(clock)
      ensures ok ==> lBound' == if i > 0 && i % 10 == 0 then Max(tipAt(old(clock)) - nBackfill + 1, dsFirst) else lBound
      ensures Edge(tip, window, dsFirst) <= lBound' <= Max(tipAt(clock) - nBackfill + 1, dsFirst)
      ensures ok <==> !FaultIn(old(clock), clock)
    {
      ok, lBound' := true, lBound;
      if i > 0 && i % 10 == 0 {
        var currentTip;
        ok, currentTip := FindLatestLedgerSequence();
        if !ok {
          return;
        }
        RefreshedBound(tip, tipAt(old(clock)), tipAt(clock));
        lBound' := Max(Add32(Sub32(currentTip, nBackfill), 1), dsFirst);
      }
    }

    /** One round of the loop of backfillChunks, below the chunks down to rChunkBound + 1. */
    method FillNextChunk(lBound: u32, rChunkBound: u32, ghost rBound: u32, ghost base: set<int>,
                         ghost before: seq<Commit>, ghost c0: RangeCache.Cache, ghost tip: u32)
      returns (ok: bool, lChunkBound: u32)
      requires Valid() && Edge(tip, window, dsFirst) <= lBound <= rChunkBound <= rBound < tip <= tipAt(clock)
      requires forall x :: x in base ==> rBound < x
      requires BackwardKept(base, before, c0, rBound, commits, cache, rows, rChunkBound + 1)
      modifies this
      ensures Valid() && clock == old(clock) + 1 && tip <= tipAt(clock) && tipAt(old(clock)) <= tipAt(clock)
      ensures lChunkBound == Max(lBound, rChunkBound - CHUNK_SIZE + 1)
      ensures BackwardKept(base, before, c0, rBound, commits, cache, rows, if ok then lChunkBound else rChunkBound + 1)
      ensures ok <==> !faultAt(old(clock))
    {
      hide Interval, Plausible, BackwardKept, Lowered;
      ghost var commits1, cache1, rows1 := commits, cache, rows;
      BackwardStands(base, before, c0, rBound, commits, cache, rows, rChunkBound + 1);
      ok, lChunkBound := FillChunkBackwards(lBound, rChunkBound, base, rBound, tip);
      if ok {
        BackwardGoesOn(base, before, c0, rBound, commits1, cache1, rows1, rChunkBound + 1, commits, cache, rows,
                       lChunkBound);
      }
    }

    /** The chunk [lChunkBound, rChunkBound]. */
    method FillChunkBackwards(lBound: u32, rChunkBound: u32, ghost base: set<int>, ghost rBound: u32, ghost tip: u32)
      returns (ok: bool, lChunkBound: u32)
      requires Valid() && Edge(tip, window, dsFirst) <= lBound <= rChunkBound <= rBound < tip < LEDGER_LIMIT
      requires forall x :: x in base ==> rBound < x
      requires rows == base + Interval(rChunkBound + 1, rBound)
      requires cache.latest.seqNo != 0 ==> rChunkBound <= cache.latest.seqNo
      modifies this
      ensures Valid() && clock == old(clock) + 1
      ensures lChunkBound == Max(lBound, rChunkBound - CHUNK_SIZE + 1)
      ensures ok <==> !faultAt(old(clock))
      ensures ok ==> rows == base + Interval(lChunkBound, rBound)
      ensures ok ==> commits == old(commits) + [Commit(lChunkBound, rChunkBound, rows)]
      ensures ok ==> Lowered(old(cache), cache, rChunkBound)
      ensures !ok ==> rows == old(rows) && commits == old(commits) && cache == old(cache)
    {
      hide Plausible;
      lChunkBound := lBound;
      // no underflow: the chunk goes down only when a whole one fits
      if rChunkBound >= Sub32(Add32(lBound, CHUNK_SIZE), 1) {
        lChunkBound := Max(lBound, Add32(Sub32(rChunkBound, CHUNK_SIZE), 1));
      }
      BackwardTrimsNothing(base, lChunkBound, rChunkBound, rBound, tip);
      CommitBelow(cache, rows, lChunkBound, rChunkBound, window);
      ok := IngestRange(lChunkBound, rChunkBound);
    }

    /** The refreshed left bound is the window's edge for the new tip, cut to the old window size. */
    lemma RefreshedBound(tip: u32, currentTip: u32, laterTip: u32)
      requires 1 <= tip <= currentTip <= laterTip < LEDGER_LIMIT && 1 <= window && 1 <= dsFirst < LEDGER_LIMIT
      ensures var lBound := Max(Add32(Sub32(currentTip, Min(window, tip)), 1), dsFirst);
              && Edge(tip, window, dsFirst) <= lBound
              && lBound == Max(currentTip - Min(window, tip) + 1, dsFirst)
    {
    }

    /** In the backward phase every stored ledger lies above the retention cutoff of the chunk. */
    lemma BackwardTrimsNothing(base: set<int>, lo: int, hi: int, rBound: int, tip: int)
      requires Edge(tip, window, dsFirst) <= lo <= hi <= rBound < tip
      requires forall x :: x in base ==> rBound < x
      ensures var s := base + Interval(hi + 1, rBound);
              && s + Interval(lo, hi) == base + Interval(lo, rBound)
              && s !! Interval(lo, hi)
              && Trimmed(s + Interval(lo, hi), hi, window) == s + Interval(lo, hi)
    {
      var s := base + Interval(hi + 1, rBound) + Interval(lo, hi);
      assert forall x :: x in s ==> lo <= x;
    }

    // ---------- the forward phase ----------

    /** frontfillChunks: ascending chunks, each trimming behind itself. */
    method FrontfillChunks(first: u32, last: u32) returns (ok: bool)
      requires Valid() && 1 <= first <= last < LEDGER_LIMIT && EndsBelowAll(rows, first)
      modifies this
      ensures Valid() && old(clock) < clock
      ensures |old(commits)| <= |commits| && commits[..|old(commits)|] == old(commits)
      ensures AscendingFrom(Since(|old(commits)|), old(rows), first, last, window)
      ensures rows == if commits == old(commits) then old(rows) else commits[|commits| - 1].after
      ensures forall x :: x in rows ==> x in old(rows) || x >= first
      ensures if commits == old(commits) then cache == old(cache) else RaisedTo(old(cache), cache, rows)
      ensures ok ==> rows == Trimmed(old(rows) + Interval(first, last), last, window) && commits != old(commits)
      ensures ok <==> !FaultIn(old(clock), clock)
    {
      hide ForwardKept, AscendingFrom, Interval, Trimmed, Plausible, RaisedTo, EndsBelowAll, Environment;
      ghost var done := first - 1;
      Positive();
      ForwardBegins(rows, commits, cache, first, window);
      var lChunkBound := first;
      while lChunkBound <= last
        invariant Valid() && old(clock) <= clock && first <= lChunkBound && !FaultIn(old(clock), clock)
        invariant done == Min(last, lChunkBound - 1) && (lChunkBound > first ==> old(clock) < clock)
        invariant ForwardKept(old(rows), old(commits), old(cache), first, window, commits, cache, rows, done)
      {
        ghost var commits1, cache1, rows1 := commits, cache, rows;
        ForwardStands(old(rows), old(commits), old(cache), first, window, commits, cache, rows, done, last);
        var rChunkBound;
        ok, rChunkBound := FillChunkForwards(first, lChunkBound, last, old(rows));
        if !ok {
          return;
        }
        Positive();
        ForwardGoesOn(old(rows), old(commits), old(cache), first, window, commits1, cache1, rows1, done,
                      commits, cache, rows, rChunkBound);
        done := rChunkBound;
        lChunkBound := Add32(lChunkBound, CHUNK_SIZE);
      }
      ForwardStands(old(rows), old(commits), old(cache), first, window, commits, cache, rows, done, last);
      ok := true;
    }

    /** One round of the loop of frontfillChunks, from lChunkBound up. */
    method FillChunkForwards(first: u32, lChunkBound: u32, last: u32, ghost base: set<int>)
      returns (ok: bool, rChunkBound: u32)
      requires Valid() && 1 <= first <= lChunkBound <= last < LEDGER_LIMIT
      requires EndsBelowAll(base, first) && EndsBelowAll(rows, lChunkBound)
      requires rows == if lChunkBound == first then base
                       else Trimmed(base + Interval(first, lChunkBound - 1), lChunkBound - 1, window)
      requires forall x :: x in rows ==> x in base || x >= first
      modifies this
      ensures Valid() && clock == old(clock) + 1 && rChunkBound == Min(last, lChunkBound + CHUNK_SIZE - 1)
      ensures ok ==> rows == Trimmed(base + Interval(first, rChunkBound), rChunkBound, window)
      ensures ok ==> commits == old(commits) + [Commit(lChunkBound, rChunkBound, rows)]
      ensures ok ==> EndsBelowAll(rows, rChunkBound + 1) && RaisedTo(old(cache), cache, rows)
      ensures ok ==> forall x :: x in rows ==> (x in base || x >= first) && (x in old(rows) || x >= lChunkBound)
      ensures !ok ==> rows == old(rows) && commits == old(commits) && cache == old(cache)
      ensures ok <==> !faultAt(old(clock))
    {
      hide Interval, Trimmed, Plausible, RaisedTo;
      rChunkBound := Min(last, Sub32(Add32(lChunkBound, CHUNK_SIZE), 1));
      NextChunkFits(rows, base, first, lChunkBound, rChunkBound, window);
      CommitAbove(cache, rows, lChunkBound, rChunkBound, window);
      ChunkMembers(rows, lChunkBound, rChunkBound, window);
      ok := IngestRange(lChunkBound, rChunkBound);
    }

    /** One iteration of runFrontfill; `cs` holds its checkpoint once the datastore has given its tip. */
    method FrontIteration(first: u32) returns (ok: bool, first': u32, last: u32, ghost cs: seq<int>)
      requires Valid() && 1 <= first <= LEDGER_LIMIT && EndsBelowAll(rows, first)
      modifies this
      ensures Valid() && old(clock) < clock && |cs| <= 1
      ensures cs != [] ==> cs[0] == prevCheckpoint(tipAt(old(clock)))
      ensures |old(commits)| <= |commits| && commits[..|old(commits)|] == old(commits)
      ensures cs == [] || first >= cs[0] ==> commits == old(commits) && rows == old(rows)
      ensures cs != [] && first < cs[0] ==>
                && AscendingFrom(Since(|old(commits)|), old(rows), first, cs[0], window)
                && rows == if commits == old(commits) then old(rows) else commits[|commits| - 1].after
      ensures forall x :: x in rows ==> x in old(rows) || x >= first
      ensures if commits == old(commits) then cache == old(cache) else RaisedTo(old(cache), cache, rows)
      ensures ok ==>
                cs == [last] && rows == FrontStep(old(rows), first, cs[0], window) && first' == Max(first, cs[0] + 1)
      ensures ok ==> EndsBelowAll(rows, first') && 1 <= first' <= LEDGER_LIMIT
      ensures ok ==> (commits == old(commits) <==> first >= cs[0])
      ensures ok <==> !FaultIn(old(clock), clock)
    {
      hide AscendingFrom, RaisedTo, Plausible;
      first', last, cs := first, 0, [];
      var tip;
      ok, tip := FindLatestLedgerSequence();
      if !ok {
        return;
      }
      last := prevCheckpoint(tip);
      cs := [last];
      if first < last {
        ok := FrontfillChunks(first, last);
        if !ok {
          return;
        }
      }
      first' := Max(first, Add32(last, 1));
    }

    /** The checkpoints come from the datastore tip at these ticks, in this order. */
    ghost predicate Asked(cs: seq<int>, asked: seq<nat>, from: nat, to: nat) {
      && |cs| == |asked|
      && (forall i :: 0 <= i < |cs| ==> from <= asked[i] < to && cs[i] == prevCheckpoint(tipAt(asked[i])))
      && (forall i :: 0 < i < |cs| ==> asked[i - 1] < asked[i])
    }

    /** One more iteration of a forward phase. */
    method NextIteration(from: u32, ghost r0: set<int>, ghost first: int, ghost before: seq<Commit>,
                         ghost c0: RangeCache.Cache, ghost cs: seq<int>, ghost asked: seq<nat>, ghost start: nat)
        returns (ok: bool, first': u32, last: u32, ghost cs': seq<int>, ghost asked': seq<nat>)
      requires Valid() && PhaseKept(r0, first, before, c0, cs, commits, cache, rows)
      requires PhaseAt(r0, first, cs, rows, from, window) && |cs| <= 1 && from <= LEDGER_LIMIT
      requires EndsBelow(r0, first) && Plausible(c0, r0) && 1 <= first
      requires Asked(cs, asked, start, clock) && start <= clock
      modifies this
      ensures Valid() && old(clock) < clock && PhaseKept(r0, first, before, c0, cs', commits, cache, rows)
      ensures Asked(cs', asked', start, clock) && |cs| <= |cs'| <= |cs| + 1
      ensures asked' == asked || asked' == asked + [old(clock)]
      ensures ok ==> PhaseAt(r0, first, cs', rows, first', window) && |cs'| == |cs| + 1 && first' <= LEDGER_LIMIT
      ensures ok && |cs| == 0 ==> (commits == old(commits) <==> first >= cs'[0])
      ensures ok <==> !FaultIn(old(clock), clock)
    {
      hide FrontStep, FrontPhase, NextFirst, AscendingFrom, Gapless, EndsBelow, EndsBelowAll, AllGapless, Skips,
        RaisedTo, Plausible, PhaseKept, PhaseAt, Environment, Valid, Asked;
      ghost var commits1, c1, cache1, rows1, t := commits, [], cache, rows, clock;
      PhaseStart(r0, first, cs, rows, from, window);
      ok, first', last, c1 := FrontIteration(from);
      Positive();
      PhaseGoesOn(r0, first, before, c0, cs, commits1, cache1, rows1, c1, commits, cache, rows, from, window);
      cs', asked' := cs + c1, asked + (if c1 == [] then [] else [t]);
      AskedMore(cs, asked, start, t, c1, clock);
      if ok {
        PhaseAdvances(r0, first, cs, rows1, from, window, last, rows);
      }
    }

    lemma AskedMore(cs: seq<int>, asked: seq<nat>, start: nat, t: nat, more: seq<int>, now: nat)
      requires Asked(cs, asked, start, t) && start <= t < now && |more| <= 1
      requires more != [] ==> more[0] == prevCheckpoint(tipAt(t))
      ensures Asked(cs + more, asked + (if more == [] then [] else [t]), start, now)
    {
    }

    /**
     * runFrontfill: one iteration after a backward phase, otherwise two. Every commit leaves a
     * gapless database unless the second iteration starts beyond a ledger that the first left out.
     */
    method RunFrontfill(b: FillBounds) returns (ok: bool, b': FillBounds, ghost cs: seq<int>, ghost asked: seq<nat>)
      requires Valid() && 1 <= b.frontfillFirst <= LEDGER_LIMIT && EndsBelow(rows, b.frontfillFirst)
      modifies this
      ensures Valid() && old(clock) < clock && Asked(cs, asked, old(clock), clock)
      ensures asked != [] ==> asked[0] == old(clock)
      ensures PhaseKept(old(rows), b.frontfillFirst, old(commits), old(cache), cs, commits, cache, rows)
      ensures |cs| <= (if NeedBackfillPhase(b) then 1 else 2)
      ensures ok ==>
                && |cs| == (if NeedBackfillPhase(b) then 1 else 2)
                && rows == FrontPhase(old(rows), b.frontfillFirst, cs, window)
      ensures ok && NeedBackfillPhase(b) ==> (commits == old(commits) <==> b.frontfillFirst >= cs[0])
      ensures ok <==> !FaultIn(old(clock), clock)
    {
      hide FrontPhase, NextFirst, Gapless, EndsBelow, EndsBelowAll, AllGapless, Skips, RaisedTo, Plausible, PhaseKept,
        PhaseAt;
      ghost var first := b.frontfillFirst;
      b', cs, asked := b, [], [];
      PhaseBegins(rows, first, commits, cache, window);
      var numIterations := if NeedBackfillPhase(b) then 1 else 2;
      for iteration := 0 to numIterations
        invariant |cs| == |asked| == iteration && (iteration > 0 ==> asked[0] == old(clock) < clock)
        invariant iteration == 0 ==> clock == old(clock)
        invariant Valid() && old(clock) <= clock && !FaultIn(old(clock), clock)
        invariant Asked(cs, asked, old(clock), clock)
        invariant PhaseKept(old(rows), first, old(commits), old(cache), cs, commits, cache, rows)
        invariant PhaseAt(old(rows), first, cs, rows, b'.frontfillFirst, window) && b'.frontfillFirst <= LEDGER_LIMIT
        invariant iteration == 0 ==> commits == old(commits)
        invariant iteration == 1 ==> (commits == old(commits) <==> first >= cs[0])
      {
        var first', last;
        ok, first', last, cs, asked :=
          NextIteration(b'.frontfillFirst, old(rows), first, old(commits), old(cache), cs, asked, old(clock));
        if !ok {
          return;
        }
        b' := b'.(frontfillFirst := first', frontfillLast := last);
      }
      PhaseStands(old(rows), first, cs, rows, b'.frontfillFirst, window);
      ok := true;
    }

    // ---------- both phases ----------

    /**
     * runBackfill and runFrontfill. `reach` is the first ledger the backward phase stored and
     * `phase` the forward phase.
     */
    method Fill(b: FillBounds, ghost tip: u32) returns (ok: bool, ghost reach: int, ghost phase: Phase)
      requires Valid() && Gapless(rows) && 1 <= tip <= tipAt(clock) && b.nBackfill == Min(window, tip)
      requires NeedBackfillPhase(b) ==>
                 && b.backfillFirst == Edge(tip, window, dsFirst) && b.backfillFirst <= b.backfillLast < tip
                 && rows != {} && b.backfillLast == MinOf(rows) - 1
      requires 1 <= b.frontfillFirst <= LEDGER_LIMIT && EndsBelow(rows, b.frontfillFirst)
      requires Exact(cache, rows) && OldestMemoized(cache, rows)
      modifies this
      ensures Valid() && old(clock) < clock
      ensures phase.first == b.frontfillFirst && Asked(phase.checkpoints, phase.asked, old(clock), clock)
      ensures !NeedBackfillPhase(b) && phase.asked != [] ==> phase.asked[0] == old(clock)
      ensures Filled(Snapshot(old(rows), old(commits), old(cache)), b, reach, phase.stored, phase.checkpoints, commits,
                     cache, rows)
      ensures ok ==>
                && |phase.checkpoints| == (if NeedBackfillPhase(b) then 1 else 2)
                && rows == FrontPhase(phase.stored, phase.first, phase.checkpoints, window)
      ensures ok && NeedBackfillPhase(b) ==>
                && reach == Reached(tipAt, b.nBackfill, dsFirst, b.backfillFirst, b.backfillLast, 0, old(clock))
                && b.backfillFirst <= reach <= Max(tipAt(clock) - b.nBackfill + 1, dsFirst)
                && reach <= b.backfillLast
      ensures ok && NeedBackfillPhase(b) ==>
                && rows != {}
                && (ReportedFirst(cache, rows), ReportedLast(cache, rows))
                   == LastCheck(old(rows), old(cache).latest.seqNo != 0, true, phase.first < phase.checkpoints[0], rows)
      ensures ok <==> !FaultIn(old(clock), clock)
    {
      hide Filled, BackwardKept, PhaseKept, EndsBelow, Interval, AllGapless, Gapless, StartsAbove, FrontPhase, Skips,
        Reached, Exact, Lowered, Plausible, LastCheck, OldestMemoized, Environment;
      ghost var o := Snapshot(rows, commits, cache);
      Positive();
      reach, phase := 0, Phase(rows, b.frontfillFirst, [], []);
      var b' := b;
      if NeedBackfillPhase(b) {
        StoredEnds(rows, 0);
        AllAbove(rows, b.backfillLast);
        ok, b', reach := BackfillChunks(b, tip);
        BackwardFilled(o, b, commits, cache, rows, reach);
        phase := phase.(stored := rows);
        if !ok {
          return;
        }
      } else {
        NothingFilled(o, b);
      }
      ghost var commits1, cache1, stored, t := commits, cache, rows, clock;
      FilledEnds(o, b, reach, stored, [], commits, cache, rows);
      ghost var cs, asked;
      ok, b', cs, asked := RunFrontfill(b');
      Positive();
      phase := Phase(stored, b.frontfillFirst, cs, asked);
      ForwardFilled(o, b, reach, stored, commits1, cache1, cs, commits, cache, rows);
      TipNeverFalls(t, clock);
      if ok && NeedBackfillPhase(b) {
        BothReported(o, reach, commits1, cache1, stored, b.frontfillFirst, cs, commits, cache, rows);
      }
    }

    /** The first ledger the forward phase fills, for the rows and the tip RunBackfill starts from. */
    ghost function FrontFirst(stored: set<int>, tip: int): int {
      if stored == {} then Edge(tip, window, dsFirst) else MaxOf(stored) + 1
    }

    /** A backward phase runs when the stored ledgers do not reach the edge of the window. */
    ghost predicate Backward(stored: set<int>, tip: int) {
      stored != {} && Edge(tip, window, dsFirst) < MinOf(stored)
    }

    /** NewBackfillMeta, the first check and setBounds, which asks for the tip at the first tick. */
    method Plan() returns (ok: bool, b: FillBounds)
      requires Valid() && Exact(cache, rows)
      modifies this`clock, this`cache
      ensures Valid() && Exact(cache, rows) && OldestMemoized(cache, rows) && cache.latest == old(cache).latest
      ensures ok ==> Gapless(rows) && clock == old(clock) + 1 && Planned(b, rows, tipAt(old(clock)))
      ensures ok ==> !faultAt(old(clock))
      ensures !ok ==>
                && old(clock) <= clock
                && (FaultIn(old(clock), clock) || !Gapless(rows) || (rows != {} && tipAt(old(clock)) < MinOf(rows)))
    {
      hide Gapless, Exact, Plausible, Interval;
      b := FillBounds(0, 0, 0, 0, 0);
      var known := GetLedgerRange();
      if rows != {} {
        ExactReport(old(cache), rows);
      }
      ok := VerifyDbGapless();
      if !ok {
        return;
      }
      var tip;
      ok, tip := FindLatestLedgerSequence();
      if !ok {
        return;
      }
      var minDb, maxDb := 0, 0;
      if known.Some? {
        minDb, maxDb := known.value.0, known.value.1;
      }
      SetBoundsExact(tip, window, dsFirst, known.None?, minDb, maxDb);
      var bounds := SetBounds(tip, window, dsFirst, known.None?, minDb, maxDb);
      if bounds == None {
        return false, b;
      }
      b := bounds.value;
    }

    /** The bounds of both phases for the stored ledgers and the tip. */
    ghost predicate Planned(b: FillBounds, stored: set<int>, tip: int) {
      && b.nBackfill == Min(window, tip) && b.frontfillFirst == FrontFirst(stored, tip)
      && (NeedBackfillPhase(b) <==> Backward(stored, tip))
      && (NeedBackfillPhase(b) ==>
            && b.backfillFirst == Edge(tip, window, dsFirst) && b.backfillLast == MinOf(stored) - 1
            && b.backfillFirst <= b.backfillLast < tip)
    }

    /** What is true of every run of RunBackfill. */
    ghost predicate Ran(r: BackfillRun) {
      var r0, p, n, tip := r.found.rows, r.phase, |r.found.commits|, tipAt(r.began);
      && 0 < n <= |r.left.commits| && r.left.commits[..n] == r.found.commits && r.began <= r.ended
      // a database with a hole is refused and left alone
      && (!Gapless(r0) ==> !r.filled && r.left.rows == r0 && r.left.commits == r.found.commits)
      // the forward phase started from a stored state, with checkpoints of the datastore at its time
      && Seen(r.left.commits, n - 1, p.stored) && (p.checkpoints != [] ==> EndsBelow(p.stored, p.first))
      && Asked(p.checkpoints, p.asked, r.began + 1, r.ended)
      && (if Backward(r0, tip) then |p.checkpoints| <= 1 else p.asked != [] ==> p.asked[0] == r.began + 1)
      // no commit makes a hole, unless the forward phase skips a ledger
      && (Gapless(r0) && !Skips(p.stored, p.first, p.checkpoints) ==>
            AllGapless(r.left.commits[n..]) && Gapless(r.left.rows))
      // success is reported exactly when both phases are completed and there is no hole
      && (r.ok <==> r.filled && Gapless(r.left.rows))
      && (r.filled ==> Completed(r) && !FaultIn(r.began, r.ended))
      && (!r.filled ==> FaultIn(r.began, r.ended) || !Gapless(r0) || (r0 != {} && tip < MinOf(r0)))
    }

    /** How far down a completed run reached, what is stored then and what the last check saw, whatever the tip did. */
    ghost predicate Completed(r: BackfillRun) {
      var r0, rows, p, tip, warm := r.found.rows, r.left.rows, r.phase, tipAt(r.began), r.found.cache.latest.seqNo != 0;
      && r.began < r.ended && 1 <= dsFirst && 1 <= p.first && |p.checkpoints| == (if Backward(r0, tip) then 1 else 2)
      && Covers(r0, r.reach, p, rows, tip, tipAt(r.ended), window, dsFirst)
      && (Backward(r0, tip) ==>
            r.reach == Reached(tipAt, Min(window, tip), dsFirst, Edge(tip, window, dsFirst), MinOf(r0) - 1, 0,
                               r.began + 1))
      && (rows != {} ==>
            r.checked == LastCheck(r0, warm, Backward(r0, tip), p.first < p.checkpoints[0], rows))
    }

    /** RunBackfill. It sets its bounds at the first tick. */
    method RunBackfill() returns (ok: bool, ghost r: BackfillRun)
      requires Valid() && Exact(cache, rows)
      modifies this
      ensures Valid() && Ran(r) && r.ok == ok
      ensures r.found == Snapshot(old(rows), old(commits), old(cache)) && r.began == old(clock)
      ensures r.left == Snapshot(rows, commits, cache) && r.ended == clock
    {
      hide AllGapless, EndsBelow, Gapless, Skips, Exact, Plausible, Seen, LastCheck, OldestMemoized, Reached, Covers,
        Environment, Asked, Planned, Backward;
      ghost var reach, phase, checked := 0, Phase(rows, 0, [], []), (0, 0);
      ghost var found, began := Snapshot(rows, commits, cache), clock;
      Positive();
      NothingCommitted(commits);
      LastIsSeen(commits, |commits| - 1);
      var b;
      ok, b := Plan();
      NothingAsked(began + 1, clock);
      if !ok {
        r := BackfillRun(found, began, Snapshot(rows, commits, cache), clock, false, reach, phase, checked, ok);
        return;
      }
      ok, reach, phase := RunPhases(b, tipAt(began));
      if !ok {
        r := BackfillRun(found, began, Snapshot(rows, commits, cache), clock, false, reach, phase, checked, ok);
        return;
      }
      if rows != {} {
        checked := (ReportedFirst(cache, rows), ReportedLast(cache, rows));
      }
      ok := VerifyDbGapless();
      r := BackfillRun(found, began, Snapshot(rows, commits, cache), clock, true, reach, phase, checked, ok);
    }

    /** runBackfill and runFrontfill for bounds set at `tip`, one tick ago. */
    method RunPhases(b: FillBounds, ghost tip: u32) returns (ok: bool, ghost reach: int, ghost phase: Phase)
      requires Valid() && Gapless(rows) && Exact(cache, rows) && OldestMemoized(cache, rows)
      requires 0 < clock && tip == tipAt(clock - 1) && Planned(b, rows, tip)
      modifies this
      ensures Valid() && old(clock) < clock
      ensures |old(commits)| <= |commits| && commits[..|old(commits)|] == old(commits)
      ensures Asked(phase.checkpoints, phase.asked, old(clock), clock)
      ensures Seen(commits, |old(commits)| - 1, phase.stored)
      ensures EndsBelow(phase.stored, phase.first) && 1 <= phase.first
      ensures if Backward(old(rows), tip) then |phase.checkpoints| <= 1
              else phase.asked != [] ==> phase.asked[0] == old(clock)
      ensures !Skips(phase.stored, phase.first, phase.checkpoints) ==>
                AllGapless(Since(|old(commits)|)) && Gapless(rows)
      ensures Backward(old(rows), tip) ==> Gapless(rows)
      ensures ok ==> Covers(old(rows), reach, phase, rows, tip, tipAt(clock), window, dsFirst)
      ensures ok && Backward(old(rows), tip) ==>
                reach == Reached(tipAt, Min(window, tip), dsFirst, Edge(tip, window, dsFirst), MinOf(old(rows)) - 1, 0,
                                 old(clock))
      ensures ok && !Backward(old(rows), tip) ==> Exact(cache, rows)
      ensures ok ==> |phase.checkpoints| == (if Backward(old(rows), tip) then 1 else 2)
      ensures ok && rows != {} ==>
                (ReportedFirst(cache, rows), ReportedLast(cache, rows))
                == LastCheck(old(rows), old(cache).latest.seqNo != 0, Backward(old(rows), tip),
                             phase.first < phase.checkpoints[0], rows)
      ensures ok <==> !FaultIn(old(clock), clock)
    {
      hide FrontPhase, AllGapless, EndsBelow, Gapless, Skips, Exact, Plausible, Filled, Seen, LastCheck, OldestMemoized,
        Reached, Covers, Environment, Asked;
      ghost var r0, t := rows, clock;
      Positive();
      TipNeverFalls(t - 1, t);
      StoredEnds(rows, b.frontfillFirst);
      ghost var o := Snapshot(rows, commits, cache);
      ok, reach, phase := Fill(b, tip);
      AskedWithin(phase.checkpoints, phase.asked, t, t, clock);
      FilledMeans(o, b, reach, phase.stored, phase.checkpoints, commits, cache, rows);
      if !ok {
        return;
      }
      TipNeverFalls(t - 1, clock);
      reach := FillCovers(o, b, reach, phase, commits, cache, rows, tip, tipAt(clock), window, dsFirst);
      if rows != {} && !NeedBackfillPhase(b) {
        ExactReport(cache, rows);
        EndsChecked(r0, o.cache.latest.seqNo != 0, phase.first < phase.checkpoints[0], rows);
      }
    }

    lemma NothingAsked(from: nat, to: nat)
      ensures Asked([], [], from, to)
    {
    }

    lemma AskedWithin(cs: seq<int>, asked: seq<nat>, from: nat, earlier: nat, to: nat)
      requires Valid() && Asked(cs, asked, from, to) && earlier <= from
      ensures Asked(cs, asked, earlier, to) && forall i :: 0 <= i < |cs| ==> cs[i] <= tipAt(to)
    {
    }

    /**
     * The window at the last tip is stored after a completed run exactly when no refresh cut a backward
     * phase short of its edge and no iteration left out the ledger it found. No refresh does that if the
     * stored ledgers began at most eleven chunks above the edge.
     */
    lemma WindowIsStoredIff(r: BackfillRun)
      requires Valid() && Ran(r) && r.filled
      ensures var r0, p, tip, edge := r.found.rows, r.phase, tipAt(r.began), Edge(tipAt(r.ended), window, dsFirst);
              && 1 <= |p.checkpoints| <= 2
              && var short := Backward(r0, tip) &&
                   CutShort(tipAt, Min(window, tip), dsFirst, MinOf(r0), r.began + 1, edge);
                 && (r.reach <= edge <==> !short)
                 && (r0 == {} || MinOf(r0) - edge <= 11 * CHUNK_SIZE ==> !short)
                 && (edge <= Top(p.first, p.checkpoints) ==>
                       (Interval(edge, Top(p.first, p.checkpoints)) <= r.left.rows
                        <==> !short && !LeavesOut(p.first, p.checkpoints, edge)))
    {
      hide Interval, LeavesOut, Reached, CutShort, NeverFalls, Gapless, AllGapless, Skips, Asked, EndsBelow, Seen,
        FrontPhase, LastCheck, Plausible, Reaches;
      var r0, tip, edge := r.found.rows, tipAt(r.began), Edge(tipAt(r.ended), window, dsFirst);
      Positive();
      TipNeverFalls(r.began, r.began + 1);
      TipNeverFalls(r.began, r.ended);
      EdgeRises(tip, tipAt(r.ended), window, dsFirst);
      if Backward(r0, tip) {
        TipsNeverFall();
        StopsAboveIff(tipAt, tip, window, dsFirst, MinOf(r0), r.began + 1, edge);
      } else {
        ReachesEdge(r0, r.reach, r.phase.stored, r.phase.first, Edge(tip, window, dsFirst), edge);
      }
    }

    /**
     * A completed run reports success unless its forward phase skipped a ledger whose lower neighbours
     * were not all trimmed away; then the last check refuses it.
     */
    lemma SucceedsIff(r: BackfillRun)
      requires Valid() && Ran(r) && r.filled
      ensures var p := r.phase;
              r.ok <==> !(Skips(p.stored, p.first, p.checkpoints) && p.checkpoints[1] - p.first + 2 <= window)
    {
      hide Interval, LeavesOut, Reached, Gapless, AllGapless, Asked, EndsBelow, Seen, FrontPhase, LastCheck, Plausible;
      var p := r.phase;
      Positive();
      if Backward(r.found.rows, tipAt(r.began)) {
        FewDoNotSkip(p.stored, p.first, p.checkpoints);
      } else {
        TwoIterationsGapless(p.stored, p.first, p.checkpoints, window);
      }
    }

    lemma TipsNeverFall()
      requires Environment()
      ensures NeverFalls(tipAt)
    {
    }

    /** mustBackfill: the cache is cleared after a successful run. */
    method MustBackfill() returns (ok: bool, ghost r: BackfillRun)
      requires Valid() && Exact(cache, rows)
      modifies this
      ensures Valid() && Ran(r) && r.ok == ok
      ensures r.found == Snapshot(old(rows), old(commits), old(cache)) && r.began == old(clock)
      ensures r.left.rows == rows && r.left.commits == commits && r.ended == clock
      ensures ok ==> cache == RangeCache.EMPTY_CACHE && Exact(cache, rows)
    {
      hide Ran, Exact, Plausible, Environment;
      ok, r := RunBackfill();
      if ok {
        EmptyCacheIsExact(rows);
        cache := RangeCache.EMPTY_CACHE; // ResetCache
      }
    }

    // ---------- live ingestion ----------

    /** getNextLedgerSequence: above the latest stored ledger, or the archive's current ledger `root`. */
    method GetNextLedgerSequence(root: u32) returns (next: u32)
      requires Valid() && Exact(cache, rows) && 1 <= root < LEDGER_LIMIT
      modifies this`cache
      ensures Valid() && Exact(cache, rows)
      ensures next == if rows == {} then root else MaxOf(rows) + 1
      ensures rows != {} ==> cache.latest.seqNo == MaxOf(rows) // cached from then on
    {
      if cache.latest.seqNo != 0 {
        return cache.latest.seqNo + 1;
      }
      var range := GetLedgerRange();
      if range.None? {
        return root;
      }
      cache := RangeCache.CacheAfterRaise(cache, RangeCache.Info(range.value.1, 0));
      next := range.value.1 + 1;
    }

    /**
     * Service.run: from the next ledger on one at a time, here `count` of them unless a call fails. Of these
     * n ledgers were ingested: up to the first failing call, or all.
     */
    method Run(count: nat, root: u32) returns (ok: bool, ghost n: nat)
      requires Valid() && Exact(cache, rows) && 1 <= root < LEDGER_LIMIT
      modifies this
      ensures Valid() && Exact(cache, rows)
      ensures Ingested(old(rows), old(commits), NextOf(old(rows), root), n, rows, commits, window)
      ensures var most := Min(count, LEDGER_LIMIT - NextOf(old(rows), root)); if ok then n == most else n < most
      ensures clock == old(clock) + n + (if ok then 0 else 1) && !FaultIn(old(clock), old(clock) + n)
      ensures !ok ==> faultAt(old(clock) + n)
      ensures Gapless(old(rows)) ==> AllGapless(Since(|old(commits)|)) && Gapless(rows)
      ensures GrownAbove(old(rows), rows)
    {
      hide GrownAbove, Interval, Trimmed, Gapless, EndsBelow, AllGapless, Exact, Plausible, Environment, Ingested;
      ghost var m := |commits|;
      NothingCommitted(commits);
      NextIsLimited(root);
      var nextLedgerSeq := GetNextLedgerSequence(root);
      NextIsAbove(rows, root);
      GrownByNone(rows);
      NoneIngested(rows, commits, nextLedgerSeq, window);
      ghost var first := nextLedgerSeq;
      n := 0;
      var i := 0;
      while i < count && nextLedgerSeq < LEDGER_LIMIT
        invariant Valid() && Exact(cache, rows) && 1 <= nextLedgerSeq <= LEDGER_LIMIT
        invariant n == i <= count && nextLedgerSeq == first + n && clock == old(clock) + n
        invariant !FaultIn(old(clock), clock)
        invariant m <= |commits| && commits[..m] == old(commits)
        invariant Ingested(old(rows), old(commits), first, n, rows, commits, window)
        invariant Gapless(old(rows)) ==> AllGapless(commits[m..]) && Gapless(rows)
        invariant EndsBelow(rows, nextLedgerSeq) && GrownAbove(old(rows), rows)
      {
        ghost var before, r := commits, rows;
        ok := IngestNext(nextLedgerSeq);
        GrownTwice(old(rows), r, rows);
        if !ok {
          return;
        }
        OneIngested(r, before, nextLedgerSeq, rows, commits, window);
        IngestedTwice(old(rows), old(commits), first, n, r, before, 1, rows, commits, window);
        assert commits[m..] == before[m..] + [Commit(nextLedgerSeq, nextLedgerSeq, rows)];
        if Gapless(old(rows)) {
          OneMoreGapless(before[m..], Commit(nextLedgerSeq, nextLedgerSeq, rows));
        }
        nextLedgerSeq := Add32(nextLedgerSeq, 1);
        i := i + 1;
        n := n + 1;
      }
      ok := true;
    }

    lemma NextIsLimited(root: u32)
      requires Valid() && 1 <= root < LEDGER_LIMIT
      ensures 1 <= NextOf(rows, root) <= LEDGER_LIMIT
    {
    }

    /** Service.ingest of the ledger above everything stored. */
    method IngestNext(next: u32) returns (ok: bool)
      requires Valid() && Exact(cache, rows) && 1 <= next < LEDGER_LIMIT && EndsBelow(rows, next)
      modifies this
      ensures Valid() && Exact(cache, rows) && clock == old(clock) + 1 && ok == !faultAt(old(clock))
      ensures ok ==> rows == Trimmed(old(rows) + Interval(next, next), next, window)
      ensures ok ==> commits == old(commits) + [Commit(next, next, rows)] && EndsBelow(rows, next + 1)
      ensures GrownAbove(old(rows), rows) && (ok ==> Gapless(old(rows)) ==> Gapless(rows))
      ensures !ok ==> rows == old(rows) && commits == old(commits)
    {
      hide GrownAbove, Interval, Trimmed, Gapless, EndsBelow, Exact, Plausible;
      BelowAll(rows, next);
      OneLedger(rows, next, window);
      GrownByOne(rows, next, window);
      NextIsNew(rows, next);
      CommitAbove(cache, rows, next, next, window);
      ok := IngestRange(next, next);
    }

    /**
     * Service.Start: a failed run is tried again within the same life, with the cache as it is. Together the
     * runs ingested n ledgers, all that were asked for unless a call failed.
     */
    method Start(runs: seq<nat>, root: u32) returns (ghost n: nat)
      requires Valid() && Exact(cache, rows) && 1 <= root < LEDGER_LIMIT
      modifies this
      ensures Valid() && Exact(cache, rows) && old(clock) <= clock
      ensures Ingested(old(rows), old(commits), NextOf(old(rows), root), n, rows, commits, window)
      ensures n <= Min(Sum(runs), LEDGER_LIMIT - NextOf(old(rows), root))
      ensures !FaultIn(old(clock), clock) ==> n == Min(Sum(runs), LEDGER_LIMIT - NextOf(old(rows), root))
      ensures Gapless(old(rows)) ==> AllGapless(Since(|old(commits)|)) && Gapless(rows)
      ensures GrownAbove(old(rows), rows)
    {
      hide GrownAbove, Gapless, AllGapless, Exact, Plausible, Environment, Ingested, NextOf, Interval, Trimmed, Sum;
      ghost var m, next := |commits|, NextOf(rows, root);
      NothingCommitted(commits);
      GrownByNone(rows);
      NoneIngested(rows, commits, next, window);
      Positive();
      NextIsLimited(root);
      NothingToSum(runs);
      n := 0;
      for i := 0 to |runs|
        invariant Valid() && Exact(cache, rows) && old(clock) <= clock
        invariant m <= |commits| && commits[..m] == old(commits)
        invariant Ingested(old(rows), old(commits), next, n, rows, commits, window)
        invariant n <= Min(Sum(runs[..i]), LEDGER_LIMIT - next)
        invariant !FaultIn(old(clock), clock) ==> n == Min(Sum(runs[..i]), LEDGER_LIMIT - next)
        invariant Gapless(old(rows)) ==> AllGapless(commits[m..]) && Gapless(rows)
        invariant GrownAbove(old(rows), rows)
      {
        ghost var before, r, t := commits, rows, clock;
        NextAfter(old(rows), old(commits), root, n, rows, commits, window);
        OneMoreToSum(runs, i);
        ghost var more;
        var ok;
        ok, more := Run(runs[i], root);
        GrownTwice(old(rows), r, rows);
        IngestedTwice(old(rows), old(commits), next, n, r, before, more, rows, commits, window);
        IngestedAfter(r, before, next + n, more, rows, commits, window);
        n := n + more;
        assert commits[m..] == before[m..] + commits[|before|..];
        AllGaplessConcat(before[m..], commits[|before|..]);
      }
      assert runs[..|runs|] == runs;
    }

    // ---------- lives of the daemon ----------

    /**
     * Backfill, and top up after the schema is restored. The second run begins at a newer tip: with at
     * most eleven chunks between the window's edge and what the first run left, it completes the window.
     */
    method BackfillTwice() returns (ok: bool, ghost runs: seq<BackfillRun>)
      requires Valid() && Exact(cache, rows)
      modifies this
      ensures Valid() && old(clock) <= clock && (ok ==> Gapless(rows) && Exact(cache, rows))
      ensures |old(commits)| <= |commits| && commits[..|old(commits)|] == old(commits)
      ensures 1 <= |runs| <= 2 && forall i :: 0 <= i < |runs| ==> Ran(runs[i])
      ensures runs[0].found == Snapshot(old(rows), old(commits), old(cache)) && runs[0].began == old(clock)
      ensures |runs| == 2 <==> runs[0].ok
      ensures |runs| == 2 ==>
                runs[1].found == runs[0].left.(cache := RangeCache.EMPTY_CACHE) && runs[1].began == runs[0].ended
      ensures ok <==> |runs| == 2 && runs[1].ok
      ensures var r := runs[|runs| - 1]; r.left.rows == rows && r.left.commits == commits && r.ended == clock
      ensures ok ==>
                var r0, p, edge := runs[1].found.rows, runs[1].phase, Edge(tipAt(clock), window, dsFirst);
                && 1 <= |p.checkpoints| <= 2
                && ((r0 == {} || MinOf(r0) - edge <= 11 * CHUNK_SIZE) && edge <= Top(p.first, p.checkpoints) ==>
                      (Interval(edge, Top(p.first, p.checkpoints)) <= rows
                       <==> !LeavesOut(p.first, p.checkpoints, edge)))
      ensures Gapless(old(rows)) && NoneSkips(runs) ==> AllGapless(Since(|old(commits)|)) && Gapless(rows)
      ensures !Gapless(old(rows)) ==> !ok && rows == old(rows) && commits == old(commits)
    {
      hide Gapless, AllGapless, Exact, Plausible, Environment, NoneSkips, Interval, LeavesOut, CutShort, Ran;
      ghost var n := |commits|;
      ghost var r1, r2;
      ok, r1 := MustBackfill();
      RanMeans(r1);
      runs := [r1];
      NoneSkipsMeans(runs);
      if !ok {
        return;
      }
      ok, r2 := MustBackfill();
      RanMeans(r2);
      runs := [r1, r2];
      NoneSkipsMeans(runs);
      if ok {
        WindowIsStoredIff(r2);
      }
      assert commits[n..] == r1.left.commits[n..] + commits[|r1.left.commits|..];
      AllGaplessConcat(r1.left.commits[n..], commits[|r1.left.commits|..]);
    }

    lemma RanMeans(r: BackfillRun)
      requires Ran(r)
      ensures 0 < |r.found.commits| <= |r.left.commits| && r.found.commits <= r.left.commits && r.began <= r.ended
      ensures !Gapless(r.found.rows) ==> r.left.rows == r.found.rows && r.left.commits == r.found.commits
      ensures Gapless(r.found.rows) && !Skips(r.phase.stored, r.phase.first, r.phase.checkpoints) ==>
                AllGapless(r.left.commits[|r.found.commits|..]) && Gapless(r.left.rows)
      ensures r.ok <==> r.filled && Gapless(r.left.rows)
      ensures r.filled ==> Gapless(r.found.rows)
    {
      hide Gapless, AllGapless, Skips, Asked, EndsBelow, Seen, Completed, FaultIn;
    }

    /** The backfills of a life: none, one that failed, or two, the second after a success of the first. */
    ghost predicate Backfilled(v: Living) {
      if !v.life.backfill then v.runs == []
      else
        && 1 <= |v.runs| <= 2 && (forall i :: 0 <= i < |v.runs| ==> Ran(v.runs[i]))
        && v.runs[0].found == v.found && v.runs[0].began == v.began
        && (|v.runs| == 2 <==> v.runs[0].ok)
        && (|v.runs| == 2 ==>
              && v.runs[1].found == v.runs[0].left.(cache := RangeCache.EMPTY_CACHE)
              && v.runs[1].began == v.runs[0].ended)
    }

    /** Live ingestion, on what the backfills left, unless one of them failed. */
    ghost predicate WentLive(v: Living, root: int) {
      var from := if v.runs == [] then v.found else v.runs[|v.runs| - 1].left;
      var t := if v.runs == [] then v.began else v.runs[|v.runs| - 1].ended;
      var most := Min(Sum(v.life.runs), LEDGER_LIMIT - NextOf(from.rows, root));
      if v.life.backfill && !(|v.runs| == 2 && v.runs[1].ok) then
        v.left.rows == from.rows && v.left.commits == from.commits && v.ended == t && v.ingested == 0
      else
        && Ingested(from.rows, from.commits, NextOf(from.rows, root), v.ingested, v.left.rows, v.left.commits, window)
        && t <= v.ended && v.ingested <= most && (!FaultIn(t, v.ended) ==> v.ingested == most)
    }

    /**
     * One life: a new process, whose cache knows what the startup before the backfill has asked for; two
     * backfills if they are switched on; then live ingestion with retries. It can end at any external
     * call. A hole is left as it is: a life with backfill stops there, any other only goes on above it.
     */
    method LiveOnce(life: Life, root: u32) returns (ghost v: Living)
      requires Valid() && 1 <= root < LEDGER_LIMIT
      modifies this
      ensures Valid() && Backfilled(v) && WentLive(v, root) && v.life == life
      ensures v.found == Snapshot(old(rows), old(commits), Opened(life.cached, old(rows))) && v.began == old(clock)
      ensures v.left == Snapshot(rows, commits, cache) && v.ended == clock && old(clock) <= clock
      ensures |old(commits)| <= |commits| && commits[..|old(commits)|] == old(commits)
      ensures Gapless(old(rows)) && NoneSkips(v.runs) ==> AllGapless(Since(|old(commits)|)) && Gapless(rows)
      ensures !Gapless(old(rows)) ==> if life.backfill then rows == old(rows) else GrownAbove(old(rows), rows)
    {
      hide Gapless, AllGapless, Exact, Plausible, Environment, NoneSkips, Ran, GrownAbove, Interval, LeavesOut,
        Ingested, NextOf, Sum, Trimmed, FaultIn;
      ghost var n := |commits|;
      NothingCommitted(commits);
      OpenedIsExact(life.cached, rows);
      cache := Opened(life.cached, rows);
      v := Living(life, Snapshot(rows, commits, cache), clock, [], 0, Snapshot(rows, commits, cache), clock);
      if life.backfill {
        var ok;
        ghost var runs;
        ok, runs := BackfillTwice();
        v := v.(runs := runs, left := Snapshot(rows, commits, cache), ended := clock);
        if !ok {
          return;
        }
      }
      ghost var r2, c2 := rows, commits;
      ghost var ingested := Start(life.runs, root);
      IngestedAfter(r2, c2, NextOf(r2, root), ingested, rows, commits, window);
      v := v.(ingested := ingested, left := Snapshot(rows, commits, cache), ended := clock);
      assert commits[n..] == c2[n..] + commits[|c2|..];
      AllGaplessConcat(c2[n..], commits[|c2|..]);
    }

    /**
     * Any number of lives, one after the other. From gapless ledgers every state that is ever committed is
     * gapless, unless one of the backfills that ran skipped a ledger in its forward phase. A hole stays as
     * it is until the ledgers below it have been trimmed away.
     */
    method Lifetimes(lives: seq<Life>, root: u32) returns (ghost lived: seq<Living>)
      requires Valid() && 1 <= root < LEDGER_LIMIT
      modifies this
      ensures Valid() && |lived| == |lives|
      ensures forall i :: 0 <= i < |lives| ==>
                lived[i].life == lives[i] && Backfilled(lived[i]) && WentLive(lived[i], root)
      ensures InTurn(lived, old(rows), old(commits), old(clock), rows, commits, clock)
      ensures |old(commits)| <= |commits| && commits[..|old(commits)|] == old(commits)
      ensures Gapless(old(rows)) && NeverSkips(lived) ==> AllGapless(Since(|old(commits)|)) && Gapless(rows)
      ensures NeverGapless(commits, |old(commits)| - 1) ==> GrownAbove(old(rows), rows)
    {
      hide Gapless, AllGapless, Plausible, Environment, NoneSkips, NeverGapless, GrownAbove, Backfilled, WentLive,
        InTurn, NeverSkips;
      ghost var n := |commits|;
      NothingCommitted(commits);
      GrownByNone(rows);
      lived := [];
      NoLives(rows, commits, clock);
      for i := 0 to |lives|
        invariant Valid() && |lived| == i
        invariant forall k :: 0 <= k < i ==>
                    lived[k].life == lives[k] && Backfilled(lived[k]) && WentLive(lived[k], root)
        invariant InTurn(lived, old(rows), old(commits), old(clock), rows, commits, clock)
        invariant n <= |commits| && commits[..n] == old(commits)
        invariant Gapless(old(rows)) && NeverSkips(lived) ==> AllGapless(commits[n..]) && Gapless(rows)
        invariant NeverGapless(commits, n - 1) ==> GrownAbove(old(rows), rows)
      {
        ghost var c1, before, r, t := commits, lived, rows, clock;
        ghost var v := LiveOnce(lives[i], root);
        lived := lived + [v];
        OneMoreLife(before, v, old(rows), old(commits), old(clock), r, c1, t, rows, commits, clock);
        assert commits[n..] == c1[n..] + commits[|c1|..];
        AllGaplessConcat(c1[n..], commits[|c1|..]);
        if NeverGapless(commits, n - 1) {
          NeverGaplessBefore(c1, commits, n - 1);
          GrownByNone(r);
          GrownTwice(old(rows), r, rows);
        }
      }
    }
  }

  /**
   * One life: what it was, what it found and left, between which ticks, its backfills, and how many ledgers
   * it ingested live.
   */
  datatype Living = Living(
    life: Life, found: Snapshot, began: nat, runs: seq<BackfillRun>, ingested: nat, left: Snapshot, ended: nat)

  /** Each life finds what the one before it left. */
  ghost predicate InTurn(lived: seq<Living>, rows0: set<int>, commits0: seq<Commit>, t0: nat,
                         rows: set<int>, commits: seq<Commit>, t: nat)
  {
    && (if lived == [] then rows == rows0 && commits == commits0 && t == t0
        else
          && lived[0].found.rows == rows0 && lived[0].found.commits == commits0 && lived[0].began == t0
          && var last := lived[|lived| - 1]; last.left.rows == rows && last.left.commits == commits && last.ended == t)
    && forall i :: 0 < i < |lived| ==>
         && lived[i].found.rows == lived[i - 1].left.rows && lived[i].found.commits == lived[i - 1].left.commits
         && lived[i].began == lived[i - 1].ended
  }

  lemma NoLives(rows: set<int>, commits: seq<Commit>, t: nat)
    ensures InTurn([], rows, commits, t, rows, commits, t)
  {
  }

  lemma OneMoreLife(lived: seq<Living>, v: Living, rows0: set<int>, commits0: seq<Commit>, t0: nat,
                    rows1: set<int>, commits1: seq<Commit>, t1: nat, rows: set<int>, commits: seq<Commit>, t: nat)
    requires InTurn(lived, rows0, commits0, t0, rows1, commits1, t1)
    requires v.found.rows == rows1 && v.found.commits == commits1 && v.began == t1
    requires v.left.rows == rows && v.left.commits == commits && v.ended == t
    ensures InTurn(lived + [v], rows0, commits0, t0, rows, commits, t)
    ensures NeverSkips(lived + [v]) ==> NeverSkips(lived) && NoneSkips(v.runs)
  {
    hide NoneSkips;
    if NeverSkips(lived + [v]) {
      assert forall i :: 0 <= i < |lived| ==> (lived + [v])[i] == lived[i];
      assert (lived + [v])[|lived|] == v;
    }
  }

  ghost predicate NeverSkips(lived: seq<Living>) {
    forall i :: 0 <= i < |lived| ==> NoneSkips(lived[i].runs)
  }

  /**
   * What a new process knows of the stored ledgers before the backfill: startup asks for the latest
   * ledger if it initializes the storage, and both ends may be known.
   */
  datatype Cached = Nothing | Latest | BothEnds

  function Opened(known: Cached, rows: set<int>): RangeCache.Cache
    requires forall x :: x in rows ==> 1 <= x
  {
    if known == Nothing || rows == {} then RangeCache.EMPTY_CACHE
    else RangeCache.Cache(RangeCache.Info(MaxOf(rows), 0),
                          if known == BothEnds then RangeCache.Info(MinOf(rows), 0) else RangeCache.UNKNOWN)
  }

  lemma OpenedIsExact(known: Cached, rows: set<int>)
    requires forall x :: x in rows ==> 1 <= x
    ensures Exact(Opened(known, rows), rows) && Plausible(Opened(known, rows), rows)
  {
  }

  /** Up to close times these are all the exact caches. */
  lemma ExactIsOpened(c: RangeCache.Cache, rows: set<int>)
    requires Exact(c, rows) && forall x :: x in rows ==> 1 <= x
    ensures exists known ::
              Opened(known, rows).latest.seqNo == c.latest.seqNo && Opened(known, rows).first.seqNo == c.first.seqNo
  {
    var known := if c.latest.seqNo == 0 then Nothing else if c.first.seqNo == 0 then Latest else BothEnds;
    assert Opened(known, rows).latest.seqNo == c.latest.seqNo;
  }

  /** What is cached at first, whether the daemon backfills, and how many ledgers each run of ingestion is asked for. */
  datatype Life = Life(cached: Cached, backfill: bool, runs: seq<nat>)

  function Sum(runs: seq<nat>): nat {
    if runs == [] then 0 else Sum(runs[..|runs| - 1]) + runs[|runs| - 1]
  }

  lemma NothingToSum(runs: seq<nat>)
    ensures Sum(runs[..0]) == 0
  {
  }

  lemma OneMoreToSum(runs: seq<nat>, i: nat)
    requires i < |runs|
    ensures Sum(runs[..i + 1]) == Sum(runs[..i]) + runs[i]
  {
    assert runs[..i + 1][..i] == runs[..i];
  }

  lemma NextIsAbove(rows: set<int>, root: int)
    ensures EndsBelow(rows, NextOf(rows, root))
  {
  }

  ghost predicate NoneSkips(runs: seq<BackfillRun>) {
    forall i :: 0 <= i < |runs| ==> !Skips(runs[i].phase.stored, runs[i].phase.first, runs[i].phase.checkpoints)
  }

  lemma NoneSkipsMeans(runs: seq<BackfillRun>)
    requires 1 <= |runs| <= 2
    ensures NoneSkips(runs) ==> !Skips(runs[0].phase.stored, runs[0].phase.first, runs[0].phase.checkpoints)
    ensures NoneSkips(runs) && |runs| == 2 ==>
              !Skips(runs[1].phase.stored, runs[1].phase.first, runs[1].phase.checkpoints)
  {
  }

  lemma GrownByNone(rows: set<int>)
    ensures GrownAbove(rows, rows)
  {
  }

  lemma NextIsNew(rows: set<int>, next: int)
    requires EndsBelowAll(rows, next)
    ensures rows !! Interval(next, next)
  {
  }

  lemma EmptyIsGapless(rows: set<int>)
    ensures rows == {} ==> Gapless(rows)
  {
  }

  /** The checkpoint at or below a ledger, at the default frequency of 64. */
  function PrevCheckpoint(c: u32): (r: u32)
    ensures if c < 63 then r == 0 else (r + 1) % 64 == 0 && r <= c < r + 64
  {
    if c < 63 then 0 else (c + 1) / 64 * 64 - 1
  }

  /**
   * The run that leaves the window uncovered although nothing failed and nothing was trimmed: a chain
   * of 20,000 ledgers, a window of 1,000,000, ledgers 19,000 to 20,000 stored, and a tip that rises to
   * 20,500 before the first refresh.
   */
  method ShortChain() returns (b: BackfillMeta)
    ensures fresh(b) && b.Valid() && Exact(b.cache, b.rows) && ShortChainOf(b)
    ensures b.clock == 0 && b.rows == Interval(19_000, 20_000)
  {
    hide Interval;
    b := new BackfillMeta(1_000_000, 1, (t: nat) => if t == 0 then 20_000 else 20_500, (t: nat) => false,
                          PrevCheckpoint, Interval(19_000, 20_000));
    EmptyCacheIsExact(b.rows);
    IntervalFacts(19_000, 20_000);
  }

  ghost predicate ShortChainOf(b: BackfillMeta) {
    && b.window == 1_000_000 && b.dsFirst == 1 && b.prevCheckpoint == PrevCheckpoint
    && (forall t :: b.tipAt(t) == if t == 0 then 20_000 else 20_500) && (forall t :: !b.faultAt(t))
  }

  lemma FirstRunStopsShort(b: BackfillMeta, r: BackfillRun)
    requires ShortChainOf(b) && b.Ran(r) && r.began == 0 && r.found.rows == Interval(19_000, 20_000)
    ensures r.ok && 0 < r.ended && forall x :: x in r.left.rows <==> 501 <= x <= 20_479
  {
    hide Interval, Reached, Covers, LastCheck, AllGapless, Gapless, FrontPhase;
    IntervalFacts(19_000, 20_000);
    LongPhaseReaches(b.tipAt, 20_500, 20_000, 1, 1, 18_999, 0, 1);
    FewDoNotSkip(r.phase.stored, r.phase.first, r.phase.checkpoints);
    assert r.filled;
    assert b.tipAt(r.phase.asked[0]) == 20_500 && r.phase.checkpoints[0] == 20_479;
    OneCheckpoint(r.found.rows, r.reach, r.phase, r.left.rows, 20_000, 20_500, 1_000_000, 1);
  }

  lemma SecondRunFillsTheRest(b: BackfillMeta, r: BackfillRun)
    requires ShortChainOf(b) && b.Ran(r) && r.began > 0 && r.found.rows == Interval(501, 20_479)
    ensures r.ok && forall x :: x in r.left.rows <==> 1 <= x <= 20_479
  {
    hide Interval, Reached, Covers, LastCheck, AllGapless, Gapless, FrontPhase;
    IntervalFacts(501, 20_479);
    ShortPhaseReaches(b.tipAt, 20_500, 1, 1, 500, 0, r.began + 1);
    FewDoNotSkip(r.phase.stored, r.phase.first, r.phase.checkpoints);
    assert r.filled;
    assert b.tipAt(r.phase.asked[0]) == 20_500 && r.phase.checkpoints[0] == 20_479;
    OneCheckpoint(r.found.rows, r.reach, r.phase, r.left.rows, 20_500, 20_500, 1_000_000, 1);
  }

  /** One run: it succeeds without ledgers 1 to 500. */
  method StopsShort() returns (ok: bool, stored: set<int>)
    ensures ok && forall x :: x in stored <==> 501 <= x <= 20_479
    ensures Edge(20_500, 1_000_000, 1) == 1
  {
    hide BackfillMeta.Ran, BackfillMeta.Valid, ShortChainOf, Interval, Exact;
    var b := ShortChain();
    ghost var r;
    ok, r := b.RunBackfill();
    FirstRunStopsShort(b, r);
    stored := b.rows;
  }

  /** The two runs of a startup: the second stores the rest of the window. */
  method SecondRunCatchesUp() returns (ok: bool, stored: set<int>)
    ensures ok && forall x :: x in stored <==> 1 <= x <= 20_479
  {
    hide Exact, MinOf, MaxOf, Gapless, AllGapless, LeavesOut, NoneSkips, BackfillMeta.Ran,
      BackfillMeta.Valid, ShortChainOf;
    var b := ShortChain();
    ghost var runs;
    ok, runs := b.BackfillTwice();
    FirstRunStopsShort(b, runs[0]);
    assert runs[0].left.rows == Interval(501, 20_479);
    SecondRunFillsTheRest(b, runs[1]);
    stored := b.rows;
  }

  /**
   * A run that skips a ledger: ledgers 1 to 126 are stored, the tip is 150 for the first iteration and 200
   * for the second. Ledger 127 is the checkpoint of the first, which finds nothing else to fill; the second
   * fills 128 to 191. The last check refuses the run, and so does the first check of the next life.
   */
  method SkipsOneLedger() returns (ok: bool, stored: set<int>, later: set<int>)
    ensures !ok && later == stored
    ensures forall x :: x in stored <==> 1 <= x <= 191 && x != 127
  {
    hide BackfillMeta.Ran, Exact, AllGapless, GrownAbove, NoneSkips, Gapless;
    var b := new BackfillMeta(1000, 1, (t: nat) => if t <= 1 then 150 else 200, (t: nat) => false,
                              PrevCheckpoint, Interval(1, 126));
    EmptyCacheIsExact(b.rows);
    IntervalFacts(1, 126);
    ghost var r;
    ok, r := b.RunBackfill();
    SkippingRun(b, r);
    stored := b.rows;
    ghost var v := b.LiveOnce(Life(Latest, true, []), 1);
    later := b.rows;
  }

  lemma SkippingRun(b: BackfillMeta, r: BackfillRun)
    requires b.window == 1000 && b.dsFirst == 1 && b.prevCheckpoint == PrevCheckpoint && (forall t :: !b.faultAt(t))
    requires forall t :: b.tipAt(t) == if t <= 1 then 150 else 200
    requires b.Ran(r) && r.began == 0 && r.found.rows == Interval(1, 126)
    ensures !r.ok && !Gapless(r.left.rows) && forall x :: x in r.left.rows <==> 1 <= x <= 191 && x != 127
  {
    hide Interval, Reached, LastCheck, AllGapless, Gapless, FrontPhase;
    IntervalFacts(1, 126);
    assert r.filled;
    var cs := r.phase.checkpoints;
    assert r.phase.asked[0] == 1 && cs[0] == 127;
    assert b.tipAt(r.phase.asked[1]) == 200 && cs[1] == 191;
    assert cs == [127, 191];
    TwoCheckpoints(r.phase.stored, r.left.rows);
  }

  lemma TwoCheckpoints(r0: set<int>, rows: set<int>)
    requires r0 == Interval(1, 126) && rows == FrontPhase(r0, 127, [127, 191], 1000)
    ensures !Gapless(rows) && forall x :: x in rows <==> 1 <= x <= 191 && x != 127
  {
    OneMoreIteration(r0, 127, [127], 191, 1000);
    OneMoreIteration(r0, 127, [], 127, 1000);
    assert [127] + [191] == [127, 191] && [] + [127] == [127];
    assert rows == Trimmed(r0 + Interval(128, 191), 191, 1000);
    assert 1 in rows && 191 in rows && 127 !in rows;
  }

  lemma IntervalFacts(lo: int, hi: int)
    requires lo <= hi
    ensures Gapless(Interval(lo, hi)) && Interval(lo, hi) != {}
    ensures MinOf(Interval(lo, hi)) == lo && MaxOf(Interval(lo, hi)) == hi
  {
    assert lo in Interval(lo, hi) && hi in Interval(lo, hi);
  }

  /** What is stored after a backward phase and one checkpoint above the old maximum, without a trim. */
  lemma OneCheckpoint(r0: set<int>, reach: int, p: Phase, rows: set<int>, tip0: int, tip1: int, window: nat,
                      dsFirst: int)
    requires Covers(r0, reach, p, rows, tip0, tip1, window, dsFirst) && |p.checkpoints| == 1
    requires r0 != {} && Gapless(r0) && Edge(tip0, window, dsFirst) < MinOf(r0)
    requires MaxOf(r0) <= p.checkpoints[0] < window && p.checkpoints[0] != MaxOf(r0) + 1
    ensures forall x :: x in rows <==> reach <= x <= p.checkpoints[0]
  {
    var c := p.checkpoints[0];
    assert p.checkpoints == [] + [c];
    OneMoreIteration(p.stored, p.first, [], c, window);
    assert rows == FrontStep(p.stored, p.first, c, window);
    assert rows == r0 + Interval(reach, MinOf(r0) - 1) + Interval(p.first, c);
    assert MinOf(r0) in r0 && MaxOf(r0) in r0;
  }
}
