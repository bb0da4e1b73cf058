/**
 * What the backfill planner computes and what its phases do to the stored ledgers
 * (setBounds, runFrontfill and backfillChunks in cmd/stellar-rpc/internal/ingest/backfill.go).
 */
module BackfillPlan {
  import opened Words
  import opened LedgerSets
  import RangeCache
  import opened Wrappers

  const CHUNK_SIZE: u32 := 960
  const LEDGER_LIMIT: int := 0x8000_0000

  /** Bounds of the two phases; a pair of zeros is the empty range. */
  datatype FillBounds = FillBounds(
    backfillFirst: u32, backfillLast: u32, frontfillFirst: u32, frontfillLast: u32, nBackfill: u32)

  /** One committed chunk and the set of ledgers stored after it. */
  datatype Commit = Commit(lo: int, hi: int, after: set<int>)

  /**
   * A forward phase: the ledgers it started from, the first one it was to fill, and for each of its
   * iterations the checkpoint it filled up to and the tick at which it asked for the tip.
   */
  datatype Phase = Phase(stored: set<int>, first: int, checkpoints: seq<int>, asked: seq<nat>)

  /** The state of the database at some moment. */
  datatype Snapshot = Snapshot(rows: set<int>, commits: seq<Commit>, cache: RangeCache.Cache)

  /**
   * One run of both phases between two ticks: what it found and left, whether both phases were
   * completed, the lowest ledger it reached, its forward phase, the range that the last check looked
   * at, and whether it reported success.
   */
  datatype BackfillRun = BackfillRun(
    found: Snapshot, began: nat, left: Snapshot, ended: nat,
    filled: bool, reach: int, phase: Phase, checked: (int, int), ok: bool)

  predicate NeedBackfillPhase(b: FillBounds) {
    !(b.backfillFirst == 0 && b.backfillLast == 0)
  }

  /** The left edge of the retention window when the datastore tip is `tip`. */
  function Edge(tip: int, window: int, dsFirst: int): int {
    Max(tip - Min(window, tip) + 1, dsFirst)
  }

  /** setBounds with the source's uint32 arithmetic; `None` is its error. */
  function SetBounds(tip: u32, window: u32, dsFirst: u32, isNewDb: bool, minDb: u32, maxDb: u32): Option<FillBounds> {
    var nBackfill := Min(window, tip);
    var fillStartMin :=
      if tip >= Add32(nBackfill, 1) then Max(Add32(Sub32(tip, nBackfill), 1), dsFirst) else dsFirst;
    if isNewDb then
      Some(FillBounds(0, 0, fillStartMin, 0, nBackfill))
    else if minDb <= fillStartMin then
      Some(FillBounds(0, 0, Add32(maxDb, 1), 0, nBackfill))
    else if tip < minDb then
      None
    else
      Some(FillBounds(fillStartMin, Sub32(minDb, 1), Add32(maxDb, 1), 0, nBackfill))
  }

  /** No wrap-around: the bounds are those of integer arithmetic, and the error is exactly a tip below the database. */
  lemma SetBoundsExact(tip: u32, window: u32, dsFirst: u32, isNewDb: bool, minDb: u32, maxDb: u32)
    requires 1 <= tip < LEDGER_LIMIT && 1 <= window && 1 <= dsFirst < LEDGER_LIMIT
    requires !isNewDb ==> 1 <= minDb <= maxDb < LEDGER_LIMIT
    ensures var edge := Edge(tip, window, dsFirst);
            var r := SetBounds(tip, window, dsFirst, isNewDb, minDb, maxDb);
            && (r == None <==> !isNewDb && edge < minDb && tip < minDb)
            && (r != None ==>
                  && r.value.nBackfill == Min(window, tip)
                  && r.value.frontfillFirst == (if isNewDb then edge else maxDb + 1)
                  && (NeedBackfillPhase(r.value) <==> !isNewDb && edge < minDb)
                  && (NeedBackfillPhase(r.value) ==>
                        r.value.backfillFirst == edge && r.value.backfillLast == minDb - 1))
  {
  }

  /**
   * The bound that backfillChunks refreshes with a newer tip still uses the window size of the old
   * tip. It is the edge of the window at the new tip exactly when the chain was already at least as
   * long as the window, the tip has not moved, or the datastore starts above both.
   */
  lemma RefreshedBoundIsEdgeIff(tip: int, currentTip: int, window: int, dsFirst: int)
    requires 1 <= tip <= currentTip && 1 <= window && 1 <= dsFirst
    ensures Max(currentTip - Min(window, tip) + 1, dsFirst) == Edge(currentTip, window, dsFirst)
       <==> window <= tip || currentTip == tip || currentTip - tip + 1 <= dsFirst
  {
  }

  // ---------- what the forward phase does to the stored ledgers ----------

  /** One iteration of runFrontfill. */
  function FrontStep(rows: set<int>, first: int, last: int, window: nat): set<int> {
    if first < last then Trimmed(rows + Interval(first, last), last, window) else rows
  }

  /** The stored ledgers end right below `first`, or there are none. */
  ghost predicate EndsBelow(rows: set<int>, first: int) {
    && (forall x :: x in rows ==> x < first)
    && (rows != {} ==> first - 1 in rows)
  }

  /** The case in which the second iteration starts one ledger too far. */
  predicate SkipsLedger(rows: set<int>, first: int, c1: int, c2: int) {
    rows != {} && first == c1 && c1 + 1 < c2
  }

  /** A forward fill right above gapless ledgers leaves no hole at any chunk. */
  lemma FrontFillGapless(rows: set<int>, first: int, hi: int, window: nat)
    requires Gapless(rows) && EndsBelow(rows, first) && first <= hi
    ensures Gapless(Trimmed(rows + Interval(first, hi), hi, window))
    ensures 1 <= window ==> EndsBelow(Trimmed(rows + Interval(first, hi), hi, window), hi + 1)
  {
    ExtendGapless(rows, first, hi);
    TrimKeepsGapless(rows + Interval(first, hi), hi, window);
    assert hi in rows + Interval(first, hi);
  }

  /**
   * Two iterations of runFrontfill with checkpoints c1 and c2 leave a hole exactly when the first
   * found a single ledger to fill (which the code does not fill), the second filled beyond it, and
   * the ledgers below the skipped one were not all trimmed away.
   */
  lemma FrontfillGapIff(rows: set<int>, first: int, c1: int, c2: int, window: nat)
    requires 1 <= window && 1 <= first && Gapless(rows) && EndsBelow(rows, first)
    ensures var r1 := FrontStep(rows, first, c1, window);
            var next := Max(first, c1 + 1);
            Gapless(FrontStep(r1, next, c2, window))
            <==> !(SkipsLedger(rows, first, c1, c2) && c2 - first + 2 <= window)
  {
    var r1 := FrontStep(rows, first, c1, window);
    var next := Max(first, c1 + 1);
    var r2 := FrontStep(r1, next, c2, window);
    if first < c1 {
      FrontFillGapless(rows, first, c1, window);
    }
    if next < c2 {
      if first == c1 && rows != {} {
        SkippedLedger(rows, first, c2, window);
      } else if first == c1 {
        FrontFillGapless({}, next, c2, window);
      } else {
        FrontFillGapless(r1, next, c2, window);
      }
    }
  }

  lemma SkippedLedger(rows: set<int>, first: int, c2: int, window: nat)
    requires 1 <= window && 1 <= first && Gapless(rows) && EndsBelow(rows, first) && rows != {} && first + 1 < c2
    ensures Gapless(Trimmed(rows + Interval(first + 1, c2), c2, window)) <==> c2 - first + 2 > window
  {
    var r := Trimmed(rows + Interval(first + 1, c2), c2, window);
    assert first !in r && c2 in r;
    if c2 - first + 2 <= window {
      assert first - 1 in r;
    } else {
      assert forall x :: x in r <==> x in Interval(first + 1, c2) && x >= c2 + 1 - window;
    }
  }

  // ---------- the planner ----------

  /** Chunks from `hi` down to `lo`: adjacent, disjoint, at most CHUNK_SIZE ledgers each, nothing lost in between. */
  ghost predicate Descending(cs: seq<Commit>, base: set<int>, lo: int, hi: int) {
    && (forall k :: 0 <= k < |cs| ==>
          && lo <= cs[k].lo <= cs[k].hi <= hi && cs[k].hi - cs[k].lo + 1 <= CHUNK_SIZE
          && cs[k].after == base + Interval(cs[k].lo, hi))
    && (forall k :: 0 < k < |cs| ==> cs[k].hi == cs[k - 1].lo - 1)
    && (cs == [] ==> lo == hi + 1)
    && (cs != [] ==> cs[0].hi == hi && cs[|cs| - 1].lo == lo)
  }

  /** Chunks from `lo` up, each trimmed at its own end. */
  ghost predicate AscendingFrom(cs: seq<Commit>, base: set<int>, lo: int, hi: int, window: nat) {
    && (forall k :: 0 <= k < |cs| ==>
          && lo <= cs[k].lo <= cs[k].hi <= hi && cs[k].hi - cs[k].lo + 1 <= CHUNK_SIZE
          && cs[k].after == Trimmed(base + Interval(lo, cs[k].hi), cs[k].hi, window))
    && (forall k :: 0 < k < |cs| ==> cs[k].lo == cs[k - 1].hi + 1)
    && (cs != [] ==> cs[0].lo == lo)
  }

  ghost predicate AllGapless(cs: seq<Commit>) {
    forall k :: 0 <= k < |cs| ==> Gapless(cs[k].after)
  }

  lemma EmptyDescending(base: set<int>, hi: int)
    ensures Descending([], base, hi + 1, hi)
    ensures base == base + Interval(hi + 1, hi)
  {
  }

  lemma DescendingStep(cs: seq<Commit>, base: set<int>, hi: int, c: Commit)
    requires Descending(cs, base, c.hi + 1, hi)
    requires c.lo <= c.hi <= hi && c.hi - c.lo + 1 <= CHUNK_SIZE && c.after == base + Interval(c.lo, hi)
    ensures Descending(cs + [c], base, c.lo, hi)
  {
  }

  lemma AscendingStep(cs: seq<Commit>, base: set<int>, lo: int, hi: int, window: nat, c: Commit)
    requires AscendingFrom(cs, base, lo, c.lo - 1, window)
    requires lo <= c.lo <= c.hi <= hi && c.hi - c.lo + 1 <= CHUNK_SIZE
    requires cs == [] ==> c.lo == lo
    requires cs != [] ==> c.lo == cs[|cs| - 1].hi + 1
    requires c.after == Trimmed(base + Interval(lo, c.hi), c.hi, window)
    ensures AscendingFrom(cs + [c], base, lo, c.hi, window)
  {
  }

  lemma DescendingGapless(cs: seq<Commit>, base: set<int>, lo: int, hi: int)
    requires Descending(cs, base, lo, hi) && Gapless(base)
    requires hi + 1 in base && forall x :: x in base ==> hi < x
    ensures AllGapless(cs)
  {
    forall k | 0 <= k < |cs|
      ensures Gapless(cs[k].after)
    {
      ExtendGapless(base, cs[k].lo, hi);
    }
  }

  lemma AscendingGapless(cs: seq<Commit>, base: set<int>, lo: int, hi: int, window: nat)
    requires AscendingFrom(cs, base, lo, hi, window) && Gapless(base) && EndsBelow(base, lo)
    ensures AllGapless(cs)
  {
    forall k | 0 <= k < |cs|
      ensures Gapless(cs[k].after)
    {
      FrontFillGapless(base, lo, cs[k].hi, window);
    }
  }

  lemma NothingCommitted(cs: seq<Commit>)
    ensures AllGapless(cs[|cs|..])
  {
  }

  lemma AllGaplessConcat(a: seq<Commit>, b: seq<Commit>)
    ensures AllGapless(a) && AllGapless(b) ==> AllGapless(a + b)
  {
  }

  lemma EmptyAscending(base: set<int>, lo: int, window: nat)
    ensures AscendingFrom([], base, lo, lo - 1, window)
  {
  }

  lemma AscendingWiden(cs: seq<Commit>, base: set<int>, lo: int, hi: int, hi': int, window: nat)
    requires AscendingFrom(cs, base, lo, hi, window) && hi <= hi'
    ensures AscendingFrom(cs, base, lo, hi', window)
  {
  }

  /** The next ascending chunk collides with nothing, and trimming in steps is trimming once. */
  lemma NextChunkFits(rows: set<int>, base: set<int>, first: int, lo: int, hi: int, window: nat)
    requires first <= lo <= hi && forall x :: x in base ==> x < first
    requires rows == (if lo == first then base else Trimmed(base + Interval(first, lo - 1), lo - 1, window))
    ensures rows !! Interval(lo, hi)
    ensures Trimmed(rows + Interval(lo, hi), hi, window) == Trimmed(base + Interval(first, hi), hi, window)
  {
    if lo != first {
      TrimTwice(base + Interval(first, lo - 1), Interval(lo, hi), lo - 1, hi, window);
      assert base + Interval(first, lo - 1) + Interval(lo, hi) == base + Interval(first, hi);
    }
  }

  ghost predicate StartsAbove(rows: set<int>, last: int) {
    last + 1 in rows && forall x :: x in rows ==> last < x
  }

  ghost predicate EndsBelowAll(rows: set<int>, first: int) {
    forall x :: x in rows ==> x < first
  }

  lemma BelowAll(rows: set<int>, first: int)
    requires EndsBelow(rows, first)
    ensures EndsBelowAll(rows, first)
  {
  }

  lemma BackwardPhase(cs: seq<Commit>, r0: set<int>, a: int, last: int, first: int)
    requires Descending(cs, r0, a, last) && Gapless(r0) && StartsAbove(r0, last) && EndsBelow(r0, first)
    requires a <= last + 1
    ensures AllGapless(cs)
    ensures Gapless(r0 + Interval(a, last)) && EndsBelow(r0 + Interval(a, last), first)
  {
    DescendingGapless(cs, r0, a, last);
    if a <= last {
      ExtendGapless(r0, a, last);
    } else {
      assert r0 + Interval(a, last) == r0;
    }
  }

  // ---------- a forward phase ----------

  /** The first ledger to fill after iterations up to these checkpoints. */
  function NextFirst(first: int, cs: seq<int>): int
    decreases |cs|
  {
    if cs == [] then first else NextFirst(Max(first, cs[0] + 1), cs[1..])
  }

  /** The stored ledgers after iterations up to these checkpoints. */
  function FrontPhase(rows: set<int>, first: int, cs: seq<int>, window: nat): set<int>
    decreases |cs|
  {
    if cs == [] then rows
    else FrontPhase(FrontStep(rows, first, cs[0], window), Max(first, cs[0] + 1), cs[1..], window)
  }

  /** The second of two iterations starts one ledger too far. */
  predicate Skips(stored: set<int>, first: int, cs: seq<int>) {
    |cs| == 2 && SkipsLedger(stored, first, cs[0], cs[1])
  }

  lemma {:induction false} OneMoreIteration(rows: set<int>, first: int, cs: seq<int>, c: int, window: nat)
    ensures NextFirst(first, cs + [c]) == Max(NextFirst(first, cs), c + 1)
    ensures FrontPhase(rows, first, cs + [c], window)
         == FrontStep(FrontPhase(rows, first, cs, window), NextFirst(first, cs), c, window)
    decreases |cs|
  {
    if cs == [] {
      assert ([c])[1..] == [];
    } else {
      assert (cs + [c])[1..] == cs[1..] + [c];
      OneMoreIteration(FrontStep(rows, first, cs[0], window), Max(first, cs[0] + 1), cs[1..], c, window);
    }
  }

  /** After two iterations there is a hole exactly under the condition of FrontfillGapIff. */
  lemma TwoIterationsGapless(rows: set<int>, first: int, cs: seq<int>, window: nat)
    requires 1 <= window && 1 <= first && |cs| == 2 && Gapless(rows) && EndsBelow(rows, first)
    ensures Gapless(FrontPhase(rows, first, cs, window)) <==> !(Skips(rows, first, cs) && cs[1] - first + 2 <= window)
  {
    hide Gapless, EndsBelow, FrontStep;
    var r1, next := FrontStep(rows, first, cs[0], window), Max(first, cs[0] + 1);
    assert cs[1..][0] == cs[1] && cs[1..][1..] == [];
    assert FrontPhase(r1, next, cs[1..], window) == FrontStep(r1, next, cs[1], window);
    FrontfillGapIff(rows, first, cs[0], cs[1], window);
  }

  /** What one iteration finds: gapless ledgers, right below where it starts unless a ledger was skipped. */
  lemma BeforeIteration(stored: set<int>, first: int, cs: seq<int>, c: int, window: nat)
    requires 1 <= window && |cs| <= 1 && Gapless(stored) && EndsBelow(stored, first)
    ensures Gapless(FrontPhase(stored, first, cs, window))
    ensures NextFirst(first, cs) < c && !Skips(stored, first, cs + [c]) ==>
              EndsBelow(FrontPhase(stored, first, cs, window), NextFirst(first, cs))
  {
    if |cs| == 1 {
      assert cs[1..] == [];
      if first < cs[0] {
        FrontFillGapless(stored, first, cs[0], window);
      }
    }
  }

  /** One iteration commits gapless states only, unless it starts beyond a skipped ledger. */
  lemma IterationGapless(commits: seq<Commit>, stored: set<int>, first: int, cs: seq<int>, c: int,
                         rows: set<int>, window: nat)
    requires 1 <= window && |cs| <= 1 && Gapless(stored) && EndsBelow(stored, first)
    requires !Skips(stored, first, cs + [c])
    requires var r, f := FrontPhase(stored, first, cs, window), NextFirst(first, cs);
             && (f < c ==> AscendingFrom(commits, r, f, c, window))
             && (f >= c ==> commits == [])
             && rows == if commits == [] then r else commits[|commits| - 1].after
    ensures AllGapless(commits) && Gapless(rows)
  {
    hide Skips, FrontPhase, NextFirst, Gapless;
    BeforeIteration(stored, first, cs, c, window);
    if NextFirst(first, cs) < c {
      AscendingGapless(commits, FrontPhase(stored, first, cs, window), NextFirst(first, cs), c, window);
    }
  }

  lemma FewDoNotSkip(stored: set<int>, first: int, cs: seq<int>)
    requires |cs| <= 1
    ensures !Skips(stored, first, cs)
  {
  }

  /** The same for all commits of the phase so far. */
  lemma IterationKeeps(before: seq<Commit>, commits: seq<Commit>, stored: set<int>, first: int, cs: seq<int>, c: int,
                       rows: set<int>, window: nat)
    requires 1 <= window && |cs| <= 1 && EndsBelow(stored, first)
    requires Gapless(stored) && !Skips(stored, first, cs) ==> AllGapless(before)
    requires var r, f := FrontPhase(stored, first, cs, window), NextFirst(first, cs);
             && (f < c ==> AscendingFrom(commits, r, f, c, window))
             && (f >= c ==> commits == [])
             && rows == if commits == [] then r else commits[|commits| - 1].after
    ensures Gapless(stored) && !Skips(stored, first, cs + [c]) ==> AllGapless(before + commits) && Gapless(rows)
  {
    hide Gapless, EndsBelow, AllGapless, AscendingFrom, FrontPhase, NextFirst;
    if Gapless(stored) && !Skips(stored, first, cs + [c]) {
      IterationGapless(commits, stored, first, cs, c, rows, window);
      AllGaplessConcat(before, commits);
    }
  }

  // ---------- coverage ----------

  /** The highest ledger that is promised: the last checkpoint, or what was stored before. */
  function Top(first: int, cs: seq<int>): int
    requires cs != []
  {
    Max(cs[|cs| - 1], first - 1)
  }

  /** An iteration found one single ledger to fill, at or above lo: it does not fill it. */
  predicate LeavesOut(first: int, cs: seq<int>, lo: int)
    requires 1 <= |cs| <= 2
  {
    || (cs[0] == first && lo <= first <= Top(first, cs))
    || (|cs| == 2 && cs[1] == Max(first, cs[0] + 1) && lo <= cs[1])
  }

  lemma PhaseMembers(stored: set<int>, first: int, cs: seq<int>, window: nat, tip: int, x: int)
    requires 1 <= window && 1 <= |cs| <= 2 && (forall i :: 0 <= i < |cs| ==> cs[i] <= tip) && tip - window + 1 <= x
    ensures x in FrontPhase(stored, first, cs, window)
       <==> || x in stored
            || (first < cs[0] && first <= x <= cs[0])
            || (|cs| == 2 && Max(first, cs[0] + 1) < cs[1] && Max(first, cs[0] + 1) <= x <= cs[1])
  {
    var r1, next := FrontStep(stored, first, cs[0], window), Max(first, cs[0] + 1);
    assert x in r1 <==> x in stored || (first < cs[0] && first <= x <= cs[0]);
    if |cs| == 1 {
      assert cs[1..] == [];
    } else {
      var r2 := FrontStep(r1, next, cs[1], window);
      assert cs[1..][1..] == [];
      assert FrontPhase(r1, next, cs[1..], window) == r2;
      assert x in r2 <==> x in r1 || (next < cs[1] && next <= x <= cs[1]);
    }
  }

  /**
   * Coverage for any two checkpoints. Of a lower bound that no retention cutoff passes, everything up
   * to the top is stored exactly when the stored ledgers reach down to it and no iteration left out
   * the single ledger it found.
   */
  lemma CoverageIff(stored: set<int>, first: int, cs: seq<int>, window: nat, tip: int, reach: int, lo: int)
    requires 1 <= window && 1 <= |cs| <= 2 && (forall i :: 0 <= i < |cs| ==> cs[i] <= tip)
    requires EndsBelowAll(stored, first) && reach <= first
    requires Interval(reach, first - 1) <= stored && forall x :: x in stored ==> reach <= x
    requires tip - window + 1 <= lo <= Top(first, cs)
    ensures Interval(lo, Top(first, cs)) <= FrontPhase(stored, first, cs, window)
       <==> reach <= lo && !LeavesOut(first, cs, lo)
  {
    hide FrontPhase;
    var top, rows := Top(first, cs), FrontPhase(stored, first, cs, window);
    if lo < reach {
      PhaseMembers(stored, first, cs, window, tip, lo);
      assert lo in Interval(lo, top) && lo !in rows;
    } else if LeavesOut(first, cs, lo) {
      var x := if cs[0] == first && lo <= first <= top then first else cs[1];
      PhaseMembers(stored, first, cs, window, tip, x);
      assert x in Interval(lo, top) && x !in rows;
    } else {
      forall x | x in Interval(lo, top)
        ensures x in rows
      {
        PhaseMembers(stored, first, cs, window, tip, x);
        assert x < first ==> x in Interval(reach, first - 1);
      }
    }
  }

  /** The ledger below which a run cannot have filled: it starts there or stopped there. */
  ghost predicate Reaches(r0: set<int>, reach: int, stored: set<int>, first: int, edge: int) {
    && first == (if r0 == {} then edge else MaxOf(r0) + 1)
    && if r0 != {} && edge < MinOf(r0)
       then edge <= reach < MinOf(r0) && stored == r0 + Interval(reach, MinOf(r0) - 1)
       else stored == r0 && reach == if r0 == {} then first else MinOf(r0)
  }

  lemma ReachIsLeast(r0: set<int>, reach: int, stored: set<int>, first: int, edge: int)
    requires Gapless(r0) && Reaches(r0, reach, stored, first, edge)
    ensures EndsBelowAll(stored, first) && reach <= first
    ensures Interval(reach, first - 1) <= stored && forall x :: x in stored ==> reach <= x
  {
    if r0 != {} {
      assert MinOf(r0) in r0 && MaxOf(r0) in r0;
    }
  }

  /** The lowest ledger that is promised after a run that set its bounds at one tip and ended at another. */
  function PromisedFrom(tip0: int, tip1: int, window: int, dsFirst: int): int {
    Max(tip1 - Min(window, tip0) + 1, dsFirst)
  }

  /**
   * What a run of both phases covers, whatever the tip did from `tip0`, when the bounds were set, to
   * `tip1`. Everything from the promised ledger up is stored exactly when no iteration left out the
   * ledger it found; the window at the last tip is stored exactly when also the run reached its edge.
   */
  ghost predicate Covers(r0: set<int>, reach: int, p: Phase, rows: set<int>, tip0: int, tip1: int, window: nat,
                         dsFirst: int) {
    && Reaches(r0, reach, p.stored, p.first, Edge(tip0, window, dsFirst))
    && reach <= PromisedFrom(tip0, tip1, window, dsFirst)
    && 1 <= |p.checkpoints| <= 2 && rows == FrontPhase(p.stored, p.first, p.checkpoints, window)
    && var lo, edge := PromisedFrom(tip0, tip1, window, dsFirst), Edge(tip1, window, dsFirst);
       var top := Top(p.first, p.checkpoints);
       && (Interval(lo, top) <= rows <==> !LeavesOut(p.first, p.checkpoints, lo))
       && (edge <= top ==> (Interval(edge, top) <= rows <==> reach <= edge && !LeavesOut(p.first, p.checkpoints, edge)))
  }

  lemma CoverageForAnyTips(r0: set<int>, reach: int, p: Phase, rows: set<int>, tip0: int, tip1: int, window: int,
                           dsFirst: int)
    requires 1 <= window && 1 <= dsFirst && 1 <= tip0 <= tip1 && Gapless(r0)
    requires Reaches(r0, reach, p.stored, p.first, Edge(tip0, window, dsFirst))
    requires reach <= PromisedFrom(tip0, tip1, window, dsFirst)
    requires 1 <= |p.checkpoints| <= 2 && (forall i :: 0 <= i < |p.checkpoints| ==> p.checkpoints[i] <= tip1)
    requires rows == FrontPhase(p.stored, p.first, p.checkpoints, window)
    ensures Covers(r0, reach, p, rows, tip0, tip1, window, dsFirst)
  {
    hide FrontPhase, Gapless, Reaches, EndsBelowAll;
    ReachIsLeast(r0, reach, p.stored, p.first, Edge(tip0, window, dsFirst));
    var lo, edge := PromisedFrom(tip0, tip1, window, dsFirst), Edge(tip1, window, dsFirst);
    var top := Top(p.first, p.checkpoints);
    if lo <= top {
      CoverageIff(p.stored, p.first, p.checkpoints, window, tip1, reach, lo);
    }
    if edge <= top {
      CoverageIff(p.stored, p.first, p.checkpoints, window, tip1, reach, edge);
    }
  }

  /** When the promised ledger is the edge at the last tip, the whole window is what is covered. */
  lemma WindowIsCoveredWhen(r0: set<int>, reach: int, p: Phase, rows: set<int>, tip0: int, tip1: int, window: nat,
                            dsFirst: int)
    requires 1 <= window && 1 <= dsFirst && 1 <= tip0 <= tip1
    requires Covers(r0, reach, p, rows, tip0, tip1, window, dsFirst)
    requires window <= tip0 || tip1 == tip0 || tip1 - tip0 + 1 <= dsFirst
    ensures var edge, top := Edge(tip1, window, dsFirst), Top(p.first, p.checkpoints);
            Interval(edge, top) <= rows <==> !LeavesOut(p.first, p.checkpoints, edge)
  {
    RefreshedBoundIsEdgeIff(tip0, tip1, window, dsFirst);
  }

  // ---------- how far down the backward phase reaches ----------

  /**
   * The first ledger of the last chunk of backfillChunks: chunks go down from r, and after every
   * tenth but the first the left bound is computed anew from the tip at that tick.
   */
  ghost function Reached(tipAt: nat -> u32, nBackfill: int, dsFirst: int, lBound: int, r: int, i: nat,
                         tick: nat): (a: int)
    requires 1 <= dsFirst && 1 <= lBound <= r
    ensures a <= r
    decreases r
  {
    var l := Max(lBound, r - CHUNK_SIZE + 1);
    if l <= lBound then l
    else
      var refresh := i > 0 && i % 10 == 0;
      var lBound' := if refresh then Max(tipAt(tick + 1) - nBackfill + 1, dsFirst) else lBound;
      if l - 1 < lBound' then l
      else Reached(tipAt, nBackfill, dsFirst, lBound', l - 1, i + 1, if refresh then tick + 2 else tick + 1)
  }

  /** One chunk of it. */
  lemma ReachedStep(tipAt: nat -> u32, nBackfill: int, dsFirst: int, lBound: int, r: int, i: nat, tick: nat)
    requires 1 <= dsFirst && 1 <= lBound <= r
    ensures var l, a := Max(lBound, r - CHUNK_SIZE + 1), Reached(tipAt, nBackfill, dsFirst, lBound, r, i, tick);
            var lBound' := Max(tipAt(tick + 1) - nBackfill + 1, dsFirst);
            && (l <= lBound ==> a == l)
            && (l > lBound && !(i > 0 && i % 10 == 0) ==>
                  a == Reached(tipAt, nBackfill, dsFirst, lBound, l - 1, i + 1, tick + 1))
            && (l > lBound && i > 0 && i % 10 == 0 ==>
                  a == if l - 1 < lBound' then l
                       else Reached(tipAt, nBackfill, dsFirst, lBound', l - 1, i + 1, tick + 2))
  {
  }

  /** Chunks 0 to 10 all keep the first bound: a phase of at most eleven chunks reaches it. */
  lemma {:induction false} ShortPhaseReaches(tipAt: nat -> u32, nBackfill: int, dsFirst: int, lBound: int, r: int,
                                             i: nat, tick: nat)
    requires 1 <= dsFirst && 1 <= lBound <= r && i <= 10 && r - lBound + 1 <= (11 - i) * CHUNK_SIZE
    ensures Reached(tipAt, nBackfill, dsFirst, lBound, r, i, tick) == lBound
    decreases 10 - i
  {
    if r - CHUNK_SIZE + 1 > lBound {
      ShortPhaseReaches(tipAt, nBackfill, dsFirst, lBound, r - CHUNK_SIZE, i + 1, tick + 1);
    }
  }

  /** A bound that no refresh moves is reached. */
  lemma {:induction false} SteadyBoundIsReached(tipAt: nat -> u32, nBackfill: int, dsFirst: int, lBound: int, r: int,
                                                i: nat, tick: nat)
    requires 1 <= dsFirst && 1 <= lBound <= r
    requires forall t :: t > tick ==> Max(tipAt(t) - nBackfill + 1, dsFirst) == lBound
    ensures Reached(tipAt, nBackfill, dsFirst, lBound, r, i, tick) == lBound
    decreases r
  {
    if r - CHUNK_SIZE + 1 > lBound {
      var refresh := i > 0 && i % 10 == 0;
      SteadyBoundIsReached(tipAt, nBackfill, dsFirst, lBound, r - CHUNK_SIZE, i + 1,
                           if refresh then tick + 2 else tick + 1);
    }
  }

  /** A longer phase, when the tip does not move again after the first refresh. */
  lemma {:induction false} LongPhaseReaches(
      tipAt: nat -> u32, tip: u32, nBackfill: int, dsFirst: int, lBound: int, r: int, i: nat, tick: nat)
    requires 1 <= dsFirst && 1 <= lBound <= r && i <= 10 && r - lBound + 1 > (11 - i) * CHUNK_SIZE
    requires forall t :: t >= tick + 11 - i ==> tipAt(t) == tip
    ensures Reached(tipAt, nBackfill, dsFirst, lBound, r, i, tick)
         == Min(Max(tip - nBackfill + 1, dsFirst), r - (11 - i) * CHUNK_SIZE + 1)
    decreases 10 - i
  {
    if i < 10 {
      LongPhaseReaches(tipAt, tip, nBackfill, dsFirst, lBound, r - CHUNK_SIZE, i + 1, tick + 1);
    } else {
      var refreshed := Max(tip - nBackfill + 1, dsFirst);
      assert tipAt(tick + 1) == tip;
      if r - CHUNK_SIZE >= refreshed {
        SteadyBoundIsReached(tipAt, nBackfill, dsFirst, refreshed, r - CHUNK_SIZE, 11, tick + 2);
      }
    }
  }

  /**
   * Refresh j comes while the chunks are still above ledger e and sets the bound above e. It follows chunk
   * 10 * j, which starts at minDb - 960 * (10 * j + 1), and is tick 11 * j of the phase.
   */
  predicate RefreshPasses(tipAt: nat -> u32, nBackfill: int, dsFirst: int, minDb: int, tick: nat, e: int, j: nat) {
    && 0 < j && minDb - CHUNK_SIZE * (10 * j + 1) > e
    && Max(tipAt(tick + 11 * j) - nBackfill + 1, dsFirst) > e
  }

  /** Some refresh after the first k cuts the backward phase short of ledger e. */
  ghost predicate CutShortAfter(
      tipAt: nat -> u32, nBackfill: int, dsFirst: int, minDb: int, tick: nat, e: int, k: nat)
  {
    exists j: nat :: j > k && RefreshPasses(tipAt, nBackfill, dsFirst, minDb, tick, e, j)
  }

  /** Some refresh cuts it short. */
  ghost predicate CutShort(tipAt: nat -> u32, nBackfill: int, dsFirst: int, minDb: int, tick: nat, e: int) {
    CutShortAfter(tipAt, nBackfill, dsFirst, minDb, tick, e, 0)
  }

  ghost predicate NeverFalls(tipAt: nat -> u32) {
    forall s, t | s <= t :: tipAt(s) <= tipAt(t)
  }

  lemma LaterIsHigher(tipAt: nat -> u32, s: nat, t: nat)
    requires NeverFalls(tipAt) && s <= t
    ensures tipAt(s) <= tipAt(t)
  {
  }

  /** The bound never falls, so the phase never goes below a bound it has had. */
  lemma {:induction false} BoundIsNeverUndershot(
      tipAt: nat -> u32, nBackfill: int, dsFirst: int, lBound: int, r: int, i: nat, tick: nat)
    requires 1 <= dsFirst && 1 <= lBound <= r && NeverFalls(tipAt)
    requires lBound <= Max(tipAt(tick) - nBackfill + 1, dsFirst)
    ensures lBound <= Reached(tipAt, nBackfill, dsFirst, lBound, r, i, tick)
    decreases r
  {
    hide NeverFalls;
    var l := Max(lBound, r - CHUNK_SIZE + 1);
    var refresh := i > 0 && i % 10 == 0;
    var lBound' := if refresh then Max(tipAt(tick + 1) - nBackfill + 1, dsFirst) else lBound;
    var tick' := if refresh then tick + 2 else tick + 1;
    LaterIsHigher(tipAt, tick, tick + 1);
    LaterIsHigher(tipAt, tick + 1, tick');
    if l > lBound && l - 1 >= lBound' {
      BoundIsNeverUndershot(tipAt, nBackfill, dsFirst, lBound', l - 1, i + 1, tick');
    }
  }

  lemma NextRefresh(tipAt: nat -> u32, nBackfill: int, dsFirst: int, minDb: int, tick: nat, e: int, k: nat)
    ensures CutShortAfter(tipAt, nBackfill, dsFirst, minDb, tick, e, k)
       <==> || RefreshPasses(tipAt, nBackfill, dsFirst, minDb, tick, e, k + 1)
            || CutShortAfter(tipAt, nBackfill, dsFirst, minDb, tick, e, k + 1)
  {
    hide RefreshPasses;
    if j: nat :| j > k && RefreshPasses(tipAt, nBackfill, dsFirst, minDb, tick, e, j) {
      assert j == k + 1 || j > k + 1;
    }
  }

  /** Once the chunks are down to e no refresh matters. */
  lemma NoLaterRefresh(tipAt: nat -> u32, nBackfill: int, dsFirst: int, minDb: int, tick: nat, e: int, k: nat)
    requires minDb - CHUNK_SIZE * (10 * (k + 1) + 1) <= e
    ensures !CutShortAfter(tipAt, nBackfill, dsFirst, minDb, tick, e, k)
  {
  }

  /**
   * From chunk i on, when the first k refreshes have left the bound at or below e: the phase stops
   * above e exactly when one of the later refreshes cuts it short.
   */
  lemma {:induction false} StopsAboveFrom(tipAt: nat -> u32, nBackfill: int, dsFirst: int, minDb: int, tick: nat,
                                          e: int, lBound: int, i: nat, k: nat)
    requires 1 <= dsFirst && NeverFalls(tipAt) && i <= 10 * k + 10 && (k == 0 || 10 * k < i)
    requires 1 <= lBound <= e && lBound <= minDb - 1 - CHUNK_SIZE * i
    requires lBound <= Max(tipAt(tick + i + k) - nBackfill + 1, dsFirst)
    ensures Reached(tipAt, nBackfill, dsFirst, lBound, minDb - 1 - CHUNK_SIZE * i, i, tick + i + k) > e
       <==> CutShortAfter(tipAt, nBackfill, dsFirst, minDb, tick, e, k)
    decreases minDb - CHUNK_SIZE * i
  {
    hide Reached, RefreshPasses, CutShortAfter, NeverFalls;
    var r, now := minDb - 1 - CHUNK_SIZE * i, tick + i + k;
    ReachedStep(tipAt, nBackfill, dsFirst, lBound, r, i, now);
    if r - CHUNK_SIZE + 1 <= lBound {
      NoLaterRefresh(tipAt, nBackfill, dsFirst, minDb, tick, e, k);
    } else if i != 10 * k + 10 {
      NotYetRefreshed(i, k);
      LaterIsHigher(tipAt, now, now + 1);
      StopsAboveFrom(tipAt, nBackfill, dsFirst, minDb, tick, e, lBound, i + 1, k);
    } else {
      RefreshedStopsAbove(tipAt, nBackfill, dsFirst, minDb, tick, e, lBound, k);
      var refreshed := Max(tipAt(now + 1) - nBackfill + 1, dsFirst);
      if r - CHUNK_SIZE >= refreshed && refreshed <= e {
        LaterIsHigher(tipAt, now + 1, now + 2);
        StopsAboveFrom(tipAt, nBackfill, dsFirst, minDb, tick, e, refreshed, i + 1, k + 1);
      }
    }
  }

  /** A refresh that ends the phase or sets the bound above e, or else leaves it to the later ones. */
  lemma RefreshedStopsAbove(tipAt: nat -> u32, nBackfill: int, dsFirst: int, minDb: int, tick: nat,
                            e: int, lBound: int, k: nat)
    requires 1 <= dsFirst && NeverFalls(tipAt) && 1 <= lBound <= e
    requires lBound < minDb - CHUNK_SIZE * (10 * k + 11)
    ensures var i, now := 10 * k + 10, tick + 11 * k + 10;
            var l, refreshed := minDb - CHUNK_SIZE * (i + 1), Max(tipAt(now + 1) - nBackfill + 1, dsFirst);
            var stopsAbove := Reached(tipAt, nBackfill, dsFirst, lBound, l - 1 + CHUNK_SIZE, i, now) > e;
            var cut := CutShortAfter(tipAt, nBackfill, dsFirst, minDb, tick, e, k);
            if l - 1 >= refreshed && refreshed <= e
            then cut == CutShortAfter(tipAt, nBackfill, dsFirst, minDb, tick, e, k + 1)
            else stopsAbove == cut
  {
    hide Reached, CutShortAfter, NeverFalls;
    var i, now := 10 * k + 10, tick + 11 * k + 10;
    var l, refreshed := minDb - CHUNK_SIZE * (i + 1), Max(tipAt(now + 1) - nBackfill + 1, dsFirst);
    ReachedStep(tipAt, nBackfill, dsFirst, lBound, l - 1 + CHUNK_SIZE, i, now);
    assert now + 1 == tick + 11 * (k + 1);
    NextRefresh(tipAt, nBackfill, dsFirst, minDb, tick, e, k);
    if l <= e {
      NoLaterRefresh(tipAt, nBackfill, dsFirst, minDb, tick, e, k);
    }
    if l - 1 >= refreshed {
      LaterIsHigher(tipAt, now + 1, now + 2);
      BoundIsNeverUndershot(tipAt, nBackfill, dsFirst, refreshed, l - 1, i + 1, now + 2);
    }
  }

  lemma NotYetRefreshed(i: nat, k: nat)
    requires i < 10 * k + 10 && (k == 0 || 10 * k < i)
    ensures !(i > 0 && i % 10 == 0)
  {
  }

  /**
   * For every history of the tip: the backward phase stops above a ledger e at or above its first bound
   * exactly when some refresh cuts it short of e, which takes more than eleven chunks.
   */
  lemma StopsAboveIff(tipAt: nat -> u32, tip: u32, window: int, dsFirst: int, minDb: int, tick: nat, e: int)
    requires 1 <= window && 1 <= dsFirst && 1 <= tip <= tipAt(tick) && NeverFalls(tipAt)
    requires Edge(tip, window, dsFirst) < minDb && Edge(tip, window, dsFirst) <= e
    ensures var n, edge := Min(window, tip), Edge(tip, window, dsFirst);
            Reached(tipAt, n, dsFirst, edge, minDb - 1, 0, tick) > e <==> CutShort(tipAt, n, dsFirst, minDb, tick, e)
    ensures minDb - e <= 11 * CHUNK_SIZE ==> !CutShort(tipAt, Min(window, tip), dsFirst, minDb, tick, e)
  {
    hide Reached, NeverFalls, CutShortAfter;
    StopsAboveFrom(tipAt, Min(window, tip), dsFirst, minDb, tick, e, Edge(tip, window, dsFirst), 0, 0);
    if minDb - e <= 11 * CHUNK_SIZE {
      NoLaterRefresh(tipAt, Min(window, tip), dsFirst, minDb, tick, e, 0);
    }
  }

  lemma EdgeRises(tip0: int, tip1: int, window: int, dsFirst: int)
    requires 1 <= window && tip0 <= tip1
    ensures Edge(tip0, window, dsFirst) <= Edge(tip1, window, dsFirst)
  {
  }

  /** A run without a backward phase had nothing below the edge to fill. */
  lemma ReachesEdge(r0: set<int>, reach: int, stored: set<int>, first: int, edge0: int, edge1: int)
    requires Reaches(r0, reach, stored, first, edge0) && edge0 <= edge1 && !(r0 != {} && edge0 < MinOf(r0))
    ensures reach <= edge1
  {
  }

  // ---------- what the cache reports of the stored ledgers ----------

  /** Whatever is cached is the number of some stored ledger, the two ends in order. */
  predicate Plausible(c: RangeCache.Cache, rows: set<int>) {
    && (c.latest.seqNo != 0 ==> c.latest.seqNo in rows)
    && (c.first.seqNo != 0 ==> c.first.seqNo in rows && c.latest.seqNo != 0 && c.first.seqNo <= c.latest.seqNo)
  }

  /** Whatever is cached is an end of the stored ledgers: RangeCache.Agrees without the close times. */
  predicate Exact(c: RangeCache.Cache, rows: set<int>) {
    && (c.latest.seqNo != 0 ==> rows != {} && c.latest.seqNo == MaxOf(rows))
    && (c.first.seqNo != 0 ==> rows != {} && c.first.seqNo == MinOf(rows) && c.latest.seqNo != 0)
  }

  /** With the right close times it is agreement with the table. */
  lemma ExactIsAgreement(c: RangeCache.Cache, t: RangeCache.Table)
    requires c.first.seqNo != 0 ==> c.latest.seqNo != 0
    ensures RangeCache.Agrees(c, t)
       <==> && Exact(c, t.Keys)
            && (c.latest.seqNo != 0 ==> c.latest.closeTime == t[c.latest.seqNo])
            && (c.first.seqNo != 0 ==> c.first.closeTime == t[c.first.seqNo])
  {
  }

  function ReportedFirst(c: RangeCache.Cache, rows: set<int>): int
    requires rows != {}
  {
    if c.first.seqNo != 0 then c.first.seqNo else MinOf(rows)
  }

  function ReportedLast(c: RangeCache.Cache, rows: set<int>): int
    requires rows != {}
  {
    if c.latest.seqNo != 0 then c.latest.seqNo else MaxOf(rows)
  }

  lemma EmptyCacheIsExact(rows: set<int>)
    ensures Exact(RangeCache.EMPTY_CACHE, rows) && Plausible(RangeCache.EMPTY_CACHE, rows)
  {
  }

  /**
   * The gap check on the reported range never raises a false alarm, and it decides gaplessness
   * whenever the cache is exact.
   */
  lemma CheckOfReportedRange(c: RangeCache.Cache, rows: set<int>)
    requires rows != {} && Plausible(c, rows)
    ensures ReportedFirst(c, rows) <= ReportedLast(c, rows)
    ensures Gapless(rows) ==> Interval(ReportedFirst(c, rows), ReportedLast(c, rows)) <= rows
    ensures Exact(c, rows) ==> (Interval(ReportedFirst(c, rows), ReportedLast(c, rows)) <= rows <==> Gapless(rows))
  {
  }

  /** After commits above everything: the latest is the last of them, a memoized oldest is kept while stored. */
  ghost predicate RaisedTo(before: RangeCache.Cache, c: RangeCache.Cache, rows: set<int>) {
    && rows != {} && c.latest.seqNo == MaxOf(rows)
    && c.first.seqNo == (if before.first.seqNo in rows then before.first.seqNo else 0)
  }

  /** After commits below everything: the latest is the top of them if there was none. */
  predicate Lowered(before: RangeCache.Cache, c: RangeCache.Cache, top: int) {
    && c.first == before.first
    && c.latest.seqNo == (if before.latest.seqNo == 0 then top else before.latest.seqNo)
  }

  lemma CommitIsPlausible(c: RangeCache.Cache, rows: set<int>, lo: int, hi: RangeCache.Ledger, window: nat)
    requires 1 <= window && 1 <= lo <= hi && Plausible(c, rows)
    ensures Plausible(RangeCache.CacheAfterCommit(c, hi, 0, window), Trimmed(rows + Interval(lo, hi), hi, window))
  {
  }

  /** Commits above everything keep the cache exact. */
  lemma RaisedIsExact(c: RangeCache.Cache, rows: set<int>, c': RangeCache.Cache, rows': set<int>, first: int)
    requires Exact(c, rows) && RaisedTo(c, c', rows') && EndsBelowAll(rows, first)
    requires 0 !in rows' && forall x :: x in rows' ==> x in rows || x >= first
    ensures Exact(c', rows')
  {
  }

  lemma CommitAbove(c: RangeCache.Cache, rows: set<int>, lo: int, hi: RangeCache.Ledger, window: nat)
    requires 1 <= window && 1 <= lo <= hi && Plausible(c, rows) && forall x :: x in rows ==> 1 <= x < lo
    ensures var c' := RangeCache.CacheAfterCommit(c, hi, 0, window);
            var rows' := Trimmed(rows + Interval(lo, hi), hi, window);
            RaisedTo(c, c', rows') && Plausible(c', rows') && (Exact(c, rows) ==> Exact(c', rows'))
  {
    var rows' := Trimmed(rows + Interval(lo, hi), hi, window);
    assert hi in rows' && forall x :: x in rows' ==> x <= hi;
    if Exact(c, rows) && c.first.seqNo in rows' {
      assert forall x :: x in rows' ==> c.first.seqNo <= x;
    }
  }

  lemma RaisedTwice(c0: RangeCache.Cache, c1: RangeCache.Cache, c2: RangeCache.Cache, rows1: set<int>, rows2: set<int>,
                    lo: int)
    requires RaisedTo(c0, c1, rows1) && RaisedTo(c1, c2, rows2) && c0.first.seqNo < lo
    requires 0 !in rows2 && forall x :: x in rows2 && x < lo ==> x in rows1
    ensures RaisedTo(c0, c2, rows2)
  {
  }

  /** Two stretches of commits above everything, either of them perhaps empty, are one. */
  lemma RaisedOrKept(c0: RangeCache.Cache, c1: RangeCache.Cache, c2: RangeCache.Cache, r0: set<int>, r1: set<int>,
                     r2: set<int>, first: int, from: int, none1: bool, none2: bool)
    requires Plausible(c0, r0) && EndsBelowAll(r0, first) && 1 <= first <= from
    requires if none1 then c1 == c0 else RaisedTo(c0, c1, r1)
    requires if none2 then c2 == c1 && r2 == r1 else RaisedTo(c1, c2, r2)
    requires 0 !in r2 && forall x :: x in r2 && x < from ==> x in r1
    ensures if none1 && none2 then c2 == c0 else RaisedTo(c0, c2, r2)
  {
    hide Plausible, EndsBelowAll, RaisedTo;
    FirstBelow(c0, r0, first);
    if !none1 && !none2 {
      RaisedTwice(c0, c1, c2, r1, r2, from);
    }
  }

  lemma CommitBelow(c: RangeCache.Cache, rows: set<int>, lo: int, hi: RangeCache.Ledger, window: nat)
    requires 1 <= window && 1 <= lo <= hi && Plausible(c, rows)
    requires rows + Interval(lo, hi) == Trimmed(rows + Interval(lo, hi), hi, window)
    requires c.latest.seqNo != 0 ==> hi <= c.latest.seqNo
    ensures var c' := RangeCache.CacheAfterCommit(c, hi, 0, window);
            Lowered(c, c', hi) && Plausible(c', rows + Interval(lo, hi))
  {
    if hi + 1 > window && c.first.seqNo != 0 {
      assert c.first.seqNo in Trimmed(rows + Interval(lo, hi), hi, window);
    }
  }

  lemma LoweredAgain(c0: RangeCache.Cache, c1: RangeCache.Cache, c2: RangeCache.Cache, top: int, hi: int, start: bool)
    requires 1 <= hi <= top && Lowered(c1, c2, hi) && (c1.latest.seqNo != 0 ==> hi <= c1.latest.seqNo)
    requires if start then c1 == c0 && hi == top else Lowered(c0, c1, top)
    ensures Lowered(c0, c2, top) && hi <= c2.latest.seqNo
  {
  }

  lemma FirstBelow(c: RangeCache.Cache, rows: set<int>, first: int)
    requires Plausible(c, rows) && EndsBelowAll(rows, first) && 1 <= first
    ensures c.first.seqNo < first
  {
  }

  lemma ChunkMembers(rows: set<int>, lo: int, hi: int, window: nat)
    requires EndsBelowAll(rows, lo) && lo <= hi
    ensures EndsBelowAll(Trimmed(rows + Interval(lo, hi), hi, window), hi + 1)
    ensures forall x :: x in Trimmed(rows + Interval(lo, hi), hi, window) ==> x in rows || lo <= x
  {
  }

  // ---------- a backward phase under way ----------

  /** What the chunks down to ledger a have made of the ledgers, commits and cache they found. */
  ghost predicate BackwardKept(base: set<int>, before: seq<Commit>, c0: RangeCache.Cache, top: int,
                               commits: seq<Commit>, cache: RangeCache.Cache, rows: set<int>, a: int)
  {
    && a <= top + 1 && rows == base + Interval(a, top)
    && |before| <= |commits| && commits[..|before|] == before
    && Descending(commits[|before|..], base, a, top)
    && (if a == top + 1 then cache == c0 else Lowered(c0, cache, top))
    && (cache.latest.seqNo != 0 ==> a - 1 <= cache.latest.seqNo)
  }

  lemma BackwardBegins(base: set<int>, commits: seq<Commit>, cache: RangeCache.Cache, top: int)
    requires Plausible(cache, base) && forall x :: x in base ==> top < x
    ensures BackwardKept(base, commits, cache, top, commits, cache, base, top + 1)
  {
    EmptyDescending(base, top);
    assert commits[|commits|..] == [];
  }

  lemma BackwardGoesOn(base: set<int>, before: seq<Commit>, c0: RangeCache.Cache, top: int,
                       commits1: seq<Commit>, cache1: RangeCache.Cache, rows1: set<int>, a: int,
                       commits2: seq<Commit>, cache2: RangeCache.Cache, rows2: set<int>, l: int)
    requires BackwardKept(base, before, c0, top, commits1, cache1, rows1, a)
    requires 1 <= l < a && a - l <= CHUNK_SIZE && rows2 == base + Interval(l, top)
    requires commits2 == commits1 + [Commit(l, a - 1, rows2)] && Lowered(cache1, cache2, a - 1)
    ensures BackwardKept(base, before, c0, top, commits2, cache2, rows2, l)
  {
    hide Descending, Lowered, Interval;
    assert commits2[|before|..] == commits1[|before|..] + [Commit(l, a - 1, rows2)];
    DescendingStep(commits1[|before|..], base, top, Commit(l, a - 1, rows2));
    LoweredAgain(c0, cache1, cache2, top, a - 1, a == top + 1);
  }

  lemma BackwardStands(base: set<int>, before: seq<Commit>, c0: RangeCache.Cache, top: int,
                       commits: seq<Commit>, cache: RangeCache.Cache, rows: set<int>, a: int)
    requires BackwardKept(base, before, c0, top, commits, cache, rows, a)
    ensures a <= top + 1 && rows == base + Interval(a, top) && (cache.latest.seqNo != 0 ==> a - 1 <= cache.latest.seqNo)
  {
  }

  // ---------- a forward phase under way ----------

  /** What the chunks from `first` up to ledger `done` have made of the ledgers, commits and cache they found. */
  ghost predicate ForwardKept(base: set<int>, before: seq<Commit>, c0: RangeCache.Cache, first: int, window: nat,
                              commits: seq<Commit>, cache: RangeCache.Cache, rows: set<int>, done: int)
  {
    && first <= done + 1 && |before| <= |commits| && commits[..|before|] == before
    && AscendingFrom(commits[|before|..], base, first, done, window)
    && EndsBelowAll(rows, done + 1) && (forall x :: x in rows ==> x in base || x >= first)
    && if done + 1 == first then rows == base && commits == before && cache == c0
       else && |before| < |commits| && commits[|commits| - 1].hi == done && rows == commits[|commits| - 1].after
            && rows == Trimmed(base + Interval(first, done), done, window) && RaisedTo(c0, cache, rows)
  }

  lemma ForwardBegins(base: set<int>, commits: seq<Commit>, cache: RangeCache.Cache, first: int, window: nat)
    requires EndsBelowAll(base, first)
    ensures ForwardKept(base, commits, cache, first, window, commits, cache, base, first - 1)
  {
    EmptyAscending(base, first, window);
    assert commits[|commits|..] == [];
  }

  lemma ForwardGoesOn(base: set<int>, before: seq<Commit>, c0: RangeCache.Cache, first: int, window: nat,
                      commits1: seq<Commit>, cache1: RangeCache.Cache, rows1: set<int>, done: int,
                      commits2: seq<Commit>, cache2: RangeCache.Cache, rows2: set<int>, hi: int)
    requires ForwardKept(base, before, c0, first, window, commits1, cache1, rows1, done)
    requires Plausible(c0, base) && EndsBelowAll(base, first) && 1 <= first
    requires done < hi <= done + CHUNK_SIZE && rows2 == Trimmed(base + Interval(first, hi), hi, window)
    requires commits2 == commits1 + [Commit(done + 1, hi, rows2)] && RaisedTo(cache1, cache2, rows2)
    requires EndsBelowAll(rows2, hi + 1) && 0 !in rows2
    requires forall x :: x in rows2 ==> (x in base || x >= first) && (x in rows1 || x > done)
    ensures ForwardKept(base, before, c0, first, window, commits2, cache2, rows2, hi)
  {
    hide AscendingFrom, Interval, Trimmed, Plausible, RaisedTo, EndsBelowAll;
    var n := |before|;
    assert commits2[n..] == commits1[n..] + [Commit(done + 1, hi, rows2)];
    AscendingStep(commits1[n..], base, first, hi, window, Commit(done + 1, hi, rows2));
    if done + 1 != first {
      FirstBelow(c0, base, first);
      RaisedTwice(c0, cache1, cache2, rows1, rows2, done + 1);
    }
  }

  lemma ForwardStands(base: set<int>, before: seq<Commit>, c0: RangeCache.Cache, first: int, window: nat,
                      commits: seq<Commit>, cache: RangeCache.Cache, rows: set<int>, done: int, last: int)
    requires ForwardKept(base, before, c0, first, window, commits, cache, rows, done) && done <= last
    ensures |before| <= |commits| && commits[..|before|] == before
    ensures AscendingFrom(commits[|before|..], base, first, last, window)
    ensures EndsBelowAll(rows, done + 1) && forall x :: x in rows ==> x in base || x >= first
    ensures rows == if done + 1 == first then base else Trimmed(base + Interval(first, done), done, window)
    ensures commits == before <==> done + 1 == first
    ensures commits == before ==> rows == base && cache == c0
    ensures commits != before ==> rows == commits[|commits| - 1].after && RaisedTo(c0, cache, rows)
  {
    hide AscendingFrom, Interval, Trimmed, RaisedTo, EndsBelowAll;
    AscendingWiden(commits[|before|..], base, first, done, last, window);
  }

  /** What a forward phase has kept so far, from the ledgers r0, commits and cache that it found. */
  ghost predicate PhaseKept(r0: set<int>, first: int, before: seq<Commit>, c0: RangeCache.Cache,
                            cs: seq<int>, commits: seq<Commit>, cache: RangeCache.Cache, rows: set<int>)
  {
    && |before| <= |commits| && commits[..|before|] == before
    && (forall x :: x in rows ==> x in r0 || x >= first)
    && (if commits == before then cache == c0 && rows == r0 else RaisedTo(c0, cache, rows))
    && (Gapless(r0) && !Skips(r0, first, cs) ==> AllGapless(commits[|before|..]) && Gapless(rows))
  }

  /** Where a forward phase stands between two iterations. */
  ghost predicate PhaseAt(r0: set<int>, first: int, cs: seq<int>, rows: set<int>, next: int, window: nat) {
    && rows == FrontPhase(r0, first, cs, window) && next == NextFirst(first, cs)
    && first <= next && EndsBelowAll(rows, next)
  }

  lemma PhaseBegins(rows: set<int>, first: int, commits: seq<Commit>, cache: RangeCache.Cache, window: nat)
    requires EndsBelow(rows, first)
    ensures PhaseKept(rows, first, commits, cache, [], commits, cache, rows)
    ensures PhaseAt(rows, first, [], rows, first, window)
  {
    NothingCommitted(commits);
  }

  lemma PhaseStart(r0: set<int>, first: int, cs: seq<int>, rows: set<int>, next: int, window: nat)
    requires PhaseAt(r0, first, cs, rows, next, window)
    ensures EndsBelowAll(rows, next) && first <= next && (cs == [] ==> next == first)
  {
  }

  lemma PhaseAdvances(r0: set<int>, first: int, cs: seq<int>, rows: set<int>, from: int, window: nat, c: int,
                      rows': set<int>)
    requires PhaseAt(r0, first, cs, rows, from, window)
    requires rows' == FrontStep(rows, from, c, window) && EndsBelowAll(rows', Max(from, c + 1))
    ensures PhaseAt(r0, first, cs + [c], rows', Max(from, c + 1), window)
  {
    OneMoreIteration(r0, first, cs, c, window);
  }

  lemma PhaseStands(r0: set<int>, first: int, cs: seq<int>, rows: set<int>, next: int, window: nat)
    requires PhaseAt(r0, first, cs, rows, next, window)
    ensures rows == FrontPhase(r0, first, cs, window)
  {
  }

  /** One more iteration (or none, when the datastore gave no tip) keeps it. */
  lemma PhaseGoesOn(
      r0: set<int>, first: int, before: seq<Commit>, c0: RangeCache.Cache, cs: seq<int>,
      commits1: seq<Commit>, cache1: RangeCache.Cache, rows1: set<int>, more: seq<int>,
      commits2: seq<Commit>, cache2: RangeCache.Cache, rows2: set<int>, from: int, window: nat)
    requires PhaseKept(r0, first, before, c0, cs, commits1, cache1, rows1)
    requires PhaseAt(r0, first, cs, rows1, from, window)
    requires EndsBelow(r0, first) && Plausible(c0, r0) && 1 <= first && 1 <= window && |cs| <= 1 && |more| <= 1
    requires |commits1| <= |commits2| && commits2[..|commits1|] == commits1 && 0 !in rows2
    requires more == [] || from >= more[0] ==> commits2 == commits1 && rows2 == rows1
    requires more != [] && from < more[0] ==>
               && AscendingFrom(commits2[|commits1|..], rows1, from, more[0], window)
               && rows2 == if commits2 == commits1 then rows1 else commits2[|commits2| - 1].after
    requires forall x :: x in rows2 ==> x in rows1 || x >= from
    requires if commits2 == commits1 then cache2 == cache1 else RaisedTo(cache1, cache2, rows2)
    ensures PhaseKept(r0, first, before, c0, cs + more, commits2, cache2, rows2)
  {
    hide Gapless, EndsBelow, EndsBelowAll, AllGapless, AscendingFrom, FrontPhase, NextFirst, Skips, RaisedTo, Plausible;
    BelowAll(r0, first);
    FewDoNotSkip(r0, first, cs);
    RaisedOrKept(c0, cache1, cache2, r0, rows1, rows2, first, from, commits1 == before, commits2 == commits1);
    assert commits2[|before|..] == commits1[|before|..] + commits2[|commits1|..];
    if more == [] {
      assert cs + more == cs;
    } else {
      assert more == [more[0]];
      IterationKeeps(commits1[|before|..], commits2[|commits1|..], r0, first, cs, more[0], rows2, window);
    }
  }

  // ---------- evidence ----------

  /** A state that was stored after one of the commits from number `from` on. */
  ghost predicate Seen(cs: seq<Commit>, from: nat, r: set<int>) {
    exists k :: from <= k < |cs| && cs[k].after == r
  }

  lemma LastIsSeen(cs: seq<Commit>, from: nat)
    requires from < |cs|
    ensures Seen(cs, from, cs[|cs| - 1].after)
  {
  }

  lemma StillSeen(cs: seq<Commit>, more: seq<Commit>, from: nat, r: set<int>)
    requires Seen(cs, from, r) && cs <= more
    ensures Seen(more, from, r)
  {
    var k :| from <= k < |cs| && cs[k].after == r;
    assert more[k].after == r;
  }

  lemma StoredEnds(rows: set<int>, first: int)
    ensures rows != {} && first == MaxOf(rows) + 1 ==> EndsBelow(rows, first)
    ensures rows == {} ==> EndsBelow(rows, first)
    ensures rows != {} ==> StartsAbove(rows, MinOf(rows) - 1)
  {
  }

  lemma OneLedger(rows: set<int>, next: int, window: nat)
    requires EndsBelow(rows, next) && 1 <= window
    ensures next !in rows
    ensures var r := Trimmed(rows + Interval(next, next), next, window);
            EndsBelow(r, next + 1) && (Gapless(rows) ==> Gapless(r))
  {
    assert next in rows + Interval(next, next);
    if Gapless(rows) {
      FrontFillGapless(rows, next, next, window);
    }
  }

  // ---------- live ingestion ----------

  /** The ledger to ingest next: above everything stored, or the archive's current one. */
  function NextOf(rows: set<int>, root: int): int {
    if rows == {} then root else MaxOf(rows) + 1
  }

  /** n ledgers from `next` on were ingested, each in a commit of its own that trimmed behind it. */
  ghost predicate Ingested(r0: set<int>, before: seq<Commit>, next: int, n: nat, rows: set<int>, after: seq<Commit>,
                           window: nat)
  {
    && before <= after && |after| == |before| + n
    && rows == (if n == 0 then r0 else Trimmed(r0 + Interval(next, next + n - 1), next + n - 1, window))
    && forall k :: |before| <= k < |after| ==> after[k] == LiveCommit(r0, next, next + k - |before|, window)
  }

  /** The commit of one ledger, when those from `next` on were ingested before it. */
  function LiveCommit(r0: set<int>, next: int, ledger: int, window: nat): Commit {
    Commit(ledger, ledger, Trimmed(r0 + Interval(next, ledger), ledger, window))
  }

  lemma NoneIngested(r0: set<int>, before: seq<Commit>, next: int, window: nat)
    ensures Ingested(r0, before, next, 0, r0, before, window)
  {
  }

  lemma IngestedAfter(r0: set<int>, before: seq<Commit>, next: int, n: nat, rows: set<int>, after: seq<Commit>,
                      window: nat)
    requires Ingested(r0, before, next, n, rows, after, window)
    ensures |before| <= |after| && after[..|before|] == before
  {
  }

  /** Ingesting up to one ledger and then on to another is ingesting to the other. */
  lemma IngestedOn(r0: set<int>, next: int, n: nat, rows: set<int>, j: int, window: nat)
    requires rows == (if n == 0 then r0 else Trimmed(r0 + Interval(next, next + n - 1), next + n - 1, window)) && n <= j
    ensures Trimmed(rows + Interval(next + n, next + j), next + j, window)
         == Trimmed(r0 + Interval(next, next + j), next + j, window)
  {
    if n > 0 {
      var base := r0 + Interval(next, next + n - 1);
      TrimTwice(base, Interval(next + n, next + j), next + n - 1, next + j, window);
      assert base + Interval(next + n, next + j) == r0 + Interval(next, next + j);
    }
  }

  lemma IngestedTwice(r0: set<int>, c0: seq<Commit>, next: int, n1: nat, r1: set<int>, c1: seq<Commit>, n2: nat,
                      r2: set<int>, c2: seq<Commit>, window: nat)
    requires Ingested(r0, c0, next, n1, r1, c1, window) && Ingested(r1, c1, next + n1, n2, r2, c2, window)
    ensures Ingested(r0, c0, next, n1 + n2, r2, c2, window)
  {
    hide Interval, Trimmed;
    if n2 > 0 {
      IngestedOn(r0, next, n1, r1, n1 + n2 - 1, window);
    }
    forall k | |c0| <= k < |c2|
      ensures c2[k] == LiveCommit(r0, next, next + k - |c0|, window)
    {
      if k < |c1| {
        assert c2[k] == c1[k];
      } else {
        IngestedOn(r0, next, n1, r1, k - |c0|, window);
      }
    }
  }

  lemma OneIngested(r0: set<int>, before: seq<Commit>, next: int, rows: set<int>, after: seq<Commit>, window: nat)
    requires rows == Trimmed(r0 + Interval(next, next), next, window) && after == before + [Commit(next, next, rows)]
    ensures Ingested(r0, before, next, 1, rows, after, window)
  {
  }

  /** Then the ledger after the last of them is next. */
  lemma NextAfter(r0: set<int>, before: seq<Commit>, root: int, n: nat, rows: set<int>, after: seq<Commit>, window: nat)
    requires Ingested(r0, before, NextOf(r0, root), n, rows, after, window) && 1 <= window
    ensures NextOf(rows, root) == NextOf(r0, root) + n
  {
    if n > 0 {
      var last := NextOf(r0, root) + n - 1;
      assert last in rows;
      assert forall x :: x in rows ==> x <= last;
    }
  }

  // ---------- a hole that stays ----------

  /** Nothing was added at or below what was the top. */
  ghost predicate GrownAbove(r0: set<int>, rows: set<int>) {
    r0 != {} ==> rows != {} && MaxOf(r0) <= MaxOf(rows) && forall x :: x in rows ==> x in r0 || x > MaxOf(r0)
  }

  lemma GrownTwice(r0: set<int>, r1: set<int>, r2: set<int>)
    requires GrownAbove(r0, r1) && GrownAbove(r1, r2)
    ensures GrownAbove(r0, r2)
  {
  }

  lemma GrownByOne(rows: set<int>, next: int, window: nat)
    requires EndsBelow(rows, next) && 1 <= window
    ensures GrownAbove(rows, rows) && GrownAbove(rows, Trimmed(rows + Interval(next, next), next, window))
  {
    assert next in Trimmed(rows + Interval(next, next), next, window);
  }

  /** No state stored after one of the commits from number `from` on is gapless. */
  ghost predicate NeverGapless(cs: seq<Commit>, from: nat) {
    forall k :: from <= k < |cs| ==> !Gapless(cs[k].after)
  }

  lemma NeverGaplessBefore(cs: seq<Commit>, more: seq<Commit>, from: nat)
    requires NeverGapless(more, from) && cs <= more && from < |cs|
    ensures NeverGapless(cs, from) && !Gapless(cs[|cs| - 1].after)
  {
    assert forall k :: 0 <= k < |cs| ==> more[k] == cs[k];
  }

  lemma OneMoreGapless(cs: seq<Commit>, c: Commit)
    requires AllGapless(cs) && Gapless(c.after)
    ensures AllGapless(cs + [c])
  {
  }

  /**
   * After both phases: `stored` is what the forward phase started from, `reach` the first ledger of the
   * backward phase, `cs` the checkpoints of the forward phase.
   */
  ghost predicate Filled(o: Snapshot, b: FillBounds, reach: int, stored: set<int>, cs: seq<int>,
                         commits: seq<Commit>, cache: RangeCache.Cache, rows: set<int>)
  {
    && 0 < |o.commits| <= |commits| && commits[..|o.commits|] == o.commits
    && stored == (if NeedBackfillPhase(b) then o.rows + Interval(reach, b.backfillLast) else o.rows)
    && Gapless(stored) && EndsBelow(stored, b.frontfillFirst) && Seen(commits, |o.commits| - 1, stored)
    && (!Skips(stored, b.frontfillFirst, cs) ==> AllGapless(commits[|o.commits|..]) && Gapless(rows))
    && (NeedBackfillPhase(b) ==> |cs| <= 1)
    && (!NeedBackfillPhase(b) && Exact(o.cache, o.rows) ==> Exact(cache, rows))
  }

  /** Only a backward phase ran, and failed or was the end. */
  lemma BackwardFilled(o: Snapshot, b: FillBounds, commits: seq<Commit>, cache: RangeCache.Cache, rows: set<int>,
                       a: int)
    requires BackwardKept(o.rows, o.commits, o.cache, b.backfillLast, commits, cache, rows, a) && NeedBackfillPhase(b)
    requires Gapless(o.rows) && StartsAbove(o.rows, b.backfillLast) && EndsBelow(o.rows, b.frontfillFirst)
    requires commits != [] && rows == commits[|commits| - 1].after && o.commits != []
    ensures Filled(o, b, a, rows, [], commits, cache, rows)
    ensures Gapless(rows) && EndsBelow(rows, b.frontfillFirst) && AllGapless(commits[|o.commits|..])
  {
    hide Gapless, EndsBelow, AllGapless, Descending, Interval, Lowered, Exact, StartsAbove;
    BackwardPhase(commits[|o.commits|..], o.rows, a, b.backfillLast, b.frontfillFirst);
    LastIsSeen(commits, |o.commits| - 1);
  }

  lemma NothingFilled(o: Snapshot, b: FillBounds)
    requires !NeedBackfillPhase(b) && o.commits != [] && o.rows == o.commits[|o.commits| - 1].after
    requires Gapless(o.rows) && EndsBelow(o.rows, b.frontfillFirst)
    ensures Filled(o, b, 0, o.rows, [], o.commits, o.cache, o.rows)
  {
    hide Gapless, EndsBelow, Exact;
    NothingCommitted(o.commits);
    LastIsSeen(o.commits, |o.commits| - 1);
  }

  /** The forward phase after it. */
  lemma ForwardFilled(o: Snapshot, b: FillBounds, reach: int, stored: set<int>, commits1: seq<Commit>,
                      cache1: RangeCache.Cache, cs: seq<int>, commits: seq<Commit>, cache: RangeCache.Cache,
                      rows: set<int>)
    requires Filled(o, b, reach, stored, [], commits1, cache1, stored) && 1 <= b.frontfillFirst
    requires PhaseKept(stored, b.frontfillFirst, commits1, cache1, cs, commits, cache, rows) && 0 !in rows
    requires NeedBackfillPhase(b) ==> |cs| <= 1
    ensures Filled(o, b, reach, stored, cs, commits, cache, rows)
  {
    hide Gapless, EndsBelow, AllGapless, Interval, RaisedTo, Exact, Seen, Skips;
    FewDoNotSkip(stored, b.frontfillFirst, []);
    assert commits[|o.commits|..] == commits1[|o.commits|..] + commits[|commits1|..];
    AllGaplessConcat(commits1[|o.commits|..], commits[|commits1|..]);
    StillSeen(commits1, commits, |o.commits| - 1, stored);
    if !NeedBackfillPhase(b) && Exact(o.cache, o.rows) && commits != commits1 {
      BelowAll(stored, b.frontfillFirst);
      RaisedIsExact(cache1, stored, cache, rows, b.frontfillFirst);
    }
  }

  /**
   * What the last check is told of the stored ledgers, when it began with r0 and a cache that was
   * `warm` (knew the latest ledger) or not. A memoized oldest ledger hides what a backward phase added
   * below it, as long as it is stored. Into a cold cache the backward phase puts its own top as the
   * latest ledger, until a forward commit corrects it. In all other cases these are the two ends.
   */
  function LastCheck(r0: set<int>, warm: bool, backward: bool, forward: bool, rows: set<int>): (int, int)
    requires rows != {} && (backward ==> r0 != {})
  {
    (if backward && warm && MinOf(r0) in rows then MinOf(r0) else MinOf(rows),
     if backward && !warm && !forward then MinOf(r0) - 1 else MaxOf(rows))
  }

  /** The oldest ledger is memoized whenever the latest is known, as after a call of GetLedgerRange. */
  predicate OldestMemoized(c: RangeCache.Cache, rows: set<int>) {
    rows != {} && c.latest.seqNo != 0 ==> c.first.seqNo != 0
  }

  /** The cache after a backward phase and a forward phase. */
  lemma CacheAfterBoth(o: Snapshot, c1: RangeCache.Cache, cache: RangeCache.Cache, forward: bool, stored: set<int>,
                       rows: set<int>)
    requires Exact(o.cache, o.rows) && OldestMemoized(o.cache, o.rows)
    requires o.rows <= stored && o.rows != {} && 1 < MinOf(o.rows)
    requires Lowered(o.cache, c1, MinOf(o.rows) - 1)
    requires if forward then RaisedTo(c1, cache, rows) else cache == c1 && rows == stored
    requires MaxOf(stored) == MaxOf(o.rows) && 0 !in rows
    ensures rows != {}
    ensures (ReportedFirst(cache, rows), ReportedLast(cache, rows))
         == LastCheck(o.rows, o.cache.latest.seqNo != 0, true, forward, rows)
  {
  }

  /** An exact cache reports the two ends. */
  lemma ExactReport(c: RangeCache.Cache, rows: set<int>)
    requires Exact(c, rows) && rows != {}
    ensures (ReportedFirst(c, rows), ReportedLast(c, rows)) == (MinOf(rows), MaxOf(rows))
  {
  }

  /** What a run of both phases says of its commits. */
  lemma FilledMeans(o: Snapshot, b: FillBounds, reach: int, stored: set<int>, cs: seq<int>,
                    commits: seq<Commit>, cache: RangeCache.Cache, rows: set<int>)
    requires Filled(o, b, reach, stored, cs, commits, cache, rows)
    ensures 0 < |o.commits| <= |commits| && commits[..|o.commits|] == o.commits
    ensures EndsBelow(stored, b.frontfillFirst) && Seen(commits, |o.commits| - 1, stored)
    ensures !Skips(stored, b.frontfillFirst, cs) ==> AllGapless(commits[|o.commits|..]) && Gapless(rows)
    ensures NeedBackfillPhase(b) ==> |cs| <= 1 && !Skips(stored, b.frontfillFirst, cs)
    ensures !NeedBackfillPhase(b) && Exact(o.cache, o.rows) ==> Exact(cache, rows)
  {
    hide Gapless, EndsBelow, AllGapless, Interval, Exact, Seen;
  }

  lemma FillCovers(o: Snapshot, b: FillBounds, reach: int, p: Phase, commits: seq<Commit>, cache: RangeCache.Cache,
                   rows: set<int>, tip0: int, tip1: int, window: int, dsFirst: int) returns (lowest: int)
    requires Filled(o, b, reach, p.stored, p.checkpoints, commits, cache, rows) && p.first == b.frontfillFirst
    requires 1 <= window && 1 <= dsFirst && 1 <= tip0 <= tip1 && Gapless(o.rows)
    requires b.frontfillFirst == if o.rows == {} then Edge(tip0, window, dsFirst) else MaxOf(o.rows) + 1
    requires NeedBackfillPhase(b) <==> o.rows != {} && Edge(tip0, window, dsFirst) < MinOf(o.rows)
    requires NeedBackfillPhase(b) ==>
               && Edge(tip0, window, dsFirst) <= reach < MinOf(o.rows) && b.backfillLast == MinOf(o.rows) - 1
               && reach <= PromisedFrom(tip0, tip1, window, dsFirst)
    requires 1 <= |p.checkpoints| <= 2 && (forall i :: 0 <= i < |p.checkpoints| ==> p.checkpoints[i] <= tip1)
    requires rows == FrontPhase(p.stored, p.first, p.checkpoints, window)
    ensures Covers(o.rows, lowest, p, rows, tip0, tip1, window, dsFirst)
    ensures NeedBackfillPhase(b) ==> lowest == reach
  {
    hide Gapless, EndsBelow, AllGapless, Interval, Exact, Seen, Skips, FrontPhase, Covers;
    lowest := if NeedBackfillPhase(b) then reach else if o.rows == {} then b.frontfillFirst else MinOf(o.rows);
    CoverageForAnyTips(o.rows, lowest, p, rows, tip0, tip1, window, dsFirst);
  }

  /** Without a backward phase the last check is of everything. */
  lemma EndsChecked(r0: set<int>, warm: bool, forward: bool, rows: set<int>)
    requires rows != {}
    ensures LastCheck(r0, warm, false, forward, rows) == (MinOf(rows), MaxOf(rows))
  {
  }

  lemma FilledEnds(o: Snapshot, b: FillBounds, reach: int, stored: set<int>, cs: seq<int>,
                   commits: seq<Commit>, cache: RangeCache.Cache, rows: set<int>)
    requires Filled(o, b, reach, stored, cs, commits, cache, rows)
    ensures EndsBelow(stored, b.frontfillFirst)
  {
  }

  lemma AllAbove(rows: set<int>, last: int)
    requires StartsAbove(rows, last)
    ensures rows != {} && forall x :: x in rows ==> last < x
  {
  }

  lemma BothReported(o: Snapshot, a: int, commits1: seq<Commit>, cache1: RangeCache.Cache, stored: set<int>,
                     first: int, cs: seq<int>, commits: seq<Commit>, cache: RangeCache.Cache, rows: set<int>)
    requires o.rows != {} && 1 <= a < MinOf(o.rows)
    requires BackwardKept(o.rows, o.commits, o.cache, MinOf(o.rows) - 1, commits1, cache1, stored, a)
    requires Exact(o.cache, o.rows) && OldestMemoized(o.cache, o.rows)
    requires PhaseKept(stored, first, commits1, cache1, cs, commits, cache, rows) && 0 !in rows
    requires |cs| == 1 && (commits == commits1 <==> first >= cs[0])
    ensures rows != {}
    ensures (ReportedFirst(cache, rows), ReportedLast(cache, rows))
         == LastCheck(o.rows, o.cache.latest.seqNo != 0, true, first < cs[0], rows)
  {
    hide Descending, Exact, Lowered, RaisedTo, Gapless, AllGapless, Skips, LastCheck, OldestMemoized;
    SameMax(o.rows, a, MinOf(o.rows) - 1);
    CacheAfterBoth(o, cache1, cache, first < cs[0], stored, rows);
  }

  lemma SameMax(rows: set<int>, lo: int, hi: int)
    requires rows != {} && forall x :: x in rows ==> hi < x
    ensures MaxOf(rows + Interval(lo, hi)) == MaxOf(rows)
  {
    assert MaxOf(rows) in rows + Interval(lo, hi);
  }
}
