/**
 * The stored ledger sequences as a set, and what a commit with retention does to it
 * (trimLedgers in cmd/stellar-rpc/internal/db/ledger.go, ingestRange in
 * cmd/stellar-rpc/internal/ingest/service.go).
 */
module LedgerSets {
  import opened Words
  import opened Wrappers

  /** The ledgers lo..hi, both included; empty when hi < lo. */
  function Interval(lo: int, hi: int): (r: set<int>)
    ensures forall x :: x in r <==> lo <= x <= hi
    decreases hi - lo + 1
  {
    if hi < lo then {} else Interval(lo, hi - 1) + {hi}
  }

  /** No hole: empty or one contiguous interval. */
  ghost predicate Gapless(s: set<int>) {
    forall x, y, z :: x in s && z in s && x <= y <= z ==> y in s
  }

  /** The set after a commit whose last ledger is `last`: everything below the cutoff is gone. */
  function Trimmed(s: set<int>, last: int, window: nat): set<int> {
    if last + 1 <= window then s else set x | x in s && x >= last + 1 - window
  }

  lemma {:induction false} SetExtremes(s: set<int>)
    requires s != {}
    ensures exists lo, hi :: lo in s && hi in s && s <= Interval(lo, hi)
  {
    var a := Member(s);
    if s - {a} == {} {
      assert s == {a} && s <= Interval(a, a);
    } else {
      SetExtremes(s - {a});
      var lo, hi :| lo in s - {a} && hi in s - {a} && s - {a} <= Interval(lo, hi);
      var lo', hi' := Min(a, lo), Max(a, hi);
      assert lo' in s && hi' in s;
      forall x | x in s
        ensures x in Interval(lo', hi')
      {
        assert x == a || x in s - {a};
      }
    }
  }

  /** SELECT MIN(sequence) */
  function MinOf(s: set<int>): (lo: int)
    requires s != {}
    ensures lo in s && forall x :: x in s ==> lo <= x
  {
    SetExtremes(s);
    var lo :| lo in s && forall x :: x in s ==> lo <= x;
    lo
  }

  /** SELECT MAX(sequence) */
  function MaxOf(s: set<int>): (hi: int)
    requires s != {}
    ensures hi in s && forall x :: x in s ==> x <= hi
  {
    SetExtremes(s);
    var hi :| hi in s && forall x :: x in s ==> x <= hi;
    hi
  }

  lemma {:induction false} IntervalSize(lo: int, hi: int)
    requires lo <= hi + 1
    ensures |Interval(lo, hi)| == hi - lo + 1
    decreases hi - lo + 1
  {
    if lo == hi + 1 {
      assert Interval(lo, hi) == {};
    } else {
      IntervalSize(lo, hi - 1);
      assert Interval(lo, hi) == Interval(lo, hi - 1) + {hi};
    }
  }

  lemma {:induction false} SubsetSize(a: set<int>, b: set<int>)
    requires a <= b
    ensures |a| <= |b|
    ensures |a| == |b| ==> a == b
  {
    if a != {} {
      var x := Member(a);
      SubsetSize(a - {x}, b - {x});
      if |a| == |b| {
        assert a == (a - {x}) + {x} && b == (b - {x}) + {x};
      }
    }
  }

  /** Counting the stored ledgers of a range detects a gap in it, and only then. */
  lemma CountDetectsGaps(s: set<int>, lo: int, hi: int)
    requires lo <= hi
    ensures |s * Interval(lo, hi)| == hi - lo + 1 <==> Interval(lo, hi) <= s
  {
    IntervalSize(lo, hi);
    SubsetSize(s * Interval(lo, hi), Interval(lo, hi));
    if Interval(lo, hi) <= s {
      assert s * Interval(lo, hi) == Interval(lo, hi);
    }
  }

  /** Trimming at an earlier, lower ledger first makes no difference. */
  lemma TrimTwice(a: set<int>, b: set<int>, l1: int, l2: int, window: nat)
    requires l1 <= l2
    ensures Trimmed(Trimmed(a, l1, window) + b, l2, window) == Trimmed(a + b, l2, window)
  {
  }

  lemma TrimKeepsGapless(s: set<int>, last: int, window: nat)
    requires Gapless(s)
    ensures Gapless(Trimmed(s, last, window))
  {
  }

  /** Adding ledgers directly above or below the stored ones leaves no hole. */
  lemma ExtendGapless(s: set<int>, lo: int, hi: int)
    requires Gapless(s) && lo <= hi
    requires s == {} || (lo - 1 in s && forall x :: x in s ==> x < lo) || (hi + 1 in s && forall x :: x in s ==> hi < x)
    ensures Gapless(s + Interval(lo, hi))
  {
  }
}
