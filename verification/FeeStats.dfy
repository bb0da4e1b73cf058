/**
 * Fee statistics over a list of fees
 * (computeFeeDistribution in cmd/stellar-rpc/internal/feewindow/feewindow.go).
 *
 * `Describes` says what each statistic means in terms of counts of the fees;
 * `ComputeFeeDistribution` is the sort-and-scan code, proved against it.
 */
module FeeStats {
  import opened Words
  import opened Wrappers

  datatype FeeDistribution = FeeDistribution(
    max: u64, min: u64, mode: u64,
    p10: u64, p20: u64, p30: u64, p40: u64, p50: u64, p60: u64,
    p70: u64, p80: u64, p90: u64, p95: u64, p99: u64,
    feeCount: u32, ledgerCount: u32)

  const NO_FEES := FeeDistribution(0, 0, 0, 0, 0, 0, 0, 0, 0, 0, 0, 0, 0, 0, 0, 0)

  // ---------- what the statistics mean ----------

  function CountAtMost(s: seq<u64>, v: int): (n: nat)
    ensures n <= |s|
  {
    if s == [] then 0 else (if s[0] <= v then 1 else 0) + CountAtMost(s[1..], v)
  }

  function CountBelow(s: seq<u64>, v: int): nat {
    CountAtMost(s, v - 1)
  }

  ghost predicate IsMode(fees: seq<u64>, m: u64) {
    && m in fees
    && (forall v :: v in fees ==> multiset(fees)[v] <= multiset(fees)[m])
    && (forall v :: v in fees && v < m ==> multiset(fees)[v] < multiset(fees)[m])
  }

  /** Nearest rank: at least p percent of the fees are at most x, fewer than p percent are below x. */
  ghost predicate IsPercentile(fees: seq<u64>, p: nat, x: u64) {
    && x in fees
    && 100 * CountAtMost(fees, x) >= p * |fees|
    && 100 * CountBelow(fees, x) < p * |fees|
  }

  ghost predicate Describes(d: FeeDistribution, fees: seq<u64>, ledgerCount: u32) {
    if fees == [] then d == NO_FEES
    else
      && d.max in fees && (forall v :: v in fees ==> v <= d.max)
      && d.min in fees && (forall v :: v in fees ==> d.min <= v)
      && IsMode(fees, d.mode)
      && IsPercentile(fees, 10, d.p10) && IsPercentile(fees, 20, d.p20)
      && IsPercentile(fees, 30, d.p30) && IsPercentile(fees, 40, d.p40)
      && IsPercentile(fees, 50, d.p50) && IsPercentile(fees, 60, d.p60)
      && IsPercentile(fees, 70, d.p70) && IsPercentile(fees, 80, d.p80)
      && IsPercentile(fees, 90, d.p90) && IsPercentile(fees, 95, d.p95)
      && IsPercentile(fees, 99, d.p99)
      && d.feeCount == |fees| % U32_COUNT
      && d.ledgerCount == ledgerCount
  }

  // ---------- sorting ----------

  ghost predicate Ascending(s: seq<u64>) {
    forall i, j :: 0 <= i < j < |s| ==> s[i] <= s[j]
  }

  function Insert(x: u64, s: seq<u64>): (r: seq<u64>)
    ensures multiset(r) == multiset(s) + multiset{x}
    ensures |r| == |s| + 1
  {
    if s == [] || x <= s[0] then [x] + s
    else
      assert s == [s[0]] + s[1..];
      [s[0]] + Insert(x, s[1..])
  }

  /** The sorted permutation of `s`: the result of slices.Sort. */
  function Sorted(s: seq<u64>): (r: seq<u64>)
    ensures multiset(r) == multiset(s)
    ensures |r| == |s|
  {
    if s == [] then []
    else
      assert s == [s[0]] + s[1..];
      Insert(s[0], Sorted(s[1..]))
  }

  lemma {:induction false} InsertAscends(x: u64, s: seq<u64>)
    requires Ascending(s)
    ensures Ascending(Insert(x, s))
  {
    hide Ascending;
    if s == [] || x <= s[0] {
      LeastIsFirst(s);
      AscendingCons(x, s);
    } else {
      TailAscends(s);
      InsertAscends(x, s[1..]);
      LeastIsFirst(s);
      TailMultiset(s);
      forall v | v in multiset(Insert(x, s[1..]))
        ensures s[0] <= v
      {
        assert v == x || v in multiset(s[1..]);
      }
      AscendingCons(s[0], Insert(x, s[1..]));
    }
  }

  lemma LeastIsFirst(s: seq<u64>)
    requires Ascending(s)
    ensures s != [] ==> forall v :: v in multiset(s) ==> s[0] <= v
  {
    assert forall v :: v in multiset(s) ==> v in s;
  }

  lemma AscendingCons(h: u64, t: seq<u64>)
    requires Ascending(t) && forall v :: v in multiset(t) ==> h <= v
    ensures Ascending([h] + t)
  {
    assert forall j :: 0 <= j < |t| ==> t[j] in multiset(t);
  }

  lemma {:induction false} SortedAscends(s: seq<u64>)
    ensures Ascending(Sorted(s))
  {
    if s != [] {
      SortedAscends(s[1..]);
      InsertAscends(s[0], Sorted(s[1..]));
    }
  }

  lemma {:induction false} InsertCount(x: u64, s: seq<u64>, v: int)
    ensures CountAtMost(Insert(x, s), v) == CountAtMost(s, v) + if x <= v then 1 else 0
  {
    if s == [] || x <= s[0] {
      assert ([x] + s)[1..] == s;
    } else {
      InsertCount(x, s[1..], v);
      assert ([s[0]] + Insert(x, s[1..]))[1..] == Insert(x, s[1..]);
    }
  }

  lemma {:induction false} SortedCount(s: seq<u64>, v: int)
    ensures CountAtMost(Sorted(s), v) == CountAtMost(s, v)
  {
    if s != [] {
      SortedCount(s[1..], v);
      InsertCount(s[0], Sorted(s[1..]), v);
    }
  }

  lemma {:induction false} SortIsUnique(a: seq<u64>, b: seq<u64>)
    requires Ascending(a) && Ascending(b) && multiset(a) == multiset(b)
    ensures a == b
  {
    if a == [] {
      assert |multiset(b)| == |multiset(a)|;
    } else {
      hide Ascending;
      SameHead(a, b);
      TailMultiset(a);
      TailMultiset(b);
      TailAscends(a);
      TailAscends(b);
      SortIsUnique(a[1..], b[1..]);
      assert a == [a[0]] + a[1..] && b == [b[0]] + b[1..];
    }
  }

  lemma LeastFirst(s: seq<u64>, v: u64)
    requires Ascending(s) && v in multiset(s)
    ensures s[0] <= v
  {
    assert v in s;
  }

  lemma SameHead(a: seq<u64>, b: seq<u64>)
    requires Ascending(a) && Ascending(b) && multiset(a) == multiset(b) && a != []
    ensures b != [] && a[0] == b[0]
  {
    assert a[0] in multiset(b);
    assert b[0] in multiset(a);
    LeastFirst(a, b[0]);
    LeastFirst(b, a[0]);
  }

  lemma TailAscends(s: seq<u64>)
    requires Ascending(s) && s != []
    ensures Ascending(s[1..])
  {
  }

  // ---------- counts in sorted order ----------

  /** In sorted order at least k + 1 elements are at most s[k], and at most k are below it. */
  lemma {:induction false} RankOf(s: seq<u64>, k: nat)
    requires Ascending(s) && k < |s|
    ensures CountAtMost(s, s[k]) >= k + 1
    ensures CountBelow(s, s[k]) <= k
  {
    if k > 0 {
      RankOf(s[1..], k - 1);
    } else {
      NoneBelow(s, s[0]);
    }
  }

  lemma {:induction false} NoneBelow(s: seq<u64>, v: int)
    requires forall i :: 0 <= i < |s| ==> v <= s[i]
    ensures CountBelow(s, v) == 0
  {
    if s != [] {
      NoneBelow(s[1..], v);
    }
  }

  /** ceiling(p * n / 100), the 1-based rank. */
  function KthRank(p: nat, n: nat): (kth: nat)
    requires 0 < n && 0 < p <= 100
    ensures 1 <= kth <= n
  {
    KthRankBounds(p, n);
    (p * n + 100 - 1) / 100
  }

  lemma KthRankBounds(p: nat, n: nat)
    requires 0 < n && 0 < p <= 100
    ensures var kth := (p * n + 100 - 1) / 100;
            1 <= kth <= n && 100 * kth >= p * n && 100 * (kth - 1) < p * n
  {
    assert n <= p * n <= 100 * n;
  }

  function Percentile(sorted: seq<u64>, p: nat): u64
    requires sorted != [] && 0 < p <= 100
  {
    sorted[KthRank(p, |sorted|) - 1]
  }

  lemma PercentileAtRank(fees: seq<u64>, p: nat)
    requires fees != [] && 0 < p <= 100
    ensures IsPercentile(fees, p, Percentile(Sorted(fees), p))
  {
    var n := p * |fees|;
    var kth := KthRank(p, |fees|);
    KthRankBounds(p, |fees|);
    RankInFees(fees, kth - 1);
    assert 100 * kth >= n && 100 * (kth - 1) < n;
  }

  lemma RankInFees(fees: seq<u64>, k: nat)
    requires k < |fees|
    ensures var x := Sorted(fees)[k];
            x in fees && CountAtMost(fees, x) >= k + 1 && CountBelow(fees, x) <= k
  {
    hide Ascending, CountAtMost, Sorted;
    var s := Sorted(fees);
    SortedAscends(fees);
    RankOf(s, k);
    SortedCount(fees, s[k]);
    SortedCount(fees, (s[k] as int) - 1);
    SortedMember(fees, s[k]);
  }

  lemma SortedMember(fees: seq<u64>, v: u64)
    ensures v in Sorted(fees) <==> v in fees
  {
    assert v in multiset(Sorted(fees)) <==> v in multiset(fees);
  }

  // ---------- uniqueness ----------

  lemma {:induction false} CountMonotone(s: seq<u64>, v: int, w: int)
    requires v <= w
    ensures CountAtMost(s, v) <= CountAtMost(s, w)
  {
    if s != [] {
      CountMonotone(s[1..], v, w);
    }
  }

  lemma PercentileIsUnique(a: seq<u64>, b: seq<u64>, p: nat, x: u64, y: u64)
    requires multiset(a) == multiset(b)
    requires IsPercentile(a, p, x) && IsPercentile(b, p, y)
    ensures x == y
  {
    hide CountAtMost;
    SameCounts(a, b);
    if x < y {
      CountMonotone(a, x, y - 1);
    } else if y < x {
      CountMonotone(a, y, x - 1);
    }
  }

  lemma SameCounts(a: seq<u64>, b: seq<u64>)
    requires multiset(a) == multiset(b)
    ensures |a| == |b|
    ensures forall v: int :: CountAtMost(a, v) == CountAtMost(b, v)
  {
    SortedAscends(a);
    SortedAscends(b);
    SortIsUnique(Sorted(a), Sorted(b));
    forall v: int
      ensures CountAtMost(a, v) == CountAtMost(b, v)
    {
      SortedCount(a, v);
      SortedCount(b, v);
    }
  }

  lemma ModeIsUnique(a: seq<u64>, b: seq<u64>, m: u64, n: u64)
    requires multiset(a) == multiset(b) && IsMode(a, m) && IsMode(b, n)
    ensures m == n
  {
    assert m in multiset(b) && n in multiset(a);
  }

  lemma SameMember(a: seq<u64>, b: seq<u64>, v: u64)
    requires multiset(a) == multiset(b) && v in a
    ensures v in b
  {
    assert v in multiset(b);
  }

  /** The distribution is determined by the multiset of fees: order does not matter. */
  lemma DistributionIsUnique(a: seq<u64>, b: seq<u64>, c: FeeDistribution, d: FeeDistribution, ledgerCount: u32)
    requires multiset(a) == multiset(b)
    requires Describes(c, a, ledgerCount) && Describes(d, b, ledgerCount)
    ensures c == d
  {
    hide IsPercentile, IsMode;
    SameCounts(a, b);
    if a != [] {
      SameMember(a, b, c.max);
      SameMember(b, a, d.max);
      SameMember(a, b, c.min);
      SameMember(b, a, d.min);
      ModeIsUnique(a, b, c.mode, d.mode);
      PercentileIsUnique(a, b, 10, c.p10, d.p10);
      PercentileIsUnique(a, b, 20, c.p20, d.p20);
      PercentileIsUnique(a, b, 30, c.p30, d.p30);
      PercentileIsUnique(a, b, 40, c.p40, d.p40);
      PercentileIsUnique(a, b, 50, c.p50, d.p50);
      PercentileIsUnique(a, b, 60, c.p60, d.p60);
      PercentileIsUnique(a, b, 70, c.p70, d.p70);
      PercentileIsUnique(a, b, 80, c.p80, d.p80);
      PercentileIsUnique(a, b, 90, c.p90, d.p90);
      PercentileIsUnique(a, b, 95, c.p95, d.p95);
      PercentileIsUnique(a, b, 99, c.p99, d.p99);
    }
  }

  lemma PercentilesOrdered(fees: seq<u64>, p: nat, q: nat, x: u64, y: u64)
    requires p <= q && IsPercentile(fees, p, x) && IsPercentile(fees, q, y)
    ensures x <= y
  {
    if y < x {
      CountMonotone(fees, y, x - 1);
      ScaleMonotone(p, q, |fees|);
    }
  }

  lemma ScaleMonotone(p: nat, q: nat, n: nat)
    requires p <= q
    ensures p * n <= q * n
  {
  }

  /** Min <= P10 <= ... <= P99 <= Max. */
  lemma DistributionIsOrdered(fees: seq<u64>, d: FeeDistribution, ledgerCount: u32)
    requires fees != [] && Describes(d, fees, ledgerCount)
    ensures d.min <= d.p10 <= d.p20 <= d.p30 <= d.p40 <= d.p50 <= d.p60
    ensures d.p60 <= d.p70 <= d.p80 <= d.p90 <= d.p95 <= d.p99 <= d.max
    ensures d.min <= d.mode <= d.max
  {
    PercentilesOrdered(fees, 10, 20, d.p10, d.p20);
    PercentilesOrdered(fees, 20, 30, d.p20, d.p30);
    PercentilesOrdered(fees, 30, 40, d.p30, d.p40);
    PercentilesOrdered(fees, 40, 50, d.p40, d.p50);
    PercentilesOrdered(fees, 50, 60, d.p50, d.p60);
    PercentilesOrdered(fees, 60, 70, d.p60, d.p70);
    PercentilesOrdered(fees, 70, 80, d.p70, d.p80);
    PercentilesOrdered(fees, 80, 90, d.p80, d.p90);
    PercentilesOrdered(fees, 90, 95, d.p90, d.p95);
    PercentilesOrdered(fees, 95, 99, d.p95, d.p99);
  }

  // ---------- the code ----------

  /** slices.Sort: the library's in-place sort, known by its result only. */
  method SortInPlace(fees: array<u64>)
    modifies fees
    ensures fees[..] == Sorted(old(fees[..]))
  {
    var s := Sorted(fees[..]);
    forall i | 0 <= i < fees.Length {
      fees[i] := s[i];
    }
  }

  /** What the scan knows after the first `i` sorted fees; the last cluster is still open. */
  ghost predicate ScanState(s: seq<u64>, i: nat, mode: u64, lastVal: u64, most: nat, local: nat)
    requires 0 < i <= |s|
  {
    var m := multiset(s[..i]);
    && lastVal == s[i - 1]
    && m[lastVal] == local + 1
    && (mode == lastVal ==> most == 0 && forall v :: v in m ==> v == lastVal)
    && (mode != lastVal ==> mode < lastVal && m[mode] == most + 1)
    && (forall v :: v in m && v < lastVal ==> m[v] <= most + 1)
    && (forall v :: v in m && v < mode ==> m[v] <= most)
  }

  lemma ScanStart(s: seq<u64>)
    requires s != []
    ensures ScanState(s, 1, s[0], s[0], 0, 0)
  {
    assert s[..1] == [s[0]];
  }

  lemma ScanStep(s: seq<u64>, i: nat, mode: u64, lastVal: u64, most: nat, local: nat)
    requires Ascending(s) && 0 < i < |s| && ScanState(s, i, mode, lastVal, most, local)
    ensures s[i] == lastVal ==> ScanState(s, i + 1, mode, lastVal, most, local + 1)
    ensures s[i] != lastVal && local > most ==> ScanState(s, i + 1, lastVal, s[i], local, 0)
    ensures s[i] != lastVal && local <= most ==> ScanState(s, i + 1, mode, s[i], most, 0)
  {
    hide ScanState;
    if s[i] == lastVal {
      ScanSame(s, i, mode, lastVal, most, local);
    } else if local > most {
      ScanNewMode(s, i, mode, lastVal, most, local);
    } else {
      ScanOldMode(s, i, mode, lastVal, most, local);
    }
  }

  /** One more fee in a sorted scan: nothing read before is above it. */
  lemma OneMoreFee(s: seq<u64>, i: nat)
    requires Ascending(s) && 0 < i < |s|
    ensures multiset(s[..i + 1]) == multiset(s[..i]) + multiset{s[i]}
    ensures s[i - 1] <= s[i] && forall v :: v in multiset(s[..i]) ==> v <= s[i - 1]
  {
    assert s[..i + 1] == s[..i] + [s[i]];
    forall v | v in multiset(s[..i])
      ensures v <= s[i - 1]
    {
      assert v in s[..i];
    }
  }

  lemma ScanSame(s: seq<u64>, i: nat, mode: u64, lastVal: u64, most: nat, local: nat)
    requires Ascending(s) && 0 < i < |s| && ScanState(s, i, mode, lastVal, most, local) && s[i] == lastVal
    ensures ScanState(s, i + 1, mode, lastVal, most, local + 1)
  {
    hide Ascending;
    OneMoreFee(s, i);
  }

  lemma ScanNewMode(s: seq<u64>, i: nat, mode: u64, lastVal: u64, most: nat, local: nat)
    requires Ascending(s) && 0 < i < |s| && ScanState(s, i, mode, lastVal, most, local)
    requires s[i] != lastVal && local > most
    ensures ScanState(s, i + 1, lastVal, s[i], local, 0)
  {
    hide Ascending;
    OneMoreFee(s, i);
  }

  lemma ScanOldMode(s: seq<u64>, i: nat, mode: u64, lastVal: u64, most: nat, local: nat)
    requires Ascending(s) && 0 < i < |s| && ScanState(s, i, mode, lastVal, most, local)
    requires s[i] != lastVal && local <= most
    ensures ScanState(s, i + 1, mode, s[i], most, 0)
  {
    hide Ascending;
    OneMoreFee(s, i);
  }

  lemma ScanEnd(s: seq<u64>, mode: u64, lastVal: u64, most: nat, local: nat)
    requires Ascending(s) && s != [] && ScanState(s, |s|, mode, lastVal, most, local)
    ensures IsMode(s, if local > most then s[|s| - 1] else mode)
  {
    assert s[..|s|] == s;
    forall v | v in s
      ensures v <= lastVal && v in multiset(s)
    {
    }
  }

  lemma ModeOfSorted(fees: seq<u64>, m: u64)
    requires IsMode(Sorted(fees), m)
    ensures IsMode(fees, m)
  {
    assert m in multiset(fees);
    forall v | v in fees
      ensures v in Sorted(fees)
    {
      assert v in multiset(Sorted(fees));
    }
  }

  method FindMode(fees: array<u64>) returns (mode: u64)
    requires 0 < fees.Length && Ascending(fees[..])
    ensures IsMode(fees[..], mode)
  {
    hide ScanState, IsMode, Ascending;
    mode := fees[0];
    var lastVal := fees[0];
    var maxRepetitions := 0;
    var localRepetitions := 0;
    ghost var s := fees[..];
    ScanStart(s);
    for i := 1 to fees.Length
      invariant ScanState(s, i, mode, lastVal, maxRepetitions, localRepetitions)
    {
      ScanStep(s, i, mode, lastVal, maxRepetitions, localRepetitions);
      if fees[i] == lastVal {
        localRepetitions := localRepetitions + 1;
        continue;
      }
      if localRepetitions > maxRepetitions {
        maxRepetitions := localRepetitions;
        mode := lastVal;
      }
      lastVal := fees[i];
      localRepetitions := 0;
    }
    ScanEnd(s, mode, lastVal, maxRepetitions, localRepetitions);
    if localRepetitions > maxRepetitions {
      // no later value closed the last run
      mode := fees[fees.Length - 1];
    }
  }

  method ComputeFeeDistribution(fees: array<u64>, ledgerCount: u32) returns (d: FeeDistribution)
    modifies fees
    ensures fees[..] == Sorted(old(fees[..]))
    ensures Describes(d, old(fees[..]), ledgerCount)
  {
    hide IsMode, Sorted, Percentile, IsPercentile;
    if fees.Length == 0 {
      return NO_FEES;
    }
    SortInPlace(fees);
    SortedAscends(old(fees[..]));
    var mode := FindMode(fees);
    d := Distribution(fees[..], mode, ledgerCount);
    DistributionDescribes(old(fees[..]), mode, ledgerCount);
  }

  function Distribution(sorted: seq<u64>, mode: u64, ledgerCount: u32): FeeDistribution
    requires sorted != []
  {
    FeeDistribution(
      sorted[|sorted| - 1], sorted[0], mode,
      Percentile(sorted, 10), Percentile(sorted, 20), Percentile(sorted, 30), Percentile(sorted, 40),
      Percentile(sorted, 50), Percentile(sorted, 60), Percentile(sorted, 70), Percentile(sorted, 80),
      Percentile(sorted, 90), Percentile(sorted, 95), Percentile(sorted, 99),
      |sorted| % U32_COUNT, ledgerCount)
  }

  lemma DistributionDescribes(fees: seq<u64>, mode: u64, ledgerCount: u32)
    requires fees != [] && IsMode(Sorted(fees), mode)
    ensures Describes(Distribution(Sorted(fees), mode, ledgerCount), fees, ledgerCount)
  {
    hide IsMode, IsPercentile, Percentile, Sorted;
    ModeOfSorted(fees, mode);
    SortedExtremes(fees);
    PercentileAtRank(fees, 10);
    PercentileAtRank(fees, 20);
    PercentileAtRank(fees, 30);
    PercentileAtRank(fees, 40);
    PercentileAtRank(fees, 50);
    PercentileAtRank(fees, 60);
    PercentileAtRank(fees, 70);
    PercentileAtRank(fees, 80);
    PercentileAtRank(fees, 90);
    PercentileAtRank(fees, 95);
    PercentileAtRank(fees, 99);
  }

  lemma SortedExtremes(fees: seq<u64>)
    requires fees != []
    ensures var s := Sorted(fees);
            && s[|s| - 1] in fees && (forall v :: v in fees ==> v <= s[|s| - 1])
            && s[0] in fees && (forall v :: v in fees ==> s[0] <= v)
  {
    hide Sorted;
    var s := Sorted(fees);
    SortedAscends(fees);
    assert s[|s| - 1] in multiset(fees) && s[0] in multiset(fees);
    forall v | v in fees
      ensures s[0] <= v <= s[|s| - 1]
    {
      assert v in multiset(fees);
      assert v in s;
    }
  }
}
