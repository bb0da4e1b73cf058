/**
 * Sliding windows of fees with a cached distribution
 * (FeeWindow and FeeWindows in cmd/stellar-rpc/internal/feewindow/feewindow.go).
 */
module FeeWindow {
  import opened Words
  import opened BucketWindow
  import opened FeeStats
  import opened Wrappers

  type FeeBucket = Bucket<seq<u64>>

  /** All fees in a window, oldest ledger first. */
  function AllFees(q: seq<FeeBucket>): seq<u64> {
    if q == [] then [] else AllFees(q[..|q| - 1]) + q[|q| - 1].content
  }

  /** How many fees come before those of bucket i. */
  function Offset(q: seq<FeeBucket>, i: nat): nat
    requires i <= |q|
  {
    if i == 0 then 0 else Offset(q, i - 1) + |q[i - 1].content|
  }

  lemma {:induction false} OffsetOfPrefix(q: seq<FeeBucket>, n: nat, i: nat)
    requires i <= n <= |q|
    ensures Offset(q[..n], i) == Offset(q, i)
  {
    if i > 0 {
      OffsetOfPrefix(q, n, i - 1);
    }
  }

  lemma {:induction false} AllFeesCount(q: seq<FeeBucket>)
    ensures |AllFees(q)| == Offset(q, |q|)
  {
    if q != [] {
      AllFeesCount(q[..|q| - 1]);
      OffsetOfPrefix(q, |q| - 1, |q| - 1);
    }
  }

  /** Every bucket's fees are in the list, one bucket after the other; AllFeesCount says that nothing else is. */
  lemma {:induction false} AllFeesLayout(q: seq<FeeBucket>, i: nat)
    requires i < |q|
    ensures Offset(q, i + 1) <= |AllFees(q)| && AllFees(q)[Offset(q, i)..Offset(q, i + 1)] == q[i].content
  {
    hide AllFees;
    var n := |q| - 1;
    assert AllFees(q) == AllFees(q[..n]) + q[n].content by {
      LastBucket(q);
    }
    AllFeesCount(q[..n]);
    OffsetOfPrefix(q, n, n);
    if i < n {
      AllFeesLayout(q[..n], i);
      OffsetOfPrefix(q, n, i);
      OffsetOfPrefix(q, n, i + 1);
    }
  }

  lemma LastBucket(q: seq<FeeBucket>)
    requires q != []
    ensures AllFees(q) == AllFees(q[..|q| - 1]) + q[|q| - 1].content
  {
  }

  class FeeWindow {
    const feesPerLedger: Window<seq<u64>>
    var distribution: FeeDistribution

    ghost predicate Valid()
      reads this, feesPerLedger, feesPerLedger.cells
    {
      && feesPerLedger.Valid()
      && 0 < feesPerLedger.cells.Length
      && Describes(distribution, AllFees(feesPerLedger.Contents()), feesPerLedger.len)
    }

    constructor (retentionWindow: u32)
      requires 0 < retentionWindow
      ensures Valid() && fresh(feesPerLedger) && fresh(feesPerLedger.cells)
      ensures feesPerLedger.cells.Length == retentionWindow && feesPerLedger.Contents() == []
    {
      feesPerLedger := new Window<seq<u64>>(retentionWindow);
      distribution := NO_FEES;
    }

    /** Appends a ledger and recomputes the distribution; a rejected ledger changes nothing. */
    method AppendLedgerFees(fees: FeeBucket) returns (ok: bool)
      requires Valid()
      modifies this, feesPerLedger, feesPerLedger.cells
      ensures Valid()
      ensures ok == Accepts(old(feesPerLedger.Contents()), fees.seqNo)
      ensures feesPerLedger.Contents()
           == Step(old(feesPerLedger.Contents()), Take(fees), feesPerLedger.cells.Length)
      ensures !ok ==> distribution == old(distribution)
    {
      hide Describes, Accepts, Push, AllFees;
      var accepted, _ := feesPerLedger.Append(fees);
      if !accepted {
        return false;
      }
      distribution := Summarize(feesPerLedger);
      ok := true;
    }

    method Reset()
      requires Valid()
      modifies this, feesPerLedger
      ensures Valid() && feesPerLedger.Contents() == [] && distribution == NO_FEES
    {
      feesPerLedger.Reset();
      distribution := NO_FEES;
    }
  }

  /** The distribution of everything in the window. */
  method Summarize(w: Window<seq<u64>>) returns (d: FeeDistribution)
    requires w.Valid()
    ensures Describes(d, AllFees(w.Contents()), w.len)
  {
    hide Describes, AllFees;
    var allFees := Gather(w);
    var buffer := new u64[|allFees|](i requires 0 <= i < |allFees| => allFees[i]);
    assert buffer[..] == allFees;
    d := ComputeFeeDistribution(buffer, w.len);
  }

  /** Concatenates the bucket contents, reading the window through `Get`. */
  method Gather(w: Window<seq<u64>>) returns (allFees: seq<u64>)
    requires w.Valid()
    ensures allFees == AllFees(w.Contents())
  {
    hide AllFees;
    ghost var buckets := w.Contents();
    allFees := [];
    NoFeesYet(buckets);
    for i := 0 to w.len
      invariant allFees == AllFees(buckets[..i])
    {
      var b := w.Get(i);
      OneMoreBucket(buckets, i);
      allFees := allFees + b.content;
    }
    assert buckets[..w.len] == buckets;
  }

  lemma NoFeesYet(buckets: seq<FeeBucket>)
    ensures AllFees(buckets[..0]) == []
  {
  }

  lemma OneMoreBucket(buckets: seq<FeeBucket>, i: nat)
    requires i < |buckets|
    ensures AllFees(buckets[..i + 1]) == AllFees(buckets[..i]) + buckets[i].content
  {
    assert buckets[..i + 1][..i] == buckets[..i];
  }

  // ---------- two windows of different capacity ----------

  /** Both windows are empty or end in the same ledger. */
  ghost predicate InStep(a: seq<FeeBucket>, b: seq<FeeBucket>) {
    && (a == [] <==> b == [])
    && (a != [] ==> a[|a| - 1].seqNo == b[|b| - 1].seqNo)
  }

  lemma StepInStep(a: seq<FeeBucket>, b: seq<FeeBucket>, fees: LedgerFees, m: nat, n: nat)
    requires InStep(a, b) && 0 < m && 0 < n
    ensures Accepts(a, fees.ledger) <==> Accepts(b, fees.ledger)
    ensures InStep(Step(a, Take(ClassicBucket(fees)), m), Step(b, Take(SorobanBucket(fees)), n))
  {
  }

  lemma RejectedStep(q: seq<FeeBucket>, b: FeeBucket, n: nat)
    requires 0 < n && !Accepts(q, b.seqNo)
    ensures Step(q, Take(b), n) == q
  {
  }

  /** The fees of one ledger, split between the classic and the Soroban window. */
  datatype LedgerFees = LedgerFees(ledger: u32, closeTime: int, classic: seq<u64>, soroban: seq<u64>)

  function ClassicBucket(f: LedgerFees): FeeBucket {
    Bucket(f.ledger, f.closeTime, f.classic)
  }

  function SorobanBucket(f: LedgerFees): FeeBucket {
    Bucket(f.ledger, f.closeTime, f.soroban)
  }

  class FeeWindows {
    const sorobanInclusionFeeWindow: FeeWindow
    const classicFeeWindow: FeeWindow

    function Footprint(): set<object> {
      {sorobanInclusionFeeWindow, sorobanInclusionFeeWindow.feesPerLedger,
       sorobanInclusionFeeWindow.feesPerLedger.cells,
       classicFeeWindow, classicFeeWindow.feesPerLedger, classicFeeWindow.feesPerLedger.cells}
    }

    function Classic(): seq<FeeBucket>
      reads classicFeeWindow.feesPerLedger, classicFeeWindow.feesPerLedger.cells
    {
      classicFeeWindow.feesPerLedger.Contents()
    }

    function Soroban(): seq<FeeBucket>
      reads sorobanInclusionFeeWindow.feesPerLedger, sorobanInclusionFeeWindow.feesPerLedger.cells
    {
      sorobanInclusionFeeWindow.feesPerLedger.Contents()
    }

    ghost predicate Valid()
      reads Footprint()
    {
      && sorobanInclusionFeeWindow != classicFeeWindow
      && sorobanInclusionFeeWindow.feesPerLedger != classicFeeWindow.feesPerLedger
      && sorobanInclusionFeeWindow.feesPerLedger.cells != classicFeeWindow.feesPerLedger.cells
      && sorobanInclusionFeeWindow.Valid() && classicFeeWindow.Valid()
      && InStep(Classic(), Soroban())
    }

    constructor (classicRetention: u32, sorobanRetention: u32)
      requires 0 < classicRetention && 0 < sorobanRetention
      ensures Valid() && Classic() == [] && Soroban() == []
    {
      sorobanInclusionFeeWindow := new FeeWindow(sorobanRetention);
      classicFeeWindow := new FeeWindow(classicRetention);
    }

    /**
     * The two appends of IngestFees. The second never fails after the first succeeded, so a ledger
     * enters both windows or neither.
     */
    method IngestFees(fees: LedgerFees) returns (ok: bool)
      requires Valid()
      modifies Footprint()
      ensures Valid()
      ensures ok == Accepts(old(Classic()), fees.ledger) == Accepts(old(Soroban()), fees.ledger)
      ensures Classic() == Step(old(Classic()), Take(Bucket(fees.ledger, fees.closeTime, fees.classic)),
                                classicFeeWindow.feesPerLedger.cells.Length)
      ensures Soroban() == Step(old(Soroban()), Take(Bucket(fees.ledger, fees.closeTime, fees.soroban)),
                                sorobanInclusionFeeWindow.feesPerLedger.cells.Length)
    {
      hide Describes, AllFees, Accepts, Step, Push, Contiguous, InStep;
      StepInStep(Classic(), Soroban(), fees, classicFeeWindow.feesPerLedger.cells.Length,
                 sorobanInclusionFeeWindow.feesPerLedger.cells.Length);
      ok := classicFeeWindow.AppendLedgerFees(ClassicBucket(fees));
      if !ok {
        RejectedStep(old(Soroban()), SorobanBucket(fees), sorobanInclusionFeeWindow.feesPerLedger.cells.Length);
        return;
      }
      ok := sorobanInclusionFeeWindow.AppendLedgerFees(SorobanBucket(fees));
    }

    method Reset()
      requires Valid()
      modifies Footprint()
      ensures Valid() && Classic() == [] && Soroban() == []
    {
      sorobanInclusionFeeWindow.Reset();
      classicFeeWindow.Reset();
    }
  }

  /** Calls on the pair of windows: `None` is a reset. */
  function ClassicOps(calls: seq<Option<LedgerFees>>): seq<Op<seq<u64>>> {
    if calls == [] then []
    else [if calls[0].Some? then Take(ClassicBucket(calls[0].value)) else Clear] + ClassicOps(calls[1..])
  }

  function SorobanOps(calls: seq<Option<LedgerFees>>): seq<Op<seq<u64>>> {
    if calls == [] then []
    else [if calls[0].Some? then Take(SorobanBucket(calls[0].value)) else Clear] + SorobanOps(calls[1..])
  }

  lemma SameNext(a: seq<FeeBucket>, b: seq<FeeBucket>, next: u32)
    requires InStep(a, b)
    ensures Accepts(a, next) <==> Accepts(b, next)
  {
  }

  lemma CallInStep(a: seq<FeeBucket>, b: seq<FeeBucket>, call: Option<LedgerFees>, m: nat, n: nat)
    requires InStep(a, b) && 0 < m && 0 < n
    ensures InStep(Step(a, if call.Some? then Take(ClassicBucket(call.value)) else Clear, m),
                   Step(b, if call.Some? then Take(SorobanBucket(call.value)) else Clear, n))
  {
    if call.Some? {
      StepInStep(a, b, call.value, m, n);
    }
  }

  /** After any run, windows of any two capacities accept the same next ledger. */
  lemma {:induction false} WindowsAcceptInLockstep(
      a: seq<FeeBucket>, b: seq<FeeBucket>, calls: seq<Option<LedgerFees>>, m: nat, n: nat, next: u32)
    requires 0 < m && 0 < n && InStep(a, b)
    ensures var x, y := Run(a, ClassicOps(calls), m), Run(b, SorobanOps(calls), n);
            InStep(x, y) && (Accepts(x, next) <==> Accepts(y, next))
    decreases |calls|
  {
    hide Step, InStep, Accepts;
    SameNext(a, b, next);
    if calls != [] {
      var opA, opB := ClassicOps(calls)[0], SorobanOps(calls)[0];
      assert ClassicOps(calls)[1..] == ClassicOps(calls[1..]);
      assert SorobanOps(calls)[1..] == SorobanOps(calls[1..]);
      CallInStep(a, b, calls[0], m, n);
      WindowsAcceptInLockstep(Step(a, opA, m), Step(b, opB, n), calls[1..], m, n, next);
    }
  }

  // ---------- whose fees a window holds ----------

  /** The classic fees of a ledger that was taken in by one of the calls. */
  ghost predicate ClassicOf(calls: seq<Option<LedgerFees>>, b: FeeBucket) {
    exists f :: Some(f) in calls && b.seqNo == f.ledger && b.closeTime == f.closeTime && b.content == f.classic
  }

  ghost predicate SorobanOf(calls: seq<Option<LedgerFees>>, b: FeeBucket) {
    exists f :: Some(f) in calls && b.seqNo == f.ledger && b.closeTime == f.closeTime && b.content == f.soroban
  }

  lemma StepMembers(q: seq<FeeBucket>, op: Op<seq<u64>>, n: nat, b: FeeBucket)
    requires 0 < n && b in Step(q, op, n)
    ensures b in q || op == Take(b)
  {
  }

  /** After any run every bucket of the classic window holds the classic fees of its own ledger. */
  lemma {:induction false} ClassicWindowHoldsClassicFees(
      q: seq<FeeBucket>, calls: seq<Option<LedgerFees>>, n: nat, b: FeeBucket)
    requires 0 < n && b in Run(q, ClassicOps(calls), n)
    ensures b in q || ClassicOf(calls, b)
    decreases |calls|
  {
    if calls != [] {
      var op := ClassicOps(calls)[0];
      assert ClassicOps(calls)[1..] == ClassicOps(calls[1..]);
      ClassicWindowHoldsClassicFees(Step(q, op, n), calls[1..], n, b);
      if b in Step(q, op, n) {
        StepMembers(q, op, n, b);
        assert op == Take(b) ==> Some(calls[0].value) in calls;
      }
    }
  }

  /** And every bucket of the Soroban window its Soroban fees. */
  lemma {:induction false} SorobanWindowHoldsSorobanFees(
      q: seq<FeeBucket>, calls: seq<Option<LedgerFees>>, n: nat, b: FeeBucket)
    requires 0 < n && b in Run(q, SorobanOps(calls), n)
    ensures b in q || SorobanOf(calls, b)
    decreases |calls|
  {
    if calls != [] {
      var op := SorobanOps(calls)[0];
      assert SorobanOps(calls)[1..] == SorobanOps(calls[1..]);
      SorobanWindowHoldsSorobanFees(Step(q, op, n), calls[1..], n, b);
      if b in Step(q, op, n) {
        StepMembers(q, op, n, b);
        assert op == Take(b) ==> Some(calls[0].value) in calls;
      }
    }
  }
}
