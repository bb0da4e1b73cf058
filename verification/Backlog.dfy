/**
 * The backlog limiter as a protocol of atomic steps
 * (cmd/stellar-rpc/internal/network/backlogQ.go, ServeHTTP and Handle).
 *
 * Any number of threads serve requests. Each atomic operation of the source is one step of one
 * thread, and the steps of different threads interleave freely.
 */
module Backlog {
  import opened Words

  /** Where a thread stands in its current request. */
  datatype Stage =
    | Idle
    | Refused     // its increment passed the limit; the increment is still in place
    | Undone      // the increment is taken back; the log flag is not yet tried
    | Admitted    // counted, gauge not yet raised
    | Serving     // inside the downstream handler
    | Leaving     // handler returned, pending not yet lowered
    | Lowered     // pending lowered, gauge not yet
    | Unflagged   // gauge lowered, limitReached not yet cleared

  /** One atomic operation of the source. */
  datatype Operation =
    | Arrive      // atomic.AddUint64(&q.pending, 1) and the comparison with the limit
    | Undo        // atomic.AddUint64(&q.pending, ^uint64(0)) of a refused request
    | Flag        // atomic.CompareAndSwapUint64(&q.limitReached, 0, 1)
    | RaiseGauge  // q.gauge.Inc()
    | Return      // the downstream handler returns
    | Lower       // the deferred atomic.AddUint64(&q.pending, ^uint64(0))
    | DropGauge   // q.gauge.Dec()
    | ClearFlag   // atomic.StoreUint64(&q.limitReached, 0)

  datatype State = State(limit: u64, pending: u64, gauge: int, limitReached: u64, logged: nat, threads: seq<Stage>)

  datatype Step = Step(thread: nat, op: Operation)

  /** atomic.AddUint64(&x, 1) */
  function Increment(x: u64): u64 {
    if x + 1 == U64_COUNT then 0 else x + 1
  }

  /** atomic.AddUint64(&x, ^uint64(0)) */
  function Decrement(x: u64): u64 {
    if x == 0 then U64_COUNT - 1 else x - 1
  }

  /** The stage in which a thread performs an operation. */
  function Before(op: Operation): Stage {
    match op
    case Arrive => Idle
    case Undo => Refused
    case Flag => Undone
    case RaiseGauge => Admitted
    case Return => Serving
    case Lower => Leaving
    case DropGauge => Lowered
    case ClearFlag => Unflagged
  }

  predicate Enabled(s: State, step: Step) {
    step.thread < |s.threads| && s.threads[step.thread] == Before(step.op)
  }

  function Apply(s: State, step: Step): State
    requires Enabled(s, step)
  {
    var t := step.thread;
    match step.op
    case Arrive =>
      var newPending := Increment(s.pending);
      s.(pending := newPending, threads := s.threads[t := if newPending > s.limit then Refused else Admitted])
    case Undo => s.(pending := Decrement(s.pending), threads := s.threads[t := Undone])
    case Flag =>
      var s' := s.(threads := s.threads[t := Idle]);
      if s.limitReached == 0 then s'.(limitReached := 1, logged := s.logged + 1) else s'
    case RaiseGauge => s.(gauge := s.gauge + 1, threads := s.threads[t := Serving])
    case Return => s.(threads := s.threads[t := Leaving])
    case Lower => s.(pending := Decrement(s.pending), threads := s.threads[t := Lowered])
    case DropGauge => s.(gauge := s.gauge - 1, threads := s.threads[t := Unflagged])
    case ClearFlag => s.(limitReached := 0, threads := s.threads[t := Idle])
  }

  predicate Legal(s: State, run: seq<Step>)
    decreases |run|
  {
    run == [] || (Enabled(s, run[0]) && Legal(Apply(s, run[0]), run[1..]))
  }

  function After(s: State, run: seq<Step>): State
    requires Legal(s, run)
    decreases |run|
  {
    if run == [] then s else After(Apply(s, run[0]), run[1..])
  }

  /** No requests yet; any number of threads that a machine can hold. */
  predicate Start(s: State) {
    && s.pending == 0 && s.gauge == 0 && s.limitReached == 0
    && |s.threads| < U64_COUNT
    && forall t :: 0 <= t < |s.threads| ==> s.threads[t] == Idle
  }

  // ---------- counting threads ----------

  /** Admitted and not yet taken off `pending`. */
  const HOLDING: set<Stage> := {Admitted, Serving, Leaving}
  /** Still counted in `pending`. */
  const COUNTED: set<Stage> := {Refused, Admitted, Serving, Leaving}
  /** Gauge raised and not lowered. */
  const GAUGED: set<Stage> := {Serving, Leaving, Lowered}

  function Count(threads: seq<Stage>, stages: set<Stage>): (n: nat)
    ensures n <= |threads|
  {
    if threads == [] then 0
    else (if threads[0] in stages then 1 else 0) + Count(threads[1..], stages)
  }

  lemma {:induction false} CountUpdate(threads: seq<Stage>, t: nat, stage: Stage, stages: set<Stage>)
    requires t < |threads|
    ensures Count(threads[t := stage], stages)
         == Count(threads, stages) - (if threads[t] in stages then 1 else 0) + (if stage in stages then 1 else 0)
  {
    var u := threads[t := stage];
    if t == 0 {
      assert u[1..] == threads[1..];
    } else {
      assert u[1..] == threads[1..][t - 1 := stage];
      CountUpdate(threads[1..], t - 1, stage, stages);
    }
  }

  lemma {:induction false} CountSubset(threads: seq<Stage>, a: set<Stage>, b: set<Stage>)
    requires a <= b
    ensures Count(threads, a) <= Count(threads, b)
  {
    if threads != [] {
      CountSubset(threads[1..], a, b);
    }
  }

  lemma {:induction false} CountNone(threads: seq<Stage>, stages: set<Stage>)
    requires forall t :: 0 <= t < |threads| ==> threads[t] !in stages
    ensures Count(threads, stages) == 0
  {
    if threads != [] {
      CountNone(threads[1..], stages);
    }
  }

  // ---------- the invariant ----------

  ghost predicate Invariant(s: State) {
    && |s.threads| < U64_COUNT
    && s.pending == Count(s.threads, COUNTED)
    && s.gauge == Count(s.threads, GAUGED)
    && Count(s.threads, HOLDING) <= s.limit
  }

  lemma StartIsInvariant(s: State)
    requires Start(s)
    ensures Invariant(s)
  {
    CountNone(s.threads, COUNTED);
    CountNone(s.threads, GAUGED);
    CountNone(s.threads, HOLDING);
  }

  lemma StepKeepsInvariant(s: State, step: Step)
    requires Invariant(s) && Enabled(s, step)
    ensures Invariant(Apply(s, step))
  {
    hide Count;
    var s' := Apply(s, step);
    var stage := s'.threads[step.thread];
    CountUpdate(s.threads, step.thread, stage, COUNTED);
    CountUpdate(s.threads, step.thread, stage, GAUGED);
    CountUpdate(s.threads, step.thread, stage, HOLDING);
    CountSubset(s.threads, HOLDING, COUNTED);
    CountSubset(s'.threads, HOLDING, COUNTED);
  }

  lemma {:induction false} RunKeepsInvariant(s: State, run: seq<Step>)
    requires Invariant(s) && Legal(s, run)
    ensures Invariant(After(s, run)) && After(s, run).limit == s.limit
    decreases |run|
  {
    if run != [] {
      StepKeepsInvariant(s, run[0]);
      RunKeepsInvariant(Apply(s, run[0]), run[1..]);
    }
  }

  // ---------- results ----------

  /** At no point of any interleaving are more than `limit` requests inside the handler. */
  lemma HandlerNeverExceedsLimit(s: State, run: seq<Step>)
    requires Start(s) && Legal(s, run)
    ensures Count(After(s, run).threads, {Serving}) <= s.limit
  {
    StartIsInvariant(s);
    RunKeepsInvariant(s, run);
    CountSubset(After(s, run).threads, {Serving}, HOLDING);
  }

  /** The shared counters say exactly how many requests are where; the uint64 counter never wraps. */
  lemma CountersAreExact(s: State, run: seq<Step>)
    requires Start(s) && Legal(s, run)
    ensures After(s, run).gauge == Count(After(s, run).threads, GAUGED)
    ensures After(s, run).pending
         == Count(After(s, run).threads, HOLDING) + Count(After(s, run).threads, {Refused})
  {
    StartIsInvariant(s);
    RunKeepsInvariant(s, run);
    CountSplit(After(s, run).threads);
  }

  lemma {:induction false} CountSplit(threads: seq<Stage>)
    ensures Count(threads, COUNTED) == Count(threads, HOLDING) + Count(threads, {Refused})
  {
    if threads != [] {
      CountSplit(threads[1..]);
    }
  }

  /** When no request is under way, pending and gauge are back to zero. */
  lemma CountersReturnToZero(s: State, run: seq<Step>)
    requires Start(s) && Legal(s, run)
    requires forall t :: 0 <= t < |After(s, run).threads| ==> After(s, run).threads[t] == Idle
    ensures After(s, run).pending == 0 && After(s, run).gauge == 0
  {
    StartIsInvariant(s);
    RunKeepsInvariant(s, run);
    CountNone(After(s, run).threads, COUNTED);
    CountNone(After(s, run).threads, GAUGED);
  }

  /** A request that arrives while fewer than `limit` are counted is admitted; otherwise it is refused. */
  lemma AdmissionIsExact(s: State, run: seq<Step>, t: nat)
    requires Start(s) && Legal(s, run) && Enabled(After(s, run), Step(t, Arrive))
    ensures Apply(After(s, run), Step(t, Arrive)).threads[t] == Admitted
       <==> Count(After(s, run).threads, COUNTED) < s.limit
  {
    StartIsInvariant(s);
    RunKeepsInvariant(s, run);
    CountUpdate(After(s, run).threads, t, Refused, COUNTED);
  }

  // ---------- the log ----------

  ghost predicate Occurs(run: seq<Step>, op: Operation) {
    exists k :: 0 <= k < |run| && run[k].op == op
  }

  lemma OccursLater(run: seq<Step>, op: Operation)
    requires run != []
    ensures Occurs(run, op) <==> run[0].op == op || Occurs(run[1..], op)
  {
    assert forall k :: 0 < k < |run| ==> run[k] == run[1..][k - 1];
  }

  /**
   * Refusals are logged once until a request has been served: until the next reset of the flag a run logs one
   * line if it tries the flag at all and the flag was down, and none otherwise.
   */
  lemma {:induction false} OneLogUntilServed(s: State, run: seq<Step>)
    requires Legal(s, run) && s.limitReached <= 1 && !Occurs(run, ClearFlag)
    ensures After(s, run).logged == s.logged + if s.limitReached == 0 && Occurs(run, Flag) then 1 else 0
    ensures After(s, run).limitReached == if Occurs(run, Flag) then 1 else s.limitReached
    decreases |run|
  {
    hide Occurs;
    if run == [] {
      NothingOccurs(Flag);
    } else {
      OccursLater(run, ClearFlag);
      OccursLater(run, Flag);
      OneLogUntilServed(Apply(s, run[0]), run[1..]);
    }
  }

  lemma NothingOccurs(op: Operation)
    ensures !Occurs([], op)
  {
  }

  /** The end of a served request takes the flag down and logs nothing. */
  lemma ServedResetsFlag(s: State, step: Step)
    requires Enabled(s, step) && step.op == ClearFlag
    ensures Apply(s, step).limitReached == 0 && Apply(s, step).logged == s.logged
    ensures Apply(s, step).threads[step.thread] == Idle && Apply(s, step).pending == s.pending
  {
  }
}
