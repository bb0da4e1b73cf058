/**
 * The circular buffer of per-ledger buckets
 * (cmd/stellar-rpc/internal/ledgerbucketwindow/ledgerbucketwindow.go).
 *
 * `Window` is the array with a moving head. `Bucket` sequences and the functions
 * `Accepts`, `Push` and `Step` are the bounded queue it refines.
 */
module BucketWindow {
  import opened Words
  import opened Wrappers

  datatype Bucket<T> = Bucket(seqNo: u32, closeTime: int, content: T)

  datatype LedgerInfo = LedgerInfo(sequence: u32, closeTime: int)
  datatype LedgerRange = LedgerRange(first: LedgerInfo, last: LedgerInfo)

  /** Each bucket is one ledger after the bucket before it. */
  ghost predicate Contiguous<T>(q: seq<Bucket<T>>) {
    forall i :: 0 < i < |q| ==> q[i].seqNo == Add32(q[i - 1].seqNo, 1)
  }

  /** The queue takes any first bucket and after that only the next ledger. */
  predicate Accepts<T>(q: seq<Bucket<T>>, ledger: u32) {
    q == [] || ledger == Add32(q[|q| - 1].seqNo, 1)
  }

  /** The last `capacity` elements of `q + [b]`. */
  function Push<T>(q: seq<Bucket<T>>, b: Bucket<T>, capacity: nat): seq<Bucket<T>>
    requires 0 < capacity
  {
    var r := q + [b];
    if |r| <= capacity then r else r[|r| - capacity..]
  }

  /** A call on a window: an append, accepted or not, or a reset. */
  datatype Op<T> = Take(bucket: Bucket<T>) | Clear

  /** The bounded queue after one call. */
  function Step<T>(q: seq<Bucket<T>>, op: Op<T>, capacity: nat): seq<Bucket<T>>
    requires 0 < capacity
  {
    match op
    case Take(b) => if Accepts(q, b.seqNo) then Push(q, b, capacity) else q
    case Clear => []
  }

  function Run<T>(q: seq<Bucket<T>>, ops: seq<Op<T>>, capacity: nat): seq<Bucket<T>>
    requires 0 < capacity
    decreases |ops|
  {
    if ops == [] then q else Run(Step(q, ops[0], capacity), ops[1..], capacity)
  }

  /** The unbounded history since the last reset: every accepted bucket, in order. */
  function Record<T>(taken: seq<Bucket<T>>, op: Op<T>): seq<Bucket<T>> {
    match op
    case Take(b) => if Accepts(taken, b.seqNo) then taken + [b] else taken
    case Clear => []
  }

  function History<T>(taken: seq<Bucket<T>>, ops: seq<Op<T>>): seq<Bucket<T>>
    decreases |ops|
  {
    if ops == [] then taken else History(Record(taken, ops[0]), ops[1..])
  }

  function Suffix<T>(q: seq<T>, n: nat): seq<T> {
    if |q| <= n then q else q[|q| - n..]
  }

  lemma PushKeepsContiguous<T>(q: seq<Bucket<T>>, b: Bucket<T>, capacity: nat)
    requires 0 < capacity && Contiguous(q) && Accepts(q, b.seqNo)
    ensures Contiguous(Push(q, b, capacity))
  {
    assert Contiguous(q + [b]);
  }

  /**
   * Bounding the queue does not change which buckets are taken: after any run of appends and
   * resets a window of any capacity holds exactly the last `capacity` buckets of the history,
   * and the history is a contiguous run of ledgers.
   */
  lemma {:induction false} WindowIsSuffixOfHistory<T>(taken: seq<Bucket<T>>, ops: seq<Op<T>>, capacity: nat)
    requires 0 < capacity && Contiguous(taken)
    ensures Run(Suffix(taken, capacity), ops, capacity) == Suffix(History(taken, ops), capacity)
    ensures Contiguous(History(taken, ops))
    decreases |ops|
  {
    if ops != [] {
      hide Contiguous;
      StepIsSuffixOfRecord(taken, ops[0], capacity);
      WindowIsSuffixOfHistory(Record(taken, ops[0]), ops[1..], capacity);
    }
  }

  lemma StepIsSuffixOfRecord<T>(taken: seq<Bucket<T>>, op: Op<T>, capacity: nat)
    requires 0 < capacity && Contiguous(taken)
    ensures Step(Suffix(taken, capacity), op, capacity) == Suffix(Record(taken, op), capacity)
    ensures Contiguous(Record(taken, op))
  {
    var q := Suffix(taken, capacity);
    assert taken != [] ==> q[|q| - 1] == taken[|taken| - 1];
    if op.Take? && Accepts(taken, op.bucket.seqNo) {
      assert Push(q, op.bucket, capacity) == Suffix(taken + [op.bucket], capacity);
    }
  }

  /** The expected sequence number computed from the head is the successor of the tail. */
  lemma {:induction false} HeadPlusLength<T>(q: seq<Bucket<T>>)
    requires 0 < |q| < U32_COUNT && Contiguous(q)
    ensures Add32(q[0].seqNo, |q|) == Add32(q[|q| - 1].seqNo, 1)
  {
    if |q| > 1 {
      HeadPlusLength(q[..|q| - 1]);
    }
  }

  class Window<T(0)> {
    // The Go slice `buckets`: capacity `cells.Length`, length `len`.
    const cells: array<Bucket<T>>
    var len: nat
    var start: nat

    ghost predicate Valid()
      reads this, cells
    {
      && cells.Length < U32_COUNT
      && len <= cells.Length
      && (if len < cells.Length then start == 0 else start < Max(len, 1))
      && Contiguous(Contents())
    }

    /** The buckets from the head on, wrapping round. */
    function Contents(): (q: seq<Bucket<T>>)
      reads this, cells
      ensures start <= len <= cells.Length ==>
                |q| == len && forall i :: 0 <= i < len ==> q[i] == cells[Index(start, i, len)]
    {
      if start <= len <= cells.Length then cells[start..len] + cells[..start] else []
    }

    constructor (retentionWindow: u32)
      ensures Valid() && fresh(cells)
      ensures cells.Length == retentionWindow && Contents() == []
    {
      cells := new Bucket<T>[retentionWindow];
      len := 0;
      start := 0;
    }

    /** Appends a bucket; a full window evicts and returns its oldest bucket. */
    method Append(bucket: Bucket<T>) returns (ok: bool, evicted: Option<Bucket<T>>)
      requires Valid() && 0 < cells.Length
      modifies this, cells
      ensures Valid()
      ensures ok <==> || old(Contents()) == []
                      || bucket.seqNo == Add32(old(Contents())[|old(Contents())| - 1].seqNo, 1)
      ensures ok ==>
                Contents() == (if old(len) < cells.Length then old(Contents()) else old(Contents())[1..]) + [bucket]
      ensures ok == Accepts(old(Contents()), bucket.seqNo)
      ensures Contents() == if ok then Push(old(Contents()), bucket, cells.Length) else old(Contents())
      ensures evicted == if ok && old(len) == cells.Length then Some(old(Contents())[0]) else None
    {
      ghost var before := Contents();
      var length := len;
      if length > 0 {
        HeadPlusLength(before);
        assert before[0] == cells[start];
        var expected := Add32(cells[start].seqNo, length);
        if expected != bucket.seqNo {
          return false, None;
        }
      }
      PushKeepsContiguous(before, bucket, cells.Length);
      if length < cells.Length {
        PlaceAtEnd(bucket);
        evicted := None;
      } else {
        evicted := OverwriteHead(bucket);
      }
      ok := true;
    }

    /** Room left: the next free cell. */
    method PlaceAtEnd(bucket: Bucket<T>)
      requires Valid() && len < cells.Length
      requires Contiguous(Contents() + [bucket])
      modifies this, cells
      ensures Valid() && Contents() == old(Contents()) + [bucket] && len == old(len) + 1
    {
      ghost var before := Contents();
      cells[len] := bucket;
      len := len + 1;
      assert Contents() == before + [bucket];
    }

    /** A full buffer: the new bucket takes the cell of the oldest, which becomes the end of the queue. */
    method OverwriteHead(bucket: Bucket<T>) returns (evicted: Option<Bucket<T>>)
      requires Valid() && len == cells.Length && 0 < len
      requires Contiguous((Contents() + [bucket])[1..])
      modifies this, cells
      ensures Valid() && Contents() == (old(Contents()) + [bucket])[1..] && len == old(len)
      ensures evicted == Some(old(Contents())[0])
    {
      hide Contiguous, Contents;
      ghost var before := cells[..];
      FullContents();
      evicted := Some(cells[start]);
      cells[start] := bucket;
      IndexIsModulo(start, 1, len);
      RotateIsPush(before, cells[..], start, bucket);
      start := (start + 1) % len;
      FullContents();
    }

    /** A full buffer's contents as the cells from the head and then those before it. */
    lemma FullContents()
      requires len == cells.Length && start < len
      ensures Contents() == cells[..][start..] + cells[..][..start]
      ensures Contents()[0] == cells[start] && |Contents()| == len
    {
      assert cells[start..len] == cells[..][start..] && cells[..start] == cells[..][..start];
    }

    /** The i-th oldest bucket. */
    method Get(i: u32) returns (b: Bucket<T>)
      requires Valid() && i < len
      ensures b == Contents()[i]
    {
      IndexIsModulo(start, i, len);
      b := cells[(start + i) % len];
    }

    method GetLedgerRange() returns (r: LedgerRange)
      requires Valid()
      ensures Contents() == [] ==> r == LedgerRange(LedgerInfo(0, 0), LedgerInfo(0, 0))
      ensures Contents() != [] ==>
                && r.first == LedgerInfo(Contents()[0].seqNo, Contents()[0].closeTime)
                && r.last == LedgerInfo(Contents()[len - 1].seqNo, Contents()[len - 1].closeTime)
                && r.last.sequence == Add32(r.first.sequence, len - 1)
    {
      if len == 0 {
        return LedgerRange(LedgerInfo(0, 0), LedgerInfo(0, 0));
      }
      var first := Get(0);
      var last := Get(len - 1);
      HeadPlusLength(Contents());
      r := LedgerRange(LedgerInfo(first.seqNo, first.closeTime), LedgerInfo(last.seqNo, last.closeTime));
    }

    method Reset()
      requires Valid()
      modifies this
      ensures Valid() && Contents() == []
    {
      len := 0;
      start := 0;
    }
  }

  /** `(start + i) % len` for a head and an offset below `len`. */
  function Index(start: nat, i: nat, len: nat): (r: nat)
    requires i < len && start <= len
    ensures r < len
  {
    if start + i < len then start + i else start + i - len
  }

  lemma IndexIsModulo(start: nat, i: nat, len: nat)
    requires start < len && i <= len
    ensures (start + i) % len == if start + i < len then start + i else start + i - len
  {
    if start + i < len {
      SmallMod(start + i, len);
    } else {
      SmallMod(start + i - len, len);
    }
  }

  lemma SmallMod(x: nat, n: nat)
    requires x < n
    ensures x % n == x && (x + n) % n == x
  {
    assert (x + n) / n == 1 by {
      assert x + n == 1 * n + x;
    }
  }

  /** Overwriting the head and moving it on is dropping the oldest and adding at the end. */
  lemma RotateIsPush<T>(was: seq<T>, now: seq<T>, start: nat, b: T)
    requires start < |was| && now == was[start := b]
    ensures var next := if start + 1 == |was| then 0 else start + 1;
            now[next..] + now[..next] == (was[start..] + was[..start] + [b])[1..]
  {
    if start + 1 == |was| {
      assert now[0..] + now[..0] == was[..start] + [b];
    } else {
      assert now[start + 1..] == was[start + 1..];
      assert now[..start + 1] == was[..start] + [b];
    }
  }
}
