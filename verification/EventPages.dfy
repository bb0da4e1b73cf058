/**
 * Pages of events (getEvents in cmd/stellar-rpc/internal/methods/get_events.go and GetEvents in
 * cmd/stellar-rpc/internal/db/event.go).
 *
 * `all` is every event ever ingested in a run, in the order of the cursors. A call sees the events of
 * the ledgers [first, last] that are stored at the time; later calls see later ledgers and
 * may have lost early ones.
 */
module EventPages {
  import opened Words
  import opened Cursors
  import opened Ledgers
  import opened EventOrder
  import opened EventFilter
  import opened Wrappers

  const LEDGER_SCAN_LIMIT: u32 := 10_000

  // ---------- selecting rows ----------

  function And(p: EventRow -> bool, q: EventRow -> bool): EventRow -> bool {
    r => p(r) && q(r)
  }

  function Or(p: EventRow -> bool, q: EventRow -> bool): EventRow -> bool {
    r => p(r) || q(r)
  }

  function Const(b: bool): EventRow -> bool {
    r => b
  }

  function Within(a: Cursor, b: Cursor): EventRow -> bool {
    (r: EventRow) => InRange(r.cursor, a, b)
  }

  function UpTo(c: Cursor): EventRow -> bool {
    (r: EventRow) => AtMost(r.cursor, c)
  }

  function InLedgers(first: LedgerNo, last: LedgerNo): EventRow -> bool {
    (r: EventRow) => first <= r.cursor.ledger <= last
  }

  function NotBelow(first: LedgerNo): EventRow -> bool {
    (r: EventRow) => first <= r.cursor.ledger
  }

  function MatchedBy(filters: seq<Filter>): EventRow -> bool {
    (r: EventRow) => Matches(filters, r.event)
  }

  function PushedDown(ids: seq<ContractId>, types: seq<int>, topics: seq<seq<TopicCondition>>): EventRow -> bool {
    (r: EventRow) => Where(ids, types, topics, r.event)
  }

  function IdWithin(a: Cursor, b: Cursor): EventRow -> bool {
    (r: EventRow) => !StrLess(r.Id(), ToString(a)) && StrLess(r.Id(), ToString(b))
  }

  function Select(rows: seq<EventRow>, p: EventRow -> bool): seq<EventRow> {
    if rows == [] then []
    else Kept(rows[0], p) + Select(rows[1..], p)
  }

  function Kept(r: EventRow, p: EventRow -> bool): seq<EventRow> {
    if p(r) then [r] else []
  }

  lemma SelectHead(rows: seq<EventRow>, p: EventRow -> bool)
    requires rows != []
    ensures Select(rows, p) == Kept(rows[0], p) + Select(rows[1..], p)
  {
  }

  lemma {:induction false} SelectMembers(rows: seq<EventRow>, p: EventRow -> bool)
    ensures forall r :: r in Select(rows, p) <==> r in rows && p(r)
  {
    if rows != [] {
      SelectMembers(rows[1..], p);
    }
  }

  /** Only what the predicate says about the rows at hand matters. */
  lemma {:induction false} SelectSame(rows: seq<EventRow>, p: EventRow -> bool, q: EventRow -> bool)
    requires forall r :: r in rows ==> p(r) == q(r)
    ensures Select(rows, p) == Select(rows, q)
  {
    if rows != [] {
      assert rows[0] in rows;
      SelectSame(rows[1..], p, q);
    }
  }

  lemma {:induction false} SelectTwice(rows: seq<EventRow>, p: EventRow -> bool, q: EventRow -> bool)
    ensures Select(Select(rows, p), q) == Select(rows, And(p, q))
  {
    if rows != [] {
      SelectTwice(rows[1..], p, q);
      if p(rows[0]) {
        assert Select(rows, p)[1..] == Select(rows[1..], p);
      } else {
        assert Select(rows, p) == Select(rows[1..], p);
      }
    }
  }

  lemma {:induction false} SelectConcat(a: seq<EventRow>, b: seq<EventRow>, p: EventRow -> bool)
    ensures Select(a + b, p) == Select(a, p) + Select(b, p)
  {
    hide Select, Kept;
    if a == [] {
      assert a + b == b;
      SelectEmpty(a, p);
    } else {
      ConcatTail(a, b);
      SelectConcat(a[1..], b, p);
      SelectHead(a, p);
      SelectHead(a + b, p);
      Associate(Kept(a[0], p), Select(a[1..], p), Select(b, p));
    }
  }

  lemma SelectEmpty(rows: seq<EventRow>, p: EventRow -> bool)
    requires rows == []
    ensures Select(rows, p) == []
  {
  }

  lemma ConcatTail(a: seq<EventRow>, b: seq<EventRow>)
    requires a != []
    ensures a + b != [] && (a + b)[0] == a[0] && (a + b)[1..] == a[1..] + b
  {
  }

  lemma Associate(a: seq<EventRow>, b: seq<EventRow>, c: seq<EventRow>)
    ensures (a + b) + c == a + (b + c)
  {
  }

  lemma {:induction false} SelectAscends(rows: seq<EventRow>, p: EventRow -> bool)
    requires Ascending(rows)
    ensures Ascending(Select(rows, p))
  {
    if rows != [] {
      SelectAscends(rows[1..], p);
      SelectMembers(rows[1..], p);
      var rest := Select(rows[1..], p);
      forall i | 0 <= i < |rest| && p(rows[0])
        ensures Less(rows[0].cursor, rest[i].cursor)
      {
        assert rest[i] in rows[1..];
      }
    }
  }

  /** Rows in order split at a cursor. */
  lemma {:induction false} SelectSplits(rows: seq<EventRow>, p: EventRow -> bool, q: EventRow -> bool)
    requires Ascending(rows)
    requires forall r, s :: r in rows && s in rows && p(r) && q(s) ==> Less(r.cursor, s.cursor)
    ensures Select(rows, p) + Select(rows, q) == Select(rows, Or(p, q))
  {
    hide Less, Select, Kept, Ascending;
    if rows == [] {
      SelectEmpty(rows, p);
      SelectEmpty(rows, q);
      SelectEmpty(rows, Or(p, q));
    } else if q(rows[0]) {
      NothingBeforeFirst(rows, p, q);
      SelectSame(rows, p, Const(false));
      SelectNone(rows);
      SelectSame(rows, q, Or(p, q));
    } else {
      AscendingTail(rows);
      SelectSplits(rows[1..], p, q);
      SelectHead(rows, p);
      SelectHead(rows, q);
      SelectHead(rows, Or(p, q));
      KeptOfOr(rows[0], p, q);
      Associate(Kept(rows[0], p), Select(rows[1..], p), Select(rows[1..], q));
    }
  }

  lemma KeptOfOr(r: EventRow, p: EventRow -> bool, q: EventRow -> bool)
    requires !q(r)
    ensures Kept(r, Or(p, q)) == Kept(r, p) && Kept(r, q) == []
  {
  }

  lemma AscendingTail(rows: seq<EventRow>)
    requires Ascending(rows) && rows != []
    ensures Ascending(rows[1..])
  {
  }

  lemma NothingBeforeFirst(rows: seq<EventRow>, p: EventRow -> bool, q: EventRow -> bool)
    requires Ascending(rows) && rows != [] && q(rows[0])
    requires forall r, s :: r in rows && s in rows && p(r) && q(s) ==> Less(r.cursor, s.cursor)
    ensures forall r :: r in rows ==> !p(r)
  {
    forall i | 0 <= i < |rows|
      ensures !p(rows[i])
    {
      assert rows[0] in rows && rows[i] in rows;
    }
  }

  lemma {:induction false} SelectNone(rows: seq<EventRow>)
    ensures Select(rows, Const(false)) == []
  {
    if rows != [] {
      SelectNone(rows[1..]);
    }
  }

  /** Of rows in order, those up to the k-th are the first k. */
  lemma {:induction false} SelectPrefix(rows: seq<EventRow>, k: nat)
    requires Ascending(rows) && 0 < k <= |rows|
    ensures Select(rows, UpTo(rows[k - 1].cursor)) == rows[..k]
  {
    hide Select, Ascending, AtMost;
    var p := UpTo(rows[k - 1].cursor);
    assert rows == rows[..k] + rows[k..];
    PrefixSides(rows, k);
    SelectConcat(rows[..k], rows[k..], p);
    SelectSame(rows[..k], p, Const(true));
    SelectEverything(rows[..k]);
    SelectSame(rows[k..], p, Const(false));
    SelectNone(rows[k..]);
  }

  lemma PrefixSides(rows: seq<EventRow>, k: nat)
    requires Ascending(rows) && 0 < k <= |rows|
    ensures forall r :: r in rows[..k] ==> UpTo(rows[k - 1].cursor)(r)
    ensures forall r :: r in rows[k..] ==> !UpTo(rows[k - 1].cursor)(r)
  {
    forall i | k <= i < |rows|
      ensures !AtMost(rows[i].cursor, rows[k - 1].cursor)
    {
      assert Less(rows[k - 1].cursor, rows[i].cursor);
    }
  }

  lemma {:induction false} SelectEverything(rows: seq<EventRow>)
    ensures Select(rows, Const(true)) == rows
  {
    if rows != [] {
      SelectEverything(rows[1..]);
    }
  }

  // ---------- the rows of a call ----------

  predicate InRange(c: Cursor, a: Cursor, b: Cursor) {
    AtMost(a, c) && Less(c, b)
  }

  function Between(rows: seq<EventRow>, a: Cursor, b: Cursor): seq<EventRow> {
    Select(rows, Within(a, b))
  }

  function Matching(rows: seq<EventRow>, filters: seq<Filter>): seq<EventRow> {
    Select(rows, MatchedBy(filters))
  }

  /** The events table while the ledgers [first, last] are stored. */
  function Stored(all: seq<EventRow>, first: LedgerNo, last: LedgerNo): seq<EventRow> {
    Select(all, InLedgers(first, last))
  }

  /** SELECT ... WHERE id >= start AND id < end AND ... ORDER BY id, with the IDs compared as strings. */
  function Query(table: seq<EventRow>, start: Cursor, end: Cursor, ids: seq<ContractId>, types: seq<int>,
                 topics: seq<seq<TopicCondition>>): seq<EventRow> {
    Select(table, And(IdWithin(start, end), PushedDown(ids, types, topics)))
  }

  lemma QueryIsBetween(table: seq<EventRow>, start: Cursor, end: Cursor, ids: seq<ContractId>, types: seq<int>,
                       topics: seq<seq<TopicCondition>>)
    ensures Query(table, start, end, ids, types, topics)
         == Select(Between(table, start, end), PushedDown(ids, types, topics))
  {
    hide Select, Where, ToString, StrLess;
    forall r | r in table
      ensures (!StrLess(r.Id(), ToString(start)) && StrLess(r.Id(), ToString(end))) == InRange(r.cursor, start, end)
    {
      PrintOrder(r.cursor, start);
      PrintOrder(r.cursor, end);
    }
    var p := Within(start, end);
    var q := PushedDown(ids, types, topics);
    SelectTwice(table, p, q);
    SelectSame(table, And(IdWithin(start, end), q), And(p, q));
  }

  // ---------- the scan ----------

  /** The scan function: keeps matching rows and stops as soon as `limit` are found. */
  function ScanFrom(rows: seq<EventRow>, filters: seq<Filter>, found: seq<EventRow>, limit: nat): seq<EventRow> {
    if rows == [] then found
    else
      var found' := if Matches(filters, rows[0].event) then found + [rows[0]] else found;
      if |found'| < limit then ScanFrom(rows[1..], filters, found', limit) else found'
  }

  function Take(rows: seq<EventRow>, n: nat): seq<EventRow> {
    if |rows| <= n then rows else rows[..n]
  }

  /** A scan finds the first matching rows. */
  lemma {:induction false} ScanFindsFirst(rows: seq<EventRow>, filters: seq<Filter>, found: seq<EventRow>, limit: nat)
    requires |found| < limit
    ensures ScanFrom(rows, filters, found, limit) == Take(found + Matching(rows, filters), limit)
  {
    hide Matches;
    var more := Matching(rows, filters);
    if rows == [] {
      assert found + more == found;
    } else if Matches(filters, rows[0].event) {
      assert more == [rows[0]] + Matching(rows[1..], filters);
      assert found + more == (found + [rows[0]]) + Matching(rows[1..], filters);
      if |found| + 1 < limit {
        ScanFindsFirst(rows[1..], filters, found + [rows[0]], limit);
      }
    } else {
      assert more == Matching(rows[1..], filters);
      ScanFindsFirst(rows[1..], filters, found, limit);
    }
  }

  /** Rows that no filter accepts may be left out: scanning the pushed-down rows finds the same events. */
  lemma PushdownKeepsScan(rows: seq<EventRow>, filters: seq<Filter>, ids: seq<ContractId>, types: seq<int>,
                          topics: seq<seq<TopicCondition>>, limit: nat)
    requires ValidFilters(filters) && Combined(filters, ids, types, topics) && 1 <= limit
    ensures ScanFrom(Select(rows, PushedDown(ids, types, topics)), filters, [], limit)
         == ScanFrom(rows, filters, [], limit)
  {
    hide Select, Where, Matches, ValidFilters, Combined;
    var p := PushedDown(ids, types, topics);
    var q := MatchedBy(filters);
    ScanFindsFirst(rows, filters, [], limit);
    ScanFindsFirst(Select(rows, p), filters, [], limit);
    SelectTwice(rows, p, q);
    forall r | r in rows
      ensures (p(r) && q(r)) == q(r)
    {
      if q(r) {
        PushdownKeepsMatches(filters, ids, types, topics, r.event);
      }
    }
    SelectSame(rows, And(p, q), q);
  }

  method Scan(rows: seq<EventRow>, filters: seq<Filter>, limit: nat) returns (found: seq<EventRow>)
    ensures found == ScanFrom(rows, filters, [], limit)
  {
    found := [];
    var i := 0;
    while i < |rows|
      invariant 0 <= i <= |rows|
      invariant ScanFrom(rows, filters, [], limit) == ScanFrom(rows[i..], filters, found, limit)
    {
      var row := rows[i];
      assert rows[i..][0] == row && rows[i..][1..] == rows[i + 1..];
      if Matches(filters, row.event) {
        found := found + [row];
      }
      if !(|found| < limit) {
        return;
      }
      i := i + 1;
    }
  }

  // ---------- one page ----------

  /** `limit` 0 and `endLedger` 0 are absent; a cursor takes the place of the start ledger. */
  datatype Request = Request(startLedger: u32, endLedger: u32, filters: seq<Filter>, cursor: Option<Cursor>, limit: nat)

  datatype Page = Page(events: seq<EventRow>, cursor: string, latest: LedgerNo, oldest: LedgerNo)

  /** The row after a cursor; the event index wraps like the original's. */
  function Resume(c: Cursor): Cursor {
    c.(event := Add32(c.event, 1))
  }

  function StartLedger(request: Request): u32 {
    if request.cursor.Some? then request.cursor.value.ledger else request.startLedger
  }

  function StartCursor(request: Request): Cursor
    requires StartLedger(request) < LEDGER_COUNT
  {
    if request.cursor.Some? then Resume(request.cursor.value) else Cursor(request.startLedger, 0, 0, 0)
  }

  /** The first ledger that is not searched. */
  function EndOf(start: u32, endLedger: u32, last: LedgerNo): (end: nat)
    requires last + 1 < LEDGER_COUNT
    ensures end <= last + 1 && (start <= last ==> 1 <= end)
  {
    var end := Min(last + 1, Add32(start, LEDGER_SCAN_LIMIT));
    if endLedger != 0 then Min(endLedger, end) else end
  }

  /** The cursor after the whole ledger. */
  function MaxCursor(ledger: LedgerNo): Cursor {
    Cursor(ledger, TRANSACTION_MASK, OPERATION_MASK, U32_COUNT - 1)
  }

  function PageCursor(found: seq<EventRow>, limit: nat, end: nat): Cursor
    requires 1 <= end < LEDGER_COUNT
  {
    if |found| == limit && found != [] then found[|found| - 1].cursor else MaxCursor(end - 1)
  }

  /** Combines the filters, queries and scans. */
  method FindEvents(table: seq<EventRow>, start: Cursor, end: Cursor, filters: seq<Filter>, limit: nat)
      returns (r: Result<seq<EventRow>>)
    requires ValidFilters(filters) && 1 <= limit
    ensures r.Err? <==> ReportsMalformed(filters)
    ensures r.Ok? ==> r.value == Take(Matching(Between(table, start, end), filters), limit)
  {
    hide Matches, Where, ValidFilters, ToString, Select, ReportsMalformed, AnyContract, AnyType, AnyTopics, Named,
      TypeNamed, ScanFrom, TopicsWhere, SomeValuesAgree, NoDuplicates, StrLess, Query;
    var contractIds := CombineContractIDs(filters);
    if contractIds.Err? {
      return Err(contractIds.message);
    }
    var topics := CombineTopics(filters);
    var types := CombineEventTypes(filters);
    var found := Scan(Query(table, start, end, contractIds.value, types, topics), filters, limit);
    QueryIsBetween(table, start, end, contractIds.value, types, topics);
    PushdownKeepsScan(Between(table, start, end), filters, contractIds.value, types, topics, limit);
    ScanFindsFirst(Between(table, start, end), filters, [], limit);
    assert [] + Matching(Between(table, start, end), filters) == Matching(Between(table, start, end), filters);
    r := Ok(found);
  }

  /**
   * getEvents for the history `all`. It asks for the stored ledgers [first, last] and later, outside of a
   * transaction, for the rows, when commits may have made them [laterFirst, laterLast]. `valid` is the
   * outcome of the SDK's request validation. The page is that of the chains below exactly when none of its
   * events were trimmed in between; then parsing its printed cursor resumes where the next page starts.
   */
  method GetEvents(table: seq<EventRow>, first: LedgerNo, last: LedgerNo, defaultLimit: nat, valid: bool,
                   request: Request, ghost all: seq<EventRow>, ghost laterFirst: LedgerNo, ghost laterLast: LedgerNo)
      returns (r: Result<Page>)
    requires last + 1 < LEDGER_COUNT && 1 <= defaultLimit
    requires valid ==> ValidFilters(request.filters)
    requires first <= laterFirst && last <= laterLast && table == Stored(all, laterFirst, laterLast)
    ensures var start := if request.cursor.Some? then request.cursor.value.ledger else request.startLedger;
            r.Err? <==> !valid || !(first <= start <= last) || ReportsMalformed(request.filters)
    ensures r.Ok? ==> r.value.oldest == first && r.value.latest == last && ParseCursor(r.value.cursor).Some?
    ensures r.Ok? ==>
              var limit := if request.limit > 0 then request.limit else defaultLimit;
              var cursor := ParseCursor(r.value.cursor).value;
              && AnswersRequest(r.value.events, cursor, table, request, last, limit)
              && IsOfChain(r.value.events, cursor, all, request.filters, StartCursor(request),
                           Call(first, last, request.endLedger, limit), laterFirst)
  {
    hide ValidFilters, ToString, ParseCursor, ReportsMalformed, Matching, Between, Stored, AnswersRequest, IsOfChain;
    if !valid {
      return Err("invalid request");
    }
    var startLedger, event := request.startLedger, 0;
    var limit := defaultLimit;
    if request.cursor.Some? {
      startLedger := request.cursor.value.ledger;
      event := Add32(request.cursor.value.event, 1);
    }
    if request.limit > 0 {
      limit := request.limit;
    }
    var endLedger := Min(last + 1, Add32(startLedger, LEDGER_SCAN_LIMIT));
    if request.endLedger != 0 {
      endLedger := Min(request.endLedger, endLedger);
    }
    if startLedger < first || startLedger > last {
      return Err("startLedger must be within the ledger range");
    }
    var start := if request.cursor.Some? then request.cursor.value.(event := event) else Cursor(startLedger, 0, 0, 0);
    var found := FindEvents(table, start, Cursor(endLedger, 0, 0, 0), request.filters, limit);
    if found.Err? {
      return Err(found.message);
    }
    var cursor := MaxCursor(endLedger - 1);
    if |found.value| == limit {
      cursor := found.value[|found.value| - 1].cursor;
    }
    PrintParse(cursor);
    SearchAnswers(found.value, cursor, table, request, last, start, endLedger, limit);
    SearchIsOfChain(found.value, cursor, table, all, request.filters, start,
                    Call(first, last, request.endLedger, limit), laterFirst, laterLast);
    r := Ok(Page(found.value, ToString(cursor), last, first));
  }

  // ---------- what a request asks for, in ledger numbers ----------

  /** Every row with this ledger, transaction and operation follows a cursor whose event index wraps. */
  predicate Wraps(c: Cursor, x: Cursor) {
    c.event == U32_COUNT - 1 && x == c.(event := x.event)
  }

  /** From the start ledger on or after the cursor, within 10,000 ledgers, up to the latest, before the end ledger. */
  ghost predicate Wanted(request: Request, last: LedgerNo, r: EventRow) {
    && (match request.cursor
        case None => request.startLedger <= r.cursor.ledger < request.startLedger + LEDGER_SCAN_LIMIT
        case Some(c) => (Less(c, r.cursor) || Wraps(c, r.cursor)) && r.cursor.ledger < c.ledger + LEDGER_SCAN_LIMIT)
    && r.cursor.ledger <= last
    && (request.endLedger != 0 ==> r.cursor.ledger < request.endLedger)
    && Matches(request.filters, r.event)
  }

  /** The first `limit` rows that are wanted, in ascending order. */
  ghost predicate FirstWanted(page: seq<EventRow>, table: seq<EventRow>, request: Request, last: LedgerNo, limit: nat) {
    && Ascending(page) && |page| <= limit
    && (forall r :: r in page ==> r in table && Wanted(request, last, r))
    && (forall r :: r in table && Wanted(request, last, r) && r !in page ==>
          |page| == limit && forall q :: q in page ==> Less(q.cursor, r.cursor))
  }

  /** The last ledger that was searched. */
  function LastSearched(request: Request, last: LedgerNo): int {
    var start := if request.cursor.Some? then request.cursor.value.ledger else request.startLedger;
    var end := Min(last, start + LEDGER_SCAN_LIMIT - 1);
    if request.endLedger != 0 then Min(request.endLedger - 1, end) else end
  }

  lemma RangeIsWanted(request: Request, last: LedgerNo, start: Cursor, end: nat, r: EventRow)
    requires start == if request.cursor.Some? then Resume(request.cursor.value) else Cursor(start.ledger, 0, 0, 0)
    requires start.ledger <= last && (request.cursor.None? ==> start.ledger == request.startLedger)
    requires end == LastSearched(request, last) + 1 && end < LEDGER_COUNT
    ensures InRange(r.cursor, start, Cursor(end, 0, 0, 0)) && Matches(request.filters, r.event)
       <==> Wanted(request, last, r)
  {
    hide Matches;
  }

  /** The first matching rows of the cursor range are the first wanted ones. */
  lemma PageIsFirstWanted(table: seq<EventRow>, request: Request, last: LedgerNo, start: Cursor, end: nat, limit: nat)
    requires Ascending(table) && end < LEDGER_COUNT
    requires forall r: EventRow :: InRange(r.cursor, start, Cursor(end, 0, 0, 0)) && Matches(request.filters, r.event)
                         <==> Wanted(request, last, r)
    ensures FirstWanted(Take(Matching(Between(table, start, Cursor(end, 0, 0, 0)), request.filters), limit),
                        table, request, last, limit)
  {
    hide Wanted, InRange, Matches, Matching, Between;
    var m := Matching(Between(table, start, Cursor(end, 0, 0, 0)), request.filters);
    MatchingAscends(table, request.filters, start, Cursor(end, 0, 0, 0));
    var page := Take(m, limit);
    forall r | r in m && r !in page
      ensures |page| == limit && forall q :: q in page ==> Less(q.cursor, r.cursor)
    {
      var k :| 0 <= k < |m| && m[k] == r;
      assert k >= limit;
    }
  }

  /**
   * A page is the first wanted rows, and its cursor stands at the last of `limit` rows, or else behind the
   * last ledger that was searched.
   */
  ghost predicate AnswersRequest(events: seq<EventRow>, cursor: Cursor, table: seq<EventRow>, request: Request,
                                 last: LedgerNo, limit: nat)
    requires 1 <= limit
  {
    && |events| <= limit && (Ascending(table) ==> FirstWanted(events, table, request, last, limit))
    && if |events| == limit then cursor == events[limit - 1].cursor
       else && cursor.ledger == LastSearched(request, last) && cursor.event == U32_COUNT - 1
            && cursor.tx == TRANSACTION_MASK && cursor.op == OPERATION_MASK
  }

  lemma SearchAnswers(events: seq<EventRow>, cursor: Cursor, table: seq<EventRow>, request: Request, last: LedgerNo,
                      start: Cursor, end: nat, limit: nat)
    requires start == if request.cursor.Some? then Resume(request.cursor.value) else Cursor(start.ledger, 0, 0, 0)
    requires start.ledger <= last && (request.cursor.None? ==> start.ledger == request.startLedger)
    requires 1 <= end == LastSearched(request, last) + 1 && end < LEDGER_COUNT && 1 <= limit
    requires events == Take(Matching(Between(table, start, Cursor(end, 0, 0, 0)), request.filters), limit)
    requires cursor == if |events| == limit then events[limit - 1].cursor else MaxCursor(end - 1)
    ensures AnswersRequest(events, cursor, table, request, last, limit)
  {
    hide Ascending, Matching, Between, Matches, Wanted, InRange, FirstWanted;
    forall r: EventRow
      ensures InRange(r.cursor, start, Cursor(end, 0, 0, 0)) && Matches(request.filters, r.event)
         <==> Wanted(request, last, r)
    {
      RangeIsWanted(request, last, start, end, r);
    }
    if Ascending(table) {
      PageIsFirstWanted(table, request, last, start, end, limit);
    }
  }

  /**
   * A page is what a trim up to `laterFirst` leaves of the page of the chains below. It is that page exactly
   * when none of its events was trimmed; then its cursor is where the chain goes on.
   */
  ghost predicate IsOfChain(events: seq<EventRow>, cursor: Cursor, all: seq<EventRow>, filters: seq<Filter>,
                            start: Cursor, c: Call, laterFirst: LedgerNo)
  {
    && Accepted(start, c)
    && var page := PageEvents(all, filters, start, c);
       && events == Retained(all, filters, start, c, laterFirst)
       && (events == page <==> forall e :: e in page ==> laterFirst <= e.cursor.ledger)
       && (events == page ==> Resume(cursor) == NextStart(all, filters, start, c))
  }

  lemma SearchIsOfChain(events: seq<EventRow>, cursor: Cursor, table: seq<EventRow>, all: seq<EventRow>,
                        filters: seq<Filter>, start: Cursor, c: Call, laterFirst: LedgerNo, laterLast: LedgerNo)
    requires Accepted(start, c) && c.last <= laterLast && table == Stored(all, laterFirst, laterLast)
    requires var end := Cursor(EndOf(start.ledger, c.endLedger, c.last), 0, 0, 0);
             events == Take(Matching(Between(table, start, end), filters), c.limit)
    requires cursor == if |events| == c.limit then events[c.limit - 1].cursor
                       else MaxCursor(EndOf(start.ledger, c.endLedger, c.last) - 1)
    ensures IsOfChain(events, cursor, all, filters, start, c, laterFirst)
  {
    hide Matching, Between, Stored, Retained;
    PageOfLaterTable(all, filters, start, c, laterFirst, laterLast);
  }

  /** A cursor that a page returned never wraps onto a row: what follows it is strictly after it. */
  lemma HandedOutNeverWraps(table: seq<EventRow>, c: Cursor, r: EventRow)
    requires Storable(table) && r in table
    requires c.event < U32_COUNT - 1 || (c.tx == TRANSACTION_MASK && c.op == OPERATION_MASK)
    ensures !Wraps(c, r.cursor)
  {
  }

  // ---------- chains of pages ----------

  /** One call of a chain: what is stored at the time, and the client's end ledger and limit. */
  datatype Call = Call(first: LedgerNo, last: LedgerNo, endLedger: u32, limit: nat)

  /** The call is accepted: the ledger to resume at is stored. */
  predicate Accepted(start: Cursor, c: Call) {
    c.first <= start.ledger <= c.last && c.last + 1 < LEDGER_COUNT && 1 <= c.limit
  }

  function PageEvents(all: seq<EventRow>, filters: seq<Filter>, start: Cursor, c: Call): seq<EventRow>
    requires Accepted(start, c)
  {
    var end := EndOf(start.ledger, c.endLedger, c.last);
    Take(Matching(Between(Stored(all, c.first, c.last), start, Cursor(end, 0, 0, 0)), filters), c.limit)
  }

  /** Where the next call starts: after the cursor of the page. */
  function NextStart(all: seq<EventRow>, filters: seq<Filter>, start: Cursor, c: Call): Cursor
    requires Accepted(start, c)
  {
    Resume(PageCursor(PageEvents(all, filters, start, c), c.limit, EndOf(start.ledger, c.endLedger, c.last)))
  }

  /** The matching events of the range that a trim up to `laterFirst` leaves, up to the limit. */
  function Retained(all: seq<EventRow>, filters: seq<Filter>, start: Cursor, c: Call,
                    laterFirst: LedgerNo): seq<EventRow>
    requires Accepted(start, c)
  {
    var end := Cursor(EndOf(start.ledger, c.endLedger, c.last), 0, 0, 0);
    Take(Select(Matching(Between(all, start, end), filters), NotBelow(laterFirst)), c.limit)
  }

  /** A page read from a later table, and when it is still the page of the earlier one. */
  lemma PageOfLaterTable(all: seq<EventRow>, filters: seq<Filter>, start: Cursor, c: Call,
                         laterFirst: LedgerNo, laterLast: LedgerNo)
    requires Accepted(start, c) && c.last <= laterLast
    ensures var end := Cursor(EndOf(start.ledger, c.endLedger, c.last), 0, 0, 0);
            Take(Matching(Between(Stored(all, laterFirst, laterLast), start, end), filters), c.limit)
            == Retained(all, filters, start, c, laterFirst)
    ensures var page := PageEvents(all, filters, start, c);
            Retained(all, filters, start, c, laterFirst) == page
            <==> forall e :: e in page ==> laterFirst <= e.cursor.ledger
  {
    hide Select, Matching, Between, Stored;
    var end := EndOf(start.ledger, c.endLedger, c.last);
    LaterTableBetween(all, filters, start, Cursor(end, 0, 0, 0), laterFirst, laterLast);
    StoredBetween(all, filters, start, c, end);
    TakeOfSelect(Matching(Between(all, start, Cursor(end, 0, 0, 0)), filters), c.limit, NotBelow(laterFirst));
  }

  lemma LaterTableBetween(all: seq<EventRow>, filters: seq<Filter>, start: Cursor, end: Cursor,
                          laterFirst: LedgerNo, laterLast: LedgerNo)
    requires end.ledger <= laterLast + 1 && end == Cursor(end.ledger, 0, 0, 0)
    ensures Matching(Between(Stored(all, laterFirst, laterLast), start, end), filters)
         == Select(Matching(Between(all, start, end), filters), NotBelow(laterFirst))
  {
    hide Select, Matches;
    var p, q, m, n := InLedgers(laterFirst, laterLast), Within(start, end), MatchedBy(filters), NotBelow(laterFirst);
    SelectTwice(all, p, q);
    SelectTwice(all, And(p, q), m);
    SelectTwice(all, q, m);
    SelectTwice(all, And(q, m), n);
    SelectSame(all, And(And(p, q), m), And(And(q, m), n));
  }

  /** The first k of the kept rows are the first k rows exactly when all of those are kept. */
  lemma TakeOfSelect(rows: seq<EventRow>, k: nat, p: EventRow -> bool)
    ensures Take(Select(rows, p), k) == Take(rows, k) <==> forall r :: r in Take(rows, k) ==> p(r)
  {
    hide Select;
    var head := Take(rows, k);
    SelectMembers(rows, p);
    if forall r :: r in head ==> p(r) {
      SelectSame(head, p, Const(true));
      SelectEverything(head);
      assert rows == head + rows[|head|..];
      SelectConcat(head, rows[|head|..], p);
      if |rows| <= k {
        assert head + rows[|head|..] == head;
      }
    } else {
      var r :| r in head && !p(r);
      assert r !in Select(rows, p);
    }
  }

  /** The client asks for at least one ledger. */
  predicate EndsLater(start: Cursor, c: Call) {
    c.endLedger == 0 || c.endLedger > start.ledger
  }

  predicate AcceptedChain(all: seq<EventRow>, filters: seq<Filter>, start: Cursor, calls: seq<Call>)
    decreases |calls|
  {
    calls == []
    || (Accepted(start, calls[0]) && EndsLater(start, calls[0])
        && AcceptedChain(all, filters, NextStart(all, filters, start, calls[0]), calls[1..]))
  }

  function Delivered(all: seq<EventRow>, filters: seq<Filter>, start: Cursor, calls: seq<Call>): seq<EventRow>
    requires AcceptedChain(all, filters, start, calls)
    decreases |calls|
  {
    if calls == [] then []
    else
      PageEvents(all, filters, start, calls[0])
      + Delivered(all, filters, NextStart(all, filters, start, calls[0]), calls[1..])
  }

  function FinalStart(all: seq<EventRow>, filters: seq<Filter>, start: Cursor, calls: seq<Call>): Cursor
    requires AcceptedChain(all, filters, start, calls)
    decreases |calls|
  {
    if calls == [] then start else FinalStart(all, filters, NextStart(all, filters, start, calls[0]), calls[1..])
  }

  /** What EventOrder proves of every ledger's events: cursors ascend and leave the largest ones unused. */
  ghost predicate Storable(all: seq<EventRow>) {
    && Ascending(all)
    && forall r :: r in all ==>
         r.cursor.event < U32_COUNT - 1 && !(r.cursor.tx == TRANSACTION_MASK && r.cursor.op == OPERATION_MASK)
  }

  /** A start that the service hands out: the cursor of an event, or of the end of a ledger. */
  predicate HandedOut(start: Cursor) {
    start.tx == TRANSACTION_MASK && start.op == OPERATION_MASK ==> start.event == 0
  }

  /** Reading in the table and in the whole history is the same between a stored start and end. */
  lemma StoredBetween(all: seq<EventRow>, filters: seq<Filter>, start: Cursor, c: Call, end: nat)
    requires Accepted(start, c) && end <= c.last + 1
    ensures Matching(Between(Stored(all, c.first, c.last), start, Cursor(end, 0, 0, 0)), filters)
         == Matching(Between(all, start, Cursor(end, 0, 0, 0)), filters)
  {
    hide Select, Matches;
    var e := Cursor(end, 0, 0, 0);
    var p := InLedgers(c.first, c.last);
    var q := Within(start, e);
    SelectTwice(all, p, q);
    SelectSame(all, And(p, q), q);
  }

  lemma SameRange(all: seq<EventRow>, filters: seq<Filter>, start: Cursor, a: Cursor, b: Cursor)
    requires forall r :: r in all ==> Less(r.cursor, a) == Less(r.cursor, b)
    ensures Matching(Between(all, start, a), filters) == Matching(Between(all, start, b), filters)
  {
    hide Select, Matches;
    SelectSame(all, Within(start, a), Within(start, b));
  }

  lemma MatchingAscends(all: seq<EventRow>, filters: seq<Filter>, a: Cursor, b: Cursor)
    requires Ascending(all)
    ensures Ascending(Matching(Between(all, a, b), filters))
    ensures forall r :: r in Matching(Between(all, a, b), filters) <==>
              r in all && InRange(r.cursor, a, b) && Matches(filters, r.event)
  {
    hide Select, Matches, Ascending;
    var p := Within(a, b);
    var q := MatchedBy(filters);
    SelectAscends(all, p);
    SelectMembers(all, p);
    SelectAscends(Between(all, a, b), q);
    SelectMembers(Between(all, a, b), q);
  }

  /** The first k matching events are the matching events up to the k-th. */
  lemma FirstOnes(all: seq<EventRow>, filters: seq<Filter>, a: Cursor, b: Cursor, k: nat)
    requires Storable(all) && 0 < k <= |Matching(Between(all, a, b), filters)|
    ensures var m := Matching(Between(all, a, b), filters);
            m[..k] == Matching(Between(all, a, Resume(m[k - 1].cursor)), filters)
  {
    hide Select, Matches;
    var m := Matching(Between(all, a, b), filters);
    var last := m[k - 1].cursor;
    MatchingAscends(all, filters, a, b);
    assert m[k - 1] in m;
    var inB, inLast, q, upTo := Within(a, b), Within(a, Resume(last)), MatchedBy(filters), UpTo(last);
    SelectPrefix(m, k);
    SelectTwice(Between(all, a, b), q, upTo);
    SelectTwice(all, inB, And(q, upTo));
    SelectTwice(all, inLast, q);
    SelectSame(all, And(inB, And(q, upTo)), And(inLast, q));
  }

  /**
   * A page delivers exactly the matching events between its start and the start of the next one,
   * whether it is full or ends at the last ledger searched.
   */
  lemma PageIsInterval(all: seq<EventRow>, filters: seq<Filter>, start: Cursor, c: Call)
    requires Storable(all) && Accepted(start, c) && EndsLater(start, c) && HandedOut(start)
    ensures PageEvents(all, filters, start, c)
         == Matching(Between(all, start, NextStart(all, filters, start, c)), filters)
    ensures AtMost(start, NextStart(all, filters, start, c)) && HandedOut(NextStart(all, filters, start, c))
  {
    hide Select, Matches, Matching, Between;
    var end := EndOf(start.ledger, c.endLedger, c.last);
    var e := Cursor(end, 0, 0, 0);
    var m := Matching(Between(all, start, e), filters);
    StoredBetween(all, filters, start, c, end);
    MatchingAscends(all, filters, start, e);
    if |m| >= c.limit {
      FirstOnes(all, filters, start, e, c.limit);
      assert m[c.limit - 1] in m;
    } else {
      SameRange(all, filters, start, e, Resume(MaxCursor(end - 1)));
    }
  }

  lemma AdjacentRanges(all: seq<EventRow>, filters: seq<Filter>, a: Cursor, b: Cursor, c: Cursor)
    requires Ascending(all) && AtMost(a, b) && AtMost(b, c)
    ensures Matching(Between(all, a, b), filters) + Matching(Between(all, b, c), filters)
         == Matching(Between(all, a, c), filters)
  {
    hide Select, Matches;
    var p := Within(a, b);
    var q := Within(b, c);
    SelectSplits(all, p, q);
    SelectSame(all, Or(p, q), Within(a, c));
    SelectConcat(Between(all, a, b), Between(all, b, c), MatchedBy(filters));
  }

  /**
   * The pages of a chain, one after the other, are the matching events from the first start to the
   * place where the next page would start: each exactly once, in ascending order of the IDs.
   */
  lemma {:induction false} ChainDeliversExactlyOnce(all: seq<EventRow>, filters: seq<Filter>, start: Cursor,
                                                    calls: seq<Call>)
    requires Storable(all) && AcceptedChain(all, filters, start, calls) && HandedOut(start)
    ensures var final := FinalStart(all, filters, start, calls);
            && AtMost(start, final)
            && Delivered(all, filters, start, calls) == Matching(Between(all, start, final), filters)
    ensures Ascending(Delivered(all, filters, start, calls))
    ensures forall r :: r in Delivered(all, filters, start, calls) <==>
              r in all && InRange(r.cursor, start, FinalStart(all, filters, start, calls)) && Matches(filters, r.event)
    decreases |calls|
  {
    hide Select, Matches, Matching, Between, PageEvents, NextStart;
    var final := FinalStart(all, filters, start, calls);
    if calls == [] {
      EmptyRange(all, filters, start);
    } else {
      var next := NextStart(all, filters, start, calls[0]);
      PageIsInterval(all, filters, start, calls[0]);
      ChainDeliversExactlyOnce(all, filters, next, calls[1..]);
      AdjacentRanges(all, filters, start, next, final);
    }
    MatchingAscends(all, filters, start, final);
  }

  lemma EmptyRange(all: seq<EventRow>, filters: seq<Filter>, start: Cursor)
    ensures Matching(Between(all, start, start), filters) == []
  {
    SelectSame(all, Within(start, start), Const(false));
    SelectNone(all);
  }

  /**
   * Progress. A full page moves the start forward. A page that is not full moves it to a later ledger,
   * or the start is already past every event of the tip: then the same call gives the same cursor.
   */
  lemma PageAdvances(all: seq<EventRow>, filters: seq<Filter>, start: Cursor, c: Call)
    requires Storable(all) && Accepted(start, c) && c.endLedger == 0
    ensures var page, next := PageEvents(all, filters, start, c), NextStart(all, filters, start, c);
            if |page| == c.limit then Less(start, next)
            else
              && next == Cursor(Min(c.last, start.ledger + LEDGER_SCAN_LIMIT - 1), TRANSACTION_MASK, OPERATION_MASK, 0)
              && (start.ledger < c.last ==> start.ledger < next.ledger)
              && (start.ledger == c.last ==>
                    NextStart(all, filters, next, c) == next && PageEvents(all, filters, next, c) == [])
  {
    hide Select, Matches, Matching, Between;
    var end := EndOf(start.ledger, 0, c.last);
    var page, next := PageEvents(all, filters, start, c), NextStart(all, filters, start, c);
    StoredBetween(all, filters, start, c, end);
    MatchingAscends(all, filters, start, Cursor(end, 0, 0, 0));
    if |page| == c.limit {
      assert page[c.limit - 1] in Matching(Between(all, start, Cursor(end, 0, 0, 0)), filters);
    } else if start.ledger == c.last {
      StoredBetween(all, filters, next, c, end);
      SameRange(all, filters, next, Cursor(end, 0, 0, 0), next);
      EmptyRange(all, filters, next);
    }
  }

  // ---------- draining ----------

  /** The start past every event of the latest ledger: the fixed point. */
  function TipStart(last: LedgerNo): Cursor {
    Cursor(last, TRANSACTION_MASK, OPERATION_MASK, 0)
  }

  /** How many matching events are still ahead. */
  function Ahead(all: seq<EventRow>, filters: seq<Filter>, start: Cursor, c: Call): nat {
    |Matching(Between(all, start, TipStart(c.last)), filters)|
  }

  function Repeat(c: Call, n: nat): (calls: seq<Call>)
    ensures |calls| == n
  {
    if n == 0 then [] else [c] + Repeat(c, n - 1)
  }

  /** A page takes its events off those ahead. */
  lemma PageShrinksAhead(all: seq<EventRow>, filters: seq<Filter>, start: Cursor, c: Call)
    requires Storable(all) && Accepted(start, c) && c.endLedger == 0 && HandedOut(start)
    ensures var next := NextStart(all, filters, start, c);
            && AtMost(next, TipStart(c.last)) && c.first <= next.ledger <= c.last
            && Ahead(all, filters, start, c) == |PageEvents(all, filters, start, c)| + Ahead(all, filters, next, c)
  {
    hide Select, Matches, Matching, Between;
    var next := NextStart(all, filters, start, c);
    PageIsInterval(all, filters, start, c);
    var end := Cursor(EndOf(start.ledger, 0, c.last), 0, 0, 0);
    StoredBetween(all, filters, start, c, end.ledger);
    MatchingAscends(all, filters, start, end);
    if |PageEvents(all, filters, start, c)| == c.limit {
      var last := PageEvents(all, filters, start, c)[c.limit - 1];
      assert last in Matching(Between(all, start, end), filters);
    }
    AdjacentRanges(all, filters, start, next, TipStart(c.last));
  }

  /**
   * While the stored range stays the same, at most one call for every matching event ahead and one for
   * every ledger ahead, and one more, reach the fixed point; every matching event up to the tip is
   * delivered by then.
   */
  lemma {:induction false} DrainsToTip(all: seq<EventRow>, filters: seq<Filter>, start: Cursor, c: Call)
    returns (n: nat)
    requires Storable(all) && Accepted(start, c) && c.endLedger == 0 && HandedOut(start)
    ensures n <= Ahead(all, filters, start, c) + (c.last - start.ledger) + 1
    ensures AcceptedChain(all, filters, start, Repeat(c, n))
    ensures FinalStart(all, filters, start, Repeat(c, n)) == TipStart(c.last)
    ensures Delivered(all, filters, start, Repeat(c, n)) == Matching(Between(all, start, TipStart(c.last)), filters)
    decreases Ahead(all, filters, start, c) + (c.last - start.ledger)
  {
    hide Select, Matches, Matching, Between, PageEvents, NextStart, Ahead, FinalStart, Delivered;
    var next := NextStart(all, filters, start, c);
    PageShrinksAhead(all, filters, start, c);
    PageIsInterval(all, filters, start, c);
    PageAdvances(all, filters, start, c);
    if next == TipStart(c.last) {
      n := 1;
      RepeatMore(all, filters, start, c, 0);
    } else {
      AheadOrLater(all, filters, start, c);
      var m := DrainsToTip(all, filters, next, c);
      n := m + 1;
      RepeatMore(all, filters, start, c, m);
    }
    ChainDeliversExactlyOnce(all, filters, start, Repeat(c, n));
  }

  /** A call that does not reach the fixed point finds events, or moves to a later ledger. */
  lemma AheadOrLater(all: seq<EventRow>, filters: seq<Filter>, start: Cursor, c: Call)
    requires Storable(all) && Accepted(start, c) && c.endLedger == 0 && HandedOut(start)
    requires NextStart(all, filters, start, c) != TipStart(c.last)
    ensures var next := NextStart(all, filters, start, c);
            Ahead(all, filters, next, c) + (c.last - next.ledger)
            < Ahead(all, filters, start, c) + (c.last - start.ledger)
  {
    hide Select, Matches, Matching, Between, Ahead;
    PageShrinksAhead(all, filters, start, c);
    PageIsInterval(all, filters, start, c);
    PageAdvances(all, filters, start, c);
  }

  lemma RepeatMore(all: seq<EventRow>, filters: seq<Filter>, start: Cursor, c: Call, m: nat)
    requires Accepted(start, c) && EndsLater(start, c)
    requires AcceptedChain(all, filters, NextStart(all, filters, start, c), Repeat(c, m))
    ensures AcceptedChain(all, filters, start, Repeat(c, m + 1))
    ensures FinalStart(all, filters, start, Repeat(c, m + 1))
         == FinalStart(all, filters, NextStart(all, filters, start, c), Repeat(c, m))
    ensures m == 0 ==> FinalStart(all, filters, start, Repeat(c, m + 1)) == NextStart(all, filters, start, c)
  {
    hide NextStart, PageEvents;
    assert Repeat(c, m + 1)[1..] == Repeat(c, m);
  }

  // ---------- the end ledger ----------

  /**
   * An end ledger at or before the start ledger makes the page empty and its cursor point before the
   * start. Otherwise only a made-up cursor beyond the end of the last ledger searched is moved back.
   */
  lemma CursorRegressesIff(all: seq<EventRow>, filters: seq<Filter>, start: Cursor, c: Call)
    requires Storable(all) && Accepted(start, c)
    ensures Less(NextStart(all, filters, start, c), start)
       <==> !EndsLater(start, c) || (!HandedOut(start) && EndOf(start.ledger, c.endLedger, c.last) == start.ledger + 1)
  {
    hide Select, Matches, Matching, Between;
    var e := Cursor(EndOf(start.ledger, c.endLedger, c.last), 0, 0, 0);
    var m := Matching(Between(all, start, e), filters);
    StoredBetween(all, filters, start, c, e.ledger);
    MatchingAscends(all, filters, start, e);
    if |m| >= c.limit {
      assert m[c.limit - 1] in m;
    }
  }

  ghost predicate HoldsEarlier(page: seq<EventRow>, start: Cursor) {
    exists r :: r in page && Less(r.cursor, start)
  }

  /** A matching event from a to before b, in a ledger below `end`. */
  ghost predicate MatchBetween(all: seq<EventRow>, filters: seq<Filter>, a: Cursor, b: Cursor, end: int) {
    exists r :: r in all && Matches(filters, r.event) && InRange(r.cursor, a, b) && r.cursor.ledger < end
  }

  /** A matching event in the ledgers from `from` to before `to`. */
  ghost predicate MatchInLedgers(all: seq<EventRow>, filters: seq<Filter>, from: int, to: int) {
    exists r :: r in all && Matches(filters, r.event) && from <= r.cursor.ledger < to
  }

  /**
   * What comes of it. When the cursor pointed before the start, the next page holds an event from before
   * the start exactly when a matching event lies between the two and within the ledgers it searches.
   */
  lemma EarlierEventsIff(all: seq<EventRow>, filters: seq<Filter>, start: Cursor, c: Call, d: Call)
    requires Storable(all) && Accepted(start, c) && !EndsLater(start, c)
    requires Accepted(NextStart(all, filters, start, c), d)
    ensures HoldsEarlier(PageEvents(all, filters, NextStart(all, filters, start, c), d), start)
       <==> MatchBetween(all, filters, NextStart(all, filters, start, c), start,
                         EndOf(NextStart(all, filters, start, c).ledger, d.endLedger, d.last))
  {
    hide Select, Matches, Matching, Between;
    var next := NextStart(all, filters, start, c);
    var end := Cursor(EndOf(next.ledger, d.endLedger, d.last), 0, 0, 0);
    StoredBetween(all, filters, next, d, end.ledger);
    MatchingAscends(all, filters, next, end);
    var m, page := Matching(Between(all, next, end), filters), PageEvents(all, filters, next, d);
    if HoldsEarlier(page, start) {
      var r :| r in page && Less(r.cursor, start);
      assert r in m;
    }
    if MatchBetween(all, filters, next, start, end.ledger) {
      var r :| r in all && Matches(filters, r.event) && InRange(r.cursor, next, start) && r.cursor.ledger < end.ledger;
      assert r in m;
      var i :| 0 <= i < |m| && m[i] == r;
      assert page[0] == m[0] && page[0] in page;
    }
  }

  /** For a request by ledger these are the matching events from the end ledger to before the start ledger. */
  lemma EarlierEventsOfLedgersIff(all: seq<EventRow>, filters: seq<Filter>, start: LedgerNo, c: Call, d: Call)
    requires Storable(all) && Accepted(Cursor(start, 0, 0, 0), c) && !EndsLater(Cursor(start, 0, 0, 0), c)
    requires Accepted(NextStart(all, filters, Cursor(start, 0, 0, 0), c), d) && d.endLedger == 0
    ensures HoldsEarlier(PageEvents(all, filters, NextStart(all, filters, Cursor(start, 0, 0, 0), c), d),
                         Cursor(start, 0, 0, 0))
       <==> MatchInLedgers(all, filters, c.endLedger, Min(start, Min(c.endLedger - 1 + LEDGER_SCAN_LIMIT, d.last + 1)))
  {
    hide Select, Matches, Matching, Between;
    var s := Cursor(start, 0, 0, 0);
    var next := NextStart(all, filters, s, c);
    var e := Cursor(c.endLedger, 0, 0, 0);
    StoredBetween(all, filters, s, c, c.endLedger);
    MatchingAscends(all, filters, s, e);
    FirstMember(Matching(Between(all, s, e), filters));
    assert next == Cursor(c.endLedger - 1, TRANSACTION_MASK, OPERATION_MASK, 0);
    EarlierEventsIff(all, filters, s, c, d);
    assert forall r :: r in all ==> (InRange(r.cursor, next, s) <==> c.endLedger <= r.cursor.ledger < start);
    var to := Min(start, Min(c.endLedger - 1 + LEDGER_SCAN_LIMIT, d.last + 1));
    var end := EndOf(next.ledger, d.endLedger, d.last);
    assert forall r :: r in all ==>
      (InRange(r.cursor, next, s) && r.cursor.ledger < end <==> c.endLedger <= r.cursor.ledger < to);
  }

  /**
   * A request that shows it: start ledger 20 and end ledger 10, with ledgers 1 to 30 stored. The page is
   * empty, and the page after its cursor delivers an event of ledger 15.
   */
  lemma EarlierEventDelivered(r: EventRow)
    requires r.cursor == Cursor(15, 1, 0, 0)
    ensures var start, c, d := Cursor(20, 0, 0, 0), Call(1, 30, 10, 5), Call(1, 30, 0, 5);
            && PageEvents([r], [], start, c) == []
            && NextStart([r], [], start, c) == Cursor(9, TRANSACTION_MASK, OPERATION_MASK, 0)
            && PageEvents([r], [], NextStart([r], [], start, c), d) == [r]
  {
    var start, c, d := Cursor(20, 0, 0, 0), Call(1, 30, 10, 5), Call(1, 30, 0, 5);
    var next := Cursor(9, TRANSACTION_MASK, OPERATION_MASK, 0);
    SelectOne(r, InLedgers(1, 30));
    SelectOne(r, Within(start, Cursor(10, 0, 0, 0)));
    SelectOne(r, Within(next, Cursor(31, 0, 0, 0)));
    SelectOne(r, MatchedBy([]));
    assert PageEvents([r], [], start, c) == [];
  }

  lemma SelectOne(r: EventRow, p: EventRow -> bool)
    ensures Select([r], p) == Kept(r, p)
  {
    assert [r][1..] == [];
  }
}
