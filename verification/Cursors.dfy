/**
 * Event cursors: a TOID (SEP-0035, Operation IDs, Specification section: 32-bit ledger, 20-bit
 * transaction, 12-bit operation) and an event index, printed with a fixed width as
 * `<19 digits>-<10 digits>` so that string order is cursor order
 * (used by cmd/stellar-rpc/internal/db/event.go; the printed form is the one checked in
 * cmd/stellar-rpc/internal/integrationtest/transaction_test.go).
 */
module Cursors {
  import opened Words
  import opened Wrappers

  const TRANSACTION_MASK := 0xF_FFFF
  const OPERATION_MASK := 0xFFF
  const LEDGER_COUNT: int := 0x8000_0000

  type LedgerNo = x: int | 0 <= x < 0x8000_0000
  type TxIndex = x: int | 0 <= x <= 0xF_FFFF
  type OpIndex = x: int | 0 <= x <= 0xFFF

  datatype Cursor = Cursor(ledger: LedgerNo, tx: TxIndex, op: OpIndex, event: u32)

  /** Lexicographic order on the four components. */
  predicate Less(a: Cursor, b: Cursor) {
    || a.ledger < b.ledger
    || (a.ledger == b.ledger && a.tx < b.tx)
    || (a.ledger == b.ledger && a.tx == b.tx && a.op < b.op)
    || (a.ledger == b.ledger && a.tx == b.tx && a.op == b.op && a.event < b.event)
  }

  predicate AtMost(a: Cursor, b: Cursor) {
    a == b || Less(a, b)
  }

  // ---------- TOIDs ----------

  /** toid.ID.ToInt64 */
  function ToInt64(c: Cursor): (id: nat)
    ensures id < 0x8000_0000_0000_0000
  {
    c.ledger * 0x1_0000_0000 + c.tx * 0x1000 + c.op
  }

  /** toid.Parse, for the 63-bit numbers that are TOIDs. */
  function FromInt64(id: nat, event: u32): Cursor
    requires id < 0x8000_0000_0000_0000
  {
    Cursor(id / 0x1_0000_0000, (id % 0x1_0000_0000) / 0x1000, id % 0x1000, event)
  }

  lemma ToidOrder(a: Cursor, b: Cursor)
    ensures ToInt64(a) < ToInt64(b) <==> Less(a.(event := 0), b.(event := 0))
    ensures ToInt64(a) == ToInt64(b) <==> a.(event := 0) == b.(event := 0)
  {
  }

  lemma ToidRoundTrip(c: Cursor)
    ensures FromInt64(ToInt64(c), c.event) == c
  {
    var low := c.tx * 0x1000 + c.op;
    Split32(c.ledger, low);
    Split12(c.tx, c.op);
    Split12(c.ledger * 0x10_0000 + c.tx, c.op);
  }

  lemma Split32(q: nat, r: nat)
    requires r < 0x1_0000_0000
    ensures (q * 0x1_0000_0000 + r) / 0x1_0000_0000 == q && (q * 0x1_0000_0000 + r) % 0x1_0000_0000 == r
  {
  }

  lemma Split12(q: nat, r: nat)
    requires r < 0x1000
    ensures (q * 0x1000 + r) / 0x1000 == q && (q * 0x1000 + r) % 0x1000 == r
  {
  }

  // ---------- fixed-width decimal ----------

  function Pow10(w: nat): nat {
    if w == 0 then 1 else 10 * Pow10(w - 1)
  }

  function Digit(d: nat): char
    requires d < 10
  {
    '0' + d as char
  }

  /** fmt.Sprintf("%0<w>d", n) for a number that fits w digits. */
  function Pad(n: nat, w: nat): (s: string)
    requires n < Pow10(w)
    ensures |s| == w
  {
    if w == 0 then "" else Pad(n / 10, w - 1) + [Digit(n % 10)]
  }

  /** Byte-wise string order, SQLite's BINARY collation. */
  predicate StrLess(a: string, b: string) {
    b != "" && (a == "" || a[0] < b[0] || (a[0] == b[0] && StrLess(a[1..], b[1..])))
  }

  lemma {:induction false} ConcatOrder(a: string, b: string, c: string, d: string)
    requires |a| == |b|
    ensures StrLess(a + c, b + d) <==> StrLess(a, b) || (a == b && StrLess(c, d))
  {
    if a == "" {
      assert a + c == c && b + d == d;
    } else {
      assert (a + c)[1..] == a[1..] + c && (b + d)[1..] == b[1..] + d;
      assert a == b <==> a[0] == b[0] && a[1..] == b[1..];
      ConcatOrder(a[1..], b[1..], c, d);
    }
  }

  /** Numbers printed with the same width compare as their strings do. */
  lemma {:induction false} PadOrder(m: nat, n: nat, w: nat)
    requires m < Pow10(w) && n < Pow10(w)
    ensures StrLess(Pad(m, w), Pad(n, w)) <==> m < n
    ensures Pad(m, w) == Pad(n, w) <==> m == n
  {
    if w > 0 {
      var a, b := Pad(m / 10, w - 1), Pad(n / 10, w - 1);
      var c, d := [Digit(m % 10)], [Digit(n % 10)];
      PadOrder(m / 10, n / 10, w - 1);
      ConcatOrder(a, b, c, d);
      assert StrLess(c, d) <==> m % 10 < n % 10;
      assert m == m / 10 * 10 + m % 10 && n == n / 10 * 10 + n % 10;
      assert a + c == b + d ==> (a + c)[..w - 1] == (b + d)[..w - 1] && (a + c)[w - 1] == (b + d)[w - 1];
      assert (a + c)[..w - 1] == a && (b + d)[..w - 1] == b;
    }
  }

  predicate AllDigits(s: string) {
    forall i :: 0 <= i < |s| ==> '0' <= s[i] <= '9'
  }

  function ParseNat(s: string): nat
    requires AllDigits(s)
  {
    if s == "" then 0 else 10 * ParseNat(s[..|s| - 1]) + (s[|s| - 1] - '0') as nat
  }

  lemma {:induction false} PadParses(n: nat, w: nat)
    requires n < Pow10(w)
    ensures AllDigits(Pad(n, w)) && ParseNat(Pad(n, w)) == n
  {
    if w > 0 {
      PadParses(n / 10, w - 1);
      var s := Pad(n, w);
      assert s[..w - 1] == Pad(n / 10, w - 1);
      assert s[w - 1] == Digit(n % 10);
    }
  }

  lemma Widths()
    ensures Pow10(19) >= 0x8000_0000_0000_0000 && Pow10(10) >= 0x1_0000_0000
  {
    assert Pow10(5) == 100000;
    assert Pow10(10) == 10000000000;
    assert Pow10(15) == 1000000000000000;
  }

  // ---------- printing and parsing cursors ----------

  /** Cursor.String */
  function ToString(c: Cursor): string {
    Widths();
    Pad(ToInt64(c), 19) + "-" + Pad(c.event, 10)
  }

  function IndexOfDash(s: string): (i: nat)
    ensures i <= |s|
    ensures i < |s| ==> s[i] == '-'
    ensures forall j :: 0 <= j < i ==> s[j] != '-'
  {
    if s == "" || s[0] == '-' then 0 else 1 + IndexOfDash(s[1..])
  }

  /** ParseCursor: two decimal numbers around the first dash, within 63 and 32 bits. */
  function ParseCursor(s: string): Option<Cursor> {
    var i := IndexOfDash(s);
    if i == |s| then None
    else
      var id, event := s[..i], s[i + 1..];
      if id == "" || event == "" || !AllDigits(id) || !AllDigits(event) then None
      else if ParseNat(id) >= 0x8000_0000_0000_0000 || ParseNat(event) >= 0x1_0000_0000 then None
      else Some(FromInt64(ParseNat(id), ParseNat(event)))
  }

  /** The printed form is an order embedding of cursors into strings. */
  lemma PrintOrder(a: Cursor, b: Cursor)
    ensures StrLess(ToString(a), ToString(b)) <==> Less(a, b)
    ensures ToString(a) == ToString(b) <==> a == b
  {
    hide Pad, Pow10, ToInt64, StrLess;
    Widths();
    var i, j := Pad(ToInt64(a), 19), Pad(ToInt64(b), 19);
    var k, l := Pad(a.event, 10), Pad(b.event, 10);
    PadOrder(ToInt64(a), ToInt64(b), 19);
    PadOrder(a.event, b.event, 10);
    ToidOrder(a, b);
    ConcatOrder(i, j, "-" + k, "-" + l);
    ConcatOrder("-", "-", k, l);
    DashIsNotLess();
    assert ToString(a) == i + ("-" + k) && ToString(b) == j + ("-" + l);
    assert ToString(a)[..19] == i && ToString(b)[..19] == j;
    assert ToString(a)[20..] == k && ToString(b)[20..] == l;
  }

  lemma DashIsNotLess()
    ensures !StrLess("-", "-")
  {
    assert "-"[1..] == "";
  }

  /** Parsing a printed cursor gives it back. */
  lemma PrintParse(c: Cursor)
    ensures ParseCursor(ToString(c)) == Some(c)
  {
    hide Pad, Pow10, ToInt64, FromInt64;
    Widths();
    var id, event := Pad(ToInt64(c), 19), Pad(c.event, 10);
    PadParses(ToInt64(c), 19);
    PadParses(c.event, 10);
    ToidRoundTrip(c);
    var s := ToString(c);
    assert s == id + "-" + event && s[19] == '-';
    assert forall j :: 0 <= j < 19 ==> s[j] == id[j];
    assert IndexOfDash(s) == 19;
    assert s[..19] == id && s[20..] == event;
  }
}
