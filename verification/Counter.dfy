/** The decimal cells behind incr and decr: what sprintf leaves in the 21-byte value, and what
    safe_strtoull reads back from any value. */
module Counter {
  import opened Basics

  const U64: nat := 0x1_0000_0000_0000_0000
  const CELL: nat := 21  // sizeof("18446744073709551616"): twenty digits and the terminator

  const DIGITS: Bytes := [48, 49, 50, 51, 52, 53, 54, 55, 56, 57]

  predicate IsDigit(b: byte) { 48 <= b <= 57 }

  function DigitValue(b: byte): (d: nat)
    requires IsDigit(b)
    ensures d < 10 && DIGITS[d] == b
  {
    if b == 48 then 0 else if b == 49 then 1 else if b == 50 then 2 else if b == 51 then 3
    else if b == 52 then 4 else if b == 53 then 5 else if b == 54 then 6 else if b == 55 then 7
    else if b == 56 then 8 else 9
  }

  /** The digits are the ten characters from 48 on. */
  lemma DigitBytes(d: nat)
    requires d < 10
    ensures DIGITS[d] == 48 + d as byte
  {
    assert d in {0, 1, 2, 3, 4, 5, 6, 7, 8, 9};
  }

  lemma DigitInverse(d: nat)
    requires d < 10
    ensures IsDigit(DIGITS[d]) && DigitValue(DIGITS[d]) == d
  {
  }

  /** Decimal notation without leading zeros. */
  function Print(n: nat): (r: Bytes)
    ensures |r| >= 1 && forall b :: b in r ==> IsDigit(b)
  {
    if n < 10 then DigitInverse(n); [DIGITS[n]]
    else DigitInverse(n % 10); Print(n / 10) + [DIGITS[n % 10]]
  }

  function Pow10(k: nat): nat { if k == 0 then 1 else 10 * Pow10(k - 1) }

  lemma {:induction false} PrintLength(n: nat, k: nat)
    requires k >= 1 && n < Pow10(k)
    ensures |Print(n)| <= k
    decreases k
  {
    if n >= 10 {
      assert k != 1;
      PrintLength(n / 10, k - 1);
    }
  }

  lemma CellFits(n: nat)
    requires n < U64
    ensures |Print(n)| < CELL
  {
    assert Pow10(10) == 10_000_000_000 by {
      assert Pow10(5) == 100_000 by { assert Pow10(2) == 100; }
      assert Pow10(7) == 10_000_000;
      assert Pow10(9) == 1_000_000_000;
    }
    assert Pow10(12) == 1_000_000_000_000;
    assert Pow10(14) == 100_000_000_000_000;
    assert Pow10(16) == 10_000_000_000_000_000;
    assert Pow10(18) == 1_000_000_000_000_000_000;
    assert Pow10(20) == 100_000_000_000_000_000_000;
    PrintLength(n, 20);
  }

  /** Left-to-right accumulation modulo 2^64, up to the first byte that is not a digit. */
  function Parse(s: Bytes, acc: nat): nat
  {
    if s == [] || !IsDigit(s[0]) then acc else Parse(s[1..], (acc * 10 + DigitValue(s[0])) % U64)
  }

  /** What safe_strtoull returns. */
  function Read(val: Bytes): nat {
    Parse(if |val| > CELL - 1 then val[..CELL - 1] else val, 0)
  }

  lemma {:induction false} ParsePrefix(s: Bytes, i: nat, acc: nat)
    requires i < |s|
    requires forall j :: 0 <= j <= i ==> IsDigit(s[j])
    ensures Parse(s[i..], acc) == Parse(s[i + 1..], (acc * 10 + DigitValue(s[i])) % U64)
  {
    assert s[i..][1..] == s[i + 1..];
  }

  /** safe_strtoull. */
  method SafeStrtoull(val: Bytes) returns (value: nat)
    ensures value == Read(val)
  {
    var nval := |val|;
    if nval > CELL - 1 { nval := CELL - 1; }
    ghost var s := if |val| > CELL - 1 then val[..CELL - 1] else val;
    value := 0;
    var i := 0;
    assert s[0..] == s;
    while i < nval
      invariant 0 <= i <= nval == |s|
      invariant forall j :: 0 <= j < i ==> IsDigit(s[j])
      invariant Parse(s[i..], value) == Read(val)
    {
      if val[i] < 48 || val[i] > 57 { break; }
      ParsePrefix(s, i, value);
      value := (value * 10 + DigitValue(val[i])) % U64;
      i := i + 1;
    }
  }

  /** Reading the digits of n, whatever follows them, accumulates exactly n: no step wraps. */
  lemma {:induction false} ParsePrint(n: nat, rest: Bytes)
    requires n < U64
    ensures Parse(Print(n) + rest, 0) == Parse(rest, n)
    decreases n
  {
    hide DigitValue, IsDigit, Parse;
    if n < 10 {
      ParseDigit(n, rest, 0);
    } else {
      var d := n % 10;
      var tail := [DIGITS[d]] + rest;
      ParsePrint(n / 10, tail);
      assert Print(n) + rest == Print(n / 10) + tail;
      ParseDigit(d, rest, n / 10);
    }
  }

  lemma ParseDigit(d: nat, rest: Bytes, acc: nat)
    requires d < 10
    ensures Parse([DIGITS[d]] + rest, acc) == Parse(rest, (acc * 10 + d) % U64)
  {
    hide DigitValue, IsDigit;
    DigitInverse(d);
    assert ([DIGITS[d]] + rest)[1..] == rest;
  }

  /** A new value area, filled with spaces by memset. */
  function Blank(): (r: Bytes)
    ensures |r| == CELL && forall b :: b in r ==> b == SPACE
  {
    seq(CELL, i => SPACE)
  }

  /** The value area after sprintf wrote n over it: digits, terminator, and what was there before. */
  function Cell(n: nat, before: Bytes): (r: Bytes)
    requires n < U64 && |before| == CELL
    ensures |r| == CELL
  {
    CellFits(n);
    Print(n) + [0] + before[|Print(n)| + 1..]
  }

  /** A cell reads back as the number last printed into it, whatever it held before: longer or shorter
      numbers, and text. */
  lemma CellRoundTrip(n: nat, before: Bytes)
    requires n < U64 && |before| == CELL
    ensures Read(Cell(n, before)) == n
  {
    CellFits(n);
    var p, c := Print(n), Cell(n, before);
    var rest := c[|p|..CELL - 1];
    assert c[..CELL - 1] == p + rest;
    ParsePrint(n, rest);
    if rest != [] {
      assert rest[0] == c[|p|] == 0;
    }
  }

  /** The terminator sprintf writes stays in the value: every cell holds a NUL, right behind its digits, and what the
      cell held before behind that. */
  lemma CellHoldsNul(n: nat, before: Bytes)
    requires n < U64 && |before| == CELL
    ensures 0 in Cell(n, before) && Cell(n, before)[..|Print(n)| + 1] == Print(n) + [0]
    ensures Cell(n, before)[|Print(n)| + 1..] == before[|Print(n)| + 1..]
  {
    CellFits(n);
    assert Cell(n, before)[|Print(n)|] == 0;
  }

  /** What counting by delta makes of was: n is their sum modulo 2^64, or their difference, or 0 where that would
      be negative. */
  predicate Counted(was: nat, delta: nat, incr: bool, n: nat) {
    && n < U64
    && (incr ==> (n - was - delta) % U64 == 0)
    && (!incr && was >= delta ==> n + delta == was)
    && (!incr && was < delta ==> n == 0)
  }

  /** incr wraps modulo 2^64; decr stops at zero. */
  function Step(n: nat, delta: nat, incr: bool): (r: nat)
    requires n < U64 && delta < U64
    ensures Counted(n, delta, incr, r)
  {
    if incr then (n + delta) % U64 else if n < delta then 0 else n - delta
  }

  lemma ReadBounded(val: Bytes)
    ensures Read(val) < U64
  {
    ParseBounded(if |val| > CELL - 1 then val[..CELL - 1] else val, 0);
  }

  lemma {:induction false} ParseBounded(s: Bytes, acc: nat)
    requires acc < U64
    ensures Parse(s, acc) < U64
    decreases |s|
  {
    if s != [] && IsDigit(s[0]) {
      ParseBounded(s[1..], (acc * 10 + DigitValue(s[0])) % U64);
    }
  }
}
