/** The library's readers of decimal numbers, on the string in front of the byte that stops them. */
module Numbers {
  import opened Basics
  import Counter

  const PLUS: byte := 43
  const MINUS: byte := 45
  const INT_MAX: nat := 0x7fff_ffff

  /** isspace. */
  predicate IsSpace(b: byte) {
    b == SPACE || 9 <= b <= 13
  }

  function SkipSpace(s: Bytes): (r: Bytes)
    ensures |r| <= |s| && (r != [] ==> !IsSpace(r[0]))
  {
    if s != [] && IsSpace(s[0]) then SkipSpace(s[1..]) else s
  }

  /** The digits a string starts with, read on from acc. */
  function Digits(s: Bytes, acc: nat): nat {
    if s == [] || !Counter.IsDigit(s[0]) then acc else Digits(s[1..], acc * 10 + Counter.DigitValue(s[0]))
  }

  predicate Signed(s: Bytes) {
    s != [] && (s[0] == PLUS || s[0] == MINUS)
  }

  /** The number a string without leading white space starts with. */
  function Number(s: Bytes): int {
    var n: int := Digits(if Signed(s) then s[1..] else s, 0);
    if Signed(s) && s[0] == MINUS then -n else n
  }

  /** White space, a sign, digits. */
  function ToNumber(s: Bytes): int {
    Number(SkipSpace(s))
  }

  /** A count that an int can hold.  atoi has no defined result for a number out of range, and a negative one is
      no length. */
  predicate IsCount(n: int) {
    0 <= n <= INT_MAX
  }

  /** strtoul on 64 bits: the largest value for a number out of range, and a negative one wrapped. */
  function Strtoul(s: Bytes): (n: nat)
    ensures n < Counter.U64
  {
    var n := ToNumber(s);
    if n >= Counter.U64 || n + Counter.U64 <= 0 then Counter.U64 - 1
    else if n < 0 then n + Counter.U64 else n
  }

  // ----- a printed number reads back

  lemma {:induction false} DigitsPrint(n: nat, rest: Bytes)
    ensures Digits(Counter.Print(n) + rest, 0) == Digits(rest, n)
    decreases n
  {
    hide Counter.DigitValue, Counter.IsDigit, Digits;
    if n < 10 {
      DigitsDigit(n, rest, 0);
    } else {
      var d := n % 10;
      var tail := [Counter.DIGITS[d]] + rest;
      DigitsPrint(n / 10, tail);
      assert Counter.Print(n) + rest == Counter.Print(n / 10) + tail;
      DigitsDigit(d, rest, n / 10);
    }
  }

  lemma DigitsDigit(d: nat, rest: Bytes, acc: nat)
    requires d < 10
    ensures Digits([Counter.DIGITS[d]] + rest, acc) == Digits(rest, acc * 10 + d)
  {
    hide Counter.DigitValue, Counter.IsDigit;
    Counter.DigitInverse(d);
    assert ([Counter.DIGITS[d]] + rest)[1..] == rest;
  }

  lemma {:induction false} SkipAll(w: Bytes, s: Bytes)
    requires (forall b :: b in w ==> IsSpace(b)) && (s != [] ==> !IsSpace(s[0]))
    ensures SkipSpace(w + s) == s
  {
    if w == [] {
      assert w + s == s;
    } else {
      assert (w + s)[1..] == w[1..] + s;
      SkipAll(w[1..], s);
    }
  }

  /** White space, a sign or none, the digits of n and anything that is no digit read as n or -n. */
  lemma NumberRead(w: Bytes, sign: Bytes, n: nat, rest: Bytes)
    requires (forall b :: b in w ==> b in {9, 10, 11, 12, 13, 32}) && sign in {[], [43], [45]}
    requires rest != [] ==> !Counter.IsDigit(rest[0])
    ensures ToNumber(w + (sign + (Counter.Print(n) + rest))) == if sign == [45] then -(n as int) else n
  {
    var s := sign + (Counter.Print(n) + rest);
    assert Counter.IsDigit((Counter.Print(n) + rest)[0]);
    DigitsPrint(n, rest);
    hide Counter.Print, SkipSpace, Digits;
    SkipAll(w, s);
    assert Digits(rest, n) == n by { NoDigits(rest, n); }
    if sign == [] {
      assert s == Counter.Print(n) + rest;
    } else {
      assert s[1..] == Counter.Print(n) + rest;
    }
  }

  lemma NoDigits(s: Bytes, acc: nat)
    requires s != [] ==> !Counter.IsDigit(s[0])
    ensures Digits(s, acc) == acc
  {
  }

  /** strtoul of such a string: n, its negative modulo 2^64, or the largest value when it is out of range. */
  lemma StrtoulRead(w: Bytes, sign: Bytes, n: nat, rest: Bytes)
    requires (forall b :: b in w ==> b in {9, 10, 11, 12, 13, 32}) && sign in {[], [43], [45]}
    requires rest != [] ==> !Counter.IsDigit(rest[0])
    ensures var r := Strtoul(w + (sign + (Counter.Print(n) + rest)));
            && (n >= Counter.U64 ==> r == 0xffff_ffff_ffff_ffff)
            && (n < Counter.U64 && sign != [45] ==> r == n)
            && (n < Counter.U64 && sign == [45] ==> (r + n) % 0x1_0000_0000_0000_0000 == 0)
  {
    NumberRead(w, sign, n, rest);
    hide Counter.Print, ToNumber;
  }

  /** safe_strtoull gives the digits of the first twenty bytes, read as a number of any size, modulo 2^64. */
  lemma ReadIsMod(val: Bytes)
    ensures Counter.Read(val) == Digits(if |val| > 20 then val[..20] else val, 0) % 0x1_0000_0000_0000_0000
  {
    ParseMod(if |val| > 20 then val[..20] else val, 0);
  }

  lemma {:induction false} ParseMod(s: Bytes, acc: nat)
    ensures Counter.Parse(s, acc % Counter.U64) == Digits(s, acc) % Counter.U64
    decreases |s|
  {
    if s != [] && Counter.IsDigit(s[0]) {
      var d := Counter.DigitValue(s[0]);
      assert ((acc % Counter.U64) * 10 + d) % Counter.U64 == (acc * 10 + d) % Counter.U64;
      ParseMod(s[1..], acc * 10 + d);
    }
  }

  lemma PrintedNumber(n: nat)
    ensures ToNumber(Counter.Print(n)) == n && SPACE !in Counter.Print(n)
  {
    DigitsPrint(n, []);
    assert Counter.Print(n) + [] == Counter.Print(n);
    assert Counter.IsDigit(Counter.Print(n)[0]);
    hide Counter.Print, Digits;
    assert !Counter.IsDigit(SPACE);
  }
}
