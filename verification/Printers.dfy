/** The integer printers: Print::printNumber fills a buffer from the back (cores/w800/Print.cpp:35-54),
    ultoa and ltoa fill forwards and reverse (cores/w800/stdlib_noniso.c:8-64). */
module Printers {
  import opened Arithmetic
  import opened Sequences
  import opened Helpers
  import opened Numerals
  import opened Substitution

  const LONG_BITS: nat := 32

  lemma LongFits(n: nat, base: nat)
    requires n < U32 && base >= 2
    ensures |Digits(n, base)| <= LONG_BITS
  {
    assert Pow2(4) == 16 && Pow2(8) == 256;
    Pow2Sum(8, 8);
    Pow2Sum(16, 16);
    DigitsFit(n, base, LONG_BITS);
  }

  /** printNumber: the base is decimal when it is given as 0 or 1. */
  method PrintNumber(n: nat, base: byte) returns (text: string)
    requires n < U32
    ensures text == Text(Digits(n, if base < 2 then 10 else base), true)
  {
    var b: nat := if base < 2 then 10 else base;
    var buf := new char[LONG_BITS + 1];
    LongFits(n, b);
    var str: nat := LONG_BITS;
    buf[str] := NUL;
    var m: nat := n;
    ghost var all := Text(Digits(n, b), true);
    assert all + buf[str..LONG_BITS] == all;
    while true
      invariant str <= LONG_BITS && |Digits(m, b)| <= str && Text(Digits(m, b), true) + buf[str..LONG_BITS] == all
      decreases m
    {
      m := FillDigit(buf, str, m, b, all);
      str := str - 1;
      if m == 0 { break; }
    }
    text := buf[str..LONG_BITS];
  }

  /** One round: the last digit of `m` goes in front of what is there. */
  method FillDigit(buf: array<char>, str: nat, m: nat, b: nat, ghost all: string) returns (q: nat)
    requires b >= 2 && str <= LONG_BITS < buf.Length && |Digits(m, b)| <= str
    requires Text(Digits(m, b), true) + buf[str..LONG_BITS] == all
    modifies buf
    ensures q == 0 ==> buf[str - 1..LONG_BITS] == all
    ensures q > 0 ==> q < m && |Digits(q, b)| <= str - 1 && Text(Digits(q, b), true) + buf[str - 1..LONG_BITS] == all
  {
    ghost var tail := buf[str..LONG_BITS];
    var c;
    q, c := DivideBy(m, b);
    PrependDigit(m, b, q, c, tail, true);
    buf[str - 1] := DigitChar(c, true);
    assert buf[str - 1..LONG_BITS] == [DigitChar(c, true)] + tail;
  }

  /** The last digit joins what has been written behind it. */
  lemma PrependDigit(m: nat, b: nat, q: nat, c: nat, tail: string, upper: bool)
    requires b >= 2 && q == Quotient(m, b) && c == Remainder(m, b) && (upper || b <= 16)
    ensures (if q == 0 then [DigitChar(c, upper)] + tail else Text(Digits(q, b), upper) + ([DigitChar(c, upper)] + tail))
         == Text(Digits(m, b), upper) + tail
    ensures |Digits(m, b)| == if q == 0 then 1 else |Digits(q, b)| + 1
  {
    var ds := Digits(m, b);
    if q == 0 {
      assert Text([m], upper) == [DigitChar(m, upper)];
    } else {
      assert ds == Digits(q, b) + [c] && ds[..|ds| - 1] == Digits(q, b);
      Assoc(Text(Digits(q, b), upper), [DigitChar(c, upper)], tail);
    }
  }

  /** The quotient and the remainder as the printers compute them. */
  method DivideBy(n: nat, base: nat) returns (q: nat, r: nat)
    requires base >= 2
    ensures q == Quotient(n, base) && r == Remainder(n, base)
  {
    DivisionIs(n, base);
    q := n / base;
    r := n - base * q;
  }

  // ---------- Filling forwards and reversing ----------

  function Reversed(s: string): (r: string)
    ensures |r| == |s|
  {
    if s == "" then "" else [s[|s| - 1]] + Reversed(s[..|s| - 1])
  }

  lemma {:induction false} ReversedAt(s: string, k: nat)
    requires k < |s|
    ensures Reversed(s)[k] == s[|s| - 1 - k]
    decreases |s|
  {
    if k > 0 { ReversedAt(s[..|s| - 1], k - 1); }
  }

  lemma ReversedAdd(s: string, c: char)
    ensures Reversed(s + [c]) == [c] + Reversed(s)
  {
    assert (s + [c])[..|s|] == s;
  }

  /** reverse, of the first `n` characters. */
  method Reverse(a: array<char>, n: nat)
    requires n <= a.Length
    modifies a
    ensures a[..n] == Reversed(old(a[..n])) && a[n..] == old(a[n..])
  {
    ghost var was := a[..n];
    var i, e := 0, n - 1;
    while i < e
      invariant 0 <= i && e == n - 1 - i && i <= e + 1
      invariant forall k | 0 <= k < i :: a[k] == was[n - 1 - k] && a[n - 1 - k] == was[k]
      invariant forall k | i <= k <= e :: a[k] == was[k]
      invariant a[n..] == old(a[n..])
    {
      var tmp := a[e];
      a[e] := a[i];
      a[i] := tmp;
      i, e := i + 1, e - 1;
    }
    forall k | 0 <= k < n ensures a[..n][k] == Reversed(was)[k] { ReversedAt(was, k); }
  }

  /** The text stands at the start of the buffer and is terminated. */
  ghost predicate HoldsText(a: array<char>, s: string)
    reads a
  {
    |s| < a.Length && a[..|s|] == s && a[|s|] == NUL
  }

  /** ultoa: the digits in lower case, or nothing for a base it does not know. */
  method Ultoa(value: nat, result: array<char>, base: int)
    requires value < U32 && result.Length > LONG_BITS
    modifies result
    ensures HoldsText(result, if 2 <= base <= 16 then Text(Digits(value, base), false) else "")
  {
    if base < 2 || base > 16 {
      result[0] := NUL;
      return;
    }
    LongFits(value, base);
    var out := PutDigits(value, result, base);
    Finish(result, out);
  }

  /** The end of ltoa and ultoa. */
  method Finish(result: array<char>, out: nat)
    requires out < result.Length
    modifies result
    ensures HoldsText(result, Reversed(old(result[..out])))
  {
    Reverse(result, out);
    result[out] := NUL;
  }

  /** The loop of ltoa and ultoa: the digits come out last first. */
  method PutDigits(value: nat, result: array<char>, b: nat) returns (out: nat)
    requires 2 <= b <= 16 && |Digits(value, b)| < result.Length
    modifies result
    ensures out == |Digits(value, b)| && Reversed(result[..out]) == Text(Digits(value, b), false)
  {
    out := 0;
    var quotient: nat := value;
    ghost var all := Text(Digits(value, b), false);
    assert all + Reversed(result[..0]) == all;
    while true
      invariant out + |Digits(quotient, b)| == |all| < result.Length
      invariant Text(Digits(quotient, b), false) + Reversed(result[..out]) == all
      decreases quotient
    {
      quotient := PutDigit(quotient, result, b, out, all);
      out := out + 1;
      if quotient == 0 { break; }
    }
  }

  method PutDigit(m: nat, result: array<char>, b: nat, out: nat, ghost all: string) returns (q: nat)
    requires 2 <= b <= 16 && out + |Digits(m, b)| == |all| < result.Length
    requires Text(Digits(m, b), false) + Reversed(result[..out]) == all
    modifies result
    ensures q == 0 ==> out + 1 == |all| && Reversed(result[..out + 1]) == all
    ensures q > 0 ==> q < m && out + 1 + |Digits(q, b)| == |all|
    ensures q > 0 ==> Text(Digits(q, b), false) + Reversed(result[..out + 1]) == all
  {
    ghost var before := result[..out];
    var c;
    q, c := DivideBy(m, b);
    PrependDigit(m, b, q, c, Reversed(before), false);
    result[out] := DigitChar(c, false);
    assert result[..out + 1] == before + [DigitChar(c, false)];
    ReversedAdd(before, DigitChar(c, false));
  }

  /** ltoa: a minus sign in front for negative numbers. */
  method Ltoa(value: int, result: array<char>, base: int)
    requires -0x8000_0000 < value < 0x8000_0000 && result.Length > LONG_BITS + 1
    modifies result
    ensures HoldsText(result, if !(2 <= base <= 16) then "" else Signed(value, Text(Digits(Abs(value), base), false)))
  {
    if base < 2 || base > 16 {
      result[0] := NUL;
      return;
    }
    LongFits(Abs(value), base);
    var out := PutDigits(Abs(value), result, base);
    if value < 0 { out := PutSign(result, out); }
    Finish(result, out);
  }

  method PutSign(result: array<char>, out: nat) returns (next: nat)
    requires out + 1 < result.Length
    modifies result
    ensures next == out + 1 && Reversed(result[..next]) == "-" + Reversed(old(result[..out]))
  {
    ghost var before := result[..out];
    result[out] := '-';
    next := out + 1;
    assert result[..next] == before + ['-'];
    ReversedAdd(before, '-');
  }

  function Abs(n: int): nat {
    if n < 0 then -n else n
  }

  function Signed(n: int, digits: string): string {
    if n < 0 then "-" + digits else digits
  }

  /** print(long, int): base zero writes one raw byte, and printNumber sees only the low byte of the base.
      The negation of the most negative long is taken to wrap around, so that printNumber sees 2^31. */
  method PrintLong(n: int, base: int) returns (text: string)
    requires -0x8000_0000 <= n < 0x8000_0000
    ensures base == 0 ==> text == [(n % 256) as char]
    ensures base == 10 ==> text == Signed(n, Numeral(Abs(n)))
    ensures base != 0 && base != 10 ==>
      text == Text(Digits(if n < 0 then n + U32 else n, if base % 256 < 2 then 10 else base % 256), true)
  {
    if base == 0 {
      text := [(n % 256) as char];
    } else if base == 10 {
      if n < 0 {
        var digits := PrintNumber(-n, 10);
        return "-" + digits;
      }
      text := PrintNumber(n, 10);
    } else {
      text := PrintNumber(if n < 0 then n + U32 else n, base % 256);
    }
  }

  /** Both ways of printing give the same digits up to the case of the letters. */
  lemma SamePrint(n: nat, base: nat)
    requires 2 <= base <= 16
    ensures AllUpper(Text(Digits(n, base), false)) == Text(Digits(n, base), true)
  {
    SameUpToCase(Digits(n, base));
  }
}
