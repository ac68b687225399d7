/** Numerals: what the printers of cores/w800/Print.cpp and cores/w800/stdlib_noniso.c write and
    what the parsers read back. */
module Numerals {
  import opened Arithmetic

  // Quotient and remainder by repeated subtraction, which keeps most proofs about digits linear;
  // DivisionIs says that they are what / and % compute.

  function Quotient(n: nat, base: nat): (q: nat)
    requires base >= 2
    ensures if n < base then q == 0 else 0 < q && 2 * q <= n
    decreases n
  {
    if n < base then 0 else 1 + Quotient(n - base, base)
  }

  function Remainder(n: nat, base: nat): (r: nat)
    requires base >= 2
    ensures r < base && (n < base ==> r == n)
    decreases n
  {
    if n < base then n else Remainder(n - base, base)
  }

  lemma {:induction false} Divide(n: nat, base: nat)
    requires base >= 2
    ensures n == Quotient(n, base) * base + Remainder(n, base)
    decreases n
  {
    if n >= base {
      Divide(n - base, base);
      OneMore(Quotient(n - base, base), base);
    }
  }

  lemma OneMore(q: nat, base: nat)
    ensures (1 + q) * base == base + q * base
  {}

  lemma Unique(q: nat, r: nat, q1: nat, r1: nat, base: nat)
    requires q * base + r == q1 * base + r1 && r < base && r1 < base
    ensures q == q1 && r == r1
  {
    if q < q1 { FarApart(q, q1, base); } else if q1 < q { FarApart(q1, q, base); }
  }

  lemma FarApart(q: nat, q1: nat, base: nat)
    requires q < q1
    ensures q * base + base <= q1 * base
  {
    assert q1 * base == (q + 1) * base + (q1 - q - 1) * base;
  }

  lemma MachineDivision(n: nat, base: nat)
    requires base > 0
    ensures n == n / base * base + n % base && n % base < base
  {}

  lemma DivisionIs(n: nat, base: nat)
    requires base >= 2
    ensures Quotient(n, base) == n / base && Remainder(n, base) == n % base
  {
    Divide(n, base);
    MachineDivision(n, base);
    Unique(n / base, n % base, Quotient(n, base), Remainder(n, base), base);
  }

  /** The digits of `n`, most significant first; zero has one digit. */
  function Digits(n: nat, base: nat): (ds: seq<nat>)
    requires base >= 2
    ensures ds != [] && forall i | 0 <= i < |ds| :: ds[i] < base
    decreases n
  {
    if n < base then [n] else Digits(Quotient(n, base), base) + [Remainder(n, base)]
  }

  /** The number these digits spell. */
  function Number(ds: seq<nat>, base: nat): nat {
    if ds == [] then 0 else Number(ds[..|ds| - 1], base) * base + ds[|ds| - 1]
  }

  lemma NumberAdd(ds: seq<nat>, d: nat, base: nat)
    ensures Number(ds + [d], base) == Number(ds, base) * base + d
  {
    assert (ds + [d])[..|ds|] == ds;
  }

  lemma {:induction false} DigitsSpell(n: nat, base: nat)
    requires base >= 2
    ensures Number(Digits(n, base), base) == n
    decreases n
  {
    Divide(n, base);
    if n >= base {
      DigitsSpell(Quotient(n, base), base);
      NumberAdd(Digits(Quotient(n, base), base), Remainder(n, base), base);
    } else {
      NumberAdd([], n, base);
      assert [] + [n] == [n];
    }
  }

  /** The first digit is zero only for zero itself. */
  lemma {:induction false} NoLeadingZero(n: nat, base: nat)
    requires base >= 2
    ensures Digits(n, base)[0] == 0 <==> n == 0
    decreases n
  {
    if n >= base { NoLeadingZero(Quotient(n, base), base); }
  }

  /** A number below 2^k has at most k digits (and at least one). */
  lemma {:induction false} DigitsFit(n: nat, base: nat, k: nat)
    requires base >= 2 && k > 0 && n < Pow2(k)
    ensures |Digits(n, base)| <= k
    decreases k
  {
    if n >= base { DigitsFit(Quotient(n, base), base, k - 1); }
  }

  // ---------- As text ----------

  /** The digit characters: of printNumber, whose char type holds eight bits, in upper case, and of
      ltoa and ultoa in lower case. */
  function DigitChar(d: nat, upper: bool): char
    requires upper || d < 16
  {
    if upper then (if d < 10 then '0' + d as char else ((d + 55) % 256) as char) else "0123456789abcdef"[d]
  }

  function Text(ds: seq<nat>, upper: bool): (s: string)
    requires upper || forall i | 0 <= i < |ds| :: ds[i] < 16
    ensures |s| == |ds|
  {
    if ds == [] then "" else Text(ds[..|ds| - 1], upper) + [DigitChar(ds[|ds| - 1], upper)]
  }

  /** The decimal digits, and from ten on the letters of either case. */
  lemma DigitCharIs(d: nat)
    ensures d < 10 ==> DigitChar(d, true) as int == 48 + d && DigitChar(d, false) == DigitChar(d, true)
    ensures 10 <= d < 16 ==> DigitChar(d, true) == "ABCDEF"[d - 10] && DigitChar(d, false) == "abcdef"[d - 10]
    ensures 10 <= d < 36 ==> DigitChar(d, true) == "ABCDEFGHIJKLMNOPQRSTUVWXYZ"[d - 10]
    ensures d >= 36 ==> DigitChar(d, true) as int == (55 + d) % 256
  {}

  /** Every digit has its character at its place. */
  lemma {:induction false} TextAt(ds: seq<nat>, upper: bool, i: nat)
    requires i < |ds| && (upper || forall k | 0 <= k < |ds| :: ds[k] < 16)
    ensures Text(ds, upper)[i] == DigitChar(ds[i], upper)
    decreases |ds|
  {
    if i < |ds| - 1 { TextAt(ds[..|ds| - 1], upper, i); }
  }

  function ToUpper(c: char): char {
    if 'a' <= c <= 'z' then c - 32 as char else c
  }

  function AllUpper(s: string): string {
    if s == "" then "" else AllUpper(s[..|s| - 1]) + [ToUpper(s[|s| - 1])]
  }

  lemma SameDigit(d: nat)
    requires d < 16
    ensures ToUpper(DigitChar(d, false)) == DigitChar(d, true)
  {}

  /** The two notations differ only in the case of the letters. */
  lemma {:induction false} SameUpToCase(ds: seq<nat>)
    requires forall i | 0 <= i < |ds| :: ds[i] < 16
    ensures AllUpper(Text(ds, false)) == Text(ds, true)
    decreases |ds|
  {
    if ds != [] {
      var s := Text(ds, false);
      assert s[..|s| - 1] == Text(ds[..|ds| - 1], false);
      SameUpToCase(ds[..|ds| - 1]);
      SameDigit(ds[|ds| - 1]);
    }
  }

  predicate IsDigit(c: char) {
    '0' <= c <= '9'
  }

  function DigitOf(c: char): (d: nat)
    requires IsDigit(c)
    ensures d < 10
  {
    c as nat - '0' as nat
  }

  /** The number that a text of decimal digits spells. */
  function Decimal(s: string): nat
    requires forall i | 0 <= i < |s| :: IsDigit(s[i])
  {
    if s == "" then 0 else 10 * Decimal(s[..|s| - 1]) + DigitOf(s[|s| - 1])
  }

  /** The decimal numeral of `n`. */
  function Numeral(n: nat): (s: string)
    ensures s != "" && forall i | 0 <= i < |s| :: IsDigit(s[i])
  {
    DecimalIsNumber(Digits(n, 10));
    Text(Digits(n, 10), true)
  }

  lemma {:induction false} DecimalIsNumber(ds: seq<nat>)
    requires forall i | 0 <= i < |ds| :: ds[i] < 10
    ensures forall i | 0 <= i < |ds| :: IsDigit(Text(ds, true)[i])
    ensures Decimal(Text(ds, true)) == Number(ds, 10)
    decreases |ds|
  {
    if ds != [] {
      DecimalIsNumber(ds[..|ds| - 1]);
      assert Text(ds, true)[..|ds| - 1] == Text(ds[..|ds| - 1], true);
    }
  }

  /** Reading a numeral gives the number back. */
  lemma NumeralMeans(n: nat)
    ensures Decimal(Numeral(n)) == n
  {
    DecimalIsNumber(Digits(n, 10));
    DigitsSpell(n, 10);
  }
}
