/** The reading methods of a Stream (cores/w800/Stream.cpp:47-149). */
module StreamReader {
  import opened Numerals
  import opened Printers
  import opened StreamSearch
  import opened Substitution

  // ---------- What parseInt computes ----------

  /** Where the first digit or minus sign is, from `at` on. */
  function SkipTo(s: string, at: nat): (p: nat)
    requires at <= |s|
    ensures at <= p <= |s| && (p < |s| ==> s[p] == '-' || IsDigit(s[p]))
    ensures forall k | at <= k < p :: s[k] != '-' && !IsDigit(s[k])
    decreases |s| - at
  {
    if at == |s| || s[at] == '-' || IsDigit(s[at]) then at else SkipTo(s, at + 1)
  }

  /** The value after the digits from `at` on, which may be mixed with `skip`, and where they end. */
  function Accumulate(s: string, at: nat, value: nat, skip: char): (r: (nat, nat))
    requires at <= |s|
    ensures at <= r.1 <= |s|
    decreases |s| - at
  {
    if at < |s| && s[at] == skip then Accumulate(s, at + 1, value, skip)
    else if at < |s| && IsDigit(s[at]) then Accumulate(s, at + 1, value * 10 + DigitOf(s[at]), skip)
    else (value, at)
  }

  /** The number parseInt reads from `at` on, and where it stops. */
  function Parsed(s: string, at: nat, skip: char): (int, nat)
    requires at <= |s|
  {
    var p := SkipTo(s, at);
    if p == |s| then (0, p)
    else
      var negative := s[p] != skip && s[p] == '-';
      var first := if s[p] == skip || s[p] == '-' then 0 else DigitOf(s[p]);
      var (value, end) := Accumulate(s, p + 1, first, skip);
      var signed: int := if negative then -(value as int) else value as int;
      (signed, end)
  }

  predicate AllDigits(s: string) { forall i | 0 <= i < |s| :: IsDigit(s[i]) }

  /** The characters other than the skipped one. */
  function Kept(s: string, skip: char): string {
    if s == "" then "" else (if s[0] == skip then "" else [s[0]]) + Kept(s[1..], skip)
  }

  /** The text between the two places is digits and skipped characters, and goes no further. */
  ghost predicate Numeric(s: string, from: nat, end: nat, skip: char) {
    && from <= end <= |s| && (forall k | from <= k < end :: s[k] == skip || IsDigit(s[k]))
    && (end < |s| ==> s[end] != skip && !IsDigit(s[end]))
  }

  lemma {:induction false} KeptDigits(s: string, skip: char)
    requires forall k | 0 <= k < |s| :: s[k] == skip || IsDigit(s[k])
    ensures AllDigits(Kept(s, skip))
  {
    if s != "" { KeptDigits(s[1..], skip); }
  }

  lemma DecimalOnward(s: string, c: char)
    requires AllDigits(s) && IsDigit(c)
    ensures AllDigits(s + [c]) && Decimal(s + [c]) == Decimal(s) * 10 + DigitOf(c)
  {
    assert (s + [c])[..|s|] == s;
  }

  lemma KeptStep(s: string, at: nat, end: nat, skip: char, numeral: string, more: string)
    requires at < end <= |s| && more == if s[at] == skip then numeral else numeral + [s[at]]
    ensures numeral + Kept(s[at..end], skip) == more + Kept(s[at + 1..end], skip)
  {
    assert s[at..end][1..] == s[at + 1..end];
  }

  /** Behind a numeral, the digits up to the end of the number are appended to it, without the skipped
      characters. */
  lemma {:induction false} AccumulateMeans(s: string, at: nat, skip: char, numeral: string)
    requires at <= |s| && AllDigits(numeral)
    ensures var (value, end) := Accumulate(s, at, Decimal(numeral), skip);
      Numeric(s, at, end, skip) && AllDigits(numeral + Kept(s[at..end], skip)) && value == Decimal(numeral + Kept(s[at..end], skip))
    decreases |s| - at
  {
    if at < |s| && (s[at] == skip || IsDigit(s[at])) {
      var more := if s[at] == skip then numeral else numeral + [s[at]];
      if s[at] != skip { DecimalOnward(numeral, s[at]); }
      AccumulateMeans(s, at + 1, skip, more);
      var end := Accumulate(s, at + 1, Decimal(more), skip).1;
      KeptStep(s, at, end, skip, numeral, more);
    } else {
      assert numeral + Kept(s[at..at], skip) == numeral;
    }
  }

  /** The number behind a possible minus sign. */
  function Unsigned(s: string, p: nat): nat {
    if p < |s| && s[p] == '-' then p + 1 else p
  }

  /** For every text and every character to skip: everything before the first digit or minus sign is passed over;
      the number goes on over digits and skipped characters; its value is that of the digits that are not
      skipped, negative behind a minus sign that is not skipped itself. */
  lemma ParsedMeans(s: string, at: nat, skip: char)
    requires at <= |s|
    ensures var p, (value, end) := SkipTo(s, at), Parsed(s, at, skip);
      if p == |s| then value == 0 && end == p
      else
        var from := Unsigned(s, p);
        && Numeric(s, from, end, skip) && p < end && AllDigits(Kept(s[from..end], skip))
        && value == if s[p] == '-' && skip != '-' then -(Decimal(Kept(s[from..end], skip)) as int) else Decimal(Kept(s[from..end], skip))
  {
    var p := SkipTo(s, at);
    if p < |s| { NumberFrom(s, p, skip); }
  }

  /** The digits of a number that begins at `p`, the sign apart. */
  lemma NumberFrom(s: string, p: nat, skip: char)
    requires p < |s| && (s[p] == '-' || IsDigit(s[p]))
    ensures var from, (value, end) := Unsigned(s, p), Accumulate(s, p + 1, if s[p] == skip || s[p] == '-' then 0 else DigitOf(s[p]), skip);
      && Numeric(s, from, end, skip) && p < end && AllDigits(Kept(s[from..end], skip)) && value == Decimal(Kept(s[from..end], skip))
  {
    var first := if s[p] == skip || s[p] == '-' then "" else [s[p]];
    FirstDigit(s[p], skip, first);
    AccumulateMeans(s, p + 1, skip, first);
    var end := Accumulate(s, p + 1, Decimal(first), skip).1;
    KeptBehind(s, p, end, skip, first);
  }

  lemma FirstDigit(c: char, skip: char, first: string)
    requires (c == '-' || IsDigit(c)) && first == if c == skip || c == '-' then "" else [c]
    ensures AllDigits(first) && Decimal(first) == if c == skip || c == '-' then 0 else DigitOf(c)
  {
    if first != "" {
      DecimalOnward("", c);
      assert "" + [c] == [c];
    }
  }

  lemma KeptBehind(s: string, p: nat, end: nat, skip: char, first: string)
    requires p < end <= |s| && first == if s[p] == skip || s[p] == '-' then "" else [s[p]]
    ensures first + Kept(s[p + 1..end], skip) == Kept(s[Unsigned(s, p)..end], skip)
  {
    if s[p] != '-' { assert s[p..end][1..] == s[p + 1..end]; }
  }

  class Stream {
    /** The characters that arrive in time, and how many have been read. */
    const input: string
    var pos: nat

    ghost predicate Valid()
      reads this
    {
      pos <= |input|
    }

    constructor (input: string)
      ensures Valid() && this.input == input && pos == 0
    {
      this.input, pos := input, 0;
    }

    /** timedRead, with NONE for the timeout. */
    method TimedRead() returns (c: char, timeout: bool)
      requires Valid()
      modifies this
      ensures Valid() && timeout == (old(pos) == |input|)
      ensures if timeout then pos == old(pos) else pos == old(pos) + 1 && c == input[old(pos)]
    {
      timeout := pos == |input|;
      c := NUL;
      if !timeout {
        c := input[pos];
        pos := pos + 1;
      }
    }

    /** timedPeek. */
    method TimedPeek() returns (c: char, timeout: bool)
      requires Valid()
      ensures timeout == (pos == |input|) && (!timeout ==> c == input[pos])
    {
      timeout := pos == |input|;
      c := if timeout then NUL else input[pos];
    }

    /** findUntil. */
    method FindUntil(target: string, terminator: string) returns (found: bool)
      requires Valid() && NulFree(target) && NulFree(terminator)
      modifies this
      ensures Valid()
      ensures if target == "" then found && pos == old(pos)
              else (found, pos) == Scan(target, terminator, input, old(pos), 0, 0)
    {
      var index, termIndex := 0, 0;
      if target == "" { return true; }
      while true
        invariant Valid() && 0 <= index < |target| && 0 <= termIndex && (terminator != "" ==> termIndex < |terminator|)
        invariant Scan(target, terminator, input, pos, index, termIndex)
               == Scan(target, terminator, input, old(pos), 0, 0)
        decreases |input| - pos
      {
        var c, timeout := TimedRead();
        if timeout || c == NUL { return false; }
        if c != target[index] { index := 0; }
        if c == target[index] {
          index := index + 1;
          if index >= |target| { return true; }
        }
        if |terminator| > 0 && c == terminator[termIndex] {
          termIndex := termIndex + 1;
          if termIndex >= |terminator| { return false; }
        } else {
          termIndex := 0;
        }
      }
    }

    /** peekNextDigit: everything before the next digit or minus sign is read away. */
    method PeekNextDigit() returns (c: char, timeout: bool)
      requires Valid()
      modifies this
      ensures Valid() && pos == SkipTo(input, old(pos)) && timeout == (pos == |input|)
      ensures !timeout ==> c == input[pos]
    {
      while true
        invariant Valid() && SkipTo(input, pos) == SkipTo(input, old(pos))
        decreases |input| - pos
      {
        c, timeout := TimedPeek();
        if timeout || c == '-' || IsDigit(c) { return; }
        pos := pos + 1;
      }
    }

    /** parseInt(char). */
    method ParseInt(skipChar: char) returns (value: int)
      requires Valid()
      modifies this
      ensures Valid() && (value, pos) == Parsed(input, old(pos), skipChar)
    {
      var isNegative := false;
      value := 0;
      var c, timeout := PeekNextDigit();
      if timeout { return 0; }
      ghost var start := pos;
      ghost var first := if c == skipChar || c == '-' then 0 else DigitOf(c);
      while true
        invariant Valid() && start <= pos < |input| && c == input[pos] && value >= 0
        invariant pos == start ==> value == 0 && !isNegative && (c == '-' || IsDigit(c))
        invariant pos > start ==> (c == skipChar || IsDigit(c)) && isNegative == (input[start] != skipChar && input[start] == '-')
        invariant pos > start ==> Accumulate(input, pos, value, skipChar) == Accumulate(input, start + 1, first, skipChar)
        decreases |input| - pos
      {
        if c == skipChar {
        } else if c == '-' {
          isNegative := true;
        } else if IsDigit(c) {
          value := value * 10 + DigitOf(c);
        }
        pos := pos + 1;
        c, timeout := TimedPeek();
        if timeout || !(IsDigit(c) || c == skipChar) { break; }
      }
      if isNegative { value := -value; }
    }
  }

  // ---------- Printing and parsing ----------

  const LONG_MAX: int := 0x7fff_ffff

  /** Every sum that parseInt forms on the way, value * 10 + c before '0' is taken off, fits a long. */
  predicate Fits(s: string, at: nat, value: nat, skip: char)
    requires at <= |s|
    decreases |s| - at
  {
    if at < |s| && s[at] == skip then Fits(s, at + 1, value, skip)
    else if at < |s| && IsDigit(s[at]) then
      value * 10 + s[at] as int <= LONG_MAX && Fits(s, at + 1, value * 10 + DigitOf(s[at]), skip)
    else true
  }

  /** Digits stand from `from` up to `end`, and no further digit or skipped character follows. */
  ghost predicate Run(s: string, from: nat, end: nat, skip: char) {
    && from <= end <= |s| && (forall k | from <= k < end :: IsDigit(s[k]))
    && !IsDigit(skip) && (end < |s| ==> !IsDigit(s[end]) && s[end] != skip)
  }

  ghost function Part(s: string, from: nat, end: nat, skip: char, at: nat): nat
    requires Run(s, from, end, skip) && from <= at <= end
  {
    Decimal(s[from..at])
  }

  lemma PartStep(s: string, from: nat, end: nat, skip: char, at: nat)
    requires Run(s, from, end, skip) && from <= at < end
    ensures Part(s, from, end, skip, at + 1) == Part(s, from, end, skip, at) * 10 + DigitOf(s[at])
  {
    assert s[from..at + 1][..at - from] == s[from..at];
  }

  lemma {:induction false} AccumulateRun(s: string, from: nat, end: nat, skip: char, at: nat)
    requires Run(s, from, end, skip) && from <= at <= end
    ensures Accumulate(s, at, Part(s, from, end, skip, at), skip) == (Decimal(s[from..end]), end)
    decreases end - at
  {
    if at < end {
      PartStep(s, from, end, skip, at);
      AccumulateRun(s, from, end, skip, at + 1);
    }
  }

  lemma {:induction false} PartGrows(s: string, from: nat, end: nat, skip: char, at: nat)
    requires Run(s, from, end, skip) && from <= at <= end
    ensures Part(s, from, end, skip, at) <= Decimal(s[from..end])
    decreases end - at
  {
    if at < end {
      PartStep(s, from, end, skip, at);
      PartGrows(s, from, end, skip, at + 1);
    }
  }

  /** The last of the sums is the largest. */
  lemma {:induction false} FitsRun(s: string, from: nat, end: nat, skip: char, at: nat)
    requires Run(s, from, end, skip) && from <= at <= end
    ensures Fits(s, at, Part(s, from, end, skip, at), skip)
       <==> at == end || Decimal(s[from..end]) + '0' as int <= LONG_MAX
    decreases end - at
  {
    if at < end {
      PartStep(s, from, end, skip, at);
      PartGrows(s, from, end, skip, at + 1);
      FitsRun(s, from, end, skip, at + 1);
    }
  }

  /** `n` as print(long) writes it, between texts that parseInt skips and that end it. */
  function Between(prefix: string, n: int, rest: string): string {
    prefix + Signed(n, Numeral(Abs(n))) + rest
  }

  ghost predicate Apart(prefix: string, rest: string, skip: char) {
    && (forall k | 0 <= k < |prefix| :: prefix[k] != '-' && !IsDigit(prefix[k]))
    && skip != '-' && !IsDigit(skip) && (rest != "" ==> !IsDigit(rest[0]) && rest[0] != skip)
  }

  lemma {:induction false} SkipsPrefix(s: string, at: nat, p: nat)
    requires at <= p < |s| && (s[p] == '-' || IsDigit(s[p]))
    requires forall k | at <= k < p :: s[k] != '-' && !IsDigit(s[k])
    ensures SkipTo(s, at) == p
    decreases p - at
  {
    if at < p { SkipsPrefix(s, at + 1, p); }
  }

  /** Digits in the middle of a text. */
  lemma Middle(head: string, digits: string, rest: string, skip: char)
    requires (forall i | 0 <= i < |digits| :: IsDigit(digits[i]))
    requires !IsDigit(skip) && (rest != "" ==> !IsDigit(rest[0]) && rest[0] != skip)
    ensures var s, end := head + digits + rest, |head| + |digits|;
      Run(s, |head|, end, skip) && s[|head|..end] == digits && forall k | 0 <= k < |head| :: s[k] == head[k]
  {
    var s := head + digits + rest;
    forall k | |head| <= k < |head| + |digits| ensures IsDigit(s[k]) { assert s[k] == digits[k - |head|]; }
  }

  /** Where the digits of the printed number are. */
  lemma PrintedDigits(prefix: string, n: int, digits: string, rest: string, skip: char)
    requires Apart(prefix, rest, skip) && digits != "" && forall i | 0 <= i < |digits| :: IsDigit(digits[i])
    ensures var s, from := prefix + Signed(n, digits) + rest, |prefix| + if n < 0 then 1 else 0;
      var end := from + |digits|;
      Run(s, from, end, skip) && s[from..end] == digits && SkipTo(s, 0) == |prefix| && (s[|prefix|] == '-' <==> n < 0)
  {
    var s := prefix + Signed(n, digits) + rest;
    var head := prefix + if n < 0 then "-" else "";
    SignInFront(prefix, n, digits, rest);
    Middle(head, digits, rest, skip);
    assert s[|head|] == digits[0] && forall k | 0 <= k < |prefix| :: head[k] == prefix[k];
    SkipsPrefix(s, 0, |prefix|);
  }

  lemma PrintedRun(prefix: string, n: int, rest: string, skip: char) returns (from: nat, end: nat)
    requires Apart(prefix, rest, skip)
    ensures var s := Between(prefix, n, rest); Run(s, from, end, skip) && from < end && Decimal(s[from..end]) == Abs(n)
    ensures var s := Between(prefix, n, rest); SkipTo(s, 0) == |prefix| < |s| && (s[|prefix|] == '-' <==> n < 0)
    ensures from == |prefix| + (if n < 0 then 1 else 0) && end == |prefix + Signed(n, Numeral(Abs(n)))|
  {
    var digits := Numeral(Abs(n));
    from := |prefix| + if n < 0 then 1 else 0;
    end := from + |digits|;
    PrintedDigits(prefix, n, digits, rest, skip);
    NumeralMeans(Abs(n));
  }

  lemma SignInFront(prefix: string, n: int, digits: string, rest: string)
    ensures prefix + Signed(n, digits) + rest == (prefix + if n < 0 then "-" else "") + digits + rest
  {}

  lemma {:induction false} ParsedRun(s: string, p: nat, end: nat, skip: char)
    requires SkipTo(s, 0) == p < |s| && skip != '-'
    requires var from := p + (if s[p] == '-' then 1 else 0); from < end && Run(s, from, end, skip)
    ensures var value := Decimal(s[p + (if s[p] == '-' then 1 else 0)..end]);
      Parsed(s, 0, skip) == (if s[p] == '-' then -(value as int) else value, end)
  {
    if s[p] == '-' {
      PartNone(s, p + 1, end, skip);
      AccumulateRun(s, p + 1, end, skip, p + 1);
    } else {
      PartNone(s, p, end, skip);
      PartStep(s, p, end, skip, p);
      AccumulateRun(s, p, end, skip, p + 1);
    }
  }

  lemma PartNone(s: string, from: nat, end: nat, skip: char)
    requires Run(s, from, end, skip) && from < end
    ensures Part(s, from, end, skip, from) == 0
  {
    assert s[from..from] == "";
  }

  /** parseInt reads back what print(long) wrote. */
  lemma ParseIntInvertsPrint(prefix: string, n: int, rest: string, skip: char)
    requires Apart(prefix, rest, skip)
    ensures var text := prefix + Signed(n, Numeral(Abs(n))); Parsed(text + rest, 0, skip) == (n, |text|)
  {
    var from, end := PrintedRun(prefix, n, rest, skip);
    ParsedRun(Between(prefix, n, rest), |prefix|, end, skip);
  }

  /** No sum on the way leaves the range of a long exactly when the number is at most 2147483599. */
  lemma ParseIntFitsIff(prefix: string, n: int, rest: string, skip: char)
    requires Apart(prefix, rest, skip)
    ensures Fits(Between(prefix, n, rest), |prefix| + (if n < 0 then 1 else 0), 0, skip) <==> Abs(n) <= 2147483599
  {
    var s := Between(prefix, n, rest);
    var from, end := PrintedRun(prefix, n, rest, skip);
    assert s[from..from] == "";
    FitsRun(s, from, end, skip, from);
  }
}
