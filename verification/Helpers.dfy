/** The byte-level helpers of lwmqtt (libraries/MQTT/helpers.c): bit fields, bounded reads and
    writes through an advancing position, and the variable-length number of MQTT 3.1.1,
    section 2.2.3.

    A C pointer pair (buf, buf_end) is an array with a position and an end; every helper answers
    the new position beside its error.  The helpers that read take the bytes as a sequence. */
module Helpers {
  import opened Arithmetic

  type byte = b: int | 0 <= b < 256

  const U16: nat := 0x1_0000
  const U32: nat := 0x1_0000_0000

  /** lwmqtt_err_t; a failure-compatible type, so that `:-` is the source's early return. */
  datatype Err =
    | Success
    | BufferTooShort
    | VarnumOverflow
    | NetworkFailedConnect
    | NetworkTimeout
    | NetworkFailedRead
    | NetworkFailedWrite
    | RemainingLengthOverflow
    | RemainingLengthMismatch
    | MissingOrWrongPacket
    | ConnectionDenied
    | FailedSubscription
    | SubackArrayOverflow
    | PongTimeout
  {
    predicate IsFailure() { !Success? }
    function PropagateFailure(): Err { this }

    /** Reported by the network callbacks, or by the time. */
    predicate FromNetwork() {
      NetworkFailedConnect? || NetworkTimeout? || NetworkFailedRead? || NetworkFailedWrite?
    }

    /** Any exchange can end like this; the other four belong to one operation each. */
    predicate Common() {
      this != ConnectionDenied && this != FailedSubscription && this != SubackArrayOverflow && this != PongTimeout
    }
  }

  // ---------- Bit fields ----------

  /** Bit `i` of a number. */
  predicate Bit(x: nat, i: nat) {
    if i == 0 then x % 2 == 1 else Bit(x / 2, i - 1)
  }

  /** Bitwise or of two numbers. */
  function BitOr(x: nat, y: nat): nat
    decreases x + y
  {
    if x == 0 && y == 0 then 0
    else (if x % 2 == 1 || y % 2 == 1 then 1 else 0) + 2 * BitOr(x / 2, y / 2)
  }

  lemma QuotientOfNats(x: nat, d: nat)
    requires d > 0
    ensures x / d >= 0
  {}

  function ShiftRight(x: nat, n: nat): nat {
    QuotientOfNats(x, Pow2(n));
    x / Pow2(n)
  }

  function LowBits(x: nat, n: nat): (r: nat)
    ensures r < Pow2(n)
  {
    x % Pow2(n)
  }

  lemma ShiftAndMask(x: nat, n: nat)
    ensures x == ShiftRight(x, n) * Pow2(n) + LowBits(x, n)
  {}

  /** The `num` bits of `b` from bit `pos` up: a shift and a mask. */
  function ReadBits(b: byte, pos: nat, num: nat): nat {
    LowBits(ShiftRight(b, pos), num)
  }

  lemma LowestBit(b: byte)
    ensures ReadBits(b, 0, 1) == b % 2
  {
    assert Pow2(0) == 1 && Pow2(1) == 2;
  }

  /** `x` with its `num` bits from bit `pos` up set to zero. */
  function ClearBits(x: nat, pos: nat, num: nat): nat
    decreases x
  {
    if x == 0 then 0
    else if pos > 0 then x % 2 + 2 * ClearBits(x / 2, pos - 1, num)
    else if num > 0 then 2 * ClearBits(x / 2, 0, num - 1)
    else x
  }

  /** The field is cleared and `value`, shifted but not masked, is or-ed in; the store into a
      byte drops everything above bit 7. */
  function WriteBits(b: byte, value: byte, pos: nat, num: nat): byte {
    BitOr(ClearBits(b, pos, num), value * Pow2(pos)) % 256
  }

  /** Bits of a number that is put together from a high and a low part. */
  lemma {:induction false} PartsBit(high: nat, low: nat, n: nat, i: nat)
    requires low < Pow2(n)
    ensures Bit(high * Pow2(n) + low, i) == if i < n then Bit(low, i) else Bit(high, i - n)
  {
    var x := high * Pow2(n) + low;
    if n > 0 {
      Associate(high, 2, Pow2(n - 1));
      Associate(2, high, Pow2(n - 1));
      assert x == 2 * (high * Pow2(n - 1)) + low;
      assert x / 2 == high * Pow2(n - 1) + low / 2 && x % 2 == low % 2;
      if i > 0 { PartsBit(high, low / 2, n - 1, i - 1); }
    }
  }

  lemma {:induction false} NoBitAbove(low: nat, n: nat, i: nat)
    requires low < Pow2(n) && i >= n
    ensures !Bit(low, i)
  {
    if n > 0 { NoBitAbove(low / 2, n - 1, i - 1); } else { ZeroBit(i); }
  }

  lemma {:induction false} ZeroBit(i: nat)
    ensures !Bit(0, i)
  {
    if i > 0 { ZeroBit(i - 1); }
  }

  /** Shifting right and masking, bit by bit. */
  lemma ShiftAndMaskBit(x: nat, n: nat, i: nat)
    ensures Bit(ShiftRight(x, n), i) == Bit(x, n + i)
    ensures Bit(LowBits(x, n), i) == (i < n && Bit(x, i))
  {
    ShiftAndMask(x, n);
    var high, low := ShiftRight(x, n), LowBits(x, n);
    PartsBit(high, low, n, n + i);
    if i < n { PartsBit(high, low, n, i); } else { NoBitAbove(low, n, i); }
  }

  lemma {:induction false} BitOrBit(x: nat, y: nat, i: nat)
    ensures Bit(BitOr(x, y), i) == (Bit(x, i) || Bit(y, i))
  {
    if x == 0 && y == 0 { ZeroBit(i); } else if i > 0 { BitOrBit(x / 2, y / 2, i - 1); }
  }

  lemma {:induction false} ClearBitsBit(x: nat, pos: nat, num: nat, i: nat)
    ensures Bit(ClearBits(x, pos, num), i) == (Bit(x, i) && !(pos <= i < pos + num))
    decreases x
  {
    if x == 0 {
      ZeroBit(i);
    } else if i > 0 {
      if pos > 0 { ClearBitsBit(x / 2, pos - 1, num, i - 1); } else if num > 0 { ClearBitsBit(x / 2, 0, num - 1, i - 1); }
    }
  }

  /** What lwmqtt_write_bits does to every bit of the byte, whatever the value. */
  lemma WriteBitsBit(b: byte, value: byte, pos: nat, num: nat, i: nat)
    ensures Bit(WriteBits(b, value, pos, num), i)
         == (i < 8 && ((Bit(b, i) && !(pos <= i < pos + num)) || (i >= pos && Bit(value, i - pos))))
  {
    assert Pow2(8) == 256;
    ShiftAndMaskBit(BitOr(ClearBits(b, pos, num), value * Pow2(pos)), 8, i);
    BitOrBit(ClearBits(b, pos, num), value * Pow2(pos), i);
    ClearBitsBit(b, pos, num, i);
    PartsBit(value, 0, pos, i);
    ZeroBit(i);
  }

  lemma ReadBitsBit(b: byte, pos: nat, num: nat, i: nat)
    ensures Bit(ReadBits(b, pos, num), i) == (i < num && Bit(b, pos + i))
  {
    ShiftAndMaskBit(ShiftRight(b, pos), num, i);
    ShiftAndMaskBit(b, pos, i);
  }

  lemma {:induction false} SameBits(x: nat, y: nat)
    requires forall i: nat :: Bit(x, i) == Bit(y, i)
    ensures x == y
  {
    assert Bit(x, 0) == Bit(y, 0);
    if x + y > 1 {
      forall i: nat ensures Bit(x / 2, i) == Bit(y / 2, i) {
        assert Bit(x, i + 1) == Bit(y, i + 1);
      }
      SameBits(x / 2, y / 2);
    }
  }

  lemma ReadWrittenFieldBit(b: byte, value: byte, pos: nat, num: nat, i: nat)
    requires pos + num <= 8 && value < Pow2(num)
    ensures Bit(ReadBits(WriteBits(b, value, pos, num), pos, num), i) == Bit(value, i)
  {
    ReadBitsBit(WriteBits(b, value, pos, num), pos, num, i);
    WriteBitsBit(b, value, pos, num, pos + i);
    if i >= num { NoBitAbove(value, num, i); }
  }

  lemma ReadOtherFieldBit(b: byte, value: byte, pos: nat, num: nat, p: nat, n: nat, i: nat)
    requires pos + num <= 8 && value < Pow2(num)
    requires p + n <= pos || (pos + num <= p && p + n <= 8)
    ensures Bit(ReadBits(WriteBits(b, value, pos, num), p, n), i) == Bit(ReadBits(b, p, n), i)
  {
    ReadBitsBit(WriteBits(b, value, pos, num), p, n, i);
    ReadBitsBit(b, p, n, i);
    WriteBitsBit(b, value, pos, num, p + i);
    if pos + num <= p { NoBitAbove(value, num, p + i - pos); }
  }

  /** A value that fits its field is read back from it, and every field that does not overlap the
      written one keeps its value. */
  lemma WriteBitsFields(b: byte, value: byte, pos: nat, num: nat, p: nat, n: nat)
    requires pos + num <= 8 && value < Pow2(num)
    requires p + n <= pos || (pos + num <= p && p + n <= 8)
    ensures ReadBits(WriteBits(b, value, pos, num), pos, num) == value
    ensures ReadBits(WriteBits(b, value, pos, num), p, n) == ReadBits(b, p, n)
  {
    var w := WriteBits(b, value, pos, num);
    SameBits(ReadBits(w, pos, num), value) by {
      forall i: nat ensures Bit(ReadBits(w, pos, num), i) == Bit(value, i) {
        ReadWrittenFieldBit(b, value, pos, num, i);
      }
    }
    SameBits(ReadBits(w, p, n), ReadBits(b, p, n)) by {
      forall i: nat ensures Bit(ReadBits(w, p, n), i) == Bit(ReadBits(b, p, n), i) {
        ReadOtherFieldBit(b, value, pos, num, p, n, i);
      }
    }
  }

  // ---------- Bounded reads ----------

  /** The two bytes of a 16-bit number, most significant first. */
  function Num(n: nat): seq<byte>
    requires n < U16
  {
    [n / 256, n % 256]
  }

  /** A length-prefixed string. */
  function Str(s: seq<byte>): seq<byte>
    requires |s| < U16
  {
    Num(|s|) + s
  }

  method ReadByte(buf: array<byte>, pos: nat, end: nat) returns (err: Err, next: nat, b: byte)
    requires pos <= end <= buf.Length
    ensures if pos + 1 <= end then err == Success && next == pos + 1 && b == buf[pos]
            else err == BufferTooShort && next == pos && b == 0
  {
    if end - pos < 1 { return BufferTooShort, pos, 0; }
    return Success, pos + 1, buf[pos];
  }

  method ReadNum(buf: array<byte>, pos: nat, end: nat) returns (err: Err, next: nat, n: nat)
    requires pos <= end <= buf.Length
    ensures if pos + 2 <= end then err == Success && next == pos + 2 && n < U16 && buf[pos..next] == Num(n)
            else err == BufferTooShort && next == pos && n == 0
  {
    if end - pos < 2 { return BufferTooShort, pos, 0; }
    return Success, pos + 2, 256 * (buf[pos] as int) + buf[pos + 1];
  }

  /** The source answers a pointer into the buffer; the model answers the bytes under it. */
  method ReadData(buf: array<byte>, pos: nat, end: nat, len: nat) returns (err: Err, next: nat, data: seq<byte>)
    requires pos <= end <= buf.Length
    ensures if pos + len <= end then err == Success && next == pos + len && data == buf[pos..next]
            else err == BufferTooShort && next == pos && data == []
  {
    if len == 0 { return Success, pos, []; }
    if end - pos < len { return BufferTooShort, pos, []; }
    return Success, pos + len, buf[pos..pos + len];
  }

  /** `s` starts with a length-prefixed string. */
  predicate StartsWithStr(s: seq<byte>) {
    |s| >= 2 && 2 + 256 * (s[0] as int) + s[1] <= |s|
  }

  method ReadString(buf: array<byte>, pos: nat, end: nat) returns (err: Err, next: nat, s: seq<byte>)
    requires pos <= end <= buf.Length
    ensures err == if StartsWithStr(buf[pos..end]) then Success else BufferTooShort
    ensures err == Success ==> pos <= next <= end && |s| < U16 && buf[pos..next] == Str(s)
  {
    var n: nat;
    err, next, n := ReadNum(buf, pos, end);
    s := [];
    if err != Success { return; }
    assert buf[pos..end][0] == buf[pos..next][0] && buf[pos..end][1] == buf[pos..next][1];
    err, next, s := ReadData(buf, next, end, n);
    if err == Success { assert buf[pos..next] == buf[pos..pos + 2] + buf[pos + 2..next]; }
  }

  // ---------- Variable-length numbers ----------

  /** The shortest form: seven bits a byte, least significant first, bit 7 set on all but the last. */
  function Varnum(n: nat): (s: seq<byte>)
    ensures |s| > 0
  {
    if n < 128 then [n] else [128 + n % 128] + Varnum(n / 128)
  }

  datatype VarnumResult = Done(value: nat, len: nat) | TooShort | Overflow
  {
    /** The reading that this one becomes when `len` bytes worth `low` stand before it. */
    function Behind(low: nat, weight: nat, bytes: nat): VarnumResult {
      if Done? then Done(low + weight * value, bytes + len) else this
    }
  }

  /** The variable-length number starting at byte `k` of a form that starts at byte 0. */
  function VarnumAt(s: seq<byte>, k: nat): VarnumResult
    decreases 5 - k
  {
    if |s| <= k then TooShort
    else if k >= 4 then Overflow
    else if s[k] < 128 then Done(s[k], 1)
    else VarnumAt(s, k + 1).Behind(s[k] - 128, 128, 1)
  }

  /** The number that `s` starts with, at most four bytes long. */
  function ParseVarnum(s: seq<byte>): VarnumResult { VarnumAt(s, 0) }

  function Weight(bytes: nat): nat { if bytes == 0 then 1 else 128 * Weight(bytes - 1) }

  /** One more byte, worth `digit`, of a number whose first `k` bytes are worth `low`. */
  lemma VarnumStep(s: seq<byte>, k: nat, low: nat, weight: nat, digit: nat)
    requires k < 4 && k < |s| && low < weight && digit == if s[k] < 128 then s[k] else s[k] - 128
    ensures low + digit * weight < 128 * weight
    ensures VarnumAt(s, k).Behind(low, weight, k)
         == if s[k] < 128 then Done(low + digit * weight, k + 1)
            else VarnumAt(s, k + 1).Behind(low + digit * weight, 128 * weight, k + 1)
  {
    if s[k] < 128 {
      AddDigit(low, weight, digit, 0);
    } else {
      BehindDigit(VarnumAt(s, k + 1), digit, low, weight, k);
    }
  }

  /** A reading behind a digit behind `k` bytes worth `low`. */
  lemma BehindDigit(r: VarnumResult, digit: nat, low: nat, weight: nat, k: nat)
    requires digit < 128 && low < weight
    ensures r.Behind(digit, 128, 1).Behind(low, weight, k) == r.Behind(low + digit * weight, 128 * weight, k + 1)
    ensures low + digit * weight < 128 * weight
  {
    AddDigit(low, weight, digit, if r.Done? then r.value else 0);
  }

  lemma WeightBound(k: nat)
    requires k < 4
    ensures 128 * Weight(k) == Weight(k + 1) <= 0x1000_0000
  {
    assert Weight(1) == 128 && Weight(2) == 16384 && Weight(3) == 2097152 && Weight(4) == 268435456;
  }

  lemma AddDigit(low: nat, weight: nat, digit: nat, rest: nat)
    requires digit < 128 && low < weight
    ensures low + weight * (digit + 128 * rest) == low + digit * weight + 128 * weight * rest
    ensures low + digit * weight < 128 * weight
  {
    MulMonotone(digit, 127, weight);
    Distribute(weight, digit, 128 * rest);
    Associate(weight, 128, rest);
  }

  method ReadVarnum(buf: array<byte>, pos: nat, end: nat) returns (err: Err, next: nat, n: nat)
    requires pos <= end <= buf.Length
    ensures match ParseVarnum(buf[pos..end])
            case Done(v, len) => err == Success && next == pos + len <= end && n == v < 0x1000_0000
            case TooShort => err == BufferTooShort && next == pos
            case Overflow => err == VarnumOverflow && next == pos
  {
    ghost var s := buf[pos..end];
    var weight: nat, len := 1, 0;
    err, next, n := Success, pos, 0;
    while true
      invariant 0 <= len <= 4 && pos + len <= end && n < weight == Weight(len)
      invariant ParseVarnum(s) == VarnumAt(s, len).Behind(n, weight, len)
      decreases 4 - len
    {
      if end - pos < len + 1 { return BufferTooShort, pos, n; }
      if len + 1 > 4 { return VarnumOverflow, pos, n; }
      var b: nat := buf[pos + len];
      var digit: nat := b % 128;
      VarnumStep(s, len, n, weight, digit);
      WeightBound(len);
      n, weight, len := n + digit * weight, weight * 128, len + 1;
      if b < 128 { return Success, pos + len, n; }
    }
  }

  lemma VarnumLengths(n: nat)
    ensures |Varnum(n)| == 1 <==> n < 128
    ensures |Varnum(n)| <= 2 <==> n < 16384
    ensures |Varnum(n)| <= 3 <==> n < 2097152
    ensures |Varnum(n)| <= 4 <==> n < 268435456
  {
    if n >= 128 { VarnumLengths(n / 128); }
  }

  /** lwmqtt_varnum_length: the byte count it predicts, or an overflow. */
  function VarnumLength(n: nat): (Err, nat) {
    if n < 128 then (Success, 1)
    else if n < 16384 then (Success, 2)
    else if n < 2097151 then (Success, 3)
    else if n < 268435455 then (Success, 4)
    else (VarnumOverflow, 0)
  }

  /** The prediction is right for every writable number but two: at 2097151 it counts a byte too
      many, and 268435455, the largest number of section 2.2.3, it calls an overflow. */
  lemma VarnumLengthExact(n: nat)
    requires n < 0x1000_0000
    ensures VarnumLength(n) == (Success, |Varnum(n)|) <==> n != 2097151 && n != 268435455
    ensures VarnumLength(2097151) == (Success, |Varnum(2097151)| + 1)
    ensures VarnumLength(268435455) == (VarnumOverflow, 0) && |Varnum(268435455)| == 4
  {
    VarnumLengths(n);
    VarnumLengths(2097151);
    VarnumLengths(268435455);
  }

  lemma {:induction false} VarnumAtWritten(s: seq<byte>, k: nat, n: nat)
    requires k + |Varnum(n)| <= 4 && k <= |s| && Varnum(n) <= s[k..]
    ensures VarnumAt(s, k) == Done(n, |Varnum(n)|)
    decreases n
  {
    assert s[k] == Varnum(n)[0];
    if n >= 128 {
      assert s[k + 1..] == s[k..][1..] && Varnum(n / 128) == Varnum(n)[1..];
      VarnumAtWritten(s, k + 1, n / 128);
    }
  }

  /** Reading inverts writing, whatever follows the number. */
  lemma VarnumRoundTrip(n: nat, rest: seq<byte>)
    requires n < 0x1000_0000
    ensures ParseVarnum(Varnum(n) + rest) == Done(n, |Varnum(n)|)
  {
    VarnumLengths(n);
    VarnumAtWritten(Varnum(n) + rest, 0, n);
  }

  lemma {:induction false} VarnumAtShort(s: seq<byte>, k: nat, n: nat)
    requires k + |Varnum(n)| <= 4 && k <= |s| && s[k..] < Varnum(n)
    ensures VarnumAt(s, k) == TooShort
    decreases n
  {
    if |s| > k {
      assert s[k] == Varnum(n)[0];
      assert s[k + 1..] == s[k..][1..] && Varnum(n / 128) == Varnum(n)[1..];
      VarnumAtShort(s, k + 1, n / 128);
    }
  }

  /** Every strict prefix of a written number asks for more bytes. */
  lemma VarnumPrefixTooShort(n: nat, k: nat)
    requires n < 0x1000_0000 && k < |Varnum(n)|
    ensures ParseVarnum(Varnum(n)[..k]) == TooShort
  {
    VarnumLengths(n);
    VarnumAtShort(Varnum(n)[..k], 0, n);
  }

  lemma {:induction false} VarnumAtShortest(s: seq<byte>, k: nat)
    requires VarnumAt(s, k).Done?
    ensures var r := VarnumAt(s, k);
            |Varnum(r.value)| <= r.len <= 4 - k && k + r.len <= |s|
    decreases 5 - k
  {
    if s[k] >= 128 {
      VarnumAtShortest(s, k + 1);
    }
  }

  /** Whatever reads as n is at least as long as the written form of n, and n is below 2^28. */
  lemma VarnumShortest(s: seq<byte>)
    requires ParseVarnum(s).Done?
    ensures var r := ParseVarnum(s);
            |Varnum(r.value)| <= r.len <= 4 && r.len <= |s| && r.value < 0x1000_0000
  {
    VarnumAtShortest(s, 0);
    VarnumLengths(ParseVarnum(s).value);
  }

  lemma {:induction false} VarnumAtEnough(s: seq<byte>, k: nat)
    requires |s| >= 5 && k <= 4
    ensures !VarnumAt(s, k).TooShort?
    decreases 5 - k
  {
    if k < 4 && s[k] >= 128 { VarnumAtEnough(s, k + 1); }
  }

  lemma {:induction false} VarnumAtLocal(s: seq<byte>, t: seq<byte>, k: nat)
    requires VarnumAt(s, k).Done?
    requires k + VarnumAt(s, k).len <= |t|
    requires forall i | k <= i < k + VarnumAt(s, k).len :: i < |s| && s[i] == t[i]
    ensures VarnumAt(t, k) == VarnumAt(s, k)
    decreases 5 - k
  {
    VarnumAtShortest(s, k);
    assert s[k] == t[k];
    if s[k] >= 128 { VarnumAtLocal(s, t, k + 1); }
  }

  /** A reading depends only on the bytes it covers. */
  lemma VarnumLocal(s: seq<byte>, t: seq<byte>)
    requires ParseVarnum(s).Done? && ParseVarnum(s).len <= |s|
    requires s[..ParseVarnum(s).len] <= t
    ensures ParseVarnum(t) == ParseVarnum(s)
  {
    var len := ParseVarnum(s).len;
    forall i | 0 <= i < len ensures s[i] == t[i] {
      assert s[..len][i] == t[..len][i];
    }
    VarnumAtLocal(s, t, 0);
  }

  /** A reader that asks for one byte at a time, as long as a number is incomplete, stops within
      five bytes, and at the last byte of the number when there is one. */
  lemma VarnumByteByByte(s: seq<byte>)
    requires 1 <= |s| && (|s| > 1 ==> ParseVarnum(s[..|s| - 1]) == TooShort)
    ensures ParseVarnum(s).Done? ==> ParseVarnum(s).len == |s|
    ensures |s| >= 5 ==> !ParseVarnum(s).TooShort?
  {
    if ParseVarnum(s).Done? {
      VarnumShortest(s);
      if ParseVarnum(s).len < |s| { VarnumLocal(s, s[..|s| - 1]); }
    }
    if |s| >= 5 { VarnumAtEnough(s, 0); }
  }

  // ---------- Bounded writes ----------

  /** The pointer pair (uint8_t **buf, buf_end) of the write helpers: the next write goes to
      `buf[pos]` and may not reach the end of `buf`. */
  class Packer {
    const buf: array<byte>
    var pos: nat
    ghost const original: seq<byte>
    ghost var written: seq<byte>

    /** The buffer holds what was written, followed by its old contents. */
    ghost predicate Valid()
      reads this, buf
    {
      && pos == |written| <= buf.Length == |original|
      && forall i | 0 <= i < buf.Length :: buf[i] == if i < pos then written[i] else original[i]
    }

    lemma Contents()
      requires Valid()
      ensures buf[..] == written + original[pos..]
    {}

    constructor (buf: array<byte>)
      ensures Valid() && this.buf == buf && original == buf[..] && written == []
    {
      this.buf, pos, original, written := buf, 0, buf[..], [];
    }

    /** What every bounded write promises: all of `data` goes in, or there is no room for it and
        nothing changes. */
    twostate predicate Wrote(data: seq<byte>, err: Err)
      reads this, buf
    {
      if |old(written)| + |data| <= buf.Length then err == Success && written == old(written) + data
      else err == BufferTooShort && written == old(written)
    }

    /** The same for several writes in a row, which may stop halfway when there is no room. */
    twostate predicate Appended(data: seq<byte>, err: Err)
      reads this, buf
    {
      && err == (if |old(written)| + |data| <= buf.Length then Success else BufferTooShort)
      && (err == Success ==> Valid() && written == old(written) + data)
    }

    method WriteData(data: seq<byte>) returns (err: Err)
      requires Valid()
      modifies this, buf
      ensures Valid() && Wrote(data, err)
    {
      if |data| == 0 { return Success; }
      if buf.Length - pos < |data| { return BufferTooShort; }
      forall i | 0 <= i < |data| { buf[pos + i] := data[i]; }
      pos, written := pos + |data|, written + data;
      return Success;
    }

    method WriteByte(b: byte) returns (err: Err)
      requires Valid()
      modifies this, buf
      ensures Valid() && Wrote([b], err)
    {
      if buf.Length - pos < 1 { return BufferTooShort; }
      buf[pos] := b;
      pos, written := pos + 1, written + [b];
      return Success;
    }

    method WriteNum(n: nat) returns (err: Err)
      requires Valid() && n < U16
      modifies this, buf
      ensures Valid() && Wrote(Num(n), err)
    {
      if buf.Length - pos < 2 { return BufferTooShort; }
      buf[pos], buf[pos + 1] := n / 256, n % 256;
      pos, written := pos + 2, written + Num(n);
      return Success;
    }

    /** Length and text are two writes: when only the length fits, it stays written. */
    method WriteString(s: seq<byte>) returns (err: Err)
      requires Valid() && |s| < U16
      modifies this, buf
      ensures Appended(Str(s), err)
    {
      err := Success;
      :- WriteNum(|s|);
      :- WriteData(s);
    }

    /** Overflow and a full buffer are found on the way, after the bytes before that point have
        been stored beyond the position, which then does not move. */
    method WriteVarnum(num: nat) returns (err: Err)
      requires Valid() && num < U32
      modifies this, buf
      ensures num < 0x1000_0000 ==> Appended(Varnum(num), err)
      ensures num >= 0x1000_0000 ==> err == if buf.Length - |old(written)| < 4 then BufferTooShort else VarnumOverflow
    {
      VarnumLengths(num);
      ghost var form := Varnum(num);
      var n: nat, len := num, 0;
      while true
        invariant 0 <= len <= 4 && pos + len <= buf.Length
        invariant pos == old(pos) && written == old(written)
        invariant |form| == len + |Varnum(n)| && form[len..] == Varnum(n)
        invariant forall i | 0 <= i < buf.Length ::
                    buf[i] == if i < pos then written[i] else if i < pos + len then form[i - pos] else original[i]
        decreases 4 - len
      {
        if len == 4 { return VarnumOverflow; }
        if buf.Length - pos < len + 1 { return BufferTooShort; }
        assert form[len] == form[len..][0];
        assert n >= 128 ==> form[len + 1..] == form[len..][1..];
        var b := n % 128;
        n := n / 128;
        if n > 0 { b := b + 128; }
        buf[pos + len] := b;
        len := len + 1;
        if n == 0 {
          pos, written := pos + len, written + form;
          return Success;
        }
      }
    }
  }
}
