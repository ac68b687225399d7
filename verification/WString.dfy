/** The Arduino String class of cores/w800/WString.cpp: a heap buffer that is grown in steps of
    sixteen, kept NUL-terminated, and edited in place. */
module WString {
  import opened Arithmetic
  import opened Sequences
  import opened Substitution

  /** A `const char *` argument: a null pointer or a text without its terminator. */
  datatype CString = Null | Text(chars: string)

  predicate IsSpace(c: char) {
    c == ' ' || '\t' <= c <= '\r'
  }

  /** The six characters of isspace. */
  lemma IsSpaceMeans(c: char)
    ensures IsSpace(c) <==> c as int == 32 || c as int == 9 || c as int == 10 || c as int == 11 || c as int == 12 || c as int == 13
  {}

  // ---------- The C library routines ----------

  /** `a` is as before, except that `chars` stands from `to` on. */
  twostate predicate Wrote(a: array<char>, to: nat, chars: string)
    reads a
  {
    && to + |chars| <= a.Length
    && (forall k | to <= k < to + |chars| :: a[k] == chars[k - to])
    && (forall k | 0 <= k < a.Length && !(to <= k < to + |chars|) :: a[k] == old(a[k]))
  }

  /** memmove (and memcpy, where the regions may touch). */
  method MemMove(dst: array<char>, to: nat, src: string)
    requires to + |src| <= dst.Length
    modifies dst
    ensures Wrote(dst, to, src) && dst[..to + |src|] == old(dst[..to]) + src
  {
    forall k | 0 <= k < |src| { dst[to + k] := src[k]; }
  }

  /** strcpy. */
  method StrCpy(dst: array<char>, to: nat, src: string)
    requires to + |src| < dst.Length
    modifies dst
    ensures Wrote(dst, to, src + [NUL]) && dst[..to + |src|] == old(dst[..to]) + src
  {
    ghost var before := dst[..to];
    MemMove(dst, to, src + [NUL]);
    Assoc(before, src, [NUL]);
    assert dst[..to + |src|] == dst[..to + |src| + 1][..to + |src|];
  }

  /** The text in `buf[..end]` is terminated at `end`. */
  ghost predicate Terminated(buf: array<char>, end: nat)
    reads buf
  {
    end < buf.Length && buf[end] == NUL && forall k | 0 <= k < end :: buf[k] != NUL
  }

  /** Whether the text at `at` starts with `pat`; reads no further than the terminator. */
  method StartsWith(buf: array<char>, at: nat, ghost end: nat, pat: string) returns (yes: bool)
    requires Terminated(buf, end) && at <= end && NulFree(pat)
    ensures yes <==> Occurs(buf[..end], pat, at)
  {
    var k := 0;
    ghost var s := buf[..end];
    while k < |pat|
      invariant k <= |pat| && at + k <= end && Same(s, at, pat, k)
    {
      if buf[at + k] != pat[k] {
        if at + |pat| <= end {
          SameMeans(s, at, pat, |pat|);
          assert s[at + k] != pat[k];
        }
        return false;
      }
      assert s[at + k] == buf[at + k];
      k := k + 1;
    }
    yes := true;
  }

  /** strlen of the text from `from` on. */
  method StrLen(buf: array<char>, from: nat, ghost end: nat) returns (n: nat)
    requires Terminated(buf, end) && from <= end
    ensures n == end - from
  {
    n := 0;
    while buf[from + n] != NUL
      invariant from + n <= end
      decreases end - from - n
    {
      n := n + 1;
    }
  }

  /** strstr from `from` on, as an index, or -1. */
  method StrStr(buf: array<char>, from: nat, ghost end: nat, pat: string) returns (i: int)
    requires Terminated(buf, end) && from <= end && NulFree(pat)
    ensures i == IndexFrom(buf[..end], pat, from)
  {
    var at := from;
    while true
      invariant from <= at <= end
      invariant IndexFrom(buf[..end], pat, from) == IndexFrom(buf[..end], pat, at)
      decreases end - at
    {
      var here := StartsWith(buf, at, end, pat);
      if here { return at; }
      if buf[at] == NUL { return -1; }
      at := at + 1;
    }
  }

  /** The last position of `ch` in `s`, or -1. */
  function LastOf(s: string, ch: char): (i: int)
    ensures -1 <= i < |s|
    ensures i == -1 ==> forall k | 0 <= k < |s| :: s[k] != ch
    ensures i != -1 ==> s[i] == ch && forall k | i < k < |s| :: s[k] != ch
    decreases |s|
  {
    if s == "" then -1 else if s[|s| - 1] == ch then |s| - 1 else LastOf(s[..|s| - 1], ch)
  }

  /** strrchr: the terminator counts as a character. */
  method StrRChr(buf: array<char>, ghost end: nat, ch: char) returns (i: int)
    requires Terminated(buf, end)
    ensures i == if ch == NUL then end as int else LastOf(buf[..end], ch)
  {
    i := -1;
    var at := 0;
    while buf[at] != NUL
      invariant at <= end && i == LastOf(buf[..at], ch)
      decreases end - at
    {
      assert buf[..at + 1][..at] == buf[..at];
      if buf[at] == ch { i := at; }
      at := at + 1;
    }
    if ch == NUL { i := at; }
  }

  /** The text `s` is still in place from `from` on. */
  ghost predicate StillHolds(buf: array<char>, s: string, from: nat)
    reads buf
  {
    from <= |s| < buf.Length && forall k | from <= k < |s| :: buf[k] == s[k]
  }

  // ---------- What trimming means ----------

  function LeadingSpaces(s: string): (n: nat)
    ensures n <= |s| && (forall k | 0 <= k < n :: IsSpace(s[k])) && (n < |s| ==> !IsSpace(s[n]))
  {
    if s == "" || !IsSpace(s[0]) then 0 else 1 + LeadingSpaces(s[1..])
  }

  /** Where the text ends once trailing white space is gone. */
  function TrimmedEnd(s: string): (n: nat)
    ensures n <= |s| && (forall k | n <= k < |s| :: IsSpace(s[k])) && (n > 0 ==> !IsSpace(s[n - 1]))
  {
    if s == "" || !IsSpace(s[|s| - 1]) then |s| else TrimmedEnd(s[..|s| - 1])
  }

  function Trimmed(s: string): string {
    var b, e := LeadingSpaces(s), TrimmedEnd(s);
    if b < e then s[b..e] else ""
  }

  predicate AllSpace(s: string) { forall k | 0 <= k < |s| :: IsSpace(s[k]) }

  predicate NoOuterSpace(s: string) { s == "" || (!IsSpace(s[0]) && !IsSpace(s[|s| - 1])) }

  /** Trimming takes white space off both ends, and no more can be taken off. */
  lemma TrimmedParts(s: string) returns (lead: string, trail: string)
    ensures s == lead + Trimmed(s) + trail && AllSpace(lead) && AllSpace(trail) && NoOuterSpace(Trimmed(s))
  {
    hide IsSpace, LeadingSpaces, TrimmedEnd;
    var b, e := LeadingSpaces(s), TrimmedEnd(s);
    if b < e {
      lead, trail := s[..b], s[e..];
      assert forall k | 0 <= k < |trail| :: trail[k] == s[e + k];
    } else {
      lead, trail := s, "";
    }
  }

  /** That says what the trimmed text is. */
  lemma TrimmedIs(lead: string, t: string, trail: string)
    requires AllSpace(lead) && AllSpace(trail) && NoOuterSpace(t)
    ensures Trimmed(lead + t + trail) == t
  {
    var s, m, n := lead + t + trail, |lead|, |lead| + |t|;
    var b, e := LeadingSpaces(s), TrimmedEnd(s);
    assert forall k | 0 <= k < m :: s[k] == lead[k];
    assert forall k | m <= k < n :: s[k] == t[k - m];
    assert forall k | n <= k < |s| :: s[k] == trail[k - n];
    if t != "" {
      assert !IsSpace(s[m]) && !IsSpace(s[n - 1]);
      assert b == m && e == n;
      assert s[m..n] == t;
    }
  }

  // ---------- The class ----------

  /** The capacity changeBuffer makes for a text of `n` characters: blocks of sixteen with the terminator. */
  function RoomFor(n: nat): (room: nat)
    ensures n <= room < n + 16 && (room + 1) % 16 == 0
  {
    (n + 16) / 16 * 16 - 1
  }

  class WString {
    var buffer: array?<char>
    var capacity: nat
    var len: nat
    /** How often the allocator has refused. */
    ghost var refusals: nat

    /** No buffer and no text, or a terminated text without inner NULs in a buffer of whole blocks. */
    ghost predicate Valid()
      reads this, buffer
    {
      if buffer == null then capacity == 0 && len == 0
      else buffer.Length == capacity + 1 && (capacity + 1) % 16 == 0 && Terminated(buffer, len)
    }

    ghost function Contents(): (s: string)
      requires Valid()
      reads this, buffer
      ensures |s| == len && NulFree(s)
    {
      if buffer == null then "" else buffer[..len]
    }

    /** The buffer is the old one or a new one. */
    twostate predicate OwnBuffer()
      reads this
    {
      buffer == null || buffer == old(buffer) || fresh(buffer)
    }

    twostate predicate Untouched()
      reads this, buffer
    {
      buffer == old(buffer) && capacity == old(capacity) && len == old(len) && (buffer != null ==> buffer[..] == old(buffer[..]))
    }

    constructor ()
      ensures Valid() && Contents() == "" && buffer == null && refusals == 0
    {
      buffer, capacity, len, refusals := null, 0, 0, 0;
    }

    /** Whether the allocator has memory. */
    method Granted() returns (ok: bool)
      modifies this`refusals
      ensures refusals == old(refusals) + if ok then 0 else 1
    {
      ok := *;
      if !ok { refusals := refusals + 1; }
    }

    method Invalidate()
      modifies this`buffer, this`capacity, this`len
      ensures Valid() && Contents() == "" && buffer == null
    {
      buffer, capacity, len := null, 0, 0;
    }

    /** Whether an allocation succeeds is not determined.  realloc keeps what fits, also when the new
        block is the smaller one; what is new of it is zeroed. */
    method ChangeBuffer(maxStrLen: nat) returns (ok: bool)
      requires Valid()
      modifies this
      ensures refusals == old(refusals) + if ok then 0 else 1
      ensures !ok ==> Untouched()
      ensures ok ==> fresh(buffer) && len == old(len) && capacity == RoomFor(maxStrLen) && buffer.Length == capacity + 1
      ensures ok ==> forall k | old(capacity) < k <= capacity :: buffer[k] == NUL
      ensures ok && old(buffer) != null ==> forall k | 0 <= k <= capacity && k <= old(capacity) :: buffer[k] == old(buffer[k])
      ensures ok && old(buffer) != null && len <= capacity ==> Valid() && Contents() == old(Contents())
    {
      var newSize := (maxStrLen + 16) / 16 * 16;
      var granted := Granted();
      if !granted { return false; }
      var junk: char := *;
      var kept := if buffer == null then [junk] else buffer[..];
      assert |kept| == capacity + 1;
      var newBuffer := new char[newSize](i requires 0 <= i < newSize => if i < |kept| then kept[i] else NUL);
      assert forall k | 0 <= k < |kept| && k < newSize :: newBuffer[k] == kept[k];
      capacity, buffer := newSize - 1, newBuffer;
      ok := true;
    }

    method Reserve(size: nat) returns (ok: bool)
      requires Valid()
      modifies this
      ensures Valid() && Contents() == old(Contents()) && OwnBuffer()
      ensures ok ==> buffer != null && size <= capacity && refusals == old(refusals)
      ensures ok ==> capacity == if old(buffer) != null && size <= old(capacity) then old(capacity) else RoomFor(size)
      ensures ok && old(buffer) != null && size <= old(capacity) ==> Untouched()
      ensures !ok ==> Untouched() && (buffer == null || capacity < size) && refusals == old(refusals) + 1
    {
      if buffer != null && capacity >= size { return true; }
      ok := ChangeBuffer(size);
      if ok && len == 0 { buffer[0] := NUL; }
    }
 
    method Copy(cstr: string)
      requires Valid() && NulFree(cstr)
      modifies this, buffer
      ensures Valid() && OwnBuffer() && Contents() == if buffer == null then "" else cstr
      ensures refusals == old(refusals) + if buffer == null then 1 else 0
      ensures old(buffer) != null && |cstr| <= old(capacity) ==> buffer != null
    {
      var ok := Reserve(|cstr|);
      if !ok { Invalidate(); return; }
      len := |cstr|;
      StrCpy(buffer, 0, cstr);
      assert buffer[..len] == cstr;
    }

    /** operator=(const char *). */
    method AssignChars(cstr: CString)
      requires Valid() && (cstr.Text? ==> NulFree(cstr.chars))
      modifies this, buffer
      ensures Valid() && OwnBuffer() && Contents() == if buffer == null || cstr.Null? then "" else cstr.chars
      ensures refusals == old(refusals) + (if cstr.Text? && buffer == null then 1 else 0) && (cstr.Null? ==> buffer == null)
    {
      if cstr.Text? { Copy(cstr.chars); } else { Invalidate(); }
    }

    /** operator=(const String &). */
    method Assign(rhs: WString)
      requires Valid() && rhs.Valid() && (rhs != this ==> buffer == null || buffer != rhs.buffer)
      modifies this, buffer
      ensures Valid() && OwnBuffer() && (buffer != null ==> Contents() == old(rhs.Contents()))
      ensures buffer == null ==> Contents() == ""
      ensures rhs != this ==> refusals == old(refusals) + (if old(rhs.buffer) != null && buffer == null then 1 else 0)
      ensures rhs != this && old(rhs.buffer) == null ==> buffer == null
      ensures rhs != this ==> rhs.Valid() && rhs.Contents() == old(rhs.Contents())
      ensures rhs == this ==> Untouched()
    {
      if rhs == this { return; }
      if rhs.buffer != null { Copy(rhs.buffer[..rhs.len]); } else { Invalidate(); }
    }

    /** concat(const char *, unsigned): on success the text is appended, otherwise nothing changes. */
    method ConcatChars(cstr: CString) returns (ok: bool)
      requires Valid() && (cstr.Text? ==> NulFree(cstr.chars))
      modifies this, buffer
      ensures Valid() && OwnBuffer() && (ok <==> cstr.Text? && refusals == old(refusals)) && refusals <= old(refusals) + 1
      ensures Contents() == old(Contents()) + if ok then cstr.chars else ""
      ensures !ok ==> Untouched()
    {
      if cstr.Null? { return false; }
      if cstr.chars == "" { return true; }
      ok := Reserve(len + |cstr.chars|);
      if !ok { return; }
      ghost var before := buffer[..len];
      StrCpy(buffer, len, cstr.chars);
      len := len + |cstr.chars|;
      assert buffer[..len] == before + cstr.chars;
    }

    /** concat(const String &) when both are the same object. */
    method ConcatSelf() returns (ok: bool)
      requires Valid()
      modifies this, buffer
      ensures Valid() && OwnBuffer() && (ok <==> old(buffer) != null && refusals == old(refusals)) && refusals <= old(refusals) + 1
      ensures Contents() == old(Contents()) + if ok then old(Contents()) else ""
      ensures !ok ==> Untouched()
    {
      var newLen := 2 * len;
      if buffer == null { return false; }
      if len == 0 { return true; }
      ok := Reserve(newLen);
      if !ok { return; }
      ghost var before := buffer[..len];
      MemMove(buffer, len, buffer[..len]);
      assert buffer[..newLen] == before + before;
      len := newLen;
      buffer[len] := NUL;
      assert buffer[..len] == before + before;
    }

    /** concat(const String &), also of the string with itself. */
    method Concat(s: WString) returns (ok: bool)
      requires Valid() && s.Valid() && (s != this ==> buffer == null || buffer != s.buffer)
      modifies this, buffer
      ensures Valid() && OwnBuffer() && (ok <==> old(s.buffer) != null && refusals == old(refusals)) && refusals <= old(refusals) + 1
      ensures Contents() == old(Contents()) + if ok then old(s.Contents()) else ""
      ensures s != this ==> s.Valid() && s.Contents() == old(s.Contents())
      ensures !ok ==> Untouched()
    {
      if s == this {
        ok := ConcatSelf();
      } else {
        ok := ConcatChars(if s.buffer == null then Null else Text(s.buffer[..s.len]));
      }
    }

    /** remove(unsigned, unsigned); remove(unsigned) passes the largest count. */
    method Remove(index: nat, count: nat)
      requires Valid()
      modifies this`len, buffer
      ensures Valid()
      ensures var s := old(Contents());
        Contents() == if index >= |s| then s else s[..index] + if count > |s| - index then "" else s[index + count..]
    {
      if index >= len || count <= 0 { return; }
      var n := if count > len - index then len - index else count;
      ghost var s := Contents();
      assert buffer[index + n..len] == s[index + n..];
      MemMove(buffer, index, buffer[index + n..len]);
      len := len - n;
      buffer[len] := NUL;
      assert buffer[..len] == s[..index] + s[index + n..];
    }

    method Trim()
      requires Valid()
      modifies this`len, buffer
      ensures Valid() && Contents() == Trimmed(old(Contents()))
    {
      if buffer == null || len == 0 { return; }
      ghost var s := Contents();
      var begin := 0;
      while IsSpace(buffer[begin])
        invariant begin <= LeadingSpaces(s)
        decreases len - begin
      {
        begin := begin + 1;
      }
      var end := len - 1;
      while IsSpace(buffer[end]) && end >= begin
        invariant TrimmedEnd(s) <= end + 1 <= len && 0 <= end && begin <= end + 1
        decreases end
      {
        end := end - 1;
      }
      assert begin == LeadingSpaces(s) && (begin == end + 1 || end + 1 == TrimmedEnd(s));
      KeepOnly(begin, end + 1);
    }

    /** The end of trim: the kept part moves to the front. */
    method KeepOnly(begin: nat, end: nat)
      requires Valid() && buffer != null && begin <= end <= len
      modifies this`len, buffer
      ensures Valid() && Contents() == old(Contents())[begin..end]
    {
      ghost var kept := Contents()[begin..end];
      assert buffer[begin..end] == kept;
      len := end - begin;
      if begin > 0 { MemMove(buffer, 0, buffer[begin..end]); }
      assert buffer[..len] == kept;
      buffer[len] := NUL;
      assert buffer[..len] == kept;
      assert forall k | 0 <= k < len :: buffer[k] == kept[k];
    }
 
    /** lastIndexOf(char, unsigned) cuts the text after fromIndex for the search and mends it again. */
    method LastIndexOfChar(ch: char, fromIndex: nat) returns (i: int)
      requires Valid()
      modifies buffer
      ensures Untouched()
      ensures fromIndex >= len ==> i == -1
      ensures fromIndex < len ==> i == if ch == NUL then fromIndex + 1 else LastOf(Contents()[..fromIndex + 1], ch)
    {
      if fromIndex >= len { return -1; }
      var saved := buffer[fromIndex + 1];
      buffer[fromIndex + 1] := NUL;
      i := StrRChr(buffer, fromIndex + 1, ch);
      assert buffer[..fromIndex + 1] == old(Contents())[..fromIndex + 1];
      buffer[fromIndex + 1] := saved;
    }

    /** lastIndexOf(const String &, unsigned): the last occurrence at fromIndex or before. */
    method LastIndexOf(s2: WString, fromIndex: nat) returns (found: int)
      requires Valid() && s2.Valid()
      ensures found == if s2.len == 0 || len == 0 || s2.len > len then -1
                       else LastIndex(Contents(), s2.Contents(), if fromIndex >= len then len - 1 else fromIndex)
    {
      if s2.len == 0 || len == 0 || s2.len > len { return -1; }
      found := SearchUpTo(s2.buffer[..s2.len], if fromIndex >= len then len - 1 else fromIndex);
    }

    /** The loop: one forward search after the other, until they get past `from`. */
    method SearchUpTo(pat: string, from: nat) returns (found: int)
      requires Valid() && from < len && NulFree(pat)
      ensures found == LastIndex(Contents(), pat, from)
    {
      found := -1;
      var p := 0;
      ghost var text := Contents();
      while p <= from
        invariant p <= len + 1 && found == LastIndex(text, pat, if p > from then from else p - 1)
        decreases from + 1 - p
      {
        var q := StrStr(buffer, p, len, pat);
        LastAfter(text, pat, p, from);
        if q == -1 { break; }
        if q <= from { found := q; }
        p := q + 1;
      }
    }

    /** Copies the text between the two positions, which may come in either order. */
    method Substring(left: nat, right: nat) returns (out: WString)
      requires Valid()
      modifies buffer
      ensures Untouched() && fresh(out) && out.Valid() && (out.buffer == null || fresh(out.buffer))
      ensures var lo, hi := if left > right then right else left, if left > right then left else right;
        && out.Contents() == (if lo >= len || out.buffer == null then "" else Contents()[lo..if hi > len then len else hi])
        && (out.buffer == null <==> lo >= len || out.refusals > 0)
    {
      var lo, hi := if left > right then right else left, if left > right then left else right;
      out := new WString();
      if lo >= len { return; }
      if hi > len { hi := len; }
      Slice(buffer[..], len, lo, hi);
      var saved := buffer[hi];
      buffer[hi] := NUL;
      assert buffer[lo..hi] == old(buffer[..])[lo..hi];
      out.AssignChars(Text(buffer[lo..hi]));
      buffer[hi] := saved;
      assert buffer[..] == old(buffer[..]);
    }

    /** replace, for a replacement as long as the pattern: each occurrence is overwritten in place. */
    method ReplaceSame(find: string, repl: string)
      requires Valid() && len > 0 && 0 < |find| == |repl| && NulFree(find) && NulFree(repl)
      modifies buffer
      ensures Valid() && Contents() == Subst(old(Contents()), find, repl)
    {
      ghost var s := Contents();
      var readFrom: nat := 0;
      var foundAt := StrStr(buffer, readFrom, len, find);
      while foundAt != -1
        invariant Terminated(buffer, |s|) && StillHolds(buffer, s, readFrom)
        invariant foundAt == IndexFrom(s, find, readFrom)
        invariant Done(s, find, repl, readFrom, buffer[..readFrom])
        decreases |s| - readFrom
      {
        PutOver(s, readFrom, foundAt, find, repl);
        readFrom := foundAt + |repl|;
        SameRest(s, buffer[..|s|], find, readFrom);
        foundAt := StrStr(buffer, readFrom, len, find);
      }
      DoneEnd(s, find, repl, readFrom, buffer[..readFrom]);
      assert buffer[..|s|] == buffer[..readFrom] + s[readFrom..];
    }

    /** One round: the replacement is written over the occurrence. */
    method PutOver(ghost s: string, ghost readFrom: nat, foundAt: nat, find: string, repl: string)
      requires buffer != null && Terminated(buffer, |s|) && StillHolds(buffer, s, readFrom)
      requires 0 < |find| == |repl| && NulFree(repl) && foundAt == IndexFrom(s, find, readFrom)
      requires Done(s, find, repl, readFrom, buffer[..readFrom])
      modifies buffer
      ensures Terminated(buffer, |s|) && StillHolds(buffer, s, foundAt + |repl|)
      ensures Done(s, find, repl, foundAt + |repl|, buffer[..foundAt + |repl|])
    {
      ghost var done := buffer[..readFrom];
      MemMove(buffer, foundAt, repl);
      assert buffer[..foundAt + |repl|] == done + s[readFrom..foundAt] + repl;
      DoneMore(s, find, repl, readFrom, done, buffer[..foundAt + |repl|]);
    }

    /** replace, for a shorter replacement: the text between occurrences closes up. */
    method ReplaceShorter(find: string, repl: string)
      requires Valid() && len > 0 && |repl| < |find| && NulFree(find) && NulFree(repl)
      modifies this`len, buffer
      ensures Valid() && Contents() == Subst(old(Contents()), find, repl)
    {
      ghost var s := Contents();
      var readFrom: nat, writeTo: nat := 0, 0;
      var foundAt := StrStr(buffer, readFrom, |s|, find);
      while foundAt != -1
        invariant Terminated(buffer, |s|) && StillHolds(buffer, s, readFrom) && writeTo <= readFrom
        invariant foundAt == IndexFrom(s, find, readFrom) && len == |s| - (readFrom - writeTo)
        invariant Done(s, find, repl, readFrom, buffer[..writeTo])
        decreases |s| - readFrom
      {
        writeTo := CloseUp(s, readFrom, writeTo, foundAt, find, repl);
        readFrom := foundAt + |find|;
        len := len + |repl| - |find|;
        SameRest(s, buffer[..|s|], find, readFrom);
        foundAt := StrStr(buffer, readFrom, |s|, find);
      }
      DoneEnd(s, find, repl, readFrom, buffer[..writeTo]);
      CopyRest(s, readFrom, writeTo);
    }

    /** The end of replace with a shorter replacement. */
    method CopyRest(ghost s: string, readFrom: nat, writeTo: nat)
      requires buffer != null && capacity + 1 == buffer.Length && (capacity + 1) % 16 == 0
      requires Terminated(buffer, |s|) && StillHolds(buffer, s, readFrom) && writeTo <= readFrom
      requires len == |s| - (readFrom - writeTo)
      modifies buffer
      ensures Valid() && Contents() == old(buffer[..writeTo]) + s[readFrom..]
    {
      var n := StrLen(buffer, readFrom, |s|);
      ghost var done := buffer[..writeTo];
      assert buffer[readFrom..readFrom + n] == s[readFrom..];
      StrCpy(buffer, writeTo, buffer[readFrom..readFrom + n]);
      assert buffer[..len] == done + s[readFrom..];
    }

    /** One round: the text before the occurrence moves down, and the replacement goes behind it. */
    method CloseUp(ghost s: string, readFrom: nat, writeTo: nat, foundAt: nat, find: string, repl: string)
      returns (w: nat)
      requires buffer != null && Terminated(buffer, |s|) && StillHolds(buffer, s, readFrom) && writeTo <= readFrom
      requires |repl| < |find| && NulFree(repl) && foundAt == IndexFrom(s, find, readFrom)
      requires Done(s, find, repl, readFrom, buffer[..writeTo])
      modifies buffer
      ensures Terminated(buffer, |s|) && StillHolds(buffer, s, foundAt + |find|)
      ensures w == writeTo + (foundAt - readFrom) + |repl| <= foundAt + |find|
      ensures Done(s, find, repl, foundAt + |find|, buffer[..w])
    {
      ghost var done := buffer[..writeTo];
      w := MoveDown(s, readFrom, writeTo, foundAt, |find|, repl);
      DoneMore(s, find, repl, readFrom, done, buffer[..w]);
    }

    method MoveDown(ghost s: string, readFrom: nat, writeTo: nat, foundAt: nat, n: nat, repl: string) returns (w: nat)
      requires buffer != null && Terminated(buffer, |s|) && StillHolds(buffer, s, readFrom)
      requires writeTo <= readFrom <= foundAt && foundAt + n <= |s| && |repl| < n && NulFree(repl)
      modifies buffer
      ensures Terminated(buffer, |s|) && StillHolds(buffer, s, foundAt + n)
      ensures w == writeTo + (foundAt - readFrom) + |repl|
      ensures buffer[..w] == old(buffer[..writeTo]) + s[readFrom..foundAt] + repl
    {
      ghost var before := buffer[..writeTo];
      assert buffer[readFrom..foundAt] == s[readFrom..foundAt];
      MemMove(buffer, writeTo, buffer[readFrom..foundAt]);
      w := writeTo + (foundAt - readFrom);
      ghost var kept := before + s[readFrom..foundAt];
      assert buffer[..w] == kept;
      MemMove(buffer, w, repl);
      w := w + |repl|;
      assert buffer[..w] == kept + repl;
    }

    /** The room that replace makes: its first pass adds up the size of the result. */
    method SizeFor(find: string, repl: string) returns (size: nat)
      requires Valid() && len > 0 && 0 < |find| < |repl| && NulFree(find)
      ensures size == |Subst(Contents(), find, repl)| >= len
      ensures size == len <==> IndexFrom(Contents(), find, 0) == -1
    {
      size := len;
      ghost var s := Contents();
      var readFrom := 0;
      var foundAt := StrStr(buffer, readFrom, len, find);
      while foundAt != -1
        invariant readFrom <= len <= size && foundAt == IndexFrom(s, find, readFrom)
        invariant Growth(s, find, repl, 0) == size - len + Growth(s, find, repl, readFrom)
        invariant size == len <==> readFrom == 0
        invariant readFrom > 0 ==> IndexFrom(s, find, 0) != -1
        decreases len - readFrom
      {
        GrowthStep(s, find, repl, readFrom);
        readFrom := foundAt + |find|;
        size := size + (|repl| - |find|);
        foundAt := StrStr(buffer, readFrom, len, find);
      }
      GrowthNone(s, find, repl, readFrom);
    }

    /** One step of the growing loop: the occurrence at `index` gives way to the longer replacement. */
    method GrowOne(index: nat, n: nat, repl: string)
      requires Valid() && buffer != null && index + n <= len && n < |repl| && len + |repl| - n <= capacity && NulFree(repl)
      modifies this`len, buffer
      ensures Valid() && Contents() == Splice(old(Contents()), index, n, repl)
    {
      ghost var s := Contents();
      var readFrom := index + n;
      MemMove(buffer, readFrom + (|repl| - n), buffer[readFrom..len]);
      len := len + |repl| - n;
      buffer[len] := NUL;
      MemMove(buffer, index, repl);
      assert buffer[..len] == s[..index] + repl + s[readFrom..];
    }

    /** replace, for a longer replacement: room is made once, then occurrences give way from right to left.
        `overrun` says that a write would leave the buffer: that write and what comes after it are not
        performed here, because nothing is known about them. */
    method ReplaceLonger(find: WString, repl: string) returns (overrun: bool)
      requires Valid() && len > 0 && find.Valid() && find.buffer != buffer && find != this && NulFree(repl)
      requires 0 < find.len < |repl|
      modifies this, buffer
      ensures Valid() && OwnBuffer()
      ensures overrun ==> !GrowthFits(old(Contents()), old(find.Contents()), repl, old(capacity)) && refusals == old(refusals)
      ensures !overrun ==> Grown(old(Contents()), old(find.Contents()), repl, old(capacity), refusals > old(refusals))
      ensures old(refusals) <= refusals <= old(refusals) + 1
    {
      hide SubstFrom, SubstFromRight, Subst;
      ghost var s, f := Contents(), find.Contents();
      var size := SizeFor(find.buffer[..find.len], repl);
      if size == len {
        NothingGrows(s, f, repl, capacity);
        return false;
      }
      var ok := true;
      if size > capacity { ok := ChangeBuffer(size); }
      if !ok { return false; }
      overrun := GrowAll(find, repl);
    }

    /** The growing branch came to its end: the text is the right-to-left result and fits, unless there was no
        memory for a longer one; then the text is unchanged. */
    ghost predicate Grown(s: string, find: string, repl: string, room: nat, refused: bool)
      requires Valid() && find != []
      reads this, buffer
    {
      if refused then Contents() == s && room < |Subst(s, find, repl)|
      else Contents() == SubstFromRight(s, find, repl, |s| - 1) && GrowthFits(s, find, repl, room)
    }

    /** The growing loop. */
    method GrowAll(find: WString, repl: string) returns (overrun: bool)
      requires Valid() && find.Valid() && buffer != null && find.buffer != buffer && find != this && NulFree(repl)
      requires 0 < find.len < |repl| && find.len <= len
      modifies this`len, buffer
      ensures Valid()
      ensures var result := SubstFromRight(old(Contents()), old(find.Contents()), repl, old(len) - 1);
        if overrun then |result| > capacity else Contents() == result
    {
      ghost var f := find.Contents();
      ghost var result := SubstFromRight(Contents(), f, repl, len - 1);
      var index := len - 1;
      overrun := false;
      while index >= 0
        invariant Valid() && find.Valid() && find.Contents() == f && |f| <= len && -1 <= index < len
        invariant if overrun then index == -1 && |result| > capacity
                  else result == SubstFromRight(Contents(), f, repl, index)
        decreases index + 1
      {
        index, overrun := GrowLast(find, repl, index);
      }
    }

    /** One round of it; the answer is where to search next, or -1 to stop. */
    method GrowLast(find: WString, repl: string, index: nat) returns (next: int, overrun: bool)
      requires Valid() && find.Valid() && buffer != null && find.buffer != buffer && find != this && NulFree(repl)
      requires 0 < find.len < |repl| && find.len <= len && index < len
      modifies this`len, buffer
      ensures Valid() && find.Valid() && find.Contents() == old(find.Contents()) && -1 <= next < index && old(len) <= len
      ensures var result := SubstFromRight(old(Contents()), find.Contents(), repl, index);
        if overrun then next == -1 && |result| > capacity
        else result == SubstFromRight(Contents(), find.Contents(), repl, next)
    {
      overrun := false;
      next := LastIndexOf(find, index);
      if next < 0 { return; }
      overrun := GrowAt(next, index, find, repl);
      next := if overrun then -1 else next - 1;
    }

    /** The last occurrence up to `index`, at `at`, gives way if the buffer has room. */
    method GrowAt(at: nat, ghost index: nat, find: WString, repl: string) returns (overrun: bool)
      requires Valid() && find.Valid() && buffer != null && find.buffer != buffer && find != this && NulFree(repl)
      requires 0 < find.len < |repl| && find.len <= len && at <= index < len
      requires LastIndex(Contents(), find.Contents(), index) == at
      modifies this`len, buffer
      ensures Valid() && find.Valid() && find.Contents() == old(find.Contents()) && old(len) <= len
      ensures var result := SubstFromRight(old(Contents()), find.Contents(), repl, index);
        if overrun then |result| > capacity else result == SubstFromRight(Contents(), find.Contents(), repl, at - 1)
    {
      FromRightGrows(Contents(), find.Contents(), repl, index);
      overrun := len + (|repl| - find.len) > capacity;
      if !overrun { GrowOne(at, find.len, repl); }
    }

    /** replace(const String &, const String &). */
    method Replace(find: WString, repl: WString) returns (overrun: bool)
      requires Valid() && find.Valid() && repl.Valid() && find != this && repl != this
      requires buffer != null ==> find.buffer != buffer && repl.buffer != buffer
      modifies this, buffer
      ensures Valid() && OwnBuffer()
      ensures var s, f, r := old(Contents()), old(find.Contents()), old(repl.Contents());
        if s == "" || f == "" then !overrun && Contents() == s
        else if |r| <= |f| then !overrun && Contents() == Subst(s, f, r)
        else if overrun then !GrowthFits(s, f, r, old(capacity))
        else Grown(s, f, r, old(capacity), refusals > old(refusals))
      ensures refusals > old(refusals) ==> 0 < |old(find.Contents())| < |old(repl.Contents())|
    {
      overrun := false;
      if len == 0 || find.len == 0 { return; }
      var r := if repl.buffer == null then "" else repl.buffer[..repl.len];
      if repl.len == find.len {
        ReplaceSame(find.buffer[..find.len], r);
      } else if repl.len < find.len {
        ReplaceShorter(find.buffer[..find.len], r);
      } else {
        overrun := ReplaceLonger(find, r);
      }
    }
  }

  /** By how much substitution lengthens the text from `from` on. */
  ghost function Growth(s: string, find: string, repl: string, from: nat): int
    requires find != [] && from <= |s|
  {
    |SubstFrom(s, find, repl, from)| - (|s| - from)
  }

  lemma GrowthStep(s: string, find: string, repl: string, from: nat)
    requires find != [] && from <= |s| && IndexFrom(s, find, from) != -1
    ensures var i := IndexFrom(s, find, from);
      Growth(s, find, repl, from) == |repl| - |find| + Growth(s, find, repl, i + |find|)
  {}

  lemma GrowthNone(s: string, find: string, repl: string, from: nat)
    requires find != [] && from <= |s| && IndexFrom(s, find, from) == -1
    ensures Growth(s, find, repl, from) == 0
  {}

  /** The result of the right-to-left pass fits the buffer that the first pass asked for. */
  ghost predicate GrowthFits(s: string, find: string, repl: string, capacity: nat)
    requires find != []
  {
    var size := |Subst(s, find, repl)|;
    |SubstFromRight(s, find, repl, |s| - 1)| <= if size <= capacity then capacity else RoomFor(size)
  }

  /** The growing branch keeps to its buffer, for all texts in buffers of any size, exactly when no
      proper suffix of the pattern begins the replacement. */
  lemma FitsIffNoOverhang(find: string, repl: string)
    requires 0 < |find| < |repl|
    ensures (forall s, capacity: nat :: GrowthFits(s, find, repl, capacity)) <==> NoOverhang(find, repl)
  {
    if NoOverhang(find, repl) {
      forall s, capacity: nat ensures GrowthFits(s, find, repl, capacity) { NoOverhangSameLength(s, find, repl); }
    } else {
      var s := OverhangOverruns(find, repl);
      assert !GrowthFits(s, find, repl, 0);
    }
  }

  /** Otherwise some text, in a buffer with no more room than changeBuffer makes for it, runs over. */
  lemma OverhangOverruns(find: string, repl: string) returns (s: string)
    requires 0 < |find| < |repl| && !NoOverhang(find, repl)
    ensures forall capacity: nat | capacity <= RoomFor(|s|) :: !GrowthFits(s, find, repl, capacity)
    ensures NulFree(find) ==> NulFree(s)
  {
    s := OverhangRunsOver(find, repl, 15);
    SubstLength(s, find, repl, 0);
  }

  /** `repl` is thirty characters that start with a b: "aab" grows to 59 characters in a buffer for 31. */
  lemma OverrunExample(repl: string)
    requires |repl| == 30 && repl[0] == 'b'
    ensures !GrowthFits("aab", "ab", repl, RoomFor(3)) && |SubstFromRight("aab", "ab", repl, 2)| == 59
  {
    assert SuffixIsPrefix("ab", 1, repl) by { SameMeans("ab", 1, repl, 1); }
    assert Longest("ab", repl, 1);
    assert Repeat("ab"[..1], 1) == Repeat("ab"[..1], 0) + "a";
    RunsOverBy("ab", repl, 1, 1, "aab", 28);
    TimesIs(2, 28);
    CountFits("aab", "ab", 0);
    TimesIs(Count("aab", "ab", 0), 2);
    SubstLength("aab", "ab", repl, 0);
    TimesIs(Count("aab", "ab", 0), 28);
  }

  /** A clean pattern always fits, and its result is the left-to-right substitution. */
  lemma CleanFits(s: string, find: string, repl: string, capacity: nat)
    requires Clean(find, repl) && 0 < |find| < |repl|
    ensures GrowthFits(s, find, repl, capacity) && SubstFromRight(s, find, repl, |s| - 1) == Subst(s, find, repl)
  {
    CleanAgrees(s, find, repl);
  }

  lemma NothingGrows(s: string, find: string, repl: string, room: nat)
    requires find != "" && IndexFrom(s, find, 0) == -1 && |s| <= room
    ensures SubstFromRight(s, find, repl, |s| - 1) == s && GrowthFits(s, find, repl, room)
  {
    NoneAtAll(s, find);
  }

  lemma NoneAtAll(s: string, find: string)
    requires IndexFrom(s, find, 0) == -1
    ensures LastIndex(s, find, |s| - 1) == -1
  {
    IndexIsFirst(s, find, 0);
    LastIndexIs(s, find, |s| - 1, -1);
  }

  lemma Slice(s: string, n: nat, lo: nat, hi: nat)
    requires lo <= hi <= n <= |s|
    ensures s[..n][lo..hi] == s[lo..hi]
  {}

  /** The two texts are the same from `from` on. */
  ghost predicate AgreeFrom(s: string, t: string, from: nat) {
    from <= |s| == |t| && forall k | from <= k < |s| :: s[k] == t[k]
  }

  /** What results when `done` has been written and the text from `from` on is still to be substituted. */
  ghost function Resumed(done: string, s: string, find: string, repl: string, from: nat): string
    requires find != [] && from <= |s|
    decreases |s| - from
  {
    var i := IndexFrom(s, find, from);
    if i == -1 then done + s[from..] else Resumed(done + s[from..i] + repl, s, find, repl, i + |find|)
  }

  lemma {:induction false} ResumedIs(done: string, s: string, find: string, repl: string, from: nat)
    requires find != [] && from <= |s|
    ensures Resumed(done, s, find, repl, from) == done + SubstFrom(s, find, repl, from)
    decreases |s| - from
  {
    var i := IndexFrom(s, find, from);
    if i != -1 {
      ResumedIs(done + s[from..i] + repl, s, find, repl, i + |find|);
      Assoc(done, s[from..i], repl);
      Assoc(done, s[from..i] + repl, SubstFrom(s, find, repl, i + |find|));
    }
  }

  /** `done` is the substituted text of everything before `from`. */
  ghost predicate Done(s: string, find: string, repl: string, from: nat, done: string) {
    find != [] && from <= |s| && Resumed(done, s, find, repl, from) == Resumed("", s, find, repl, 0)
  }

  /** One more occurrence has been dealt with. */
  lemma DoneMore(s: string, find: string, repl: string, from: nat, done: string, more: string)
    requires Done(s, find, repl, from, done) && IndexFrom(s, find, from) != -1
    requires more == done + s[from..IndexFrom(s, find, from)] + repl
    ensures Done(s, find, repl, IndexFrom(s, find, from) + |find|, more)
  {}

  /** No occurrence is left. */
  lemma DoneEnd(s: string, find: string, repl: string, from: nat, done: string)
    requires Done(s, find, repl, from, done) && IndexFrom(s, find, from) == -1
    ensures done + s[from..] == Subst(s, find, repl)
  {
    ResumedIs("", s, find, repl, 0);
  }

  /** One search forward tells the last occurrence up to where it got. */
  lemma LastAfter(s: string, pat: string, p: nat, from: nat)
    requires p <= from
    ensures var q := IndexFrom(s, pat, p);
      if q == -1 || q > from then LastIndex(s, pat, from) == LastIndex(s, pat, p - 1) else LastIndex(s, pat, q) == q
  {
    var q := IndexFrom(s, pat, p);
    IndexIsFirst(s, pat, p);
    if q == -1 || q > from {
      LastIndexIsLast(s, pat, p - 1);
      LastIndexIs(s, pat, from, LastIndex(s, pat, p - 1));
    }
  }

  lemma OccursInRest(s: string, t: string, pat: string, from: nat, k: nat)
    requires AgreeFrom(s, t, from) && from <= k
    ensures Occurs(s, pat, k) <==> Occurs(t, pat, k)
  {
    if k + |pat| <= |s| {
      SameMeans(s, k, pat, |pat|);
      SameMeans(t, k, pat, |pat|);
    }
  }

  /** A search looks only at the text from where it starts. */
  lemma {:induction false} SameRest(s: string, t: string, pat: string, from: nat)
    requires AgreeFrom(s, t, from)
    ensures IndexFrom(s, pat, from) == IndexFrom(t, pat, from)
    decreases |s| - from
  {
    OccursInRest(s, t, pat, from, from);
    if from < |s| { SameRest(s, t, pat, from + 1); }
  }
}