/** What replacing text means, and what the right-to-left loop of String::replace
    (cores/w800/WString.cpp:646-654) computes instead.  Everything here is about plain texts. */
module Substitution {
  import opened Arithmetic
  import opened Sequences

  /** The terminator of a C string, which does not occur in the text itself. */
  const NUL: char := '\0'

  ghost predicate NulFree(s: string) {
    forall k | 0 <= k < |s| :: s[k] != NUL
  }

  /** `a` from `d` on agrees with `t` for `k` characters. */
  predicate Same(a: string, d: nat, t: string, k: nat)
    requires d + k <= |a| && k <= |t|
  {
    k == 0 || (a[d + k - 1] == t[k - 1] && Same(a, d, t, k - 1))
  }

  lemma {:induction false} SameMeans(a: string, d: nat, t: string, k: nat)
    requires d + k <= |a| && k <= |t|
    ensures Same(a, d, t, k) <==> forall j | 0 <= j < k :: a[d + j] == t[j]
  {
    if k > 0 { SameMeans(a, d, t, k - 1); }
  }

  predicate Occurs(s: string, pat: string, i: int) {
    0 <= i && i + |pat| <= |s| && Same(s, i, pat, |pat|)
  }

  /** strstr: the first occurrence at `from` or later, or -1. */
  function IndexFrom(s: string, pat: string, from: nat): (i: int)
    ensures i == -1 || (from <= i && Occurs(s, pat, i))
    decreases |s| - from
  {
    if from + |pat| > |s| then -1
    else if Occurs(s, pat, from) then from
    else if from == |s| then -1
    else IndexFrom(s, pat, from + 1)
  }

  lemma {:induction false} IndexIsFirst(s: string, pat: string, from: nat)
    ensures var i := IndexFrom(s, pat, from);
      if i == -1 then forall k | from <= k :: !Occurs(s, pat, k) else forall k | from <= k < i :: !Occurs(s, pat, k)
    decreases |s| - from
  {
    if from + |pat| <= |s| && !Occurs(s, pat, from) && from < |s| { IndexIsFirst(s, pat, from + 1); }
  }

  lemma IndexIs(s: string, pat: string, from: nat, i: nat)
    requires from <= i && Occurs(s, pat, i) && forall k | from <= k < i :: !Occurs(s, pat, k)
    ensures IndexFrom(s, pat, from) == i
  {
    IndexIsFirst(s, pat, from);
  }

  lemma IndexIsNone(s: string, pat: string, from: nat)
    requires forall k | from <= k :: !Occurs(s, pat, k)
    ensures IndexFrom(s, pat, from) == -1
  {}

  /** The last occurrence at `from` or before, or -1. */
  function LastIndex(s: string, pat: string, from: int): (i: int)
    requires from >= -1
    ensures -1 <= i <= from
    ensures i != -1 ==> Occurs(s, pat, i)
    decreases from + 1
  {
    if from == -1 then -1
    else if Occurs(s, pat, from) then from
    else LastIndex(s, pat, from - 1)
  }

  lemma {:induction false} LastIndexIsLast(s: string, pat: string, from: int)
    requires from >= -1
    ensures forall k | LastIndex(s, pat, from) < k <= from :: !Occurs(s, pat, k)
    decreases from + 1
  {
    if from != -1 && !Occurs(s, pat, from) { LastIndexIsLast(s, pat, from - 1); }
  }

  lemma LastIndexIs(s: string, pat: string, from: int, i: int)
    requires -1 <= i <= from && (i == -1 || Occurs(s, pat, i)) && forall k | i < k <= from :: !Occurs(s, pat, k)
    ensures LastIndex(s, pat, from) == i
  {
    LastIndexIsLast(s, pat, from);
  }

  /** The text from `from` on, where every occurrence of `find`, taken from left to right without
      overlaps, becomes `repl`. */
  function SubstFrom(s: string, find: string, repl: string, from: nat): string
    requires find != [] && from <= |s|
    decreases |s| - from
  {
    var i := IndexFrom(s, find, from);
    if i == -1 then s[from..] else s[from..i] + repl + SubstFrom(s, find, repl, i + |find|)
  }

  function Subst(s: string, find: string, repl: string): string
    requires find != []
  {
    SubstFrom(s, find, repl, 0)
  }

  /** The text with the occurrence at `i` replaced. */
  function Splice(s: string, i: nat, n: nat, repl: string): string
    requires i + n <= |s|
  {
    s[..i] + repl + s[i + n..]
  }

  /** Substitution from right to left, each search looking at the text as already changed. */
  function SubstFromRight(s: string, find: string, repl: string, index: int): string
    requires find != [] && index >= -1
    decreases index + 1
  {
    var i := LastIndex(s, find, index);
    if i == -1 then s else SubstFromRight(Splice(s, i, |find|, repl), find, repl, i - 1)
  }

  /** No proper suffix of `find` is a prefix of `repl`. */
  ghost predicate NoOverhang(find: string, repl: string) {
    forall k | 0 < k < |find| :: !SuffixIsPrefix(find, k, repl)
  }

  /** And none is a prefix of `find` either. */
  ghost predicate Clean(find: string, repl: string) {
    NoOverhang(find, repl) && forall k | 0 < k < |find| :: !SuffixIsPrefix(find, k, find)
  }

  /** The last `k` characters of `find` are the first `k` of `t`. */
  ghost predicate SuffixIsPrefix(find: string, k: nat, t: string)
    requires k <= |find|
  {
    k <= |t| && Same(find, |find| - k, t, k)
  }

  // ---------- Substitution by pieces ----------

  /** These pieces with `glue` between them. */
  function Joined(pieces: seq<string>, glue: string): string
    requires pieces != []
  {
    if |pieces| == 1 then pieces[0] else pieces[0] + glue + Joined(pieces[1..], glue)
  }

  /** The pieces between the occurrences of the pattern, from left to right: with the pattern behind it, each
      has its first occurrence there, and the last has none. */
  ghost predicate Cut(pieces: seq<string>, find: string) {
    && pieces != [] && (forall k | 0 <= k < |pieces| - 1 :: IndexFrom(pieces[k] + find, find, 0) == |pieces[k]|)
    && IndexFrom(pieces[|pieces| - 1], find, 0) == -1
  }

  lemma OccursInTail(s: string, from: nat, find: string, k: nat)
    requires from <= |s|
    ensures Occurs(s[from..], find, k) <==> Occurs(s, find, from + k)
  {
    if from + k + |find| <= |s| { SameInTail(s, from, k, find, |find|); }
  }

  lemma {:induction false} SameInTail(s: string, from: nat, d: nat, t: string, k: nat)
    requires from + d + k <= |s| && k <= |t|
    ensures Same(s[from..], d, t, k) <==> Same(s, from + d, t, k)
    decreases k
  {
    if k > 0 { SameInTail(s, from, d, t, k - 1); }
  }

  /** A search from `from` on is a search in the rest of the text. */
  lemma IndexInTail(s: string, find: string, from: nat)
    requires from <= |s|
    ensures var i := IndexFrom(s[from..], find, 0); IndexFrom(s, find, from) == if i == -1 then -1 else from + i
  {
    var i := IndexFrom(s[from..], find, 0);
    IndexIsFirst(s[from..], find, 0);
    if i == -1 {
      forall k | from <= k ensures !Occurs(s, find, k) { OccursInTail(s, from, find, k - from); }
      IndexIsNone(s, find, from);
    } else {
      OccursInTail(s, from, find, i);
      forall k | from <= k < from + i ensures !Occurs(s, find, k) { OccursInTail(s, from, find, k - from); }
      IndexIs(s, find, from, from + i);
    }
  }

  lemma {:induction false} SubstInTail(s: string, find: string, repl: string, from: nat)
    requires find != [] && from <= |s|
    ensures SubstFrom(s, find, repl, from) == Subst(s[from..], find, repl)
    decreases |s| - from
  {
    var t := s[from..];
    IndexInTail(s, find, from);
    var i := IndexFrom(t, find, 0);
    if i != -1 {
      SubstInTail(s, find, repl, from + i + |find|);
      if i + |find| < |t| || from > 0 { SubstInTail(t, find, repl, i + |find|); }
      assert t[i + |find|..] == s[from + i + |find|..] && t[0..i] == s[from..from + i];
    } else {
      assert t[0..] == t;
    }
  }

  /** The first piece ends at the first occurrence. */
  lemma FirstPiece(piece: string, find: string, rest: string)
    requires find != "" && IndexFrom(piece + find, find, 0) == |piece|
    ensures IndexFrom(piece + find + rest, find, 0) == |piece|
  {
    var s, n := piece + find + rest, |piece| + |find|;
    assert s[..n] == piece + find;
    IndexIsFirst(piece + find, find, 0);
    forall k | 0 <= k < |piece| ensures !Occurs(s, find, k) { OccursInPrefix(s, n, find, k); }
    OccursInPrefix(s, n, find, |piece|);
    IndexIs(s, find, 0, |piece|);
  }

  /** Whatever pieces a text is cut into by the pattern, substitution puts the replacement between them. */
  lemma {:induction false} SubstJoins(pieces: seq<string>, find: string, repl: string)
    requires find != "" && Cut(pieces, find)
    ensures Subst(Joined(pieces, find), find, repl) == Joined(pieces, repl)
    decreases |pieces|
  {
    var s, piece := Joined(pieces, find), pieces[0];
    if |pieces| == 1 {
      assert s[0..] == s;
    } else {
      SubstFirst(piece, Joined(pieces[1..], find), find, repl);
      SubstJoins(pieces[1..], find, repl);
    }
  }

  lemma SubstFirst(piece: string, rest: string, find: string, repl: string)
    requires find != "" && IndexFrom(piece + find, find, 0) == |piece|
    ensures Subst(piece + find + rest, find, repl) == piece + repl + Subst(rest, find, repl)
  {
    var s, n := piece + find + rest, |piece| + |find|;
    FirstPiece(piece, find, rest);
    SubstInTail(s, find, repl, n);
    assert s[n..] == rest && s[0..|piece|] == piece;
  }

  /** Every text is cut into such pieces. */
  lemma {:induction false} CutExists(s: string, find: string) returns (pieces: seq<string>)
    requires find != ""
    ensures Cut(pieces, find) && Joined(pieces, find) == s
    decreases |s|
  {
    var i := IndexFrom(s, find, 0);
    if i == -1 {
      pieces := [s];
    } else {
      var n := i + |find|;
      SameMeans(s, i, find, |find|);
      assert s[..n] == s[..i] + find;
      IndexIsFirst(s, find, 0);
      forall k | 0 <= k < i ensures !Occurs(s[..n], find, k) { OccursInPrefix(s, n, find, k); }
      OccursInPrefix(s, n, find, i);
      IndexIs(s[..n], find, 0, i);
      var rest := CutExists(s[n..], find);
      pieces := [s[..i]] + rest;
      assert pieces[1..] == rest;
    }
  }

  // ---------- A clean pattern: both directions agree ----------

  /** An occurrence that starts in `a` and ends in `t`. */
  ghost predicate Straddles(a: string, t: string, find: string) {
    exists j :: 0 <= j < |a| < j + |find| && Occurs(a + t, find, j)
  }

  lemma OccursInPrefix(s: string, i: nat, find: string, j: int)
    requires i <= |s|
    ensures Occurs(s[..i], find, j) <==> j + |find| <= i && Occurs(s, find, j)
  {
    if 0 <= j && j + |find| <= i {
      SameMeans(s[..i], j, find, |find|);
      SameMeans(s, j, find, |find|);
    }
  }

  lemma LastIndexLeft(a: string, t: string, find: string)
    requires find != [] && !Straddles(a, t, find)
    ensures LastIndex(a + t, find, |a| - 1) == LastIndex(a, find, |a| - 1)
  {
    forall j | 0 <= j < |a| ensures Occurs(a + t, find, j) <==> Occurs(a, find, j) {
      if j + |find| <= |a| { OccursInPrefix(a + t, |a|, find, j); assert (a + t)[..|a|] == a; }
    }
    var i := LastIndex(a, find, |a| - 1);
    LastIndexIsLast(a, find, |a| - 1);
    LastIndexIs(a + t, find, |a| - 1, i);
  }

  lemma StraddleMatches(a: string, repl: string, rest: string, find: string, j: int)
    requires 0 <= j < |a| < j + |find| && |find| < |repl| && Occurs(a + (repl + rest), find, j)
    ensures SuffixIsPrefix(find, j + |find| - |a|, repl)
  {
    SameMeans(a + (repl + rest), j, find, |find|);
    forall m | 0 <= m < j + |find| - |a| ensures find[|a| - j + m] == repl[m] {
      assert (a + (repl + rest))[j + (|a| - j + m)] == repl[m];
    }
    SameMeans(find, |a| - j, repl, j + |find| - |a|);
  }

  /** In front of a replacement there is then no straddling occurrence of the pattern. */
  lemma NoStraddle(a: string, rest: string, find: string, repl: string)
    requires NoOverhang(find, repl) && 0 < |find| < |repl|
    ensures !Straddles(a, repl + rest, find)
  {
    forall j | 0 <= j < |a| < j + |find| && Occurs(a + (repl + rest), find, j)
      ensures SuffixIsPrefix(find, j + |find| - |a|, repl)
    {
      StraddleMatches(a, repl, rest, find, j);
    }
  }

  lemma SpliceLeft(a: string, t: string, i: nat, n: nat, repl: string)
    requires i + n <= |a|
    ensures Splice(a + t, i, n, repl) == a[..i] + (repl + (a[i + n..] + t))
    ensures Splice(a, i, n, repl) == a[..i] + (repl + a[i + n..])
  {
    assert (a + t)[..i] == a[..i] && (a + t)[i + n..] == a[i + n..] + t;
  }

  /** What stands behind the searched part is carried along unchanged. */
  lemma {:induction false} FromRightKeepsTail(a: string, t: string, find: string, repl: string)
    requires NoOverhang(find, repl) && 0 < |find| < |repl| && !Straddles(a, t, find)
    ensures SubstFromRight(a + t, find, repl, |a| - 1) == SubstFromRight(a, find, repl, |a| - 1) + t
    decreases |a|
  {
    LastIndexLeft(a, t, find);
    var i := LastIndex(a, find, |a| - 1);
    if i != -1 {
      var b, c := a[..i], a[i + |find|..];
      SpliceLeft(a, t, i, |find|, repl);
      NoStraddle(b, c + t, find, repl);
      NoStraddle(b, c, find, repl);
      FromRightKeepsTail(b, repl + (c + t), find, repl);
      FromRightKeepsTail(b, repl + c, find, repl);
      Assoc(repl, c, t);
      Assoc(SubstFromRight(b, find, repl, i - 1), repl + c, t);
    }
  }

  lemma OverlapIsBorder(s: string, find: string, i: int, j: int)
    requires Occurs(s, find, i) && Occurs(s, find, j) && i < j < i + |find|
    ensures SuffixIsPrefix(find, i + |find| - j, find)
  {
    SameMeans(s, i, find, |find|);
    SameMeans(s, j, find, |find|);
    forall m | 0 <= m < i + |find| - j ensures find[j - i + m] == find[m] {
      assert s[i + (j - i + m)] == s[j + m];
    }
    SameMeans(find, j - i, find, i + |find| - j);
  }

  /** Two occurrences of a clean pattern do not overlap. */
  lemma OccurrencesApart(s: string, find: string, repl: string, i: int, j: int)
    requires Clean(find, repl) && 0 < |find| < |repl| && Occurs(s, find, i) && Occurs(s, find, j) && i < j
    ensures i + |find| <= j
  {
    if j < i + |find| { OverlapIsBorder(s, find, i, j); }
  }

  /** Substitution from `from` on, when the next occurrence is at `p`, and when there is none. */
  lemma SubstStep(s: string, find: string, repl: string, from: nat, p: nat)
    requires find != [] && from <= p && Occurs(s, find, p) && forall k | from <= k < p :: !Occurs(s, find, k)
    ensures SubstFrom(s, find, repl, from) == s[from..p] + repl + SubstFrom(s, find, repl, p + |find|)
  {
    IndexIs(s, find, from, p);
  }

  lemma SubstNone(s: string, find: string, repl: string, from: nat)
    requires find != [] && from <= |s| && forall k | from <= k :: !Occurs(s, find, k)
    ensures SubstFrom(s, find, repl, from) == s[from..]
  {
    IndexIsNone(s, find, from);
  }

  lemma OccurrencesBefore(s: string, find: string, i: nat)
    requires i <= |s|
    ensures forall k :: Occurs(s[..i], find, k) <==> k + |find| <= i && Occurs(s, find, k)
  {
    forall k ensures Occurs(s[..i], find, k) <==> k + |find| <= i && Occurs(s, find, k) { OccursInPrefix(s, i, find, k); }
  }

  lemma LeftOfLast(s: string, find: string, repl: string, from: nat, p: nat, i: nat, tail: string)
    requires find != [] && from <= p && p + |find| <= i <= |s|
    requires Occurs(s, find, p) && forall k | from <= k < p :: !Occurs(s, find, k)
    requires SubstFrom(s, find, repl, p + |find|) == SubstFrom(s[..i], find, repl, p + |find|) + tail
    ensures SubstFrom(s, find, repl, from) == SubstFrom(s[..i], find, repl, from) + tail
  {
    OccurrencesBefore(s, find, i);
    SubstStep(s, find, repl, from, p);
    SubstStep(s[..i], find, repl, from, p);
    assert s[..i][from..p] == s[from..p];
    Assoc(s[from..p] + repl, SubstFrom(s[..i], find, repl, p + |find|), tail);
  }

  lemma AtLast(s: string, find: string, repl: string, from: nat, i: nat)
    requires find != [] && from <= i && Occurs(s, find, i)
    requires (forall k | from <= k < i :: !Occurs(s, find, k)) && forall k | i < k :: !Occurs(s, find, k)
    ensures SubstFrom(s, find, repl, from) == SubstFrom(s[..i], find, repl, from) + (repl + s[i + |find|..])
  {
    OccurrencesBefore(s, find, i);
    SubstStep(s, find, repl, from, i);
    SubstNone(s[..i], find, repl, from);
    SubstNone(s, find, repl, i + |find|);
    assert s[..i][from..] == s[from..i];
    Assoc(s[from..i], repl, s[i + |find|..]);
  }

  /** From the left, the last occurrence is reached with everything before it already substituted. */
  lemma {:induction false} FromLeftUpToLast(s: string, find: string, repl: string, from: nat, i: int)
    requires Clean(find, repl) && 0 < |find| < |repl| && from <= i
    requires Occurs(s, find, i) && forall k | i < k :: !Occurs(s, find, k)
    ensures SubstFrom(s, find, repl, from) == SubstFrom(s[..i], find, repl, from) + (repl + s[i + |find|..])
    decreases |s| - from
  {
    var p := IndexFrom(s, find, from);
    IndexIsFirst(s, find, from);
    if p == i {
      AtLast(s, find, repl, from, i);
    } else {
      OccurrencesApart(s, find, repl, p, i);
      FromLeftUpToLast(s, find, repl, p + |find|, i);
      LeftOfLast(s, find, repl, from, p, i, repl + s[i + |find|..]);
    }
  }

  /** From the right, what stands before the last occurrence is dealt with by itself. */
  lemma FromRightUpToLast(s: string, find: string, repl: string, i: nat)
    requires NoOverhang(find, repl) && 0 < |find| < |repl| && i == LastIndex(s, find, |s| - 1)
    ensures SubstFromRight(s, find, repl, |s| - 1) == SubstFromRight(s[..i], find, repl, i - 1) + (repl + s[i + |find|..])
  {
    var a, tail := s[..i], repl + s[i + |find|..];
    Assoc(a, repl, s[i + |find|..]);
    NoStraddle(a, s[i + |find|..], find, repl);
    FromRightKeepsTail(a, tail, find, repl);
  }

  /** For a clean pattern and a longer replacement both directions give the same text. */
  lemma {:induction false} CleanAgrees(s: string, find: string, repl: string)
    requires Clean(find, repl) && 0 < |find| < |repl|
    ensures SubstFromRight(s, find, repl, |s| - 1) == Subst(s, find, repl)
    decreases |s|
  {
    var i := LastIndex(s, find, |s| - 1);
    LastIndexIsLast(s, find, |s| - 1);
    if i == -1 {
      IndexIsNone(s, find, 0);
    } else {
      FromRightUpToLast(s, find, repl, i);
      CleanAgrees(s[..i], find, repl);
      FromLeftUpToLast(s, find, repl, 0, i);
    }
  }

  // ---------- How long the two results are ----------

  /** How often the left-to-right substitution replaces something from `from` on. */
  function Count(s: string, find: string, from: nat): nat
    requires find != [] && from <= |s|
    decreases |s| - from
  {
    var i := IndexFrom(s, find, from);
    if i == -1 then 0 else 1 + Count(s, find, i + |find|)
  }

  lemma {:induction false} SubstLength(s: string, find: string, repl: string, from: nat)
    requires 0 < |find| < |repl| && from <= |s|
    ensures |SubstFrom(s, find, repl, from)| == |s| - from + Times(Count(s, find, from), |repl| - |find|)
    decreases |s| - from
  {
    var i := IndexFrom(s, find, from);
    if i != -1 {
      SubstLength(s, find, repl, i + |find|);
      assert SubstFrom(s, find, repl, from) == s[from..i] + repl + SubstFrom(s, find, repl, i + |find|);
    }
  }

  lemma {:induction false} CountFits(s: string, find: string, from: nat)
    requires find != [] && from <= |s|
    ensures Times(Count(s, find, from), |find|) <= |s| - from
    decreases |s| - from
  {
    var i := IndexFrom(s, find, from);
    if i != -1 { CountFits(s, find, i + |find|); }
  }

  lemma CountNone(s: string, find: string, from: nat)
    requires find != [] && from <= |s| && forall k | from <= k :: !Occurs(s, find, k)
    ensures Count(s, find, from) == 0
  {
    IndexIsNone(s, find, from);
  }

  /** Without the part from its last occurrence on, a text is substituted once less often. */
  lemma {:induction false} CountUpToLast(s: string, find: string, from: nat, i: nat)
    requires find != [] && from <= i && Occurs(s, find, i) && forall k | i < k :: !Occurs(s, find, k)
    ensures Count(s, find, from) == 1 + Count(s[..i], find, from)
    decreases |s| - from
  {
    var p := IndexFrom(s, find, from);
    IndexIsFirst(s, find, from);
    OccurrencesBefore(s, find, i);
    if p + |find| <= i {
      IndexIs(s[..i], find, from, p);
      CountUpToLast(s, find, p + |find|, i);
    } else {
      CountNone(s, find, p + |find|);
      CountNone(s[..i], find, from);
    }
  }

  /** Without an overhang the right-to-left pass replaces exactly as often, although where may differ. */
  lemma {:induction false} NoOverhangSameLength(s: string, find: string, repl: string)
    requires NoOverhang(find, repl) && 0 < |find| < |repl|
    ensures |SubstFromRight(s, find, repl, |s| - 1)| == |Subst(s, find, repl)|
    decreases |s|
  {
    var i := LastIndex(s, find, |s| - 1);
    LastIndexIsLast(s, find, |s| - 1);
    if i == -1 {
      IndexIsNone(s, find, 0);
    } else {
      FromRightUpToLast(s, find, repl, i);
      NoOverhangSameLength(s[..i], find, repl);
      CountUpToLast(s, find, 0, i);
      SubstLength(s, find, repl, 0);
      SubstLength(s[..i], find, repl, 0);
    }
  }

  // ---------- An overhang: the right-to-left result runs over ----------

  function Repeat(x: string, m: nat): (r: string)
    ensures |r| == Times(m, |x|)
  {
    if m == 0 then "" else Repeat(x, m - 1) + x
  }

  lemma {:induction false} RepeatNulFree(x: string, m: nat)
    requires NulFree(x)
    ensures NulFree(Repeat(x, m))
  {
    if m > 0 { RepeatNulFree(x, m - 1); }
  }

  /** The longest overhang. */
  ghost predicate Longest(find: string, repl: string, k: nat) {
    0 < k < |find| && SuffixIsPrefix(find, k, repl) && forall m | k < m < |find| :: !SuffixIsPrefix(find, m, repl)
  }

  lemma {:induction false} LongestExists(find: string, repl: string, from: nat) returns (k: nat)
    requires 0 < from < |find| && SuffixIsPrefix(find, from, repl)
    ensures Longest(find, repl, k)
    decreases |find| - from
  {
    if m :| from < m < |find| && SuffixIsPrefix(find, m, repl) { k := LongestExists(find, repl, m); } else { k := from; }
  }

  lemma PrefixGrows(find: string, k: nat, t: string, rest: string)
    requires k <= |find| && SuffixIsPrefix(find, k, t)
    ensures SuffixIsPrefix(find, k, t + rest)
  {
    SameMeans(find, |find| - k, t, k);
    SameMeans(find, |find| - k, t + rest, k);
  }

  lemma OccursBehind(b: string, t: string, find: string)
    requires Occurs(t, find, 0)
    ensures Occurs(b + t, find, |b|)
  {
    SameMeans(t, 0, find, |find|);
    SameMeans(b + t, |b|, find, |find|);
  }

  lemma NoneLater(a: string, find: string, repl: string, rest: string, k: nat, from: nat)
    requires |find| < |repl| && Longest(find, repl, k) && |a| - |find| + k == from
    ensures forall j | from < j < |a| :: !Occurs(a + (repl + rest), find, j)
  {
    forall j | from < j < |a| ensures !Occurs(a + (repl + rest), find, j) {
      if Occurs(a + (repl + rest), find, j) { StraddleMatches(a, repl, rest, find, j); }
    }
  }

  /** In front of a replacement the head of the pattern makes a new occurrence, and it is the last one. */
  lemma LastOverhangs(b: string, find: string, repl: string, rest: string, k: nat)
    requires |find| < |repl| && Longest(find, repl, k)
    ensures var a := b + find[..|find| - k]; LastIndex(a + (repl + rest), find, |a| - 1) == |b|
  {
    var x := find[..|find| - k];
    PrefixGrows(find, k, repl, rest);
    OverlapsAtFront(find, k, repl + rest);
    OccursBehind(b, x + (repl + rest), find);
    Assoc(b, x, repl + rest);
    NoneLater(b + x, find, repl, rest, k, |b|);
    LastIndexIs(b + x + (repl + rest), find, |b + x| - 1, |b|);
  }

  lemma HeadIsReplaced(b: string, find: string, repl: string, rest: string, k: nat)
    requires |find| < |repl| && Longest(find, repl, k)
    ensures var a := b + find[..|find| - k];
      SubstFromRight(a + (repl + rest), find, repl, |a| - 1) == SubstFromRight(b + (repl + (repl[k..] + rest)), find, repl, |b| - 1)
  {
    var a := b + find[..|find| - k];
    var s := a + (repl + rest);
    LastOverhangs(b, find, repl, rest, k);
    assert s[..|b|] == b && s[|b| + |find|..] == repl[k..] + rest;
    Assoc(b, repl, repl[k..] + rest);
  }

  /** Each of the `m` heads in front of a replacement is replaced too, by `d` more characters. */
  lemma {:induction false} HeadsAreReplaced(find: string, repl: string, k: nat, m: nat, rest: string, a: string, d: nat)
    requires |repl| == |find| + d && d > 0 && Longest(find, repl, k) && a == Repeat(find[..|find| - k], m)
    ensures |SubstFromRight(a + (repl + rest), find, repl, |a| - 1)| == |a| + |repl| + |rest| + Times(m, d)
    decreases m
  {
    if m > 0 {
      var b := Repeat(find[..|find| - k], m - 1);
      HeadIsReplaced(b, find, repl, rest, k);
      HeadsAreReplaced(find, repl, k, m - 1, repl[k..] + rest, b, d);
    }
  }

  lemma RunsOverBy(find: string, repl: string, k: nat, m: nat, s: string, d: nat)
    requires |repl| == |find| + d && d > 0 && Longest(find, repl, k) && s == Repeat(find[..|find| - k], m) + find
    ensures |SubstFromRight(s, find, repl, |s| - 1)| == |s| + Times(m + 1, d)
  {
    var a := Repeat(find[..|find| - k], m);
    LastAtEnd(a, find);
    assert Splice(s, |a|, |find|, repl) == a + (repl + "");
    HeadsAreReplaced(find, repl, k, m, "", a, d);
  }

  lemma FewerFit(n: nat, f: nat, x: nat, excess: nat, m: nat)
    requires 0 < x < f && m == (excess + 1) * f && n * f <= m * x + f
    ensures n <= m - excess
  {
    MulMonotone(x, f - 1, m);
    Distribute(m, f - 1, 1);
    Distribute(f, m - excess, excess);
    Distribute(f, excess, 1);
    if n > m - excess { MulMonotone(m - excess + 1, n, f); }
  }

  lemma {:induction false} TimesGrow(n: nat, k: nat, excess: nat, d: nat)
    requires n <= k && d > 0
    ensures Times(k + excess + 1, d) > Times(n, d) + excess
    decreases k - n + excess
  {
    if excess > 0 { TimesGrow(n, k, excess - 1, d); } else if n < k { TimesGrow(n, k - 1, excess, d); }
  }

  /** At most `n` disjoint occurrences fit, while `m` + 1 replacements add `d` characters each. */
  lemma ManyHeads(n: nat, f: nat, x: nat, excess: nat, m: nat, d: nat)
    requires 0 < x < f && m == (excess + 1) * f && Times(n, f) <= Times(m, x) + f && d > 0
    ensures Times(m + 1, d) > Times(n, d) + excess
  {
    hide Times;
    assert n <= m - excess by {
      TimesIs(n, f);
      TimesIs(m, x);
      FewerFit(n, f, x, excess, m);
    }
    TimesGrow(n, m - excess, excess, d);
  }

  /** With an overhang there is a text whose right-to-left result is longer than the left-to-right one
      by any amount. */
  lemma OverhangRunsOver(find: string, repl: string, excess: nat) returns (s: string)
    requires 0 < |find| < |repl| && !NoOverhang(find, repl)
    ensures |SubstFromRight(s, find, repl, |s| - 1)| > |Subst(s, find, repl)| + excess
    ensures NulFree(find) ==> NulFree(s)
  {
    var from :| 0 < from < |find| && SuffixIsPrefix(find, from, repl);
    var k := LongestExists(find, repl, from);
    var x, m, d := find[..|find| - k], (excess + 1) * |find|, |repl| - |find|;
    s := Repeat(x, m) + find;
    RunsOverBy(find, repl, k, m, s, d);
    SubstLength(s, find, repl, 0);
    CountFits(s, find, 0);
    ManyHeads(Count(s, find, 0), |find|, |x|, excess, m, d);
    if NulFree(find) { RepeatNulFree(x, m); }
  }

  // ---------- An unclean pattern: some text tells them apart ----------

  /** Both directions give the same text. */
  ghost predicate Agree(s: string, find: string, repl: string)
    requires find != []
  {
    SubstFromRight(s, find, repl, |s| - 1) == Subst(s, find, repl)
  }

  /** The text in which `find` overlaps itself, or the replacement, by `k` characters. */
  function Overlapping(find: string, k: nat): string
    requires k <= |find|
  {
    find[..|find| - k] + find
  }

  lemma {:induction false} FromRightGrows(s: string, find: string, repl: string, index: int)
    requires 0 < |find| < |repl| && index >= -1
    ensures |SubstFromRight(s, find, repl, index)| >= |s|
    ensures LastIndex(s, find, index) != -1 ==> |SubstFromRight(s, find, repl, index)| >= |s| + |repl| - |find|
    decreases index + 1
  {
    var i := LastIndex(s, find, index);
    if i != -1 { FromRightGrows(Splice(s, i, |find|, repl), find, repl, i - 1); }
  }

  lemma OccursAtEnd(x: string, find: string)
    ensures Occurs(x + find, find, |x|)
  {
    SameMeans(x + find, |x|, find, |find|);
  }

  lemma LastAtEnd(x: string, find: string)
    requires find != []
    ensures LastIndex(x + find, find, |x + find| - 1) == |x|
  {
    OccursAtEnd(x, find);
    LastIndexIs(x + find, find, |x + find| - 1, |x|);
  }

  lemma FirstFromRight(find: string, k: nat, repl: string)
    requires 0 < k < |find| < |repl|
    ensures var s, x := Overlapping(find, k), find[..|find| - k];
      SubstFromRight(s, find, repl, |s| - 1) == SubstFromRight(x + repl, find, repl, |x| - 1)
  {
    var s, x := Overlapping(find, k), find[..|find| - k];
    LastAtEnd(x, find);
    assert s[..|x|] == x && s[|x| + |find|..] == [];
    assert Splice(s, |x|, |find|, repl) == x + repl;
  }

  lemma OverlapsAtFront(find: string, k: nat, t: string)
    requires 0 < k < |find| && SuffixIsPrefix(find, k, t)
    ensures Occurs(find[..|find| - k] + t, find, 0)
  {
    var x := find[..|find| - k];
    SameMeans(find, |find| - k, t, k);
    forall j | 0 <= j < |find| ensures |find| <= |x + t| && (x + t)[j] == find[j] {
      if j >= |x| { assert find[|find| - k + (j - |x|)] == t[j - |x|]; }
    }
    SameMeans(x + t, 0, find, |find|);
  }

  lemma NoneInFront(x: string, find: string, repl: string)
    requires 0 < |x| < |find| < |repl| && NoOverhang(find, repl)
    ensures SubstFromRight(x + repl, find, repl, |x| - 1) == x + repl
  {
    forall j | 0 <= j < |x| && Occurs(x + repl, find, j) ensures SuffixIsPrefix(find, j + |find| - |x|, repl) {
      assert repl + "" == repl;
      StraddleMatches(x, repl, "", find, j);
    }
  }

  lemma {:induction false} ShiftedIsPeriodic(find: string, repl: string, p: nat, tail: string, j: nat)
    requires 0 < p < |find| < |repl| && j < |find| && find[..p] + repl == repl + tail
    requires forall m | p <= m < |find| :: find[m] == find[m - p]
    ensures repl[j] == find[j]
  {
    var s := find[..p] + repl;
    assert s[j] == (repl + tail)[j] == repl[j];
    if j >= p { ShiftedIsPeriodic(find, repl, p, tail, j - p); }
  }

  lemma BorderFromLeft(find: string, repl: string, k: nat)
    requires 0 < k < |find| < |repl| && SuffixIsPrefix(find, k, find)
    ensures Subst(Overlapping(find, k), find, repl) == repl + Overlapping(find, k)[|find|..]
  {
    var s := Overlapping(find, k);
    OverlapsAtFront(find, k, find);
    SubstStep(s, find, repl, 0, 0);
    SubstNone(s, find, repl, |find|);
    assert s[0..0] + repl == repl;
  }

  lemma ShiftDiffers(find: string, repl: string, k: nat, tail: string)
    requires 0 < k < |find| < |repl| && SuffixIsPrefix(find, k, find) && !SuffixIsPrefix(find, k, repl)
    ensures find[..|find| - k] + repl != repl + tail
  {
    var p := |find| - k;
    SameMeans(find, p, find, k);
    forall m | p <= m < |find| ensures find[m] == find[m - p] { assert find[|find| - k + (m - p)] == find[m - p]; }
    if find[..p] + repl == repl + tail {
      forall j | 0 <= j < k ensures find[p + j] == repl[j] {
        ShiftedIsPeriodic(find, repl, p, tail, j);
      }
      SameMeans(find, p, repl, k);
    }
  }

  lemma BorderFromRight(find: string, repl: string, k: nat)
    requires 0 < k < |find| < |repl| && NoOverhang(find, repl)
    ensures var s := Overlapping(find, k); SubstFromRight(s, find, repl, |s| - 1) == find[..|find| - k] + repl
  {
    FirstFromRight(find, k, repl);
    NoneInFront(find[..|find| - k], find, repl);
  }

  lemma BorderDiffers(find: string, repl: string, k: nat)
    requires 0 < k < |find| < |repl| && SuffixIsPrefix(find, k, find) && NoOverhang(find, repl)
    ensures !Agree(Overlapping(find, k), find, repl)
  {
    BorderFromRight(find, repl, k);
    BorderFromLeft(find, repl, k);
    ShiftDiffers(find, repl, k, Overlapping(find, k)[|find|..]);
  }

  lemma UncleanDiffers(find: string, repl: string) returns (s: string)
    requires 0 < |find| < |repl| && !Clean(find, repl)
    ensures !Agree(s, find, repl) && (NulFree(find) ==> NulFree(s))
  {
    if NoOverhang(find, repl) {
      var k :| 0 < k < |find| && SuffixIsPrefix(find, k, find);
      BorderDiffers(find, repl, k);
      s := Overlapping(find, k);
    } else {
      s := OverhangRunsOver(find, repl, 0);
    }
  }

  /** The smallest pattern that overlaps itself. */
  lemma UncleanExample(repl: string)
    requires |repl| == 3 && repl[0] != 'a' && NulFree(repl)
    ensures !Clean("aa", repl) && NoOverhang("aa", repl)
    ensures SubstFromRight("aaa", "aa", repl, 2) == "a" + repl && Subst("aaa", "aa", repl) == repl + "a"
  {
    SameMeans("aa", 1, "aa", 1);
    SameMeans("aa", 1, repl, 1);
    assert SuffixIsPrefix("aa", 1, "aa") && !SuffixIsPrefix("aa", 1, repl);
    assert Overlapping("aa", 1) == "aaa" && "aa"[..1] == "a" && "aaa"[2..] == "a";
    BorderFromRight("aa", repl, 1);
    BorderFromLeft("aa", repl, 1);
  }

  /** With a longer replacement, substituting from the right gives the left-to-right result for every
      text exactly when the pattern is clean. */
  lemma FromRightIsSubst(find: string, repl: string)
    requires 0 < |find| < |repl|
    ensures (forall s :: Agree(s, find, repl)) <==> Clean(find, repl)
  {
    if Clean(find, repl) {
      forall s ensures Agree(s, find, repl) { CleanAgrees(s, find, repl); }
    } else {
      var s := UncleanDiffers(find, repl);
      assert !Agree(s, find, repl);
    }
  }
}
