/** Searching and parsing a character stream (cores/w800/Stream.cpp:47-149).  A stream is the
    characters that arrive before the first timeout. */
module StreamSearch {
  import opened Numerals
  import opened Substitution

  // ---------- findUntil ----------

  /** How much of the target has been matched after one more character: a mismatch forgets all of it
      and tries the character as a first one. */
  function Matched(target: string, index: nat, c: char): (next: nat)
    requires index < |target|
    ensures next <= index + 1
  {
    if c == target[index] then index + 1 else if c == target[0] then 1 else 0
  }

  /** Whether the search succeeds from here on, and where it stops. */
  function Scan(target: string, term: string, s: string, at: nat, index: nat, termIndex: nat): (r: (bool, nat))
    requires index < |target| && at <= |s| && (term != "" ==> termIndex < |term|)
    ensures at <= r.1 <= |s|
    decreases |s| - at
  {
    if at == |s| then (false, at)
    else if s[at] == NUL then (false, at + 1)
    else
      var next := Matched(target, index, s[at]);
      if next == |target| then (true, at + 1)
      else
        var t := if term != "" && s[at] == term[termIndex] then termIndex + 1 else 0;
        if term != "" && t == |term| then (false, at + 1)
        else Scan(target, term, s, at + 1, next, t)
  }

  /** The first `k` characters of the target end at `at`. */
  predicate Suffix(target: string, k: nat, s: string, at: nat) {
    k <= |target| && k <= at <= |s| && Same(s, at - k, target, k)
  }

  lemma SuffixStep(target: string, k: nat, s: string, at: nat)
    requires at < |s| && k < |target|
    ensures Suffix(target, k + 1, s, at + 1) <==> Suffix(target, k, s, at) && s[at] == target[k]
  {}

  /** Success means that the last characters read are the target. */
  lemma {:induction false} ScanSound(target: string, term: string, s: string, at: nat, index: nat, termIndex: nat)
    requires index < |target| && (term != "" ==> termIndex < |term|) && Suffix(target, index, s, at)
    ensures var (found, end) := Scan(target, term, s, at, index, termIndex);
      found ==> end >= |target| && Occurs(s, target, end - |target|)
    decreases |s| - at
  {
    if at < |s| && s[at] != NUL {
      var next := Matched(target, index, s[at]);
      SuffixStep(target, index, s, at);
      assert Suffix(target, 0, s, at);
      SuffixStep(target, 0, s, at);
      assert Suffix(target, next, s, at + 1);
      if next < |target| {
        var t := if term != "" && s[at] == term[termIndex] then termIndex + 1 else 0;
        if term == "" || t < |term| { ScanSound(target, term, s, at + 1, next, t); }
      }
    }
  }

  /** Wherever the target's first character recurs in it, what follows is the target over again. */
  ghost predicate Steady(target: string) {
    forall p {:trigger Repeats(target, p)} | 0 < p < |target| && target[p] == target[0] :: Repeats(target, p)
  }

  /** From `p` on, the target is its own beginning. */
  predicate Repeats(target: string, p: nat)
    requires p <= |target|
  {
    Same(target, p, target, |target| - p)
  }

  /** The target "aab" is not steady, and it is missed in "aaab". */
  lemma UnsteadyExample()
    ensures !Steady("aab") && Occurs("aaab", "aab", 1) && Scan("aab", "", "aaab", 0, 0, 0) == (false, 4)
  {
    SameMeans("aab", 1, "aab", 2);
    assert "aab"[1 + 1] != "aab"[1];
    assert !Repeats("aab", 1);
    SameMeans("aaab", 1, "aab", 3);
  }

  /** `index` is the most of the target that could end at `at`, and the target has not ended before. */
  ghost predicate Best(target: string, index: nat, s: string, at: nat) {
    && Suffix(target, index, s, at)
    && (forall k | index < k <= |target| :: !Suffix(target, k, s, at))
    && forall i | 0 <= i && i + |target| <= at :: !Occurs(s, target, i)
  }

  /** Two prefixes of the target ending at the same place overlap within the target. */
  lemma Overlap(target: string, b: nat, i: nat, s: string, at: nat)
    requires Suffix(target, b, s, at) && Suffix(target, i, s, at) && b < i < |target|
    ensures Same(target, i - b, target, b)
  {
    SameMeans(s, at - b, target, b);
    SameMeans(s, at - i, target, i);
    forall j | 0 <= j < b ensures target[i - b + j] == target[j] {
      assert s[at - i + (i - b + j)] == s[at - b + j];
    }
    SameMeans(target, i - b, target, b);
  }

  /** In a steady target, where its first character recurs, it goes on as it began. */
  lemma GoesOn(target: string, p: nat, b: nat)
    requires Steady(target) && 0 < p && p + b < |target| && target[p] == target[0]
    ensures target[p + b] == target[b]
  {
    assert Repeats(target, p);
    SameAt(target, p, target, |target| - p, b);
  }

  lemma {:induction false} SameAt(a: string, d: nat, t: string, k: nat, j: nat)
    requires d + k <= |a| && j < k <= |t| && Same(a, d, t, k)
    ensures a[d + j] == t[j]
    decreases k
  {
    if j < k - 1 { SameAt(a, d, t, k - 1, j); }
  }

  /** Forgetting a partial match loses nothing when the target is steady. */
  lemma NothingLost(target: string, index: nat, s: string, at: nat, k: nat)
    requires Steady(target) && Best(target, index, s, at) && index < |target| && at < |s|
    requires Matched(target, index, s[at]) < k <= |target|
    ensures !Suffix(target, k, s, at + 1)
  {
    SuffixStep(target, k - 1, s, at);
    if Suffix(target, k - 1, s, at) && 0 < k - 1 < index {
      Overlap(target, k - 1, index, s, at);
      SameAt(target, index - (k - 1), target, k - 1, 0);
      GoesOn(target, index - (k - 1), k - 1);
    }
  }

  lemma EndsThere(target: string, s: string, i: nat)
    ensures Occurs(s, target, i) <==> Suffix(target, |target|, s, i + |target|)
  {}

  lemma BestStep(target: string, index: nat, s: string, at: nat)
    requires Steady(target) && Best(target, index, s, at) && index < |target| && at < |s|
    requires Matched(target, index, s[at]) < |target|
    ensures Best(target, Matched(target, index, s[at]), s, at + 1)
  {
    var next, end := Matched(target, index, s[at]), at + 1;
    SuffixStep(target, index, s, at);
    SuffixStep(target, 0, s, at);
    forall k | next < k <= |target| ensures !Suffix(target, k, s, end) { NothingLost(target, index, s, at, k); }
    forall i | 0 <= i && i + |target| <= end ensures !Occurs(s, target, i) { EndsThere(target, s, i); }
  }

  /** For a steady target and no terminator, the search stops right after the first occurrence. */
  lemma {:induction false} ScanExact(target: string, s: string, at: nat, index: nat)
    requires Steady(target) && NulFree(s) && at <= |s| && index < |target| && Best(target, index, s, at)
    ensures var i := IndexFrom(s, target, 0);
      Scan(target, "", s, at, index, 0) == if i == -1 then (false, |s|) else (true, i + |target|)
    decreases |s| - at
  {
    if at == |s| {
      IndexIsNone(s, target, 0);
    } else {
      var next := Matched(target, index, s[at]);
      if next < |target| {
        BestStep(target, index, s, at);
        ScanExact(target, s, at + 1, next);
      } else {
        SuffixStep(target, index, s, at);
        IndexIs(s, target, 0, at + 1 - |target|);
      }
    }
  }

  // ---------- A target that is not steady is missed ----------

  /** Reading the target's own beginning matches all of it. */
  lemma {:induction false} ScanAlong(target: string, s: string, at: nat, i: nat)
    requires at <= i < |target| && i <= |s| && NulFree(s) && Same(s, 0, target, i)
    ensures Scan(target, "", s, at, at, 0) == Scan(target, "", s, i, i, 0)
    decreases i - at
  {
    if at < i {
      SameMeans(s, 0, target, i);
      assert s[0 + at] == target[at];
      ScanAlong(target, s, at + 1, i);
    }
  }

  /** Too few characters are left to match the rest of the target. */
  lemma {:induction false} ScanTooShort(target: string, s: string, at: nat, index: nat)
    requires at <= |s| && index + (|s| - at) < |target|
    ensures !Scan(target, "", s, at, index, 0).0
    decreases |s| - at
  {
    if at < |s| && s[at] != NUL { ScanTooShort(target, s, at + 1, Matched(target, index, s[at])); }
  }

  /** The length of the agreement between two places of the target. */
  function Agreement(target: string, p: nat, b: nat): (n: nat)
    requires 0 < p && p + b <= |target| && Same(target, p, target, b)
    ensures b <= n && p + n <= |target| && Same(target, p, target, n)
    ensures p + n < |target| ==> target[p + n] != target[n]
    decreases |target| - p - b
  {
    if p + b < |target| && target[p + b] == target[b] then Agreement(target, p, b + 1) else b
  }

  /** The target behind the beginning that it shares with itself: an input in which it is missed. */
  lemma ScanMisses(target: string) returns (s: string)
    requires target != "" && NulFree(target) && !Steady(target)
    ensures NulFree(s) && IndexFrom(s, target, 0) != -1 && !Scan(target, "", s, 0, 0, 0).0
  {
    var p :| 0 < p < |target| && target[p] == target[0] && !Repeats(target, p);
    s := target[..p] + target;
    OccursAtEnd(target[..p], target);
    IndexIsFirst(s, target, 0);
    assert Same(target, p, target, 1);
    var b := Agreement(target, p, 1);
    FollowsItself(target, p, b);
    ScanAlong(target, s, 0, p + b);
    ScanTooShort(target, s, p + b + 1, Matched(target, p + b, s[p + b]));
  }

  lemma FollowsItself(target: string, p: nat, b: nat)
    requires 0 < p && p + b < |target| && Same(target, p, target, b)
    ensures Same(target[..p] + target, 0, target, p + b) && (target[..p] + target)[p + b] == target[b]
  {
    var s := target[..p] + target;
    forall j | 0 <= j < p + b ensures s[0 + j] == target[j] {
      if j >= p { SameAt(target, p, target, b, j - p); }
    }
    SameMeans(s, 0, target, p + b);
  }

  /** The search finds this target in this text exactly when the text contains it. */
  ghost predicate FindsRightly(target: string, s: string)
    requires target != ""
  {
    Scan(target, "", s, 0, 0, 0).0 <==> IndexFrom(s, target, 0) != -1
  }

  /** Without a terminator, the search is right about every text exactly when the target is steady. */
  lemma FindsAllIffSteady(target: string)
    requires target != "" && NulFree(target)
    ensures (forall s | NulFree(s) :: FindsRightly(target, s)) <==> Steady(target)
  {
    if Steady(target) {
      forall s | NulFree(s) ensures FindsRightly(target, s) {
        assert Best(target, 0, s, 0);
        ScanExact(target, s, 0, 0);
      }
    } else {
      var s := ScanMisses(target);
      assert !FindsRightly(target, s);
    }
  }

  /** In particular, a target whose first character does not come again is steady. */
  lemma NoRecurrenceIsSteady(target: string)
    requires forall p | 0 < p < |target| :: target[p] != target[0]
    ensures Steady(target)
  {}

  // ---------- The terminator ----------

  /** How much of the terminator has been matched after one more character: a mismatch forgets all of it, and
      the character is not tried again. */
  function TermMatched(term: string, index: nat, c: char): (next: nat)
    requires index < |term|
    ensures next <= index + 1
  {
    if c == term[index] then index + 1 else 0
  }

  /** Where the terminator alone would end the search, or -1. */
  function Stops(term: string, s: string, at: nat, index: nat): (end: int)
    requires index < |term| && at <= |s|
    ensures end == -1 || at < end <= |s|
    decreases |s| - at
  {
    if at == |s| || s[at] == NUL then -1
    else
      var next := TermMatched(term, index, s[at]);
      if next == |term| then at + 1 else Stops(term, s, at + 1, next)
  }

  /** Whichever comes first decides, and the target when both are complete with the same character. */
  function Earlier(r: (bool, nat), stop: int): (bool, nat)
    requires stop >= -1
  {
    if stop == -1 || (if r.0 then r.1 <= stop else r.1 < stop) then r else (false, stop as nat)
  }

  /** For any target and any terminator, the two are looked for independently of each other. */
  lemma {:induction false} ScanSplits(target: string, term: string, s: string, at: nat, index: nat, termIndex: nat)
    requires index < |target| && termIndex < |term| && at <= |s|
    ensures Scan(target, term, s, at, index, termIndex)
         == Earlier(Scan(target, "", s, at, index, 0), Stops(term, s, at, termIndex))
    decreases |s| - at
  {
    if at < |s| && s[at] != NUL {
      var next, t := Matched(target, index, s[at]), TermMatched(term, termIndex, s[at]);
      if next < |target| && t < |term| { ScanSplits(target, term, s, at + 1, next, t); }
    }
  }

  /** The search ends with the terminator only when it has just been read. */
  lemma {:induction false} StopsSound(term: string, s: string, at: nat, index: nat)
    requires index < |term| && Suffix(term, index, s, at) && Stops(term, s, at, index) != -1
    ensures var end := Stops(term, s, at, index); end >= |term| && Occurs(s, term, end - |term|)
    decreases |s| - at
  {
    var next := TermMatched(term, index, s[at]);
    SuffixStep(term, index, s, at);
    assert Suffix(term, next, s, at + 1);
    if next < |term| { StopsSound(term, s, at + 1, next); }
  }

  /** One character over and over. */
  predicate Uniform(term: string) { forall k | 0 <= k < |term| :: term[k] == term[0] }

  lemma TermBestStep(term: string, index: nat, s: string, at: nat)
    requires Uniform(term) && Best(term, index, s, at) && index < |term| && at < |s|
    requires TermMatched(term, index, s[at]) < |term|
    ensures Best(term, TermMatched(term, index, s[at]), s, at + 1)
  {
    var next, end := TermMatched(term, index, s[at]), at + 1;
    SuffixStep(term, index, s, at);
    forall k | next < k <= |term| ensures !Suffix(term, k, s, end) { SuffixStep(term, k - 1, s, at); }
    forall i | 0 <= i && i + |term| <= end ensures !Occurs(s, term, i) { EndsThere(term, s, i); }
  }

  /** A terminator that repeats one character ends the search right after its first occurrence. */
  lemma {:induction false} StopsExact(term: string, s: string, at: nat, index: nat)
    requires Uniform(term) && NulFree(s) && at <= |s| && index < |term| && Best(term, index, s, at)
    ensures var j := IndexFrom(s, term, 0); Stops(term, s, at, index) == if j == -1 then -1 else j + |term|
    decreases |s| - at
  {
    if at == |s| {
      IndexIsNone(s, term, 0);
    } else {
      var next := TermMatched(term, index, s[at]);
      if next < |term| {
        TermBestStep(term, index, s, at);
        StopsExact(term, s, at + 1, next);
      } else {
        SuffixStep(term, index, s, at);
        IndexIs(s, term, 0, at + 1 - |term|);
      }
    }
  }

  /** What findUntil is for: the target, unless the terminator comes first. */
  function Wanted(target: string, term: string, s: string): (bool, nat) {
    var i, j := IndexFrom(s, target, 0), IndexFrom(s, term, 0);
    if i != -1 && (term == "" || j == -1 || i + |target| <= j + |term|) then (true, i + |target|)
    else if term != "" && j != -1 then (false, j + |term|)
    else (false, |s|)
  }

  /** And what it does. */
  function Found(target: string, term: string, s: string): (bool, nat)
    requires target != ""
  {
    Scan(target, term, s, 0, 0, 0)
  }

  /** A steady target and a terminator that repeats one character, or none, are found where they should be. */
  lemma FindsAsWanted(target: string, term: string, s: string)
    requires target != "" && Steady(target) && Uniform(term) && NulFree(s)
    ensures Found(target, term, s) == Wanted(target, term, s)
  {
    assert Best(target, 0, s, 0);
    ScanExact(target, s, 0, 0);
    if term != "" {
      assert Best(term, 0, s, 0);
      StopsExact(term, s, 0, 0);
      ScanSplits(target, term, s, 0, 0, 0);
    }
  }

  /** A NUL that is read ends the search without success: it goes as if the text ended there, but the NUL is
      read as well. */
  lemma {:induction false} NulEnds(target: string, term: string, a: string, b: string, at: nat, index: nat, termIndex: nat)
    requires index < |target| && (term != "" ==> termIndex < |term|) && at <= |a| && NulFree(a)
    ensures var r, s := Scan(target, term, a, at, index, termIndex), a + [NUL] + b;
      Scan(target, term, s, at, index, termIndex)
      == if r == (false, |a|) && (term == "" || Stops(term, a, at, termIndex) != |a|) then (false, |a| + 1) else r
    decreases |a| - at
  {
    var s := a + [NUL] + b;
    if at < |a| {
      assert s[at] == a[at];
      var next := Matched(target, index, a[at]);
      if next < |target| {
        var t := if term != "" && a[at] == term[termIndex] then termIndex + 1 else 0;
        if term == "" || t < |term| { NulEnds(target, term, a, b, at + 1, next, t); }
      }
    }
  }

  // ---------- A terminator with different characters is missed ----------

  /** Too few characters are left to match the rest of the terminator. */
  lemma {:induction false} StopsTooShort(term: string, s: string, at: nat, index: nat)
    requires at <= |s| && index + (|s| - at) < |term|
    ensures Stops(term, s, at, index) == -1
    decreases |s| - at
  {
    if at < |s| && s[at] != NUL { StopsTooShort(term, s, at + 1, TermMatched(term, index, s[at])); }
  }

  /** As long as text and terminator both go on with the same character, all of it matches. */
  lemma {:induction false} StopsAlong(term: string, s: string, at: nat, n: nat, index: nat, c: char)
    requires index + n < |term| && at + n <= |s| && c != NUL
    requires (forall k | at <= k < at + n :: s[k] == c) && forall k | index <= k < index + n :: term[k] == c
    ensures Stops(term, s, at, index) == Stops(term, s, at + n, index + n)
    decreases n
  {
    if n > 0 { StopsAlong(term, s, at + 1, n - 1, index + 1, c); }
  }

  /** Where the terminator first has another character than its first. */
  lemma FirstOther(term: string) returns (i: nat)
    requires !Uniform(term)
    ensures 0 < i < |term| && term[i] != term[0] && forall k | 0 <= k < i :: term[k] == term[0]
  {
    i := 0;
    while term[i] == term[0]
      invariant i < |term| && forall k | 0 <= k < i :: term[k] == term[0]
      invariant exists k | i <= k < |term| :: term[k] != term[0]
      decreases |term| - i
    {
      i := i + 1;
    }
  }

  /** The beginning of the terminator in front of all of it, and one more character behind: the terminator is
      read and the search goes on to the end. */
  lemma StopsMisses(term: string) returns (s: string, i: nat)
    requires NulFree(term) && !Uniform(term)
    ensures NulFree(s) && |s| == i + |term| + 1 && IndexFrom(s, term, 0) == i && Stops(term, s, 0, 0) == -1
  {
    i := FirstOther(term);
    s := term[..i] + term + [term[0]];
    InDoubled(term, i, s);
    StopsAlong(term, s, 0, i, 0, term[0]);
    assert Stops(term, s, i, i) == Stops(term, s, i + 1, 0);
    StopsAlong(term, s, i + 1, i - 1, 0, term[0]);
    assert s[2 * i] == term[i] != term[i - 1];
    assert Stops(term, s, 2 * i, i - 1) == Stops(term, s, 2 * i + 1, 0);
    StopsTooShort(term, s, 2 * i + 1, 0);
  }

  lemma InDoubled(term: string, i: nat, s: string)
    requires 0 < i < |term| && term[i] != term[0] && forall k | 0 <= k < i :: term[k] == term[0]
    requires NulFree(term) && s == term[..i] + term + [term[0]]
    ensures |s| == i + |term| + 1 && NulFree(s) && (forall k | 0 <= k < 2 * i :: s[k] == term[0]) && s[2 * i] == term[i]
    ensures IndexFrom(s, term, 0) == i
  {
    forall k | 0 <= k < 2 * i ensures s[k] == term[0] { assert s[k] == if k < i then term[k] else term[k - i]; }
    assert s[2 * i] == term[i];
    SameMeans(s, i, term, |term|);
    forall k | 0 <= k < i ensures !Occurs(s, term, k) {
      if k + |term| <= |s| {
        SameMeans(s, k, term, |term|);
        assert s[k + i] == term[0] != term[i];
      }
    }
    IndexIs(s, term, 0, i);
  }

  /** A text of one character, longer than anything it is looked for in. */
  lemma LongTarget(c: char, n: nat, s: string) returns (target: string)
    requires |s| < n
    ensures |target| == n && Steady(target) && (c != NUL ==> NulFree(target)) && IndexFrom(s, target, 0) == -1
  {
    target := seq(n, _ => c);
    forall p | 0 < p < |target| ensures Repeats(target, p) { SameMeans(target, p, target, |target| - p); }
    IndexIsNone(s, target, 0);
  }

  /** With this terminator, steady targets are found where they should be in every text exactly when the
      terminator repeats one character. */
  lemma EndsRightlyIffUniform(term: string)
    requires term != "" && NulFree(term)
    ensures (forall target, s | target != "" && Steady(target) && NulFree(target) && NulFree(s) ::
               Found(target, term, s) == Wanted(target, term, s))
       <==> Uniform(term)
  {
    if Uniform(term) {
      forall target, s | target != "" && Steady(target) && NulFree(target) && NulFree(s)
        ensures Found(target, term, s) == Wanted(target, term, s)
      {
        FindsAsWanted(target, term, s);
      }
    } else {
      var s, i := StopsMisses(term);
      var target := LongTarget(term[0], |s| + 1, s);
      assert Best(target, 0, s, 0);
      ScanExact(target, s, 0, 0);
      ScanSplits(target, term, s, 0, 0, 0);
      assert Found(target, term, s) != Wanted(target, term, s);
    }
  }

  /** A terminator of one character always is such a one; "ab" is not, and is missed in "aab". */
  lemma TerminatorExamples()
    ensures Uniform(";") && !Uniform("ab")
    ensures Found("b", ";", "a;b") == (false, 2) && Found("z", "ab", "aabz") == (true, 4) && IndexFrom("aabz", "ab", 0) == 1
  {
    assert "ab"[1] != "ab"[0];
    SameMeans("aabz", 1, "ab", 2);
    SameMeans("aabz", 0, "ab", 2);
    assert "aabz"[0 + 1] != "ab"[1];
  }
}
