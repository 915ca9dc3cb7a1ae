/**
 * The message rewrite used when a validation failure is shown to the user:
 *
 *   message.replace(new RegExp(`\\b${path}\\b`, "gi"), replacement)
 *
 * modelled for a path made of ASCII word characters `[A-Za-z0-9_]` (so the
 * path holds no regular-expression metacharacter) and a replacement (the
 * field's label) that is inserted literally (no `$` substitution patterns). Under those limits `\b` tests
 * whether exactly one of the two neighbouring characters is a word character,
 * the `i` flag compares ASCII letters without regard to case, and the `g` flag
 * scans the message from left to right, replacing each match and resuming
 * after it.
 */
module WholeWord {

  /** The characters `\w` and `\b` treat as word characters. */
  predicate IsWordChar(c: char) {
    'a' <= c <= 'z' || 'A' <= c <= 'Z' || '0' <= c <= '9' || c == '_'
  }

  /** A non-empty run of word characters: the paths this model covers. */
  predicate IsWord(s: string) {
    |s| > 0 && forall i :: 0 <= i < |s| ==> IsWordChar(s[i])
  }

  /** ASCII case folding, as the `i` flag applies it to an ASCII pattern. */
  function Fold(c: char): char {
    if 'A' <= c <= 'Z' then (c as int + 32) as char else c
  }

  /** s and t are equal up to ASCII case. */
  predicate EqualCI(s: string, t: string) {
    |s| == |t| && (|s| == 0 || (Fold(s[0]) == Fold(t[0]) && EqualCI(s[1..], t[1..])))
  }

  /** s[i] exists and is a word character; outside the string there is none. */
  predicate WordAt(s: string, i: int) {
    0 <= i < |s| && IsWordChar(s[i])
  }

  /** The assertion `\b` holds at position i (between s[i - 1] and s[i]). */
  predicate BoundaryAt(s: string, i: int) {
    WordAt(s, i - 1) != WordAt(s, i)
  }

  predicate SameText(a: string, b: string, ignoreCase: bool) {
    if ignoreCase then EqualCI(a, b) else a == b
  }

  /** `\bp\b` matches s at position i, with or without the `i` flag. */
  predicate WholeWordAt(s: string, p: string, i: int, ignoreCase: bool) {
    && 0 <= i
    && i + |p| <= |s|
    && BoundaryAt(s, i)
    && SameText(s[i..i + |p|], p, ignoreCase)
    && BoundaryAt(s, i + |p|)
  }

  /** `/\bp\b/gi` matches s at position i. */
  predicate MatchAt(s: string, p: string, i: int) {
    WholeWordAt(s, p, i, true)
  }

  predicate HasWholeWord(s: string, p: string, ignoreCase: bool) {
    exists i :: 0 <= i <= |s| && WholeWordAt(s, p, i, ignoreCase)
  }

  /** The global replace, resumed at position i of s (the regular expression's `lastIndex`). */
  function ReplaceFrom(s: string, p: string, replacement: string, i: nat): string
    requires IsWord(p) && i <= |s|
    decreases |s| - i
  {
    if i == |s| then []
    else if MatchAt(s, p, i) then replacement + ReplaceFrom(s, p, replacement, i + |p|)
    else [s[i]] + ReplaceFrom(s, p, replacement, i + 1)
  }

  /**
   * `s.replace(/\bp\b/gi, replacement)`. ReplaceNoMatchUnchanged and
   * ReplaceSplitsAtMatch together determine it for every message.
   */
  function ReplaceWholeWordCI(s: string, p: string, replacement: string): string
    requires IsWord(p)
  {
    ReplaceFrom(s, p, replacement, 0)
  }

  /** Text in which no match starts at or after i is copied as it is. */
  lemma {:induction false} ReplaceFromNoMatch(s: string, p: string, replacement: string, i: nat)
    requires IsWord(p) && i <= |s|
    requires forall j :: i <= j < |s| ==> !MatchAt(s, p, j)
    ensures ReplaceFrom(s, p, replacement, i) == s[i..]
    decreases |s| - i
  {
    if i < |s| {
      ReplaceFromNoMatch(s, p, replacement, i + 1);
    }
  }

  /** A message in which the path does not occur as a whole word is returned unchanged. */
  lemma ReplaceNoMatchUnchanged(s: string, p: string, replacement: string)
    requires IsWord(p) && !HasWholeWord(s, p, true)
    ensures ReplaceWholeWordCI(s, p, replacement) == s
  {
    ReplaceFromNoMatch(s, p, replacement, 0);
  }

  // ---------------------------------------------------------------------------
  // Facts about single characters and matches

  lemma FoldKeepsWordness(c: char)
    ensures IsWordChar(Fold(c)) == IsWordChar(c)
  {
  }

  lemma {:induction false} EqualCIAt(s: string, t: string, k: int)
    requires EqualCI(s, t) && 0 <= k < |s|
    ensures Fold(s[k]) == Fold(t[k])
  {
    if k > 0 {
      EqualCIAt(s[1..], t[1..], k - 1);
    }
  }

  lemma {:induction false} EqualCIReflexive(s: string)
    ensures EqualCI(s, s)
  {
    if s != [] {
      EqualCIReflexive(s[1..]);
    }
  }

  lemma {:induction false} EqualCISymmetric(s: string, t: string)
    requires EqualCI(s, t)
    ensures EqualCI(t, s)
  {
    if s != [] {
      EqualCISymmetric(s[1..], t[1..]);
    }
  }

  lemma {:induction false} EqualCIConcat(s1: string, t1: string, s2: string, t2: string)
    requires EqualCI(s1, t1) && EqualCI(s2, t2)
    ensures EqualCI(s1 + s2, t1 + t2)
  {
    if s1 != [] {
      EqualCIConcat(s1[1..], t1[1..], s2, t2);
      assert (s1 + s2)[1..] == s1[1..] + s2;
      assert (t1 + t2)[1..] == t1[1..] + t2;
    } else {
      assert s1 + s2 == s2 && t1 + t2 == t2;
    }
  }

  /** Every character a match covers is a word character. */
  lemma MatchedCharsAreWordChars(s: string, p: string, i: int, ignoreCase: bool)
    requires IsWord(p) && WholeWordAt(s, p, i, ignoreCase)
    ensures forall k :: i <= k < i + |p| ==> WordAt(s, k)
  {
    forall k | i <= k < i + |p|
      ensures WordAt(s, k)
    {
      if ignoreCase {
        EqualCIAt(s[i..i + |p|], p, k - i);
      }
      assert s[i..i + |p|][k - i] == s[k];
      FoldKeepsWordness(s[k]);
      FoldKeepsWordness(p[k - i]);
    }
  }

  /** A case-sensitive whole-word occurrence is also a case-insensitive one. */
  lemma ExactIsCaseInsensitive(s: string, p: string, i: int)
    requires WholeWordAt(s, p, i, false)
    ensures MatchAt(s, p, i)
  {
    EqualCIReflexive(p);
  }

  /** Two matches never overlap, nor touch: a non-word character separates them. */
  lemma MatchesDoNotOverlap(s: string, p: string, i: int, j: int, ignoreCase: bool)
    requires IsWord(p)
    requires WholeWordAt(s, p, i, ignoreCase) && WholeWordAt(s, p, j, ignoreCase)
    requires i < j
    ensures i + |p| < j
  {
    MatchedCharsAreWordChars(s, p, i, ignoreCase);
    MatchedCharsAreWordChars(s, p, j, ignoreCase);
  }

  // ---------------------------------------------------------------------------
  // Every match is replaced, and the text on each side of it independently

  /** The scan at a match emits the replacement and skips the match. */
  lemma ScanMatches(s: string, p: string, replacement: string, i: nat)
    requires IsWord(p) && MatchAt(s, p, i)
    ensures i + |p| <= |s|
    ensures ReplaceFrom(s, p, replacement, i) == replacement + ReplaceFrom(s, p, replacement, i + |p|)
  {
  }

  /** The scan elsewhere copies one character. */
  lemma ScanCopies(s: string, p: string, replacement: string, i: nat)
    requires IsWord(p) && i < |s| && !MatchAt(s, p, i)
    ensures ReplaceFrom(s, p, replacement, i) == [s[i]] + ReplaceFrom(s, p, replacement, i + 1)
  {
  }

  lemma PrefixMatchAgrees(s: string, p: string, j: int, i: int)
    requires IsWord(p) && MatchAt(s, p, j) && 0 <= i < j
    ensures MatchAt(s, p, i) <==> MatchAt(s[..j], p, i)
  {
    MatchedCharsAreWordChars(s, p, j, true);
    if MatchAt(s, p, i) {
      MatchesDoNotOverlap(s, p, i, j, true);
      assert s[..j][i..i + |p|] == s[i..i + |p|];
    }
    if MatchAt(s[..j], p, i) {
      MatchedCharsAreWordChars(s[..j], p, i, true);
      assert s[..j][i..i + |p|] == s[i..i + |p|];
    }
  }

  lemma {:induction false} PrefixScan(s: string, p: string, replacement: string, j: nat, i: nat)
    requires IsWord(p) && MatchAt(s, p, j) && i <= j
    ensures ReplaceFrom(s, p, replacement, i)
         == ReplaceFrom(s[..j], p, replacement, i) + replacement + ReplaceFrom(s, p, replacement, j + |p|)
    decreases j - i, 1
  {
    if i < j {
      var t := s[..j];
      PrefixMatchAgrees(s, p, j, i);
      if MatchAt(s, p, i) {
        MatchesDoNotOverlap(s, p, i, j, true);
        ScanMatches(s, p, replacement, i);
        ScanMatches(t, p, replacement, i);
        PrefixStep(s, p, replacement, j, i, i + |p|, replacement);
      } else {
        ScanCopies(s, p, replacement, i);
        ScanCopies(t, p, replacement, i);
        assert t[i] == s[i];
        PrefixStep(s, p, replacement, j, i, i + 1, [s[i]]);
      }
    }
  }

  /** One step of PrefixScan: both scans emit the same text at i and move on to the same position. */
  lemma {:induction false} PrefixStep(s: string, p: string, replacement: string, j: nat, i: nat, next: nat, head: string)
    requires IsWord(p) && MatchAt(s, p, j) && i < next <= j
    requires ReplaceFrom(s, p, replacement, i) == head + ReplaceFrom(s, p, replacement, next)
    requires ReplaceFrom(s[..j], p, replacement, i) == head + ReplaceFrom(s[..j], p, replacement, next)
    ensures ReplaceFrom(s, p, replacement, i)
         == ReplaceFrom(s[..j], p, replacement, i) + replacement + ReplaceFrom(s, p, replacement, j + |p|)
    decreases j - i, 0
  {
    PrefixScan(s, p, replacement, j, next);
  }

  lemma SuffixMatchAgrees(s: string, p: string, k: nat, m: nat)
    requires IsWord(p) && k + m <= |s|
    requires !WordAt(s, k - 1) || !WordAt(s, k)
    ensures MatchAt(s, p, k + m) <==> MatchAt(s[k..], p, m)
  {
    var t := s[k..];
    if k + m + |p| <= |s| {
      assert t[m..m + |p|] == s[k + m..k + m + |p|];
    }
    if MatchAt(s, p, k + m) {
      MatchedCharsAreWordChars(s, p, k + m, true);
    }
    if MatchAt(t, p, m) {
      MatchedCharsAreWordChars(t, p, m, true);
    }
  }

  lemma {:induction false} SuffixScan(s: string, p: string, replacement: string, k: nat, m: nat)
    requires IsWord(p) && k + m <= |s|
    requires !WordAt(s, k - 1) || !WordAt(s, k)
    ensures ReplaceFrom(s, p, replacement, k + m) == ReplaceFrom(s[k..], p, replacement, m)
    decreases |s| - k - m, 1
  {
    if k + m < |s| {
      SuffixHead(s, p, replacement, k, m);
      if MatchAt(s, p, k + m) {
        SuffixStep(s, p, replacement, k, m, m + |p|, replacement);
      } else {
        SuffixStep(s, p, replacement, k, m, m + 1, [s[k + m]]);
      }
    }
  }

  /** Both scans of SuffixScan take the same step at m. */
  lemma SuffixHead(s: string, p: string, replacement: string, k: nat, m: nat)
    requires IsWord(p) && k + m < |s|
    requires !WordAt(s, k - 1) || !WordAt(s, k)
    ensures MatchAt(s, p, k + m) ==>
              && k + (m + |p|) <= |s|
              && ReplaceFrom(s, p, replacement, k + m) == replacement + ReplaceFrom(s, p, replacement, k + (m + |p|))
              && ReplaceFrom(s[k..], p, replacement, m) == replacement + ReplaceFrom(s[k..], p, replacement, m + |p|)
    ensures !MatchAt(s, p, k + m) ==>
              && ReplaceFrom(s, p, replacement, k + m) == [s[k + m]] + ReplaceFrom(s, p, replacement, k + (m + 1))
              && ReplaceFrom(s[k..], p, replacement, m) == [s[k + m]] + ReplaceFrom(s[k..], p, replacement, m + 1)
  {
    var t := s[k..];
    SuffixMatchAgrees(s, p, k, m);
    if MatchAt(s, p, k + m) {
      ScanMatches(s, p, replacement, k + m);
      ScanMatches(t, p, replacement, m);
    } else {
      ScanCopies(s, p, replacement, k + m);
      ScanCopies(t, p, replacement, m);
      assert t[m] == s[k + m];
    }
  }

  /** One step of SuffixScan: both scans emit the same text at m and move on to the same position. */
  lemma {:induction false} SuffixStep(s: string, p: string, replacement: string, k: nat, m: nat, next: nat, head: string)
    requires IsWord(p) && k + m < k + next <= |s|
    requires !WordAt(s, k - 1) || !WordAt(s, k)
    requires ReplaceFrom(s, p, replacement, k + m) == head + ReplaceFrom(s, p, replacement, k + next)
    requires ReplaceFrom(s[k..], p, replacement, m) == head + ReplaceFrom(s[k..], p, replacement, next)
    ensures ReplaceFrom(s, p, replacement, k + m) == ReplaceFrom(s[k..], p, replacement, m)
    decreases |s| - k - m, 0
  {
    SuffixScan(s, p, replacement, k, next);
  }

  /**
   * Wherever the path occurs as a whole word (ignoring case), the result holds
   * the replacement, and the text before and after the occurrence is rewritten on
   * its own. Together with ReplaceNoMatchUnchanged this determines the result
   * for every message: the occurrences are cut out and replaced one by one.
   */
  lemma ReplaceSplitsAtMatch(s: string, p: string, replacement: string, j: nat)
    requires IsWord(p) && MatchAt(s, p, j)
    ensures ReplaceWholeWordCI(s, p, replacement)
         == ReplaceWholeWordCI(s[..j], p, replacement) + replacement + ReplaceWholeWordCI(s[j + |p|..], p, replacement)
  {
    SplitFrom(s, p, replacement, j);
  }

  /** ReplaceSplitsAtMatch for the scan itself. */
  lemma SplitFrom(s: string, p: string, replacement: string, j: nat)
    requires IsWord(p) && MatchAt(s, p, j)
    ensures ReplaceFrom(s, p, replacement, 0)
         == ReplaceFrom(s[..j], p, replacement, 0) + replacement + ReplaceFrom(s[j + |p|..], p, replacement, 0)
  {
    var k := j + |p|;
    PrefixScan(s, p, replacement, j, 0);
    MatchedCharsAreWordChars(s, p, j, true);
    assert WordAt(s, k - 1) && !WordAt(s, k);
    SuffixScan(s, p, replacement, k, 0);
    assert ReplaceFrom(s, p, replacement, k) == ReplaceFrom(s[k..], p, replacement, 0);
  }

  // ---------------------------------------------------------------------------
  // Characters next to a match survive the rewrite

  lemma {:induction false} LastNonWordCharKept(s: string, p: string, replacement: string, i: nat)
    requires IsWord(p) && i < |s| && !IsWordChar(s[|s| - 1])
    ensures var r := ReplaceFrom(s, p, replacement, i); |r| > 0 && r[|r| - 1] == s[|s| - 1]
    decreases |s| - i
  {
    var r := ReplaceFrom(s, p, replacement, i);
    if MatchAt(s, p, i) {
      MatchedCharsAreWordChars(s, p, i, true);
      LastNonWordCharKept(s, p, replacement, i + |p|);
      var rest := ReplaceFrom(s, p, replacement, i + |p|);
      assert r == replacement + rest;
      assert r[|r| - 1] == rest[|rest| - 1];
    } else if i + 1 < |s| {
      LastNonWordCharKept(s, p, replacement, i + 1);
      var rest := ReplaceFrom(s, p, replacement, i + 1);
      assert r == [s[i]] + rest;
      assert r[|r| - 1] == rest[|rest| - 1];
    }
  }

  lemma FirstNonWordCharKept(s: string, p: string, replacement: string)
    requires IsWord(p) && |s| > 0 && !IsWordChar(s[0])
    ensures var r := ReplaceWholeWordCI(s, p, replacement); |r| > 0 && r[0] == s[0]
  {
    if MatchAt(s, p, 0) {
      MatchedCharsAreWordChars(s, p, 0, true);
    }
  }

  /** A whole-word occurrence in a + b lies inside a or inside b when a non-word character separates them. */
  lemma WholeWordInConcat(a: string, b: string, p: string, i: int, ignoreCase: bool)
    requires IsWord(p) && WholeWordAt(a + b, p, i, ignoreCase)
    requires (|a| > 0 && !IsWordChar(a[|a| - 1])) || (|b| > 0 && !IsWordChar(b[0]))
    ensures WholeWordAt(a, p, i, ignoreCase) || WholeWordAt(b, p, i - |a|, ignoreCase)
  {
    var s := a + b;
    MatchedCharsAreWordChars(s, p, i, ignoreCase);
    if i + |p| <= |a| {
      assert s[i..i + |p|] == a[i..i + |p|];
      assert WordAt(s, i - 1) == WordAt(a, i - 1);
      assert WordAt(s, i) == WordAt(a, i);
      assert WordAt(s, i + |p| - 1) == WordAt(a, i + |p| - 1);
      if i + |p| < |a| {
        assert WordAt(s, i + |p|) == WordAt(a, i + |p|);
      } else {
        assert !WordAt(s, |a|);
      }
    } else {
      assert i < |a| ==> WordAt(s, |a| - 1) && WordAt(s, |a|);
      var i' := i - |a|;
      assert s[i..i + |p|] == b[i'..i' + |p|];
      assert WordAt(s, i + |p| - 1) == WordAt(b, i' + |p| - 1);
      assert WordAt(s, i + |p|) == WordAt(b, i' + |p|);
      assert WordAt(s, i) == WordAt(b, i');
      if i' > 0 {
        assert WordAt(s, i - 1) == WordAt(b, i' - 1);
      } else {
        assert !WordAt(s, i - 1);
      }
    }
  }

  lemma ConcatHasNoWholeWord(a: string, b: string, p: string, ignoreCase: bool)
    requires IsWord(p) && !HasWholeWord(a, p, ignoreCase) && !HasWholeWord(b, p, ignoreCase)
    requires a == [] || b == [] || !IsWordChar(a[|a| - 1]) || !IsWordChar(b[0])
    ensures !HasWholeWord(a + b, p, ignoreCase)
  {
    if a == [] {
      assert a + b == b;
    } else if b == [] {
      assert a + b == a;
    } else if i :| 0 <= i <= |a + b| && WholeWordAt(a + b, p, i, ignoreCase) {
      WholeWordInConcat(a, b, p, i, ignoreCase);
    }
  }

  /**
   * When the replacement itself does not contain the path as a whole word, no whole
   * word equal to the path is left in the rewritten message: with the `i` flag
   * (ignoreCase) or spelled exactly as the key (!ignoreCase).
   */
  lemma {:induction false} NoWholeWordRemains(s: string, p: string, replacement: string, ignoreCase: bool)
    requires IsWord(p) && !HasWholeWord(replacement, p, ignoreCase)
    ensures !HasWholeWord(ReplaceWholeWordCI(s, p, replacement), p, ignoreCase)
    decreases |s|
  {
    if !HasWholeWord(s, p, true) {
      ReplaceNoMatchUnchanged(s, p, replacement);
      if i :| 0 <= i <= |s| && WholeWordAt(s, p, i, ignoreCase) {
        ExactIsCaseInsensitive(s, p, i);
      }
    } else {
      var j :| 0 <= j <= |s| && WholeWordAt(s, p, j, true);
      NoWholeWordRemains(s[..j], p, replacement, ignoreCase);
      NoWholeWordRemains(s[j + |p|..], p, replacement, ignoreCase);
      NoWholeWordAroundMatch(s, p, replacement, ignoreCase, j);
    }
  }

  /** ReplaceSplitsAtMatch and NoWholeWordRemains together, for both spellings of the key. */
  lemma RewriteAtMatch(s: string, p: string, replacement: string, j: nat)
    requires IsWord(p) && MatchAt(s, p, j)
    ensures ReplaceWholeWordCI(s, p, replacement)
         == ReplaceWholeWordCI(s[..j], p, replacement) + replacement + ReplaceWholeWordCI(s[j + |p|..], p, replacement)
    ensures forall ignoreCase: bool :: !HasWholeWord(replacement, p, ignoreCase) ==> !HasWholeWord(ReplaceWholeWordCI(s, p, replacement), p, ignoreCase)
  {
    ReplaceSplitsAtMatch(s, p, replacement, j);
    forall ignoreCase: bool | !HasWholeWord(replacement, p, ignoreCase)
      ensures !HasWholeWord(ReplaceWholeWordCI(s, p, replacement), p, ignoreCase)
    {
      NoWholeWordRemains(s, p, replacement, ignoreCase);
    }
  }

  /** The step of NoWholeWordRemains at a match: the label is set off from the rewritten text on each side. */
  lemma NoWholeWordAroundMatch(s: string, p: string, replacement: string, ignoreCase: bool, j: nat)
    requires IsWord(p) && !HasWholeWord(replacement, p, ignoreCase) && MatchAt(s, p, j)
    requires !HasWholeWord(ReplaceWholeWordCI(s[..j], p, replacement), p, ignoreCase)
    requires !HasWholeWord(ReplaceWholeWordCI(s[j + |p|..], p, replacement), p, ignoreCase)
    ensures !HasWholeWord(ReplaceWholeWordCI(s, p, replacement), p, ignoreCase)
  {
    ReplaceSplitsAtMatch(s, p, replacement, j);
    MatchedCharsAreWordChars(s, p, j, true);
    var before, after := s[..j], s[j + |p|..];
    var r1 := ReplaceWholeWordCI(before, p, replacement);
    var r2 := ReplaceWholeWordCI(after, p, replacement);
    if before != [] {
      LastNonWordCharKept(before, p, replacement, 0);
    }
    ConcatHasNoWholeWord(r1, replacement, p, ignoreCase);
    if after != [] {
      FirstNonWordCharKept(after, p, replacement);
    }
    ConcatHasNoWholeWord(r1 + replacement, r2, p, ignoreCase);
  }

  // ---------------------------------------------------------------------------
  // With the key as its own replacement, occurrences only change case

  lemma {:induction false} ReplaceFromWithKey(s: string, p: string, i: nat)
    requires IsWord(p) && i <= |s|
    ensures EqualCI(ReplaceFrom(s, p, p, i), s[i..])
    decreases |s| - i
  {
    if i < |s| {
      var r := ReplaceFrom(s, p, p, i);
      if MatchAt(s, p, i) {
        ReplaceFromWithKey(s, p, i + |p|);
        EqualCISymmetric(s[i..i + |p|], p);
        EqualCIConcat(p, s[i..i + |p|], ReplaceFrom(s, p, p, i + |p|), s[i + |p|..]);
        assert s[i..] == s[i..i + |p|] + s[i + |p|..];
      } else {
        ReplaceFromWithKey(s, p, i + 1);
        EqualCIReflexive([s[i]]);
        EqualCIConcat([s[i]], [s[i]], ReplaceFrom(s, p, p, i + 1), s[i + 1..]);
        assert s[i..] == [s[i]] + s[i + 1..];
      }
    }
  }

  /**
   * With no replacement the key is its own replacement: the message keeps its length and
   * changes only in letter case, and each occurrence takes the key's spelling.
   */
  lemma ReplaceWithKeyNormalises(s: string, p: string)
    requires IsWord(p)
    ensures EqualCI(ReplaceWholeWordCI(s, p, p), s)
    ensures forall j :: MatchAt(s, p, j) ==> ReplaceWholeWordCI(s, p, p)[j..j + |p|] == p
  {
    ReplaceFromWithKey(s, p, 0);
    forall j | MatchAt(s, p, j)
      ensures ReplaceWholeWordCI(s, p, p)[j..j + |p|] == p
    {
      ReplaceSplitsAtMatch(s, p, p, j);
      ReplaceFromWithKey(s[..j], p, 0);
    }
  }

  // ---------------------------------------------------------------------------
  // Single words

  /** Where a whole-word occurrence can sit in a string made of one word, possibly after one separator. */
  lemma OneWordMatchShape(s: string, p: string, i: int)
    requires IsWord(p) && |s| > 0
    requires forall k :: 0 < k < |s| ==> IsWordChar(s[k])
    ensures MatchAt(s, p, i) ==>
              || (i == 0 && IsWordChar(s[0]) && EqualCI(s, p))
              || (i == 1 && !IsWordChar(s[0]) && EqualCI(s[1..], p))
  {
    if MatchAt(s, p, i) {
      MatchedCharsAreWordChars(s, p, i, true);
      var e := i + |p|;
      assert e < |s| ==> WordAt(s, e - 1) && WordAt(s, e);
      assert i > 1 ==> WordAt(s, i - 1);
      if i == 0 {
        assert s == s[i..e];
      } else {
        assert s[1..] == s[i..e];
      }
    }
  }

  /** A one-word string, possibly after one separator, holds p as a whole word only if that word is p. */
  lemma OneWordNoMatch(s: string, p: string)
    requires IsWord(p) && |s| > 0
    requires forall k :: 0 < k < |s| ==> IsWordChar(s[k])
    requires if IsWordChar(s[0]) then !EqualCI(s, p) else !EqualCI(s[1..], p)
    ensures !HasWholeWord(s, p, true)
  {
    forall i | 0 <= i <= |s|
      ensures !WholeWordAt(s, p, i, true)
    {
      OneWordMatchShape(s, p, i);
    }
  }

  /** An occurrence inside a longer word is not replaced: "page" keeps its "age". */
  lemma InsideLongerWordKept()
    ensures ReplaceWholeWordCI("page", "age", "Age") == "page"
  {
    OneWordNoMatch("page", "age");
    ReplaceNoMatchUnchanged("page", "age", "Age");
  }

  /** A separator followed by a word that is not p (compared without case). */
  predicate SeparatedOtherWord(w: string, p: string) {
    && |w| > 1
    && !IsWordChar(w[0])
    && (forall k :: 0 < k < |w| ==> IsWordChar(w[k]))
    && !EqualCI(w[1..], p)
  }

  /** Appending a separator and a word other than p creates no whole word p. */
  lemma AppendOtherWord(a: string, w: string, p: string)
    requires IsWord(p) && !HasWholeWord(a, p, true) && SeparatedOtherWord(w, p)
    ensures !HasWholeWord(a + w, p, true)
  {
    OneWordNoMatch(w, p);
    ConcatHasNoWholeWord(a, w, p, true);
  }

  /**
   * The message "age must be greater than or equal to 18" after its first word,
   * built word by word, each word with the space before it.
   */
  const AgeMessageTailText: string := " must" + " be" + " greater" + " than" + " or" + " equal" + " to" + " 18"

  /** The text after "age" in the message holds no whole word "age". */
  lemma AgeMessageTailHasNoAge()
    ensures !HasWholeWord(AgeMessageTailText, "age", true)
  {
    var p := "age";
    OneWordNoMatch(" must", p);
    AppendOtherWord(" must", " be", p);
    AppendOtherWord(" must" + " be", " greater", p);
    AppendOtherWord(" must" + " be" + " greater", " than", p);
    AppendOtherWord(" must" + " be" + " greater" + " than", " or", p);
    AppendOtherWord(" must" + " be" + " greater" + " than" + " or", " equal", p);
    AppendOtherWord(" must" + " be" + " greater" + " than" + " or" + " equal", " to", p);
    AppendOtherWord(" must" + " be" + " greater" + " than" + " or" + " equal" + " to", " 18", p);
  }

  /** A message that opens with the key as its only whole-word occurrence gets the label in front instead. */
  lemma ReplaceLeadingKey(p: string, rest: string, replacement: string)
    requires IsWord(p) && (rest == [] || !IsWordChar(rest[0]))
    requires !HasWholeWord(rest, p, true)
    ensures ReplaceWholeWordCI(p + rest, p, replacement) == replacement + rest
  {
    var s := p + rest;
    assert s[..0] == [] && s[..|p|] == p && s[|p|..] == rest;
    assert s[|p| - 1] == p[|p| - 1];
    assert rest != [] ==> s[|p|] == rest[0];
    EqualCIReflexive(p);
    assert MatchAt(s, p, 0);
    ReplaceSplitsAtMatch(s, p, replacement, 0);
    ReplaceNoMatchUnchanged(rest, p, replacement);
    ReplaceNoMatchUnchanged([], p, replacement);
  }

  /**
   * The message yup produces for `number().min(18)` on the key "age",
   * "age must be greater than or equal to 18", with the label "Age".
   */
  lemma AgeMessageRelabelled()
    ensures ReplaceWholeWordCI("age" + AgeMessageTailText, "age", "Age") == "Age" + AgeMessageTailText
  {
    AgeMessageTailHasNoAge();
    ReplaceLeadingKey("age", AgeMessageTailText, "Age");
  }
}
