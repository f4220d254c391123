/**
  `replaceSpacesDigitsAndQuestionMark`: the file-name sanitizer, a fixed chain of
  three global replacements applied in this order:
    1. every space becomes an underscore            (`/ /g`   -> `'_'`)
    2. every run of digits followed by a period goes (`/\d+\./g` -> `''`)
    3. every question mark goes                     (`/\?/g`  -> `''`)
*/
module Sanitizer {

  /** `\d` of a regular expression without the `u` flag: an ASCII digit. */
  predicate IsDigit(c: char) {
    '0' <= c <= '9'
  }

  /** `r` is `s` with some characters left out, the rest kept in order
      (matched greedily: the first character of `r` is matched as early as possible). */
  predicate IsSubsequence(r: string, s: string)
    decreases |s|
  {
    r == [] ||
    (s != [] && if r[0] == s[0] then IsSubsequence(r[1..], s[1..]) else IsSubsequence(r, s[1..]))
  }

  /** The digit at index `i` of `s` is directly followed by a period. */
  predicate DigitBeforePeriodAt(s: string, i: int) {
    0 <= i < |s| - 1 && IsDigit(s[i]) && s[i + 1] == '.'
  }

  /** No digit is directly followed by a period, so `\d+\.` matches nowhere in `s`. */
  predicate NoDigitBeforePeriod(s: string) {
    forall i :: 0 <= i < |s| ==> !DigitBeforePeriodAt(s, i)
  }

  /** Length of the run of digits `s` starts with. */
  function DigitRun(s: string): (n: nat)
    ensures n <= |s|
    ensures forall i :: 0 <= i < n ==> IsDigit(s[i])
    ensures n == |s| || !IsDigit(s[n])
  {
    if s != [] && IsDigit(s[0]) then 1 + DigitRun(s[1..]) else 0
  }

  /** `\d+\.` matches at the start of `s`: the greedy digit run is followed by a period
      (backtracking to a shorter run cannot help, since a digit is not a period). */
  predicate StartsWithMatch(s: string) {
    var n := DigitRun(s);
    0 < n < |s| && s[n] == '.'
  }

  // ---------------------------------------------------------------------------
  // The three replacements

  /** `str.replace(/ /g, '_')`. */
  function ReplaceSpaces(s: string): (r: string)
    ensures |r| == |s| && ' ' !in r
    ensures forall i :: 0 <= i < |s| && s[i] != ' ' ==> r[i] == s[i]
    ensures forall i :: 0 <= i < |s| && s[i] == ' ' ==> r[i] == '_'
  {
    if s == [] then []
    else [if s[0] == ' ' then '_' else s[0]] + ReplaceSpaces(s[1..])
  }

  /** `str.replace(/\d+\./g, '')`: scanning from the left, each leftmost greedy match
      of digits-then-period is deleted and the scan resumes after it. Every character
      that is neither a digit nor a period is kept, in order, and what is left holds
      no further match. */
  function DeleteDigitPeriodRuns(s: string): string
    decreases |s|
  {
    if s == [] then []
    else if StartsWithMatch(s) then DeleteDigitPeriodRuns(s[DigitRun(s) + 1..])
    else [s[0]] + DeleteDigitPeriodRuns(s[1..])
  }

  /** What the second step leaves is the input with characters left out, in order, and
      holds no digit directly before a period; a first character that does not start a
      match is kept. */
  lemma {:induction false} DeleteDigitPeriodRunsSpec(s: string)
    ensures var r := DeleteDigitPeriodRuns(s);
      IsSubsequence(r, s) && NoDigitBeforePeriod(r) &&
      (s != [] && !StartsWithMatch(s) ==> r != [] && r[0] == s[0])
    decreases |s|
  {
    if s == [] {
    } else if StartsWithMatch(s) {
      var n := DigitRun(s);
      DeleteDigitPeriodRunsSpec(s[n + 1..]);
      SubsequenceOfSuffix(DeleteDigitPeriodRuns(s[n + 1..]), s, n + 1);
    } else {
      var rest := DeleteDigitPeriodRuns(s[1..]);
      DeleteDigitPeriodRunsSpec(s[1..]);
      assert rest != [] ==> rest[0] != '.' || !IsDigit(s[0]) by {
        if IsDigit(s[0]) && |s| > 1 {
          NoMatchContinues(s);
        }
      }
      ConsKeepsClean(s[0], rest);
      assert s == [s[0]] + s[1..];
      SubsequencePrepend(rest, s[0], s[1..]);
    }
  }

  /** `str.replace(/\?/g, '')`: no question mark is left. */
  function DeleteQuestionMarks(s: string): (r: string)
    ensures '?' !in r
  {
    if s == [] then []
    else if s[0] == '?' then DeleteQuestionMarks(s[1..])
    else [s[0]] + DeleteQuestionMarks(s[1..])
  }

  /** The third step only leaves characters out. */
  lemma {:induction false} DeleteQuestionMarksIsSubsequence(s: string)
    ensures IsSubsequence(DeleteQuestionMarks(s), s)
  {
    if s != [] {
      DeleteQuestionMarksIsSubsequence(s[1..]);
      SubsequencePrepend(DeleteQuestionMarks(s[1..]), s[0], s[1..]);
    }
  }

  /** A character that no step of the sanitizer adds, changes or removes. */
  predicate IsPlain(c: char) {
    !IsDigit(c) && c != '.' && c != ' ' && c != '?' && c != '_'
  }

  /** `replaceSpacesDigitsAndQuestionMark(str)`: the result has no space and no question
      mark. */
  function Sanitize(s: string): (r: string)
    ensures ' ' !in r && '?' !in r
  {
    var r := DeleteQuestionMarks(DeleteDigitPeriodRuns(ReplaceSpaces(s)));
    SanitizeIsSubsequence(s);
    SubsequenceChars(r, ReplaceSpaces(s));
    r
  }

  /** The sanitized name is the space-replaced input with characters left out, in order. */
  lemma SanitizeIsSubsequence(s: string)
    ensures IsSubsequence(DeleteQuestionMarks(DeleteDigitPeriodRuns(ReplaceSpaces(s))), ReplaceSpaces(s))
  {
    var spaced := ReplaceSpaces(s);
    var undigited := DeleteDigitPeriodRuns(spaced);
    DeleteDigitPeriodRunsSpec(spaced);
    DeleteQuestionMarksIsSubsequence(undigited);
    SubsequenceTransitive(DeleteQuestionMarks(undigited), undigited, spaced);
  }

  /** Every plain character of the input survives the sanitizer, as often as it occurs. */
  lemma SanitizeKeepsPlainChars(s: string, c: char)
    requires IsPlain(c)
    ensures multiset(Sanitize(s))[c] == multiset(s)[c]
  {
    var spaced := ReplaceSpaces(s);
    CountUnderReplace(s, c);
    DeleteDigitPeriodRunsKeepsOtherChars(spaced, c);
    DeleteQuestionMarksKeepsOtherChars(DeleteDigitPeriodRuns(spaced), c);
  }

  /** The second step deletes only digits and periods. */
  lemma {:induction false} DeleteDigitPeriodRunsKeepsOtherChars(s: string, c: char)
    requires !IsDigit(c) && c != '.'
    ensures multiset(DeleteDigitPeriodRuns(s))[c] == multiset(s)[c]
    decreases |s|
  {
    if s != [] {
      if StartsWithMatch(s) {
        var m := DigitRun(s) + 1;
        DeleteDigitPeriodRunsKeepsOtherChars(s[m..], c);
        MultisetOfSplit(s, m);
        MatchHasOnlyDigitsAndPeriod(s, c);
      } else {
        DeleteDigitPeriodRunsKeepsOtherChars(s[1..], c);
        MultisetOfSplit(s, 1);
        assert s[..1] == [s[0]];
      }
    }
  }

  lemma MultisetOfSplit(s: string, m: int)
    requires 0 <= m <= |s|
    ensures multiset(s) == multiset(s[..m]) + multiset(s[m..])
  {
    assert s == s[..m] + s[m..];
  }

  lemma MatchHasOnlyDigitsAndPeriod(s: string, c: char)
    requires StartsWithMatch(s) && !IsDigit(c) && c != '.'
    ensures multiset(s[..DigitRun(s) + 1])[c] == 0
  {
    var m := DigitRun(s) + 1;
    forall i | 0 <= i < m
      ensures s[..m][i] != c
    {
      assert s[..m][i] == s[i];
    }
    assert c !in s[..m];
  }

  /** The third step deletes only question marks. */
  lemma {:induction false} DeleteQuestionMarksKeepsOtherChars(s: string, c: char)
    requires c != '?'
    ensures multiset(DeleteQuestionMarks(s))[c] == multiset(s)[c]
  {
    if s != [] {
      DeleteQuestionMarksKeepsOtherChars(s[1..], c);
      MultisetOfSplit(s, 1);
      assert s[..1] == [s[0]];
    }
  }

  // ---------------------------------------------------------------------------
  // Helpers

  lemma ConsKeepsClean(c: char, rest: string)
    requires NoDigitBeforePeriod(rest)
    requires rest != [] ==> rest[0] != '.' || !IsDigit(c)
    ensures NoDigitBeforePeriod([c] + rest)
  {
    var r := [c] + rest;
    forall i | 1 <= i < |r|
      ensures !DigitBeforePeriodAt(r, i)
    {
      assert r[i] == rest[i - 1];
      assert !DigitBeforePeriodAt(rest, i - 1);
    }
  }

  /** A character that does not start a match, and is a digit followed by more text,
      is followed by a character that does not start one either and is not a period. */
  lemma NoMatchContinues(s: string)
    requires |s| > 1 && IsDigit(s[0]) && !StartsWithMatch(s)
    ensures !StartsWithMatch(s[1..]) && s[1] != '.'
  {
    assert DigitRun(s) == 1 + DigitRun(s[1..]);
  }

  lemma {:induction false} SubsequencePrepend(r: string, c: char, s: string)
    requires IsSubsequence(r, s)
    ensures IsSubsequence(r, [c] + s)
    decreases |s|, 1
  {
    assert ([c] + s)[1..] == s;
    if r != [] && r[0] == c {
      SubsequenceDropFirst(r, s);
    }
  }

  lemma {:induction false} SubsequenceDropFirst(r: string, s: string)
    requires r != [] && IsSubsequence(r, s)
    ensures IsSubsequence(r[1..], s)
    decreases |s|, 0
  {
    if r[0] == s[0] {
      SubsequencePrepend(r[1..], s[0], s[1..]);
    } else {
      SubsequenceDropFirst(r, s[1..]);
      SubsequencePrepend(r[1..], s[0], s[1..]);
    }
    assert s == [s[0]] + s[1..];
  }

  lemma {:induction false} SubsequenceOfSuffix(r: string, s: string, k: nat)
    requires k <= |s| && IsSubsequence(r, s[k..])
    ensures IsSubsequence(r, s)
    decreases k
  {
    if k > 0 {
      assert s[k - 1..] == [s[k - 1]] + s[k..];
      SubsequencePrepend(r, s[k - 1], s[k..]);
      SubsequenceOfSuffix(r, s, k - 1);
    }
  }

  lemma {:induction false} SubsequenceTransitive(a: string, b: string, c: string)
    requires IsSubsequence(a, b) && IsSubsequence(b, c)
    ensures IsSubsequence(a, c)
    decreases |c|
  {
    if a == [] {
    } else if b[0] == c[0] {
      if a[0] == b[0] {
        SubsequenceTransitive(a[1..], b[1..], c[1..]);
      } else {
        SubsequenceTransitive(a, b[1..], c[1..]);
      }
    } else {
      SubsequenceTransitive(a, b, c[1..]);
      if a[0] == c[0] {
        SubsequenceDropFirst(a, c[1..]);
      }
    }
  }

  lemma {:induction false} SubsequenceChars(r: string, s: string)
    requires IsSubsequence(r, s)
    ensures forall c :: c in r ==> c in s
    decreases |s|
  {
    if r != [] {
      if r[0] == s[0] {
        SubsequenceChars(r[1..], s[1..]);
        assert r == [r[0]] + r[1..];
      } else {
        SubsequenceChars(r, s[1..]);
      }
      assert s == [s[0]] + s[1..];
    }
  }

  lemma {:induction false} CountUnderReplace(s: string, c: char)
    requires c != ' ' && c != '_'
    ensures multiset(ReplaceSpaces(s))[c] == multiset(s)[c]
  {
    if s != [] {
      CountUnderReplace(s[1..], c);
      MultisetOfSplit(s, 1);
      assert s[..1] == [s[0]];
    }
  }

  // ---------------------------------------------------------------------------
  // Properties

  /** Text with no digit-then-period match passes the second step unchanged. */
  lemma {:induction false} DeleteDigitPeriodRunsKeepsCleanText(s: string)
    requires NoDigitBeforePeriod(s)
    ensures DeleteDigitPeriodRuns(s) == s
    decreases |s|
  {
    if s != [] {
      var n := DigitRun(s);
      assert 0 < n < |s| ==> !DigitBeforePeriodAt(s, n - 1);
      forall i | 0 <= i < |s[1..]|
        ensures !DigitBeforePeriodAt(s[1..], i)
      {
        assert !DigitBeforePeriodAt(s, i + 1);
      }
      DeleteDigitPeriodRunsKeepsCleanText(s[1..]);
      assert s == [s[0]] + s[1..];
    }
  }

  /** The second step alone is idempotent: deleting the runs leaves none behind. */
  lemma DeleteDigitPeriodRunsIdempotent(s: string)
    ensures DeleteDigitPeriodRuns(DeleteDigitPeriodRuns(s)) == DeleteDigitPeriodRuns(s)
  {
    DeleteDigitPeriodRunsSpec(s);
    DeleteDigitPeriodRunsKeepsCleanText(DeleteDigitPeriodRuns(s));
  }

  // ---------------------------------------------------------------------------
  // The second step, characterised by the matches it deletes

  /** `m` is one match of `\d+\.`: one or more digits, then a period. */
  predicate IsDigitPeriodMatch(m: string) {
    |m| >= 2 && m[|m| - 1] == '.' && forall i :: 0 <= i < |m| - 1 ==> IsDigit(m[i])
  }

  /** No match starts inside `k` when a match follows `k` directly: `k` holds no digit
      before a period, and it does not end with a digit (which would start the match
      earlier, inside `k`). */
  predicate NoMatchBefore(k: string) {
    NoDigitBeforePeriod(k) && (k == [] || !IsDigit(k[|k| - 1]))
  }

  /** `k0 + m0 + k1 + m1 + ... + kn`. */
  function Interleave(keeps: seq<string>, matches: seq<string>): string
    requires |keeps| == |matches| + 1
  {
    if matches == [] then keeps[0]
    else keeps[0] + matches[0] + Interleave(keeps[1..], matches[1..])
  }

  /** `k0 + k1 + ... + kn`. */
  function Concat(keeps: seq<string>): string
  {
    if keeps == [] then [] else keeps[0] + Concat(keeps[1..])
  }

  /** `s` is cut into kept texts and, between them, the matches of `\d+\.` that a global
      replacement finds scanning from the left: each match is the leftmost one after the
      previous match, it takes all the digits in front of its period, and no match is
      left in the text after the last one. */
  predicate IsMatchCut(keeps: seq<string>, matches: seq<string>, s: string) {
    |keeps| == |matches| + 1 && Interleave(keeps, matches) == s &&
    (forall i :: 0 <= i < |matches| ==> IsDigitPeriodMatch(matches[i]) && NoMatchBefore(keeps[i])) &&
    NoDigitBeforePeriod(keeps[|keeps| - 1])
  }

  /** `r` is the kept text of some cut of `s` into kept text and leftmost matches. */
  ghost predicate KeepsOfSomeCut(s: string, r: string) {
    exists keeps, matches {:trigger IsMatchCut(keeps, matches, s)} ::
      IsMatchCut(keeps, matches, s) && Concat(keeps) == r
  }

  /** The second step deletes exactly the matches of a cut of `s`: what it leaves is the
      kept text of that cut. */
  lemma {:induction false} DeleteDigitPeriodRunsCutsMatches(s: string)
    ensures KeepsOfSomeCut(s, DeleteDigitPeriodRuns(s))
    decreases |s|
  {
    if s == [] {
      CutWitness([[]], [], s, DeleteDigitPeriodRuns(s));
    } else if StartsWithMatch(s) {
      var t := s[DigitRun(s) + 1..];
      DeleteDigitPeriodRunsCutsMatches(t);
      var keeps, matches :| IsMatchCut(keeps, matches, t) && Concat(keeps) == DeleteDigitPeriodRuns(t);
      CutAfterMatch(s, keeps, matches);
      CutWitness([""] + keeps, [s[..DigitRun(s) + 1]] + matches, s, DeleteDigitPeriodRuns(s));
    } else {
      DeleteDigitPeriodRunsCutsMatches(s[1..]);
      var keeps, matches :| IsMatchCut(keeps, matches, s[1..]) &&
        Concat(keeps) == DeleteDigitPeriodRuns(s[1..]);
      CutAfterChar(s, keeps, matches);
      CutWitness([[s[0]] + keeps[0]] + keeps[1..], matches, s, DeleteDigitPeriodRuns(s));
    }
  }

  /** A leading match followed by a cut of the rest: a cut of the whole. */
  lemma CutAfterMatch(s: string, keeps: seq<string>, matches: seq<string>)
    requires StartsWithMatch(s)
    requires IsMatchCut(keeps, matches, s[DigitRun(s) + 1..])
    requires Concat(keeps) == DeleteDigitPeriodRuns(s[DigitRun(s) + 1..])
    ensures IsMatchCut([""] + keeps, [s[..DigitRun(s) + 1]] + matches, s)
    ensures Concat([""] + keeps) == DeleteDigitPeriodRuns(s)
  {
    LeadingMatch(s);
    PrependMatch(s[..DigitRun(s) + 1], keeps, matches, s[DigitRun(s) + 1..]);
  }

  /** The match a text starts with, and what the second step does with it. */
  lemma LeadingMatch(s: string)
    requires StartsWithMatch(s)
    ensures var n := DigitRun(s);
      IsDigitPeriodMatch(s[..n + 1]) && s == s[..n + 1] + s[n + 1..] &&
      DeleteDigitPeriodRuns(s) == DeleteDigitPeriodRuns(s[n + 1..])
  {
    var n := DigitRun(s);
    var m := s[..n + 1];
    assert s == m + s[n + 1..];
    forall i | 0 <= i < |m| - 1
      ensures IsDigit(m[i])
    {
      assert m[i] == s[i];
    }
  }

  /** A leading character that starts no match, followed by a cut of the rest: a cut of
      the whole. */
  lemma CutAfterChar(s: string, keeps: seq<string>, matches: seq<string>)
    requires s != [] && !StartsWithMatch(s)
    requires IsMatchCut(keeps, matches, s[1..]) && Concat(keeps) == DeleteDigitPeriodRuns(s[1..])
    ensures var ks := [[s[0]] + keeps[0]] + keeps[1..];
      IsMatchCut(ks, matches, s) && Concat(ks) == DeleteDigitPeriodRuns(s)
  {
    assert s == [s[0]] + s[1..];
    PrependChar(s[0], keeps, matches, s[1..]);
    KeepFirst(s);
  }

  lemma CutWitness(keeps: seq<string>, matches: seq<string>, s: string, r: string)
    requires IsMatchCut(keeps, matches, s) && Concat(keeps) == r
    ensures KeepsOfSomeCut(s, r)
  {
  }

  /** Any cut of `s` into kept text and leftmost matches has as its kept text what the
      second step leaves: together with the lemma above, the result of the step is
      characterised independently of how it is computed. */
  lemma {:induction false} MatchCutDeletes(keeps: seq<string>, matches: seq<string>, s: string)
    requires IsMatchCut(keeps, matches, s)
    ensures DeleteDigitPeriodRuns(s) == Concat(keeps)
    decreases |matches|
  {
    if matches == [] {
      DeleteDigitPeriodRunsKeepsCleanText(s);
      assert Concat(keeps[1..]) == [];
    } else {
      var t := Interleave(keeps[1..], matches[1..]);
      DropFirstMatch(keeps, matches, s);
      MatchCutDeletes(keeps[1..], matches[1..], t);
      assert s == keeps[0] + (matches[0] + t);
      DeleteKeepsCleanPrefix(keeps[0], matches[0] + t);
      DeleteLeadingMatch(matches[0], t);
    }
  }

  /** The cut without its first kept text and first match is a cut of what follows them. */
  lemma DropFirstMatch(keeps: seq<string>, matches: seq<string>, s: string)
    requires IsMatchCut(keeps, matches, s) && matches != []
    ensures IsMatchCut(keeps[1..], matches[1..], Interleave(keeps[1..], matches[1..]))
  {
    forall i | 0 <= i < |matches| - 1
      ensures IsDigitPeriodMatch(matches[1..][i]) && NoMatchBefore(keeps[1..][i])
    {
      assert matches[1..][i] == matches[i + 1] && keeps[1..][i] == keeps[i + 1];
    }
    assert keeps[1..][|keeps| - 2] == keeps[|keeps| - 1];
  }

  /** A match followed by more text starts a match that ends at its period. */
  lemma MatchStarts(m: string, t: string)
    requires IsDigitPeriodMatch(m)
    ensures StartsWithMatch(m + t) && DigitRun(m + t) == |m| - 1
  {
    var x := m + t;
    assert x == m[..|m| - 1] + ([m[|m| - 1]] + t);
    DigitRunOfDigits(m[..|m| - 1], [m[|m| - 1]] + t);
  }

  /** No match starts at the front of a non-empty text that no match starts in. */
  lemma {:induction false} NoMatchAtCleanStart(k: string, t: string)
    requires k != [] && NoMatchBefore(k)
    ensures !StartsWithMatch(k + t)
    decreases |k|
  {
    var x := k + t;
    if IsDigit(k[0]) {
      assert !DigitBeforePeriodAt(k, 0);
      assert x[1..] == k[1..] + t;
      assert DigitRun(x) == 1 + DigitRun(x[1..]);
      if IsDigit(k[1]) {
        NoMatchBeforeRest(k);
        NoMatchAtCleanStart(k[1..], t);
      }
    }
  }

  lemma NoMatchBeforeRest(k: string)
    requires k != [] && NoMatchBefore(k)
    ensures NoMatchBefore(k[1..])
  {
    forall i | 0 <= i < |k| - 1
      ensures !DigitBeforePeriodAt(k[1..], i)
    {
      assert !DigitBeforePeriodAt(k, i + 1);
    }
  }

  /** Text that no match starts in stays in front of whatever follows it. */
  lemma {:induction false} DeleteKeepsCleanPrefix(k: string, u: string)
    requires NoMatchBefore(k)
    ensures DeleteDigitPeriodRuns(k + u) == k + DeleteDigitPeriodRuns(u)
    decreases |k|
  {
    if k != [] {
      KeepCleanFirst(k, u);
      DeleteKeepsCleanPrefix(k[1..], u);
      ConsAppend(k, DeleteDigitPeriodRuns(u));
    } else {
      assert k + u == u;
    }
  }

  lemma ConsAppend(k: string, d: string)
    requires k != []
    ensures k + d == [k[0]] + (k[1..] + d)
  {
    assert k == [k[0]] + k[1..];
  }

  lemma KeepCleanFirst(k: string, u: string)
    requires k != [] && NoMatchBefore(k)
    ensures DeleteDigitPeriodRuns(k + u) == [k[0]] + DeleteDigitPeriodRuns(k[1..] + u)
    ensures NoMatchBefore(k[1..])
  {
    var x := k + u;
    NoMatchAtCleanStart(k, u);
    KeepFirst(x);
    assert x[1..] == k[1..] + u;
    NoMatchBeforeRest(k);
  }

  /** A match at the front is deleted. */
  lemma DeleteLeadingMatch(m: string, t: string)
    requires IsDigitPeriodMatch(m)
    ensures DeleteDigitPeriodRuns(m + t) == DeleteDigitPeriodRuns(t)
  {
    MatchStarts(m, t);
    assert (m + t)[|m|..] == t;
  }

  /** A match in front of a cut gives a cut with an empty first kept text. */
  lemma PrependMatch(m: string, keeps: seq<string>, matches: seq<string>, t: string)
    requires IsDigitPeriodMatch(m) && IsMatchCut(keeps, matches, t)
    ensures IsMatchCut([""] + keeps, [m] + matches, m + t) && Concat([""] + keeps) == Concat(keeps)
  {
    var ks := [""] + keeps;
    var ms := [m] + matches;
    assert ks[1..] == keeps && ms[1..] == matches;
    forall i | 0 <= i < |ms|
      ensures IsDigitPeriodMatch(ms[i]) && NoMatchBefore(ks[i])
    {
      if i > 0 {
        assert ms[i] == matches[i - 1] && ks[i] == keeps[i - 1];
      }
    }
    assert ks[|ks| - 1] == keeps[|keeps| - 1];
  }

  /** A character that starts no match, in front of a cut, joins its first kept text. */
  lemma PrependChar(c: char, keeps: seq<string>, matches: seq<string>, t: string)
    requires IsMatchCut(keeps, matches, t) && !StartsWithMatch([c] + t)
    ensures var ks := [[c] + keeps[0]] + keeps[1..];
      IsMatchCut(ks, matches, [c] + t) && Concat(ks) == [c] + Concat(keeps)
  {
    var k := [c] + keeps[0];
    var ks := [k] + keeps[1..];
    assert ks[1..] == keeps[1..];
    InterleaveConsChar(c, keeps, matches);
    assert IsDigit(c) && t != [] ==> t[0] != '.' by {
      if IsDigit(c) && t != [] {
        NoMatchContinues([c] + t);
      }
    }
    if keeps[0] != [] {
      assert t[0] == keeps[0][0] by {
        InterleaveFirst(keeps, matches);
      }
    }
    ConsKeepsClean(c, keeps[0]);
    if matches != [] {
      assert NoMatchBefore(k) by {
        if keeps[0] == [] && IsDigit(c) {
          InterleaveFirst(keeps, matches);
          assert t == matches[0] + Interleave(keeps[1..], matches[1..]);
          MatchStarts(matches[0], Interleave(keeps[1..], matches[1..]));
          assert ([c] + t)[1..] == t;
          NoMatchContinues([c] + t);
          assert false;
        }
      }
    }
    forall i | 0 <= i < |matches|
      ensures IsDigitPeriodMatch(matches[i]) && NoMatchBefore(ks[i])
    {
      if i > 0 {
        assert ks[i] == keeps[i];
      }
    }
    if |ks| > 1 {
      assert ks[|ks| - 1] == keeps[|keeps| - 1];
    }
  }

  /** The cut text starts with its first kept text, followed by the first match if any. */
  lemma InterleaveFirst(keeps: seq<string>, matches: seq<string>)
    requires |keeps| == |matches| + 1
    ensures matches == [] ==> Interleave(keeps, matches) == keeps[0]
    ensures matches != [] ==>
      Interleave(keeps, matches) == keeps[0] + (matches[0] + Interleave(keeps[1..], matches[1..]))
  {
  }

  lemma InterleaveConsChar(c: char, keeps: seq<string>, matches: seq<string>)
    requires |keeps| == |matches| + 1
    ensures Interleave([[c] + keeps[0]] + keeps[1..], matches) == [c] + Interleave(keeps, matches)
    ensures Concat([[c] + keeps[0]] + keeps[1..]) == [c] + Concat(keeps)
  {
    var ks := [[c] + keeps[0]] + keeps[1..];
    assert ks[1..] == keeps[1..];
  }

  /** Each replacement works character by character, so it distributes over concatenation. */
  lemma {:induction false} ReplaceSpacesAppend(a: string, b: string)
    ensures ReplaceSpaces(a + b) == ReplaceSpaces(a) + ReplaceSpaces(b)
  {
    if a != [] {
      assert (a + b)[1..] == a[1..] + b;
      ReplaceSpacesAppend(a[1..], b);
    }
  }

  lemma {:induction false} DeleteQuestionMarksAppend(a: string, b: string)
    ensures DeleteQuestionMarks(a + b) == DeleteQuestionMarks(a) + DeleteQuestionMarks(b)
  {
    if a != [] {
      var ab := a + b;
      assert ab[0] == a[0] && ab[1..] == a[1..] + b;
      DeleteQuestionMarksAppend(a[1..], b);
      var rest := DeleteQuestionMarks(a[1..]) + DeleteQuestionMarks(b);
      assert DeleteQuestionMarks(ab) == if a[0] == '?' then rest else [a[0]] + rest;
      assert DeleteQuestionMarks(a) ==
        if a[0] == '?' then DeleteQuestionMarks(a[1..]) else [a[0]] + DeleteQuestionMarks(a[1..]);
    } else {
      assert a + b == b;
    }
  }

  /** A first character that does not start a match is kept by the second step. */
  lemma KeepFirst(s: string)
    requires s != [] && !StartsWithMatch(s)
    ensures DeleteDigitPeriodRuns(s) == [s[0]] + DeleteDigitPeriodRuns(s[1..])
  {
  }

  lemma ReplaceSpacesOrdinal(digits: string, title: string)
    requires forall i :: 0 <= i < |digits| ==> IsDigit(digits[i])
    ensures ReplaceSpaces(digits + ". " + title) == digits + "._" + ReplaceSpaces(title)
  {
    ReplaceSpacesAppend(digits + ". ", title);
    ReplaceSpacesAppend(digits, ". ");
    assert ReplaceSpaces(digits) == digits by {
      assert ' ' !in digits by {
        forall i | 0 <= i < |digits|
          ensures digits[i] != ' '
        {
          assert IsDigit(digits[i]);
        }
      }
      ReplaceSpacesKeepsSpaceless(digits);
    }
    assert ReplaceSpaces(". ") == "._";
  }

  lemma {:induction false} ReplaceSpacesKeepsSpaceless(s: string)
    requires ' ' !in s
    ensures ReplaceSpaces(s) == s
  {
    if s != [] {
      assert s[0] != ' ';
      assert ' ' !in s[1..];
      ReplaceSpacesKeepsSpaceless(s[1..]);
      assert s == [s[0]] + s[1..];
    }
  }

  lemma DeleteOrdinal(digits: string, rest: string)
    requires digits != [] && forall i :: 0 <= i < |digits| ==> IsDigit(digits[i])
    ensures DeleteDigitPeriodRuns(digits + "._" + rest) == "_" + DeleteDigitPeriodRuns(rest)
  {
    var s := digits + "._" + rest;
    assert s == digits + ("._" + rest);
    DigitRunOfDigits(digits, "._" + rest);
    assert s[|digits|] == '.';
    assert StartsWithMatch(s);
    var after := s[|digits| + 1..];
    assert after == "_" + rest;
    assert DigitRun(after) == 0;
    KeepFirst(after);
    assert after[1..] == rest;
  }

  /** A leading ordinal `N. ` becomes a single leading underscore: the space turns into
      `_` before the digits and the period are deleted. */
  lemma SanitizeOrdinalPrefix(digits: string, title: string)
    requires digits != [] && forall i :: 0 <= i < |digits| ==> IsDigit(digits[i])
    ensures Sanitize(digits + ". " + title) == "_" + Sanitize(title)
  {
    var rt := ReplaceSpaces(title);
    ReplaceSpacesOrdinal(digits, title);
    DeleteOrdinal(digits, rt);
    DeleteQuestionMarksAppend("_", DeleteDigitPeriodRuns(rt));
    assert DeleteQuestionMarks("_") == "_";
  }

  lemma {:induction false} DigitRunOfDigits(digits: string, rest: string)
    requires forall i :: 0 <= i < |digits| ==> IsDigit(digits[i])
    requires rest == [] || !IsDigit(rest[0])
    ensures DigitRun(digits + rest) == |digits|
  {
    if digits != [] {
      assert (digits + rest)[1..] == digits[1..] + rest;
      DigitRunOfDigits(digits[1..], rest);
    }
  }

  /** Text without digits loses no character to the second step. */
  lemma SanitizeDigitFree(w: string)
    requires forall c :: c in w ==> !IsDigit(c)
    ensures Sanitize(w) == DeleteQuestionMarks(ReplaceSpaces(w))
  {
    var spaced := ReplaceSpaces(w);
    forall i | 0 <= i < |spaced|
      ensures !DigitBeforePeriodAt(spaced, i)
    {
      assert w[i] in w;
    }
    DeleteDigitPeriodRunsKeepsCleanText(spaced);
  }

  lemma {:induction false} DeleteQuestionMarksKeepsPlainText(s: string)
    requires '?' !in s
    ensures DeleteQuestionMarks(s) == s
  {
    if s != [] {
      assert s[0] != '?' && '?' !in s[1..];
      DeleteQuestionMarksKeepsPlainText(s[1..]);
      assert s == [s[0]] + s[1..];
    }
  }

  lemma ReplaceSpacesInWords(w1: string, w2: string, w3: string)
    requires ' ' !in w1 && ' ' !in w2 && ' ' !in w3
    ensures ReplaceSpaces(w1 + " " + w2 + " " + w3) == w1 + "_" + w2 + "_" + w3
  {
    ReplaceSpacesAppend(w1 + " " + w2 + " ", w3);
    ReplaceSpacesAppend(w1 + " " + w2, " ");
    ReplaceSpacesAppend(w1 + " ", w2);
    ReplaceSpacesAppend(w1, " ");
    ReplaceSpacesKeepsSpaceless(w1);
    ReplaceSpacesKeepsSpaceless(w2);
    ReplaceSpacesKeepsSpaceless(w3);
    assert ReplaceSpaces(" ") == "_";
  }

  /** Words without digits or question marks, followed by a question mark, come out
      with their spaces replaced and the question mark gone. */
  lemma SanitizeQuestion(words: string)
    requires forall c :: c in words ==> !IsDigit(c) && c != '?'
    ensures Sanitize(words + "?") == ReplaceSpaces(words)
  {
    var w := words + "?";
    assert forall c :: c in w ==> !IsDigit(c) by {
      assert forall c :: c in w ==> c in words || c == '?';
    }
    SanitizeDigitFree(w);
    ReplaceSpacesAppend(words, "?");
    assert ReplaceSpaces("?") == "?";
    var spaced := ReplaceSpaces(words);
    DeleteQuestionMarksAppend(spaced, "?");
    assert '?' !in spaced by {
      forall i | 0 <= i < |spaced|
        ensures spaced[i] != '?'
      {
        assert words[i] in words;
      }
    }
    DeleteQuestionMarksKeepsPlainText(spaced);
    assert DeleteQuestionMarks("?") == "";
  }

  /** A numbered question title `N. words?` becomes `_` followed by the words with
      their spaces replaced. */
  lemma SanitizeNumberedQuestion(n: string, words: string)
    requires n != [] && forall i :: 0 <= i < |n| ==> IsDigit(n[i])
    requires forall c :: c in words ==> !IsDigit(c) && c != '?'
    ensures Sanitize(n + ". " + words + "?") == "_" + ReplaceSpaces(words)
  {
    assert n + ". " + words + "?" == n + ". " + (words + "?");
    SanitizeOrdinalPrefix(n, words + "?");
    SanitizeQuestion(words);
  }

  /** An example title, `3. What is Rust?`, becomes `_What_is_Rust`: the space after the
      ordinal survives as a leading `_`. The title is assembled from its parts, because
      a postcondition applying `Sanitize` to the whole literal makes the verifier
      evaluate it step by step. */
  lemma SanitizeOrdinalTitle(n: string, w1: string, w2: string, w3: string)
    requires n == "3" && w1 == "What" && w2 == "is" && w3 == "Rust"
    ensures Sanitize(n + ". " + w1 + " " + w2 + " " + w3 + "?") == "_" + w1 + "_" + w2 + "_" + w3
  {
    var words := w1 + " " + w2 + " " + w3;
    ExampleWordsArePlain(w1, w2, w3);
    ReplaceSpacesInWords(w1, w2, w3);
    assert n + ". " + w1 + " " + w2 + " " + w3 + "?" == n + ". " + words + "?";
    SanitizeNumberedQuestion(n, words);
  }

  lemma ExampleWordsArePlain(w1: string, w2: string, w3: string)
    requires w1 == "What" && w2 == "is" && w3 == "Rust"
    ensures ' ' !in w1 && ' ' !in w2 && ' ' !in w3
    ensures forall c :: c in w1 + " " + w2 + " " + w3 ==> !IsDigit(c) && c != '?'
  {
    assert forall c :: c in w1 + " " + w2 + " " + w3 ==> c in "What is Rust";
  }

  /** A cut worked out: in `x.1.` the period after `x` follows no digit, so only `1.` goes. */
  lemma PeriodAfterLetterExample()
    ensures DeleteDigitPeriodRuns("x.1.") == "x."
  {
    assert Interleave(["x.", ""], ["1."]) == "x.1.";
    assert NoMatchBefore("x.");
    MatchCutDeletes(["x.", ""], ["1."], "x.1.");
  }

  /** A cut worked out: in `1.2` the `2` follows the match and stays. */
  lemma TextAfterMatchExample()
    ensures DeleteDigitPeriodRuns("1.2") == "2"
  {
    assert Interleave(["", "2"], ["1."]) == "1.2";
    MatchCutDeletes(["", "2"], ["1."], "1.2");
  }

  lemma QuestionMarkExample()
    ensures DeleteQuestionMarks("1?.") == "1."
  {
  }

  lemma PeriodExample()
    ensures DeleteDigitPeriodRuns("1.") == ""
  {
    assert StartsWithMatch("1.");
  }

  /** The whole chain is not idempotent: the question mark is removed after the digit
      runs, so it can leave a new digit-then-period pair behind. */
  lemma SanitizeNotIdempotent()
    ensures Sanitize("1?.") == "1."
    ensures Sanitize(Sanitize("1?.")) == ""
  {
    assert ReplaceSpaces("1?.") == "1?.";
    DeleteDigitPeriodRunsKeepsCleanText("1?.");
    QuestionMarkExample();
    assert ReplaceSpaces("1.") == "1.";
    PeriodExample();
  }
}
