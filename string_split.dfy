/**
  The semantics of JavaScript's `String.prototype.split` and `Array.prototype.join`
  for a non-empty literal separator: occurrences of the separator are matched from
  left to right without overlapping, and the pieces between them are returned in order.
*/
module StringSplit {

  /** `sep` occurs in `s` starting at index `k`. */
  predicate OccursAt(s: string, sep: string, k: int) {
    0 <= k && k + |sep| <= |s| && s[k..k + |sep|] == sep
  }

  /** `sep` occurs somewhere in `s`. */
  predicate Contains(s: string, sep: string) {
    exists k :: 0 <= k <= |s| - |sep| && OccursAt(s, sep, k)
  }

  /** `s.split(sep)`: never empty; `"".split(sep)` is `[""]`. */
  function Split(s: string, sep: string): (r: seq<string>)
    requires |sep| > 0
    ensures |r| >= 1
    decreases |s|
  {
    if |s| < |sep| then [s]
    else if s[..|sep|] == sep then [""] + Split(s[|sep|..], sep)
    else
      var rest := Split(s[1..], sep);
      [[s[0]] + rest[0]] + rest[1..]
  }

  /** `ps.join(sep)`. */
  function Join(ps: seq<string>, sep: string): string
  {
    if |ps| == 0 then ""
    else if |ps| == 1 then ps[0]
    else ps[0] + sep + Join(ps[1..], sep)
  }

  /** Number of occurrences of `sep` in `s`, counted left to right without overlap. */
  function Occurrences(s: string, sep: string): nat
    requires |sep| > 0
    decreases |s|
  {
    if |s| < |sep| then 0
    else if s[..|sep|] == sep then 1 + Occurrences(s[|sep|..], sep)
    else Occurrences(s[1..], sep)
  }

  /** In `p + sep`, the leftmost occurrence of `sep` is the appended one:
      a piece followed by a separator ends exactly where the leftmost match begins. */
  predicate EndsAtFirstMatch(p: string, sep: string) {
    forall k :: 0 <= k < |p| ==> !OccursAt(p + sep, sep, k)
  }

  /** `ps` cuts `s` at the left-to-right, non-overlapping occurrences of `sep`:
      joining gives `s` back, every piece but the last stops at the leftmost match,
      and the last piece holds no match at all. */
  predicate IsSplitOf(ps: seq<string>, s: string, sep: string) {
    |ps| >= 1 && Join(ps, sep) == s &&
    (forall i :: 0 <= i < |ps| - 1 ==> EndsAtFirstMatch(ps[i], sep)) &&
    !Contains(ps[|ps| - 1], sep)
  }

  // ---------------------------------------------------------------------------
  // Helpers about occurrences under shifting

  lemma ShiftedOccurrence(c: char, q: string, sep: string, k: int)
    requires 1 <= k
    ensures OccursAt([c] + q, sep, k) <==> OccursAt(q, sep, k - 1)
  {
    if k + |sep| <= |[c] + q| {
      assert ([c] + q)[k..k + |sep|] == q[k - 1..k - 1 + |sep|];
    }
  }

  lemma PieceHasNoMatch(p: string, sep: string)
    requires |sep| > 0 && EndsAtFirstMatch(p, sep)
    ensures !Contains(p, sep)
  {
    forall k | 0 <= k <= |p| - |sep| && OccursAt(p, sep, k)
      ensures false
    {
      assert (p + sep)[k..k + |sep|] == p[k..k + |sep|];
      assert OccursAt(p + sep, sep, k);
    }
  }

  lemma JoinConsFirst(c: char, ps: seq<string>, sep: string)
    requires |ps| >= 1
    ensures Join([[c] + ps[0]] + ps[1..], sep) == [c] + Join(ps, sep)
  {
    var qs := [[c] + ps[0]] + ps[1..];
    if |ps| > 1 {
      assert qs[1..] == ps[1..];
    }
  }

  lemma {:induction false} NoMatchSplit(s: string, sep: string)
    requires |sep| > 0 && !Contains(s, sep)
    ensures Split(s, sep) == [s]
    decreases |s|
  {
    if |s| >= |sep| {
      assert !OccursAt(s, sep, 0);
      assert s == [s[0]] + s[1..];
      if Contains(s[1..], sep) {
        var k :| 0 <= k <= |s[1..]| - |sep| && OccursAt(s[1..], sep, k);
        ShiftedOccurrence(s[0], s[1..], sep, k + 1);
        assert false;
      }
      NoMatchSplit(s[1..], sep);
    }
  }

  // ---------------------------------------------------------------------------
  // Split produces the left-to-right split, and it is the only one

  /** `Split` cuts at the leftmost non-overlapping occurrences. */
  lemma SplitIsSplitOf(s: string, sep: string)
    requires |sep| > 0
    ensures IsSplitOf(Split(s, sep), s, sep)
  {
    JoinSplit(s, sep);
    SplitPiecesStopAtFirstMatch(s, sep);
    SplitLastPieceIsFree(s, sep);
  }

  /** Joining the pieces with the separator gives the string back exactly. */
  lemma {:induction false} JoinSplit(s: string, sep: string)
    requires |sep| > 0
    ensures Join(Split(s, sep), sep) == s
    decreases |s|
  {
    if |s| < |sep| {
    } else if s[..|sep|] == sep {
      var rest := Split(s[|sep|..], sep);
      JoinSplit(s[|sep|..], sep);
      JoinEmptyFirst(rest, sep);
      assert s == sep + s[|sep|..];
    } else {
      JoinSplit(s[1..], sep);
      JoinConsFirst(s[0], Split(s[1..], sep), sep);
      assert s == [s[0]] + s[1..];
    }
  }

  lemma JoinEmptyFirst(ps: seq<string>, sep: string)
    requires |ps| >= 1
    ensures Join([""] + ps, sep) == sep + Join(ps, sep)
  {
    assert ([""] + ps)[1..] == ps;
  }

  /** Every piece but the last stops at the leftmost match after it. */
  lemma {:induction false} SplitPiecesStopAtFirstMatch(s: string, sep: string)
    requires |sep| > 0
    ensures forall i :: 0 <= i < |Split(s, sep)| - 1 ==> EndsAtFirstMatch(Split(s, sep)[i], sep)
    decreases |s|
  {
    var r := Split(s, sep);
    if |s| < |sep| {
    } else if s[..|sep|] == sep {
      var rest := Split(s[|sep|..], sep);
      SplitPiecesStopAtFirstMatch(s[|sep|..], sep);
      assert r == [""] + rest;
      forall i | 0 <= i < |r| - 1
        ensures EndsAtFirstMatch(r[i], sep)
      {
        if i > 0 {
          assert r[i] == rest[i - 1];
        }
      }
    } else {
      var rest := Split(s[1..], sep);
      SplitPiecesStopAtFirstMatch(s[1..], sep);
      if |rest| > 1 {
        var first := [s[0]] + rest[0];
        JoinSplit(s[1..], sep);
        FirstPieceAfterChar(s, rest, sep);
        assert r == [first] + rest[1..];
        forall i | 0 <= i < |r| - 1
          ensures EndsAtFirstMatch(r[i], sep)
        {
          if i > 0 {
            assert r[i] == rest[i];
          }
        }
      }
    }
  }

  /** The first piece, with the character in front of it, still stops at the leftmost
      match when no match starts at that character. */
  lemma FirstPieceAfterChar(s: string, rest: seq<string>, sep: string)
    requires |sep| > 0 && |s| >= |sep| && s[..|sep|] != sep
    requires |rest| > 1 && Join(rest, sep) == s[1..] && EndsAtFirstMatch(rest[0], sep)
    ensures EndsAtFirstMatch([s[0]] + rest[0], sep)
  {
    var first := [s[0]] + rest[0];
    assert s == first + sep + Join(rest[1..], sep);
    assert (first + sep)[..|sep|] == s[..|sep|];
    ConsEndsAtFirstMatch(s[0], rest[0], sep);
  }

  /** The last piece holds no match. */
  lemma {:induction false} SplitLastPieceIsFree(s: string, sep: string)
    requires |sep| > 0
    ensures var r := Split(s, sep); !Contains(r[|r| - 1], sep)
    decreases |s|
  {
    if |s| < |sep| {
    } else if s[..|sep|] == sep {
      SplitLastPieceIsFree(s[|sep|..], sep);
    } else {
      var rest := Split(s[1..], sep);
      SplitLastPieceIsFree(s[1..], sep);
      if |rest| == 1 {
        JoinSplit(s[1..], sep);
        assert s == [s[0]] + rest[0];
        ConsNoMatch(s[0], rest[0], sep);
      }
    }
  }

  /** A piece that stops at the leftmost match still does after a character in front,
      when no match starts at that character. */
  lemma ConsEndsAtFirstMatch(c: char, p: string, sep: string)
    requires |sep| > 0 && EndsAtFirstMatch(p, sep) && !OccursAt([c] + p + sep, sep, 0)
    ensures EndsAtFirstMatch([c] + p, sep)
  {
    forall k | 0 <= k < |[c] + p|
      ensures !OccursAt([c] + p + sep, sep, k)
    {
      if k > 0 {
        assert [c] + p + sep == [c] + (p + sep);
        ShiftedOccurrence(c, p + sep, sep, k);
      }
    }
  }

  /** No match in `q` and none at the character in front: no match in `[c] + q`. */
  lemma ConsNoMatch(c: char, q: string, sep: string)
    requires !OccursAt([c] + q, sep, 0) && !Contains(q, sep)
    ensures !Contains([c] + q, sep)
  {
    forall k | 0 <= k <= |[c] + q| - |sep|
      ensures !OccursAt([c] + q, sep, k)
    {
      if k > 0 {
        ShiftedOccurrence(c, q, sep, k);
      }
    }
  }

  /** Any left-to-right split of `s` on `sep` is the one `Split` returns. */
  lemma {:induction false} SplitUnique(ps: seq<string>, s: string, sep: string)
    requires |sep| > 0 && IsSplitOf(ps, s, sep)
    ensures ps == Split(s, sep)
    decreases |s|
  {
    if |ps| == 1 {
      NoMatchSplit(s, sep);
    } else {
      var tail := ps[1..];
      assert s == ps[0] + sep + Join(tail, sep);
      if ps[0] == [] {
        DropEmptyPiece(ps, s, sep);
        SplitUnique(tail, s[|sep|..], sep);
        assert ps == [""] + tail;
      } else {
        var ps' := [ps[0][1..]] + tail;
        DropFirstChar(ps, s, sep);
        SplitUnique(ps', s[1..], sep);
        assert [s[0]] + ps'[0] == ps[0];
        assert ps'[1..] == tail;
        assert ps == [[s[0]] + ps'[0]] + ps'[1..];
      }
    }
  }

  /** A split starting with an empty piece starts with the separator, and the
      remaining pieces split what follows it. */
  lemma DropEmptyPiece(ps: seq<string>, s: string, sep: string)
    requires |sep| > 0 && IsSplitOf(ps, s, sep) && |ps| > 1 && ps[0] == []
    ensures |s| >= |sep| && s[..|sep|] == sep && IsSplitOf(ps[1..], s[|sep|..], sep)
  {
    var tail := ps[1..];
    assert s == sep + Join(tail, sep);
    assert s[|sep|..] == Join(tail, sep);
    forall i | 0 <= i < |tail| - 1
      ensures EndsAtFirstMatch(tail[i], sep)
    {
      assert tail[i] == ps[i + 1];
    }
  }

  /** A split starting with a non-empty piece does not start with the separator, and
      dropping the first character of that piece gives a split of the rest of `s`. */
  lemma DropFirstChar(ps: seq<string>, s: string, sep: string)
    requires |sep| > 0 && IsSplitOf(ps, s, sep) && |ps| > 1 && ps[0] != []
    ensures |s| >= |sep| && s[..|sep|] != sep && s[0] == ps[0][0]
    ensures IsSplitOf([ps[0][1..]] + ps[1..], s[1..], sep)
  {
    var p := ps[0];
    var tail := ps[1..];
    var p' := p[1..];
    var ps' := [p'] + tail;
    assert s == p + sep + Join(tail, sep);
    assert (p + sep)[..|sep|] == s[..|sep|];
    assert !OccursAt(p + sep, sep, 0);
    assert ps'[1..] == tail;
    assert s[1..] == p' + sep + Join(tail, sep);
    assert EndsAtFirstMatch(p', sep) by {
      forall k | 0 <= k < |p'|
        ensures !OccursAt(p' + sep, sep, k)
      {
        assert p + sep == [p[0]] + (p' + sep);
        ShiftedOccurrence(p[0], p' + sep, sep, k + 1);
      }
    }
    forall i | 0 <= i < |ps'| - 1
      ensures EndsAtFirstMatch(ps'[i], sep)
    {
      if i > 0 {
        assert ps'[i] == ps[i];
      }
    }
    assert ps'[|ps'| - 1] == ps[|ps| - 1];
  }

  /** No piece of a split contains the separator. */
  lemma SplitPiecesAreFree(s: string, sep: string)
    requires |sep| > 0
    ensures forall i :: 0 <= i < |Split(s, sep)| ==> !Contains(Split(s, sep)[i], sep)
  {
    var ps := Split(s, sep);
    SplitIsSplitOf(s, sep);
    forall i | 0 <= i < |ps| - 1
      ensures !Contains(ps[i], sep)
    {
      PieceHasNoMatch(ps[i], sep);
    }
  }

  /** The first piece is the text before the leftmost match (all of `s` when there is none). */
  lemma FirstPiece(s: string, sep: string)
    requires |sep| > 0
    ensures var p := Split(s, sep)[0];
      |p| <= |s| && p == s[..|p|] && !Contains(p, sep) &&
      (|p| < |s| ==> OccursAt(s, sep, |p|))
  {
    var ps := Split(s, sep);
    SplitIsSplitOf(s, sep);
    SplitPiecesAreFree(s, sep);
    if |ps| > 1 {
      var p := ps[0];
      assert s == p + sep + Join(ps[1..], sep);
      assert s[..|p|] == p;
      assert s[|p|..|p| + |sep|] == sep;
    }
  }

  /** One more piece than there are left-to-right occurrences of the separator. */
  lemma {:induction false} SplitCount(s: string, sep: string)
    requires |sep| > 0
    ensures |Split(s, sep)| == Occurrences(s, sep) + 1
    decreases |s|
  {
    if |s| < |sep| {
    } else if s[..|sep|] == sep {
      SplitCount(s[|sep|..], sep);
    } else {
      SplitCount(s[1..], sep);
    }
  }

  /** The count is zero exactly when the separator does not occur. */
  lemma {:induction false} OccurrencesZero(s: string, sep: string)
    requires |sep| > 0
    ensures Occurrences(s, sep) == 0 <==> !Contains(s, sep)
    decreases |s|
  {
    if |s| < |sep| {
    } else if s[..|sep|] == sep {
      assert OccursAt(s, sep, 0);
    } else {
      OccurrencesZero(s[1..], sep);
      assert s == [s[0]] + s[1..];
      if Contains(s, sep) {
        var k :| 0 <= k <= |s| - |sep| && OccursAt(s, sep, k);
        assert k != 0;
        ShiftedOccurrence(s[0], s[1..], sep, k);
      }
      if Contains(s[1..], sep) {
        var k :| 0 <= k <= |s[1..]| - |sep| && OccursAt(s[1..], sep, k);
        ShiftedOccurrence(s[0], s[1..], sep, k + 1);
      }
    }
  }

  /** A one-character separator occurs exactly when the character does. */
  lemma ContainsChar(s: string, c: char)
    ensures Contains(s, [c]) <==> c in s
  {
    if c in s {
      var k :| 0 <= k < |s| && s[k] == c;
      assert OccursAt(s, [c], k);
    }
    if Contains(s, [c]) {
      var k :| 0 <= k <= |s| - 1 && OccursAt(s, [c], k);
      assert s[k] == s[k..k + 1][0];
    }
  }

  /** A match inside a slice of `s` is a match in `s`. */
  lemma ContainsInSlice(s: string, a: int, b: int, sep: string)
    requires 0 <= a <= b <= |s|
    ensures Contains(s[a..b], sep) ==> Contains(s, sep)
  {
    if Contains(s[a..b], sep) {
      var k :| 0 <= k <= |s[a..b]| - |sep| && OccursAt(s[a..b], sep, k);
      assert s[a..b][k..k + |sep|] == s[a + k..a + k + |sep|] by {
        forall j | k <= j < k + |sep|
          ensures s[a..b][j] == s[a + j]
        {
        }
      }
      assert OccursAt(s, sep, a + k);
    }
  }

  /** A character that cannot start the separator adds no match in front. */
  lemma ConsHasNoMatch(c: char, t: string, sep: string)
    requires |sep| > 0 && c != sep[0] && !Contains(t, sep)
    ensures !Contains([c] + t, sep)
  {
    if |[c] + t| >= |sep| {
      assert ([c] + t)[0..|sep|][0] == c;
    }
    ConsNoMatch(c, t, sep);
  }

  /** A text that starts with the separator and has no other occurrence splits into
      an empty first piece and the rest. */
  lemma SplitAfterLeadingSeparator(rest: string, sep: string)
    requires |sep| > 0 && !Contains(rest, sep)
    ensures Split(sep + rest, sep) == ["", rest]
  {
    var s := sep + rest;
    assert s[..|sep|] == sep && s[|sep|..] == rest;
    NoMatchSplit(rest, sep);
  }
}
