/**
  The semantics of JavaScript's `String.prototype.trim`: leading and trailing
  characters of the ECMAScript WhiteSpace and LineTerminator classes are removed.
*/
module StringTrim {

  /** ECMAScript WhiteSpace (TAB, VT, FF, ZWNBSP and the Unicode space separators)
      and LineTerminator (LF, CR, LS, PS). */
  predicate IsWhitespace(c: char) {
    c == '\t' || c == '\n' || c == '\U{000B}' || c == '\U{000C}' || c == '\r' ||
    c == ' ' || c == '\U{00A0}' || c == '\U{1680}' ||
    ('\U{2000}' <= c <= '\U{200A}') ||
    c == '\U{2028}' || c == '\U{2029}' || c == '\U{202F}' || c == '\U{205F}' ||
    c == '\U{3000}' || c == '\U{FEFF}'
  }

  predicate AllWhitespace(s: string) {
    forall i :: 0 <= i < |s| ==> IsWhitespace(s[i])
  }

  /** Neither end of `s` is whitespace. */
  predicate IsTrimmed(s: string) {
    s == [] || (!IsWhitespace(s[0]) && !IsWhitespace(s[|s| - 1]))
  }

  /** `s` is `r` with whitespace (possibly none) on either side. */
  predicate Surrounds(s: string, r: string) {
    exists a :: 0 <= a <= |s| - |r| && s[a..a + |r|] == r &&
      AllWhitespace(s[..a]) && AllWhitespace(s[a + |r|..])
  }

  /** `s.trimStart()`: what is left of `s` once the whitespace it starts with is dropped. */
  function TrimStart(s: string): (r: string)
    ensures r == [] || !IsWhitespace(r[0])
  {
    if s != [] && IsWhitespace(s[0]) then TrimStart(s[1..]) else s
  }

  /** `s.trimStart()` is the longest suffix of `s` that does not start with whitespace. */
  lemma {:induction false} TrimStartIsSuffix(s: string)
    ensures var r := TrimStart(s);
      |r| <= |s| && r == s[|s| - |r|..] && AllWhitespace(s[..|s| - |r|])
  {
    if s != [] && IsWhitespace(s[0]) {
      TrimStartIsSuffix(s[1..]);
      var r := TrimStart(s);
      var k := |s| - |r|;
      assert s[1..][k - 1..] == s[k..];
      forall i | 0 <= i < k
        ensures IsWhitespace(s[..k][i])
      {
        if i > 0 {
          assert s[..k][i] == s[1..][..k - 1][i - 1];
        }
      }
    }
  }

  /** `s.trimEnd()`: what is left of `s` once the whitespace it ends with is dropped. */
  function TrimEnd(s: string): (r: string)
    ensures r == [] || !IsWhitespace(r[|r| - 1])
  {
    if s != [] && IsWhitespace(s[|s| - 1]) then TrimEnd(s[..|s| - 1]) else s
  }

  /** `s.trimEnd()` is the longest prefix of `s` that does not end with whitespace. */
  lemma {:induction false} TrimEndIsPrefix(s: string)
    ensures var r := TrimEnd(s);
      |r| <= |s| && r == s[..|r|] && AllWhitespace(s[|r|..])
  {
    if s != [] && IsWhitespace(s[|s| - 1]) {
      var s' := s[..|s| - 1];
      TrimEndIsPrefix(s');
      var r := TrimEnd(s);
      assert s'[..|r|] == s[..|r|];
      forall j | 0 <= j < |s| - |r|
        ensures IsWhitespace(s[|r|..][j])
      {
        if j < |s| - 1 - |r| {
          assert s[|r|..][j] == s'[|r|..][j];
        }
      }
    }
  }

  /** `s.trim()`: `s` without its surrounding whitespace. */
  function Trim(s: string): (r: string)
    ensures IsTrimmed(r) && Surrounds(s, r)
  {
    var t := TrimStart(s);
    TrimStartIsSuffix(s);
    var r := TrimEnd(t);
    TrimEndIsPrefix(t);
    var a := |s| - |t|;
    assert s[a..a + |r|] == r;
    assert s[a + |r|..] == t[|r|..];
    r
  }

  /** A character of the trimmed string is a character of the input. */
  lemma SurroundedChars(s: string, r: string)
    requires Surrounds(s, r)
    ensures forall c :: c in r ==> c in s
  {
    var a :| 0 <= a <= |s| - |r| && s[a..a + |r|] == r &&
      AllWhitespace(s[..a]) && AllWhitespace(s[a + |r|..]);
    forall c | c in r
      ensures c in s
    {
      var i :| 0 <= i < |r| && r[i] == c;
      assert s[a + i] == c;
    }
  }

  lemma {:induction false} TrimStartStopsAt(s: string, a: int)
    requires 0 <= a <= |s| && AllWhitespace(s[..a])
    requires a == |s| || !IsWhitespace(s[a])
    ensures TrimStart(s) == s[a..]
    decreases a
  {
    if a > 0 {
      assert s[0] == s[..a][0];
      assert s[1..][..a - 1] == s[..a][1..];
      TrimStartStopsAt(s[1..], a - 1);
      assert s[1..][a - 1..] == s[a..];
    }
  }

  lemma {:induction false} TrimEndStopsAt(s: string, e: int)
    requires 0 <= e <= |s| && AllWhitespace(s[e..])
    requires e == 0 || !IsWhitespace(s[e - 1])
    ensures TrimEnd(s) == s[..e]
    decreases |s| - e
  {
    if e < |s| {
      assert s[|s| - 1] == s[e..][|s| - 1 - e];
      var s' := s[..|s| - 1];
      assert s'[e..] == s[e..][..|s| - 1 - e];
      TrimEndStopsAt(s', e);
      assert s'[..e] == s[..e];
    }
  }

  lemma TrimAround(s: string, a: int, r: string)
    requires r != [] && IsTrimmed(r)
    requires 0 <= a <= |s| - |r| && s[a..a + |r|] == r
    requires AllWhitespace(s[..a]) && AllWhitespace(s[a + |r|..])
    ensures Trim(s) == r
  {
    assert s[a] == r[0];
    TrimStartStopsAt(s, a);
    var t := s[a..];
    assert t[..|r|] == r;
    assert t[|r|..] == s[a + |r|..];
    TrimEndStopsAt(t, |r|);
  }

  lemma TrimWhitespaceOnly(s: string, a: int)
    requires 0 <= a <= |s| && AllWhitespace(s[..a]) && AllWhitespace(s[a..])
    ensures Trim(s) == []
  {
    assert AllWhitespace(s[..|s|]) by {
      forall i | 0 <= i < |s|
        ensures IsWhitespace(s[i])
      {
        if i < a {
          assert s[..a][i] == s[i];
        } else {
          assert s[a..][i - a] == s[i];
        }
      }
    }
    TrimStartStopsAt(s, |s|);
  }

  /** The trimmed string is the only trimmed string that whitespace surrounds in `s`. */
  lemma TrimUnique(s: string, r: string)
    requires IsTrimmed(r) && Surrounds(s, r)
    ensures r == Trim(s)
  {
    var a :| 0 <= a <= |s| - |r| && s[a..a + |r|] == r &&
      AllWhitespace(s[..a]) && AllWhitespace(s[a + |r|..]);
    if r == [] {
      TrimWhitespaceOnly(s, a);
    } else {
      TrimAround(s, a, r);
    }
  }

  /** Trimming twice is trimming once. */
  lemma TrimIdempotent(s: string)
    ensures Trim(Trim(s)) == Trim(s)
  {
    var r := Trim(s);
    assert r[0..0 + |r|] == r;
    assert r[..0] == [] && r[|r|..] == [];
    assert Surrounds(r, r);
    TrimUnique(r, r);
  }

  /** Whitespace in front of a trimmed string is all that trimming removes. */
  lemma TrimAfterWhitespace(w: string, t: string)
    requires AllWhitespace(w) && IsTrimmed(t)
    ensures Trim(w + t) == t
  {
    var s := w + t;
    assert s[|w|..|w| + |t|] == t;
    assert s[..|w|] == w;
    assert s[|w| + |t|..] == [];
    TrimUnique(s, t);
  }
}
