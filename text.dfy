/** String primitives the chat handler relies on: JavaScript's
    String.prototype.trim, an ASCII-only toLowerCase, and
    String.prototype.includes. Strings are sequences of characters; each
    character stands for one Unicode scalar value of the JavaScript string
    (a character outside the Basic Multilingual Plane is one character here
    and two code units there, which none of the operations below can
    observe, since none of their special characters is a surrogate). */
module Text {

  /** The characters trim removes: WhiteSpace and LineTerminator of
      section 12.2 and 12.3 of ECMA-262 (tab, vertical tab, form feed,
      space, no-break space, byte order mark, the Unicode space separators,
      line feed, carriage return, line and paragraph separators). */
  predicate IsWhitespace(c: char) {
    c == '\t' || c == '\n' || c == '\U{000B}' || c == '\U{000C}' || c == '\r' || c == ' '
    || c == '\U{00A0}' || c == '\U{1680}' || ('\U{2000}' <= c <= '\U{200A}')
    || c == '\U{2028}' || c == '\U{2029}' || c == '\U{202F}' || c == '\U{205F}'
    || c == '\U{3000}' || c == '\U{FEFF}'
  }

  predicate AllWhitespace(s: string) {
    forall i :: 0 <= i < |s| ==> IsWhitespace(s[i])
  }

  lemma AllWhitespaceConcat(a: string, b: string)
    requires AllWhitespace(a) && AllWhitespace(b)
    ensures AllWhitespace(a + b)
  {
    forall k | 0 <= k < |a + b| ensures IsWhitespace((a + b)[k]) {
      if k < |a| { assert (a + b)[k] == a[k]; } else { assert (a + b)[k] == b[k - |a|]; }
    }
  }

  /** Neither end of s is whitespace: what trim promises of its result. */
  predicate IsTrimmed(s: string) {
    s == [] || (!IsWhitespace(s[0]) && !IsWhitespace(s[|s| - 1]))
  }

  /** Drops the leading whitespace: the result is the longest suffix of s
      that does not start with whitespace. */
  function TrimStart(s: string): (r: string)
    ensures |r| <= |s| && r == s[|s| - |r|..]
    ensures AllWhitespace(s[..|s| - |r|])
    ensures r == [] || !IsWhitespace(r[0])
  {
    if s != [] && IsWhitespace(s[0]) then
      var r := TrimStart(s[1..]);
      assert s[..|s| - |r|] == [s[0]] + s[1..][..|s[1..]| - |r|];
      r
    else
      s
  }

  /** Drops the trailing whitespace: the result is the longest prefix of s
      that does not end with whitespace. */
  function TrimEnd(s: string): (r: string)
    ensures |r| <= |s| && r == s[..|r|]
    ensures AllWhitespace(s[|r|..])
    ensures r == [] || !IsWhitespace(r[|r| - 1])
  {
    if s != [] && IsWhitespace(s[|s| - 1]) then
      var r := TrimEnd(s[..|s| - 1]);
      assert s[|r|..] == s[..|s| - 1][|r|..] + [s[|s| - 1]];
      r
    else
      s
  }

  /** r is what is left of s once a whitespace-only prefix of length i and a
      whitespace-only suffix are cut off. */
  predicate TrimsTo(s: string, r: string, i: int) {
    0 <= i <= |s| - |r| && r == s[i..i + |r|]
    && AllWhitespace(s[..i]) && AllWhitespace(s[i + |r|..])
  }

  /** String.prototype.trim: s with the whitespace at both ends removed.
      The result sits inside s between a whitespace-only prefix and a
      whitespace-only suffix, and neither of its ends is whitespace. */
  function Trim(s: string): (r: string)
    ensures IsTrimmed(r)
    ensures |r| <= |s|
    ensures exists i :: TrimsTo(s, r, i)
  {
    var t := TrimStart(s);
    var r := TrimEnd(t);
    TrimStartThenEnd(s, t, r);
    r
  }

  /** Where Trim's result starts in s: after the leading whitespace. */
  lemma TrimOffset(s: string) returns (i: nat)
    ensures TrimsTo(s, Trim(s), i)
  {
    var t := TrimStart(s);
    i := |s| - |t|;
    TrimStartThenEnd(s, t, TrimEnd(t));
  }

  /** Cutting a whitespace prefix from s and then a whitespace suffix from
      what is left trims s to r. */
  lemma TrimStartThenEnd(s: string, t: string, r: string)
    requires |t| <= |s| && t == s[|s| - |t|..] && AllWhitespace(s[..|s| - |t|])
    requires |r| <= |t| && r == t[..|r|] && AllWhitespace(t[|r|..])
    ensures TrimsTo(s, r, |s| - |t|)
  {
    var i := |s| - |t|;
    assert s[i + |r|..] == t[|r|..];
  }

  /** Trimming p + m + q, where p and q are whitespace and m is trimmed,
      gives back exactly m: Trim has no other choice of result. */
  lemma {:induction false} TrimUnique(p: string, m: string, q: string)
    requires AllWhitespace(p) && AllWhitespace(q) && IsTrimmed(m)
    ensures Trim(p + m + q) == m
  {
    if m == [] {
      assert p + m + q == (p + q) + [];
      AllWhitespaceConcat(p, q);
      TrimStartOfPadded(p + q, []);
    } else {
      assert p + m + q == p + (m + q);
      TrimStartOfPadded(p, m + q);
      TrimEndOfPadded(m, q);
    }
  }

  lemma {:induction false} TrimStartOfPadded(p: string, u: string)
    requires AllWhitespace(p)
    requires u == [] || !IsWhitespace(u[0])
    ensures TrimStart(p + u) == u
  {
    if p != [] {
      assert (p + u)[1..] == p[1..] + u;
      TrimStartOfPadded(p[1..], u);
    } else {
      assert p + u == u;
    }
  }

  lemma {:induction false} TrimEndOfPadded(m: string, q: string)
    requires AllWhitespace(q)
    requires m == [] || !IsWhitespace(m[|m| - 1])
    ensures TrimEnd(m + q) == m
  {
    if q != [] {
      assert (m + q)[..|m + q| - 1] == m + q[..|q| - 1];
      TrimEndOfPadded(m, q[..|q| - 1]);
    } else {
      assert m + q == m;
    }
  }

  /** A trimmed string is left as it is, so trim is idempotent. */
  lemma TrimOfTrimmed(s: string)
    requires IsTrimmed(s)
    ensures Trim(s) == s
  {
    TrimUnique([], s, []);
    assert [] + s + [] == s;
  }

  lemma TrimIdempotent(s: string)
    ensures Trim(Trim(s)) == Trim(s)
  {
    TrimOfTrimmed(Trim(s));
  }

  /** Trim leaves nothing exactly when the string is all whitespace. */
  lemma TrimEmptyIff(s: string)
    ensures Trim(s) == [] <==> AllWhitespace(s)
  {
    if AllWhitespace(s) {
      TrimUnique(s, [], []);
      assert s + [] + [] == s;
    } else if Trim(s) == [] {
      var i :| TrimsTo(s, [], i);
      assert AllWhitespace(s[..i]) && AllWhitespace(s[i..]);
      forall k | 0 <= k < |s| ensures IsWhitespace(s[k]) {
        if k < i { assert s[..i][k] == s[k]; } else { assert s[i..][k - i] == s[k]; }
      }
    }
  }

  /** toLowerCase restricted to ASCII: 'A'..'Z' become 'a'..'z'. */
  function LowerChar(c: char): char
  {
    if 'A' <= c <= 'Z' then (c as int + 32) as char else c
  }

  /** ASCII lower-casing of a whole string, character by character: the
      result has the same length, each upper-case ASCII letter becomes its
      lower-case partner (32 code points further on), no upper-case ASCII
      letter is left, and every other character stays in its place. */
  function Lower(s: string): (r: string)
    ensures |r| == |s|
    ensures forall i :: 0 <= i < |s| && 'A' <= s[i] <= 'Z' ==> r[i] as int == s[i] as int + 32
    ensures forall i :: 0 <= i < |r| ==> !('A' <= r[i] <= 'Z')
    ensures forall i :: 0 <= i < |s| && !('A' <= s[i] <= 'Z') ==> r[i] == s[i]
  {
    seq(|s|, i requires 0 <= i < |s| => LowerChar(s[i]))
  }

  lemma LowerConcat(a: string, b: string)
    ensures Lower(a + b) == Lower(a) + Lower(b)
  {
  }

  /** Lower-casing is idempotent: a lower-cased string has nothing left to
      lower-case. */
  lemma LowerIdempotent(s: string)
    ensures Lower(Lower(s)) == Lower(s)
  {
  }

  /** A lower-case letter c is missing from Lower(s) when both of its cases
      are missing from s. */
  lemma LowerMissing(s: string, c: char, upper: char)
    requires 'A' <= upper <= 'Z' && c as int == upper as int + 32
    requires c !in s && upper !in s
    ensures c !in Lower(s)
  {
  }

  /** t occurs in s starting at index i. */
  predicate OccursAt(s: string, t: string, i: int) {
    0 <= i && i + |t| <= |s| && s[i..i + |t|] == t
  }

  /** The characters t[j..] match s from index i + j onwards. */
  function MatchesFrom(s: string, t: string, i: nat, j: nat): (b: bool)
    requires j <= |t|
    ensures b <==> i + |t| <= |s| && s[i + j..i + |t|] == t[j..]
    decreases |t| - j
  {
    if j == |t| then
      i + |t| <= |s|
    else if i + j < |s| && s[i + j] == t[j] then
      var b := MatchesFrom(s, t, i, j + 1);
      assert b ==> s[i + j..i + |t|] == [s[i + j]] + s[i + j + 1..i + |t|];
      assert b ==> t[j..] == [t[j]] + t[j + 1..];
      assert i + |t| <= |s| && s[i + j..i + |t|] == t[j..] ==> s[i + j + 1..i + |t|] == t[j + 1..] by {
        if i + |t| <= |s| && s[i + j..i + |t|] == t[j..] {
          assert s[i + j + 1..i + |t|] == s[i + j..i + |t|][1..];
          assert t[j + 1..] == t[j..][1..];
        }
      }
      b
    else
      assert i + |t| <= |s| ==> s[i + j..i + |t|][0] == s[i + j] && t[j..][0] == t[j];
      false
  }

  /** Scans s for t from index i onwards. */
  function ContainsFrom(s: string, t: string, i: nat): (b: bool)
    ensures b <==> exists k :: i <= k && OccursAt(s, t, k)
    decreases |s| - i
  {
    if i + |t| > |s| then
      false
    else if MatchesFrom(s, t, i, 0) then
      assert OccursAt(s, t, i);
      true
    else
      var b := ContainsFrom(s, t, i + 1);
      assert !OccursAt(s, t, i);
      b
  }

  /** String.prototype.includes: t occurs somewhere in s. */
  function Contains(s: string, t: string): (b: bool)
    ensures b <==> exists k :: OccursAt(s, t, k)
  {
    ContainsFrom(s, t, 0)
  }

  /** An occurrence in s is still there after anything is put in front. */
  lemma ContainsAfterPrefix(p: string, s: string, t: string)
    requires Contains(s, t)
    ensures Contains(p + s, t)
  {
    var k :| OccursAt(s, t, k);
    assert (p + s)[|p| + k..|p| + k + |t|] == s[k..k + |t|];
    assert OccursAt(p + s, t, |p| + k);
  }

  /** t occurs in any string that has it as an infix. */
  lemma ContainsInfix(p: string, t: string, q: string)
    ensures Contains(p + t + q, t)
  {
    assert (p + t + q)[|p|..|p| + |t|] == t;
    assert OccursAt(p + t + q, t, |p|);
  }

  /** s cannot contain t when one of t's characters is missing from s. */
  lemma MissingCharNotContained(s: string, t: string, c: char)
    requires c in t && c !in s
    ensures !Contains(s, t)
  {
  }
}
