/** The reply's line-break normalisation, reply.replace(/\n{3,}/g, "\n\n")
    followed by trim, and what it guarantees. */
module Newlines {
  import opened Text

  /** n line feeds in a row. */
  function Breaks(n: nat): string
  {
    seq(n, _ => '\n')
  }

  /** Three line feeds in a row start at index i of s. */
  predicate TripleBreakAt(s: string, i: int) {
    0 <= i && i + 2 < |s| && s[i] == '\n' && s[i + 1] == '\n' && s[i + 2] == '\n'
  }

  /** No three consecutive line feeds anywhere in s. */
  predicate NoTripleBreak(s: string) {
    forall i :: 0 <= i < |s| ==> !TripleBreakAt(s, i)
  }

  /** Length of the run of line feeds at the front of s. */
  function LeadingBreaks(s: string): (n: nat)
    ensures n <= |s|
    ensures forall i :: 0 <= i < n ==> s[i] == '\n'
    ensures n < |s| ==> s[n] != '\n'
  {
    if s != [] && s[0] == '\n' then 1 + LeadingBreaks(s[1..]) else 0
  }

  /** The global replacement of /\n{3,}/ by two line feeds. A greedy,
      left-to-right match of \n{3,} starts only at the first line feed of a
      run and then takes the whole run, so the scan goes run by run: a run of
      three or more becomes exactly two, a run of one or two is copied, and
      every other character is copied. The result is never longer than s and
      starts with a line feed exactly when s does. */
  function Collapse(s: string): (r: string)
    ensures |r| <= |s|
    ensures (r != [] && r[0] == '\n') <==> (s != [] && s[0] == '\n')
    ensures r == [] <==> s == []
    decreases |s|
  {
    if s == [] then
      []
    else if s[0] != '\n' then
      [s[0]] + Collapse(s[1..])
    else
      var n := LeadingBreaks(s);
      Breaks(if n >= 3 then 2 else n) + Collapse(s[n..])
  }

  /** Two strings without triple line feeds can be joined without making
      one, as long as the join is not between two line feeds. */
  lemma NoTripleBreakConcat(a: string, b: string)
    requires NoTripleBreak(a) && NoTripleBreak(b)
    requires (a != [] && a[|a| - 1] != '\n') || (b != [] && b[0] != '\n')
    ensures NoTripleBreak(a + b)
  {
    var c := a + b;
    forall i | 0 <= i < |c|
      ensures !TripleBreakAt(c, i)
    {
      if i + 2 >= |c| {
      } else if i + 2 < |a| {
        assert !TripleBreakAt(a, i);
        assert c[i] == a[i] && c[i + 1] == a[i + 1] && c[i + 2] == a[i + 2];
      } else if i >= |a| {
        assert !TripleBreakAt(b, i - |a|);
        assert c[i] == b[i - |a|] && c[i + 1] == b[i + 1 - |a|] && c[i + 2] == b[i + 2 - |a|];
      } else if a != [] && a[|a| - 1] != '\n' {
        assert c[|a| - 1] == a[|a| - 1];
      } else {
        assert c[|a|] == b[0];
      }
    }
  }

  /** The replacement leaves no three line feeds in a row. */
  lemma {:induction false} CollapseNoTripleBreak(s: string)
    ensures NoTripleBreak(Collapse(s))
    decreases |s|
  {
    if s == [] {
    } else if s[0] != '\n' {
      CollapseNoTripleBreak(s[1..]);
      NoTripleBreakConcat([s[0]], Collapse(s[1..]));
    } else {
      var n := LeadingBreaks(s);
      var k := if n >= 3 then 2 else n;
      CollapseNoTripleBreak(s[n..]);
      if Collapse(s[n..]) == [] {
        assert Breaks(k) + Collapse(s[n..]) == Breaks(k);
      } else {
        NoTripleBreakConcat(Breaks(k), Collapse(s[n..]));
      }
    }
  }

  /** Every substring of a string without triple line feeds has none either. */
  lemma NoTripleBreakSlice(s: string, i: nat, j: nat)
    requires i <= j <= |s| && NoTripleBreak(s)
    ensures NoTripleBreak(s[i..j])
  {
    forall k | 0 <= k < j - i
      ensures !TripleBreakAt(s[i..j], k)
    {
      if k + 2 < j - i {
        assert !TripleBreakAt(s, i + k);
        assert s[i..j][k] == s[i + k] && s[i..j][k + 1] == s[i + k + 1] && s[i..j][k + 2] == s[i + k + 2];
      }
    }
  }

  lemma NoTripleBreakInfix(c: string, r: string, i: nat)
    requires NoTripleBreak(c) && i + |r| <= |c| && r == c[i..i + |r|]
    ensures NoTripleBreak(r)
  {
    NoTripleBreakSlice(c, i, i + |r|);
  }

  /** A string that starts with n line feeds is Breaks(n) followed by the
      rest. */
  lemma BreaksThenRest(s: string, n: nat)
    requires n <= |s| && forall i :: 0 <= i < n ==> s[i] == '\n'
    ensures Breaks(n) + s[n..] == s
  {
    assert Breaks(n) == s[..n] by {
      forall i | 0 <= i < n ensures Breaks(n)[i] == s[..n][i] {}
    }
    assert s == s[..n] + s[n..];
  }

  /** Collapse changes nothing in a string that has no run of three or more
      line feeds. */
  lemma {:induction false} CollapseFixes(s: string)
    requires NoTripleBreak(s)
    ensures Collapse(s) == s
    decreases |s|
  {
    if s == [] {
    } else if s[0] != '\n' {
      NoTripleBreakSlice(s, 1, |s|);
      assert s[1..|s|] == s[1..];
      CollapseFixes(s[1..]);
    } else {
      var n := LeadingBreaks(s);
      assert !TripleBreakAt(s, 0);
      assert n < 3;
      var u := s[n..];
      NoTripleBreakSlice(s, n, |s|);
      assert s[n..|s|] == u;
      CollapseFixes(u);
      CollapseOfShortRun(s, n);
    }
  }

  /** A string that starts with a run of one or two line feeds, followed by
      a part the replacement leaves alone, is left alone as a whole. */
  lemma CollapseOfShortRun(s: string, n: nat)
    requires s != [] && s[0] == '\n' && n == LeadingBreaks(s) && n < 3
    requires Collapse(s[n..]) == s[n..]
    ensures Collapse(s) == s
  {
    BreaksThenRest(s, n);
  }

  /** Collapse leaves s unchanged exactly when s has no triple line feed. */
  lemma CollapseUnchangedIff(s: string)
    ensures Collapse(s) == s <==> NoTripleBreak(s)
  {
    if NoTripleBreak(s) { CollapseFixes(s); } else { CollapseNoTripleBreak(s); }
  }

  /** Applying the replacement a second time changes nothing. */
  lemma CollapseIdempotent(s: string)
    ensures Collapse(Collapse(s)) == Collapse(s)
  {
    CollapseNoTripleBreak(s);
    CollapseFixes(Collapse(s));
  }

  /** s with every line feed removed. */
  function WithoutBreaks(s: string): (r: string)
    ensures '\n' !in r
    ensures |r| <= |s|
  {
    if s == [] then []
    else if s[0] == '\n' then WithoutBreaks(s[1..])
    else [s[0]] + WithoutBreaks(s[1..])
  }

  lemma {:induction false} WithoutBreaksConcat(a: string, b: string)
    ensures WithoutBreaks(a + b) == WithoutBreaks(a) + WithoutBreaks(b)
    decreases |a|
  {
    if a == [] {
      assert a + b == b;
    } else {
      assert (a + b)[1..] == a[1..] + b;
      WithoutBreaksConcat(a[1..], b);
    }
  }

  lemma {:induction false} WithoutBreaksOfBreaks(n: nat)
    ensures WithoutBreaks(Breaks(n)) == []
  {
    if n > 0 {
      assert Breaks(n)[1..] == Breaks(n - 1);
      WithoutBreaksOfBreaks(n - 1);
    }
  }

  /** Collapse touches only line feeds: every other character survives, in
      the same order. */
  lemma {:induction false} CollapseKeepsOtherChars(s: string)
    ensures WithoutBreaks(Collapse(s)) == WithoutBreaks(s)
    decreases |s|
  {
    if s == [] {
    } else if s[0] != '\n' {
      CollapseKeepsOtherChars(s[1..]);
      WithoutBreaksConcat([s[0]], Collapse(s[1..]));
    } else {
      var n := LeadingBreaks(s);
      var k := if n >= 3 then 2 else n;
      CollapseKeepsOtherChars(s[n..]);
      WithoutBreaksConcat(Breaks(k), Collapse(s[n..]));
      WithoutBreaksOfBreaks(k);
      assert s == Breaks(n) + s[n..];
      WithoutBreaksConcat(Breaks(n), s[n..]);
      WithoutBreaksOfBreaks(n);
    }
  }

  /** The replacement works run by run: at a point where the left part does
      not end in a line feed, the two parts are collapsed independently. */
  lemma {:induction false} CollapseConcat(p: string, t: string)
    requires p == [] || p[|p| - 1] != '\n'
    ensures Collapse(p + t) == Collapse(p) + Collapse(t)
    decreases |p|
  {
    if p == [] {
      assert p + t == t;
    } else if p[0] != '\n' {
      var u := p[1..];
      assert (p + t)[1..] == u + t;
      CollapseConcat(u, t);
      assert Collapse(p + t) == [p[0]] + (Collapse(u) + Collapse(t));
      ConcatAssoc([p[0]], Collapse(u), Collapse(t));
    } else {
      var n := LeadingBreaks(p);
      var k := if n >= 3 then 2 else n;
      LeadingBreaksOfConcat(p, t);
      assert n < |p|;
      var u := p[n..];
      assert (p + t)[n..] == u + t;
      CollapseConcat(u, t);
      assert Collapse(p + t) == Breaks(k) + (Collapse(u) + Collapse(t));
      ConcatAssoc(Breaks(k), Collapse(u), Collapse(t));
    }
  }

  lemma ConcatAssoc(a: string, b: string, c: string)
    ensures a + (b + c) == (a + b) + c
  {
  }

  lemma {:induction false} LeadingBreaksOfConcat(p: string, t: string)
    requires p != [] && p[|p| - 1] != '\n'
    ensures LeadingBreaks(p + t) == LeadingBreaks(p)
    decreases |p|
  {
    if p[0] == '\n' {
      assert (p + t)[1..] == p[1..] + t;
      LeadingBreaksOfConcat(p[1..], t);
    }
  }

  lemma {:induction false} LeadingBreaksOfRun(n: nat, q: string)
    requires q == [] || q[0] != '\n'
    ensures LeadingBreaks(Breaks(n) + q) == n
    decreases n
  {
    if n > 0 {
      assert (Breaks(n) + q)[1..] == Breaks(n - 1) + q;
      LeadingBreaksOfRun(n - 1, q);
    } else {
      assert Breaks(n) + q == q;
    }
  }

  /** Each maximal run of line feeds, between characters that are not line
      feeds (or the ends of the string), is replaced on its own: by exactly
      two line feeds when it has three or more, and by itself otherwise. */
  lemma CollapseRun(p: string, n: nat, q: string)
    requires p == [] || p[|p| - 1] != '\n'
    requires q == [] || q[0] != '\n'
    ensures Collapse(p + (Breaks(n) + q)) == Collapse(p) + (Breaks(if n >= 3 then 2 else n) + Collapse(q))
  {
    CollapseConcat(p, Breaks(n) + q);
    CollapseOfRun(n, q);
  }

  lemma CollapseOfRun(n: nat, q: string)
    requires q == [] || q[0] != '\n'
    ensures Collapse(Breaks(n) + q) == Breaks(if n >= 3 then 2 else n) + Collapse(q)
  {
    var s := Breaks(n) + q;
    if n > 0 {
      assert s[0] == '\n';
      LeadingBreaksOfRun(n, q);
      assert s[n..] == q;
    } else {
      assert s == q;
    }
  }

  /** The full normalisation of a reply: collapse, then trim. The result has
      no triple line feed and no whitespace at either end, and it is the
      collapsed text with only whitespace cut from its two ends. */
  function Normalise(s: string): (r: string)
    ensures NoTripleBreak(r)
    ensures IsTrimmed(r)
    ensures exists i :: TrimsTo(Collapse(s), r, i)
  {
    var c := Collapse(s);
    CollapseNoTripleBreak(s);
    TrimKeepsNoTripleBreak(c);
    Trim(c)
  }

  /** Trimming cannot create three line feeds in a row. */
  lemma TrimKeepsNoTripleBreak(c: string)
    requires NoTripleBreak(c)
    ensures NoTripleBreak(Trim(c))
  {
    var i := TrimOffset(c);
    NoTripleBreakInfix(c, Trim(c), i);
  }

  /** Normalising a normalised reply changes nothing. */
  lemma NormaliseIdempotent(s: string)
    ensures Normalise(Normalise(s)) == Normalise(s)
  {
    var r := Normalise(s);
    CollapseFixes(r);
    TrimOfTrimmed(r);
  }

  /** Normalisation leaves a reply unchanged exactly when it already has no
      triple line feed and no whitespace at its ends. */
  lemma NormaliseUnchangedIff(s: string)
    ensures Normalise(s) == s <==> NoTripleBreak(s) && IsTrimmed(s)
  {
    if NoTripleBreak(s) && IsTrimmed(s) {
      CollapseFixes(s);
      TrimOfTrimmed(s);
    }
  }

  /** Collapse of a whitespace-only string is whitespace only. */
  lemma {:induction false} CollapseKeepsWhitespace(s: string)
    requires AllWhitespace(s)
    ensures AllWhitespace(Collapse(s))
    decreases |s|
  {
    if s == [] {
    } else if s[0] != '\n' {
      assert AllWhitespace(s[1..]);
      CollapseKeepsWhitespace(s[1..]);
      AllWhitespaceConcat([s[0]], Collapse(s[1..]));
    } else {
      var n := LeadingBreaks(s);
      var k := if n >= 3 then 2 else n;
      assert AllWhitespace(s[n..]);
      CollapseKeepsWhitespace(s[n..]);
      AllWhitespaceConcat(Breaks(k), Collapse(s[n..]));
    }
  }

  /** A reply of whitespace only normalises to the empty string. */
  lemma NormaliseWhitespace(s: string)
    requires AllWhitespace(s)
    ensures Normalise(s) == []
  {
    CollapseKeepsWhitespace(s);
    TrimEmptyIff(Collapse(s));
  }

  /** A reply without line feeds is only trimmed. */
  lemma NormaliseWithoutBreaks(s: string)
    requires '\n' !in s
    ensures Normalise(s) == Trim(s)
  {
    CollapseFixes(s);
  }
}
