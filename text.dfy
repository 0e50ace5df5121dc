/** Text operations the literal search relies on: JavaScript's
    String.prototype.trim, the ASCII-only case folding of SQLite, and SQLite's
    LIKE operator without an ESCAPE clause. */
module Text {

  /** The characters JavaScript's trim removes: the WhiteSpace and
      LineTerminator code points of section 12.2 and 12.3 of ECMA-262. */
  predicate IsWhitespace(c: char) {
    || c == '\t' || c == '\n' || c == '\U{000B}' || c == '\U{000C}' || c == '\r'
    || c == ' ' || c == '\U{00A0}' || c == '\U{1680}'
    || ('\U{2000}' <= c <= '\U{200A}')
    || c == '\U{2028}' || c == '\U{2029}' || c == '\U{202F}' || c == '\U{205F}'
    || c == '\U{3000}' || c == '\U{FEFF}'
  }

  predicate AllWhitespace(s: string) {
    forall i :: 0 <= i < |s| ==> IsWhitespace(s[i])
  }

  /** Drops the leading whitespace: what is left is a suffix of `s` that does
      not start with whitespace, and everything dropped was whitespace. */
  function TrimStart(s: string): (r: string)
    ensures |r| <= |s| && r == s[|s| - |r|..]
    ensures AllWhitespace(s[..|s| - |r|])
    ensures r == [] || !IsWhitespace(r[0])
  {
    if s != [] && IsWhitespace(s[0]) then TrimStart(s[1..]) else s
  }

  /** Drops the trailing whitespace, symmetrically to TrimStart. */
  function TrimEnd(s: string): (r: string)
    ensures |r| <= |s| && r == s[..|r|]
    ensures AllWhitespace(s[|r|..])
    ensures r == [] || !IsWhitespace(r[|r| - 1])
  {
    if s != [] && IsWhitespace(s[|s| - 1]) then TrimEnd(s[..|s| - 1]) else s
  }

  /** JavaScript's `s.trim()`: whitespace removed from both ends. */
  function Trim(s: string): (r: string)
    ensures |r| <= |s|
    ensures r == [] || (!IsWhitespace(r[0]) && !IsWhitespace(r[|r| - 1]))
  {
    TrimEnd(TrimStart(s))
  }

  /** What trim leaves is a slice of the text. */
  lemma TrimIsSlice(s: string)
    ensures var a := |s| - |TrimStart(s)|;
            a + |Trim(s)| <= |s| && Trim(s) == s[a..a + |Trim(s)|]
  {
    var t := TrimStart(s);
    var r := TrimEnd(t);
    var a := |s| - |t|;
    assert t == s[a..] && r == t[..|r|];
  }

  /** What trim removes, on either side of what it leaves, is whitespace. */
  lemma TrimRemovesOnlyWhitespace(s: string)
    ensures var a := |s| - |TrimStart(s)|;
            a + |Trim(s)| <= |s| && AllWhitespace(s[..a]) && AllWhitespace(s[a + |Trim(s)|..])
  {
    var t := TrimStart(s);
    var r := TrimEnd(t);
    var a := |s| - |t|;
    assert AllWhitespace(t[|r|..]);
    assert s[a + |r|..] == t[|r|..] by {
      assert t == s[a..];
    }
  }

  /** A text made only of whitespace trims to the empty text. */
  lemma TrimOfBlank(s: string)
    requires AllWhitespace(s)
    ensures Trim(s) == ""
  {
  }

  /** SQLite folds only the ASCII letters when LIKE compares characters. */
  function FoldCase(c: char): char {
    if 'A' <= c <= 'Z' then (c as int + 32) as char else c
  }

  predicate EqualsIgnoreCase(a: string, b: string) {
    |a| == |b| && forall i :: 0 <= i < |a| ==> FoldCase(a[i]) == FoldCase(b[i])
  }

  /** `q` occurs in `s` at position `k`, ASCII letters compared without case. */
  predicate OccursAt(s: string, q: string, k: nat) {
    k + |q| <= |s| && EqualsIgnoreCase(s[k..k + |q|], q)
  }

  ghost predicate ContainsIgnoreCase(s: string, q: string) {
    exists k: nat :: OccursAt(s, q, k)
  }

  /** The pattern holds one of LIKE's two wildcard characters. */
  predicate HasWildcard(s: string) {
    '%' in s || '_' in s
  }

  /** SQLite's `s LIKE pattern`: '%' matches any run of characters, '_' exactly
      one character, and every other pattern character matches itself up to
      ASCII case. A pattern without wildcards matches exactly the texts equal
      to it up to ASCII case. */
  function Like(pattern: string, s: string): (r: bool)
    ensures !HasWildcard(pattern) ==> (r <==> EqualsIgnoreCase(s, pattern))
    decreases |pattern| + |s|
  {
    if pattern == [] then s == []
    else if pattern[0] == '%' then Like(pattern[1..], s) || (s != [] && Like(pattern, s[1..]))
    else
      assert !HasWildcard(pattern) ==> !HasWildcard(pattern[1..]) by {
        assert forall c :: c in pattern[1..] ==> c in pattern;
      }
      assert s != [] && |s| == |pattern| ==>
        (EqualsIgnoreCase(s, pattern) <==>
          FoldCase(s[0]) == FoldCase(pattern[0]) && EqualsIgnoreCase(s[1..], pattern[1..])) by {
        if s != [] && |s| == |pattern| {
          assert forall i :: 1 <= i < |s| ==> s[1..][i - 1] == s[i] && pattern[1..][i - 1] == pattern[i];
        }
      }
      s != [] && (pattern[0] == '_' || FoldCase(pattern[0]) == FoldCase(s[0]))
      && Like(pattern[1..], s[1..])
  }

  /** A lone '%' matches every text. */
  lemma {:induction false} LikePercentMatchesAll(s: string)
    ensures Like("%", s)
  {
    if s != [] {
      LikePercentMatchesAll(s[1..]);
    }
  }

  /** A pattern that starts with '%' matches exactly when the rest of the
      pattern matches some suffix of the text. */
  lemma {:induction false} LikeLeadingPercent(rest: string, s: string)
    ensures Like("%" + rest, s) <==> exists k :: 0 <= k <= |s| && Like(rest, s[k..])
  {
    var p := "%" + rest;
    assert p[0] == '%' && p[1..] == rest;
    assert s[0..] == s;
    if s == [] {
      assert Like(p, s) == Like(rest, s);
    } else {
      LikeLeadingPercent(rest, s[1..]);
      assert Like(p, s) == (Like(rest, s) || Like(p, s[1..]));
      if Like(p, s[1..]) {
        var k :| 0 <= k <= |s| - 1 && Like(rest, s[1..][k..]);
        assert s[1..][k..] == s[k + 1..];
      }
      if exists k :: 0 <= k <= |s| && Like(rest, s[k..]) {
        var k :| 0 <= k <= |s| && Like(rest, s[k..]);
        if k > 0 {
          assert s[1..][k - 1..] == s[k..];
        }
      }
    }
  }

  /** A wildcard-free `q` followed by '%' matches exactly the texts that start
      with `q`, up to ASCII case. */
  lemma {:induction false} LikePrefix(q: string, s: string)
    requires !HasWildcard(q)
    ensures Like(q + "%", s) <==> |q| <= |s| && EqualsIgnoreCase(s[..|q|], q)
  {
    var p := q + "%";
    if q == [] {
      assert p == "%";
      LikePercentMatchesAll(s);
    } else {
      assert p[0] == q[0] && p[1..] == q[1..] + "%";
      assert q[0] != '%' && q[0] != '_';
      assert !HasWildcard(q[1..]) by {
        assert forall c :: c in q[1..] ==> c in q;
      }
      if s != [] {
        LikePrefix(q[1..], s[1..]);
        if |q| <= |s| {
          assert s[1..][..|q| - 1] == s[1..|q|];
          assert EqualsIgnoreCase(s[..|q|], q) <==>
            FoldCase(s[0]) == FoldCase(q[0]) && EqualsIgnoreCase(s[1..|q|], q[1..]) by {
            if FoldCase(s[0]) == FoldCase(q[0]) && EqualsIgnoreCase(s[1..|q|], q[1..]) {
              forall i | 0 <= i < |q| ensures FoldCase(s[..|q|][i]) == FoldCase(q[i]) {
                if i > 0 {
                  assert s[1..|q|][i - 1] == s[i] && q[1..][i - 1] == q[i];
                }
              }
            }
          }
        }
      }
    }
  }

  /** The pattern `%q%` of a wildcard-free `q` is a case-insensitive substring
      test: it matches `s` exactly when `q` occurs somewhere in `s`. */
  lemma LikeIsSubstringTest(q: string, s: string)
    requires !HasWildcard(q)
    ensures Like("%" + q + "%", s) <==> ContainsIgnoreCase(s, q)
  {
    assert "%" + q + "%" == "%" + (q + "%");
    LikeLeadingPercent(q + "%", s);
    if Like("%" + q + "%", s) {
      var k :| 0 <= k <= |s| && Like(q + "%", s[k..]);
      LikePrefix(q, s[k..]);
      assert s[k..][..|q|] == s[k..k + |q|];
      assert OccursAt(s, q, k);
    }
    if ContainsIgnoreCase(s, q) {
      var k: nat :| OccursAt(s, q, k);
      LikePrefix(q, s[k..]);
      assert s[k..][..|q|] == s[k..k + |q|];
    }
  }

  /** The pattern "%%" that an all-blank query becomes matches every text. */
  lemma LikeDoublePercentMatchesAll(s: string)
    ensures Like("%%", s)
  {
    assert "%%" == "%" + "%";
    LikeLeadingPercent("%", s);
    LikePercentMatchesAll(s);
    assert s[0..] == s;
  }

  /** LIKE treats '_' in a query as a wildcard: the pattern `%_%` matches every
      non-empty text, whatever it holds. */
  lemma UnderscoreMatchesAnyText(s: string)
    ensures Like("%_%", s) <==> s != []
  {
    assert "%_%" == "%" + "_%";
    LikeLeadingPercent("_%", s);
    if s != [] {
      assert "_%"[1..] == "%";
      LikePercentMatchesAll(s[1..]);
      assert Like("_%", s[0..]);
    } else {
      assert !Like("_%", s);
    }
  }
}
