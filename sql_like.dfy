/**
 * SQLite's `lower()` and `LIKE`, as the search renders `col.ilike(pattern)`:
 * `lower(col) LIKE lower(pattern)`. Both fold ASCII letters only. In a
 * pattern `%` matches any run of characters, `_` any one character, and an
 * optional escape character makes the character after it literal.
 */
module SqlLike {
  import opened Wrappers

  /** SQLite's case folding: `A`..`Z` become `a`..`z`, every other character stays. */
  function LowerChar(c: char): char
  {
    if 'A' <= c <= 'Z' then (c as int + 32) as char else c
  }

  /** SQLite's `lower(x)`. */
  function Lower(s: string): (r: string)
    ensures |r| == |s|
    ensures forall i {:trigger r[i]} :: 0 <= i < |s| ==> r[i] == LowerChar(s[i])
  {
    seq(|s|, i requires 0 <= i < |s| => LowerChar(s[i]))
  }

  lemma LowerIdempotent(s: string)
    ensures Lower(Lower(s)) == Lower(s)
  {
  }

  lemma LowerSlice(s: string, i: int, j: int)
    requires 0 <= i <= j <= |s|
    ensures Lower(s)[i..j] == Lower(s[i..j])
  {
  }

  /** Folding commutes with building the pattern `%p%`. */
  lemma LowerPattern(p: string)
    ensures Lower("%" + p + "%") == "%" + Lower(p) + "%"
  {
    var l := Lower("%" + p + "%");
    assert forall i :: 1 <= i <= |p| ==> l[i] == LowerChar(p[i - 1]);
  }

  /** Characters that no folding produces from, or turns into, another character. */
  predicate NotLetter(c: char)
  {
    !('A' <= c <= 'Z') && !('a' <= c <= 'z')
  }

  /** An escape character for which folding cannot create or destroy an escape. */
  predicate SafeEscape(esc: Option<char>)
  {
    esc.None? || NotLetter(esc.value)
  }

  predicate SameLetter(a: char, b: char)
  {
    LowerChar(a) == LowerChar(b)
  }

  /** A pattern without the run wildcard `%`. */
  predicate NoPercent(p: string)
  {
    forall i :: 0 <= i < |p| ==> p[i] != '%'
  }

  /**
   * SQLite's `s LIKE p ESCAPE esc` (no ESCAPE clause when `esc` is None).
   * Without `%` a pattern matches no string longer than itself, and
   * without an escape character only strings of its own length.
   */
  function Like(s: string, p: string, esc: Option<char>): (r: bool)
    ensures r && NoPercent(p) ==> |s| <= |p|
    ensures r && esc.None? && NoPercent(p) ==> |s| == |p|
    decreases |s| + |p|
  {
    if p == [] then s == []
    else if p[0] == '%' then Like(s, p[1..], esc) || (s != [] && Like(s[1..], p, esc))
    else if esc == Some(p[0]) then |p| >= 2 && s != [] && SameLetter(s[0], p[1]) && Like(s[1..], p[2..], esc)
    else if p[0] == '_' then s != [] && Like(s[1..], p[1..], esc)
    else s != [] && SameLetter(s[0], p[0]) && Like(s[1..], p[1..], esc)
  }

  /** Without an escape character every string, read as a pattern, matches itself. */
  lemma {:induction false} PatternMatchesItself(s: string)
    ensures Like(s, s, None)
    decreases |s|
  {
    if s != [] {
      PatternMatchesItself(s[1..]);
      if s[0] == '%' {
        assert Like(s[1..], s[1..], None);
        assert Like(s[1..], s, None);
      }
    }
  }

  /** A trailing `%` keeps every match. */
  lemma {:induction false} AppendPercent(s: string, p: string, esc: Option<char>)
    requires Like(s, p, esc)
    ensures Like(s, p + "%", esc)
    decreases |s| + |p|
  {
    var pp := p + "%";
    if p == [] {
      assert pp == "%";
      PercentMatchesAll(s, esc);
    } else if p[0] == '%' {
      assert pp[0] == '%' && pp[1..] == p[1..] + "%";
      if Like(s, p[1..], esc) {
        AppendPercent(s, p[1..], esc);
      } else {
        AppendPercent(s[1..], p, esc);
      }
    } else if esc == Some(p[0]) {
      assert pp[0] == p[0] && pp[1] == p[1] && pp[2..] == p[2..] + "%";
      AppendPercent(s[1..], p[2..], esc);
    } else {
      assert pp[0] == p[0] && pp[1..] == p[1..] + "%";
      AppendPercent(s[1..], p[1..], esc);
    }
  }

  /** Without an escape character every string matches `%s%`, whatever wildcards it holds. */
  lemma SurroundedPatternMatchesItself(s: string)
    ensures Like(s, "%" + s + "%", None)
  {
    PatternMatchesItself(s);
    AppendPercent(s, s, None);
    assert "%" + s + "%" == "%" + (s + "%");
    PercentPrefix(s, s + "%", None);
    assert s[0..] == s;
  }

  /** `q` occurs in `s` at offset `k` when ASCII case is ignored. */
  ghost predicate OccursAt(s: string, q: string, k: int)
  {
    0 <= k <= |s| - |q| && Lower(s[k..k + |q|]) == Lower(q)
  }

  /** `q` occurs in `s` when ASCII case is ignored. */
  ghost predicate ContainsIgnoringCase(s: string, q: string)
  {
    exists k :: OccursAt(s, q, k)
  }

  /** A search term with no wildcard in it. */
  predicate Literal(q: string)
  {
    forall i :: 0 <= i < |q| ==> q[i] != '%' && q[i] != '_'
  }

  /** `p` is a pattern without wildcards that matches exactly the text `q` (up to case). */
  ghost predicate Denotes(p: string, q: string, esc: Option<char>)
    decreases |p|
  {
    if p == [] then q == []
    else if p[0] == '%' then false
    else if esc == Some(p[0]) then |p| >= 2 && q != [] && p[1] == q[0] && Denotes(p[2..], q[1..], esc)
    else if p[0] == '_' then false
    else q != [] && p[0] == q[0] && Denotes(p[1..], q[1..], esc)
  }

  /** Escapes `%`, `_` and the escape character `/` itself, so that the term is taken literally. */
  function Escape(q: string): (p: string)
  {
    if q == [] then []
    else (if q[0] == '%' || q[0] == '_' || q[0] == '/' then ['/', q[0]] else [q[0]]) + Escape(q[1..])
  }

  lemma {:induction false} PercentMatchesAll(s: string, esc: Option<char>)
    ensures Like(s, "%", esc)
    decreases |s|
  {
    assert "%"[1..] == [];
    if s != [] {
      PercentMatchesAll(s[1..], esc);
    }
  }

  /** Two strings of equal length are equal up to case iff their heads and tails are. */
  lemma LowerEqualCons(a: string, b: string)
    requires |a| == |b| > 0
    ensures Lower(a) == Lower(b) <==> SameLetter(a[0], b[0]) && Lower(a[1..]) == Lower(b[1..])
  {
    var la, lb := Lower(a), Lower(b);
    assert la == [LowerChar(a[0])] + Lower(a[1..]);
    assert lb == [LowerChar(b[0])] + Lower(b[1..]);
    if la == lb {
      assert la[0] == lb[0] && la[1..] == lb[1..];
    }
  }

  /** A wildcard-free pattern followed by `%` matches exactly the strings that start with its text. */
  lemma {:induction false} LiteralPrefix(s: string, p: string, q: string, esc: Option<char>)
    requires Denotes(p, q, esc)
    ensures Like(s, p + "%", esc) <==> |q| <= |s| && Lower(s[..|q|]) == Lower(q)
    decreases |p|
  {
    var pp := p + "%";
    if p == [] {
      assert pp == "%";
      PercentMatchesAll(s, esc);
    } else if esc == Some(p[0]) {
      assert pp[0] == p[0] && pp[1] == p[1] && pp[2..] == p[2..] + "%";
      if s != [] {
        LiteralPrefix(s[1..], p[2..], q[1..], esc);
        if |q| <= |s| {
          assert s[..|q|][1..] == s[1..][..|q| - 1];
          LowerEqualCons(s[..|q|], q);
        }
      }
    } else {
      assert pp[0] == p[0] && pp[1..] == p[1..] + "%";
      if s != [] {
        LiteralPrefix(s[1..], p[1..], q[1..], esc);
        if |q| <= |s| {
          assert s[..|q|][1..] == s[1..][..|q| - 1];
          LowerEqualCons(s[..|q|], q);
        }
      }
    }
  }

  /** A leading `%` lets the rest of the pattern match any suffix. */
  lemma {:induction false} PercentPrefix(s: string, r: string, esc: Option<char>)
    ensures Like(s, "%" + r, esc) <==> exists k :: 0 <= k <= |s| && Like(s[k..], r, esc)
    decreases |s|
  {
    var p := "%" + r;
    assert p[0] == '%' && p[1..] == r;
    assert s[0..] == s;
    if s != [] {
      PercentPrefix(s[1..], r, esc);
      if Like(s, p, esc) && !Like(s, r, esc) {
        var k :| 0 <= k <= |s| - 1 && Like(s[1..][k..], r, esc);
        assert s[1..][k..] == s[k + 1..];
      }
      if exists k :: 0 <= k <= |s| && Like(s[k..], r, esc) {
        var k :| 0 <= k <= |s| && Like(s[k..], r, esc);
        if k > 0 {
          assert s[1..][k - 1..] == s[k..];
        }
      }
    }
  }

  /** `%p%` for a wildcard-free `p` is substring search for its text. */
  lemma LikeContains(s: string, p: string, q: string, esc: Option<char>)
    requires Denotes(p, q, esc)
    ensures Like(s, "%" + p + "%", esc) <==> ContainsIgnoringCase(s, q)
  {
    assert "%" + p + "%" == "%" + (p + "%");
    PercentPrefix(s, p + "%", esc);
    forall k | 0 <= k <= |s|
      ensures Like(s[k..], p + "%", esc) <==> OccursAt(s, q, k)
    {
      LiteralPrefix(s[k..], p, q, esc);
      if k <= |s| - |q| {
        assert s[k..][..|q|] == s[k..k + |q|];
      }
    }
  }

  /** A term without `%` or `_` is a pattern for itself when there is no escape character. */
  lemma {:induction false} LiteralDenotesItself(q: string)
    requires Literal(q)
    ensures Denotes(q, q, None)
    decreases |q|
  {
    if q != [] {
      LiteralDenotesItself(q[1..]);
    }
  }

  /** Every term, escaped, is a pattern for itself with `/` as the escape character. */
  lemma {:induction false} EscapeDenotes(q: string)
    ensures Denotes(Escape(q), q, Some('/'))
    decreases |q|
  {
    if q != [] {
      EscapeDenotes(q[1..]);
      var p := Escape(q);
      if q[0] == '%' || q[0] == '_' || q[0] == '/' {
        assert p[0] == '/' && p[1] == q[0] && p[2..] == Escape(q[1..]);
      } else {
        assert p[0] == q[0] && p[1..] == Escape(q[1..]);
      }
    }
  }

  /** Folding a wildcard-free pattern gives a pattern for the folded text. */
  lemma {:induction false} LowerDenotes(p: string, q: string, esc: Option<char>)
    requires Denotes(p, q, esc) && SafeEscape(esc)
    ensures Denotes(Lower(p), Lower(q), esc)
    decreases |p|
  {
    if p != [] {
      var lp, lq := Lower(p), Lower(q);
      if esc == Some(p[0]) {
        LowerDenotes(p[2..], q[1..], esc);
        assert lp[0] == p[0] && lp[1] == lq[0];
        assert lp[2..] == Lower(p[2..]) && lq[1..] == Lower(q[1..]);
      } else {
        LowerDenotes(p[1..], q[1..], esc);
        assert lp[0] == lq[0];
        assert lp[1..] == Lower(p[1..]) && lq[1..] == Lower(q[1..]);
      }
    }
  }

  /** Containment up to case does not change when both strings are folded first. */
  lemma ContainsLowered(s: string, q: string)
    ensures ContainsIgnoringCase(Lower(s), Lower(q)) <==> ContainsIgnoringCase(s, q)
  {
    LowerIdempotent(q);
    forall k ensures OccursAt(Lower(s), Lower(q), k) <==> OccursAt(s, q, k) {
      if 0 <= k <= |s| - |q| {
        LowerSlice(s, k, k + |q|);
        LowerIdempotent(s[k..k + |q|]);
      }
    }
  }

  /**
   * `lower(v) LIKE lower('%p%') ESCAPE esc` holds exactly when the text of the
   * wildcard-free pattern `p` occurs in `v`, ignoring ASCII case.
   */
  lemma FoldedLikeContains(v: string, p: string, q: string, esc: Option<char>)
    requires Denotes(p, q, esc) && SafeEscape(esc)
    ensures Like(Lower(v), Lower("%" + p + "%"), esc) <==> ContainsIgnoringCase(v, q)
  {
    LowerPattern(p);
    LowerDenotes(p, q, esc);
    LikeContains(Lower(v), Lower(p), Lower(q), esc);
    ContainsLowered(v, q);
  }
}
