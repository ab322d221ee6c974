/**
 * The search rule of `SecretManager.query(q)`: a row matches when
 * `lower(name) LIKE lower('%q%')` or `lower(website) LIKE lower('%q%')`.
 * The term is pasted into the pattern unescaped, so `%` and `_` in it are
 * wildcards; `MatchesEscaped` is the rule with the term escaped.
 */
module Search {
  import opened Wrappers
  import opened Records
  import opened SqlLike

  /** `'%{q}%'.format(q=q)`. */
  function Pattern(q: string): string
  {
    "%" + q + "%"
  }

  /** `column.ilike(pattern)` on a nullable column: NULL never matches. */
  predicate FieldLike(v: Option<string>, pattern: string, esc: Option<char>)
  {
    v.Some? && Like(Lower(v.value), Lower(pattern), esc)
  }

  /** The filter of `query(q)`, as written. */
  predicate Matches(s: Secret, q: string)
    ensures Matches(s, q) ==> s.name.Some? || s.website.Some?
    ensures s.name == Some(q) || s.website == Some(q) ==> Matches(s, q)
  {
    LowerPattern(q);
    SurroundedPatternMatchesItself(Lower(q));
    FieldLike(s.name, Pattern(q), None) || FieldLike(s.website, Pattern(q), None)
  }

  /** The intended rule: the term occurs in the name or the website, ignoring ASCII case. */
  ghost predicate ContainsTerm(s: Secret, q: string)
  {
    (s.name.Some? && ContainsIgnoringCase(s.name.value, q))
    || (s.website.Some? && ContainsIgnoringCase(s.website.value, q))
  }

  /** The filter with the term escaped: `ilike('%' + Escape(q) + '%', escape='/')`. */
  predicate MatchesEscaped(s: Secret, q: string)
    ensures MatchesEscaped(s, q) ==> s.name.Some? || s.website.Some?
    ensures s.name == Some(q) || s.website == Some(q) ==> MatchesEscaped(s, q)
  {
    EscapeDenotes(q);
    FoldedLikeContains(q, Escape(q), q, Some('/'));
    assert OccursAt(q, q, 0);
    FieldLike(s.name, "%" + Escape(q) + "%", Some('/'))
    || FieldLike(s.website, "%" + Escape(q) + "%", Some('/'))
  }

  /** For a term without `%` or `_`, the query as written is case-insensitive containment. */
  lemma MatchesIffContains(s: Secret, q: string)
    requires Literal(q)
    ensures Matches(s, q) <==> ContainsTerm(s, q)
  {
    LiteralDenotesItself(q);
    if s.name.Some? {
      FoldedLikeContains(s.name.value, q, q, None);
    }
    if s.website.Some? {
      FoldedLikeContains(s.website.value, q, q, None);
    }
  }

  /** With the term escaped, the query is case-insensitive containment for every term. */
  lemma EscapedMatchesIffContains(s: Secret, q: string)
    ensures MatchesEscaped(s, q) <==> ContainsTerm(s, q)
  {
    EscapeDenotes(q);
    if s.name.Some? {
      FoldedLikeContains(s.name.value, Escape(q), q, Some('/'));
    }
    if s.website.Some? {
      FoldedLikeContains(s.website.value, Escape(q), q, Some('/'));
    }
  }

  /** Terms that differ only in ASCII case select the same rows. */
  lemma MatchesIgnoresCase(s: Secret, q1: string, q2: string)
    requires Lower(q1) == Lower(q2)
    ensures Matches(s, q1) == Matches(s, q2)
  {
    LowerPattern(q1);
    LowerPattern(q2);
  }

  /** The empty term selects every row whose name or website is not NULL, and no other. */
  lemma EmptyTermMatchesSetColumns(s: Secret)
    ensures Matches(s, "") <==> s.name.Some? || s.website.Some?
  {
    MatchesIffContains(s, "");
    if s.name.Some? {
      assert OccursAt(s.name.value, "", 0);
    }
    if s.website.Some? {
      assert OccursAt(s.website.value, "", 0);
    }
  }

  lemma PercentTermMatchesFiveThousand()
    ensures Like("5000", "%" + "50%%", None)
  {
    assert Like("", "%", None) by { PercentMatchesAll("", None); }
    assert Like("00", "%%", None) by { PercentMatchesAll("00", None); }
    assert Like("000", "0%%", None);
    assert Like("5000", "50%%", None);
    PercentPrefix("5000", "50%%", None);
    assert "5000"[0..] == "5000";
  }

  lemma FiveThousandLacksPercentTerm()
    ensures !ContainsIgnoringCase("5000", "50%")
  {
    var w := "5000";
    forall k ensures !OccursAt(w, "50%", k) {
      if 0 <= k <= 1 {
        assert Lower(w[k..k + 3])[2] == '0' != Lower("50%")[2];
      }
    }
  }

  /**
   * The term `50%` selects a row whose website is `5000`, which does not
   * contain `50%`: the `%` of the term is a wildcard.
   */
  lemma PercentInTermOverMatches()
    ensures var s := Secret(1, None, Some("5000"), None, None, None);
      Matches(s, "50%") && !ContainsTerm(s, "50%")
  {
    assert Lower("5000") == "5000";
    assert Lower(Pattern("50%")) == "%" + "50%%";
    PercentTermMatchesFiveThousand();
    FiveThousandLacksPercentTerm();
  }

  lemma UnderscoreTermMatchesAbc()
    ensures Like("abc", "%" + "a_c%", None)
  {
    assert Like("", "%", None) by { PercentMatchesAll("", None); }
    assert Like("c", "c%", None);
    assert Like("bc", "_c%", None);
    assert Like("abc", "a_c%", None);
    PercentPrefix("abc", "a_c%", None);
    assert "abc"[0..] == "abc";
  }

  lemma AbcLacksUnderscoreTerm()
    ensures !ContainsIgnoringCase("abc", "a_c")
  {
    var n := "abc";
    forall k ensures !OccursAt(n, "a_c", k) {
      if k == 0 {
        assert n[0..3] == n;
        assert Lower(n)[1] == LowerChar('b') == 'b';
        assert Lower("a_c")[1] == LowerChar('_') == '_';
      }
    }
  }

  /**
   * The term `a_c` selects a row named `abc`, which does not contain `a_c`:
   * the `_` of the term is a wildcard.
   */
  lemma UnderscoreInTermOverMatches()
    ensures var s := Secret(1, Some("abc"), None, None, None, None);
      Matches(s, "a_c") && !ContainsTerm(s, "a_c")
  {
    assert Lower("abc") == "abc";
    assert Lower(Pattern("a_c")) == "%" + "a_c%";
    UnderscoreTermMatchesAbc();
    AbcLacksUnderscoreTerm();
  }
}
