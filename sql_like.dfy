/**
 * SQLite's treatment of text as search_users and the schema's CHECK
 * constraints see it (messy-migration/app.py:256-257, init_db.py:29-30).
 * SQLite reads a text value as a NUL-terminated string, so `length()` and
 * `LIKE` see only the characters before the first NUL. `LIKE` has no ESCAPE
 * clause here: `%` matches any run of characters, `_` matches exactly one
 * character, and other characters compare with ASCII letters folded to lower
 * case (SQLite's default; non-ASCII characters compare exactly).
 */
module SqlLike {
  import opened Text

  /** SQLite's `length()` of a text value: the characters before the first
      NUL, which need not be all of them. */
  function SqlLength(s: string): (n: nat)
    ensures n <= |s|
    ensures forall i :: 0 <= i < n ==> s[i] != '\0'
    ensures n == |s| || s[n] == '\0'
  {
    if s == [] || s[0] == '\0' then 0 else 1 + SqlLength(s[1..])
  }

  /** A string without NUL is measured in full. */
  lemma NulFreeSqlLength(s: string)
    requires forall i :: 0 <= i < |s| ==> s[i] != '\0'
    ensures SqlLength(s) == |s|
  {
  }

  /** The text SQLite's string functions see: everything before the first NUL. */
  function BeforeNul(s: string): (r: string)
    ensures '\0' !in r
    ensures r <= s
    ensures '\0' !in s ==> r == s
    ensures '\0' in s ==> |r| < |s| && s[|r|] == '\0'
  {
    s[..SqlLength(s)]
  }

  /** Text before a NUL-free prefix's end carries on into what follows it. */
  lemma BeforeNulAppend(a: string, b: string)
    requires '\0' !in a
    ensures BeforeNul(a + b) == a + BeforeNul(b)
  {
    var n := |a| + SqlLength(b);
    var ab := a + b;
    forall i | 0 <= i < n ensures ab[i] != '\0' {
      if i >= |a| {
        assert ab[i] == b[i - |a|];
      }
    }
    SqlLengthIsFirstNul(ab, n);
    assert ab[..n] == a + b[..SqlLength(b)];
  }

  /** A NUL in the first part cuts the second part off. */
  lemma BeforeNulCut(a: string, b: string)
    requires '\0' in a
    ensures BeforeNul(a + b) == BeforeNul(a)
  {
    var n := SqlLength(a);
    var ab := a + b;
    assert a[n] == '\0' && ab[n] == a[n];
    SqlLengthIsFirstNul(ab, n);
    assert ab[..n] == a[..n];
  }

  /** SQLite's length is the index of the first NUL, or the whole length. */
  lemma SqlLengthIsFirstNul(s: string, n: nat)
    requires n <= |s|
    requires forall i :: 0 <= i < n ==> s[i] != '\0'
    requires n == |s| || s[n] == '\0'
    ensures SqlLength(s) == n
  {
  }

  /** `s LIKE p`: SQLite's pattern match over the two texts as far as their
      first NUL. */
  predicate Like(s: string, p: string) {
    PatternMatch(BeforeNul(s), BeforeNul(p))
  }

  /** SQLite's pattern comparison of two NUL-free texts. */
  predicate PatternMatch(s: string, p: string)
    decreases |s| + |p|
  {
    if p == [] then s == []
    else if p[0] == '%' then PatternMatch(s, p[1..]) || (s != [] && PatternMatch(s[1..], p))
    else if s == [] then false
    else if p[0] == '_' then PatternMatch(s[1..], p[1..])
    else LowerChar(s[0]) == LowerChar(p[0]) && PatternMatch(s[1..], p[1..])
  }

  /** A pattern made only of literal characters. */
  predicate NoWildcards(t: string) { '%' !in t && '_' !in t }

  /** `t` occurs in `s` at some position, ignoring ASCII case. */
  ghost predicate ContainsIgnoreCase(s: string, t: string) {
    exists i :: OccursAt(s, t, i)
  }

  /** `s` ends with `t`, ignoring ASCII case. */
  predicate EndsWithIgnoreCase(s: string, t: string) {
    |t| <= |s| && EqualIgnoreCase(s[|s| - |t|..], t)
  }

  /** `t` occurs in `s` starting at index `i`, ignoring ASCII case. */
  predicate OccursAt(s: string, t: string, i: int) {
    0 <= i && i + |t| <= |s| && EqualIgnoreCase(s[i..i + |t|], t)
  }

  /** A lone `%` matches every string. */
  lemma {:induction false} MatchPercent(s: string)
    ensures PatternMatch(s, "%")
  {
    if s != [] {
      MatchPercent(s[1..]);
    }
  }

  /** A literal prefix of the pattern must match a prefix of the text. */
  lemma {:induction false} MatchLiteralPrefix(s: string, t: string, rest: string)
    requires NoWildcards(t)
    ensures PatternMatch(s, t + rest) <==>
            |t| <= |s| && EqualIgnoreCase(s[..|t|], t) && PatternMatch(s[|t|..], rest)
  {
    if t != [] {
      assert (t + rest)[0] == t[0] && (t + rest)[1..] == t[1..] + rest;
      if s != [] {
        MatchLiteralPrefix(s[1..], t[1..], rest);
        if |t| <= |s| {
          assert s[1..][|t| - 1..] == s[|t|..];
          assert s[..|t|] == [s[0]] + s[1..][..|t| - 1];
          EqualIgnoreCaseCons(s[0], s[1..][..|t| - 1], t);
        }
      }
    } else {
      assert t + rest == rest;
    }
  }

  lemma EqualIgnoreCaseCons(c: char, a: string, t: string)
    requires |t| >= 1
    ensures EqualIgnoreCase([c] + a, t) <==>
            LowerChar(c) == LowerChar(t[0]) && EqualIgnoreCase(a, t[1..])
  {
    if LowerChar(c) == LowerChar(t[0]) && EqualIgnoreCase(a, t[1..]) {
      forall i | 0 <= i < |[c] + a| ensures LowerChar(([c] + a)[i]) == LowerChar(t[i]) {
        if i > 0 {
          assert ([c] + a)[i] == a[i - 1] && t[i] == t[1..][i - 1];
        }
      }
    }
    if EqualIgnoreCase([c] + a, t) {
      assert LowerChar(([c] + a)[0]) == LowerChar(t[0]);
      forall i | 0 <= i < |a| ensures LowerChar(a[i]) == LowerChar(t[1..][i]) {
        assert ([c] + a)[i + 1] == a[i];
      }
    }
  }

  /** A leading `%` lets the rest of the pattern match any suffix. */
  lemma {:induction false} MatchLeadingPercent(s: string, q: string)
    ensures PatternMatch(s, "%" + q) <==> exists i :: 0 <= i <= |s| && PatternMatch(s[i..], q)
  {
    var p := "%" + q;
    assert p[1..] == q;
    assert s[0..] == s;
    if s != [] {
      MatchLeadingPercent(s[1..], q);
      if exists i :: 0 <= i <= |s| && PatternMatch(s[i..], q) {
        var i :| 0 <= i <= |s| && PatternMatch(s[i..], q);
        if i > 0 {
          assert s[1..][i - 1..] == s[i..];
        }
      }
      if exists i :: 0 <= i <= |s[1..]| && PatternMatch(s[1..][i..], q) {
        var i :| 0 <= i <= |s[1..]| && PatternMatch(s[1..][i..], q);
        assert s[1..][i..] == s[i + 1..];
      }
    }
  }

  /** `s LIKE '%q'` holds exactly when the rest of the pattern matches some
      suffix of the name's text before its first NUL. */
  lemma LikeLeadingPercent(s: string, q: string)
    ensures Like(s, "%" + q) <==>
            exists i :: 0 <= i <= |BeforeNul(s)| && Like(BeforeNul(s)[i..], q)
  {
    var c := BeforeNul(s);
    BeforeNulAppend("%", q);
    MatchLeadingPercent(c, BeforeNul(q));
    forall i | 0 <= i <= |c| ensures BeforeNul(c[i..]) == c[i..] {
      assert '\0' !in c[i..];
    }
  }

  /** The search pattern `%t%` of a term without wildcards or NUL selects
      exactly the names whose text before its first NUL contains the term,
      ignoring ASCII case. */
  lemma LikeSubstring(s: string, t: string)
    requires NoWildcards(t) && '\0' !in t
    ensures Like(s, "%" + t + "%") <==> ContainsIgnoreCase(BeforeNul(s), t)
  {
    var c := BeforeNul(s);
    assert "%" + t + "%" == "%" + t + "%" + [];
    BeforeNulAppend("%" + t + "%", []);
    MatchSubstring(c, t);
  }

  /** A wildcard-free term with a NUL is cut there together with the closing
      `%`: `%t%` then selects exactly the names whose text before its first
      NUL ends with the term's text before its NUL, ignoring ASCII case. An
      all-NUL term matches every name. */
  lemma LikeNulTerm(s: string, t: string)
    requires NoWildcards(t) && '\0' in t
    ensures Like(s, "%" + t + "%") <==> EndsWithIgnoreCase(BeforeNul(s), BeforeNul(t))
  {
    NulTermPattern(t);
    var u := BeforeNul(t);
    assert NoWildcards(u) by {
      assert u == t[..|u|];
    }
    MatchSuffix(BeforeNul(s), u);
  }

  /** The pattern `%t%` of a term with a NUL reads as `%` and the term's text
      before its NUL. */
  lemma NulTermPattern(t: string)
    requires '\0' in t
    ensures BeforeNul("%" + t + "%") == "%" + BeforeNul(t)
  {
    assert "%" + t + "%" == "%" + (t + "%");
    BeforeNulAppend("%", t + "%");
    BeforeNulCut(t, "%");
  }

  /** `%u` for a literal `u` matches exactly the texts ending with `u`. */
  lemma MatchSuffix(c: string, u: string)
    requires NoWildcards(u)
    ensures PatternMatch(c, "%" + u) <==> EndsWithIgnoreCase(c, u)
  {
    assert u + [] == u;
    MatchLeadingPercent(c, u);
    if PatternMatch(c, "%" + u) {
      var i :| 0 <= i <= |c| && PatternMatch(c[i..], u);
      MatchLiteralPrefix(c[i..], u, []);
      assert c[i..][..|u|] == c[|c| - |u|..];
    }
    if EndsWithIgnoreCase(c, u) {
      var i := |c| - |u|;
      MatchLiteralPrefix(c[i..], u, []);
      assert c[i..][..|u|] == c[|c| - |u|..];
    }
  }

  /** `%t%` matches a NUL-free text exactly when it contains `t`. */
  lemma MatchSubstring(s: string, t: string)
    requires NoWildcards(t)
    ensures PatternMatch(s, "%" + t + "%") <==> ContainsIgnoreCase(s, t)
  {
    assert "%" + t + "%" == "%" + (t + "%");
    MatchLeadingPercent(s, t + "%");
    if PatternMatch(s, "%" + t + "%") {
      var i :| 0 <= i <= |s| && PatternMatch(s[i..], t + "%");
      MatchLiteralPrefix(s[i..], t, "%");
      assert s[i..][..|t|] == s[i..i + |t|];
      assert OccursAt(s, t, i);
    }
    if ContainsIgnoreCase(s, t) {
      var i :| OccursAt(s, t, i);
      MatchLiteralPrefix(s[i..], t, "%");
      assert s[i..][..|t|] == s[i..i + |t|];
      MatchPercent(s[i..][|t|..]);
    }
  }
}
