/**
 * The input validators of the user-management service
 * (messy-migration/app.py:32-46 and 60-65). JSON values that are not strings
 * are not modelled: an absent field is `None`, a present one `Some(text)`.
 */
module Validators {
  import opened Wrappers
  import opened Text

  /** Python truthiness of an optional string: present and not "". */
  predicate Truthy(v: Option<string>) { v.Some? && v.value != "" }

  // ---------------------------------------------------------------- email

  /** `[a-zA-Z0-9._%+-]`: a character of the local part. */
  predicate LocalChar(c: char) {
    IsAsciiAlnum(c) || c == '.' || c == '_' || c == '%' || c == '+' || c == '-'
  }

  /** `[a-zA-Z0-9.-]`: a character of the domain part. */
  predicate DomainChar(c: char) { IsAsciiAlnum(c) || c == '.' || c == '-' }

  /** The pattern `^[a-zA-Z0-9._%+-]+@[a-zA-Z0-9.-]+\.[a-zA-Z]{2,}$` matches
      `s` with its `@` at index `at` and its `\.` at index `dot`. */
  ghost predicate EmailMatchAt(s: string, at: int, dot: int) {
    && 0 < at && at + 1 < dot && dot + 2 < |s|
    && (forall i :: 0 <= i < at ==> LocalChar(s[i]))
    && s[at] == '@'
    && (forall i :: at < i < dot ==> DomainChar(s[i]))
    && s[dot] == '.'
    && (forall i :: dot < i < |s| ==> IsAsciiLetter(s[i]))
  }

  /** The email pattern matches `s` (regex semantics: some split exists). */
  ghost predicate EmailPattern(s: string) {
    exists at, dot :: EmailMatchAt(s, at, dot)
  }

  /** The text after the `@`: domain characters, then a dot and two or more
      letters after the last dot. */
  predicate DomainPartOk(d: string) {
    var parts := Split(d, '.');
    var tld := parts[|parts| - 1];
    && |parts| >= 2
    && |tld| >= 2 && AllLetters(tld)
    && |d| - |tld| - 1 >= 1
    && forall i :: 0 <= i < |d| - |tld| - 1 ==> DomainChar(d[i])
  }

  /** Decides the email pattern by splitting on `@` and on the last dot. */
  predicate EmailShapeOk(s: string) {
    var parts := Split(s, '@');
    && |parts| == 2
    && |parts[0]| >= 1
    && (forall i :: 0 <= i < |parts[0]| ==> LocalChar(parts[0][i]))
    && DomainPartOk(parts[1])
  }

  /** The domain part of a valid email holds no whitespace and no NUL. */
  lemma DomainPartHasNoSpace(d: string)
    requires DomainPartOk(d)
    ensures forall i :: 0 <= i < |d| ==> !IsSpace(d[i]) && d[i] != '\0'
  {
    var q := Split(d, '.');
    var tld := q[|q| - 1];
    SplitLastIsSuffix(d, '.', q);
    forall x | |d| - |tld| <= x < |d| ensures !IsSpace(d[x]) && d[x] != '\0' {
      assert d[x] == d[|d| - |tld|..][x - (|d| - |tld|)];
    }
  }

  /** validate_email (app.py:32-36): false for a missing or empty value or for
      more than 254 characters, otherwise whether the pattern matches. */
  function ValidateEmail(email: Option<string>): (ok: bool)
    ensures ok <==> email.Some? && 1 <= |email.value| <= 254 && EmailPattern(email.value)
  {
    if email.Some? then
      EmailShapeIsPattern(email.value);
      email.value != "" && |email.value| <= 254 && EmailShapeOk(email.value)
    else false
  }

  /** The split on `@` and on the last dot decides exactly the regular expression. */
  lemma EmailShapeIsPattern(s: string)
    ensures EmailShapeOk(s) <==> EmailPattern(s)
  {
    if EmailShapeOk(s) {
      ShapeGivesMatch(s);
    }
    if EmailPattern(s) {
      var at, dot :| EmailMatchAt(s, at, dot);
      MatchGivesShape(s, at, dot);
    }
  }

  lemma ShapeGivesMatch(s: string)
    requires EmailShapeOk(s)
    ensures EmailPattern(s)
  {
    var parts := Split(s, '@');
    JoinSplit(s, '@');
    var local, d := parts[0], parts[1];
    assert Join(parts, '@') == local + ['@'] + d;
    var q := Split(d, '.');
    var tld := q[|q| - 1];
    JoinSplit(d, '.');
    JoinSnoc(q, '.');
    var front := Join(q[..|q| - 1], '.');
    MatchFromPieces(s, local, d, front, tld);
  }

  /** Reassembles the regular-expression match from the pieces of the split. */
  lemma MatchFromPieces(s: string, local: string, d: string, front: string, tld: string)
    requires s == local + ['@'] + d && d == front + ['.'] + tld
    requires |local| >= 1 && forall i :: 0 <= i < |local| ==> LocalChar(local[i])
    requires |tld| >= 2 && AllLetters(tld)
    requires |front| >= 1 && forall i :: 0 <= i < |front| ==> DomainChar(d[i])
    ensures EmailMatchAt(s, |local|, |local| + 1 + |front|)
  {
    var at, dot := |local|, |local| + 1 + |front|;
    forall i | 0 <= i < at ensures LocalChar(s[i]) {
      assert s[i] == local[i];
    }
    forall i | at < i < dot ensures DomainChar(s[i]) {
      assert s[i] == d[i - at - 1];
    }
    assert s[dot] == d[|front|];
    forall i | dot < i < |s| ensures IsAsciiLetter(s[i]) {
      assert s[i] == tld[i - dot - 1];
    }
  }

  lemma MatchGivesShape(s: string, at: int, dot: int)
    requires EmailMatchAt(s, at, dot)
    ensures EmailShapeOk(s)
  {
    var local, d := s[..at], s[at + 1..];
    assert s == local + ['@'] + d;
    assert '@' !in local by {
      forall i | 0 <= i < |local| ensures local[i] != '@' { assert LocalChar(s[i]); }
    }
    assert '@' !in d by {
      forall i | 0 <= i < |d| ensures d[i] != '@' {
        assert s[at + 1 + i] == d[i];
      }
    }
    assert Join([local, d], '@') == local + ['@'] + d;
    SplitJoin([local, d], '@');
    assert Split(s, '@') == [local, d];
    DomainMatchGivesShape(s, at, dot, d);
  }

  lemma DomainMatchGivesShape(s: string, at: int, dot: int, d: string)
    requires EmailMatchAt(s, at, dot) && d == s[at + 1..]
    ensures DomainPartOk(d)
  {
    var front, tld := s[at + 1..dot], s[dot + 1..];
    assert d == front + ['.'] + tld;
    assert '.' !in tld by {
      forall i | 0 <= i < |tld| ensures tld[i] != '.' { assert IsAsciiLetter(s[dot + 1 + i]); }
    }
    SplitConcat(front, tld, '.');
    SplitOfSeparatorFree(tld, '.');
    var q := Split(d, '.');
    assert q == Split(front, '.') + [tld];
    assert q[|q| - 1] == tld;
    forall i | 0 <= i < |tld| ensures IsAsciiLetter(tld[i]) { assert tld[i] == s[dot + 1 + i]; }
    forall i | 0 <= i < |d| - |tld| - 1 ensures DomainChar(d[i]) { assert d[i] == s[at + 1 + i]; }
  }

  /** A valid email has no whitespace, so the `strip()` that create_user and
      update_user apply to it (app.py:146, 204) leaves it unchanged; nor does
      it hold a NUL. */
  lemma ValidEmailIsStripped(e: string)
    requires ValidateEmail(Some(e))
    ensures Strip(e) == e
    ensures forall i :: 0 <= i < |e| ==> e[i] != '\0'
  {
    var parts := Split(e, '@');
    JoinSplit(e, '@');
    var local, d := parts[0], parts[1];
    assert e == local + ['@'] + d;
    DomainPartHasNoSpace(d);
    forall i | 0 <= i < |e| ensures !IsSpace(e[i]) && e[i] != '\0' {
      if i < |local| {
        assert LocalChar(local[i]);
      } else if i > |local| {
        assert e[i] == d[i - |local| - 1];
      }
    }
    StripOfSpaceFree(e);
  }

  // ---------------------------------------------------------------- name and password

  /** validate_name (app.py:38-41): a non-empty string whose stripped length is 1..100. */
  function ValidateName(name: Option<string>): (ok: bool)
    ensures ok <==> name.Some? && 1 <= |Strip(name.value)| <= 100
  {
    name.Some? && name.value != "" && 1 <= |Strip(name.value)| <= 100
  }

  /** The stripped name that create_user and update_user store is itself a
      valid name and is its own strip, so a stored name re-validates. */
  lemma StrippedNameStaysValid(name: string)
    requires ValidateName(Some(name))
    ensures ValidateName(Some(Strip(name))) && Strip(Strip(name)) == Strip(name)
  {
    StripIdempotent(name);
  }

  /** validate_password (app.py:43-46): a non-empty string of length at least 6. */
  function ValidatePassword(password: Option<string>): (ok: bool)
    ensures ok <==> password.Some? && |password.value| >= 6
  {
    password.Some? && password.value != "" && |password.value| >= 6
  }

  // ---------------------------------------------------------------- user id

  /** The text Python's `int()` accepts, in ASCII and without surrounding
      whitespace or underscores: an optional sign and one or more digits. */
  predicate IsIntLiteral(s: string) {
    || (|s| >= 1 && AllDigits(s))
    || (|s| >= 2 && (s[0] == '+' || s[0] == '-') && AllDigits(s[1..]))
  }

  function DigitValue(c: char): (d: nat)
    requires IsAsciiDigit(c)
    ensures d <= 9
  {
    c as int - '0' as int
  }

  /** The value of a string of decimal digits ("" counts as 0). */
  function DigitsValue(s: string): nat
    requires AllDigits(s)
  {
    if s == [] then 0 else 10 * DigitsValue(s[..|s| - 1]) + DigitValue(s[|s| - 1])
  }

  /** `int(s)`: `None` where Python raises ValueError. */
  function ParseInt(s: string): (r: Option<int>)
    ensures r.Some? <==> IsIntLiteral(s)
  {
    if |s| >= 1 && AllDigits(s) then Some(DigitsValue(s))
    else if |s| >= 2 && s[0] == '-' && AllDigits(s[1..]) then Some(0 - DigitsValue(s[1..]) as int)
    else if |s| >= 2 && s[0] == '+' && AllDigits(s[1..]) then Some(DigitsValue(s[1..]))
    else None
  }

  /** validate_user_id (app.py:60-65): `int(user_id) > 0`, and false (not an
      error) when `int()` raises ValueError. */
  function ValidateUserId(userId: string): (ok: bool)
    ensures ok <==> ParseInt(userId).Some? && ParseInt(userId).value >= 1
    ensures !IsIntLiteral(userId) ==> !ok
  {
    match ParseInt(userId)
    case Some(n) => n > 0
    case None => false
  }

  /** The decimal rendering of a natural number, without leading zeros. */
  function ShowNat(n: nat): (s: string)
    ensures |s| >= 1 && AllDigits(s)
  {
    var d := ['0' + (n % 10) as char];
    if n < 10 then d else ShowNat(n / 10) + d
  }

  /** The decimal rendering of an integer, with a minus sign when negative. */
  function ShowInt(n: int): string {
    if n < 0 then "-" + ShowNat(-n) else ShowNat(n)
  }

  lemma {:induction false} DigitsValueOfShowNat(n: nat)
    ensures DigitsValue(ShowNat(n)) == n
  {
    var s := ShowNat(n);
    if n >= 10 {
      DigitsValueOfShowNat(n / 10);
      assert s[..|s| - 1] == ShowNat(n / 10);
    }
  }

  /** `int()` reads back every integer's decimal rendering. */
  lemma ParseShowInt(n: int)
    ensures ParseInt(ShowInt(n)) == Some(n)
  {
    if n < 0 {
      ParseShowNegative(-n);
    } else {
      ParseShowNat(n);
    }
  }

  lemma ParseShowNat(m: nat)
    ensures ParseInt(ShowNat(m)) == Some(m)
  {
    DigitsValueOfShowNat(m);
  }

  lemma ParseShowNegative(m: nat)
    ensures ParseInt("-" + ShowNat(m)) == Some(-(m as int))
  {
    var s := "-" + ShowNat(m);
    assert s[0] == '-' && !IsAsciiDigit(s[0]);
    assert s[1..] == ShowNat(m);
    DigitsValueOfShowNat(m);
  }

  /** validate_user_id accepts the rendering of an integer exactly when it is positive. */
  lemma ValidateUserIdOfInt(n: int)
    ensures ValidateUserId(ShowInt(n)) <==> n > 0
  {
    ParseShowInt(n);
  }
}
