/**
 * ASCII text helpers shared by both services: character classes, Python's
 * `str.strip()`, `str.lower()`, `str.startswith()` and `str.split(sep)`.
 * Only the ASCII behaviour of these Python methods is modelled.
 */
module Text {

  /** Python's `str.isspace()` restricted to ASCII: tab, line feed, vertical
      tab, form feed, carriage return, the separators 0x1C-0x1F and space. */
  predicate IsSpace(c: char) {
    ('\t' <= c <= '\r') || ('\U{1C}' <= c <= '\U{1F}') || c == ' '
  }

  predicate IsAsciiLower(c: char) { 'a' <= c <= 'z' }

  predicate IsAsciiUpper(c: char) { 'A' <= c <= 'Z' }

  predicate IsAsciiLetter(c: char) { IsAsciiLower(c) || IsAsciiUpper(c) }

  predicate IsAsciiDigit(c: char) { '0' <= c <= '9' }

  predicate IsAsciiAlnum(c: char) { IsAsciiLetter(c) || IsAsciiDigit(c) }

  predicate AllDigits(s: string) { forall i :: 0 <= i < |s| ==> IsAsciiDigit(s[i]) }

  predicate AllLetters(s: string) { forall i :: 0 <= i < |s| ==> IsAsciiLetter(s[i]) }

  /** Python's `str.isalnum()` on ASCII text: non-empty, every character a letter or a digit. */
  predicate IsAlnumString(s: string) { |s| > 0 && forall i :: 0 <= i < |s| ==> IsAsciiAlnum(s[i]) }

  // ---------------------------------------------------------------- case

  /** ASCII lower-casing of one character; every other character is kept. */
  function LowerChar(c: char): (d: char)
    ensures IsAsciiUpper(c) ==> d as int == c as int + 32
    ensures !IsAsciiUpper(c) ==> d == c
    ensures !IsAsciiUpper(d)
  {
    if IsAsciiUpper(c) then (c as int + 32) as char else c
  }

  /** Python's `str.lower()` on ASCII text. */
  function Lower(s: string): (r: string)
    ensures |r| == |s|
    ensures forall i :: 0 <= i < |s| ==> r[i] == LowerChar(s[i])
  {
    seq(|s|, i requires 0 <= i < |s| => LowerChar(s[i]))
  }

  /** Two strings that are equal once ASCII letters are folded to lower case. */
  predicate EqualIgnoreCase(a: string, b: string) {
    |a| == |b| && forall i :: 0 <= i < |a| ==> LowerChar(a[i]) == LowerChar(b[i])
  }

  lemma EqualIgnoreCaseIsLowerEqual(a: string, b: string)
    ensures EqualIgnoreCase(a, b) <==> Lower(a) == Lower(b)
  {
    if Lower(a) == Lower(b) {
      forall i | 0 <= i < |a| ensures LowerChar(a[i]) == LowerChar(b[i]) {
        assert Lower(a)[i] == Lower(b)[i];
      }
    }
  }

  /** No ASCII upper-case letter: the strings `Lower` yields. */
  predicate IsLowerCase(s: string) { forall i :: 0 <= i < |s| ==> !IsAsciiUpper(s[i]) }

  /** A string is lower case exactly when lower-casing leaves it unchanged. */
  lemma LowerCaseIsLowerFixed(s: string)
    ensures IsLowerCase(s) <==> Lower(s) == s
    ensures IsLowerCase(Lower(s))
  {
    if Lower(s) == s {
      forall i | 0 <= i < |s| ensures !IsAsciiUpper(s[i]) { assert Lower(s)[i] == s[i]; }
    }
  }

  // ---------------------------------------------------------------- prefixes

  /** Python's case-sensitive `s.startswith(p)`. */
  predicate StartsWith(s: string, p: string) { |p| <= |s| && s[..|p|] == p }

  /** `s.startswith(p)` with ASCII letters compared case-insensitively. */
  predicate StartsWithIgnoreCase(s: string, p: string) { |p| <= |s| && EqualIgnoreCase(s[..|p|], p) }

  // ---------------------------------------------------------------- strip

  /** How many whitespace characters `s` begins with. */
  function LeadingSpaces(s: string): (n: nat)
    ensures n <= |s|
    ensures forall i :: 0 <= i < n ==> IsSpace(s[i])
    ensures n < |s| ==> !IsSpace(s[n])
  {
    if |s| > 0 && IsSpace(s[0]) then 1 + LeadingSpaces(s[1..]) else 0
  }

  /** How many whitespace characters `s` ends with. */
  function TrailingSpaces(s: string): (n: nat)
    ensures n <= |s|
    ensures forall i :: |s| - n <= i < |s| ==> IsSpace(s[i])
    ensures n < |s| ==> !IsSpace(s[|s| - 1 - n])
  {
    if |s| > 0 && IsSpace(s[|s| - 1]) then 1 + TrailingSpaces(s[..|s| - 1]) else 0
  }

  /** `str.lstrip()`: drops the leading whitespace. */
  function TrimLeft(s: string): string
  {
    s[LeadingSpaces(s)..]
  }

  /** `str.rstrip()`: drops the trailing whitespace. */
  function TrimRight(s: string): string
  {
    s[..|s| - TrailingSpaces(s)]
  }

  /** Python's `str.strip()` (ASCII whitespace). */
  function Strip(s: string): string
  {
    TrimRight(TrimLeft(s))
  }

  /** Index in `s` where the stripped text begins. */
  function StripStart(s: string): (lo: nat)
    ensures lo <= |s|
  {
    LeadingSpaces(s)
  }

  /** What `strip` returns: the part of `s` between two runs of whitespace,
      neither starting nor ending with whitespace. */
  lemma StripIsTrimmedInfix(s: string)
    ensures StripStart(s) + |Strip(s)| <= |s|
    ensures Strip(s) == s[StripStart(s)..StripStart(s) + |Strip(s)|]
    ensures forall i :: 0 <= i < StripStart(s) ==> IsSpace(s[i])
    ensures forall i :: StripStart(s) + |Strip(s)| <= i < |s| ==> IsSpace(s[i])
    ensures Strip(s) == [] || (!IsSpace(Strip(s)[0]) && !IsSpace(Strip(s)[|Strip(s)| - 1]))
  {
    var lo := LeadingSpaces(s);
    var l := s[lo..];
    var t := TrailingSpaces(l);
    var r := l[..|l| - t];
    assert Strip(s) == r && r == s[lo..|s| - t];
    forall i | lo + |r| <= i < |s| ensures IsSpace(s[i]) {
      assert s[i] == l[i - lo];
    }
    if r != [] {
      assert r[0] == s[lo];
      assert r[|r| - 1] == l[|l| - 1 - t];
    }
  }

  /** A string that neither starts nor ends with whitespace is its own strip. */
  lemma StripOfTrimmed(s: string)
    requires s == [] || (!IsSpace(s[0]) && !IsSpace(s[|s| - 1]))
    ensures Strip(s) == s
  {
    assert LeadingSpaces(s) == 0 && TrimLeft(s) == s;
    assert TrailingSpaces(s) == 0;
  }

  /** `strip` is idempotent. */
  lemma StripIdempotent(s: string)
    ensures Strip(Strip(s)) == Strip(s)
  {
    StripIsTrimmedInfix(s);
    StripOfTrimmed(Strip(s));
  }

  /** A string without any whitespace is its own strip. */
  lemma StripOfSpaceFree(s: string)
    requires forall i :: 0 <= i < |s| ==> !IsSpace(s[i])
    ensures Strip(s) == s
  {
    StripOfTrimmed(s);
  }

  // ---------------------------------------------------------------- split / join

  /** Number of occurrences of `c` in `s`. */
  function Count(s: string, c: char): (n: nat)
    ensures n <= |s|
    ensures n == 0 <==> c !in s
  {
    if s == [] then 0 else (if s[0] == c then 1 else 0) + Count(s[1..], c)
  }

  /** Python's `s.split(sep)` for a one-character separator: the pieces between
      the separators, in order; "" gives [""]. */
  function Split(s: string, sep: char): (parts: seq<string>)
    ensures |parts| >= 1
  {
    if s == [] then [""]
    else
      var rest := Split(s[1..], sep);
      if s[0] == sep then [""] + rest
      else [[s[0]] + rest[0]] + rest[1..]
  }

  /** Python's `sep.join(parts)`. */
  function Join(parts: seq<string>, sep: char): string
  {
    if |parts| == 0 then ""
    else if |parts| == 1 then parts[0]
    else parts[0] + [sep] + Join(parts[1..], sep)
  }

  /** Joining the pieces of a split gives back the original string. */
  lemma {:induction false} JoinSplit(s: string, sep: char)
    ensures Join(Split(s, sep), sep) == s
  {
    if s != [] {
      JoinSplit(s[1..], sep);
      var rest := Split(s[1..], sep);
      if s[0] != sep {
        if |rest| == 1 {
          assert Split(s, sep) == [[s[0]] + rest[0]];
        } else {
          assert Split(s, sep)[1..] == rest[1..];
          assert Join(Split(s, sep), sep) == [s[0]] + rest[0] + [sep] + Join(rest[1..], sep);
        }
      } else {
        assert Split(s, sep)[1..] == rest;
      }
    }
  }

  /** Splitting joined pieces that contain no separator gives back the pieces. */
  lemma {:induction false} SplitJoin(parts: seq<string>, sep: char)
    requires |parts| > 0
    requires forall i :: 0 <= i < |parts| ==> sep !in parts[i]
    ensures Split(Join(parts, sep), sep) == parts
  {
    if |parts| == 1 {
      SplitOfSeparatorFree(parts[0], sep);
    } else {
      SplitJoin(parts[1..], sep);
      SplitConcat(parts[0], Join(parts[1..], sep), sep);
      SplitOfSeparatorFree(parts[0], sep);
      assert parts == [parts[0]] + parts[1..];
    }
  }

  /** A string that does not contain the separator splits into itself. */
  lemma {:induction false} SplitOfSeparatorFree(s: string, sep: char)
    requires sep !in s
    ensures Split(s, sep) == [s]
  {
    if s != [] {
      assert sep !in s[1..];
      SplitOfSeparatorFree(s[1..], sep);
      assert [s[0]] + s[1..] == s;
    }
  }

  /** One step of `Split`: a leading separator starts a new, empty piece. */
  lemma SplitConsSeparator(t: string, sep: char)
    ensures Split([sep] + t, sep) == [""] + Split(t, sep)
  {
    assert ([sep] + t)[1..] == t;
  }

  /** One step of `Split`: any other leading character joins the first piece. */
  lemma SplitConsOther(c: char, t: string, sep: char)
    requires c != sep
    ensures Split([c] + t, sep) == [[c] + Split(t, sep)[0]] + Split(t, sep)[1..]
  {
    assert ([c] + t)[1..] == t;
  }

  /** Splitting `a + sep + b` splits `a` and `b` separately. */
  lemma {:induction false} SplitConcat(a: string, b: string, sep: char)
    ensures Split(a + [sep] + b, sep) == Split(a, sep) + Split(b, sep)
  {
    if a == [] {
      assert a + [sep] + b == [sep] + b;
      SplitConsSeparator(b, sep);
    } else {
      SplitConcat(a[1..], b, sep);
      var t, ra, rb := a[1..] + [sep] + b, Split(a[1..], sep), Split(b, sep);
      assert a + [sep] + b == [a[0]] + t;
      assert a == [a[0]] + a[1..];
      if a[0] != sep {
        SplitConcatStep(a[0], a[1..], t, sep, ra, rb);
      } else {
        SplitConcatSeparatorStep(a[1..], t, sep, ra, rb);
      }
    }
  }

  /** The inductive step of SplitConcat for a first character `c` other than
      the separator; `t`, `ra` and `rb` name the parts so that the solver does
      not unfold them. */
  lemma {:induction false} SplitConcatStep(c: char, a: string, t: string, sep: char, ra: seq<string>, rb: seq<string>)
    requires c != sep
    requires ra == Split(a, sep)
    requires Split(t, sep) == ra + rb
    ensures Split([c] + t, sep) == Split([c] + a, sep) + rb
  {
    var first := [c] + ra[0];
    SplitConsOther(c, t, sep);
    assert Split([c] + t, sep) == [first] + (ra + rb)[1..];
    assert (ra + rb)[1..] == ra[1..] + rb;
    SplitConsOther(c, a, sep);
    assert Split([c] + a, sep) == [first] + ra[1..];
    assert [first] + (ra[1..] + rb) == ([first] + ra[1..]) + rb;
  }

  /** The inductive step of SplitConcat for a leading separator. */
  lemma SplitConcatSeparatorStep(a: string, t: string, sep: char, ra: seq<string>, rb: seq<string>)
    requires ra == Split(a, sep)
    requires Split(t, sep) == ra + rb
    ensures Split([sep] + t, sep) == Split([sep] + a, sep) + rb
  {
    SplitConsSeparator(t, sep);
    SplitConsSeparator(a, sep);
    assert [""] + (ra + rb) == ([""] + ra) + rb;
  }

  /** No piece of a split contains the separator. */
  lemma {:induction false} SplitPiecesAreSeparatorFree(s: string, sep: char)
    ensures forall i :: 0 <= i < |Split(s, sep)| ==> sep !in Split(s, sep)[i]
  {
    if s != [] {
      SplitPiecesAreSeparatorFree(s[1..], sep);
    }
  }

  /** Every character of a string other than the separator is a character of one of its pieces. */
  lemma {:induction false} SplitCoversChars(s: string, sep: char, k: int)
    requires 0 <= k < |s| && s[k] != sep
    ensures exists p, m :: 0 <= p < |Split(s, sep)| && 0 <= m < |Split(s, sep)[p]| && Split(s, sep)[p][m] == s[k]
  {
    var parts, rest := Split(s, sep), Split(s[1..], sep);
    if k == 0 {
      assert parts[0][0] == s[0];
    } else {
      SplitCoversChars(s[1..], sep, k - 1);
      var p, m :| 0 <= p < |rest| && 0 <= m < |rest[p]| && rest[p][m] == s[1..][k - 1];
      if s[0] == sep {
        assert parts[p + 1] == rest[p];
      } else if p == 0 {
        assert parts[0][m + 1] == rest[0][m];
      } else {
        assert parts[p] == rest[p];
      }
    }
  }

  /** A split has one more piece than there are separators. */
  lemma {:induction false} SplitLength(s: string, sep: char)
    ensures |Split(s, sep)| == Count(s, sep) + 1
  {
    if s != [] {
      SplitLength(s[1..], sep);
    }
  }

  /** The join of at least two pieces ends with the separator and the last piece. */
  lemma {:induction false} JoinSnoc(parts: seq<string>, sep: char)
    requires |parts| >= 2
    ensures Join(parts, sep) == Join(parts[..|parts| - 1], sep) + [sep] + parts[|parts| - 1]
  {
    if |parts| > 2 {
      JoinSnoc(parts[1..], sep);
      assert parts[1..][..|parts| - 2] == parts[..|parts| - 1][1..];
    }
  }

  /** The last piece of a split with a separator in it is the text after the
      last separator. */
  lemma SplitLastIsSuffix(s: string, sep: char, parts: seq<string>)
    requires parts == Split(s, sep) && |parts| >= 2
    ensures |parts[|parts| - 1]| < |s|
    ensures s[|s| - |parts[|parts| - 1]|..] == parts[|parts| - 1]
    ensures s[|s| - |parts[|parts| - 1]| - 1] == sep
  {
    JoinSplit(s, sep);
    JoinSnoc(parts, sep);
    var front, last := Join(parts[..|parts| - 1], sep), parts[|parts| - 1];
    assert s == front + [sep] + last;
    assert s[|front| + 1..] == last;
  }

  /** Counting distributes over concatenation. */
  lemma {:induction false} CountConcat(a: string, b: string, c: char)
    ensures Count(a + b, c) == Count(a, c) + Count(b, c)
  {
    if a != [] {
      assert (a + b)[1..] == a[1..] + b;
      CountConcat(a[1..], b, c);
    } else {
      assert a + b == b;
    }
  }

  /** Python's `sep.join(parts)` for a separator of any length. */
  function JoinWith(parts: seq<string>, sep: string): string
  {
    if |parts| == 0 then ""
    else if |parts| == 1 then parts[0]
    else parts[0] + sep + JoinWith(parts[1..], sep)
  }
}
