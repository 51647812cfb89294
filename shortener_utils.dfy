/**
 * The helpers of the URL shortener (url-shortener/app/utils.py): short-code
 * generation over the 62 ASCII letters and digits, the URL recogniser
 * `is_valid_url` and `normalize_url`.
 *
 * The recogniser is a regular expression under `re.IGNORECASE` followed by
 * a `urlparse` check. Its language is written out below as `UrlPattern`
 * (some split of the text into scheme, host, port and tail matches the
 * pieces of the expression); `UrlShapeOk` decides it by cutting the text at
 * the only places a match can cut it, and `UrlShapeIsPattern` proves the two
 * agree. Character classes are ASCII: `\d` is an ASCII digit, `\S` any
 * character other than ASCII whitespace.
 */
module ShortenerUtils {
  import opened Text

  // ---------------------------------------------------------------- generate_short_code

  /** The `n` consecutive characters from `first` on. */
  function CharRun(first: char, n: nat): (r: string)
    requires first as int + n <= 128
    ensures |r| == n && forall i :: 0 <= i < n ==> r[i] as int == first as int + i
  {
    seq(n, i requires 0 <= i < n => (first as int + i) as char)
  }

  /** `string.ascii_letters + string.digits`: a-z, A-Z, then 0-9. */
  const Alphabet: string := CharRun('a', 26) + CharRun('A', 26) + CharRun('0', 10)

  /** The alphabet has 62 characters, exactly the ASCII letters and digits. */
  lemma AlphabetIsAlnum()
    ensures |Alphabet| == 62
    ensures forall c :: c in Alphabet <==> IsAsciiAlnum(c)
  {
    var lo, up, dg := CharRun('a', 26), CharRun('A', 26), CharRun('0', 10);
    assert Alphabet == lo + up + dg;
    forall c | IsAsciiAlnum(c) ensures c in Alphabet {
      if IsAsciiLower(c) {
        assert lo[c as int - 'a' as int] == c;
      } else if IsAsciiUpper(c) {
        assert up[c as int - 'A' as int] == c;
      } else {
        assert dg[c as int - '0' as int] == c;
      }
    }
    forall c | c in Alphabet ensures IsAsciiAlnum(c) {
      var i :| 0 <= i < |Alphabet| && Alphabet[i] == c;
      if i < 26 {
        assert c == lo[i];
      } else if i < 52 {
        assert c == up[i - 26];
      } else {
        assert c == dg[i - 52];
      }
    }
  }

  /** generate_short_code (utils.py:11-13): `length` characters drawn from
      the alphabet (none for a negative length, as `random.choices` gives).
      The draw is a nondeterministic choice. */
  method GenerateShortCode(length: int) returns (code: string)
    ensures |code| == if length < 0 then 0 else length
    ensures forall i :: 0 <= i < |code| ==> code[i] in Alphabet
  {
    var n := if length < 0 then 0 else length;
    AlphabetIsAlnum();
    var some := seq(n, i => 'a');
    assert forall i :: 0 <= i < |some| ==> some[i] in Alphabet;
    code :| |code| == n && forall i :: 0 <= i < |code| ==> code[i] in Alphabet;
  }

  // ---------------------------------------------------------------- the pieces of the pattern

  /** `[A-Z0-9-]` under IGNORECASE. */
  predicate LabelChar(c: char) { IsAsciiAlnum(c) || c == '-' }

  /** `[A-Z0-9](?:[A-Z0-9-]{0,61}[A-Z0-9])?`: one to 63 letters, digits and
      hyphens, starting and ending with a letter or digit. */
  predicate IsLabel(l: string) {
    && 1 <= |l| <= 63
    && IsAsciiAlnum(l[0]) && IsAsciiAlnum(l[|l| - 1])
    && forall i :: 0 <= i < |l| ==> LabelChar(l[i])
  }

  /** `[A-Z]{2,6}`: the top-level domain. */
  predicate IsTld(t: string) { 2 <= |t| <= 6 && AllLetters(t) }

  /** `\d{1,3}`: one group of a dotted quad; the value is not range-checked. */
  predicate IsOctet(g: string) { 1 <= |g| <= 3 && AllDigits(g) }

  /** `(?::\d+)?`: nothing, or a colon and one or more digits. */
  predicate IsPort(p: string) { p == "" || (|p| >= 2 && p[0] == ':' && AllDigits(p[1..])) }

  /** `(?:/?|[/?]\S+)`: nothing, a lone slash, or a slash or question mark
      followed by one or more non-whitespace characters. */
  predicate IsTail(t: string) {
    || t == "" || t == "/"
    || (|t| >= 2 && (t[0] == '/' || t[0] == '?') && forall i :: 1 <= i < |t| ==> !IsSpace(t[i]))
  }

  /** `^https?://` under IGNORECASE holds for a prefix of length `n`. */
  predicate SchemeAt(s: string, n: int) {
    (n == 7 && StartsWithIgnoreCase(s, "http://")) || (n == 8 && StartsWithIgnoreCase(s, "https://"))
  }

  // ---------------------------------------------------------------- the pattern as written

  /** `h` is `labels[0] . labels[1] . ... . tld`, with a final dot when `dot`. */
  predicate DomainFrom(h: string, labels: seq<string>, tld: string, dot: bool) {
    && |labels| >= 1
    && (forall i :: 0 <= i < |labels| ==> IsLabel(labels[i]))
    && IsTld(tld)
    && h == Join(labels + [tld], '.') + (if dot then "." else "")
  }

  /** `(?:label\.)+[A-Z]{2,6}\.?`. */
  ghost predicate DomainPattern(h: string) {
    exists labels, tld, dot :: DomainFrom(h, labels, tld, dot)
  }

  /** `h` is four groups of digits joined by dots. */
  predicate Ipv4From(h: string, groups: seq<string>) {
    |groups| == 4 && (forall i :: 0 <= i < 4 ==> IsOctet(groups[i])) && h == Join(groups, '.')
  }

  /** `\d{1,3}\.\d{1,3}\.\d{1,3}\.\d{1,3}`. */
  ghost predicate Ipv4Pattern(h: string) {
    exists groups :: Ipv4From(h, groups)
  }

  /** The host alternatives: a domain name, `localhost` in any case, or a dotted quad. */
  ghost predicate HostPattern(h: string) {
    DomainPattern(h) || EqualIgnoreCase(h, "localhost") || Ipv4Pattern(h)
  }

  /** The whole expression matches with the host at `s[n..i]`, the port at
      `s[i..j]` and the tail at `s[j..]`. */
  ghost predicate UrlMatchAt(s: string, n: int, i: int, j: int) {
    && SchemeAt(s, n)
    && n <= i <= j <= |s|
    && HostPattern(s[n..i]) && IsPort(s[i..j]) && IsTail(s[j..])
  }

  /** The regular expression of utils.py:19-25 matches `s` (it is anchored
      at both ends, so a match is a split of the whole text). */
  ghost predicate UrlPattern(s: string) {
    exists n, i, j :: UrlMatchAt(s, n, i, j)
  }

  // ---------------------------------------------------------------- the pattern decided

  /** Length of the `http://` or `https://` prefix, in any case; 0 when there is none. */
  function SchemeLength(s: string): (n: nat)
    ensures n == 0 || SchemeAt(s, n)
    ensures forall m :: SchemeAt(s, m) ==> m == n
  {
    var https, http := "https://", "http://";
    if StartsWithIgnoreCase(s, https) then
      assert !StartsWithIgnoreCase(s, http) by {
        assert LowerChar(s[..8][4]) == 's' && LowerChar(':') == ':';
      }
      8
    else if StartsWithIgnoreCase(s, http) then 7
    else 0
  }

  /** A character that ends the host: the start of a port or of the tail. */
  predicate HostStop(c: char) { c == ':' || c == '/' || c == '?' }

  /** Index of the first host-ending character at or after `k`, or the end. */
  function HostEnd(s: string, k: nat): (e: nat)
    requires k <= |s|
    decreases |s| - k
    ensures k <= e <= |s|
    ensures forall m :: k <= m < e ==> !HostStop(s[m])
    ensures e == |s| || HostStop(s[e])
  {
    if k == |s| || HostStop(s[k]) then k else HostEnd(s, k + 1)
  }

  /** Index of the first non-digit at or after `k`, or the end. */
  function DigitsEnd(s: string, k: nat): (e: nat)
    requires k <= |s|
    decreases |s| - k
    ensures k <= e <= |s|
    ensures forall m :: k <= m < e ==> IsAsciiDigit(s[m])
    ensures e == |s| || !IsAsciiDigit(s[e])
  {
    if k == |s| || !IsAsciiDigit(s[k]) then k else DigitsEnd(s, k + 1)
  }

  /** End of the port that starts at `i`: after its digits when `s[i]` is a colon. */
  function PortEnd(s: string, i: nat): (j: nat)
    requires i <= |s|
    ensures i <= j <= |s|
  {
    if i < |s| && s[i] == ':' then DigitsEnd(s, i + 1) else i
  }

  /** A domain name: drop one final dot, split on dots, then labels and a top-level domain. */
  predicate DomainHostOk(h: string) {
    var parts := Split(DomainCore(h), '.');
    && |parts| >= 2
    && IsTld(parts[|parts| - 1])
    && forall i :: 0 <= i < |parts| - 1 ==> IsLabel(parts[i])
  }

  /** A domain name without its one optional final dot. */
  function DomainCore(h: string): string {
    if |h| > 0 && h[|h| - 1] == '.' then h[..|h| - 1] else h
  }

  /** A dotted quad: exactly four dot-separated groups of one to three digits. */
  predicate Ipv4HostOk(h: string) {
    var g := Split(h, '.');
    |g| == 4 && forall i :: 0 <= i < 4 ==> IsOctet(g[i])
  }

  predicate HostOk(h: string) {
    DomainHostOk(h) || EqualIgnoreCase(h, "localhost") || Ipv4HostOk(h)
  }

  /** The hand-written recogniser: scheme, then the host up to the first
      `:`, `/` or `?`, then the port's digits, then the tail. */
  predicate UrlShapeOk(s: string) {
    var n := SchemeLength(s);
    && n > 0
    && var i := HostEnd(s, n);
       var j := PortEnd(s, i);
       HostOk(s[n..i]) && IsPort(s[i..j]) && IsTail(s[j..])
  }

  // ---------------------------------------------------------------- urlparse

  /** A character `urlparse` accepts in a scheme. */
  predicate SchemeChar(c: char) { IsAsciiAlnum(c) || c == '+' || c == '-' || c == '.' }

  /** Index of the first occurrence of `c` at or after `k`, or the end. */
  function FindFrom(s: string, c: char, k: nat): (e: nat)
    requires k <= |s|
    decreases |s| - k
    ensures k <= e <= |s|
    ensures forall m :: k <= m < e ==> s[m] != c
    ensures e == |s| || s[e] == c
  {
    if k == |s| || s[k] == c then k else FindFrom(s, c, k + 1)
  }

  /** Index of the first `/`, `?` or `#` at or after `k`, or the end. */
  function NetlocEnd(s: string, k: nat): (e: nat)
    requires k <= |s|
    decreases |s| - k
    ensures k <= e <= |s|
    ensures forall m :: k <= m < e ==> s[m] != '/' && s[m] != '?' && s[m] != '#'
  {
    if k == |s| || s[k] == '/' || s[k] == '?' || s[k] == '#' then k else NetlocEnd(s, k + 1)
  }

  /** Where `urlsplit` finds the scheme's colon: the first colon, when what
      precedes it is a letter followed by scheme characters; otherwise 0
      (no scheme). */
  function SchemeColon(s: string): (i: nat)
    ensures i <= |s|
  {
    var i := FindFrom(s, ':', 0);
    if 0 < i < |s| && IsAsciiLetter(s[0]) && forall m :: 0 <= m < i ==> SchemeChar(s[m]) then i else 0
  }

  /** `urlparse(s).scheme`, lower-cased. */
  function ParsedScheme(s: string): string {
    var i := SchemeColon(s);
    if i == 0 then "" else Lower(s[..i])
  }

  /** `urlparse(s).netloc`: after the scheme, a `//` and the text up to the next `/`, `?` or `#`. */
  function ParsedNetloc(s: string): string {
    var i := SchemeColon(s);
    var rest := if i == 0 then s else s[i + 1..];
    if |rest| >= 2 && rest[..2] == "//" then rest[2..NetlocEnd(rest, 2)] else ""
  }

  /** is_valid_url (utils.py:15-34): false for "", then the pattern, then a
      non-empty scheme and network location from urlparse. */
  function IsValidUrl(url: string): (ok: bool)
    ensures url == "" ==> !ok
    ensures ok <==> UrlPattern(url)
    ensures ok ==> StartsWithIgnoreCase(url, "http://") || StartsWithIgnoreCase(url, "https://")
  {
    UrlShapeIsPattern(url);
    if UrlShapeOk(url) then ShapeParses(url); url != "" && UrlShapeOk(url) && ParsedScheme(url) != "" && ParsedNetloc(url) != ""
    else false
  }

  // ---------------------------------------------------------------- the host, both ways

  /** The characters a host is made of. */
  predicate HostChar(c: char) { IsAsciiAlnum(c) || c == '-' || c == '.' }

  /** A recognised host is non-empty, starts with a letter or digit and
      holds only letters, digits, hyphens and dots. */
  lemma HostOkChars(h: string)
    requires HostOk(h)
    ensures |h| >= 1 && IsAsciiAlnum(h[0])
    ensures forall k :: 0 <= k < |h| ==> HostChar(h[k])
  {
    if DomainHostOk(h) {
      DomainCoreChars(DomainCore(h), Split(DomainCore(h), '.'));
      forall k | 0 <= k < |h| ensures HostChar(h[k]) {
        if k < |DomainCore(h)| {
          assert h[k] == DomainCore(h)[k];
        }
      }
    } else if EqualIgnoreCase(h, "localhost") {
      forall k | 0 <= k < |h| ensures IsAsciiLetter(h[k]) {
        assert IsAsciiLower(LowerChar(h[k]));
      }
    } else {
      Ipv4Chars(h, Split(h, '.'));
    }
  }

  /** The characters of a dot-separated run of labels ending in a TLD. */
  lemma DomainCoreChars(core: string, parts: seq<string>)
    requires parts == Split(core, '.')
    requires |parts| >= 2 && IsTld(parts[|parts| - 1])
    requires forall i :: 0 <= i < |parts| - 1 ==> IsLabel(parts[i])
    ensures |core| >= 1 && IsAsciiAlnum(core[0])
    ensures forall k :: 0 <= k < |core| ==> HostChar(core[k])
  {
    forall k | 0 <= k < |core| && core[k] != '.' ensures HostChar(core[k]) {
      SplitCoversChars(core, '.', k);
      var p, m :| 0 <= p < |parts| && 0 <= m < |parts[p]| && parts[p][m] == core[k];
      PieceChar(parts, p, m);
    }
    JoinSplit(core, '.');
    FirstPieceLeads(core, parts);
  }

  /** A character of a label or of the TLD is a host character. */
  lemma PieceChar(parts: seq<string>, p: nat, m: nat)
    requires |parts| >= 2 && IsTld(parts[|parts| - 1])
    requires forall i :: 0 <= i < |parts| - 1 ==> IsLabel(parts[i])
    requires p < |parts| && m < |parts[p]|
    ensures HostChar(parts[p][m])
  {
    if p < |parts| - 1 {
      assert IsLabel(parts[p]);
      assert LabelChar(parts[p][m]);
    } else {
      assert IsAsciiLetter(parts[p][m]);
    }
  }

  /** A joined run of pieces begins with the first character of its first piece. */
  lemma FirstPieceLeads(core: string, parts: seq<string>)
    requires Join(parts, '.') == core
    requires |parts| >= 2 && IsLabel(parts[0])
    ensures |core| >= 1 && IsAsciiAlnum(core[0])
  {
    assert core == parts[0] + "." + Join(parts[1..], '.');
    assert core[0] == parts[0][0];
  }

  /** The characters of four dot-separated octets. */
  lemma Ipv4Chars(h: string, g: seq<string>)
    requires g == Split(h, '.')
    requires |g| == 4 && forall i :: 0 <= i < 4 ==> IsOctet(g[i])
    ensures |h| >= 1 && IsAsciiAlnum(h[0])
    ensures forall k :: 0 <= k < |h| ==> HostChar(h[k])
  {
    forall k | 0 <= k < |h| && h[k] != '.' ensures IsAsciiDigit(h[k]) {
      SplitCoversChars(h, '.', k);
      var p, m :| 0 <= p < |g| && 0 <= m < |g[p]| && g[p][m] == h[k];
    }
    JoinSplit(h, '.');
    assert g == [g[0]] + g[1..];
    assert h[0] == g[0][0];
  }

  /** No piece of a host contains a dot. */
  lemma LabelsAreDotFree(labels: seq<string>, tld: string)
    requires forall i :: 0 <= i < |labels| ==> IsLabel(labels[i])
    requires IsTld(tld)
    ensures forall i :: 0 <= i < |labels + [tld]| ==> '.' !in (labels + [tld])[i]
  {
    forall i | 0 <= i < |labels + [tld]| ensures '.' !in (labels + [tld])[i] {
      var piece := (labels + [tld])[i];
      forall m | 0 <= m < |piece| ensures piece[m] != '.' {
        if i < |labels| {
          assert LabelChar(labels[i][m]);
        } else {
          assert IsAsciiLetter(tld[m]);
        }
      }
    }
  }

  /** The split on dots decides the domain alternative of the pattern. */
  lemma DomainHostIsPattern(h: string)
    ensures DomainHostOk(h) <==> DomainPattern(h)
  {
    if DomainHostOk(h) {
      var labels, tld, dot := DomainOkIsFrom(h);
    }
    if DomainPattern(h) {
      var labels, tld, dot :| DomainFrom(h, labels, tld, dot);
      DomainFromIsOk(h, labels, tld, dot);
    }
  }

  /** The pieces of the split are the labels and the top-level domain of a match. */
  lemma DomainOkIsFrom(h: string) returns (labels: seq<string>, tld: string, dot: bool)
    requires DomainHostOk(h)
    ensures DomainFrom(h, labels, tld, dot)
  {
    dot := |h| > 0 && h[|h| - 1] == '.';
    DomainCoreRestores(h);
    labels, tld := SplitIsLabelsAndTld(DomainCore(h), Split(DomainCore(h), '.'));
  }

  /** Putting back the dropped final dot gives the host again. */
  lemma DomainCoreRestores(h: string)
    ensures h == DomainCore(h) + (if |h| > 0 && h[|h| - 1] == '.' then "." else "")
  {
  }

  /** A split into labels and a final TLD joins back to the text it came from. */
  lemma SplitIsLabelsAndTld(core: string, parts: seq<string>) returns (labels: seq<string>, tld: string)
    requires parts == Split(core, '.')
    requires |parts| >= 2 && IsTld(parts[|parts| - 1])
    requires forall i :: 0 <= i < |parts| - 1 ==> IsLabel(parts[i])
    ensures |labels| >= 1 && (forall i :: 0 <= i < |labels| ==> IsLabel(labels[i])) && IsTld(tld)
    ensures core == Join(labels + [tld], '.')
  {
    labels, tld := parts[..|parts| - 1], parts[|parts| - 1];
    JoinSplit(core, '.');
    assert labels + [tld] == parts;
    forall i | 0 <= i < |labels| ensures IsLabel(labels[i]) {
      assert labels[i] == parts[i];
    }
  }

  lemma DomainFromIsOk(h: string, labels: seq<string>, tld: string, dot: bool)
    requires DomainFrom(h, labels, tld, dot)
    ensures DomainHostOk(h)
  {
    var parts := labels + [tld];
    var c := Join(parts, '.');
    LabelsAreDotFree(labels, tld);
    SplitJoin(parts, '.');
    JoinSnoc(parts, '.');
    assert parts[..|parts| - 1] == labels;
    assert c[|c| - 1] == tld[|tld| - 1];
    assert IsAsciiLetter(tld[|tld| - 1]);
    assert DomainCore(h) == c;
  }

  /** The split on dots decides the dotted-quad alternative of the pattern. */
  lemma Ipv4HostIsPattern(h: string)
    ensures Ipv4HostOk(h) <==> Ipv4Pattern(h)
  {
    if Ipv4HostOk(h) {
      JoinSplit(h, '.');
      assert Ipv4From(h, Split(h, '.'));
    }
    if Ipv4Pattern(h) {
      var groups :| Ipv4From(h, groups);
      forall i | 0 <= i < |groups| ensures '.' !in groups[i] {
        forall m | 0 <= m < |groups[i]| ensures groups[i][m] != '.' {
          assert IsAsciiDigit(groups[i][m]);
        }
      }
      SplitJoin(groups, '.');
    }
  }

  /** The three host checks decide the host alternatives of the pattern. */
  lemma HostOkIsPattern(h: string)
    ensures HostOk(h) <==> HostPattern(h)
  {
    DomainHostIsPattern(h);
    Ipv4HostIsPattern(h);
  }

  // ---------------------------------------------------------------- the whole pattern

  /** The recogniser accepts exactly the texts the regular expression matches. */
  lemma UrlShapeIsPattern(s: string)
    ensures UrlShapeOk(s) <==> UrlPattern(s)
  {
    if UrlShapeOk(s) {
      var n := SchemeLength(s);
      var i := HostEnd(s, n);
      var j := PortEnd(s, i);
      HostOkIsPattern(s[n..i]);
      assert UrlMatchAt(s, n, i, j);
    }
    if UrlPattern(s) {
      var n, i, j :| UrlMatchAt(s, n, i, j);
      MatchIsShape(s, n, i, j);
    }
  }

  /** A match can only cut the text where the recogniser cuts it. */
  lemma MatchIsShape(s: string, n: int, i: int, j: int)
    requires UrlMatchAt(s, n, i, j)
    ensures UrlShapeOk(s)
  {
    HostOkIsPattern(s[n..i]);
    assert n == SchemeLength(s);
    MatchCutsHost(s, n, i, j);
    MatchCutsPort(s, i, j);
  }

  /** The host of a match ends at the first `:`, `/` or `?` after the scheme. */
  lemma MatchCutsHost(s: string, n: nat, i: nat, j: nat)
    requires n <= i <= j <= |s|
    requires HostOk(s[n..i]) && IsPort(s[i..j]) && IsTail(s[j..])
    ensures HostEnd(s, n) == i
  {
    var host := s[n..i];
    HostOkChars(host);
    forall m | n <= m < i ensures !HostStop(s[m]) {
      assert s[m] == host[m - n];
    }
    if i < |s| {
      if i < j {
        assert s[i] == s[i..j][0];
      } else {
        assert s[i] == s[j..][0];
      }
    }
    HostEndIsFirst(s, n, i);
  }

  /** The port of a match ends at the first non-digit after its colon. */
  lemma MatchCutsPort(s: string, i: nat, j: nat)
    requires i <= j <= |s|
    requires IsPort(s[i..j]) && IsTail(s[j..])
    ensures PortEnd(s, i) == j
  {
    var port := s[i..j];
    if i < |s| && s[i] == ':' {
      forall m | i + 1 <= m < j ensures IsAsciiDigit(s[m]) {
        assert s[m] == port[1..][m - i - 1];
      }
      if j < |s| {
        assert s[j] == s[j..][0];
      }
      DigitsEndIsFirst(s, i + 1, j);
    }
  }

  lemma HostEndIsFirst(s: string, k: nat, e: nat)
    requires k <= e <= |s|
    requires forall m :: k <= m < e ==> !HostStop(s[m])
    requires e == |s| || HostStop(s[e])
    ensures HostEnd(s, k) == e
  {
  }

  lemma DigitsEndIsFirst(s: string, k: nat, e: nat)
    requires k <= e <= |s|
    requires forall m :: k <= m < e ==> IsAsciiDigit(s[m])
    requires e == |s| || !IsAsciiDigit(s[e])
    ensures DigitsEnd(s, k) == e
  {
  }

  /** After the regular expression, the urlparse check always passes: the
      scheme is `http` or `https` and the network location starts with the
      host's first character. */
  lemma ShapeParses(s: string)
    requires UrlShapeOk(s)
    ensures s != "" && ParsedScheme(s) != "" && ParsedNetloc(s) != ""
  {
    var n := SchemeLength(s);
    var i := HostEnd(s, n);
    HostOkChars(s[n..i]);
    assert s[n] == s[n..i][0];
    SchemeThenHostParses(s, n);
  }

  /** After an `http://` or `https://` prefix, a first character that does
      not end a network location gives urlsplit a scheme and a netloc. */
  lemma SchemeThenHostParses(s: string, n: int)
    requires SchemeAt(s, n) && n < |s| && IsAsciiAlnum(s[n])
    ensures s != "" && ParsedScheme(s) != "" && ParsedNetloc(s) != ""
  {
    SchemeColonOfPrefix(s, n);
    var rest := s[n - 2..];
    assert rest[..2] == "//" && rest[2] == s[n];
    assert NetlocEnd(rest, 2) > 2;
  }

  /** For a text starting with `http://` or `https://` in any case,
      urlsplit takes the letters before the first colon as the scheme. */
  lemma SchemeColonOfPrefix(s: string, n: int)
    requires SchemeAt(s, n)
    ensures SchemeColon(s) == n - 3
    ensures s[n - 3..n] == "://"
  {
    var colon := n - 3;
    var prefix := if n == 7 then "http://" else "https://";
    assert s[..n] == s[..|prefix|];
    forall m | 0 <= m < n ensures LowerChar(s[m]) == prefix[m] {
      assert s[..n][m] == s[m];
    }
    forall m | 0 <= m < colon ensures IsAsciiLetter(s[m]) {
      assert IsAsciiLower(LowerChar(s[m]));
    }
    assert s[colon] == ':' && s[colon + 1] == '/' && s[colon + 2] == '/';
    assert FindFrom(s, ':', 0) == colon;
  }

  /** Every dotted quad of one- to three-digit groups is accepted whatever
      its values: the pattern does not range-check octets. */
  lemma Ipv4Accepted(a: string, b: string, c: string, d: string)
    requires IsOctet(a) && IsOctet(b) && IsOctet(c) && IsOctet(d)
    ensures IsValidUrl("http://" + Join([a, b, c, d], '.'))
  {
    var host := Join([a, b, c, d], '.');
    var s := "http://" + host;
    assert Ipv4From(host, [a, b, c, d]);
    assert s[..7] == "http://";
    assert StartsWithIgnoreCase(s, "http://");
    assert s[7..|s|] == host;
    assert s[|s|..|s|] == "";
    assert UrlMatchAt(s, 7, |s|, |s|);
  }

  /** `http://999.999.999.999` is a valid URL. */
  lemma OctetsNotRangeChecked()
    ensures IsValidUrl("http://" + Join(["999", "999", "999", "999"], '.'))
  {
    Ipv4Accepted("999", "999", "999", "999");
  }

  // ---------------------------------------------------------------- normalize_url

  /** normalize_url (utils.py:36-40): the stripped text, with `https://` in
      front unless it already starts (case-sensitively) with `http://` or
      `https://`. */
  function NormalizeUrl(url: string): (r: string)
    ensures StartsWith(r, "http://") || StartsWith(r, "https://")
    ensures r == Strip(url) <==> StartsWith(Strip(url), "http://") || StartsWith(Strip(url), "https://")
    ensures r != Strip(url) ==> r == "https://" + Strip(url)
  {
    var u := Strip(url);
    if StartsWith(u, "http://") || StartsWith(u, "https://") then u
    else
      assert ("https://" + u)[..8] == "https://";
      "https://" + u
  }

  /** Normalising twice is normalising once. */
  lemma NormalizeIdempotent(url: string)
    ensures NormalizeUrl(NormalizeUrl(url)) == NormalizeUrl(url)
  {
    var u := Strip(url);
    var r := NormalizeUrl(url);
    StripIsTrimmedInfix(url);
    if r != u {
      assert r == "https://" + u;
      assert r[|r| - 1] == (if u == [] then '/' else u[|u| - 1]);
    }
    StripOfTrimmed(r);
  }
}
