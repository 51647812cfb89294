/**
 * The stored-password format of the user-management service
 * (messy-migration/app.py:48-58): `salt:digest`, where the salt is 16 random
 * bytes in hex and the digest is the hex SHA-256 of the password followed by
 * the salt. SHA-256 itself is not modelled: it is any function whose outputs
 * are 64 lowercase hex characters, passed in as a parameter.
 */
module PasswordCodec {
  import opened Text

  /** A character of `hexdigest()` / `token_hex()` output. */
  predicate IsHexDigit(c: char) { IsAsciiDigit(c) || 'a' <= c <= 'f' }

  predicate IsHex(s: string) { forall i :: 0 <= i < |s| ==> IsHexDigit(s[i]) }

  /** The shape of `hashlib.sha256(...).hexdigest()`. */
  predicate IsSha256Digest(s: string) { |s| == 64 && IsHex(s) }

  /** Stand-in for `hashlib.sha256(x.encode()).hexdigest()`: some function with hex outputs. */
  type Sha256 = h: string -> string | forall s :: IsSha256Digest(h(s))
    witness (s: string) => seq(64, i => '0')

  /** The shape of `secrets.token_hex(16)`. */
  predicate IsSalt(s: string) { |s| == 32 && IsHex(s) }

  /** The string hash_password returns for a given salt (app.py:50-51). */
  function StoredHash(h: Sha256, password: string, salt: string): string {
    salt + ":" + h(password + salt)
  }

  /** verify_password (app.py:53-58): the tuple unpacking of `split(':')`
      raises ValueError (and the result is false) unless there are exactly
      two parts; otherwise the digest of password + salt is compared. */
  function VerifyPassword(h: Sha256, password: string, stored: string): (ok: bool)
    ensures ok ==> |Split(stored, ':')| == 2
  {
    var parts := Split(stored, ':');
    |parts| == 2 && h(password + parts[0]) == parts[1]
  }

  /** hash_password (app.py:48-51): the salt is chosen nondeterministically
      among the 32-character hex strings. */
  method HashPassword(h: Sha256, password: string) returns (stored: string)
    ensures exists salt :: IsSalt(salt) && stored == StoredHash(h, password, salt)
    ensures |stored| == 97 && Count(stored, ':') == 1
    ensures VerifyPassword(h, password, stored)
  {
    assert IsSalt(seq(32, i => '0'));
    var salt :| IsSalt(salt);
    stored := StoredHash(h, password, salt);
    StoredHashShape(h, password, salt);
  }

  /** What hash_password's output looks like for one hex salt. */
  lemma StoredHashShape(h: Sha256, password: string, salt: string)
    requires IsSalt(salt)
    ensures |StoredHash(h, password, salt)| == 97
    ensures Count(StoredHash(h, password, salt), ':') == 1
    ensures VerifyPassword(h, password, StoredHash(h, password, salt))
  {
    assert ':' !in salt by {
      forall i | 0 <= i < |salt| ensures salt[i] != ':' { assert IsHexDigit(salt[i]); }
    }
    DigestHasNoColon(h, password + salt);
    CountOfColonJoined(salt, h(password + salt));
    VerifyStoredHash(h, password, salt);
  }

  lemma DigestHasNoColon(h: Sha256, x: string)
    ensures ':' !in h(x) && |h(x)| == 64
  {
    var d := h(x);
    assert IsSha256Digest(d);
    forall i | 0 <= i < |d| ensures d[i] != ':' { assert IsHexDigit(d[i]); }
  }

  lemma CountOfColonJoined(a: string, b: string)
    requires ':' !in a && ':' !in b
    ensures Count(a + ":" + b, ':') == 1
  {
    SplitJoin([a, b], ':');
    assert Join([a, b], ':') == a + ":" + b;
    SplitLength(a + ":" + b, ':');
  }

  /** The round trip: for every password and every colon-free salt (in
      particular every hex salt) the stored string verifies. */
  lemma VerifyStoredHash(h: Sha256, password: string, salt: string)
    requires ':' !in salt
    ensures VerifyPassword(h, password, StoredHash(h, password, salt))
  {
    var d := h(password + salt);
    DigestHasNoColon(h, password + salt);
    assert Join([salt, d], ':') == salt + ":" + d;
    SplitJoin([salt, d], ':');
  }

  /** A stored string without exactly one colon never verifies: the
      ValueError of the unpacking becomes false, not an error. */
  lemma VerifyMalformed(h: Sha256, password: string, stored: string)
    requires Count(stored, ':') != 1
    ensures !VerifyPassword(h, password, stored)
  {
    SplitLength(stored, ':');
  }

  /** Verification succeeds exactly on the strings hash_password could have
      produced for this password with some colon-free salt. */
  lemma VerifyPasswordExactly(h: Sha256, password: string, stored: string)
    ensures VerifyPassword(h, password, stored) <==>
            exists salt :: ':' !in salt && stored == StoredHash(h, password, salt)
  {
    if VerifyPassword(h, password, stored) {
      var parts := Split(stored, ':');
      JoinSplit(stored, ':');
      SplitPiecesAreSeparatorFree(stored, ':');
      assert ':' !in parts[0];
      assert stored == StoredHash(h, password, parts[0]);
    }
    if exists salt :: ':' !in salt && stored == StoredHash(h, password, salt) {
      var salt :| ':' !in salt && stored == StoredHash(h, password, salt);
      VerifyStoredHash(h, password, salt);
    }
  }

  /** A different password is accepted against a stored hash only when the
      two digests collide. */
  lemma WrongPasswordNeedsCollision(h: Sha256, password: string, other: string, salt: string)
    requires ':' !in salt
    requires VerifyPassword(h, other, StoredHash(h, password, salt))
    ensures h(other + salt) == h(password + salt)
  {
    var d := h(password + salt);
    DigestHasNoColon(h, password + salt);
    assert Join([salt, d], ':') == salt + ":" + d;
    SplitJoin([salt, d], ':');
  }
}
