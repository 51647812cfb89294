/**
 * The user-management handlers of messy-migration/app.py over one `users`
 * table. The table is an object whose rows and AUTOINCREMENT counter the
 * handlers update in place; each handler is one method or read-only
 * function. SHA-256 is the table's `digest`, and `build` selects whether the
 * four defects described in user_table.dfy are reproduced.
 */
module UserService {
  import opened Wrappers
  import opened Text
  import opened Validators
  import opened PasswordCodec
  import opened SqlLike
  import opened UserTable

  /** The SET list and parameter list of update_user, appended to step by
      step as in app.py:196-206. */
  method BuildUpdate(b: Build, name: Option<string>, email: Option<string>, userId: string)
    returns (fields: seq<string>, params: seq<string>)
    ensures fields == UpdateFields(name, email)
    ensures params == UpdateValues(b, name, email) + [userId]
    ensures |params| == |fields| + 1
  {
    fields, params := [], [];
    if Truthy(name) {
      fields := fields + [SetClause("name")];
      params := params + [Strip(name.value)];
    }
    if Truthy(email) {
      fields := fields + [SetClause("email")];
      params := params + [StoredEmail(b, email.value)];
    }
    params := params + [userId];
  }

  class UserDb {
    /** The rows of `users`, by id. */
    var rows: map<int, User>
    /** The id AUTOINCREMENT gives the next inserted row; ids are never reused. */
    var nextId: int
    /** `hashlib.sha256(...).hexdigest()`. */
    const digest: Sha256
    const build: Build

    /** The schema's guarantees (init_db.py:27-34): ids below the counter and
        equal to their keys, the CHECK constraints and unique emails; once the
        stored emails are lower-cased, every email is lower case. */
    ghost predicate Valid()
      reads this
    {
      TableOk(build, rows, nextId)
    }

    /** An empty table. */
    constructor (digest: Sha256, build: Build)
      ensures Valid()
      ensures rows == map[] && nextId == 1
      ensures this.digest == digest && this.build == build
    {
      rows := map[];
      nextId := 1;
      this.digest := digest;
      this.build := build;
    }

    /** get_all_users (app.py:84-96): every row, ordered by id, with the count. */
    function GetAllUsers(): (r: Resp)
      reads this
      requires Valid()
      ensures r.status == 200 && r.body.UsersBody?
      ensures r.body.count == |r.body.users| == |rows|
      ensures IdsIncreasing(r.body.users)
      ensures forall u :: u in r.body.users <==> u in rows.Values
    {
      var us := RowsInIdOrder(rows, nextId);
      Resp(200, UsersBody(us, |us|))
    }

    /** get_user (app.py:98-113). */
    function GetUser(userId: string): (r: Resp)
      reads this
      requires Valid()
      ensures !ValidateUserId(userId) ==> r == BadRequest("Invalid user ID")
      ensures r.status == 200 <==> ValidateUserId(userId) && ParseInt(userId).value in rows
      ensures r.status == 200 ==> r.body == UserBody(rows[ParseInt(userId).value])
      ensures ValidateUserId(userId) && r.status != 200 ==> r == Resp(404, ErrorBody("User not found"))
    {
      if !ValidateUserId(userId) then BadRequest("Invalid user ID")
      else
        var id := ParseInt(userId).value;
        if id in rows then Resp(200, UserBody(rows[id])) else Resp(404, ErrorBody("User not found"))
    }

    /** search_users (app.py:243-265): the rows whose name is LIKE `%term%`
        for the stripped term, ordered by id, with their count and the
        stripped term. */
    function SearchUsers(term: Option<string>): (r: Resp)
      reads this
      requires Valid()
      ensures SearchCheck(term).Some? ==> r == SearchCheck(term).value
      ensures SearchCheck(term).None? ==>
                && r.status == 200 && r.body.SearchBody?
                && r.body.count == |r.body.users|
                && r.body.searchTerm == Strip(term.value)
                && IdsIncreasing(r.body.users)
                && forall u :: u in r.body.users <==> u in rows.Values && Like(u.name, SearchPattern(term.value))
    {
      match SearchCheck(term)
      case Some(bad) => bad
      case None =>
        var us := Matching(RowsInIdOrder(rows, nextId), SearchPattern(term.value));
        MatchingKeepsOrder(RowsInIdOrder(rows, nextId), SearchPattern(term.value));
        Resp(200, SearchBody(us, |us|, Strip(term.value)))
    }

    /** login (app.py:268-306): the row whose email is the lower-cased input,
        accepted when the password verifies against its stored hash. */
    function Login(email: Option<string>, password: Option<string>): (r: Resp)
      reads this
      requires Valid()
      ensures LoginCheck(email, password).Some? ==> r == LoginCheck(email, password).value
      ensures r.status == 200 <==>
                LoginCheck(email, password).None? &&
                exists k :: k in rows && rows[k].email == Lower(email.value) &&
                            VerifyPassword(digest, password.value, rows[k].password)
      ensures r.status == 200 ==>
                r.body.LoginOkBody? && r.body.userId in rows &&
                rows[r.body.userId].email == Lower(email.value) &&
                r.body.name == rows[r.body.userId].name
      ensures LoginCheck(email, password).None? && r.status != 200 ==> r == LoginFailed
    {
      match LoginCheck(email, password)
      case Some(bad) => bad
      case None =>
        var found := WithEmail(RowsInIdOrder(rows, nextId), Lower(email.value));
        LoginLookupIsUnique(found, Lower(email.value));
        if found.Some? && VerifyPassword(digest, password.value, found.value.password) then
          Resp(200, LoginOkBody(found.value.id, found.value.name))
        else LoginFailed
    }

    /** The row of an email, if any, is the row fetchone() returns. */
    lemma LoginLookupIsUnique(found: Option<User>, e: string)
      requires Valid()
      requires found == WithEmail(RowsInIdOrder(rows, nextId), e)
      ensures found.Some? ==> found.value.id in rows && rows[found.value.id] == found.value
      ensures forall k :: k in rows && rows[k].email == e ==> found == Some(rows[k])
    {
      var us := RowsInIdOrder(rows, nextId);
      if found.Some? {
        assert found.value in rows.Values;
      }
      forall k | k in rows && rows[k].email == e ensures found == Some(rows[k]) {
        assert rows[k] in us;
        var j := found.value.id;
        assert found.value in rows.Values;
      }
    }

    /** The INSERT or UPDATE of one row under its id: the schema's
        guarantees still hold and the counter moves past a new id. */
    method Put(u: User)
      requires Valid()
      requires 1 <= u.id <= nextId && RowConstraintsOk(u) && !EmailTaken(rows, u.email, u.id)
      requires build == Corrected ==> IsLowerCase(u.email)
      modifies this
      ensures Valid()
      ensures rows == old(rows)[u.id := u]
      ensures nextId == if u.id == old(nextId) then old(nextId) + 1 else old(nextId)
    {
      PutKeepsTableOk(build, rows, nextId, u);
      rows := rows[u.id := u];
      if u.id == nextId {
        nextId := nextId + 1;
      }
    }

    /** create_user (app.py:115-160): the response is the one the validations
        in order, the column list and the UNIQUE email decide; on success the
        password is hashed and the stripped values are inserted under the
        next id. */
    method CreateUser(name: Option<string>, email: Option<string>, password: Option<string>) returns (r: Resp)
      requires Valid()
      modifies this
      ensures Valid()
      ensures r == CreateOutcome(build, old(rows), old(nextId), name, email, password)
      ensures r.status != 201 ==> rows == old(rows) && nextId == old(nextId)
      ensures r.status == 201 ==>
                && nextId == old(nextId) + 1
                && old(nextId) in rows
                && rows == old(rows)[old(nextId) := NewRow(build, old(nextId), name.value, email.value, rows[old(nextId)].password)]
                && (exists salt :: IsSalt(salt) && rows[old(nextId)].password == StoredHash(digest, password.value, salt))
                && VerifyPassword(digest, password.value, rows[old(nextId)].password)
      ensures r.status == 201 ==> GetUser(ShowInt(old(nextId))) == Resp(200, UserBody(rows[old(nextId)]))
      ensures r.status == 201 && build == Corrected ==>
                Login(email, password) == Resp(200, LoginOkBody(old(nextId), Strip(name.value)))
    {
      r := CreateOutcome(build, rows, nextId, name, email, password);
      if r.status != 201 {
        return;
      }
      CreateOutcomeCreated(build, rows, nextId, name, email, password);
      var hash := HashPassword(digest, password.value);
      var id := nextId;
      var row := NewRow(build, id, name.value, email.value, hash);
      ValidatedRowMeetsConstraints(build, id, name.value, email.value, hash);
      Put(row);
      ParseShowInt(id);
      ValidateUserIdOfInt(id);
      if build == Corrected {
        CreatedUserLogsIn(id, email.value, password.value, Strip(name.value));
      }
    }

    /** The row just inserted under a lower-cased email is the one login finds. */
    lemma CreatedUserLogsIn(id: int, email: string, password: string, name: string)
      requires Valid() && build == Corrected
      requires id in rows && rows[id].name == name && rows[id].email == StoredEmail(Corrected, email)
      requires ValidateEmail(Some(email)) && ValidatePassword(Some(password))
      requires VerifyPassword(digest, password, rows[id].password)
      ensures Login(Some(email), Some(password)) == Resp(200, LoginOkBody(id, name))
    {
      ValidEmailIsStripped(email);
      assert rows[id].email == Lower(email);
      var found := WithEmail(RowsInIdOrder(rows, nextId), Lower(email));
      LoginLookupIsUnique(found, Lower(email));
      assert found == Some(rows[id]);
      assert LoginCheck(Some(email), Some(password)).None?;
    }

    /** update_user (app.py:163-221): the response is the one the
        validations, the SELECT, the UPDATE's bindings and the UNIQUE email
        decide; on success the SET list built from the supplied fields is
        applied to the row. */
    method UpdateUser(userId: string, name: Option<string>, email: Option<string>) returns (r: Resp)
      requires Valid()
      modifies this
      ensures Valid()
      ensures nextId == old(nextId)
      ensures r == UpdateOutcome(build, old(rows), userId, name, email)
      ensures r.status != 200 ==> rows == old(rows)
      ensures r.status == 200 ==>
                var id := ParseInt(userId).value;
                id in old(rows) &&
                rows == old(rows)[id := UpdatedRow(build, old(rows)[id], name, email)]
    {
      r := UpdateOutcome(build, rows, userId, name, email);
      if r.status != 200 {
        return;
      }
      UpdateOutcomeUpdated(build, rows, userId, name, email);
      var id := ParseInt(userId).value;
      var fields, params := BuildUpdate(build, name, email, userId);
      var values := params[..|params| - 1];
      assert values == UpdateValues(build, name, email);
      ApplyUpdateChangesOnlySupplied(build, rows[id], name, email);
      var row := ApplySet(rows[id], fields, values);
      Put(row);
    }

    /** delete_user (app.py:224-240): 200 when a row was deleted, 404 when no
        row had the id; afterwards no row has it. */
    method DeleteUser(userId: string) returns (r: Resp)
      requires Valid()
      modifies this
      ensures Valid()
      ensures nextId == old(nextId)
      ensures !ValidateUserId(userId) ==> r == BadRequest("Invalid user Id") && rows == old(rows)
      ensures ValidateUserId(userId) ==>
                && rows == old(rows) - {ParseInt(userId).value}
                && (r.status == 200 <==> ParseInt(userId).value in old(rows))
                && (r.status == 200 ==> r == Resp(200, MessageBody("User deleted successfully")))
                && (r.status != 200 ==> r == Resp(404, ErrorBody("User not found")) && rows == old(rows))
      ensures ValidateUserId(userId) ==> GetUser(userId) == Resp(404, ErrorBody("User not found"))
    {
      if !ValidateUserId(userId) {
        return BadRequest("Invalid user Id");
      }
      var id := ParseInt(userId).value;
      var existed := id in rows;
      rows := rows - {id};
      if existed {
        r := Resp(200, MessageBody("User deleted successfully"));
      } else {
        r := Resp(404, ErrorBody("User not found"));
      }
    }
  }

  /** The row after a validated update of a row that met the CHECK
      constraints meets them again exactly when no supplied name begins,
      once stripped, with NUL: a valid email always fits. */
  lemma UpdatedRowMeetsConstraints(b: Build, u: User, name: Option<string>, email: Option<string>)
    requires RowConstraintsOk(u)
    requires Truthy(name) ==> ValidateName(name)
    requires Truthy(email) ==> ValidateEmail(email)
    ensures RowConstraintsOk(UpdatedRow(b, u, name, email)) <==>
              !(Truthy(name) && Strip(name.value)[0] == '\0')
  {
    if Truthy(email) {
      StoredEmailSqlLength(b, email.value);
    }
  }

  /** With lower-cased storage, login finds a row for any spelling of its
      email that differs only in ASCII case, and accepts its password. */
  lemma LoginMatchesIgnoringCase(db: UserDb, k: int, email: string, password: string)
    requires db.Valid() && db.build == Corrected
    requires k in db.rows && EqualIgnoreCase(email, db.rows[k].email)
    requires ValidateEmail(Some(email)) && password != ""
    requires VerifyPassword(db.digest, password, db.rows[k].password)
    ensures db.Login(Some(email), Some(password)) == Resp(200, LoginOkBody(k, db.rows[k].name))
  {
    var row := db.rows[k];
    EqualIgnoreCaseIsLowerEqual(email, row.email);
    LowerCaseIsLowerFixed(row.email);
    assert row.email == Lower(email);
    var found := WithEmail(RowsInIdOrder(db.rows, db.nextId), Lower(email));
    db.LoginLookupIsUnique(found, Lower(email));
    assert found == Some(row);
    assert LoginCheck(Some(email), Some(password)).None?;
  }

  /** As written, a row whose email has an upper-case letter (which
      create_user and update_user store as given) can never log in: the
      lookup uses the lower-cased input. */
  lemma MixedCaseEmailNeverLogsIn(db: UserDb, k: int, email: Option<string>, password: Option<string>)
    requires db.Valid()
    requires k in db.rows && !IsLowerCase(db.rows[k].email)
    ensures var r := db.Login(email, password); !(r.status == 200 && r.body.userId == k)
  {
    var r := db.Login(email, password);
    if r.status == 200 && r.body.userId == k {
      LowerCaseIsLowerFixed(email.value);
    }
  }

  /** As written, giving user 1 a mixed-case e-mail through update_user
      succeeds (a one-character id binds correctly), and afterwards that user
      can no longer log in with it, whatever the password. */
  method UpdateToMixedCaseEmailLocksOut(db: UserDb, password: Option<string>) returns (updated: Resp, login: Resp)
    requires db.Valid() && db.build == AsWritten
    requires 1 in db.rows && !EmailTaken(db.rows, "John@example.com", 1)
    modifies db
    ensures db.Valid()
    ensures updated == Resp(200, MessageBody("User updated successfully"))
    ensures 1 in db.rows && db.rows[1].email == "John@example.com"
    ensures login == db.Login(Some("John@example.com"), password)
    ensures !(login.status == 200 && login.body.userId == 1)
  {
    var e := "John@example.com";
    MixedCaseUpdateSucceeds(db.rows);
    updated := db.UpdateUser("1", None, Some(e));
    MixedCaseEmailNeverLogsIn(db, 1, Some(e), password);
    login := db.Login(Some(e), password);
  }

  /** The update of that scenario passes every check of update_user as
      written and stores the e-mail with its capital. */
  lemma MixedCaseUpdateSucceeds(rows: map<int, User>)
    requires 1 in rows && RowConstraintsOk(rows[1]) && !EmailTaken(rows, "John@example.com", 1)
    ensures UpdateOutcome(AsWritten, rows, "1", None, Some("John@example.com")) ==
              Resp(200, MessageBody("User updated successfully"))
    ensures ParseInt("1") == Some(1)
    ensures UpdatedRow(AsWritten, rows[1], None, Some("John@example.com")).email == "John@example.com"
    ensures !IsLowerCase("John@example.com")
  {
    var e := "John@example.com";
    MixedCaseEmailIsStoredAsGiven();
    UpdateOfIdOnePasses(e);
    StoredEmailSqlLength(AsWritten, e);
    SelectBindingsMatch(AsWritten, "1");
    UpdateBindingsMatch(AsWritten, None, Some(e), "1");
  }

  /** The checks of update_user pass for id "1" and a valid e-mail alone. */
  lemma UpdateOfIdOnePasses(e: string)
    requires ValidateEmail(Some(e))
    ensures UpdateCheck("1", None, Some(e)).None?
    ensures ParseInt("1") == Some(1)
  {
    assert ParseInt("1") == Some(1);
  }

  /** As written, create_user and update_user store every valid e-mail
      exactly as given: the `strip()` leaves it unchanged and nothing lowers it. */
  lemma StoredEmailKeepsCaseAsWritten(e: string)
    requires ValidateEmail(Some(e))
    ensures StoredEmail(AsWritten, e) == e
  {
    ValidEmailIsStripped(e);
  }

  /** A valid e-mail need not be lower case, so as written it is stored with
      its upper-case letters. */
  lemma MixedCaseEmailIsStoredAsGiven()
    ensures ValidateEmail(Some("John@example.com"))
    ensures StoredEmail(AsWritten, "John@example.com") == "John@example.com"
    ensures !IsLowerCase("John@example.com")
  {
    var e := "John@example.com";
    WitnessEmailMatches();
    StoredEmailKeepsCaseAsWritten(e);
    assert IsAsciiUpper(e[0]);
  }

  /** "John@example.com" matches the e-mail pattern, `@` at 4 and the last dot at 12. */
  lemma WitnessEmailMatches()
    ensures EmailPattern("John@example.com")
  {
    assert EmailMatchAt("John@example.com", 4, 12);
  }

  /** For a term without LIKE wildcards, search_users returns exactly the
      rows whose name, read as far as its first NUL, contains the stripped
      term, ignoring ASCII case. A NUL in the stripped term cuts the pattern
      there, closing `%` included, so the rows are then those whose name ends
      with the term's text before its NUL. */
  lemma SearchFindsSubstrings(db: UserDb, term: string, u: User)
    requires db.Valid()
    requires SearchCheck(Some(term)).None? && NoWildcards(Strip(term))
    ensures var r := db.SearchUsers(Some(term));
            '\0' !in Strip(term) ==>
              (u in r.body.users <==> u in db.rows.Values && ContainsIgnoreCase(BeforeNul(u.name), Strip(term)))
    ensures var r := db.SearchUsers(Some(term));
            '\0' in Strip(term) ==>
              (u in r.body.users <==> u in db.rows.Values && EndsWithIgnoreCase(BeforeNul(u.name), BeforeNul(Strip(term))))
  {
    if '\0' in Strip(term) {
      LikeNulTerm(u.name, Strip(term));
    } else {
      LikeSubstring(u.name, Strip(term));
    }
  }

  /** A search for a lone NUL passes the checks (`strip()` keeps it) and,
      its pattern read by SQLite as `%`, lists every user. */
  lemma SearchForNulListsEveryone(db: UserDb, u: User)
    requires db.Valid()
    ensures var r := db.SearchUsers(Some("\0"));
            r.status == 200 && (u in r.body.users <==> u in db.rows.Values)
  {
    NulTermPassesSearchCheck();
    LikeNulTerm(u.name, "\0");
  }

  /** The lone NUL survives `strip()`, passes search_users' checks and is
      seen by SQLite as the empty text. */
  lemma NulTermPassesSearchCheck()
    ensures Strip("\0") == "\0" && SearchCheck(Some("\0")).None?
    ensures NoWildcards("\0") && '\0' in "\0" && BeforeNul("\0") == []
  {
    StripOfTrimmed("\0");
  }
}
