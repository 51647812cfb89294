/**
 * The pure part of the user-management handlers (messy-migration/app.py):
 * rows of the `users` table, the JSON responses, the validation chains of
 * create_user and update_user, the SQL the handlers build and the outcome
 * each handler reaches for a given table.
 *
 * Four statements of the source do not do what the surrounding code evidently
 * intends. Each is modelled both ways, selected by a `Build`:
 *  - the INSERT names the column `passowrd` (app.py:145), which the table
 *    does not have (init_db.py:31);
 *  - the SELECT of update_user passes `(user_id)`, a string, as the parameter
 *    sequence (app.py:192), so each character is a separate binding;
 *  - update_user catches `sqlite3.InternalError` (app.py:217), so the
 *    IntegrityError of an email conflict reaches the generic handler;
 *  - login looks the email up lower-cased (app.py:291) but create_user and
 *    update_user store it as given (app.py:146, 204).
 */
module UserTable {
  import opened Wrappers
  import opened Text
  import opened Validators
  import opened SqlLike
  import opened Seqs

  /** A row of `users` (init_db.py:27-34); the timestamp columns are left out. */
  datatype User = User(id: int, name: string, email: string, password: string)

  /** `AsWritten` reproduces the four defects listed above; `Corrected` is
      the behaviour the code evidently intends. */
  datatype Build = AsWritten | Corrected

  /** The JSON payloads the handlers return. */
  datatype Body =
    | ErrorBody(error: string)
    | MessageBody(message: string)
    | CreatedBody(message: string, userId: int)
    | UserBody(user: User)
    | UsersBody(users: seq<User>, count: int)
    | SearchBody(users: seq<User>, count: int, searchTerm: string)
    | LoginOkBody(userId: int, name: string)
    | LoginFailedBody(error: string)

  /** An HTTP status with its payload. */
  datatype Resp = Resp(status: int, body: Body)

  /** handle_errors (app.py:67-78): any `sqlite3.Error` escaping a handler. */
  const DatabaseError := Resp(500, ErrorBody("Database error occurred"))

  function BadRequest(msg: string): Resp { Resp(400, ErrorBody(msg)) }

  // ---------------------------------------------------------------- table constraints

  /** The CHECK constraints of the schema (init_db.py:29-30) on a name and an
      email, measured as SQLite's `length()` measures them. */
  predicate ColumnChecksOk(name: string, email: string) {
    0 < SqlLength(name) <= 100 && 0 < SqlLength(email) <= 254
  }

  /** The CHECK constraints of a row. */
  predicate RowConstraintsOk(u: User) {
    ColumnChecksOk(u.name, u.email)
  }

  /** A stripped name that begins with NUL passes validate_name (`strip()`
      keeps a NUL and `len` counts it) but has SQLite length 0, so it breaks
      the name CHECK. */
  lemma NulLeadingNameBreaksCheck()
    ensures ValidateName(Some("\0Bob")) && Strip("\0Bob") == "\0Bob"
    ensures SqlLength(Strip("\0Bob")) == 0
  {
    StripOfTrimmed("\0Bob");
  }

  /** Some row other than `except` has exactly this email (UNIQUE compares
      with SQLite's BINARY collation, so case matters). */
  predicate EmailTaken(rows: map<int, User>, e: string, except: int) {
    exists k :: k in rows && k != except && rows[k].email == e
  }

  /** Rows whose ids are their keys and whose emails are pairwise distinct. */
  ghost predicate WellFormedRows(rows: map<int, User>) {
    && (forall k :: k in rows ==> rows[k].id == k && RowConstraintsOk(rows[k]))
    && (forall j, k :: j in rows && k in rows && j != k ==> rows[j].email != rows[k].email)
  }

  /** The guarantees of the schema (init_db.py:27-34) for a table whose next
      AUTOINCREMENT id is `nextId`: ids below the counter, the CHECK
      constraints and unique emails; when emails are stored lower-cased,
      every stored email is lower case. */
  ghost predicate TableOk(b: Build, rows: map<int, User>, nextId: int) {
    && nextId >= 1
    && (forall k :: k in rows ==> 1 <= k < nextId)
    && WellFormedRows(rows)
    && (b == Corrected ==> forall k :: k in rows ==> IsLowerCase(rows[k].email))
  }

  /** A row that meets the constraints and whose email no other row holds
      can be put under its id, the next id or an existing one. */
  lemma PutKeepsTableOk(b: Build, rows: map<int, User>, nextId: int, u: User)
    requires TableOk(b, rows, nextId)
    requires 1 <= u.id <= nextId
    requires RowConstraintsOk(u) && !EmailTaken(rows, u.email, u.id)
    requires b == Corrected ==> IsLowerCase(u.email)
    ensures TableOk(b, rows[u.id := u], if u.id == nextId then nextId + 1 else nextId)
  {
  }

  /** The email text create_user and update_user store: stripped as written,
      also lower-cased once the lookup in login is taken as the intent. */
  function StoredEmail(b: Build, e: string): (s: string)
    ensures b == Corrected ==> IsLowerCase(s)
    ensures |s| == |Strip(e)|
  {
    LowerCaseIsLowerFixed(Strip(e));
    if b == AsWritten then Strip(e) else Lower(Strip(e))
  }

  // ---------------------------------------------------------------- SQL bindings

  /** The columns of `users` (init_db.py:27-34). */
  const TableColumns: seq<string> := ["id", "name", "email", "password", "created_at", "updated_at"]

  /** The column list of create_user's INSERT (app.py:145). */
  function InsertColumns(b: Build): seq<string> {
    if b == AsWritten then ["name", "email", "passowrd"] else ["name", "email", "password"]
  }

  /** SQLite raises OperationalError for an INSERT naming an unknown column. */
  predicate ColumnsExist(cols: seq<string>) {
    forall i :: 0 <= i < |cols| ==> cols[i] in TableColumns
  }

  /** sqlite3 raises ProgrammingError unless there is one binding per `?`. */
  predicate BindingsMatch(sql: string, params: seq<string>) {
    Count(sql, '?') == |params|
  }

  /** The SELECT of update_user (app.py:192), its one placeholder last. */
  const SelectIdSql := SelectHead + "?"
  const SelectHead := "SELECT id from users WHERE id="

  /** The parameter sequence of update_user's SELECT (app.py:192): as
      written `(user_id)` is the string itself, one binding per character. */
  function SelectParams(b: Build, userId: string): (ps: seq<string>)
    ensures b == AsWritten ==> |ps| == |userId|
    ensures b == Corrected ==> ps == [userId]
  {
    if b == AsWritten then seq(|userId|, i requires 0 <= i < |userId| => [userId[i]]) else [userId]
  }

  lemma SelectIdSqlHasOnePlaceholder()
    ensures Count(SelectIdSql, '?') == 1
  {
    assert '?' !in SelectHead;
    OnePlaceholderLast(SelectHead);
  }

  /** A statement whose only placeholder is its last character. */
  lemma OnePlaceholderLast(front: string)
    requires '?' !in front
    ensures Count(front + "?", '?') == 1
  {
    CountConcat(front, "?", '?');
  }

  /** The SELECT of update_user binds correctly exactly when `user_id` is one
      character long as written, and always once the tuple is written. */
  lemma SelectBindingsMatch(b: Build, userId: string)
    ensures BindingsMatch(SelectIdSql, SelectParams(b, userId)) <==>
            (b == Corrected || |userId| == 1)
  {
    SelectIdSqlHasOnePlaceholder();
  }

  // ---------------------------------------------------------------- create_user

  /** The validations of create_user in their order (app.py:127-137): the
      first failing one gives its 400; `None` when all pass. */
  function CreateCheck(name: Option<string>, email: Option<string>, password: Option<string>): (r: Option<Resp>)
    ensures r.None? <==> ValidateName(name) && ValidateEmail(email) && ValidatePassword(password)
    ensures r.Some? ==> r.value.status == 400
    ensures !(Truthy(name) && Truthy(email) && Truthy(password)) ==>
              r == Some(BadRequest("Missing required fields: name, passowrd and email"))
    ensures Truthy(name) && Truthy(email) && Truthy(password) && !ValidateName(name) ==>
              r == Some(BadRequest("Invalid name (1-100 characters required)"))
    ensures Truthy(name) && Truthy(email) && Truthy(password) && ValidateName(name) && !ValidateEmail(email) ==>
              r == Some(BadRequest("Invalid email format"))
    ensures Truthy(name) && ValidateEmail(email) && Truthy(password) && ValidateName(name) && !ValidatePassword(password) ==>
              r == Some(BadRequest("Pasword must be at least 6 characters"))
  {
    if !(Truthy(name) && Truthy(email) && Truthy(password)) then
      Some(BadRequest("Missing required fields: name, passowrd and email"))
    else if !ValidateName(name) then Some(BadRequest("Invalid name (1-100 characters required)"))
    else if !ValidateEmail(email) then Some(BadRequest("Invalid email format"))
    else if !ValidatePassword(password) then Some(BadRequest("Pasword must be at least 6 characters"))
    else None
  }

  /** The row create_user inserts (app.py:145-146): stripped name and email. */
  function NewRow(b: Build, id: int, name: string, email: string, hash: string): User {
    User(id, Strip(name), StoredEmail(b, email), hash)
  }

  /** The response of create_user on a table with the given rows when the
      next AUTOINCREMENT id is `nextId` (app.py:139-160). */
  function CreateOutcome(b: Build, rows: map<int, User>, nextId: int,
                         name: Option<string>, email: Option<string>, password: Option<string>): (r: Resp)
    ensures r.status in {201, 400, 409, 500}
  {
    match CreateCheck(name, email, password)
    case Some(bad) => bad
    case None =>
      if !ColumnsExist(InsertColumns(b)) then DatabaseError
      // SQLite tests the CHECK constraints before UNIQUE; a valid email
      // always meets its CHECK, so the failing one names the name column
      else if !ColumnChecksOk(Strip(name.value), StoredEmail(b, email.value)) then
        Resp(409, ErrorBody("User creation Failed"))
      else if EmailTaken(rows, StoredEmail(b, email.value), nextId) then
        Resp(409, ErrorBody("Email Already Exists"))
      else Resp(201, CreatedBody("user Created Successfully", nextId))
  }

  /** create_user reaches its INSERT, and answers 201 with the new id,
      exactly when the validations pass, the column list names existing
      columns, the row meets the CHECK constraints and no row holds the
      stored email. */
  lemma CreateOutcomeCreated(b: Build, rows: map<int, User>, nextId: int,
                             name: Option<string>, email: Option<string>, password: Option<string>)
    ensures var r := CreateOutcome(b, rows, nextId, name, email, password);
            (r.status == 201 <==>
               && ValidateName(name) && ValidateEmail(email) && ValidatePassword(password)
               && ColumnsExist(InsertColumns(b))
               && ColumnChecksOk(Strip(name.value), StoredEmail(b, email.value))
               && !EmailTaken(rows, StoredEmail(b, email.value), nextId)) &&
            (r.status == 201 ==> r.body == CreatedBody("user Created Successfully", nextId))
  {
  }

  /** A valid email holds no NUL, so SQLite measures its stored form in
      full, and that is its length. */
  lemma StoredEmailSqlLength(b: Build, e: string)
    requires ValidateEmail(Some(e))
    ensures SqlLength(StoredEmail(b, e)) == |e|
  {
    ValidEmailIsStripped(e);
    var s := StoredEmail(b, e);
    forall i | 0 <= i < |s| ensures s[i] != '\0' {
      if b == Corrected {
        assert s[i] == LowerChar(e[i]);
      }
    }
    NulFreeSqlLength(s);
  }

  /** A row that passed create_user's validations meets the CHECK
      constraints exactly when its stripped name does not begin with NUL:
      the email always fits, the name fits unless SQLite's `length()` stops
      at a leading NUL. */
  lemma ValidatedRowMeetsConstraints(b: Build, id: int, name: string, email: string, hash: string)
    requires ValidateName(Some(name)) && ValidateEmail(Some(email))
    ensures RowConstraintsOk(NewRow(b, id, name, email, hash)) <==> Strip(name)[0] != '\0'
    ensures NewRow(b, id, name, email, hash).email == StoredEmail(b, email)
  {
    ValidEmailIsStripped(email);
    StoredEmailSqlLength(b, email);
  }

  /** As written, create_user never creates a user: the INSERT names the
      column `passowrd`, SQLite raises OperationalError and the request ends
      in the generic 500 once validation has passed. */
  lemma CreateNeverSucceedsAsWritten(rows: map<int, User>, nextId: int,
                                     name: Option<string>, email: Option<string>, password: Option<string>)
    ensures CreateOutcome(AsWritten, rows, nextId, name, email, password).status != 201
    ensures CreateCheck(name, email, password).None? ==>
              CreateOutcome(AsWritten, rows, nextId, name, email, password) == DatabaseError
  {
    assert "passowrd" !in TableColumns;
    assert !ColumnsExist(InsertColumns(AsWritten)) by {
      assert InsertColumns(AsWritten)[2] == "passowrd";
    }
  }

  /** With the column named `password`, valid input creates a user exactly
      when its stripped name does not begin with NUL and no row holds the
      stored email; a NUL-leading name gives the 409 "User creation Failed"
      and a taken email the 409 "Email Already Exists". */
  lemma CreateSucceedsWhenValid(rows: map<int, User>, nextId: int,
                                name: Option<string>, email: Option<string>, password: Option<string>)
    requires CreateCheck(name, email, password).None?
    ensures var r := CreateOutcome(Corrected, rows, nextId, name, email, password);
            var fits := Strip(name.value)[0] != '\0';
            (r.status == 201 <==> fits && !EmailTaken(rows, StoredEmail(Corrected, email.value), nextId)) &&
            (r.status == 201 ==> r.body == CreatedBody("user Created Successfully", nextId)) &&
            (!fits ==> r == Resp(409, ErrorBody("User creation Failed"))) &&
            (fits && r.status != 201 ==> r == Resp(409, ErrorBody("Email Already Exists")))
  {
    StoredEmailSqlLength(Corrected, email.value);
    assert ColumnsExist(InsertColumns(Corrected)) by {
      var cols := InsertColumns(Corrected);
      forall i | 0 <= i < |cols| ensures cols[i] in TableColumns {
        assert cols[i] == TableColumns[i + 1];
      }
    }
  }

  // ---------------------------------------------------------------- update_user

  /** The validations of update_user in their order (app.py:166-187); a
      falsy field counts as not supplied. */
  function UpdateCheck(userId: string, name: Option<string>, email: Option<string>): (r: Option<Resp>)
    ensures r.None? <==>
            ValidateUserId(userId) && (Truthy(name) || Truthy(email)) &&
            (Truthy(name) ==> ValidateName(name)) && (Truthy(email) ==> ValidateEmail(email))
    ensures !ValidateUserId(userId) ==> r == Some(BadRequest("Invalid user ID"))
    ensures ValidateUserId(userId) && !Truthy(name) && !Truthy(email) ==>
              r == Some(BadRequest("At least 1 field(name or email) is required"))
    ensures r.Some? ==> r.value.status == 400
  {
    if !ValidateUserId(userId) then Some(BadRequest("Invalid user ID"))
    else if !Truthy(name) && !Truthy(email) then Some(BadRequest("At least 1 field(name or email) is required"))
    else if Truthy(name) && !ValidateName(name) then Some(BadRequest("Invalid name (1-100 characters required)"))
    else if Truthy(email) && !ValidateEmail(email) then Some(BadRequest("Invalid email format"))
    else None
  }

  /** The SET clauses update_user collects (app.py:196-206). */
  function UpdateFields(name: Option<string>, email: Option<string>): seq<string> {
    (if Truthy(name) then [SetClause("name")] else []) + (if Truthy(email) then [SetClause("email")] else [])
  }

  /** `"<column> = ?"`, one entry of `update_field`. */
  function SetClause(column: string): string { column + " = ?" }

  /** The values bound to those clauses, in the same order. */
  function UpdateValues(b: Build, name: Option<string>, email: Option<string>): seq<string> {
    (if Truthy(name) then [Strip(name.value)] else []) + (if Truthy(email) then [StoredEmail(b, email.value)] else [])
  }

  /** The statement of app.py:209-210. */
  function UpdateSql(clauses: string): string {
    UpdateHead + clauses + UpdateTail
  }

  /** The UPDATE always binds correctly: one value per SET clause plus the id. */
  lemma UpdateBindingsMatch(b: Build, name: Option<string>, email: Option<string>, userId: string)
    ensures |UpdateValues(b, name, email)| == |UpdateFields(name, email)|
    ensures BindingsMatch(UpdateSql(JoinWith(UpdateFields(name, email), ", ")), UpdateValues(b, name, email) + [userId])
  {
    UpdateFieldsPlaceholders(name, email);
    UpdateSqlPlaceholders(JoinWith(UpdateFields(name, email), ", "));
  }

  /** The joined SET list has one placeholder per supplied field. */
  lemma UpdateFieldsPlaceholders(name: Option<string>, email: Option<string>)
    ensures Count(JoinWith(UpdateFields(name, email), ", "), '?') == |UpdateFields(name, email)|
  {
    if Truthy(name) && Truthy(email) {
      assert UpdateFields(name, email) == [SetClause("name"), SetClause("email")];
      TwoClausesPlaceholders();
    } else if Truthy(name) {
      assert UpdateFields(name, email) == [SetClause("name")];
      SetClausePlaceholder("name");
    } else if Truthy(email) {
      assert UpdateFields(name, email) == [SetClause("email")];
      SetClausePlaceholder("email");
    }
  }

  lemma TwoClausesPlaceholders()
    ensures Count(JoinWith([SetClause("name"), SetClause("email")], ", "), '?') == 2
  {
    SetClausePlaceholder("name");
    SetClausePlaceholder("email");
    JoinedPlaceholders(SetClause("name"), SetClause("email"));
  }

  /** Two clauses joined by `", "` hold the placeholders of both. */
  lemma JoinedPlaceholders(a: string, c: string)
    ensures Count(JoinWith([a, c], ", "), '?') == Count(a, '?') + Count(c, '?')
  {
    SeparatorPlaceholders();
    assert JoinWith([a, c], ", ") == a + ", " + c;
    CountConcat(a, ", ", '?');
    CountConcat(a + ", ", c, '?');
  }

  lemma SetClausePlaceholder(column: string)
    requires '?' !in column
    ensures Count(SetClause(column), '?') == 1
  {
    var front := column + " = ";
    assert SetClause(column) == front + "?";
    assert '?' !in front;
    OnePlaceholderLast(front);
  }

  lemma SeparatorPlaceholders()
    ensures Count(", ", '?') == 0
  {
  }

  lemma UpdateSqlPlaceholders(clauses: string)
    ensures Count(UpdateSql(clauses), '?') == Count(clauses, '?') + 1
  {
    UpdateHeadPlaceholders();
    UpdateTailPlaceholders();
    CountConcat(UpdateHead, clauses, '?');
    CountConcat(UpdateHead + clauses, UpdateTail, '?');
  }

  const UpdateHead := "UPDATE users SET "
  const UpdateTail := " WHERE id=?"

  lemma UpdateHeadPlaceholders()
    ensures Count(UpdateHead, '?') == 0
  {
    assert '?' !in UpdateHead;
  }

  lemma UpdateTailPlaceholders()
    ensures Count(UpdateTail, '?') == 1
  {
    assert UpdateTail == " WHERE id=" + "?";
    OnePlaceholderLast(" WHERE id=");
  }

  /** How SQLite applies a SET list to one row: each clause assigns its value. */
  function ApplySet(u: User, fields: seq<string>, values: seq<string>): User
    requires |fields| == |values|
    decreases |fields|
  {
    if fields == [] then u
    else
      var v := values[0];
      var next := if fields[0] == SetClause("name") then u.(name := v)
                  else if fields[0] == SetClause("email") then u.(email := v)
                  else u;
      ApplySet(next, fields[1..], values[1..])
  }

  /** The row after update_user: the supplied fields take their stored
      values and every other column, the id included, is kept. */
  function UpdatedRow(b: Build, u: User, name: Option<string>, email: Option<string>): User {
    u.(name := if Truthy(name) then Strip(name.value) else u.name,
       email := if Truthy(email) then StoredEmail(b, email.value) else u.email)
  }

  /** Only the supplied columns of the row change, and they change to the
      stripped values. */
  lemma ApplyUpdateChangesOnlySupplied(b: Build, u: User, name: Option<string>, email: Option<string>)
    ensures |UpdateFields(name, email)| == |UpdateValues(b, name, email)|
    ensures ApplySet(u, UpdateFields(name, email), UpdateValues(b, name, email)) == UpdatedRow(b, u, name, email)
  {
    var fields, values := UpdateFields(name, email), UpdateValues(b, name, email);
    if Truthy(name) {
      var u1 := u.(name := Strip(name.value));
      assert ApplySet(u, fields, values) == ApplySet(u1, fields[1..], values[1..]);
    }
  }

  /** The response of update_user (app.py:163-221) for a table with these rows. */
  function UpdateOutcome(b: Build, rows: map<int, User>, userId: string,
                         name: Option<string>, email: Option<string>): (r: Resp)
    ensures UpdateCheck(userId, name, email).Some? ==> r == UpdateCheck(userId, name, email).value
    ensures r.status in {200, 400, 404, 409, 500}
    ensures r.status == 409 ==>
              && b == Corrected
              && (r.body == ErrorBody("Email already exists") || r.body == ErrorBody("Update Failed"))
  {
    match UpdateCheck(userId, name, email)
    case Some(bad) => bad
    case None =>
      var id := ParseInt(userId).value;
      if !BindingsMatch(SelectIdSql, SelectParams(b, userId)) then DatabaseError
      else if id !in rows then Resp(404, ErrorBody("User Not Found"))
      else if !BindingsMatch(UpdateSql(JoinWith(UpdateFields(name, email), ", ")), UpdateValues(b, name, email) + [userId]) then
        DatabaseError
      // SQLite tests the CHECK constraints before UNIQUE
      else if !RowConstraintsOk(UpdatedRow(b, rows[id], name, email)) then
        (if b == Corrected then Resp(409, ErrorBody("Update Failed")) else DatabaseError)
      else if Truthy(email) && EmailTaken(rows, StoredEmail(b, email.value), id) then
        (if b == Corrected then Resp(409, ErrorBody("Email already exists")) else DatabaseError)
      else Resp(200, MessageBody("User updated successfully"))
  }

  /** update_user applies its UPDATE, and answers 200, exactly when the
      validations pass, the SELECT binds and finds the row, the updated row
      meets the CHECK constraints and no other row holds the stored new
      email. */
  lemma UpdateOutcomeUpdated(b: Build, rows: map<int, User>, userId: string,
                             name: Option<string>, email: Option<string>)
    ensures UpdateOutcome(b, rows, userId, name, email).status == 200 <==>
              && UpdateCheck(userId, name, email).None?
              && BindingsMatch(SelectIdSql, SelectParams(b, userId))
              && ParseInt(userId).value in rows
              && RowConstraintsOk(UpdatedRow(b, rows[ParseInt(userId).value], name, email))
              && !(Truthy(email) && EmailTaken(rows, StoredEmail(b, email.value), ParseInt(userId).value))
  {
    if UpdateCheck(userId, name, email).None? {
      UpdateBindingsMatch(b, name, email, userId);
    }
  }

  /** As written, every update of a user whose id has two or more characters
      (id 10 onwards, or "+5") fails with the 500, because the SELECT gets one
      binding per character. */
  lemma UpdateLongIdFailsAsWritten(rows: map<int, User>, userId: string,
                                   name: Option<string>, email: Option<string>)
    requires UpdateCheck(userId, name, email).None? && |userId| != 1
    ensures UpdateOutcome(AsWritten, rows, userId, name, email) == DatabaseError
  {
    SelectBindingsMatch(AsWritten, userId);
  }

  /** As written, an email conflict is not the 409 the handler prepares but
      the generic 500: the IntegrityError is not caught by `except InternalError`. */
  lemma UpdateConflictFailsAsWritten(rows: map<int, User>, userId: string,
                                     name: Option<string>, email: Option<string>)
    requires UpdateCheck(userId, name, email).None?
    requires ParseInt(userId).value in rows
    requires Truthy(email) && EmailTaken(rows, StoredEmail(AsWritten, email.value), ParseInt(userId).value)
    ensures UpdateOutcome(AsWritten, rows, userId, name, email) == DatabaseError
  {
    SelectBindingsMatch(AsWritten, userId);
    UpdateBindingsMatch(AsWritten, name, email, userId);
  }

  /** As written, an update whose row breaks a CHECK constraint (a name that
      begins with NUL) is the generic 500 rather than "Update Failed". */
  lemma UpdateCheckFailureFailsAsWritten(rows: map<int, User>, userId: string,
                                         name: Option<string>, email: Option<string>)
    requires UpdateCheck(userId, name, email).None?
    requires ParseInt(userId).value in rows
    requires !RowConstraintsOk(UpdatedRow(AsWritten, rows[ParseInt(userId).value], name, email))
    ensures UpdateOutcome(AsWritten, rows, userId, name, email) == DatabaseError
  {
    SelectBindingsMatch(AsWritten, userId);
    UpdateBindingsMatch(AsWritten, name, email, userId);
  }

  /** With the tuple and the exception class corrected, a valid update is
      404 for a missing row, 409 "Update Failed" for a row that breaks a
      CHECK constraint, 409 for an email held by another row and 200
      otherwise, for every id. */
  lemma UpdateOutcomeCorrected(rows: map<int, User>, userId: string,
                               name: Option<string>, email: Option<string>)
    requires UpdateCheck(userId, name, email).None?
    ensures var r := UpdateOutcome(Corrected, rows, userId, name, email);
            var id := ParseInt(userId).value;
            && (id !in rows ==> r == Resp(404, ErrorBody("User Not Found")))
            && (id in rows && !RowConstraintsOk(UpdatedRow(Corrected, rows[id], name, email)) ==>
                  r == Resp(409, ErrorBody("Update Failed")))
            && (id in rows && RowConstraintsOk(UpdatedRow(Corrected, rows[id], name, email)) &&
                Truthy(email) && EmailTaken(rows, StoredEmail(Corrected, email.value), id) ==>
                  r == Resp(409, ErrorBody("Email already exists")))
            && (id in rows && RowConstraintsOk(UpdatedRow(Corrected, rows[id], name, email)) &&
                !(Truthy(email) && EmailTaken(rows, StoredEmail(Corrected, email.value), id)) ==>
                  r == Resp(200, MessageBody("User updated successfully")))
  {
    SelectBindingsMatch(Corrected, userId);
    UpdateBindingsMatch(Corrected, name, email, userId);
  }

  // ---------------------------------------------------------------- queries

  /** The ids below `hi` that have a row, in increasing order: what
      `ORDER BY id` yields (the table's ids are all below its next id). */
  function OrderedIds(rows: map<int, User>, hi: int): (ids: seq<int>)
    decreases hi
    ensures forall i, j :: 0 <= i < j < |ids| ==> ids[i] < ids[j]
    ensures forall k :: k in ids <==> 1 <= k < hi && k in rows
  {
    if hi <= 1 then []
    else
      var below := OrderedIds(rows, hi - 1);
      assert forall i :: 0 <= i < |below| ==> below[i] in below;
      below + (if hi - 1 in rows then [hi - 1] else [])
  }

  /** Strictly increasing ids, as `ORDER BY id` returns them. */
  predicate IdsIncreasing(us: seq<User>) {
    forall i, j :: 0 <= i < j < |us| ==> us[i].id < us[j].id
  }

  /** `SELECT * FROM users ORDER BY id` on rows whose ids are their keys, all below `hi`. */
  function RowsInIdOrder(rows: map<int, User>, hi: int): (us: seq<User>)
    requires forall k :: k in rows ==> 1 <= k < hi && rows[k].id == k
    ensures IdsIncreasing(us)
    ensures forall u :: u in us <==> u in rows.Values
    ensures |us| == |rows|
  {
    var ids := OrderedIds(rows, hi);
    assert forall i :: 0 <= i < |ids| ==> ids[i] in ids;
    var us := seq(|ids|, i requires 0 <= i < |ids| => rows[ids[i]]);
    RowsInIdOrderFacts(rows, hi, ids, us);
    us
  }

  lemma RowsInIdOrderFacts(rows: map<int, User>, hi: int, ids: seq<int>, us: seq<User>)
    requires forall k :: k in rows ==> 1 <= k < hi && rows[k].id == k
    requires ids == OrderedIds(rows, hi)
    requires |us| == |ids| && forall i :: 0 <= i < |ids| ==> ids[i] in rows && us[i] == rows[ids[i]]
    ensures IdsIncreasing(us)
    ensures forall u :: u in us <==> u in rows.Values
    ensures |us| == |rows|
  {
    ListedRowsInOrder(rows, ids, us);
    EveryRowListed(rows, hi, ids, us);
    OrderedIdsCount(rows, hi, ids);
  }

  /** Rows listed by increasing keys are rows of the table, in id order. */
  lemma ListedRowsInOrder(rows: map<int, User>, ids: seq<int>, us: seq<User>)
    requires forall k :: k in rows ==> rows[k].id == k
    requires forall i, j :: 0 <= i < j < |ids| ==> ids[i] < ids[j]
    requires |us| == |ids| && forall i :: 0 <= i < |ids| ==> ids[i] in rows && us[i] == rows[ids[i]]
    ensures IdsIncreasing(us)
    ensures forall u :: u in us ==> u in rows.Values
  {
    forall u | u in us ensures u in rows.Values {
      var i :| 0 <= i < |us| && us[i] == u;
      assert rows[ids[i]] == u;
    }
  }

  /** Every row of the table appears in the listing by id. */
  lemma EveryRowListed(rows: map<int, User>, hi: int, ids: seq<int>, us: seq<User>)
    requires forall k :: k in rows ==> 1 <= k < hi
    requires forall k :: k in ids <==> 1 <= k < hi && k in rows
    requires |us| == |ids| && forall i :: 0 <= i < |ids| ==> ids[i] in rows && us[i] == rows[ids[i]]
    ensures forall k :: k in rows ==> rows[k] in us
  {
    forall k | k in rows ensures rows[k] in us {
      assert k in ids;
      var i :| 0 <= i < |ids| && ids[i] == k;
      assert us[i] == rows[k];
    }
  }

  /** `ORDER BY id` lists every row once. */
  lemma OrderedIdsCount(rows: map<int, User>, hi: int, ids: seq<int>)
    requires forall k :: k in rows ==> 1 <= k < hi
    requires ids == OrderedIds(rows, hi)
    ensures |ids| == |rows|
  {
    assert Distinct(ids);
    DistinctCardinality(ids);
    assert (set x | x in ids) == rows.Keys;
  }

  /** The rows whose names match the LIKE pattern, in their order. */
  function Matching(us: seq<User>, pattern: string): (r: seq<User>)
    ensures forall u :: u in r <==> u in us && Like(u.name, pattern)
    ensures |r| <= |us|
  {
    if us == [] then []
    else
      var rest := Matching(us[1..], pattern);
      if Like(us[0].name, pattern) then [us[0]] + rest else rest
  }

  /** Filtering keeps the rows in id order. */
  lemma {:induction false} MatchingKeepsOrder(us: seq<User>, pattern: string)
    requires IdsIncreasing(us)
    ensures IdsIncreasing(Matching(us, pattern))
  {
    if us != [] {
      var tail := us[1..];
      assert IdsIncreasing(tail) by {
        forall i, j | 0 <= i < j < |tail| ensures tail[i].id < tail[j].id {
          assert tail[i] == us[i + 1] && tail[j] == us[j + 1];
        }
      }
      MatchingKeepsOrder(tail, pattern);
      if Like(us[0].name, pattern) {
        assert us == [us[0]] + tail;
        HeadBelowRest(us[0], tail, Matching(tail, pattern));
      }
    }
  }

  /** A row below every row of a sublist of an increasing tail can be put in front of that sublist. */
  lemma HeadBelowRest(x: User, tail: seq<User>, rest: seq<User>)
    requires IdsIncreasing([x] + tail) && IdsIncreasing(rest)
    requires forall u :: u in rest ==> u in tail
    ensures IdsIncreasing([x] + rest)
  {
    forall u | u in rest ensures x.id < u.id {
      var i :| 0 <= i < |tail| && tail[i] == u;
      assert ([x] + tail)[0] == x && ([x] + tail)[i + 1] == u;
    }
    forall i, j | 0 <= i < j < |[x] + rest| ensures ([x] + rest)[i].id < ([x] + rest)[j].id {
      assert ([x] + rest)[j] == rest[j - 1];
      assert rest[j - 1] in rest;
      if i > 0 {
        assert ([x] + rest)[i] == rest[i - 1];
      } else {
        assert ([x] + rest)[i] == x;
      }
    }
  }

  /** The first row with exactly this email: `fetchone()` of login's SELECT. */
  function WithEmail(us: seq<User>, e: string): (r: Option<User>)
    ensures r.Some? ==> r.value in us && r.value.email == e
    ensures r.None? ==> forall u :: u in us ==> u.email != e
  {
    if us == [] then None
    else if us[0].email == e then Some(us[0])
    else WithEmail(us[1..], e)
  }

  /** The search pattern of search_users (app.py:256). */
  function SearchPattern(term: string): string { "%" + Strip(term) + "%" }

  /** The 400 responses of search_users (app.py:248-252), `None` when the term is accepted. */
  function SearchCheck(term: Option<string>): (r: Option<Resp>)
    ensures r.None? <==> term.Some? && 1 <= |Strip(term.value)| && |term.value| <= 100
    ensures r.Some? ==> r.value.status == 400
    ensures term.None? || |Strip(term.value)| < 1 ==>
              r == Some(BadRequest("Please provide a name to search(min 1 char required)"))
    ensures term.Some? && 1 <= |Strip(term.value)| && |term.value| > 100 ==>
              r == Some(BadRequest("Search term too long (maximum 100 characters)"))
  {
    if !Truthy(term) || |Strip(term.value)| < 1 then
      Some(BadRequest("Please provide a name to search(min 1 char required)"))
    else if |term.value| > 100 then Some(BadRequest("Search term too long (maximum 100 characters)"))
    else None
  }

  /** The validations of login (app.py:282-286). */
  function LoginCheck(email: Option<string>, password: Option<string>): (r: Option<Resp>)
    ensures r.None? <==> ValidateEmail(email) && Truthy(password)
    ensures !Truthy(email) || !Truthy(password) ==> r == Some(BadRequest("Email and password are required"))
    ensures r.Some? ==> r.value.status == 400
  {
    if !Truthy(email) || !Truthy(password) then Some(BadRequest("Email and password are required"))
    else if !ValidateEmail(email) then Some(BadRequest("Invalid email format"))
    else None
  }

  /** The single 401 of login, for an unknown email and a wrong password alike. */
  const LoginFailed := Resp(401, LoginFailedBody("Invalid Credentials"))
}
