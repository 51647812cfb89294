# Users service and URL shortener, modelled in Dafny

The repository holds two small Flask services. This project models the logic under their HTTP glue and proves what that logic promises.

**messy-migration** is a user-management API over one SQLite table `users`. Its parts are:

* the validators for e-mail, name, password and user id;
* the `salt:digest` password codec;
* seven handlers: create, update, delete, get one, list all, search by name and login.

In the model:

* The table is the class `UserService.UserDb`. It holds the rows by id and the AUTOINCREMENT counter. Its invariant is the schema's guarantees: ids below the counter, the CHECK constraints and unique e-mails (`messy-migration/init_db.py:27-35`).
* create_user and update_user each have a pure outcome function in `UserTable` (`CreateOutcome`, `UpdateOutcome`): the response for a given table and input. Their methods on `UserDb` are proved to answer that outcome and state the new table. The read-only handlers (get one, list all, search, login) are functions on `UserDb` whose ensures give the response directly, and so does the delete_user method.
* A `Build` (`AsWritten` or `Corrected`) selects four statements of the handlers that do not do what the surrounding code evidently intends. Those four are listed under Findings.

**url-shortener** is an in-memory store with three handlers:

* `shorten_url` allocates a fresh six-character code;
* `redirect_url` redirects and counts a click;
* `get_stats` reads a record.

In the model:

* The store is the class `UrlStore.URLStore`. It has a map from code to record and the dictionary's key order.
* `ShortenerUtils` holds the helpers: code generation over the 62 ASCII letters and digits, the URL recogniser and `normalize_url`.
* The recogniser's regular expression is written out as a reference predicate, `UrlPattern`, stated as "some split of the text matches the pieces of the expression". A decider cuts the text where a match must cut it, and it is proved equal to the reference.
* `ShortenerApi` holds the handlers. Each handler body runs under the service's lock, so each is one sequential step on the store.

Files:

| file | module | contents |
|---|---|---|
| wrappers.dfy | Wrappers | `Option` |
| seqs.dfy | Seqs | repetition-free sequences |
| text.dfy | Text | ASCII text: `strip`, `lower`, `startswith`, `split`/`join` |
| validators.dfy | Validators | the four validators of app.py |
| password_codec.dfy | PasswordCodec | hash/verify, with SHA-256 as a parameter |
| sql_like.dfy | SqlLike | SQLite's reading of a text up to its first NUL: `length()` and `LIKE` as search uses it |
| user_table.dfy | UserTable | rows, responses, the validation chains, the SQL, the handler outcomes |
| user_service.dfy | UserService | the table class and its handlers |
| url_store.dfy | UrlStore | the `URLStore` class |
| shortener_utils.dfy | ShortenerUtils | utils.py |
| shortener_api.dfy | ShortenerApi | main.py's handlers |

The foreign inputs of the source are modelled as follows:

* SHA-256 is a parameter: a function whose results are 64 lower-case hex digits.
* `secrets.token_hex(16)` and `random.choices` are nondeterministic choices.
* The successive results of `generate_short_code()` during one request are the parameter `draws`.
* `datetime.utcnow().isoformat()` is the parameter `createdAt`.
* Request bodies are optional string fields; responses are a status and a payload.

## Model

| member | source | states |
|---|---|---|
| Validators.ValidateEmail | messy-migration/app.py:32-36 | accepted exactly when the value is present, 1..254 characters long and matches `^[a-zA-Z0-9._%+-]+@[a-zA-Z0-9.-]+\.[a-zA-Z]{2,}$` (the pattern is written out as some choice of `@` and last `.` positions) |
| Validators.EmailShapeIsPattern | messy-migration/app.py:35-36 | the direct check "one `@`, a non-empty local part of allowed characters, a domain whose last `.` is followed by at least two letters" agrees with the regular expression on every string |
| Validators.ValidEmailIsStripped | messy-migration/app.py:146 | a valid e-mail has no whitespace, so the `strip()` before the INSERT leaves it unchanged, and holds no NUL |
| Validators.ValidateName | messy-migration/app.py:38-41 | accepted exactly when the value is present and its stripped length is 1..100 |
| Validators.StrippedNameStaysValid | messy-migration/app.py:146 | the stripped name that is stored is itself valid and is its own strip |
| Validators.ValidatePassword | messy-migration/app.py:43-46 | accepted exactly when the value is present and has at least 6 characters |
| Validators.ParseInt | messy-migration/app.py:62 | `int()` succeeds exactly on an optional sign followed by at least one digit |
| Validators.ValidateUserId | messy-migration/app.py:60-65 | accepted exactly when `int()` succeeds with a value of at least 1; false, not an error, when it does not parse |
| Validators.ParseShowInt | messy-migration/app.py:62 | `int()` reads every integer back from its decimal rendering |
| Validators.ValidateUserIdOfInt | messy-migration/app.py:60-65 | the rendering of an integer is a valid user id exactly when the integer is positive |
| PasswordCodec.HashPassword | messy-migration/app.py:48-51 | returns `salt:H(password+salt)` for some 32-hex-digit salt, 97 characters long with one `:`, and the password verifies against it |
| PasswordCodec.VerifyPassword | messy-migration/app.py:53-58 | true only when the stored text splits into exactly two parts at `:` |
| PasswordCodec.VerifyStoredHash | messy-migration/app.py:53-58 | round trip: for every password and colon-free salt, `verify_password(p, salt + ":" + H(p + salt))` holds |
| PasswordCodec.VerifyMalformed | messy-migration/app.py:55-58 | a stored text without exactly one `:` is rejected (the ValueError is caught) |
| PasswordCodec.VerifyPasswordExactly | messy-migration/app.py:53-58 | verification succeeds exactly when the stored text is some colon-free salt, `:`, and the digest of password plus that salt |
| PasswordCodec.WrongPasswordNeedsCollision | messy-migration/app.py:56 | another password verifies against a stored hash only if it collides with the original under the digest for that salt |
| SqlLike.LikeSubstring | messy-migration/app.py:256-257 | for a term without `%`, `_` or NUL, `name LIKE '%term%'` holds exactly when the name, read up to its first NUL, contains the term, ignoring ASCII case |
| SqlLike.LikeNulTerm | messy-migration/app.py:256-257 | for a term without `%` or `_` but with a NUL, `name LIKE '%term%'` holds exactly when the name, read up to its first NUL, ends with the term's text before its NUL, ignoring ASCII case |
| SqlLike.BeforeNul | messy-migration/app.py:257 | the text SQLite's string functions see: a NUL-free prefix, the whole text when it has no NUL, and otherwise cut at its first NUL |
| SqlLike.LikeLeadingPercent | messy-migration/app.py:256 | a leading `%` matches exactly when the rest of the pattern matches some suffix of the name's text before its first NUL |
| SqlLike.SqlLength | messy-migration/init_db.py:29-30 | SQLite's `length()` of a text: at most its length, every character before it not NUL, and either the whole text or stopped at a NUL |
| SqlLike.NulFreeSqlLength | messy-migration/init_db.py:29-30 | a text without NUL has SQLite length equal to its length |
| UserTable.NulLeadingNameBreaksCheck | messy-migration/app.py:38-41 | the name "\0Bob" passes validate_name and survives `strip()`, yet its SQLite length is 0, so it breaks `CHECK(length(name) > 0)` |
| UserTable.StoredEmailSqlLength | messy-migration/init_db.py:30 | the stored form of a valid e-mail has SQLite length equal to the e-mail's length, so it always meets its CHECK |
| UserTable.PutKeepsTableOk | messy-migration/init_db.py:27-35 | writing a row with a valid id, the CHECK constraints met and an e-mail no other row holds keeps the schema's guarantees |
| UserTable.StoredEmail | messy-migration/app.py:146 | the stored e-mail is as long as the stripped input, and lower case in the corrected build |
| UserTable.SelectBindingsMatch | messy-migration/app.py:192 | the SELECT of update_user binds correctly exactly when one parameter is passed: always when corrected, only for one-character ids as written |
| UserTable.CreateCheck | messy-migration/app.py:127-137 | it passes exactly when name, e-mail and password are all valid; otherwise it gives the 400 of the first failing check in the order missing field, name, e-mail, password |
| UserTable.CreateOutcome | messy-migration/app.py:139-160 | the response of create_user for a table and input: the first failing check's 400, the generic 500 when the INSERT's columns do not exist, 409 "User creation Failed" when the row breaks a CHECK constraint, 409 "Email Already Exists" for a taken e-mail, otherwise 201; always one of 201, 400, 409 or 500 (its meaning is stated by UserTable.CreateOutcomeCreated, UserTable.CreateNeverSucceedsAsWritten and UserTable.CreateSucceedsWhenValid) |
| UserTable.CreateOutcomeCreated | messy-migration/app.py:139-154 | create_user answers 201 with the new id exactly when the validations pass, the column list exists, the row meets the CHECK constraints as SQLite measures them and no row holds the stored e-mail |
| UserTable.ValidatedRowMeetsConstraints | messy-migration/app.py:145-146 | a row that passed create_user's validations meets the CHECK constraints exactly when its stripped name does not begin with NUL; the e-mail always fits |
| UserTable.CreateNeverSucceedsAsWritten | messy-migration/app.py:144-146 | as written, create_user never answers 201; after validation it always ends in the 500 of the generic handler |
| UserTable.CreateSucceedsWhenValid | messy-migration/app.py:144-158 | when corrected, a validated create answers 201 with the new id exactly when the stripped name does not begin with NUL and the e-mail is free; a NUL-leading name gives 409 "User creation Failed", a taken e-mail 409 "Email Already Exists" |
| UserTable.UpdateCheck | messy-migration/app.py:166-187 | it passes exactly when the id is valid, some field is given and the given fields are valid; neither field gives the 400 "At least 1 field" |
| UserTable.UpdateBindingsMatch | messy-migration/app.py:196-210 | the UPDATE always has one binding per placeholder: one value per SET clause, plus the id |
| UserTable.ApplyUpdateChangesOnlySupplied | messy-migration/app.py:196-210 | applying the SET list to the row changes exactly the supplied columns, to their stored values |
| UserTable.UpdateOutcome | messy-migration/app.py:163-221 | the response of update_user for a table and input: the 400 of the first failing check; otherwise one of 200, 404, 409 or 500, and a 409 only in the corrected build, as "Email already exists" or "Update Failed" (the other outcomes are stated by UserTable.UpdateOutcomeUpdated, UserTable.UpdateLongIdFailsAsWritten, UserTable.UpdateConflictFailsAsWritten, UserTable.UpdateCheckFailureFailsAsWritten and UserTable.UpdateOutcomeCorrected) |
| UserTable.UpdateOutcomeUpdated | messy-migration/app.py:163-215 | update_user answers 200 exactly when the validations pass, the SELECT binds and finds the row, the updated row meets the CHECK constraints and no other row holds the new e-mail |
| UserTable.UpdateLongIdFailsAsWritten | messy-migration/app.py:192 | as written, a valid update whose id text is longer than one character ends in the 500 |
| UserTable.UpdateConflictFailsAsWritten | messy-migration/app.py:217-221 | as written, an e-mail conflict on update ends in the 500, not the 409 |
| UserTable.UpdateCheckFailureFailsAsWritten | messy-migration/app.py:217-221 | as written, an update whose row breaks a CHECK constraint ends in the 500, not "Update Failed" |
| UserTable.UpdateOutcomeCorrected | messy-migration/app.py:189-221 | when corrected, a validated update is 404 for a missing row, 409 "Update Failed" for a row that breaks a CHECK constraint, 409 "Email already exists" for an e-mail held by another row and 200 otherwise |
| UserTable.OrderedIds | messy-migration/app.py:89 | the ids that have a row, strictly increasing, each once |
| UserTable.RowsInIdOrder | messy-migration/app.py:89-90 | `ORDER BY id` lists every row of the table exactly once, by increasing id |
| UserTable.Matching | messy-migration/app.py:257-258 | the filtered listing holds exactly the listed rows whose name is LIKE the pattern |
| UserTable.MatchingKeepsOrder | messy-migration/app.py:257 | filtering the rows keeps them in id order |
| UserTable.WithEmail | messy-migration/app.py:291-292 | `fetchone()` yields a listed row with exactly that e-mail, or nothing when no listed row has it |
| UserTable.SearchCheck | messy-migration/app.py:248-252 | the term passes exactly when it is present, non-blank after stripping and at most 100 characters before stripping; otherwise 400 "Please provide a name to search(min 1 char required)" for a missing or blank term and "Search term too long (maximum 100 characters)" for a long one |
| UserTable.LoginCheck | messy-migration/app.py:282-286 | it passes exactly when the e-mail is valid and a password is given; a missing field gives the 400 "Email and password are required" |
| UserService.BuildUpdate | messy-migration/app.py:196-206 | the SET list holds exactly the supplied fields, name before e-mail; the parameters are their stored values followed by the id, one more than the fields |
| UserService.UserDb.GetAllUsers | messy-migration/app.py:84-96 | 200 with every row once, by increasing id, and the count equal to the number of rows |
| UserService.UserDb.GetUser | messy-migration/app.py:98-113 | 400 for an invalid id; 200 with the row exactly when the id has one; 404 otherwise |
| UserService.UserDb.SearchUsers | messy-migration/app.py:243-265 | the 400s of the checks; otherwise 200 with exactly the rows whose name is LIKE `%term%` for the stripped term (both read by SQLite up to their first NUL), by increasing id, with its count and the stripped term |
| UserService.UserDb.Login | messy-migration/app.py:268-306 | the 400s of the checks; otherwise 200 with the id and name exactly when some row's e-mail is the lower-cased input and the password verifies against its hash, and the single 401 otherwise |
| UserService.UserDb.CreateUser | messy-migration/app.py:115-160 | the response is the outcome for the old table; the table is unchanged unless 201; on 201 the stripped name and stored e-mail are inserted under the next id with a verifying salted hash, the counter advances, and get_user returns the row; when corrected, login with the same e-mail and password succeeds |
| UserService.UserDb.UpdateUser | messy-migration/app.py:163-221 | the response is the outcome for the old table; the table is unchanged unless 200; on 200 exactly the supplied columns of that row take their stripped values |
| UserService.UserDb.DeleteUser | messy-migration/app.py:224-240 | 400 for an invalid id; otherwise no row has the id afterwards, the response is 200 exactly when one existed, and 404 leaves the table unchanged |
| UserService.UserDb.Put | messy-migration/init_db.py:27-35 | writing one validated row keeps the schema's guarantees and advances the counter past a new id |
| UserService.UserDb.LoginLookupIsUnique | messy-migration/app.py:291-292 | with unique e-mails, the row `fetchone()` returns is the table's row of that e-mail |
| UserService.UserDb.CreatedUserLogsIn | messy-migration/app.py:268-300 | when corrected, the row just created is the one login finds and accepts |
| UserService.UpdatedRowMeetsConstraints | messy-migration/app.py:183-204 | a row that met the CHECK constraints, updated with validated fields, meets them again exactly when no supplied name begins with NUL once stripped |
| UserService.LoginMatchesIgnoringCase | messy-migration/app.py:291-300 | when corrected, login succeeds for every ASCII-case spelling of a stored e-mail with the right password |
| UserService.MixedCaseEmailNeverLogsIn | messy-migration/app.py:291 | as written, a row whose e-mail has an upper-case letter can never log in |
| UserService.StoredEmailKeepsCaseAsWritten | messy-migration/app.py:146 | as written, every valid e-mail is stored exactly as given |
| UserService.MixedCaseEmailIsStoredAsGiven | messy-migration/app.py:146 | the valid e-mail "John@example.com" is not lower case and, as written, is stored with its capital |
| UserService.UpdateOfIdOnePasses | messy-migration/app.py:166-187 | the checks of update_user pass for the id "1" with only a valid e-mail supplied |
| UserService.MixedCaseUpdateSucceeds | messy-migration/app.py:189-215 | as written, updating user 1 to "John@example.com" (an e-mail no other row holds) answers 200 and stores the e-mail with its capital |
| UserService.UpdateToMixedCaseEmailLocksOut | messy-migration/app.py:291-306 | as written, after that update answers 200, login with "John@example.com" never succeeds as user 1, whatever the password |
| UserService.SearchFindsSubstrings | messy-migration/app.py:256-258 | for a wildcard-free stripped term without NUL, search returns exactly the rows whose name, read up to its first NUL, contains the term, ignoring ASCII case; with a NUL in the term, exactly those whose name so read ends with the term's text before its NUL |
| UserService.SearchForNulListsEveryone | messy-migration/app.py:248-258 | a search for a lone NUL passes the checks and answers 200 with every user |
| UserService.NulTermPassesSearchCheck | messy-migration/app.py:248-256 | a lone NUL survives `strip()`, passes search_users' checks and is seen by SQLite as the empty text |
| UrlStore.URLStore.constructor | url-shortener/app/models.py:11-12 | a new store is empty |
| UrlStore.URLStore.StoreUrl | url-shortener/app/models.py:14-19 | the code maps to a record of the URL and time with 0 clicks, replacing any earlier record and its clicks; every other code is unchanged; a new code goes last in the key order |
| UrlStore.URLStore.GetUrl | url-shortener/app/models.py:22-23 | `None` exactly when the code is absent, otherwise its record; it reads and never changes the store |
| UrlStore.URLStore.IncrementClicks | url-shortener/app/models.py:25-27 | a present code's clicks grow by exactly 1 and nothing else changes; an absent code changes nothing |
| UrlStore.URLStore.GetAllCodes | url-shortener/app/models.py:29-30 | the stored codes in insertion order, each exactly once, as many as there are records |
| UrlStore.URLStore.Clear | url-shortener/app/models.py:32-33 | the store is empty afterwards |
| ShortenerUtils.AlphabetIsAlnum | url-shortener/app/utils.py:12 | `ascii_letters + digits` has 62 characters, exactly the ASCII letters and digits |
| ShortenerUtils.GenerateShortCode | url-shortener/app/utils.py:11-13 | exactly `length` characters (none for a negative length), each from the alphabet |
| ShortenerUtils.IsValidUrl | url-shortener/app/utils.py:15-34 | false for the empty string; true exactly when the text matches the regular expression; every accepted URL starts with `http://` or `https://`, ignoring case |
| ShortenerUtils.UrlShapeIsPattern | url-shortener/app/utils.py:19-25 | the decider agrees with the regular expression on every string |
| ShortenerUtils.HostOkIsPattern | url-shortener/app/utils.py:21-23 | the host check agrees with the three alternatives of the expression: dotted labels with a TLD, `localhost`, four digit groups |
| ShortenerUtils.DomainHostIsPattern | url-shortener/app/utils.py:21 | a host is labels of 1..63 alphanumerics or hyphens (no hyphen at either end), each followed by `.`, then a 2..6 letter TLD and an optional `.`, exactly when the split-based check accepts it |
| ShortenerUtils.Ipv4HostIsPattern | url-shortener/app/utils.py:23 | a host is four dot-separated groups of 1..3 digits exactly when the split-based check accepts it |
| ShortenerUtils.MatchIsShape | url-shortener/app/utils.py:24-25 | any match cuts the text where the decider does: the host ends at the first `:`, `/` or `?`, and the port at the first non-digit |
| ShortenerUtils.ShapeParses | url-shortener/app/utils.py:30-32 | every text the expression accepts has a non-empty scheme and network location, so the `urlparse` check never rejects it |
| ShortenerUtils.Ipv4Accepted | url-shortener/app/utils.py:23 | `http://` followed by any four groups of 1..3 digits is accepted |
| ShortenerUtils.OctetsNotRangeChecked | url-shortener/app/utils.py:23 | `http://999.999.999.999` is accepted: group values are not range-checked |
| ShortenerUtils.NormalizeUrl | url-shortener/app/utils.py:36-40 | the stripped input, prefixed with `https://` exactly when it does not start case-sensitively with `http://` or `https://`; the result always starts with one of them |
| ShortenerUtils.NormalizeIdempotent | url-shortener/app/utils.py:36-40 | normalising twice is normalising once |
| ShortenerApi.DrawnCodePassesShape | url-shortener/app/main.py:37-40 | every code the generator can return passes the six-alphanumeric shape check of the handlers |
| ShortenerApi.ShortenCheck | url-shortener/app/main.py:28-34 | a missing body or `url` key is 400 "URL Is Not Found"; a non-string `url` is the 500 "Internal server error"; a string `url` whose stripped text is_valid_url refuses is 400 "Invalid URL Formate"; the URL is accepted exactly when its stripped text is valid, and the stripped text is what is stored |
| ShortenerApi.AllocateCode | url-shortener/app/main.py:36-40 | the loop keeps the first draw absent from the store, which passes the shape check, and stores the URL under it with 0 clicks; every earlier record is kept and the code goes last in the key order |
| ShortenerApi.ShortenUrl | url-shortener/app/main.py:26-46 | a rejected request leaves the store unchanged; an accepted one answers 200 with a code that was absent, `short_url` is `http://localhost:5000/` plus the code, only that code's record is added, the code goes last in the key order, and get_stats then reports the stripped URL with 0 clicks |
| ShortenerApi.RedirectUrl | url-shortener/app/main.py:48-59 | a malformed or absent code is 404 and leaves the store unchanged; a present code has its clicks raised by exactly 1 and gets a 302 to its stored URL |
| ShortenerApi.GetStats | url-shortener/app/main.py:61-76 | reads the store only; 404 for a malformed or absent code, otherwise 200 with the record's URL, clicks and creation time |
| Text.StripIsTrimmedInfix | messy-migration/app.py:41 | `strip()` returns the infix between a whitespace prefix and a whitespace suffix, and neither starts nor ends with whitespace |
| Text.StripIdempotent | url-shortener/app/main.py:32 | stripping twice is stripping once |
| Text.JoinSplit | messy-migration/app.py:55 | joining the pieces of `split(sep)` gives back the text |
| Text.SplitJoin | messy-migration/app.py:55 | splitting joined separator-free pieces gives back the pieces |
| Text.SplitLength | messy-migration/app.py:55 | a split has one more piece than the text has separators |
| Text.LowerCaseIsLowerFixed | messy-migration/app.py:291 | a string is lower case exactly when `lower()` leaves it unchanged |
| Text.EqualIgnoreCaseIsLowerEqual | messy-migration/app.py:291 | two strings are equal ignoring ASCII case exactly when their `lower()` are equal |

## Left out

- Flask plumbing is not modelled. This covers routes, `is_json` and the 400s it guards (app.py:118-119, 169-170, 271-272), `get_json` failures ("Invalid JSON"), `jsonify`, `redirect`, the `errorhandler`s (app.py:308-318), the health routes and the `__main__` blocks. Request input is optional string fields and responses are status and payload values.
- JSON values that are not strings are not modelled in the user service: a field is either absent or a string. This leaves out the `isinstance` checks of the validators and the errors non-strings would raise. In the shortener, only the JSON object and the null or empty body are modelled, and a non-string `url` models as the 500. A top-level JSON list or scalar is not modelled.
- `get_db`/`close_db` (app.py:20-30) and the connection lifecycle are left out, and so is every `logger` call.
- SQL is modelled only as far as the statements' correctness needs: column names, placeholder count and the UNIQUE and CHECK constraints. Collation, the timestamp columns and `lastrowid` are left out; the new id is the `nextId` counter.
- The `sqlite3` exception taxonomy is reduced to "binding or column error → generic 500", "CHECK violation" and "UNIQUE violation", with SQLite testing CHECK before UNIQUE. A CHECK violation is taken to be the name's: for validated input the e-mail's CHECK cannot fail (UserTable.StoredEmailSqlLength), so the message test on "email" (app.py:156, 218) is not modelled for it.
- SQLite `LIKE` is modelled with `%`, `_`, ASCII case folding and its stop at the first NUL of the name and of the pattern, but without an ESCAPE clause (search_users gives none).
- SHA-256, `secrets.token_hex`, `random.choices` and `datetime.utcnow` are parameters or nondeterministic choices, not real cryptography, randomness or clocks.
- Text handling is ASCII only. This covers `str.strip`, `str.lower`, `str.isalnum`, IGNORECASE case folding, `int()` and the regex classes `\d` and `\S` of url-shortener/app/utils.py:22-24, which Python's `re` matches on Unicode digits and whitespace (an IPv4 host of Arabic-Indic digits, say). `int()`'s acceptance of surrounding whitespace, underscores and non-ASCII digits is not modelled.
- The regular expressions' `$` also matches before a final newline; the model reads `$` as the end of the text.
- `urlparse` is modelled only as the scheme before the first `:` (when it is a valid scheme) and the network location after `//`, up to the first `/`, `?` or `#`.
- The lock (main.py:10, 36, 53, 66) only makes each handler atomic, and each handler is modelled as one sequential step.
- ShortenerApi.ShortenUrl: the allocation loop runs over a finite sequence of draws, one of which must be free. The model proves partial correctness on exit. A full store, where the source loops forever, is excluded by that precondition.
- `get_url` returning the stored dictionary itself is modelled by value: the aliasing that lets a caller change a record through it is not captured.
- The creation time of a record is a caller-supplied string rather than the clock's.
- messy-migration/init_db.py is not modelled. Its schema (init_db.py:27-35) is the table invariant `UserTable.TableOk`.

## Findings

| source | as written | input that shows it | evidently intended | confidence | as-written member | corrected member |
|---|---|---|---|---|---|---|
| messy-migration/app.py:145 | the INSERT names the column `passowrd`, which the table (init_db.py:31) does not have, so every validated create raises OperationalError and answers 500 | POST /users with name "Ann", email "ann@example.com", password "secret1" | the column `password`, giving 201 or 409 | not executed | UserTable.CreateNeverSucceedsAsWritten | UserTable.CreateSucceedsWhenValid |
| messy-migration/app.py:192 | `(user_id)` is a string, not a one-element tuple, so each character is a separate binding and any id of two or more characters raises ProgrammingError (500) | PUT /user/10 with name "Bob" | `(user_id,)`, one binding | not executed | UserTable.UpdateLongIdFailsAsWritten | UserTable.UpdateOutcomeCorrected |
| messy-migration/app.py:217 | `except sqlite3.InternalError` misses the IntegrityError of a duplicate e-mail (and of a CHECK failure), which reaches the generic 500 | PUT /user/1 with the e-mail of user 2 | `except sqlite3.IntegrityError`, giving 409 "Email already exists" | not executed | UserTable.UpdateConflictFailsAsWritten | UserTable.UpdateOutcomeCorrected |
| messy-migration/app.py:291 | login looks up `email.lower()` but create_user and update_user store the e-mail as given (app.py:146, 204), so a user with an upper-case letter in the stored e-mail can never log in | a table holding user 1: PUT /user/1 with email "John@example.com" answers 200, then POST /login with that e-mail and user 1's password answers 401 (create_user cannot show it as written, since every validated create is a 500); UserService.UpdateToMixedCaseEmailLocksOut models this sequence | the e-mail stored lower-cased, so login matches it in any case | not executed | UserService.MixedCaseEmailNeverLogsIn | UserService.LoginMatchesIgnoringCase |
