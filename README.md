# Users API over a MySQL gateway, modelled in Dafny

The system is a small PHP web API for user accounts. `Api/Users/Users.php`
dispatches an action (`processMode`) to one of five operations on a `users`
table:

- `create` a user;
- `login` with a password;
- `validate` a session token;
- `update` a profile;
- read the `account`.

Passwords are never stored. A row keeps `hash = SHA-512(modification ++
password ++ pepper)`, with its `modification` timestamp as salt. The session
token is never stored either: it is recomputed as `SHA-512(modification ++
username ++ pepper)`. Rewriting `modification` (on login, or on a password
change) therefore invalidates every earlier token.

`Api/DB/MySQLAccess.php` is the database gateway. It builds the
`f=:f, g=NULL` SET list of INSERT and UPDATE statements (`_buildUpdateString`)
and composes the INSERT, UPDATE and DELETE statements. It renders parameters
for the error log (`_createErrorStr`) and reads column lengths out of
`DESCRIBE` rows (`varcharLengths`).

The project has five modules:

- `Wrappers` (`wrappers.dfy`): `Option` for PHP's null and `Result` for a
  call that returns or throws.
- `Php` (`php.dfy`): the PHP built-ins the core relies on. These are `trim`,
  string truthiness, `substr` at the offsets used, `strncmp` as a prefix
  test, and reading a number out of a string.
- `MySQLAccess` (`mysql_access.dfy`): the gateway. Its loops
  (`BuildUpdateString`, `CreateErrorStr`, `VarcharLengths`) are methods,
  each proved equal to a specification function. That function's properties
  are proved as lemmas: the SET list reads back as its fields, a later
  DESCRIBE row overwrites an earlier one, and so on.
- `UsersModel` (`users_model.dfy`): the outcome of every operation as a
  function of the table value, the request and the current time. The
  operations' properties are lemmas over those functions. These are the
  input checks, the salt rotation, token validity and its invalidation,
  which fields update writes, invariant preservation, and the SQL each
  operation sends.
- `UsersApi` (`users.dfy`): class `Users`, whose fields are the table. Each
  operation is a method that performs the source's steps in order: collect
  the error text, look the row up, compute the digest, write. Each method is
  proved to leave exactly the table and return exactly the response that
  the `UsersModel` function gives. It also keeps the invariant `Valid()`:
  ids distinct and positive, usernames trimmed, and every digest that of
  the user's password under the current salt.

The collaborators outside PHP are parameters, fixed when the object is
constructed (`Crypto`):

- MySQL's `SHA2(…, 512)`, as a function assumed only to return 128 hex
  digits;
- the pepper from the deployment configuration;
- `filter_var(…, FILTER_VALIDATE_EMAIL)`, assumed only to accept addresses
  containing `@`.

The time `date('Y-m-d H:i:s')` is a `now` argument of each operation that
reads it.

The model follows the code, also where the source's doc comments promise
otherwise:

- `validate` never answers `validated = false`, although its doc comment
  (`Api/Users/Users.php:463`) says it returns "Successful or not". A wrong
  token throws "Invalid credentials", so the `false === $validated['validated']`
  checks in `account` and `update` are dead.
- `update` rejects a request without an email with "Email is invalid",
  because `filter_var(null)` is false. So the email is not optional, although
  the doc comment (`Api/Users/Users.php:355`) lists it as "(optional)", and
  the else-branch of `count($fields) > 0` (`Api/Users/Users.php:442-444`)
  cannot be reached. `updated = false` is still returned when the UPDATE
  changes no row (`rowCount()` is 0, `Api/Users/Users.php:436`).
- `update` and `account` look the row up by the username as sent, without
  trimming it, while `validate` trims it.
- `rowCount()` counts changed rows. So a second login within the same second
  changes nothing and fails with "Unable to update user in the database".

## Model

| member | source | states |
|---|---|---|
| Php.TrimLeftDropsBlanks | Api/Users/Users.php:151-154 | ltrim leaves a suffix of its input, and every character it dropped is one of " \t\n\r\0\x0B" |
| Php.TrimRightDropsBlanks | Api/Users/Users.php:151-154 | rtrim leaves a prefix of its input, and every character it dropped is trimmable |
| Php.Trim | Api/Users/Users.php:151-154 | the result of trim neither starts nor ends with a trimmable character and is no longer than the input |
| Php.TrimCutsBlanks | Api/Users/Users.php:151-154 | trim keeps exactly the slice between the leading and the trailing trimmable characters |
| Php.TrimFixpoint | Api/Users/Users.php:470 | trim(s) == s exactly when s is already trimmed (both directions) |
| Php.TrimIdempotent | Api/Users/Users.php:470 | trimming twice equals trimming once |
| Php.SubstrFrom | Api/DB/MySQLAccess.php:56 | substr(s, n) has |s| - n characters (none when s is shorter than n), and the first n characters of s followed by it give back s |
| Php.SubstrButLast | Api/DB/MySQLAccess.php:352 | substr(s, n, -1) has |s| - 1 - n characters (none when nothing is left), and the first n characters of s, it, and the last character of s give back s |
| Php.LeadingDigits | Api/DB/MySQLAccess.php:355 | the longest all-digit prefix: it is a prefix, all digits, and stops at a non-digit |
| Php.DecimalRoundTrip | Api/DB/MySQLAccess.php:355 | reading back the decimal rendering of n gives n |
| Php.ToIntDecimal | Api/DB/MySQLAccess.php:355 | the number PHP arithmetic reads from a rendered n followed by a non-digit is n |
| MySQLAccess.PrefixedIsSeparatedJoin | Api/DB/MySQLAccess.php:52-56 | dropping the first two characters of the ", p"-accumulated text gives the parts joined by ", " with no leading separator; no parts give "" |
| MySQLAccess.BuildUpdateString | Api/DB/MySQLAccess.php:41-59 | the result is one `f=:f` (set, non-null value) or `f=NULL` element per field, in field order, joined by ", "; an empty field list gives "" |
| MySQLAccess.SplitJoin | Api/DB/MySQLAccess.php:52-56 | splitting a comma-free join at ", " gives back the parts |
| MySQLAccess.ParseAssignmentInverse | Api/DB/MySQLAccess.php:47-52 | one SET element reads back as its field and whether the field was bound |
| MySQLAccess.UpdateVarsReadsBack | Api/DB/MySQLAccess.php:41-59 | the SET list has exactly one element per field, the i-th naming field i and bound exactly when the field is set |
| MySQLAccess.InsertSqlReadsBack | Api/DB/MySQLAccess.php:242-243 | the INSERT statement starts with "INSERT INTO t SET ", and the rest reads back as one element per field, in order, each naming its field and bound exactly when the field is set |
| MySQLAccess.UpdateSqlReadsBack | Api/DB/MySQLAccess.php:322-323 | the UPDATE statement starts with "UPDATE t SET " and ends with " WHERE pk=:pk", and the text between reads back as one element per field, in order, each naming its field and bound exactly when the field is set |
| MySQLAccess.WordThenSpace | Api/DB/MySQLAccess.php:192 | a space-free table name followed by text starting with a space splits back into the two |
| MySQLAccess.WhereKeyInjective | Api/DB/MySQLAccess.php:192 | the clause " WHERE k=:k" determines k |
| MySQLAccess.DeleteSqlInjective | Api/DB/MySQLAccess.php:192 | for tables without spaces, equal DELETE statements have the same table and the same key |
| MySQLAccess.ErrorDumpAppend | Api/DB/MySQLAccess.php:73-75 | the dump of a concatenation of parameter lists is the concatenation of their dumps |
| MySQLAccess.ErrorDumpFirst | Api/DB/MySQLAccess.php:73-75 | the dump starts with "Arg: k Value: v<br>" for the first parameter, null rendered as "" |
| MySQLAccess.CreateErrorStr | Api/DB/MySQLAccess.php:68-78 | the result is the dump of the parameters in order; no parameters give "" |
| MySQLAccess.RecordIsOneUpdate | Api/DB/MySQLAccess.php:351-356 | a row takes at most one branch: other types leave the map unchanged, a varchar or varbinary row sets exactly its one key |
| MySQLAccess.LengthsKeys | Api/DB/MySQLAccess.php:348-359 | a key is in the result exactly when some row is recorded under it (both directions) |
| MySQLAccess.LengthsLastRowWins | Api/DB/MySQLAccess.php:349-357 | the value under a key is the one recorded by the last row with that key |
| MySQLAccess.VarcharLengths | Api/DB/MySQLAccess.php:344-360 | the loop over DESCRIBE rows builds exactly the map the rows determine |
| MySQLAccess.VarcharColumn | Api/DB/MySQLAccess.php:351-353 | a varchar(n) column is recorded under its own name with the text of n |
| MySQLAccess.VarbinaryColumn | Api/DB/MySQLAccess.php:354-356 | a varbinary(n) column is recorded under its name without its first character, as n - 1 |
| UsersModel.CreateChecksInputsFirst | Api/Users/Users.php:150-174 | create's error text is empty exactly when username, password and name are non-blank after trimming and the email passes the filter; otherwise create throws that text and leaves the table unchanged |
| UsersModel.CreateErrorsInOrder | Api/Users/Users.php:157-170 | the messages come in the order username, password, name, email: a blank username leads the text, a blank password comes next, then a blank name, and an invalid email ends it; a username or password that passes does not lead the text with its line, and a valid email does not end it with its line |
| UsersModel.CreateRejectsExistingUser | Api/Users/Users.php:176-182 | creating an existing (trimmed) username fails with "User X already exists" and changes nothing |
| UsersModel.CreateAddsOneRow | Api/Users/Users.php:184-236 | a successful create adds exactly one row (next id, modification = now, hash = SHA-512(now ++ password ++ pepper), trimmed name and email). Every other row is unchanged, and the returned token is SHA-512(now ++ username ++ pepper), which validate accepts |
| UsersModel.LoginNeedsMatchingHash | Api/Users/Users.php:277-286 | login succeeds only when the stored digest is that of the given password under the stored salt; otherwise it fails with "Invalid credentials" and changes nothing |
| UsersModel.LoginRotatesSalt | Api/Users/Users.php:288-340 | a successful login rewrites only that row's modification (to now) and digest (under the new salt), and returns the token of the new salt, which validate accepts |
| UsersModel.LoginSameSecondFails | Api/Users/Users.php:320-323 | with the right password, login fails exactly when the stored modification already equals now, and then with "Unable to update user in the database" and the table unchanged |
| UsersModel.LoginAcceptsLastPassword | Api/Users/Users.php:277-338 | while every digest is that of its user's last set password, login with that password succeeds, outside the second the row was written, and returns the token of now |
| UsersModel.LoginInvalidatesEarlierTokens | Api/Users/Users.php:288-338 | after a login, a token issued under the previous salt is accepted only if SHA-512 collides on two different inputs |
| UsersModel.ValidateAcceptsExactlyCurrentToken | Api/Users/Users.php:465-521 | validate never answers false; it succeeds exactly when both inputs are given and the trimmed token is the one derived from that user's current salt; an unknown user or a wrong token gives "Invalid credentials" |
| UsersModel.ValidateAcceptsIssuedToken | Api/Users/Users.php:486-516 | the token of a user's current salt is accepted for any username that trims to that user |
| UsersModel.CreateThenValidate | Api/Users/Users.php:221-234 | right after create, validate with the returned token and the username as sent gives validated = true |
| UsersModel.LoginThenValidate | Api/Users/Users.php:325-338 | right after login, validate with the returned token and the username as sent gives validated = true |
| UsersModel.CreateThenLogin | Api/Users/Users.php:184-338 | after create, a login in a later second with the same username and password succeeds and returns the token of that second |
| UsersModel.AccountAfterValidate | Api/Users/Users.php:101-131 | account passes validate's failure on; it succeeds exactly when validate does and the untrimmed username names a row, and then returns that row's name, modification (as last_login) and email |
| UsersModel.UpdateValidatesFirst | Api/Users/Users.php:365-368 | update passes validate's failure on and changes nothing |
| UsersModel.UpdateWithoutEmailFails | Api/Users/Users.php:380-383 | once the token is valid, an update without a (non-blank) email fails with "Email is invalid" and changes nothing |
| UsersModel.UpdateFieldsNeverEmpty | Api/Users/Users.php:413-445 | when the email passed the filter the field list is never empty and ends with "email", so the else-branch of `count($fields) > 0` (lines 442-444) is unreachable; `updated = false` comes only from a zero row count |
| UsersModel.UpdateUntrimmedUsernameFails | Api/Users/Users.php:371-393 | a validated username with surrounding blanks names no row, so update fails with "User X does not exists" and writes nothing |
| UsersModel.UpdateWritesListedFields | Api/Users/Users.php:395-445 | a successful update keeps every other row, the row's id, and the key set. A truthy password rewrites hash and modification together and sets login_required; a truthy name is written; the email is written; updated reports whether the row changed |
| UsersModel.UpdatePasswordInvalidatesTokens | Api/Users/Users.php:398-421 | a password change asks for a new login; afterwards an earlier token is accepted only if the change came in the same second or SHA-512 collides |
| UsersModel.ProcessModeDispatch | Api/Users/Users.php:59-88 | each of the five actions runs its operation; any other action, or none, answers status 406 "No content available for action requested" and changes nothing |
| UsersModel.InsertKeepsTableInvariant | Api/Users/Users.php:216-219 | inserting a fresh, trimmed, non-empty username with the next id keeps ids positive, distinct and below the next id |
| UsersModel.ReplaceKeepsTableInvariant | Api/DB/MySQLAccess.php:318-325 | rewriting a row in place with its id keeps the table invariant |
| UsersModel.StoreKeepsHashInvariant | Api/Users/Users.php:208-216 | storing a row whose digest is that of p under its own salt keeps every digest that of its user's password |
| UsersModel.CreateFailureWritesNothing | Api/Users/Users.php:146-241 | a failed create leaves the table unchanged |
| UsersModel.CreateKeepsTableInvariant | Api/Users/Users.php:200-219 | create keeps ids positive and distinct and usernames trimmed and non-empty |
| UsersModel.CreateKeepsHashInvariant | Api/Users/Users.php:184-216 | after create the new row's digest is that of its password under its salt, and the others still hold |
| UsersModel.LoginFailureWritesNothing | Api/Users/Users.php:256-345 | a failed login leaves the table unchanged |
| UsersModel.LoginKeepsTableInvariant | Api/Users/Users.php:307-323 | login keeps the table invariant |
| UsersModel.LoginKeepsHashInvariant | Api/Users/Users.php:290-320 | after login the digest under the new salt is that of the checked password |
| UsersModel.UpdateFailureWritesNothing | Api/Users/Users.php:361-452 | a failed update leaves the table unchanged |
| UsersModel.UpdateKeepsTableInvariant | Api/Users/Users.php:413-435 | update keeps the table invariant |
| UsersModel.UpdateKeepsHashInvariant | Api/Users/Users.php:398-435 | after update a new password's digest is stored under the new salt, and a kept password keeps digest and salt |
| UsersModel.ProcessKeepsHashInvariant | Api/Users/Users.php:59-88 | through the dispatcher every stored digest stays that of its user's last set password: create and login record the trimmed password on success, update a truthy password on success, everything else leaves the passwords |
| UsersModel.CreateInsertStatement | Api/Users/Users.php:200-216 | create sends "INSERT INTO users SET " with all five columns bound as `f=:f`, in the order modification, username, hash, name, email |
| UsersModel.LoginUpdateStatement | Api/Users/Users.php:307-320 | login sends "UPDATE users SET " with modification, username and hash bound, then " WHERE id=:id", with the id among the parameters |
| UsersModel.UpdateFieldsAreSet | Api/Users/Users.php:413-434 | every field update lists is a column and has its value in the parameters |
| UsersModel.UpdateStatementBindsEveryField | Api/Users/Users.php:413-435 | update sends "UPDATE users SET " with every listed field bound, in its order, then " WHERE id=:id", with the id among the parameters |
| UsersModel.CreateStatementWritesNewRow | Api/Users/Users.php:200-216 | the row the INSERT of create leaves, read from its five fields and their parameters, is the row under the new id with now as salt, the digest, the name and the email |
| UsersModel.LoginStatementWritesRotatedRow | Api/Users/Users.php:307-320 | the row the UPDATE of login leaves, read from its fields and parameters, is the row with modification now and the new digest, the id staying; the username column it writes is the username it binds |
| UsersModel.CreateStatementWritesKey | Api/Users/Users.php:200-216 | the username column the INSERT of create writes is the username it binds, whatever the key before |
| UsersModel.WrittenKeyUnnamed | Api/DB/MySQLAccess.php:322-325 | a SET list that does not name `username` leaves the row's key as it was |
| UsersModel.WrittenKeyNamedOnce | Api/DB/MySQLAccess.php:322-325 | a SET list that names `username` once, bound, moves the row to the bound value |
| UsersModel.WrittenRowAppend | Api/DB/MySQLAccess.php:322-325 | writing the fields of a + b is writing those of a, then those of b |
| UsersModel.UpdateStatementWritesUpdatedRow | Api/Users/Users.php:413-445 | the row the UPDATE of `update` leaves, read from its field list and its parameters, is the row `update` records: new digest and now for a truthy password, then the truthy name and email, id unchanged |
| UsersModel.InsertKeepsInvariant | Api/Users/Users.php:216-219 | an insert of a fresh trimmed username with the next id and a digest of its password keeps the whole invariant |
| UsersModel.ReplaceKeepsInvariant | Api/Users/Users.php:320-323 | an in-place rewrite with its id and a digest of its password keeps the whole invariant |
| UsersApi.CollectCreateErrors | Api/Users/Users.php:150-170 | the appended error text is create's, and it is empty exactly when all four inputs pass |
| UsersApi.CollectLoginErrors | Api/Users/Users.php:260-271 | the appended error text is login's, and it is empty exactly when username and password are non-blank |
| UsersApi.CollectValidateErrors | Api/Users/Users.php:469-480 | the appended error text is validate's, and it is empty exactly when username and token are non-blank |
| UsersApi.CollectUpdateFields | Api/Users/Users.php:413-431 | the built $fields and $fdata are the field list and SET values update writes |
| UsersApi.Users.constructor | Api/Users/Users.php:42-50 | the object holds the given table (standing for the connection it opens), collaborators and last set passwords, and satisfies the invariant |
| UsersApi.Users.Insert | Api/DB/MySQLAccess.php:238-245 | adds exactly the row under the new username with the next id, and keeps the invariant |
| UsersApi.Users.Replace | Api/DB/MySQLAccess.php:318-325 | rewrites exactly that user's row, and keeps the invariant |
| UsersApi.Users.StoreNewUser | Api/Users/Users.php:184-234 | leaves exactly the old rows plus, under the username, the row with the next id, now, the digest of the password under now, the name and the email, and advances the next id, keeping the invariant; the ghost password map gains the password, and the token is that of now and the username |
| UsersApi.Users.Create | Api/Users/Users.php:146-241 | writes the row its INSERT statement's fields and parameters determine, which leaves exactly the table and returns exactly the response of create's outcome, keeping the invariant; on success the user's last set password is the trimmed password, on failure none changes |
| UsersApi.Users.Login | Api/Users/Users.php:256-345 | writes the row its UPDATE statement's fields and parameters determine, under the username column that statement writes, which leaves exactly the table and returns exactly the response of login's outcome, keeping the invariant; on success the user's last set password is the one checked, on failure none changes |
| UsersApi.Users.Validate | Api/Users/Users.php:465-521 | reads only, and returns exactly validate's response |
| UsersApi.Users.Account | Api/Users/Users.php:101-131 | reads only, and returns exactly account's response |
| UsersApi.Users.Update | Api/Users/Users.php:361-452 | writes the row its UPDATE statement's fields and parameters determine, which leaves exactly the table and returns exactly the response of update's outcome, keeping the invariant; a truthy password becomes the user's last set password, and otherwise none changes |
| UsersApi.Users.ProcessMode | Api/Users/Users.php:59-88 | leaves exactly the table and returns exactly the response of the dispatched operation, keeping the invariant; the last set passwords become those the dispatched call sets, unchanged for validate, account, any other action and every failure |

## Left out

- The PDO connection and prepared-statement execution are not modelled: connecting, `query`, `fetch` and transactions. A lookup is a map access, and an INSERT or UPDATE is a map update.
- `DumpError` logging and the gateway's catch blocks are left out. The thrown "ERROR: MySQLAccess …" exceptions come from PDO failures, which the model does not have. `_createErrorStr` is modelled by itself.
- `deleteAll`, `lastInputId` and the rest of `MySQLAccess.php` outside `_buildUpdateString`, `_createErrorStr`, the three statement strings and `varcharLengths` are not modelled. `delete` is modelled only through its statement text.
- The "Unable to create password hash" and "Unable to create login token" branches are left out. `SELECT SHA2(…)` always returns one row, so they cannot be reached; the digest is the `Crypto.sha512` parameter.
- SHA-512, the pepper and `filter_var` are parameters. The model assumes only that a digest is 128 lowercase hex digits and that an accepted address contains `@`.
- `date('Y-m-d H:i:s')` is the `now` argument; its format is not modelled.
- Concurrency between requests is not modelled: each operation runs alone against the table.
- Username comparison is exact string equality. MySQL's case-insensitive collation and trailing-space rules are not modelled.
- `Data` carries only the five keys the core reads (username, password, name, email, token), each as a string or null; values of other JSON types are not modelled.
- `processMode` compares the action with `switch`. PHP's loose comparison of a non-string action is not modelled; the action is a string or absent.
- `Php.ToInt`: reads only the leading decimal digits. PHP's handling of signs, whitespace, exponents and non-numeric strings (a warning or TypeError) in `substr(...) - 1` is not modelled.
- `Php.SubstrFrom`, `Php.SubstrButLast`: model PHP 8, where an offset past the end gives "". PHP 7 returns false there.
- `Php.SubstrFrom`: PHP strings are bytes and Dafny strings are characters. `substr($row['Field'], 1)` (`Api/DB/MySQLAccess.php:355`) drops one byte, while the model drops one character; the two differ for a column name that starts with a multi-byte character.
- `UsersModel.WrittenRow`: an `f=NULL` element would store SQL NULL, which a row's string columns do not represent; it leaves the column as it was. `update` never sends one: every field it lists is bound.
- Column length limits on varchar fields and integer widths of ids are not modelled; ids are unbounded naturals.
- `$insert_id` is modelled as the next AUTO_INCREMENT value, checked before the row is written. The table invariant keeps it at least 1, so the "Unable to insert new user into the database" branch is modelled but cannot be reached.
- `index.php`, `ErrorLog.php`, `DumpError.php` and the configuration classes are not part of this model; the timezone setting of the constructor is left out with `date`.
