/** The user API: account creation, login, token validation, profile update
    and profile lookup over the `users` table.

    The `modification` timestamp of a row is also its salt. The stored digest
    is SHA-512 of modification ++ password ++ pepper, and the session token is
    SHA-512 of modification ++ username ++ pepper. The token is recomputed on
    every call and never stored, so rewriting `modification` (on login, or on
    a password change) is what invalidates the tokens issued earlier.

    The functions below give the outcome of each operation on a table value;
    the class Users of module UsersApi (users.dfy) performs the operations
    step by step on its fields and is proved to produce exactly those
    outcomes. */
module UsersModel {
  import opened Wrappers
  import opened Php
  import MySQLAccess

  /** A row of `users`, keyed by its username. */
  datatype Row = Row(id: nat, modification: string, hash: string, name: string, email: string)

  /** The `users` table and the next value of its AUTO_INCREMENT id. */
  datatype Table = Table(rows: map<string, Row>, nextId: nat)

  /** What the core takes from outside PHP: the digest MySQL's SHA2(…, 512)
      computes, the pepper of the deployment configuration, and the test
      filter_var(…, FILTER_VALIDATE_EMAIL) applies. */
  datatype Crypto = Crypto(sha512: string -> string, pepper: string, isEmail: string -> bool)

  predicate IsHexChar(ch: char)
  {
    '0' <= ch <= '9' || 'a' <= ch <= 'f'
  }

  /** SHA2(…, 512) returns 128 lowercase hexadecimal digits. */
  predicate IsHexDigest(h: string)
  {
    |h| == 128 && forall k :: 0 <= k < |h| ==> IsHexChar(h[k])
  }

  /** The facts the core relies on about its collaborators: every digest is a
      hex string, and every address filter_var accepts contains an '@'. */
  ghost predicate WellFormed(c: Crypto)
  {
    && (forall s :: IsHexDigest(c.sha512(s)))
    && (forall s :: c.isEmail(s) ==> '@' in s)
  }

  /** SHA2(CONCAT(salt, password, pepper), 512). */
  function PasswordHash(c: Crypto, salt: string, password: string): string
  {
    c.sha512(salt + password + c.pepper)
  }

  /** SHA2(CONCAT(salt, username, pepper), 512). */
  function SessionToken(c: Crypto, salt: string, username: string): string
  {
    c.sha512(salt + username + c.pepper)
  }

  /** Two different inputs with the same digest. */
  predicate Collision(c: Crypto, x: string, y: string)
  {
    x != y && c.sha512(x) == c.sha512(y)
  }

  /** $args['data'], field by field: each key the core reads, as PHP's null
      (None) when it is not set, or its string value. */
  datatype Data = Data(username: Option<string>, password: Option<string>, name: Option<string>,
                       email: Option<string>, token: Option<string>)

  /** The request: $args['action'] and $args['data']. */
  datatype Args = Args(action: Option<string>, data: Data)

  /** What a successful call returns. */
  datatype Payload =
    | Token(token: string)
    | Validated(validated: bool)
    | Updated(updated: bool, loginRequired: bool)
    | Account(name: string, lastLogin: string, email: string)
    | Status(status: int, message: string)

  /** An operation's new table and its response; Failure(m) is a thrown \Exception(m). */
  datatype Outcome = Outcome(table: Table, response: Result<Payload, string>)

  /** isset($data[k]) ? trim($data[k]) : null */
  function Trimmed(o: Option<string>): Option<string>
  {
    if o.Some? then Some(Trim(o.value)) else None
  }

  /** null === $x || '' === $x */
  predicate Blank(o: Option<string>)
  {
    o.None? || o.value == ""
  }

  /** if ($x): a present value other than "" and "0". */
  predicate IsTruthy(o: Option<string>)
  {
    o.Some? && Truthy(o.value)
  }

  /** filter_var($x, FILTER_VALIDATE_EMAIL): the address itself, or false (None). */
  function EmailFilter(c: Crypto, o: Option<string>): Option<string>
  {
    if o.Some? && c.isEmail(o.value) then o else None
  }

  /** One `if (…) $error .= "…\r\n";` step: nothing when the check passes, the line otherwise. */
  function Require(ok: bool, line: string): string
  {
    if ok then "" else line
  }

  const InvalidCredentials := "Invalid credentials"

  // ---------------------------------------------------------------------------
  // Invariants of the table.

  /** Ids are positive, below the next AUTO_INCREMENT value and distinct;
      usernames are non-empty and trimmed, as create stores them. */
  predicate TableInvariant(t: Table)
  {
    && t.nextId >= 1
    && (forall u :: u in t.rows ==> 1 <= t.rows[u].id < t.nextId)
    && (forall u, v :: u in t.rows && v in t.rows && u != v ==> t.rows[u].id != t.rows[v].id)
    && (forall u :: u in t.rows ==> u != "" && IsTrimmed(u))
  }

  /** Every stored digest is the salted, peppered digest of the password last
      set for that user, salted with the row's current modification. */
  predicate HashInvariant(c: Crypto, t: Table, passwords: map<string, string>)
  {
    forall u :: u in t.rows ==> u in passwords && t.rows[u].hash == PasswordHash(c, t.rows[u].modification, passwords[u])
  }

  /** The token validate accepts for u: derived from u's current modification. */
  predicate TokenValid(c: Crypto, t: Table, u: string, token: string)
  {
    u in t.rows && token == SessionToken(c, t.rows[u].modification, u)
  }

  // ---------------------------------------------------------------------------
  // create

  function CreateErrors(c: Crypto, d: Data): string
  {
    Require(!Blank(Trimmed(d.username)), "Username is required\r\n")
    + Require(!Blank(Trimmed(d.password)), "Password is required\r\n")
    + Require(!Blank(Trimmed(d.name)), "Name is required\r\n")
    + Require(EmailFilter(c, Trimmed(d.email)).Some?, "Email is invalid\r\n")
  }

  function CreateOutcome(c: Crypto, t: Table, d: Data, now: string): Outcome
  {
    var errors := CreateErrors(c, d);
    if errors != "" then Outcome(t, Failure(errors))
    else
      var username, password := Trimmed(d.username).value, Trimmed(d.password).value;
      var name, email := Trimmed(d.name).value, EmailFilter(c, Trimmed(d.email)).value;
      if username in t.rows then Outcome(t, Failure("User " + username + " already exists"))
      else if t.nextId == 0 then Outcome(t, Failure("Unable to insert new user into the database"))
      else
        var row := Row(t.nextId, now, PasswordHash(c, now, password), name, email);
        Outcome(Table(t.rows[username := row], t.nextId + 1), Success(Token(SessionToken(c, now, username))))
  }

  /** create checks all four inputs before it looks at the table: it fails
      exactly when one of them is missing or the email is invalid, with the
      collected messages, and the table is left as it was. */
  lemma CreateChecksInputsFirst(c: Crypto, t: Table, d: Data, now: string)
    ensures CreateErrors(c, d) == "" <==>
              !Blank(Trimmed(d.username)) && !Blank(Trimmed(d.password))
              && !Blank(Trimmed(d.name)) && EmailFilter(c, Trimmed(d.email)).Some?
    ensures CreateErrors(c, d) != "" ==> CreateOutcome(c, t, d, now) == Outcome(t, Failure(CreateErrors(c, d)))
  {
  }

  /** The messages come one per failing field, in the order username,
      password, name, email: a missing username is reported first, a missing
      password next, then a missing name, and an invalid email last; a field
      that passes adds no line in its place. */
  lemma CreateErrorsInOrder(c: Crypto, d: Data)
    ensures Blank(Trimmed(d.username)) ==> StartsWith(CreateErrors(c, d), "Username is required\r\n")
    ensures !Blank(Trimmed(d.username)) && Blank(Trimmed(d.password)) ==>
              StartsWith(CreateErrors(c, d), "Password is required\r\n")
    ensures !Blank(Trimmed(d.username)) && !Blank(Trimmed(d.password)) && Blank(Trimmed(d.name)) ==>
              StartsWith(CreateErrors(c, d), "Name is required\r\n")
    ensures EmailFilter(c, Trimmed(d.email)).None? ==>
              |CreateErrors(c, d)| >= 18
              && CreateErrors(c, d)[|CreateErrors(c, d)| - 18..] == "Email is invalid\r\n"
    ensures !Blank(Trimmed(d.username)) ==> !StartsWith(CreateErrors(c, d), "Username is required\r\n")
    ensures !Blank(Trimmed(d.username)) && !Blank(Trimmed(d.password)) ==>
              !StartsWith(CreateErrors(c, d), "Password is required\r\n")
    ensures EmailFilter(c, Trimmed(d.email)).Some? ==>
              !(|CreateErrors(c, d)| >= 18
                && CreateErrors(c, d)[|CreateErrors(c, d)| - 18..] == "Email is invalid\r\n")
  {
    var e1 := Require(!Blank(Trimmed(d.username)), "Username is required\r\n");
    var e2 := Require(!Blank(Trimmed(d.password)), "Password is required\r\n");
    var e3 := Require(!Blank(Trimmed(d.name)), "Name is required\r\n");
    var e4 := Require(EmailFilter(c, Trimmed(d.email)).Some?, "Email is invalid\r\n");
    var errors := e1 + e2 + e3 + e4;
    FirstPartLeads(e1, e2, e3, e4);
    if e1 == "" {
      SecondPartLeads(e1, e2, e3, e4);
      FirstCharNot(e1, e2, e3, e4, "Username is required\r\n");
      if e2 == "" {
        SecondPartLeads(e1 + e2, e3, e4, "");
        assert e1 + e2 + e3 + e4 + "" == errors;
        FirstCharNot(e1, e2, e3, e4, "Password is required\r\n");
      }
    }
    LastPartEnds(e1, e2, e3, e4);
    if e4 == "" {
      FourthFromLastNot(e1, e2, e3, e4, "Email is invalid\r\n");
    }
  }

  lemma FirstPartLeads(a: string, b: string, c: string, d: string)
    ensures StartsWith(a + b + c + d, a)
  {
    assert (a + b + c + d)[..|a|] == a;
  }

  lemma SecondPartLeads(a: string, b: string, c: string, d: string)
    requires a == ""
    ensures StartsWith(a + b + c + d, b)
  {
    assert (a + b + c + d)[..|b|] == b;
  }

  lemma LastPartEnds(a: string, b: string, c: string, d: string)
    ensures |a + b + c + d| >= |d| && (a + b + c + d)[|a + b + c + d| - |d|..] == d
  {
  }

  /** After an empty first part, the text starts with the first non-empty
      later part, so not with a line whose first character none of them has. */
  lemma FirstCharNot(a: string, b: string, c: string, d: string, line: string)
    requires a == "" && line != ""
    requires b == "" || b[0] != line[0]
    requires c == "" || c[0] != line[0]
    requires d == "" || d[0] != line[0]
    ensures !StartsWith(a + b + c + d, line)
  {
  }

  /** Before an empty last part, the text ends with the last non-empty earlier
      part, so not with a line whose fourth character from the end none of
      them has there. */
  lemma FourthFromLastNot(a: string, b: string, c: string, d: string, line: string)
    requires d == "" && |line| >= 4
    requires a == "" || (|a| >= 4 && a[|a| - 4] != line[|line| - 4])
    requires b == "" || (|b| >= 4 && b[|b| - 4] != line[|line| - 4])
    requires c == "" || (|c| >= 4 && c[|c| - 4] != line[|line| - 4])
    ensures !(|a + b + c + d| >= |line| && (a + b + c + d)[|a + b + c + d| - |line|..] == line)
  {
  }

  /** A second create of the same (trimmed) username fails and changes nothing. */
  lemma CreateRejectsExistingUser(c: Crypto, t: Table, d: Data, now: string)
    requires CreateErrors(c, d) == ""
    requires Trimmed(d.username).value in t.rows
    ensures CreateOutcome(c, t, d, now)
            == Outcome(t, Failure("User " + Trimmed(d.username).value + " already exists"))
  {
  }

  /** A successful create adds exactly one row, salted with now, and returns
      the token derived from now, which validate then accepts. */
  lemma CreateAddsOneRow(c: Crypto, t: Table, d: Data, now: string)
    requires WellFormed(c) && TableInvariant(t)
    requires CreateErrors(c, d) == "" && Trimmed(d.username).value !in t.rows
    ensures var u, p := Trimmed(d.username).value, Trimmed(d.password).value;
            var o := CreateOutcome(c, t, d, now);
            && o.table.rows == t.rows[u := Row(t.nextId, now, PasswordHash(c, now, p),
                                            Trimmed(d.name).value, Trim(d.email.value))]
            && o.table.nextId == t.nextId + 1
            && o.response == Success(Token(SessionToken(c, now, u)))
            && TokenValid(c, o.table, u, o.response.value.token)
  {
  }

  // ---------------------------------------------------------------------------
  // login

  function LoginErrors(d: Data): string
  {
    Require(!Blank(Trimmed(d.username)), "Username is required\r\n")
    + Require(!Blank(Trimmed(d.password)), "Password is required\r\n")
  }

  /** The query login runs finds a row under u whose stored digest is that of
      password under the row's own modification. */
  predicate PasswordMatches(c: Crypto, t: Table, u: string, password: string)
  {
    u in t.rows && t.rows[u].hash == PasswordHash(c, t.rows[u].modification, password)
  }

  function LoginOutcome(c: Crypto, t: Table, d: Data, now: string): Outcome
  {
    var errors := LoginErrors(d);
    if errors != "" then Outcome(t, Failure(errors))
    else
      var username, password := Trimmed(d.username).value, Trimmed(d.password).value;
      if !PasswordMatches(c, t, username, password) then Outcome(t, Failure(InvalidCredentials))
      else
        var row := t.rows[username];
        var rotated := row.(modification := now, hash := PasswordHash(c, now, password));
        // rowCount() of the UPDATE counts the rows it actually changed
        if rotated == row then Outcome(t, Failure("Unable to update user in the database"))
        else Outcome(Table(t.rows[username := rotated], t.nextId), Success(Token(SessionToken(c, now, username))))
  }

  /** login succeeds only with the password whose digest, under the stored
      salt, is the stored digest; otherwise it fails with "Invalid
      credentials" and the table is unchanged. */
  lemma LoginNeedsMatchingHash(c: Crypto, t: Table, d: Data, now: string)
    requires LoginErrors(d) == ""
    ensures var u, p := Trimmed(d.username).value, Trimmed(d.password).value;
            && (LoginOutcome(c, t, d, now).response.Success? ==> PasswordMatches(c, t, u, p))
            && (!PasswordMatches(c, t, u, p) ==> LoginOutcome(c, t, d, now) == Outcome(t, Failure(InvalidCredentials)))
  {
  }

  /** A successful login rewrites that row's modification and digest together
      (nothing else in the table changes) and returns the token derived from
      the new salt, which validate then accepts. */
  lemma LoginRotatesSalt(c: Crypto, t: Table, d: Data, now: string)
    requires WellFormed(c)
    requires LoginOutcome(c, t, d, now).response.Success?
    ensures var u, p := Trimmed(d.username).value, Trimmed(d.password).value;
            var o := LoginOutcome(c, t, d, now);
            && u in t.rows
            && o.table == Table(t.rows[u := t.rows[u].(modification := now, hash := PasswordHash(c, now, p))], t.nextId)
            && o.response == Success(Token(SessionToken(c, now, u)))
            && TokenValid(c, o.table, u, o.response.value.token)
  {
    var u := Trimmed(d.username).value;
    assert LoginErrors(d) == "";
  }

  /** A second login within the same second writes an unchanged row, so
      rowCount() is 0 and it fails although the password is right. */
  lemma LoginSameSecondFails(c: Crypto, t: Table, d: Data, now: string)
    requires LoginErrors(d) == ""
    requires PasswordMatches(c, t, Trimmed(d.username).value, Trimmed(d.password).value)
    ensures LoginOutcome(c, t, d, now).response.Failure? <==> t.rows[Trimmed(d.username).value].modification == now
    ensures t.rows[Trimmed(d.username).value].modification == now ==>
              LoginOutcome(c, t, d, now) == Outcome(t, Failure("Unable to update user in the database"))
  {
  }

  /** While every stored digest is that of the password last set for its user,
      login with that password succeeds (outside the second the row was last
      written) and returns the token derived from now. */
  lemma LoginAcceptsLastPassword(c: Crypto, t: Table, passwords: map<string, string>, d: Data, now: string)
    requires HashInvariant(c, t, passwords)
    requires LoginErrors(d) == ""
    requires Trimmed(d.username).value in t.rows
    requires passwords[Trimmed(d.username).value] == Trimmed(d.password).value
    requires t.rows[Trimmed(d.username).value].modification != now
    ensures LoginOutcome(c, t, d, now).response == Success(Token(SessionToken(c, now, Trimmed(d.username).value)))
  {
    var u := Trimmed(d.username).value;
    assert PasswordMatches(c, t, u, Trimmed(d.password).value);
  }

  /** After a successful login, a token issued under the previous salt is
      accepted only if SHA-512 maps two different inputs to one digest. */
  lemma LoginInvalidatesEarlierTokens(c: Crypto, t: Table, d: Data, now: string, earlier: string)
    requires LoginOutcome(c, t, d, now).response.Success?
    requires TokenValid(c, t, Trimmed(d.username).value, earlier)
    ensures var u := Trimmed(d.username).value;
            TokenValid(c, LoginOutcome(c, t, d, now).table, u, earlier) ==>
              Collision(c, t.rows[u].modification + u + c.pepper, now + u + c.pepper)
  {
    var u := Trimmed(d.username).value;
    assert LoginErrors(d) == "";
    assert t.rows[u].modification != now;
    SuffixKeepsDifference(t.rows[u].modification, now, u);
    SuffixKeepsDifference(t.rows[u].modification + u, now + u, c.pepper);
  }

  lemma SuffixKeepsDifference(a: string, b: string, x: string)
    requires a != b
    ensures a + x != b + x
  {
    if |a| == |b| {
      assert (a + x)[..|a|] == a;
      assert (b + x)[..|a|] == b;
    }
  }

  // ---------------------------------------------------------------------------
  // validate

  function ValidateErrors(d: Data): string
  {
    Require(!Blank(Trimmed(d.username)), "Username is required\r\n")
    + Require(!Blank(Trimmed(d.token)), "Token is required\r\n")
  }

  /** validate, with $results['validated'] as the success value. */
  function ValidateResult(c: Crypto, t: Table, d: Data): Result<bool, string>
  {
    var errors := ValidateErrors(d);
    if errors != "" then Failure(errors)
    else
      var username, token := Trimmed(d.username).value, Trimmed(d.token).value;
      if username !in t.rows then Failure(InvalidCredentials)
      else
        var validated := token == SessionToken(c, t.rows[username].modification, username);
        if !validated then Failure(InvalidCredentials) else Success(validated)
  }

  function ValidateResponse(c: Crypto, t: Table, d: Data): Result<Payload, string>
  {
    match ValidateResult(c, t, d)
    case Success(v) => Success(Validated(v))
    case Failure(e) => Failure(e)
  }

  /** validate succeeds exactly for a present username and token whose
      trimmed token is the one derived from that user's current salt; it never
      returns validated=false, and an unknown user or a wrong token gives
      "Invalid credentials". */
  lemma ValidateAcceptsExactlyCurrentToken(c: Crypto, t: Table, d: Data)
    ensures ValidateResult(c, t, d) != Success(false)
    ensures ValidateResult(c, t, d).Success? <==>
              ValidateErrors(d) == "" && TokenValid(c, t, Trimmed(d.username).value, Trimmed(d.token).value)
    ensures (ValidateErrors(d) == "" && !TokenValid(c, t, Trimmed(d.username).value, Trimmed(d.token).value))
              ==> ValidateResult(c, t, d) == Failure(InvalidCredentials)
  {
  }

  /** The request validate needs to check a token for a username. */
  function TokenRequest(username: string, token: string): Data
  {
    Data(Some(username), None, None, None, Some(token))
  }

  /** A token derived from the current salt of the user a username trims to
      is accepted for that username: a digest has no blanks to trim. */
  lemma ValidateAcceptsIssuedToken(c: Crypto, t: Table, username: string, token: string)
    requires WellFormed(c)
    requires Trim(username) != "" && TokenValid(c, t, Trim(username), token)
    ensures ValidateResult(c, t, TokenRequest(username, token)) == Success(true)
  {
    HexIsTrimmed(token);
  }

  lemma HexIsTrimmed(h: string)
    requires IsHexDigest(h)
    ensures Trim(h) == h
  {
    assert IsHexChar(h[0]) && IsHexChar(h[|h| - 1]);
    TrimFixpoint(h);
  }

  /** Right after create, validate accepts the returned token for the username
      as the client sent it. */
  lemma CreateThenValidate(c: Crypto, t: Table, d: Data, now: string)
    requires WellFormed(c)
    requires CreateOutcome(c, t, d, now).response.Success?
    ensures var o := CreateOutcome(c, t, d, now);
            ValidateResult(c, o.table, TokenRequest(d.username.value, o.response.value.token)) == Success(true)
  {
    var o := CreateOutcome(c, t, d, now);
    assert CreateErrors(c, d) == "";
    var u := Trim(d.username.value);
    assert u !in t.rows && t.nextId != 0;
    assert o.table.rows[u].modification == now;
    ValidateAcceptsIssuedToken(c, o.table, d.username.value, o.response.value.token);
  }

  /** Right after login, validate accepts the returned token for the username
      as the client sent it. */
  lemma LoginThenValidate(c: Crypto, t: Table, d: Data, now: string)
    requires WellFormed(c)
    requires LoginOutcome(c, t, d, now).response.Success?
    ensures var o := LoginOutcome(c, t, d, now);
            ValidateResult(c, o.table, TokenRequest(d.username.value, o.response.value.token)) == Success(true)
  {
    var o := LoginOutcome(c, t, d, now);
    assert LoginErrors(d) == "";
    LoginRotatesSalt(c, t, d, now);
    ValidateAcceptsIssuedToken(c, o.table, d.username.value, o.response.value.token);
  }

  /** After create, a login in a later second with the same username and
      password succeeds and returns the token derived from that second. */
  lemma CreateThenLogin(c: Crypto, t: Table, d: Data, now: string, later: string)
    requires CreateOutcome(c, t, d, now).response.Success?
    requires later != now
    ensures LoginOutcome(c, CreateOutcome(c, t, d, now).table, d, later).response
            == Success(Token(SessionToken(c, later, Trimmed(d.username).value)))
  {
    var o := CreateOutcome(c, t, d, now);
    assert CreateErrors(c, d) == "";
    var u := Trimmed(d.username).value;
    assert u !in t.rows && t.nextId != 0;
    assert o.table.rows[u].modification == now;
    assert PasswordMatches(c, o.table, u, Trimmed(d.password).value);
  }

  // ---------------------------------------------------------------------------
  // account

  function AccountResponse(c: Crypto, t: Table, d: Data): Result<Payload, string>
  {
    var validated := ValidateResult(c, t, d);
    if validated.Failure? then Failure(validated.error)
    else if !validated.value then Failure(InvalidCredentials)
    else
      var username := d.username;
      if username.None? then Failure("Username is required")
      else if username.value !in t.rows then Failure("User " + username.value + " does not exists")
      else
        var row := t.rows[username.value];
        Success(Account(row.name, row.modification, row.email))
  }

  /** account passes validate's failure on, then returns the name, the
      modification (as last_login) and the email of the row it looks up by
      the username as given, untrimmed. */
  lemma AccountAfterValidate(c: Crypto, t: Table, d: Data)
    ensures ValidateResult(c, t, d).Failure? ==> AccountResponse(c, t, d) == Failure(ValidateResult(c, t, d).error)
    ensures AccountResponse(c, t, d).Success? <==> ValidateResult(c, t, d).Success? && d.username.value in t.rows
    ensures AccountResponse(c, t, d).Success? ==>
              AccountResponse(c, t, d).value
              == Account(t.rows[d.username.value].name, t.rows[d.username.value].modification, t.rows[d.username.value].email)
  {
    if ValidateResult(c, t, d).Success? {
      assert ValidateErrors(d) == "";
    }
  }

  // ---------------------------------------------------------------------------
  // update

  /** The $fields array built at the end of update, in its order. */
  function UpdateFields(password: Option<string>, name: Option<string>, email: Option<string>): seq<string>
  {
    (if IsTruthy(password) then ["hash", "modification"] else [])
    + (if IsTruthy(name) then ["name"] else [])
    + (if IsTruthy(email) then ["email"] else [])
  }

  /** The row after UPDATE users SET <fields> WHERE id=:id. */
  function UpdatedRow(c: Crypto, row: Row, now: string, password: Option<string>, name: Option<string>, email: Option<string>): Row
  {
    var withPassword := if IsTruthy(password) then row.(hash := PasswordHash(c, now, password.value), modification := now) else row;
    var withName := if IsTruthy(name) then withPassword.(name := name.value) else withPassword;
    if IsTruthy(email) then withName.(email := email.value) else withName
  }

  function UpdateOutcome(c: Crypto, t: Table, d: Data, now: string): Outcome
  {
    var validated := ValidateResult(c, t, d);
    if validated.Failure? then Outcome(t, Failure(validated.error))
    else if !validated.value then Outcome(t, Failure(InvalidCredentials))
    else
      var username := d.username;
      var password, name := Trimmed(d.password), Trimmed(d.name);
      var email := EmailFilter(c, Trimmed(d.email));
      if username.None? then Outcome(t, Failure("Username is required"))
      else if email.None? then Outcome(t, Failure("Email is invalid"))
      else if username.value !in t.rows then Outcome(t, Failure("User " + username.value + " does not exists"))
      else if |UpdateFields(password, name, email)| == 0 then Outcome(t, Success(Updated(false, false)))
      else
        var row := t.rows[username.value];
        var changed := UpdatedRow(c, row, now, password, name, email);
        Outcome(Table(t.rows[username.value := changed], t.nextId), Success(Updated(changed != row, IsTruthy(password))))
  }

  /** update runs validate first and passes its failure on unchanged. */
  lemma UpdateValidatesFirst(c: Crypto, t: Table, d: Data, now: string)
    requires ValidateResult(c, t, d).Failure?
    ensures UpdateOutcome(c, t, d, now) == Outcome(t, Failure(ValidateResult(c, t, d).error))
  {
  }

  /** An update that supplies no email fails with "Email is invalid" once the
      token is valid: filter_var rejects the missing value, so the email is
      not optional in practice. */
  lemma UpdateWithoutEmailFails(c: Crypto, t: Table, d: Data, now: string)
    requires WellFormed(c)
    requires ValidateResult(c, t, d).Success?
    requires d.email.None? || Trim(d.email.value) == ""
    ensures UpdateOutcome(c, t, d, now) == Outcome(t, Failure("Email is invalid"))
  {
    assert ValidateErrors(d) == "";
  }

  /** Since every address filter_var accepts is truthy, the field set is
      never empty once the email check passed: the "no fields" branch of
      update cannot be reached. */
  lemma UpdateFieldsNeverEmpty(c: Crypto, password: Option<string>, name: Option<string>, email: Option<string>)
    requires WellFormed(c)
    requires EmailFilter(c, email).Some?
    ensures |UpdateFields(password, name, EmailFilter(c, email))| > 0
    ensures UpdateFields(password, name, EmailFilter(c, email))[|UpdateFields(password, name, EmailFilter(c, email))| - 1] == "email"
  {
    var e := EmailFilter(c, email).value;
    assert '@' in e;
    assert e != "" && e != "0";
  }

  /** update looks the row up by the username as given, while validate trims
      it: a validated username with surrounding whitespace never names a row,
      so the update fails and nothing is written. Usernames compare as exact
      strings here; under MySQL's PAD SPACE collations a username with only
      trailing spaces does name the row, so on such a server only leading
      whitespace gives this failure. */
  lemma UpdateUntrimmedUsernameFails(c: Crypto, t: Table, d: Data, now: string)
    requires TableInvariant(t)
    requires ValidateResult(c, t, d).Success?
    requires EmailFilter(c, Trimmed(d.email)).Some?
    requires Trim(d.username.value) != d.username.value
    ensures UpdateOutcome(c, t, d, now) == Outcome(t, Failure("User " + d.username.value + " does not exists"))
  {
    assert ValidateErrors(d) == "";
    var u := d.username.value;
    if u in t.rows {
      TrimFixpoint(u);
    }
  }

  /** A successful update writes only the fields it lists: a truthy password
      rewrites hash and modification together and asks for a new login; name
      and email are written when truthy and never touch modification; the id
      and every other row stay as they were. */
  lemma UpdateWritesListedFields(c: Crypto, t: Table, d: Data, now: string)
    requires WellFormed(c)
    requires UpdateOutcome(c, t, d, now).response.Success?
    ensures var u := d.username.value;
            var p, n, e := Trimmed(d.password), Trimmed(d.name), Trim(d.email.value);
            var o := UpdateOutcome(c, t, d, now);
            && u in t.rows && u in o.table.rows
            && o.table.rows.Keys == t.rows.Keys && o.table.nextId == t.nextId
            && (forall v :: v in t.rows && v != u ==> o.table.rows[v] == t.rows[v])
            && var before, after := t.rows[u], o.table.rows[u];
            && after.id == before.id
            && after.modification == (if IsTruthy(p) then now else before.modification)
            && after.hash == (if IsTruthy(p) then PasswordHash(c, now, p.value) else before.hash)
            && after.name == (if IsTruthy(n) then n.value else before.name)
            && after.email == e
            && o.response == Success(Updated(after != before, IsTruthy(p)))
  {
    assert ValidateErrors(d) == "";
    var e := EmailFilter(c, Trimmed(d.email));
    UpdateFieldsNeverEmpty(c, Trimmed(d.password), Trimmed(d.name), Trimmed(d.email));
    assert IsTruthy(e);
  }

  /** A password change rotates the salt: afterwards a token issued under the
      previous salt is accepted only when the change happened in the same
      second or SHA-512 collides. */
  lemma UpdatePasswordInvalidatesTokens(c: Crypto, t: Table, d: Data, now: string, earlier: string)
    requires WellFormed(c)
    requires UpdateOutcome(c, t, d, now).response.Success?
    requires IsTruthy(Trimmed(d.password))
    requires TokenValid(c, t, d.username.value, earlier)
    ensures UpdateOutcome(c, t, d, now).response.value.loginRequired
    ensures var u := d.username.value;
            TokenValid(c, UpdateOutcome(c, t, d, now).table, u, earlier) ==>
              t.rows[u].modification == now || Collision(c, t.rows[u].modification + u + c.pepper, now + u + c.pepper)
  {
    assert ValidateErrors(d) == "";
    var u := d.username.value;
    var p, n, e := Trimmed(d.password), Trimmed(d.name), EmailFilter(c, Trimmed(d.email));
    UpdateFieldsNeverEmpty(c, p, n, Trimmed(d.email));
    var row := UpdatedRow(c, t.rows[u], now, p, n, e);
    assert row.modification == now;
    assert UpdateOutcome(c, t, d, now).table.rows[u] == row;
    var m := t.rows[u].modification;
    if m != now {
      SuffixKeepsDifference(m, now, u);
      SuffixKeepsDifference(m + u, now + u, c.pepper);
    }
  }

  // ---------------------------------------------------------------------------
  // processMode

  const NoContent := Status(406, "No content available for action requested")

  function ProcessOutcome(c: Crypto, t: Table, args: Args, now: string): Outcome
  {
    var action := if args.action.Some? then args.action.value else "";
    if action == "account" then Outcome(t, AccountResponse(c, t, args.data))
    else if action == "create" then CreateOutcome(c, t, args.data, now)
    else if action == "login" then LoginOutcome(c, t, args.data, now)
    else if action == "update" then UpdateOutcome(c, t, args.data, now)
    else if action == "validate" then Outcome(t, ValidateResponse(c, t, args.data))
    else Outcome(t, Success(NoContent))
  }

  /** processMode dispatches each of the five actions to its operation and
      answers every other action, or none, with status 406 and no change. */
  lemma ProcessModeDispatch(c: Crypto, t: Table, args: Args, now: string)
    ensures args.action == Some("create") ==> ProcessOutcome(c, t, args, now) == CreateOutcome(c, t, args.data, now)
    ensures args.action == Some("login") ==> ProcessOutcome(c, t, args, now) == LoginOutcome(c, t, args.data, now)
    ensures args.action == Some("update") ==> ProcessOutcome(c, t, args, now) == UpdateOutcome(c, t, args.data, now)
    ensures args.action == Some("validate") ==> ProcessOutcome(c, t, args, now) == Outcome(t, ValidateResponse(c, t, args.data))
    ensures args.action == Some("account") ==> ProcessOutcome(c, t, args, now) == Outcome(t, AccountResponse(c, t, args.data))
    ensures args.action !in {Some("account"), Some("create"), Some("login"), Some("update"), Some("validate")} ==>
              ProcessOutcome(c, t, args, now) == Outcome(t, Success(Status(406, "No content available for action requested")))
  {
  }

  // ---------------------------------------------------------------------------
  // The invariants are preserved, and a failure never writes.

  /** Adding a row under a fresh, trimmed, non-empty username with the next id
      keeps the table invariant. */
  lemma InsertKeepsTableInvariant(t: Table, u: string, row: Row)
    requires TableInvariant(t)
    requires u !in t.rows && u != "" && IsTrimmed(u) && row.id == t.nextId
    ensures TableInvariant(Table(t.rows[u := row], t.nextId + 1))
  {
    var t' := Table(t.rows[u := row], t.nextId + 1);
    forall v, w | v in t'.rows && w in t'.rows && v != w
      ensures t'.rows[v].id != t'.rows[w].id
    {
      if v == u {
        assert t'.rows[w].id == t.rows[w].id < t.nextId;
      } else if w == u {
        assert t'.rows[v].id == t.rows[v].id < t.nextId;
      }
    }
  }

  /** Rewriting a row in place, keeping its id, keeps the table invariant. */
  lemma ReplaceKeepsTableInvariant(t: Table, u: string, row: Row)
    requires TableInvariant(t)
    requires u in t.rows && row.id == t.rows[u].id
    ensures TableInvariant(Table(t.rows[u := row], t.nextId))
  {
    var t' := Table(t.rows[u := row], t.nextId);
    assert forall v :: v in t'.rows ==> t'.rows[v].id == t.rows[v].id;
  }

  /** Storing a row whose digest is that of password p under its own salt
      keeps the digest invariant, with p as u's password. */
  lemma StoreKeepsHashInvariant(c: Crypto, t: Table, passwords: map<string, string>, u: string, row: Row, p: string, n: nat)
    requires HashInvariant(c, t, passwords)
    requires row.hash == PasswordHash(c, row.modification, p)
    ensures HashInvariant(c, Table(t.rows[u := row], n), passwords[u := p])
  {
  }

  /** A failed create writes nothing. */
  lemma CreateFailureWritesNothing(c: Crypto, t: Table, d: Data, now: string)
    ensures CreateOutcome(c, t, d, now).response.Failure? ==> CreateOutcome(c, t, d, now).table == t
  {
  }

  /** create keeps ids positive, distinct and below the next id, and usernames trimmed. */
  lemma CreateKeepsTableInvariant(c: Crypto, t: Table, d: Data, now: string)
    requires TableInvariant(t)
    ensures TableInvariant(CreateOutcome(c, t, d, now).table)
  {
    var o := CreateOutcome(c, t, d, now);
    if o.response.Success? {
      assert CreateErrors(c, d) == "";
      var u, p := Trim(d.username.value), Trim(d.password.value);
      assert u !in t.rows && t.nextId != 0;
      var row := Row(t.nextId, now, PasswordHash(c, now, p), Trim(d.name.value), Trim(d.email.value));
      assert o.table == Table(t.rows[u := row], t.nextId + 1);
      InsertKeepsTableInvariant(t, u, row);
    }
  }

  /** After a successful create, the new row's digest is that of the password
      it was created with, and every other digest is as before. */
  lemma CreateKeepsHashInvariant(c: Crypto, t: Table, passwords: map<string, string>, d: Data, now: string)
    requires HashInvariant(c, t, passwords)
    requires CreateOutcome(c, t, d, now).response.Success?
    ensures HashInvariant(c, CreateOutcome(c, t, d, now).table,
                          passwords[Trimmed(d.username).value := Trimmed(d.password).value])
  {
    var o := CreateOutcome(c, t, d, now);
    assert CreateErrors(c, d) == "";
    var u, p := Trim(d.username.value), Trim(d.password.value);
    assert u !in t.rows && t.nextId != 0;
    var row := Row(t.nextId, now, PasswordHash(c, now, p), Trim(d.name.value), Trim(d.email.value));
    assert o.table == Table(t.rows[u := row], t.nextId + 1);
    StoreKeepsHashInvariant(c, t, passwords, u, row, p, t.nextId + 1);
  }

  /** A failed login writes nothing. */
  lemma LoginFailureWritesNothing(c: Crypto, t: Table, d: Data, now: string)
    ensures LoginOutcome(c, t, d, now).response.Failure? ==> LoginOutcome(c, t, d, now).table == t
  {
  }

  /** login keeps ids positive, distinct and below the next id, and usernames trimmed. */
  lemma LoginKeepsTableInvariant(c: Crypto, t: Table, d: Data, now: string)
    requires TableInvariant(t)
    ensures TableInvariant(LoginOutcome(c, t, d, now).table)
  {
    var o := LoginOutcome(c, t, d, now);
    if o.response.Success? {
      assert LoginErrors(d) == "";
      var u, p := Trim(d.username.value), Trim(d.password.value);
      var row := t.rows[u].(modification := now, hash := PasswordHash(c, now, p));
      assert o.table == Table(t.rows[u := row], t.nextId);
      ReplaceKeepsTableInvariant(t, u, row);
    }
  }

  /** After a successful login, the digest stored under the new salt is that
      of the password just checked. */
  lemma LoginKeepsHashInvariant(c: Crypto, t: Table, passwords: map<string, string>, d: Data, now: string)
    requires HashInvariant(c, t, passwords)
    requires LoginOutcome(c, t, d, now).response.Success?
    ensures HashInvariant(c, LoginOutcome(c, t, d, now).table,
                          passwords[Trimmed(d.username).value := Trimmed(d.password).value])
  {
    var o := LoginOutcome(c, t, d, now);
    assert LoginErrors(d) == "";
    var u, p := Trim(d.username.value), Trim(d.password.value);
    var row := t.rows[u].(modification := now, hash := PasswordHash(c, now, p));
    assert o.table == Table(t.rows[u := row], t.nextId);
    StoreKeepsHashInvariant(c, t, passwords, u, row, p, t.nextId);
  }

  /** The passwords last set after an update: a truthy password replaces the old one. */
  function PasswordsAfterUpdate(passwords: map<string, string>, d: Data): map<string, string>
  {
    if d.username.Some? && IsTruthy(Trimmed(d.password)) then passwords[d.username.value := Trimmed(d.password).value]
    else passwords
  }

  /** A failed update writes nothing. */
  lemma UpdateFailureWritesNothing(c: Crypto, t: Table, d: Data, now: string)
    ensures UpdateOutcome(c, t, d, now).response.Failure? ==> UpdateOutcome(c, t, d, now).table == t
  {
  }

  /** update keeps ids positive, distinct and below the next id, and usernames trimmed. */
  lemma UpdateKeepsTableInvariant(c: Crypto, t: Table, d: Data, now: string)
    requires TableInvariant(t)
    ensures TableInvariant(UpdateOutcome(c, t, d, now).table)
  {
    var o := UpdateOutcome(c, t, d, now);
    if o.response.Success? {
      assert ValidateErrors(d) == "";
      var u := d.username.value;
      var p, n, e := Trimmed(d.password), Trimmed(d.name), EmailFilter(c, Trimmed(d.email));
      if |UpdateFields(p, n, e)| > 0 {
        var row := UpdatedRow(c, t.rows[u], now, p, n, e);
        assert o.table == Table(t.rows[u := row], t.nextId);
        ReplaceKeepsTableInvariant(t, u, row);
      }
    }
  }

  /** After a successful update, a new password's digest is stored under the
      new salt, and a row whose password is kept keeps digest and salt. */
  lemma UpdateKeepsHashInvariant(c: Crypto, t: Table, passwords: map<string, string>, d: Data, now: string)
    requires HashInvariant(c, t, passwords)
    requires UpdateOutcome(c, t, d, now).response.Success?
    ensures HashInvariant(c, UpdateOutcome(c, t, d, now).table, PasswordsAfterUpdate(passwords, d))
  {
    var o := UpdateOutcome(c, t, d, now);
    assert ValidateErrors(d) == "";
    var u := d.username.value;
    var p, n, e := Trimmed(d.password), Trimmed(d.name), EmailFilter(c, Trimmed(d.email));
    assert u in t.rows;
    if |UpdateFields(p, n, e)| > 0 {
      var row := UpdatedRow(c, t.rows[u], now, p, n, e);
      assert o.table == Table(t.rows[u := row], t.nextId);
      if IsTruthy(p) {
        StoreKeepsHashInvariant(c, t, passwords, u, row, p.value, t.nextId);
      } else {
        StoreKeepsHashInvariant(c, t, passwords, u, row, passwords[u], t.nextId);
        assert passwords[u := passwords[u]] == passwords;
      }
    }
  }

  /** The password last set for each user after processMode: create and login
      record the trimmed password of a successful call, update that of a
      successful call with a truthy password; every other call leaves them. */
  function ProcessPasswords(c: Crypto, t: Table, passwords: map<string, string>, args: Args, now: string): map<string, string>
  {
    var action := if args.action.Some? then args.action.value else "";
    var d := args.data;
    if action == "create" && CreateOutcome(c, t, d, now).response.Success? then
      passwords[Trimmed(d.username).value := Trimmed(d.password).value]
    else if action == "login" && LoginOutcome(c, t, d, now).response.Success? then
      passwords[Trimmed(d.username).value := Trimmed(d.password).value]
    else if action == "update" && UpdateOutcome(c, t, d, now).response.Success? then
      PasswordsAfterUpdate(passwords, d)
    else passwords
  }

  /** Through the dispatcher, every stored digest stays that of the password
      last set for its user. */
  lemma ProcessKeepsHashInvariant(c: Crypto, t: Table, passwords: map<string, string>, args: Args, now: string)
    requires HashInvariant(c, t, passwords)
    ensures HashInvariant(c, ProcessOutcome(c, t, args, now).table, ProcessPasswords(c, t, passwords, args, now))
  {
    var action := if args.action.Some? then args.action.value else "";
    var o, pw := ProcessOutcome(c, t, args, now), ProcessPasswords(c, t, passwords, args, now);
    if action == "create" {
      assert o == CreateOutcome(c, t, args.data, now);
      CreateKeepsPasswords(c, t, passwords, args.data, now);
    } else if action == "login" {
      assert o == LoginOutcome(c, t, args.data, now);
      LoginKeepsPasswords(c, t, passwords, args.data, now);
    } else if action == "update" {
      assert o == UpdateOutcome(c, t, args.data, now);
      UpdateKeepsPasswords(c, t, passwords, args.data, now);
    } else {
      assert o.table == t && pw == passwords;
    }
  }

  lemma CreateKeepsPasswords(c: Crypto, t: Table, passwords: map<string, string>, d: Data, now: string)
    requires HashInvariant(c, t, passwords)
    ensures var o := CreateOutcome(c, t, d, now);
            HashInvariant(c, o.table, if o.response.Success? then passwords[Trimmed(d.username).value := Trimmed(d.password).value]
                                      else passwords)
  {
    CreateFailureWritesNothing(c, t, d, now);
    if CreateOutcome(c, t, d, now).response.Success? {
      CreateKeepsHashInvariant(c, t, passwords, d, now);
    }
  }

  lemma LoginKeepsPasswords(c: Crypto, t: Table, passwords: map<string, string>, d: Data, now: string)
    requires HashInvariant(c, t, passwords)
    ensures var o := LoginOutcome(c, t, d, now);
            HashInvariant(c, o.table, if o.response.Success? then passwords[Trimmed(d.username).value := Trimmed(d.password).value]
                                      else passwords)
  {
    LoginFailureWritesNothing(c, t, d, now);
    if LoginOutcome(c, t, d, now).response.Success? {
      LoginKeepsHashInvariant(c, t, passwords, d, now);
    }
  }

  lemma UpdateKeepsPasswords(c: Crypto, t: Table, passwords: map<string, string>, d: Data, now: string)
    requires HashInvariant(c, t, passwords)
    ensures var o := UpdateOutcome(c, t, d, now);
            HashInvariant(c, o.table, if o.response.Success? then PasswordsAfterUpdate(passwords, d) else passwords)
  {
    UpdateFailureWritesNothing(c, t, d, now);
    if UpdateOutcome(c, t, d, now).response.Success? {
      UpdateKeepsHashInvariant(c, t, passwords, d, now);
    }
  }

  // ---------------------------------------------------------------------------
  // The SQL text the operations send, built by the database gateway.

  /** The SET list reads back as exactly the given fields, in order, each as a
      bound parameter `f=:f`. */
  predicate BindsEvery(vars: string, fields: seq<string>)
  {
    && |MySQLAccess.Split(vars)| == |fields|
    && forall i :: 0 <= i < |fields| ==> MySQLAccess.ParseAssignment(MySQLAccess.Split(vars)[i]) == (fields[i], true)
  }

  /** Every field is set in the parameters and is a plain column name. */
  lemma StatementBindsEvery(fields: seq<string>, p: MySQLAccess.Params)
    requires fields != []
    requires forall i :: 0 <= i < |fields| ==> fields[i] in {"modification", "username", "hash", "name", "email"}
    requires forall i :: 0 <= i < |fields| ==> MySQLAccess.IsSet(p, fields[i])
    ensures BindsEvery(MySQLAccess.UpdateVars(fields, p), fields)
  {
    forall i | 0 <= i < |fields| ensures MySQLAccess.PlainName(fields[i]) {
      assert fields[i] in {"modification", "username", "hash", "name", "email"};
    }
    MySQLAccess.UpdateVarsReadsBack(fields, p);
  }

  /** The columns create inserts, in the order of its $fields. */
  const CreateColumns: seq<string> := ["modification", "username", "hash", "name", "email"]

  /** The $fdata create passes to insert. */
  function CreateParams(now: string, username: string, hash: string, name: string, email: string): MySQLAccess.Params
  {
    map["modification" := Some(now), "username" := Some(username), "hash" := Some(hash),
        "name" := Some(name), "email" := Some(email)]
  }

  /** create sends INSERT INTO users SET with all five columns as bound parameters. */
  lemma CreateInsertStatement(now: string, username: string, hash: string, name: string, email: string)
    ensures var vars := MySQLAccess.UpdateVars(CreateColumns, CreateParams(now, username, hash, name, email));
            && MySQLAccess.InsertSql("users", CreateColumns, CreateParams(now, username, hash, name, email))
               == "INSERT INTO users SET " + vars
            && BindsEvery(vars, CreateColumns)
  {
    StatementBindsEvery(CreateColumns, CreateParams(now, username, hash, name, email));
    UsersInsertHead();
  }

  lemma UsersInsertHead()
    ensures "INSERT INTO " + "users" + " SET " == "INSERT INTO users SET "
  {
  }

  lemma UsersUpdateFrame()
    ensures "UPDATE " + "users" + " SET " == "UPDATE users SET "
    ensures " WHERE " + "id" + "=:" + "id" == " WHERE id=:id"
  {
  }

  /** The columns login rewrites, in the order of its $fields. */
  const LoginColumns: seq<string> := ["modification", "username", "hash"]

  /** The $fdata login passes to update. */
  function LoginParams(now: string, username: string, hash: string, id: nat): MySQLAccess.Params
  {
    map["modification" := Some(now), "username" := Some(username), "hash" := Some(hash), "id" := Some(Decimal(id))]
  }

  /** login sends UPDATE users SET with its three columns bound, for the row with its id. */
  lemma LoginUpdateStatement(now: string, username: string, hash: string, id: nat)
    ensures var vars := MySQLAccess.UpdateVars(LoginColumns, LoginParams(now, username, hash, id));
            && MySQLAccess.UpdateSql("users", "id", LoginColumns, LoginParams(now, username, hash, id))
               == "UPDATE users SET " + vars + " WHERE id=:id"
            && BindsEvery(vars, LoginColumns)
            && MySQLAccess.IsSet(LoginParams(now, username, hash, id), "id")
  {
    StatementBindsEvery(LoginColumns, LoginParams(now, username, hash, id));
    MySQLAccess.UpdateSqlParts("users", "id", LoginColumns, LoginParams(now, username, hash, id));
    UsersUpdateFrame();
  }

  /** The $fdata update builds next to its $fields: the new digest and now
      for a truthy password, then the name and the email when truthy. */
  function UpdateSetParams(hash: string, now: string, password: Option<string>, name: Option<string>, email: Option<string>): MySQLAccess.Params
  {
    var withPassword: MySQLAccess.Params :=
      if IsTruthy(password) then map["hash" := Some(hash), "modification" := Some(now)] else map[];
    var withName := if IsTruthy(name) then withPassword["name" := name] else withPassword;
    if IsTruthy(email) then withName["email" := email] else withName
  }

  /** The $fdata update passes to the gateway: the SET values and the id. */
  function UpdateParams(hash: string, now: string, password: Option<string>, name: Option<string>, email: Option<string>, id: nat): MySQLAccess.Params
  {
    UpdateSetParams(hash, now, password, name, email)["id" := Some(Decimal(id))]
  }

  /** update sends UPDATE users SET with every field it lists bound, in the
      order hash, modification, name, email, for the row with its id. */
  lemma UpdateStatementBindsEveryField(hash: string, now: string, password: Option<string>, name: Option<string>, email: Option<string>, id: nat)
    requires |UpdateFields(password, name, email)| > 0
    ensures var fields := UpdateFields(password, name, email);
            var p := UpdateParams(hash, now, password, name, email, id);
            var vars := MySQLAccess.UpdateVars(fields, p);
            && MySQLAccess.UpdateSql("users", "id", fields, p) == "UPDATE users SET " + vars + " WHERE id=:id"
            && BindsEvery(vars, fields)
            && MySQLAccess.IsSet(p, "id")
  {
    var fields := UpdateFields(password, name, email);
    var p := UpdateParams(hash, now, password, name, email, id);
    UpdateFieldsAreSet(hash, now, password, name, email, id);
    forall i | 0 <= i < |fields|
      ensures fields[i] in {"modification", "username", "hash", "name", "email"} && MySQLAccess.IsSet(p, fields[i])
    {
      assert fields[i] in fields;
    }
    StatementBindsEvery(fields, p);
    MySQLAccess.UpdateSqlParts("users", "id", fields, p);
    UsersUpdateFrame();
  }

  /** Column f of a users row set to v. The username column is the row's key
      in the table rather than a field of Row, so WrittenKey writes it; any
      other name leaves the row as it was. */
  function SetColumn(row: Row, f: string, v: string): Row
  {
    match f
    case "hash" => row.(hash := v)
    case "modification" => row.(modification := v)
    case "name" => row.(name := v)
    case "email" => row.(email := v)
    case _ => row
  }

  /** The row an UPDATE with the SET list of fields leaves behind: every bound
      field, in order, takes its value from the parameters. */
  function WrittenRow(row: Row, fields: seq<string>, p: MySQLAccess.Params): Row
    decreases |fields|
  {
    if fields == [] then row
    else
      var f := fields[0];
      WrittenRow(if MySQLAccess.IsSet(p, f) then SetColumn(row, f, p[f].value) else row, fields[1..], p)
  }

  /** The username column after the SET list of fields: the value of the last
      bound `username` field, or the old key when none is bound. */
  function WrittenKey(key: string, fields: seq<string>, p: MySQLAccess.Params): string
    decreases |fields|
  {
    if fields == [] then key
    else
      var f := fields[0];
      WrittenKey(if f == "username" && MySQLAccess.IsSet(p, f) then p[f].value else key, fields[1..], p)
  }

  /** A SET list that does not name username keeps the key. */
  lemma {:induction false} WrittenKeyUnnamed(key: string, fields: seq<string>, p: MySQLAccess.Params)
    requires "username" !in fields
    ensures WrittenKey(key, fields, p) == key
    decreases |fields|
  {
    if fields != [] {
      assert fields[0] != "username";
      assert forall i :: 0 <= i < |fields[1..]| ==> fields[1..][i] == fields[i + 1];
      WrittenKeyUnnamed(key, fields[1..], p);
    }
  }

  /** A SET list that binds username once moves the row to the bound value. */
  lemma {:induction false} WrittenKeyNamedOnce(key: string, fields: seq<string>, i: nat, p: MySQLAccess.Params)
    requires i < |fields| && fields[i] == "username" && MySQLAccess.IsSet(p, "username")
    requires forall j :: 0 <= j < |fields| && j != i ==> fields[j] != "username"
    ensures WrittenKey(key, fields, p) == p["username"].value
    decreases |fields|
  {
    var rest := fields[1..];
    assert forall j :: 0 <= j < |rest| ==> rest[j] == fields[j + 1];
    if i == 0 {
      assert "username" !in rest;
      WrittenKeyUnnamed(p["username"].value, rest, p);
    } else {
      WrittenKeyNamedOnce(key, rest, i - 1, p);
    }
  }

  lemma {:induction false} WrittenRowAppend(row: Row, a: seq<string>, b: seq<string>, p: MySQLAccess.Params)
    ensures WrittenRow(row, a + b, p) == WrittenRow(WrittenRow(row, a, p), b, p)
    decreases |a|
  {
    if a == [] {
      assert a + b == b;
    } else {
      var f := a[0];
      var next := if MySQLAccess.IsSet(p, f) then SetColumn(row, f, p[f].value) else row;
      assert (a + b)[0] == f && (a + b)[1..] == a[1..] + b;
      WrittenRowAppend(next, a[1..], b, p);
    }
  }

  /** What the UPDATE statement of update writes, read from its fields and its
      parameters, is the row update records: the new digest and now for a
      truthy password, then the truthy name and email; the id stays. */
  lemma UpdateStatementWritesUpdatedRow(c: Crypto, row: Row, hash: string, now: string, password: Option<string>,
                                        name: Option<string>, email: Option<string>)
    requires IsTruthy(password) ==> hash == PasswordHash(c, now, password.value)
    ensures WrittenRow(row, UpdateFields(password, name, email), UpdateParams(hash, now, password, name, email, row.id))
            == UpdatedRow(c, row, now, password, name, email)
  {
    var p := UpdateParams(hash, now, password, name, email, row.id);
    var a: seq<string> := if IsTruthy(password) then ["hash", "modification"] else [];
    var b: seq<string> := if IsTruthy(name) then ["name"] else [];
    var e: seq<string> := if IsTruthy(email) then ["email"] else [];
    UpdateParamsValues(hash, now, password, name, email, row.id);
    WrittenRowAppend(row, a + b, e, p);
    WrittenRowAppend(row, a, b, p);
    var withPassword := WrittenRow(row, a, p);
    if IsTruthy(password) {
      WrittenRowPair(row, "hash", "modification", p);
    }
    var withName := WrittenRow(withPassword, b, p);
    if IsTruthy(name) {
      WrittenRowSingle(withPassword, "name", p);
    }
    if IsTruthy(email) {
      WrittenRowSingle(withName, "email", p);
    }
  }

  /** The values update binds for the fields it lists. */
  lemma UpdateParamsValues(hash: string, now: string, password: Option<string>, name: Option<string>, email: Option<string>, id: nat)
    ensures var p := UpdateParams(hash, now, password, name, email, id);
            && (IsTruthy(password) ==> p["hash"] == Some(hash) && p["modification"] == Some(now))
            && (IsTruthy(name) ==> p["name"] == name)
            && (IsTruthy(email) ==> p["email"] == email)
  {
  }

  lemma WrittenRowSingle(row: Row, f: string, p: MySQLAccess.Params)
    ensures WrittenRow(row, [f], p) == if MySQLAccess.IsSet(p, f) then SetColumn(row, f, p[f].value) else row
  {
    assert [f][1..] == [];
  }

  lemma WrittenRowPair(row: Row, f: string, g: string, p: MySQLAccess.Params)
    ensures var first := if MySQLAccess.IsSet(p, f) then SetColumn(row, f, p[f].value) else row;
            WrittenRow(row, [f, g], p) == if MySQLAccess.IsSet(p, g) then SetColumn(first, g, p[g].value) else first
  {
    assert [f, g] == [f] + [g];
    WrittenRowAppend(row, [f], [g], p);
    WrittenRowSingle(row, f, p);
    var first := if MySQLAccess.IsSet(p, f) then SetColumn(row, f, p[f].value) else row;
    WrittenRowSingle(first, g, p);
  }

  /** The row INSERT starts from: the AUTO_INCREMENT id, every other column
      still to be set by the SET list. */
  function NewRow(id: nat): Row
  {
    Row(id, "", "", "", "")
  }

  /** What the INSERT statement of create writes, read from its fields and
      its parameters, is the row create records: now as salt, the digest, the
      name and the email, under the new id. */
  lemma CreateStatementWritesNewRow(id: nat, now: string, username: string, hash: string, name: string, email: string)
    ensures WrittenRow(NewRow(id), CreateColumns, CreateParams(now, username, hash, name, email))
            == Row(id, now, hash, name, email)
  {
    var p := CreateParams(now, username, hash, name, email);
    assert p["modification"] == Some(now) && p["username"] == Some(username) && p["hash"] == Some(hash);
    assert p["name"] == Some(name) && p["email"] == Some(email);
    assert CreateColumns == ["modification", "username"] + (["hash"] + ["name", "email"]);
    WrittenRowAppend(NewRow(id), ["modification", "username"], ["hash"] + ["name", "email"], p);
    WrittenRowPair(NewRow(id), "modification", "username", p);
    var first := NewRow(id).(modification := now);
    WrittenRowAppend(first, ["hash"], ["name", "email"], p);
    WrittenRowSingle(first, "hash", p);
    WrittenRowPair(first.(hash := hash), "name", "email", p);
  }

  /** The INSERT of create stores its row under the username it binds. */
  lemma CreateStatementWritesKey(key: string, now: string, username: string, hash: string, name: string, email: string)
    ensures WrittenKey(key, CreateColumns, CreateParams(now, username, hash, name, email)) == username
  {
    var p := CreateParams(now, username, hash, name, email);
    assert p["username"] == Some(username);
    WrittenKeyNamedOnce(key, CreateColumns, 1, p);
  }

  /** What the UPDATE statement of login writes, read from its fields and its
      parameters, is the row with the new salt and digest, now stored under the
      username it binds; the id stays. */
  lemma LoginStatementWritesRotatedRow(row: Row, key: string, now: string, username: string, hash: string)
    ensures WrittenRow(row, LoginColumns, LoginParams(now, username, hash, row.id))
            == row.(modification := now, hash := hash)
    ensures WrittenKey(key, LoginColumns, LoginParams(now, username, hash, row.id)) == username
  {
    WrittenKeyNamedOnce(key, LoginColumns, 1, LoginParams(now, username, hash, row.id));
    var p := LoginParams(now, username, hash, row.id);
    assert p["modification"] == Some(now) && p["username"] == Some(username) && p["hash"] == Some(hash);
    assert LoginColumns == ["modification"] + ["username", "hash"];
    WrittenRowAppend(row, ["modification"], ["username", "hash"], p);
    WrittenRowSingle(row, "modification", p);
    WrittenRowPair(row.(modification := now), "username", "hash", p);
  }

  /** Every field update lists is a column, and has its value in the parameters. */
  lemma UpdateFieldsAreSet(hash: string, now: string, password: Option<string>, name: Option<string>, email: Option<string>, id: nat)
    ensures forall f :: f in UpdateFields(password, name, email) ==>
              f in {"hash", "modification", "name", "email"} && MySQLAccess.IsSet(UpdateParams(hash, now, password, name, email, id), f)
  {
    var p := UpdateParams(hash, now, password, name, email, id);
    forall f | f in UpdateFields(password, name, email)
      ensures f in {"hash", "modification", "name", "email"} && MySQLAccess.IsSet(p, f)
    {
      if IsTruthy(password) && f in ["hash", "modification"] {
        assert f == "hash" || f == "modification";
      } else if IsTruthy(name) && f in ["name"] {
        assert f == "name";
      } else {
        assert IsTruthy(email) && f == "email";
      }
    }
  }

  // ---------------------------------------------------------------------------
  // The API object: the users table as its state.

  /** What the API object keeps between calls. */
  ghost predicate Invariant(c: Crypto, t: Table, passwords: map<string, string>)
  {
    WellFormed(c) && TableInvariant(t) && HashInvariant(c, t, passwords)
  }

  /** Inserting a row for a fresh, trimmed, non-empty username with the next
      id and a digest of password p keeps the invariant. */
  lemma InsertKeepsInvariant(c: Crypto, t: Table, passwords: map<string, string>, u: string, row: Row, p: string)
    requires Invariant(c, t, passwords)
    requires u !in t.rows && u != "" && IsTrimmed(u) && row.id == t.nextId
    requires row.hash == PasswordHash(c, row.modification, p)
    ensures Invariant(c, Table(t.rows[u := row], t.nextId + 1), passwords[u := p])
  {
    InsertKeepsTableInvariant(t, u, row);
    StoreKeepsHashInvariant(c, t, passwords, u, row, p, t.nextId + 1);
  }

  /** Rewriting a row in place, with its id and a digest of password p, keeps the invariant. */
  lemma ReplaceKeepsInvariant(c: Crypto, t: Table, passwords: map<string, string>, u: string, row: Row, p: string)
    requires Invariant(c, t, passwords)
    requires u in t.rows && row.id == t.rows[u].id
    requires row.hash == PasswordHash(c, row.modification, p)
    ensures Invariant(c, Table(t.rows[u := row], t.nextId), passwords[u := p])
  {
    ReplaceKeepsTableInvariant(t, u, row);
    StoreKeepsHashInvariant(c, t, passwords, u, row, p, t.nextId);
  }
}
