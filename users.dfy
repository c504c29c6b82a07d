/** The API object of Api/Users/Users.php: the users table is its state, and
    each operation reads it and writes it step by step; every method is proved
    to have exactly the outcome the matching function of UsersModel gives. */
module UsersApi {
  import opened Wrappers
  import opened Php
  import opened UsersModel
  import MySQLAccess

  /** The input checks at the head of create: each missing field, and an
      address the filter rejects, appends its line to the error text. */
  method CollectCreateErrors(c: Crypto, data: Data)
    returns (error: string, username: Option<string>, password: Option<string>, name: Option<string>, email: Option<string>)
    ensures error == CreateErrors(c, data)
    ensures username == Trimmed(data.username) && password == Trimmed(data.password)
    ensures name == Trimmed(data.name) && email == EmailFilter(c, Trimmed(data.email))
    ensures error == "" <==> !Blank(username) && !Blank(password) && !Blank(name) && email.Some?
  {
    username := Trimmed(data.username);
    password := Trimmed(data.password);
    name := Trimmed(data.name);
    email := Trimmed(data.email);

    error := "";
    if Blank(username) {
      error := error + "Username is required\r\n";
    }
    assert error == Require(!Blank(username), "Username is required\r\n");
    if Blank(password) {
      error := error + "Password is required\r\n";
    }
    assert error == Require(!Blank(username), "Username is required\r\n") + Require(!Blank(password), "Password is required\r\n");
    if Blank(name) {
      error := error + "Name is required\r\n";
    }
    assert error == Require(!Blank(username), "Username is required\r\n") + Require(!Blank(password), "Password is required\r\n")
                    + Require(!Blank(name), "Name is required\r\n");
    email := EmailFilter(c, email);
    if email.None? {
      error := error + "Email is invalid\r\n";
    }
  }

  /** The input checks at the head of login. */
  method CollectLoginErrors(data: Data) returns (error: string, username: Option<string>, password: Option<string>)
    ensures error == LoginErrors(data)
    ensures username == Trimmed(data.username) && password == Trimmed(data.password)
    ensures error == "" <==> !Blank(username) && !Blank(password)
  {
    username := Trimmed(data.username);
    password := Trimmed(data.password);

    error := "";
    if Blank(username) {
      error := error + "Username is required\r\n";
    }
    assert error == Require(!Blank(username), "Username is required\r\n");
    if Blank(password) {
      error := error + "Password is required\r\n";
    }
  }

  /** The input checks at the head of validate. */
  method CollectValidateErrors(data: Data) returns (error: string, username: Option<string>, token: Option<string>)
    ensures error == ValidateErrors(data)
    ensures username == Trimmed(data.username) && token == Trimmed(data.token)
    ensures error == "" <==> !Blank(username) && !Blank(token)
  {
    username := Trimmed(data.username);
    token := Trimmed(data.token);

    error := "";
    if Blank(username) {
      error := error + "Username is required\r\n";
    }
    assert error == Require(!Blank(username), "Username is required\r\n");
    if Blank(token) {
      error := error + "Token is required\r\n";
    }
  }

  /** The $fields and $fdata arrays update grows for the fields it writes. */
  method CollectUpdateFields(hash: string, now: string, password: Option<string>, name: Option<string>, email: Option<string>)
    returns (fields: seq<string>, fdata: MySQLAccess.Params)
    ensures fields == UpdateFields(password, name, email)
    ensures fdata == UpdateSetParams(hash, now, password, name, email)
  {
    fields := [];
    fdata := map[];
    if IsTruthy(password) {
      fields := fields + ["hash"];
      fdata := fdata["hash" := Some(hash)];
      fields := fields + ["modification"];
      fdata := fdata["modification" := Some(now)];
    }
    if IsTruthy(name) {
      fields := fields + ["name"];
      fdata := fdata["name" := name];
    }
    if IsTruthy(email) {
      fields := fields + ["email"];
      fdata := fdata["email" := email];
    }
  }

  class Users {
    const crypto: Crypto
    var rows: map<string, Row>
    var nextId: nat
    /** The password last set for each user; never stored, only used to state the digest invariant. */
    ghost var passwords: map<string, string>

    ghost predicate Valid()
      reads this
    {
      Invariant(crypto, State(), passwords)
    }

    function State(): Table
      reads this
    {
      Table(rows, nextId)
    }

    constructor (crypto: Crypto, table: Table, ghost passwords: map<string, string>)
      requires WellFormed(crypto) && TableInvariant(table) && HashInvariant(crypto, table, passwords)
      ensures Valid() && State() == table && this.crypto == crypto && this.passwords == passwords
    {
      this.crypto := crypto;
      rows := table.rows;
      nextId := table.nextId;
      this.passwords := passwords;
    }

    /** INSERT INTO users: stores row under the fresh, trimmed username u with
        the next AUTO_INCREMENT id; p is the password the row's digest is of. */
    method Insert(u: string, row: Row, ghost p: string)
      requires Valid()
      requires u !in rows && u != "" && IsTrimmed(u) && row.id == nextId
      requires row.hash == PasswordHash(crypto, row.modification, p)
      modifies this
      ensures Valid()
      ensures rows == old(rows)[u := row] && nextId == old(nextId) + 1 && passwords == old(passwords)[u := p]
    {
      InsertKeepsInvariant(crypto, State(), passwords, u, row, p);
      rows := rows[u := row];
      nextId := nextId + 1;
      passwords := passwords[u := p];
    }

    /** UPDATE users … WHERE id=:id: rewrites u's row, keeping its id; p is
        the password the new digest is of. */
    method Replace(u: string, row: Row, ghost p: string)
      requires Valid()
      requires u in rows && row.id == rows[u].id
      requires row.hash == PasswordHash(crypto, row.modification, p)
      modifies this
      ensures Valid()
      ensures rows == old(rows)[u := row] && nextId == old(nextId) && passwords == old(passwords)[u := p]
    {
      ReplaceKeepsInvariant(crypto, State(), passwords, u, row, p);
      rows := rows[u := row];
      passwords := passwords[u := p];
    }

    method Create(data: Data, now: string) returns (r: Result<Payload, string>)
      requires Valid()
      modifies this
      ensures Valid()
      ensures State() == CreateOutcome(crypto, old(State()), data, now).table
      ensures r == CreateOutcome(crypto, old(State()), data, now).response
      ensures r.Success? ==> passwords == old(passwords)[Trimmed(data.username).value := Trimmed(data.password).value]
      ensures r.Failure? ==> passwords == old(passwords)
    {
      ghost var before := State();
      var error, username, password, name, email := CollectCreateErrors(crypto, data);
      if error != "" {
        return Failure(error);
      }

      if username.value in rows {
        CreateRejectsExistingUser(crypto, before, data, now);
        return Failure("User " + username.value + " already exists");
      }
      if nextId == 0 {
        return Failure("Unable to insert new user into the database");
      }
      CreateAddsOneRow(crypto, before, data, now);
      var token := StoreNewUser(username.value, password.value, name.value, email.value, now);
      r := Success(Token(token));
    }

    /** The second half of create: the digest of the password under now, the
        INSERT of $fields and $fdata, and the token of now. It stores exactly
        the row, and under exactly the key, that the statement writes. */
    method StoreNewUser(username: string, password: string, name: string, email: string, now: string) returns (token: string)
      requires Valid()
      requires username !in rows && username != "" && IsTrimmed(username) && nextId != 0
      modifies this
      ensures Valid()
      ensures rows == old(rows)[username := Row(old(nextId), now, PasswordHash(crypto, now, password), name, email)]
      ensures nextId == old(nextId) + 1 && passwords == old(passwords)[username := password]
      ensures token == SessionToken(crypto, now, username)
    {
      var hash := PasswordHash(crypto, now, password);
      var fields, fdata := CreateColumns, CreateParams(now, username, hash, name, email);
      // the row and the username column the INSERT ... SET of $fields and $fdata writes
      var row := WrittenRow(NewRow(nextId), fields, fdata);
      CreateStatementWritesNewRow(nextId, now, username, hash, name, email);
      var key := WrittenKey("", fields, fdata);
      CreateStatementWritesKey("", now, username, hash, name, email);
      Insert(key, row, password);
      token := SessionToken(crypto, now, username);
    }

    method Login(data: Data, now: string) returns (r: Result<Payload, string>)
      requires Valid()
      modifies this
      ensures Valid()
      ensures State() == LoginOutcome(crypto, old(State()), data, now).table
      ensures r == LoginOutcome(crypto, old(State()), data, now).response
      ensures r.Success? ==> passwords == old(passwords)[Trimmed(data.username).value := Trimmed(data.password).value]
      ensures r.Failure? ==> passwords == old(passwords)
    {
      ghost var before := State();
      var error, username, password := CollectLoginErrors(data);
      if error != "" {
        return Failure(error);
      }

      if !(username.value in rows && rows[username.value].hash == PasswordHash(crypto, rows[username.value].modification, password.value)) {
        return Failure(InvalidCredentials);
      }
      var row := rows[username.value];
      var hash := PasswordHash(crypto, now, password.value);
      // the row the UPDATE ... SET of $fields and $fdata leaves behind
      var rotated := WrittenRow(row, LoginColumns, LoginParams(now, username.value, hash, row.id));
      LoginStatementWritesRotatedRow(row, username.value, now, username.value, hash);
      var key := WrittenKey(username.value, LoginColumns, LoginParams(now, username.value, hash, row.id));
      if rotated == row {
        return Failure("Unable to update user in the database");
      }
      Replace(key, rotated, password.value);
      r := Success(Token(SessionToken(crypto, now, username.value)));
    }

    /** validate reads the table and never writes it. */
    method Validate(data: Data) returns (r: Result<Payload, string>)
      requires Valid()
      ensures r == ValidateResponse(crypto, State(), data)
    {
      var error, username, token := CollectValidateErrors(data);
      if error != "" {
        return Failure(error);
      }

      if username.value !in rows {
        return Failure(InvalidCredentials);
      }
      var salt := rows[username.value].modification;
      var validated := token.value == SessionToken(crypto, salt, username.value);
      if !validated {
        return Failure(InvalidCredentials);
      }
      r := Success(Validated(validated));
    }

    method Account(data: Data) returns (r: Result<Payload, string>)
      requires Valid()
      ensures r == AccountResponse(crypto, State(), data)
    {
      var validated := Validate(data);
      if validated.Failure? {
        return Failure(validated.error);
      }
      if !validated.value.validated {
        return Failure(InvalidCredentials);
      }
      if data.username.None? {
        return Failure("Username is required");
      }
      var username := data.username.value;
      if username !in rows {
        return Failure("User " + username + " does not exists");
      }
      var row := rows[username];
      r := Success(Payload.Account(row.name, row.modification, row.email));
    }

    method Update(data: Data, now: string) returns (r: Result<Payload, string>)
      requires Valid()
      modifies this
      ensures Valid()
      ensures State() == UpdateOutcome(crypto, old(State()), data, now).table
      ensures r == UpdateOutcome(crypto, old(State()), data, now).response
      ensures r.Success? ==> passwords == PasswordsAfterUpdate(old(passwords), data)
      ensures r.Failure? ==> passwords == old(passwords)
    {
      ghost var before := State();
      var validated := Validate(data);
      if validated.Failure? {
        return Failure(validated.error);
      }
      if !validated.value.validated {
        return Failure(InvalidCredentials);
      }

      var username := data.username;
      var password := Trimmed(data.password);
      var name := Trimmed(data.name);
      var email := Trimmed(data.email);
      if username.None? {
        return Failure("Username is required");
      }
      email := EmailFilter(crypto, email);
      if email.None? {
        return Failure("Email is invalid");
      }
      if username.value !in rows {
        return Failure("User " + username.value + " does not exists");
      }
      var row := rows[username.value];

      var hash := "";
      if IsTruthy(password) {
        hash := PasswordHash(crypto, now, password.value);
      }
      var fields, fdata := CollectUpdateFields(hash, now, password, name, email);

      if |fields| > 0 {
        fdata := fdata["id" := Some(Decimal(row.id))];
        // the row the UPDATE leaves behind; rowCount() counts it when it differs
        var changed := WrittenRow(row, fields, fdata);
        UpdateStatementWritesUpdatedRow(crypto, row, hash, now, password, name, email);
        ghost var p := if IsTruthy(password) then password.value else passwords[username.value];
        assert passwords[username.value := passwords[username.value]] == passwords;
        Replace(username.value, changed, p);
        r := Success(Updated(changed != row, IsTruthy(password)));
      } else {
        r := Success(Updated(false, false));
      }
    }

    /** processMode: dispatch on the action; 406 for any other. */
    method ProcessMode(args: Args, now: string) returns (r: Result<Payload, string>)
      requires Valid()
      modifies this
      ensures Valid()
      ensures State() == ProcessOutcome(crypto, old(State()), args, now).table
      ensures r == ProcessOutcome(crypto, old(State()), args, now).response
      ensures passwords == ProcessPasswords(crypto, old(State()), old(passwords), args, now)
    {
      r := Success(Status(406, "No content available for action requested"));
      var action := if args.action.Some? then args.action.value else "";
      match action {
        case "account" => r := Account(args.data);
        case "create" => r := Create(args.data, now);
        case "login" => r := Login(args.data, now);
        case "update" => r := Update(args.data, now);
        case "validate" => r := Validate(args.data);
        case _ =>
      }
    }
  }
}
