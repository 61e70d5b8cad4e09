/**
 * The decision logic of the login and registration handlers
 * (api/handler/auth.go). The parsed request body and the repository lookups
 * are inputs: a Failure carries the error's text. Signing the token is a
 * parameter.
 */
module Auth {
  import opened Wrappers
  import Strings = Text

  datatype LoginInfo = LoginInfo(email: string, password: string)

  /** A row of `admins` as the lookup returns it. */
  datatype AdminRow = AdminRow(id: string, email: string, password: string)

  /** A row of `users` as the lookup returns it; `status` false marks an inactive account. */
  datatype AccountRow = AccountRow(id: string, email: string, password: string, status: bool)

  datatype CreateUser = CreateUser(name: string, email: string, password: string)

  /** The error text the repositories report for a lookup that found nothing. */
  const NoRowsText := "no rows in result set"

  /** The `data` of a handler response. */
  datatype Data = Text(text: string) | Nil | Account(row: AccountRow)

  datatype Reply =
    | Reply(status: int, description: string, data: Data)
    | LoggedIn(token: string, role: string, userId: string)

  /** The HTTP status of a reply; a login answers 201 Created. */
  function StatusOf(r: Reply): int {
    if r.LoggedIn? then 201 else r.status
  }

  // ---------------------------------------------------------------------------
  // Login
  // ---------------------------------------------------------------------------

  /**
   * Login: the admin table is tried first and any error there falls through
   * to the users table. A found user must be active; the stored password
   * must equal the given one. `sign` makes the token from the user id and
   * the role.
   */
  function Login(body: Result<LoginInfo, string>, admin: Result<AdminRow, string>, user: Result<AccountRow, string>,
                 sign: (string, string) -> string): (r: Reply)
    ensures body.Failure? ==> r == Reply(400, "create user", Text(body.error))
    ensures r.LoggedIn? <==>
      && body.Success?
      && (|| (admin.Success? && body.value.password == admin.value.password)
          || (admin.Failure? && user.Success? && user.value.status && body.value.password == user.value.password))
    ensures r.LoggedIn? && admin.Success? ==> r.role == "admin" && r.userId == admin.value.id
    ensures r.LoggedIn? && admin.Failure? ==> r.role == "user" && r.userId == user.value.id
    ensures r.LoggedIn? ==> r.token == sign(r.userId, r.role)
    ensures StatusOf(r) in {201, 400, 403, 500}
  {
    if body.Failure? then Reply(400, "create user", Text(body.error))
    else
      var login := body.value;
      var found: Result<(string, string, string), Reply> :=
        if admin.Success? then Success((admin.value.id, "admin", admin.value.password))
        else if user.Success? then
          if !user.value.status then Failure(Reply(403, "Account is inactive", Text("Account is inactive")))
          else Success((user.value.id, "user", user.value.password))
        else if user.error == NoRowsText then Failure(Reply(400, "User does not exist", Text("User does not exist")))
        else Failure(Reply(500, "storage.user.getByID", Text(user.error)));
      match found
      case Failure(reply) => reply
      case Success((userId, role, passw)) =>
        if login.password != passw then Reply(400, "Wrong password", Text("Wrong password"))
        else LoggedIn(sign(userId, role), role, userId)
  }

  /** A successful admin lookup decides the outcome: the users table is never consulted. */
  lemma AdminFirst(body: Result<LoginInfo, string>, admin: Result<AdminRow, string>,
                   user1: Result<AccountRow, string>, user2: Result<AccountRow, string>, sign: (string, string) -> string)
    requires admin.Success?
    ensures Login(body, admin, user1, sign) == Login(body, admin, user2, sign)
  {
  }

  /** An inactive account is refused with 403 whatever password is given. */
  lemma InactiveBeforePassword(email: string, password: string, adminError: string, user: AccountRow,
                               sign: (string, string) -> string)
    requires !user.status
    ensures Login(Success(LoginInfo(email, password)), Failure(adminError), Success(user), sign)
      == Reply(403, "Account is inactive", Text("Account is inactive"))
  {
  }

  /** With neither an admin nor a user, only the exact no-rows text means "does not exist"; any other error is a 500 carrying it. */
  lemma LookupFailures(info: LoginInfo, adminError: string, userError: string, sign: (string, string) -> string)
    ensures var r := Login(Success(info), Failure(adminError), Failure(userError), sign);
      && (userError == NoRowsText ==> r == Reply(400, "User does not exist", Text("User does not exist")))
      && (userError != NoRowsText ==> r == Reply(500, "storage.user.getByID", Text(userError)))
  {
  }

  /** A wrong password for a found, usable account is a 400. */
  lemma WrongPassword(info: LoginInfo, admin: Result<AdminRow, string>, user: Result<AccountRow, string>,
                      sign: (string, string) -> string)
    requires admin.Success? ==> info.password != admin.value.password
    requires admin.Failure? ==> user.Success? && user.value.status && info.password != user.value.password
    ensures Login(Success(info), admin, user, sign) == Reply(400, "Wrong password", Text("Wrong password"))
  {
  }

  // ---------------------------------------------------------------------------
  // Register
  // ---------------------------------------------------------------------------

  /** The length check: `len` counts UTF-8 bytes, and fewer than 7 is refused. */
  predicate PasswordTooShort(password: string) {
    Strings.ByteLength(password) < 7
  }

  /**
   * Register: the body must parse and the password be at least 7 long; the
   * email must be unknown (the lookup fails with the no-rows text), then the
   * account is created (`create` gives the new id) and read back by that id,
   * whose error is ignored: the reply carries the row, or nil.
   */
  function Register(body: Result<CreateUser, string>, lookup: Result<AccountRow, string>,
                    create: Result<string, string>, reread: string -> Result<AccountRow, string>): (r: Reply)
    ensures r.Reply?
    ensures r.status == 201 <==>
      body.Success? && !PasswordTooShort(body.value.password)
      && lookup.Failure? && lookup.error == NoRowsText && create.Success?
    ensures r.status == 201 ==> r.data == (match reread(create.value) case Success(row) => Account(row) case Failure(_) => Nil)
    ensures r.status in {201, 400, 500}
    ensures body.Success? && !PasswordTooShort(body.value.password) && lookup.Success? ==>
      r == Reply(400, "User already exist", Nil)
  {
    if body.Failure? then Reply(400, "error user should bind json", Text(body.error))
    else if PasswordTooShort(body.value.password) then
      Reply(400, "Password should inculude more than 7 elements", Text("Password len should inculude more than 8 elements"))
    else if lookup.Failure? then
      if lookup.error == NoRowsText then
        match create
        case Failure(e) => Reply(500, "storage.user.create", Text(e))
        case Success(id) =>
          Reply(201, "create user resposne", match reread(id) case Success(row) => Account(row) case Failure(_) => Nil)
      else Reply(500, "User already exist", Text(lookup.error))
    else Reply(400, "User already exist", Nil)
  }

  /**
   * The check is "shorter than 7", so a password of exactly 7 characters
   * passes it despite the message asking for more; so does any password of 7
   * or more characters, and one of fewer characters with at least 7 bytes.
   */
  lemma SevenCharactersAccepted(name: string, email: string, password: string, create: string,
                                reread: string -> Result<AccountRow, string>)
    requires |password| >= 7
    ensures Register(Success(CreateUser(name, email, password)), Failure(NoRowsText), Success(create), reread).status == 201
  {
    Strings.ByteLengthBounds(password);
  }

  /** "éééé" has four characters but eight bytes, so the length check lets it through. */
  lemma MultiByteAccepted(name: string, email: string, create: string, reread: string -> Result<AccountRow, string>)
    ensures Register(Success(CreateUser(name, email, "\U{e9}\U{e9}\U{e9}\U{e9}")), Failure(NoRowsText), Success(create), reread).status == 201
  {
    var p := "\U{e9}\U{e9}\U{e9}\U{e9}";
    assert p[1..][1..][1..][1..] == [];
    assert Strings.ByteLength(p) == 8;
  }

  /** A short password is refused before the repository is consulted. */
  lemma ShortPasswordNoLookup(info: CreateUser, lookup1: Result<AccountRow, string>, lookup2: Result<AccountRow, string>,
                              create1: Result<string, string>, create2: Result<string, string>,
                              reread: string -> Result<AccountRow, string>)
    requires PasswordTooShort(info.password)
    ensures Register(Success(info), lookup1, create1, reread) == Register(Success(info), lookup2, create2, reread)
    ensures Register(Success(info), lookup1, create1, reread).status == 400
  {
  }

  /** A lookup error other than no-rows is a 500 and nothing is created. */
  lemma OtherLookupErrorNoCreate(info: CreateUser, e: string, create1: Result<string, string>, create2: Result<string, string>,
                                 reread: string -> Result<AccountRow, string>)
    requires !PasswordTooShort(info.password) && e != NoRowsText
    ensures Register(Success(info), Failure(e), create1, reread) == Register(Success(info), Failure(e), create2, reread)
    ensures Register(Success(info), Failure(e), create1, reread) == Reply(500, "User already exist", Text(e))
  {
  }
}
