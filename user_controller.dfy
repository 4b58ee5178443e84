/** The account handlers (controllers/userController.js): registration, login and the admin
    listing. The bcrypt and JWT primitives are parameters: `hash` and `compare` stand for
    bcrypt, `sign` for signing with the server secret and a one-day expiry counted from the
    instant it is given (the token carries that instant); the comparison and the signing may
    throw. */
module UserController {

  import opened Tables
  import opened JsValues
  import opened UserModel

  /** The payload put into a token. */
  datatype Claims = Claims(id: nat, role: string)

  const UserExists := "User already exists"
  const InvalidCredentials := "Invalid credentials"
  const AccessDenied := "Access denied. Admin privileges required."
  const ServerError := "Server error"

  datatype RegisterResponse = Registered(user: PublicUser, token: string) | RegisterFailed(status: nat, message: string)
  {
    function Status(): nat {
      if Registered? then 201 else status
    }
  }

  datatype LoginResponse = LoggedIn(user: UserObject, token: string) | LoginFailed(status: nat, message: string)
  {
    function Status(): nat {
      if LoggedIn? then 200 else status
    }
  }

  datatype UsersResponse = UserList(users: seq<PublicUser>) | UsersDenied(status: nat, message: string)
  {
    function Status(): nat {
      if UserList? then 200 else status
    }
  }

  /** No two accounts share an e-mail address. */
  ghost predicate EmailsUnique(rows: seq<UserRow>) {
    forall i, j :: 0 <= i < j < |rows| ==> rows[i].email != rows[j].email
  }

  /** `register`: refuses an e-mail that is taken with 400 and leaves the table alone; a
      failure before the row exists (hashing or the insert) answers 500 and leaves the table
      alone; otherwise RegisterNew inserts the user, and a signing failure after the insert
      answers 500 with the new row kept, so that a retry is refused as a taken e-mail.
      Registration keeps e-mails unique. `now` stamps the row; `signedAt` is the instant of
      signing. */
  method Register(users: UserTable, name: string, email: string, password: string, role: Option<string>,
                  hash: string -> string, compare: (string, string) -> Completion<bool>,
                  sign: (Claims, string) -> Completion<string>, now: string, signedAt: string, insertFails: bool)
    returns (resp: RegisterResponse)
    requires users.Valid()
    modifies users
    ensures users.Valid()
    ensures old(users.FindByEmail(email)).Some? ==>
      resp == RegisterFailed(400, UserExists) && users.rows == old(users.rows) && users.nextId == old(users.nextId)
    ensures old(users.FindByEmail(email)).None? && insertFails ==>
      resp == RegisterFailed(500, ServerError) && users.rows == old(users.rows) && users.nextId == old(users.nextId)
    ensures old(users.FindByEmail(email)).None? && !insertFails ==>
      var row := UserRow(old(users.nextId), name, email, hash(password), RoleOrDefault(role), now, users.columnDefaults);
      && users.rows == old(users.rows) + [row] && users.nextId == old(users.nextId) + 1
      && users.FindByEmail(email).Some?
      && (sign(Claims(row.id, row.role), signedAt).Ok? ==>
            resp == Registered(Public(row), sign(Claims(row.id, row.role), signedAt).value))
      && (sign(Claims(row.id, row.role), signedAt).Throw? ==> resp == RegisterFailed(500, ServerError))
    ensures EmailsUnique(old(users.rows)) ==> EmailsUnique(users.rows)
  {
    var existing := users.FindByEmail(email);
    if existing.Some? {
      return RegisterFailed(400, UserExists);
    }
    if insertFails {
      return RegisterFailed(500, ServerError);
    }
    resp := RegisterNew(users, name, email, password, role, hash, compare, sign, now, signedAt);
  }

  /** The rest of `register` for an e-mail no user has: inserts the user, then answers 201 with
      its public projection and a token for its id and role, or 500 when signing throws, with
      the row kept either way. `now` is the database clock that stamps the row and `signedAt`
      the instant of signing. The new user can then log in with the same password at any
      instant the signing succeeds, and receives a token for the same id and role signed at
      that instant. */
  method RegisterNew(users: UserTable, name: string, email: string, password: string, role: Option<string>,
                     hash: string -> string, compare: (string, string) -> Completion<bool>,
                     sign: (Claims, string) -> Completion<string>, now: string, signedAt: string)
    returns (resp: RegisterResponse)
    requires users.Valid() && users.FindByEmail(email).None?
    modifies users
    ensures users.Valid()
    ensures users.rows == old(users.rows) +
      [UserRow(old(users.nextId), name, email, hash(password), RoleOrDefault(role), now, users.columnDefaults)]
    ensures users.nextId == old(users.nextId) + 1
    ensures users.FindByEmail(email) == Some(users.rows[|users.rows| - 1])
    ensures var token := sign(Claims(old(users.nextId), RoleOrDefault(role)), signedAt);
      && (token.Ok? ==> resp == Registered(Public(users.rows[|users.rows| - 1]), token.value))
      && (token.Throw? ==> resp == RegisterFailed(500, ServerError))
    ensures compare(password, hash(password)) == Ok(true) ==>
      forall loginAt :: sign(Claims(old(users.nextId), RoleOrDefault(role)), loginAt).Ok? ==>
        Login(users, email, password, compare, sign, loginAt) ==
          LoggedIn(AsObject(users.rows[|users.rows| - 1]) - {"password"},
                   sign(Claims(old(users.nextId), RoleOrDefault(role)), loginAt).value)
    ensures EmailsUnique(old(users.rows)) ==> EmailsUnique(users.rows)
  {
    ghost var before := users.rows;
    var userId := users.Create(name, email, password, role, hash, now);
    var user := users.FindById(userId);
    ghost var row := users.rows[|users.rows| - 1];
    var token := sign(Claims(userId, user.value.role), signedAt);
    if token.Throw? {
      resp := RegisterFailed(500, ServerError);
    } else {
      resp := Registered(user.value, token.value);
    }
    forall loginAt {
      NewUserCanLogIn(users, email, password, compare, sign, loginAt);
    }
    UniqueAfterFreshEmail(before, row);
  }

  /** A fresh e-mail keeps e-mails unique. */
  lemma UniqueAfterFreshEmail(rows: seq<UserRow>, row: UserRow)
    requires forall i :: 0 <= i < |rows| ==> rows[i].email != row.email
    ensures EmailsUnique(rows) ==> EmailsUnique(rows + [row])
  {
  }

  /** A user whose password matches the stored hash logs in as that user, unless signing
      throws. */
  lemma NewUserCanLogIn(users: UserTable, email: string, password: string,
                        compare: (string, string) -> Completion<bool>, sign: (Claims, string) -> Completion<string>,
                        loginAt: string)
    requires users.FindByEmail(email).Some?
    ensures var row := users.FindByEmail(email).value;
      var token := sign(Claims(row.id, row.role), loginAt);
      compare(password, row.password) == Ok(true) && token.Ok? ==>
        Login(users, email, password, compare, sign, loginAt) == LoggedIn(AsObject(row) - {"password"}, token.value)
  {
  }

  /** `login` at instant `now`: 400 "Invalid credentials" when no user has this e-mail or the password does not
      match its hash; 500 "Server error" when the comparison rejects (a body without a password)
      or signing throws; otherwise the token for that user's id and role signed at `now`, and the user's row
      with exactly the password removed, which keeps every column `findById` shows. */
  function Login(users: UserTable, email: string, password: string,
                 compare: (string, string) -> Completion<bool>, sign: (Claims, string) -> Completion<string>,
                 now: string): (r: LoginResponse)
    reads users
    ensures r.LoginFailed? ==> r == LoginFailed(400, InvalidCredentials) || r == LoginFailed(500, ServerError)
    ensures r == LoginFailed(400, InvalidCredentials) <==>
      users.FindByEmail(email).None? || compare(password, users.FindByEmail(email).value.password) == Ok(false)
    ensures r == LoginFailed(500, ServerError) <==>
      && users.FindByEmail(email).Some?
      && var row := users.FindByEmail(email).value;
         || compare(password, row.password).Throw?
         || (compare(password, row.password) == Ok(true) && sign(Claims(row.id, row.role), now).Throw?)
    ensures r.LoggedIn? <==>
      && users.FindByEmail(email).Some?
      && var row := users.FindByEmail(email).value;
         compare(password, row.password) == Ok(true) && sign(Claims(row.id, row.role), now).Ok?
    ensures r.LoggedIn? ==>
      var row := users.FindByEmail(email).value;
      && r.token == sign(Claims(row.id, row.role), now).value
      && "password" !in r.user
      && r.user.Keys == AsObject(row).Keys - {"password"}
      && (forall k :: k in r.user ==> r.user[k] == AsObject(row)[k])
  {
    match users.FindByEmail(email)
    case None => LoginFailed(400, InvalidCredentials)
    case Some(user) =>
      match compare(password, user.password)
      case Throw(_) => LoginFailed(500, ServerError)
      case Ok(isMatch) =>
        if !isMatch then LoginFailed(400, InvalidCredentials)
        else match sign(Claims(user.id, user.role), now)
          case Throw(_) => LoginFailed(500, ServerError)
          case Ok(token) => LoggedIn(AsObject(user) - {"password"}, token)
  }

  /** The user object a login answers includes every column `findById` shows, with the same
      values. */
  lemma LoginKeepsPublicColumns(users: UserTable, email: string, password: string,
                                compare: (string, string) -> Completion<bool>, sign: (Claims, string) -> Completion<string>,
                                now: string)
    requires Login(users, email, password, compare, sign, now).LoggedIn?
    ensures var u := Login(users, email, password, compare, sign, now).user;
      var p := Public(users.FindByEmail(email).value).AsObject();
      forall k :: k in p ==> k in u && u[k] == p[k]
  {
  }

  /** The row id a JavaScript value names when passed as a query parameter. */
  function RowId(v: JsValue): (r: Option<nat>)
    ensures r.Some? ==> v == Num(r.value as real)
  {
    if v.Num? && v.n >= 0.0 && v.n.Floor as real == v.n then Some(v.n.Floor as nat) else None
  }

  lemma RowIdOfNat(n: nat)
    ensures RowId(Num(n as real)) == Some(n)
  {
  }

  /** The requesting user's public row, if `req.user.id` names one. */
  function Requester(users: UserTable, requesterId: JsValue): (r: Option<PublicUser>)
    reads users
    ensures r.Some? ==> RowId(requesterId).Some? && r == users.FindById(RowId(requesterId).value)
    ensures RowId(requesterId).Some? ==> r == users.FindById(RowId(requesterId).value)
  {
    match RowId(requesterId)
    case None => None
    case Some(id) => users.FindById(id)
  }

  /** `getAllUsers` as written: an unknown requester makes `requestingUser.role` throw (500), a
      non-admin gets 403, and an admin reaches `userModel.findAll`, which userModel.js does not
      define, so the call throws and the answer is 500 too. */
  function GetAllUsersAsWritten(users: UserTable, requesterId: JsValue): (r: UsersResponse)
    reads users
    ensures r.UsersDenied?
    ensures r.status == 403 <==>
      Requester(users, requesterId).Some? && Requester(users, requesterId).value.role != "admin"
    ensures r.status == 403 ==> r.message == AccessDenied
    ensures r.status != 403 ==> r == UsersDenied(500, ServerError)
  {
    match Requester(users, requesterId)
    case None => UsersDenied(500, ServerError)
    case Some(requestingUser) =>
      if requestingUser.role != "admin" then UsersDenied(403, AccessDenied)
      else UsersDenied(500, ServerError)
  }

  /** `getAllUsers` with the listing it evidently calls for: an admin gets every user's public
      projection, a non-admin 403 and an unknown requester 500. */
  function GetAllUsers(users: UserTable, requesterId: JsValue): (r: UsersResponse)
    reads users
    ensures r.UserList? <==>
      Requester(users, requesterId).Some? && Requester(users, requesterId).value.role == "admin"
    ensures r.UserList? ==> r.users == users.FindAll() && forall u :: u in r.users ==> "password" !in u.AsObject()
    ensures r.UsersDenied? ==> r == GetAllUsersAsWritten(users, requesterId)
  {
    match Requester(users, requesterId)
    case None => UsersDenied(500, ServerError)
    case Some(requestingUser) =>
      if requestingUser.role != "admin" then UsersDenied(403, AccessDenied)
      else UserList(users.FindAll())
  }

  /** An admin's request exhibits the missing accessor: as written it fails with 500, while the
      intended handler lists the users. */
  lemma AdminListingFailsAsWritten(users: UserTable, i: nat)
    requires i < |users.rows| && users.rows[i].role == "admin" && users.Valid()
    ensures GetAllUsersAsWritten(users, Num(users.rows[i].id as real)) == UsersDenied(500, ServerError)
    ensures GetAllUsers(users, Num(users.rows[i].id as real)) == UserList(users.FindAll())
  {
    var id := users.rows[i].id;
    assert RowId(Num(id as real)) == Some(id);
    var u := users.FindById(id);
    assert u.Some?;
    var k :| 0 <= k < |users.rows| && users.rows[k].id == id && u.value == Public(users.rows[k]);
    assert users.Ids()[k] == users.Ids()[i];
    FreshIdsUnique(users.Ids(), users.nextId, k, i);
  }
}
