/** The identity service: `register`, `login` and `verify` over the `users`
    table (auth-service/app.py). The table is a `UserStore` object that
    `register` updates; `login` and `verify` only read, so they are functions
    of the rows, the request, the secret and the clock. */
module AuthService {
  import opened Http
  import opened Tokens
  import opened Bearer

  /** The random salt `bcrypt.gensalt()` draws. */
  type Salt = nat

  /** `bcrypt.hashpw` and `bcrypt.checkpw` as uninterpreted functions. */
  datatype Hasher = Hasher(
    hashpw: (string, Salt) -> string,
    checkpw: (string, string) -> bool)

  /** What the model relies on from bcrypt: a password checks against its
      own hash, and a hash is a short ASCII string (60 characters in the
      modular crypt format), so it never contains NUL and fits `VARCHAR(255)`. */
  ghost predicate Sound(h: Hasher) {
    forall p: string, salt: Salt ::
      h.checkpw(p, h.hashpw(p, salt)) && Sendable(h.hashpw(p, salt)) && FitsVarchar(h.hashpw(p, salt))
  }

  /** A row of `users`: `created_at` is left to the database and never read. */
  datatype User = User(id: int, email: string, passwordHash: string, name: Option<string>)

  datatype RegisterRequest = RegisterRequest(email: Field<string>, password: Field<string>, name: Field<string>)
  datatype LoginRequest = LoginRequest(email: Field<string>, password: Field<string>)

  /** The `user` object of a login response. */
  datatype UserInfo = UserInfo(id: int, email: string, name: Option<string>)

  datatype AuthBody =
    | Error(error: string)
    | Registered(message: string, userId: int)
    | LoggedIn(token: Token, user: UserInfo)
    | Verified(valid: bool, claimedId: ClaimValue)
      /** Flask's own 500 page for an exception no handler catches. */
    | UncaughtError

  type AuthResponse = Response<AuthBody>

  const CredentialsRequired: AuthResponse := Response(400, Error("Email and password required"))
  const EmailExists: AuthResponse := Response(409, Error("Email already exists"))
  const RegistrationFailed: AuthResponse := Response(500, Error("Registration failed"))
  const InvalidCredentials: AuthResponse := Response(401, Error("Invalid credentials"))
  const LoginFailed: AuthResponse := Response(500, Error("Login failed"))
  const NoToken: AuthResponse := Response(401, Error("No token provided"))
  const TokenExpired: AuthResponse := Response(401, Error("Token expired"))
  const InvalidToken: AuthResponse := Response(401, Error("Invalid token"))

  /** `if not email or not password` lets the handler go on: both keys are
      present, neither is `null`, and neither string is empty. */
  predicate HasCredentials(email: Field<string>, password: Field<string>) {
    NonEmptyText(email) && NonEmptyText(password)
  }

  /** The `UNIQUE` constraint on `users.email`. */
  ghost predicate UniqueEmails(rows: seq<User>) {
    forall i, j :: 0 <= i < j < |rows| ==> rows[i].email != rows[j].email
  }

  /** The `PRIMARY KEY` on `users.id`. */
  ghost predicate UniqueIds(rows: seq<User>) {
    forall i, j :: 0 <= i < j < |rows| ==> rows[i].id != rows[j].id
  }

  /** `SELECT ... FROM users WHERE email = %s` followed by `fetchone()`. */
  function FindByEmail(rows: seq<User>, email: string): (r: Option<User>)
    ensures r.Some? ==> r.value in rows && r.value.email == email
    ensures r.None? ==> forall u :: u in rows ==> u.email != email
  {
    if rows == [] then None
    else if rows[0].email == email then Some(rows[0])
    else FindByEmail(rows[1..], email)
  }

  /** With unique emails the lookup finds THE row holding the email. */
  lemma FindByEmailUnique(rows: seq<User>, u: User)
    requires UniqueEmails(rows) && u in rows
    ensures FindByEmail(rows, u.email) == Some(u)
  {
  }

  /** The row the INSERT writes for the given values, or `None` when it
      raises before the unique index is consulted and the handler answers 500:
      psycopg2 refuses a NUL in any of the three strings, and Postgres refuses
      a value longer than its `VARCHAR(255)` column unless the excess is all
      spaces, which it cuts off. */
  function StoredUser(id: int, email: string, passwordHash: string, name: Option<string>): Option<User> {
    if !Sendable(email) || !Sendable(passwordHash) || (name.Some? && !Sendable(name.value)) then None
    else if StoreVarchar(email).None? || StoreVarchar(passwordHash).None? then None
    else if name.None? then Some(User(id, StoreVarchar(email).value, StoreVarchar(passwordHash).value, None))
    else
      match StoreVarchar(name.value)
      case None => None
      case Some(n) => Some(User(id, StoreVarchar(email).value, StoreVarchar(passwordHash).value, Some(n)))
  }

  /** The `users` table with its `SERIAL` id sequence. */
  class UserStore {
    var rows: seq<User>
    /** The value `SERIAL` hands out next. */
    var nextId: int

    ghost predicate Valid()
      reads this
    {
      && UniqueEmails(rows)
      && UniqueIds(rows)
      && 0 < nextId
      && (forall u :: u in rows ==> 0 < u.id < nextId)
    }

    constructor ()
      ensures Valid() && rows == [] && nextId == 1
    {
      rows := [];
      nextId := 1;
    }

    /** `POST /api/auth/register`. Salting is random, so the salt is a parameter. */
    method Register(req: RegisterRequest, h: Hasher, salt: Salt) returns (resp: AuthResponse)
      requires Valid()
      modifies this
      ensures Valid()
      ensures !HasCredentials(req.email, req.password) ==> resp == CredentialsRequired
      ensures HasCredentials(req.email, req.password) ==>
        var row := StoredUser(old(nextId), req.email.value, h.hashpw(req.password.value, salt), WithDefault(req.name, ""));
        if row.None? then resp == RegistrationFailed
        else if FindByEmail(old(rows), row.value.email).Some? then resp == EmailExists
        else
          && resp == Response(201, Registered("User registered successfully", old(nextId)))
          && rows == old(rows) + [row.value]
          && forall u :: u in old(rows) ==> u.id != old(nextId)
      ensures resp.status != 201 ==> rows == old(rows) && nextId == old(nextId)
    {
      if !HasCredentials(req.email, req.password) {
        return CredentialsRequired;
      }
      var email, password, name := req.email.value, req.password.value, WithDefault(req.name, "");
      var passwordHash := h.hashpw(password, salt);
      var stored := StoredUser(nextId, email, passwordHash, name);
      if stored.None? {
        return RegistrationFailed;
      }
      // The unique index compares the email as stored, after any cut.
      var user := stored.value;
      if FindByEmail(rows, user.email).Some? {
        return EmailExists;
      }
      assert UniqueEmails(rows + [user]) by {
        forall i, j | 0 <= i < j < |rows| + 1 ensures (rows + [user])[i].email != (rows + [user])[j].email {
          if j == |rows| {
            assert rows[i] in rows;
          }
        }
      }
      assert UniqueIds(rows + [user]) by {
        forall i, j | 0 <= i < j < |rows| + 1 ensures (rows + [user])[i].id != (rows + [user])[j].id {
          if j == |rows| {
            assert rows[i] in rows;
          }
        }
      }
      rows := rows + [user];
      nextId := nextId + 1;
      resp := Response(201, Registered("User registered successfully", user.id));
    }
  }

  /** `POST /api/auth/login`: a SELECT, a password check and, on success, a
      token whose claims are the stored id, the supplied email and an expiry
      24 hours after `now`. */
  function Login(rows: seq<User>, req: LoginRequest, h: Hasher, codec: TokenCodec, secret: Secret, now: int): (r: AuthResponse)
    ensures r.status == 400 <==> !HasCredentials(req.email, req.password)
    ensures r.status == 400 ==> r == CredentialsRequired
    ensures r == LoginFailed <==> HasCredentials(req.email, req.password) && !Sendable(req.email.value)
    ensures r.status != 400 ==> r == InvalidCredentials || r == LoginFailed || r.status == 200
    ensures r.status == 200 ==>
      exists u :: u in rows && u.email == req.email.value && h.checkpw(req.password.value, u.passwordHash)
        && r == Response(200, LoggedIn(codec.encode(IssuedClaims(u.id, req.email.value, now), secret),
                                       UserInfo(u.id, req.email.value, u.name)))
  {
    if !HasCredentials(req.email, req.password) then CredentialsRequired
    else
      var email, password := req.email.value, req.password.value;
      // psycopg2 refuses to build the SELECT; the generic handler answers 500.
      if !Sendable(email) then LoginFailed
      else
      match FindByEmail(rows, email)
      case None => InvalidCredentials
      case Some(u) =>
        if !h.checkpw(password, u.passwordHash) then InvalidCredentials
        else
          var token := codec.encode(IssuedClaims(u.id, email, now), secret);
          Response(200, LoggedIn(token, UserInfo(u.id, email, u.name)))
  }

  /** Login succeeds exactly when the email can be sent and the row stored
      for it accepts the password. */
  lemma LoginSucceedsIff(rows: seq<User>, req: LoginRequest, h: Hasher, codec: TokenCodec, secret: Secret, now: int)
    requires UniqueEmails(rows)
    requires HasCredentials(req.email, req.password)
    ensures Login(rows, req, h, codec, secret, now).status == 200 <==>
      Sendable(req.email.value) &&
      exists u :: u in rows && u.email == req.email.value && h.checkpw(req.password.value, u.passwordHash)
  {
  }

  /** An unknown email and a wrong password give the same response, whatever
      the two tables, requests and clocks are, once the SELECT runs. */
  lemma UnknownUserLooksLikeWrongPassword(
    rows1: seq<User>, req1: LoginRequest, rows2: seq<User>, req2: LoginRequest,
    h: Hasher, codec: TokenCodec, secret: Secret, now1: int, now2: int)
    requires HasCredentials(req1.email, req1.password) && HasCredentials(req2.email, req2.password)
    requires Sendable(req1.email.value) && Sendable(req2.email.value)
    requires forall u :: u in rows1 ==> u.email != req1.email.value
    requires UniqueEmails(rows2)
    requires exists u :: u in rows2 && u.email == req2.email.value && !h.checkpw(req2.password.value, u.passwordHash)
    ensures Login(rows1, req1, h, codec, secret, now1) == Login(rows2, req2, h, codec, secret, now2) == InvalidCredentials
  {
  }

  /** `POST /api/auth/verify`. A payload without `user_id` raises a `KeyError`
      that neither `except` clause catches, so Flask answers 500. */
  function Verify(authorization: Option<string>, codec: TokenCodec, secret: Secret, now: int): (r: AuthResponse)
    ensures BearerToken(authorization) == "" ==> r == NoToken
    ensures r.status == 200 ==> codec.decode(BearerToken(authorization), secret, now).Ok?
    ensures r.status in {200, 401, 500}
  {
    var token := BearerToken(authorization);
    if token == "" then NoToken
    else
      match codec.decode(token, secret, now)
      case Ok(payload) =>
        if "user_id" in payload then Response(200, Verified(true, payload["user_id"]))
        else Response(500, UncaughtError)
      case Expired => TokenExpired
      case Invalid => InvalidToken
  }

  /** Each decode outcome gets its own answer; only a decoded payload carrying
      `user_id` gives 200. */
  lemma VerifyOutcomes(authorization: Option<string>, codec: TokenCodec, secret: Secret, now: int)
    requires BearerToken(authorization) != ""
    ensures var d := codec.decode(BearerToken(authorization), secret, now);
            var r := Verify(authorization, codec, secret, now);
            && (d.Expired? ==> r == TokenExpired)
            && (d.Invalid? ==> r == InvalidToken)
            && (r.status == 200 <==> d.Ok? && "user_id" in d.payload)
            && (d.Ok? && "user_id" !in d.payload ==> r == Response(500, UncaughtError))
            && (r.status == 200 ==> r.body == Verified(true, d.payload["user_id"]))
  {
  }

  /** An empty credential is refused without decoding: the answer does not
      depend on the token codec at all. */
  lemma VerifyEmptyTokenSkipsDecode(authorization: Option<string>, c1: TokenCodec, c2: TokenCodec, secret: Secret, now: int)
    requires BearerToken(authorization) == ""
    ensures Verify(authorization, c1, secret, now) == Verify(authorization, c2, secret, now)
  {
  }
}
