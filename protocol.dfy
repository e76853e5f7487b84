/** How the two services meet: the identity service issues tokens, the
    product service checks them on its own with the shared secret and never
    consults the users table. */
module Protocol {
  import opened Http
  import opened Tokens
  import opened Bearer
  import opened AuthService
  import opened ProductService

  /** The header a client sends with a token from login. */
  function AuthorizationFor(token: Token): Option<string> {
    Some(Scheme + token)
  }

  /** The credential the handlers extract from such a header is the token itself. */
  lemma IssuedHeaderYieldsToken(codec: TokenCodec, p: Payload, secret: Secret)
    requires WellBehaved(codec)
    ensures BearerToken(AuthorizationFor(codec.encode(p, secret))) == codec.encode(p, secret)
  {
    NoSpaceNoScheme(codec.encode(p, secret));
    StripSchemePrefix(codec.encode(p, secret));
  }

  /** A token from a successful login, presented as `Bearer <token>` before
      its `exp`, passes both `verify` (200 with the stored id) and the product
      gate, with no access to the users table. */
  lemma LoginTokenAcceptedUntilExpiry(
    rows: seq<User>, req: LoginRequest, h: Hasher, codec: TokenCodec, secret: Secret, issuedAt: int, now: int)
    requires WellBehaved(codec)
    requires Login(rows, req, h, codec, secret, issuedAt).status == 200
    requires now < issuedAt + TokenLifetime
    ensures var body := Login(rows, req, h, codec, secret, issuedAt).body;
            && Verify(AuthorizationFor(body.token), codec, secret, now) == Response(200, Verified(true, IntClaim(body.user.id)))
            && GateAccepts(AuthorizationFor(body.token), codec, secret, now)
  {
    var body := Login(rows, req, h, codec, secret, issuedAt).body;
    var claims := IssuedClaims(body.user.id, req.email.value, issuedAt);
    assert body.token == codec.encode(claims, secret);
    IssuedHeaderYieldsToken(codec, claims, secret);
    IssuedTokenDecodes(codec, secret, body.user.id, req.email.value, issuedAt, now);
    assert "user_id" in claims;
  }

  /** From its `exp` on, the same token gets "Token expired" from `verify`
      and 401 from the product gate. */
  lemma LoginTokenRejectedAfterExpiry(
    rows: seq<User>, req: LoginRequest, h: Hasher, codec: TokenCodec, secret: Secret, issuedAt: int, now: int)
    requires WellBehaved(codec)
    requires Login(rows, req, h, codec, secret, issuedAt).status == 200
    requires issuedAt + TokenLifetime <= now
    ensures var body := Login(rows, req, h, codec, secret, issuedAt).body;
            && Verify(AuthorizationFor(body.token), codec, secret, now) == TokenExpired
            && !GateAccepts(AuthorizationFor(body.token), codec, secret, now)
  {
    var body := Login(rows, req, h, codec, secret, issuedAt).body;
    var claims := IssuedClaims(body.user.id, req.email.value, issuedAt);
    IssuedHeaderYieldsToken(codec, claims, secret);
    IssuedTokenDecodes(codec, secret, body.user.id, req.email.value, issuedAt, now);
  }

  /** A request without an `Authorization` header is refused by both services. */
  lemma MissingHeaderRejected(codec: TokenCodec, secret: Secret, now: int)
    requires WellBehaved(codec)
    ensures Verify(None, codec, secret, now) == NoToken
    ensures !GateAccepts(None, codec, secret, now)
  {
  }

  /** Registering, logging in and verifying, on an empty users table:
      the new user gets id 1, login issues a token that `verify` accepts for
      that id, and a wrong password gets 401. */
  method RegisterLoginVerify(
    email: string, password: string, wrong: string,
    h: Hasher, salt: Salt, codec: TokenCodec, secret: Secret, now: int)
    returns (registered: AuthResponse, loggedIn: AuthResponse, verified: AuthResponse, rejected: AuthResponse)
    requires Sound(h) && WellBehaved(codec)
    requires email != "" && password != "" && wrong != "" && FitsVarchar(email) && Sendable(email)
    requires !h.checkpw(wrong, h.hashpw(password, salt))
    ensures registered == Response(201, Registered("User registered successfully", 1))
    ensures loggedIn.status == 200 && loggedIn.body.LoggedIn? && loggedIn.body.user == UserInfo(1, email, Some(""))
    ensures verified == Response(200, Verified(true, IntClaim(1)))
    ensures rejected == InvalidCredentials
  {
    var users := new UserStore();
    registered := users.Register(RegisterRequest(Given(email), Given(password), Absent), h, salt);
    var user := User(1, email, h.hashpw(password, salt), Some(""));
    assert users.rows == [user];
    assert FindByEmail(users.rows, email) == Some(user);
    loggedIn := Login(users.rows, LoginRequest(Given(email), Given(password)), h, codec, secret, now);
    LoginTokenAcceptedUntilExpiry(users.rows, LoginRequest(Given(email), Given(password)), h, codec, secret, now, now);
    verified := Verify(AuthorizationFor(loggedIn.body.token), codec, secret, now);
    rejected := Login(users.rows, LoginRequest(Given(email), Given(wrong)), h, codec, secret, now);
  }

  /** Registering the same email twice stores one user; the second call gets 409. */
  method RegisterTwice(req: RegisterRequest, h: Hasher, salt1: Salt, salt2: Salt)
    returns (first: AuthResponse, second: AuthResponse, stored: nat)
    requires Sound(h) && HasCredentials(req.email, req.password)
    requires Sendable(req.email.value) && FitsVarchar(req.email.value)
    requires req.name.Given? ==> Sendable(req.name.value) && FitsVarchar(req.name.value)
    ensures first.status == 201 && second == EmailExists && stored == 1
  {
    var users := new UserStore();
    first := users.Register(req, h, salt1);
    assert users.rows[0].email == req.email.value;
    second := users.Register(req, h, salt2);
    stored := |users.rows|;
  }

  /** An email at the column limit and the same email followed by spaces are
      one email to the table: Postgres cuts the padding off before the unique
      index compares, so the second registration gets 409. */
  method RegisterPaddedEmail(req: RegisterRequest, padding: nat, h: Hasher, salt1: Salt, salt2: Salt)
    returns (first: AuthResponse, second: AuthResponse, stored: seq<User>)
    requires Sound(h) && HasCredentials(req.email, req.password)
    requires Sendable(req.email.value) && |req.email.value| == VarcharLimit
    requires req.name.Given? ==> Sendable(req.name.value) && FitsVarchar(req.name.value)
    ensures first.status == 201 && second == EmailExists
    ensures |stored| == 1 && stored[0].email == req.email.value
  {
    var users := new UserStore();
    first := users.Register(req, h, salt1);
    var padded := req.email.value + seq(padding + 1, _ => ' ');
    assert padded[..VarcharLimit] == req.email.value;
    assert Sendable(padded) by {
      assert forall i :: 0 <= i < |padded| ==> padded[i] != Nul;
    }
    second := users.Register(req.(email := Given(padded)), h, salt2);
    stored := users.rows;
  }

  /** A create without a valid token is refused and a later listing shows the
      table as it was. */
  method UnauthenticatedCreateIsNotListed(
    products: ProductStore, authorization: Option<string>, req: ProductRequest,
    codec: TokenCodec, secret: Secret, now: int)
    returns (created: ProductResponse, listed: ProductResponse)
    requires products.Valid() && !GateAccepts(authorization, codec, secret, now)
    modifies products
    ensures created == Unauthorized
    ensures listed.body.Listing? && listed.body.products == old(products.rows)
  {
    created := products.CreateProduct(authorization, req, codec, secret, now);
    listed := products.ListProducts();
  }

  /** A user registered with the identity service creates a product with the
      token from login, before its expiry; the product service then returns
      the new row under the id it reported. */
  method CreateWithIssuedToken(
    users: seq<User>, products: ProductStore, credentials: LoginRequest, req: ProductRequest,
    h: Hasher, codec: TokenCodec, secret: Secret, issuedAt: int, now: int)
    returns (created: ProductResponse, fetched: ProductResponse)
    requires WellBehaved(codec) && products.Valid()
    requires Login(users, credentials, h, codec, secret, issuedAt).status == 200
    requires now < issuedAt + TokenLifetime
    requires NonEmptyText(req.name) && NonZero(req.price) && StoredProduct(NewProduct(products.nextId, req)).Some?
    modifies products
    ensures created.status == 201 && created.body.Created? && created.body.id >= 0
    ensures fetched == Response(200, Record(StoredProduct(NewProduct(created.body.id, req)).value))
  {
    var token := Login(users, credentials, h, codec, secret, issuedAt).body.token;
    LoginTokenAcceptedUntilExpiry(users, credentials, h, codec, secret, issuedAt, now);
    created := products.CreateProduct(AuthorizationFor(token), req, codec, secret, now);
    var p := StoredProduct(NewProduct(created.body.id, req)).value;
    assert p in products.rows;
    GetProductFindsRow(products.rows, p);
    fetched := GetProduct(products.rows, created.body.id);
  }
}
