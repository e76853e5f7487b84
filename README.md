# Token-authenticated microservices: a Dafny model

This project models the request-decision logic of two Flask services.

- **Identity service** (auth-service/app.py). It registers users in a `users` table, logs them in by issuing an HS256 JSON Web Token (RFC 7519), and verifies such tokens.
- **Product service** (product-service/app.py). It checks the same tokens locally, with the shared `SECRET_KEY`, before it creates a product. It also serves public read-only lookups over its own `products` table.

Each handler is a short chain of checks, and each check has a fixed status code: 400 for missing fields, 409 for a duplicate email, 401 for bad credentials or a bad token, 404 for an unknown id, and 201 or 200 on success.

Files and modules:

- `http.dfy` (`Http`) holds the shared vocabulary. `Field<T>` tells a missing JSON key from an explicit `null`, because `data.get(key, default)` defaults only on a missing key. It also holds Python truthiness (`not email`, `not price`), the `(status, body)` response, and the two rules for text sent to the database: psycopg2 refuses a string holding NUL, and Postgres stores a value longer than `VARCHAR(255)` only when its excess is all spaces, which it cuts off (`StoreVarchar`).
- `tokens.dfy` (`Tokens`) models `jwt.encode` and `jwt.decode` as two uninterpreted functions in a `TokenCodec`. Decoding returns `Ok(payload) | Expired | Invalid`. The payload is a map of claims, so Python's `payload['user_id']` and the falsiness of `{}` are both modelled. `WellBehaved` states what the model assumes of PyJWT: a token whose payload holds only login's three claims decodes back to that payload, a token is expired once `exp <= now`, tokens hold no spaces, and `""` never decodes.
- `bearer.dfy` (`Bearer`) models the header extraction `headers.get('Authorization', '').replace('Bearer ', '')`. Python's `replace` removes every non-overlapping occurrence, scanning left to right, not only a leading prefix.
- `auth_service.dfy` (`AuthService`) holds the `users` table. `UserStore` is a class whose `Register` method INSERTs. `Login` and `Verify` are functions of the rows, the request, the secret and the clock. `bcrypt.hashpw` and `bcrypt.checkpw` are the uninterpreted `Hasher`, and the salt is a parameter.
- `product_service.dfy` (`ProductService`) holds the `products` table. `ProductStore` has the methods `CreateProduct` (gate, then field checks, then one INSERT) and `ListProducts` (the source's append loop). `VerifyToken` and `GetProduct` are functions.
- `protocol.dfy` (`Protocol`) connects the two services. A token from login opens the product gate until its `exp`, and is refused from then on. It also holds end-to-end scenarios: register, login, verify; a duplicate registration; a registration of a space-padded email; an unauthenticated create.

The secret, the clock (`now`, in whole seconds) and the bcrypt salt are parameters. The database schema contributes only its constraints:

- unique email, and a fresh `SERIAL` id;
- `VARCHAR(255)`, `DECIMAL(10, 2)` and `INTEGER` bounds. A value out of bounds makes an INSERT fail with a data error that the handler reports as 500, except that a text value whose excess over 255 characters is all spaces is cut to 255 and stored.

A NUL character in any string sent as a query parameter makes psycopg2 raise `ValueError` before the query is sent, which the handlers' generic `except` answers with 500. A data error is raised before the unique-email check, because Postgres coerces the inserted values before it consults the unique index; the unique index then compares the email as cut.

### Behaviour of the code worth knowing

- Token errors get two answers only. `verify` tells `ExpiredSignatureError` ("Token expired") apart from every other `InvalidTokenError` ("Invalid token"): a malformed token and a bad signature get the same answer. `verify_token` in the product service folds all of them into `None`.
- A failed `verify` is not always 401. A correctly signed, unexpired payload without `user_id` raises a `KeyError` that neither `except` clause catches, so Flask answers 500 (`AuthService.Verify`).
- The product gate refuses more than failed decodes. `if not verify_token(token)` also refuses a decoded payload that is the empty object `{}` (`ProductService.GateAccepts`).
- `create_product` ignores the claims of the token it accepts: no user id or email reaches the stored row.

## Model

| member | source | states |
|---|---|---|
| `Http.StoreVarchar` | auth-service/app.py:46-48 | A value is stored exactly when every character past the 255th is a space; a longer value is cut to exactly its first 255 characters, dropping only spaces; a value that fits is stored unchanged |
| `Tokens.IssuedTokenDecodes` | auth-service/app.py:132-136 | Under PyJWT's contract, a token signed by login decodes with the same secret to exactly its claims while `now < issue time + 24 h`, and as `Expired` from then on |
| `Bearer.StripScheme` | product-service/app.py:133 | `replace('Bearer ', '')` never lengthens the header and removes whole occurrences only: the length lost is a multiple of 7 |
| `Bearer.BearerToken` | auth-service/app.py:156 | A missing header gives the empty credential; a header without `"Bearer "` is passed on unchanged, and one with it is shortened |
| `Bearer.StripIdentityIff` | product-service/app.py:133 | `replace('Bearer ', '')` leaves a header unchanged exactly when it holds no `"Bearer "`, and otherwise makes it strictly shorter |
| `Bearer.StripAtLeftmost` | auth-service/app.py:156 | The leftmost occurrence is removed, the text before it is kept, and removal continues after it: the specification of Python's `str.replace` |
| `Bearer.StripSchemePrefix` | product-service/app.py:133 | `"Bearer " + t` yields `t` when `t` holds no further `"Bearer "` |
| `Bearer.StripRepeatedScheme` | auth-service/app.py:156 | Every occurrence is removed, not only a prefix: `"Bearer Bearer " + t` also yields `t` |
| `AuthService.FindByEmail` | auth-service/app.py:117-118 | The SELECT returns a row only if it is in the table and holds that email; it returns nothing only if no row holds the email |
| `AuthService.FindByEmailUnique` | auth-service/app.py:46 | With the UNIQUE constraint on email, the lookup returns the one row holding the email |
| `AuthService.UserStore.Register` | auth-service/app.py:64-101 | Missing, `null` or empty email or password (`HasCredentials`, the truthiness test `not email or not password`) gives 400. A NUL in the email, the hash or the name, or a value longer than 255 characters whose excess is not all spaces, gives 500 "Registration failed". An email that, after any trailing-space cut, is already stored gives 409. All three leave the table unchanged. Otherwise exactly one row is appended: the email as stored (cut to 255 if padded), the hash of the password (not the plaintext), and the name as stored, defaulting to `''`. The response is 201 with that row's id, which differs from every existing id. Unique emails and ids are preserved |
| `AuthService.Login` | auth-service/app.py:103-150 | 400 exactly when the email or password is missing, `null` or empty (`HasCredentials`). Among strings of Unicode scalar values, 500 "Login failed" exactly when the email holds NUL, which psycopg2 refuses to send. Every other failure is the single 401 "Invalid credentials". A 200 carries a token signed over `IssuedClaims`: exactly the claims `user_id` (the stored id), `email` (as supplied) and `exp = now + 24 h`, plus the stored id, email and name of a row whose hash accepts the password. The users table is only read |
| `AuthService.LoginSucceedsIff` | auth-service/app.py:117-129 | With unique emails, login succeeds exactly when the email can be sent (holds no NUL) and the stored row for the email accepts the password |
| `AuthService.UnknownUserLooksLikeWrongPassword` | auth-service/app.py:122-129 | Once the SELECT runs, an unknown email and a wrong password for a known email get the identical response, whatever the tables, requests and clocks |
| `AuthService.Verify` | auth-service/app.py:152-167 | An empty credential after stripping gives 401 "No token provided". Only a successful decode can give 200. Every answer is 200, 401 or 500 |
| `AuthService.VerifyOutcomes` | auth-service/app.py:161-167 | `Expired` gives "Token expired" and any other failure gives "Invalid token", both 401. There is 200 with `{valid: true, user_id}` exactly when the payload decodes and carries `user_id`; a decoded payload without `user_id` gives Flask's uncaught-error 500 |
| `AuthService.VerifyEmptyTokenSkipsDecode` | auth-service/app.py:156-159 | An empty credential is refused without decoding: the answer does not depend on the token codec |
| `ProductService.VerifyToken` | product-service/app.py:66-71 | Fail-closed: a payload is returned exactly when `jwt.decode` succeeds, and it is the decoded payload; every failure gives `None` |
| `ProductService.GateAccepts` | product-service/app.py:133-135 | The create gate opens exactly when the bearer credential decodes to a non-empty payload: never on an expired or invalid token, nor on `{}` |
| `ProductService.FindById` | product-service/app.py:106-110 | The SELECT returns a row only if it is in the table and has that id; it returns nothing only if no row has the id |
| `ProductService.GetProduct` | product-service/app.py:100-124 | 404 "Product not found" exactly when no row has the id. Otherwise 200 with a stored row of that id, with all five columns |
| `ProductService.GetProductFindsRow` | product-service/app.py:114-124 | With unique ids, every stored row is returned whole under its own id |
| `ProductService.ProductStore.CreateProduct` | product-service/app.py:129-162 | A failed gate gives 401 whatever the body. A valid token with a missing or empty name, or a missing or zero price, gives 400. A NUL in the name or description, a name longer than 255 characters whose excess is not all spaces, or a price or stock outside its column gives 500. All of these leave the table unchanged. Otherwise exactly one row is appended: `NewProduct`, the supplied name and price with `description` defaulting to `''` and `stock` to 0 when their keys are missing (an explicit `null` stays null), with the name as stored (cut to 255 if padded), and the response is 201 with its fresh id. Unique ids are preserved |
| `ProductService.ProductStore.ListProducts` | product-service/app.py:77-95 | 200 with exactly one entry per stored row, in table order, each equal to its row; nothing is changed |
| `Protocol.IssuedHeaderYieldsToken` | product-service/app.py:133 | A header `Bearer <token>` built from any token PyJWT issues yields that token, because tokens hold no space |
| `Protocol.LoginTokenAcceptedUntilExpiry` | product-service/app.py:66-71 | Under one shared secret, a token from a successful login is accepted before its `exp` by the product gate and by `verify`, which reports the stored user id, without any access to the users table |
| `Protocol.LoginTokenRejectedAfterExpiry` | auth-service/app.py:164-165 | From its `exp` on, the same token gets "Token expired" from `verify` and is refused by the product gate |
| `Protocol.MissingHeaderRejected` | product-service/app.py:133-135 | A request without an `Authorization` header gets "No token provided" from `verify` and is refused by the product gate |
| `Protocol.RegisterLoginVerify` | auth-service/app.py:64-167 | On an empty table, register gives 201 with id 1. Login with the same password gives 200 for user 1, with name `''`. `verify` of its token gives `{valid: true, user_id: 1}`. A wrong password gives 401 |
| `Protocol.RegisterTwice` | auth-service/app.py:82-98 | Registering one email twice stores one user, and the second call gets 409 "Email already exists" |
| `Protocol.RegisterPaddedEmail` | auth-service/app.py:46 | An email of 255 characters and the same email followed by spaces are one email to the table: the second registration gets 409 and one row, holding the unpadded email, is stored |
| `Protocol.UnauthenticatedCreateIsNotListed` | product-service/app.py:129-135 | A create without an accepted token gets 401, and a following listing shows exactly the rows stored before |
| `Protocol.CreateWithIssuedToken` | product-service/app.py:129-159 | A token from a successful login, used before its `exp`, creates the product (201). `get_product` on the reported id returns that new row as stored |

## Left out

- gateway/server.js is not part of this model. It is HTTP proxy plumbing: it forwards status and body and defaults to 500. Its rate limiting lives in a library.
- `get_db`, `init_db`, sample-data seeding, `/health`, CORS, logging and `app.run` are left out as connection, bootstrap and framework plumbing. Only the schema's constraints are used.
- bcrypt and JWT internals (salted hashing, base64url, HMAC-SHA256) are left out as foreign library code. They are uninterpreted functions. The model assumes only the library contracts stated in `AuthService.Sound` and `Tokens.WellBehaved`. No cryptographic fact is assumed or proved, so in particular nothing says that a token signed with another secret is refused.
- The generic `except Exception` branches are left out where they catch faults the model has no notion of: connection failures, request bodies that are not JSON objects, and fields of the wrong JSON type. Those branches answer 500 "Registration failed", "Login failed", "Failed to fetch products", "Failed to fetch product" or "Failed to create product". The model does keep column data errors, which also reach 500.
- Floating point is left out. The `DECIMAL(10, 2)` price and its `float(row[3])` conversion are modelled as a whole number of cents, so decimal rounding is not modelled.
- Concurrent requests are left out. Requests are handled one after another, so uniqueness under concurrent registrations, which the database's UNIQUE constraint enforces, is modelled only sequentially.
- `ProductService.ProductStore.ListProducts`: the SELECT has no `ORDER BY`, so Postgres promises no order; the model returns the rows in insertion order, which is one order the database may choose.
- `AuthService.UnknownUserLooksLikeWrongPassword`: only the response is compared. For an unknown email the handler returns before calling `bcrypt.checkpw`, so it answers faster than for a wrong password; timing is not modelled.
- `AuthService.Login`: a password holding NUL is handed to `bcrypt.checkpw`, and bcrypt versions that raise `ValueError` on it (giving 500 "Login failed") are not modelled: `Hasher` is a pair of total functions that cannot raise. The same holds for `bcrypt.hashpw` in `AuthService.UserStore.Register`, where that 500 is "Registration failed".
- `AuthService.Login`: strings are sequences of Unicode scalar values, so a lone surrogate that Python's `json` keeps from an escape such as `"\ud800"` cannot be expressed. In the source, such a password makes `password.encode('utf-8')` raise at auth-service/app.py:128, and such an email makes psycopg2 raise when it encodes the SELECT at line 117; both answer 500 "Login failed" (lines 148-150). The model's "500 exactly when the email holds NUL" holds only for strings without surrogates.
- `AuthService.UserStore.Register`: for the same reason, a lone surrogate in the password (`encode('utf-8')` at auth-service/app.py:77) or in the email or name (psycopg2 encoding the INSERT at lines 82-85) is not modelled; in the source each answers 500 "Registration failed" (lines 99-101).
- `ProductService.ProductStore.CreateProduct`: a lone surrogate in the name or description makes psycopg2 raise while encoding the INSERT (product-service/app.py:149-152), which answers 500 "Failed to create product" (lines 160-162); it is not modelled, as strings hold Unicode scalar values only.
- `AuthService.Verify`: claim values are integers or strings only. `verify` echoes a `user_id` of any JSON type (null, float, list, object) unchanged; no branch depends on its type, so the other JSON types are not modelled.
- `AuthService.UserStore.Register`: the id counter advances only on a successful insert. Gaps that a Postgres sequence leaves after failed inserts are not modelled; only "a fresh, unused id" is.
- `ProductService.ProductStore.CreateProduct`: the id counter advances only on a successful insert, as in `Register`.
- Wall-clock time is left out: `now` is a parameter in whole seconds, and PyJWT truncates the `exp` datetime to whole seconds.
- The fallback `SECRET_KEY` default is left out as configuration: the secret is a parameter shared by both services.
- The `created_at` column is left out: it is set by the database and never read by the handlers.
