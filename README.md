# Mock payment backend: a Dafny model of its business rules

This project models the request handlers of a small FastAPI payment backend.
The backend authenticates users and records peer-to-peer transactions.
The database is modelled as in-memory tables. Password hashing and JWT signing
are opaque functions passed in as parameters, and nothing is assumed about them.

Modules, one per source file:

- `Http` (`http.dfy`): the `Response` outcome (`Ok(value)` or `Err(code, detail)`, the
  status and detail of the raised `HTTPException`) and an `Option` type.
- `Models` (`models.dfy`), for `models.py`: the `User` and `Transaction` rows, the request
  bodies, the phone validator, the 4-character password rule and the defaults of a new transaction.
- `Tokens` (`tokens.dfy`), for `utils.py`: the claim set `create_access_token` signs.
  Time is an integer number of seconds, and a `timedelta` is a number of seconds.
- `Guard` (`guard.dfy`), for `middlewares/protect.py`: the chain from a decoded token to a stored user.
  The result of `jwt.decode` is an input: `DecodeFailed` or `Payload(claims)`.
  The claim names are "sub" (RFC 7519, section 4.1.2) and "exp" (RFC 7519, section 4.1.4).
- `Ledger` (`ledger.dfy`), for `endpoints/transaction.py`: class `TransactionTable` holds the
  rows as a `seq`, in insertion order. Listing is a pure function over the rows.
- `Users` (`users.dfy`), for `endpoints/user.py`: class `Directory` holds the user table as a
  `map` from id to row. Login and the two reads are modelled over the table value.

Every route of both routers sits behind `protect`. Each handler is modelled as it runs
once the guard has succeeded. The transaction handlers receive the guard's user as `caller`.
`Directory.GuardedSignup` models the signup route as mounted: the guard, then pydantic's validation of the body, then the handler (see "## Findings").

External inputs are parameters:
- the fresh UUID, as its text form `Id`, with a precondition that it is not yet a key;
- the current time;
- the configured token lifetime in minutes;
- `hash` (`get_password_hash`), `verify` (`verify_password`) and `encode` (`jwt.encode`).

The model follows the code as written. In these places the code differs from what a payment API of this kind would be expected to do:
- `create_transaction` stores the `sender_phone` from the request body. One would expect the sender to be taken from the authenticated caller.
- The two login failures use different details: "Incorrect phone or password" and "Incorrect email or password". One would expect one shared message, so that a reply does not reveal whether a phone is registered.
- A lifetime of 0 minutes is a zero `timedelta`, which is falsy. So `create_access_token` uses
  15 minutes (`Users.LoginClaims`, `Tokens.ZeroDeltaIsDefault`). The token does not expire at once.
- Signup, login and the user reads, update and delete are all behind the guard (`endpoints/user.py:14`).
  One would expect signup and login to be public routes.
- Users are hard-deleted.

A few other points the model makes explicit:
- The signup handler's own 400 length check (`endpoints/user.py:22-26`) repeats `UserBase.validate_phone`.
  Pydantic runs that validator, and the 4-character password rule, on the request body before the handler runs.
  A body that breaks either rule gets 422 and nothing is stored (`Models.UserCreateErrors`, `Users.Directory.GuardedSignup`).
  So the handler's 400 length reply can never be sent (`Users.ValidatedPhoneHasLength`).
- `UserUpdate` does not extend `UserBase`. So a PATCH phone is never length-checked, and PATCH can
  give two users the same phone (`Users.PatchCanDuplicatePhone`). For this reason login models the
  `.first()` lookup as a choice among all matching users.
- PATCH replies with `response_model=UserUpdate`. That reply includes the stored password field.

## Model

| member | source | states |
|---|---|---|
| `Models.ValidatePhone` | models.py:12-16 | accepts a phone iff its length is 10 and returns it unchanged; any other length is rejected with "Phone number must be 10 digits" |
| `Models.UserCreateErrors` | models.py:25-26 | a signup body is accepted iff its phone has 10 characters and its password exactly 4; each broken rule is reported |
| `Models.Public` | models.py:35-37 | the public view of a user keeps its id, names, phone and creation time; the type has no password |
| `Models.UserData` | endpoints/user.py:84 | the items of a PATCH body hold exactly the fields that were sent, each with its value, in declaration order (username, phone, password) |
| `Models.UpdateView` | endpoints/user.py:80-90 | the PATCH reply has no `username` and carries the stored phone and the stored password |
| `Models.NewTransaction` | models.py:55-58 | a new transaction copies the request's four fields, takes the given id and time, and has `deleted_status` false |
| `Tokens.TokenClaims` | utils.py:47-53 | the claims are the input claims plus "exp", with every other key kept; "exp" is now + delta for a non-zero delta and now + 15 minutes for none or zero; an existing "exp" is overwritten |
| `Tokens.CreateAccessToken` | utils.py:47-55 | the copy-then-update method produces exactly `TokenClaims(data, now, delta)` and signs those claims |
| `Tokens.ZeroDeltaIsDefault` | utils.py:49-52 | a zero timedelta and an omitted one give the same claims, expiring after 900 seconds |
| `Guard.Protect` | middlewares/protect.py:17-38 | 401 "Could not validate credentials" iff decoding failed or "sub" is missing; 404 "User not found" iff the subject is no stored id; otherwise the stored user with that id |
| `Guard.TokenErrorsPrecedeLookup` | middlewares/protect.py:27-35 | a token error is reported before any lookup: the result does not depend on the user table |
| `Ledger.Violations` | endpoints/transaction.py:17-35 | each rule (amount > 0, receiver phone of 10 characters, product longer than 2) is reported iff it is broken, and the first report follows the handler's order |
| `Ledger.Owned` | endpoints/transaction.py:47-49 | the selection holds only stored rows of the caller that are not deleted, and holds every such row |
| `Ledger.OwnedAppend` | endpoints/transaction.py:47-49 | the selection distributes over concatenation, so it keeps the matching rows in table order |
| `Ledger.ListTransactions` | endpoints/transaction.py:45-53 | the caller's selected rows, or the status-200 "You do not have any transactions" outcome iff the caller has no live row |
| `Ledger.FindRow` | endpoints/transaction.py:58 | the lookup by key finds a row with that id, or reports that no row has it |
| `Ledger.DeleteVerdict` | endpoints/transaction.py:56-76 | 404 iff there is no live row with the id, whatever its owner; 403 iff the live row was sent by another phone; success iff the caller's phone sent the live row |
| `Ledger.CreateThenList` | endpoints/transaction.py:38-49 | after a row is appended, the sender's listing is the old listing followed by that row |
| `Ledger.DeleteThenList` | endpoints/transaction.py:47-73 | after a soft delete, every listing loses exactly that row and keeps the rest in order |
| `Ledger.SecondDeleteNotFound` | endpoints/transaction.py:63-75 | a soft delete keeps ids unique, and a second delete of the same id gives 404 |
| `Ledger.TransactionTable.Create` | endpoints/transaction.py:11-42 | the error is the first of the broken rules (amount, then receiver phone, then product) and nothing is stored; otherwise exactly one row is appended, copied from the request with its sender phone unchecked |
| `Ledger.TransactionTable.SoftDelete` | endpoints/transaction.py:56-76 | the outcome is `DeleteVerdict`; on an error nothing changes; on success only the found row's flag is set |
| `Users.LoginClaims` | endpoints/user.py:58-61 | the login claims are exactly "sub" = the user's id and "exp" = now + the configured minutes, or now + 15 minutes when the setting is 0 |
| `Users.NewUser` | endpoints/user.py:34-35 | the stored row holds `hash` of the submitted password, the given id and time, and the body's names and phone |
| `Users.Patched` | endpoints/user.py:84-86 | a body carrying `username` cannot be applied; otherwise each sent field replaces the stored one, the password as given, and id, names and creation time are kept |
| `Users.ListUsers` | endpoints/user.py:65-68 | every stored user is listed exactly once, unfiltered |
| `Users.ReadUser` | endpoints/user.py:71-76 | the stored user's public view iff the id is stored, otherwise 404 "User not found" |
| `Users.SetAttrs` | endpoints/user.py:84-86 | the setattr loop fails iff some item names `username`; otherwise each field takes the last value sent for it and every other field keeps its value |
| `Users.UserDataFields` | endpoints/user.py:84 | the items of a PATCH body name `username` iff it was sent, and set phone and password to exactly the values sent |
| `Users.DeletedUserTokenNotFound` | middlewares/protect.py:34-37 | a token for a deleted user gives 404, not 401 |
| `Users.IssuedTokenResolves` | endpoints/user.py:58-61 | a token whose subject is the one login issued resolves, through the guard, to the user who logged in |
| `Users.FirstSignupBlocked` | endpoints/user.py:14 | with no stored user, every token is rejected by the guard |
| `Users.PatchCanDuplicatePhone` | endpoints/user.py:79-90 | a PATCH can break phone uniqueness |
| `Users.ValidatedPhoneHasLength` | endpoints/user.py:22-26 | a body pydantic accepts always has a 10-character phone, so the handler's own 400 length check can never fire |
| `Users.Directory.Signup` | endpoints/user.py:20-39 | on a body pydantic accepted (10-character phone, 4-character password): a phone already stored gives 400 "Phone number already used" and changes nothing; otherwise exactly one user is added, storing the hash of the password; a table with unique phones keeps them unique; the 400 length check is kept but cannot fire |
| `Users.Directory.GuardedSignup` | endpoints/user.py:14-39 | a guard failure is the reply and changes nothing; after a passing guard, a body breaking a field rule gives 422 and stores nothing; a valid body then gets the handler's outcome (400 for a used phone with nothing stored, otherwise one row added); on an empty table signup always fails |
| `Users.Directory.Login` | endpoints/user.py:43-62 | an unknown phone gives 400 "Incorrect phone or password"; a failed verify gives 400 "Incorrect email or password"; success returns a matching user whose password verifies, with the token signed over `LoginClaims` |
| `Users.Directory.UpdateUser` | endpoints/user.py:79-90 | 404 for a missing id; a body carrying `username` fails and changes nothing; otherwise only the sent fields are overwritten, the password as given without hashing |
| `Users.Directory.DeleteUser` | endpoints/user.py:93-100 | removes exactly that user and leaves all others untouched, or gives 404 when the id is absent |

## Findings

| source | as written | input that shows it | evidently intended | confidence | as-written member | corrected member |
|---|---|---|---|---|---|---|
| endpoints/user.py:14 | the router-wide `Depends(protect)` also guards signup and login, so both need a token of a stored user | an empty user table and any signup request | signup and login are public routes | high; not executed | `Users.Directory.GuardedSignup` with `Users.FirstSignupBlocked` | `Users.Directory.Signup` |

## Left out

- JWT signing and verification are foreign library calls. `jwt.encode` is a parameter. `jwt.decode`,
  including its signature and "exp" checks, is the input `Decoded`.
- bcrypt hashing and verification are foreign. `hash` and `verify` are arbitrary functions. Salting
  would make a real hash nondeterministic; the model uses a function. `verify` is total. So the 500 that
  passlib's `verify` raises on a stored value that is not a known hash (such as a plaintext password stored
  by PATCH) is not modelled in `Users.Directory.Login`.
- A request without an `Authorization` header is rejected by FastAPI's `OAuth2PasswordBearer`
  before `protect` runs. That framework code is not part of this model.
- SQLModel session mechanics (add, commit, refresh, rollback), engine creation and table creation
  are persistence plumbing. Tables are plain in-memory state, and a failed request commits nothing.
- UUID generation and `datetime.now`/`datetime.utcnow` are parameters. A colliding fresh id is excluded by a precondition.
- Coercing a path or "sub" string into a UUID key is not modelled. Ids are compared as text.
- main.py (CORS, router mounting) and config.py (settings loading) are wiring. The configured token lifetime is a parameter.
- Route paths and the mapping of outcomes to HTTP wire responses are not modelled.
- The body of FastAPI's 422 reply is not modelled. `Users.Directory.GuardedSignup` answers 422 with a fixed detail, and `Models.UserCreateErrors` gives the list of field errors.
- FastAPI validates replies against `ResponseBase`, which re-runs `validate_phone`. That check is not modelled.
  A PATCH can store a phone that is not 10 characters, because `UserUpdate` has no validator. Any later reply that sends that user
  through `ResponseBase` then fails with 500. So the `Ok` results of `Users.ListUsers`, `Users.ReadUser` and `Users.Directory.Login`
  (whose `TokenBase.data` is a `ResponseBase`) do not hold for such a user.
- The `str | None` fields of `UserUpdate` are taken as optional, and a field that is not sent is unset. The code
  mixes pydantic v1 (`BaseSettings`, `.dict`, `from_orm`) with v2 (`field_validator`). The model follows the v1 reading.
  Under v2 these fields would be required, so every PATCH would carry `username` and end in a 500.
- In a PATCH body, an explicit JSON `null` is not modelled. Such a body would fail the NOT NULL columns at commit.
- `utils.create_user`, `utils.get_users`, `utils.get_user_by_phone` and the commented-out `get_current_user` are not modelled.
  Nothing in the handlers calls them, `get_users` has no body, and `create_user` uses a `username` column that `User` lacks.
- schemas.py is not modelled: it declares an unused schema with no logic.
- The `sender_phone` foreign key to `user.phone` is not modelled. The handler never consults it.
- Races between concurrent requests (check-then-insert, check-then-update) are out of scope. Each handler is atomic.
- Users.ListUsers: returns a set rather than a list in table order, because the query has no ORDER BY.
