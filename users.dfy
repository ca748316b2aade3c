/** endpoints/user.py: the user directory (signup, login, reads, partial
    update, delete) over the `user` table, keyed by id. */
module Users {
  import opened Http
  import opened Models
  import opened Tokens
  import opened Guard

  const PhoneUsedDetail := "Phone number already used"
  const UnknownPhoneDetail := "Incorrect phone or password"
  const WrongPasswordDetail := "Incorrect email or password"
  const TokenType := "bearer"

  /** TokenBase: the login reply. */
  datatype Token = Token(accessToken: string, tokenType: string, data: UserPublic)

  /** The table keeps every row under its own id. */
  ghost predicate KeyedById(users: map<Id, User>) {
    forall id :: id in users ==> users[id].id == id
  }

  /** Some stored user has this phone. */
  predicate PhoneTaken(users: map<Id, User>, phone: string) {
    exists id :: id in users && users[id].phone == phone
  }

  /** No two stored users share a phone. */
  ghost predicate UniquePhones(users: map<Id, User>) {
    forall a, b :: a in users && b in users && users[a].phone == users[b].phone ==> a == b
  }

  /** The row signup stores: `User.from_orm(user)` after the password has been
      replaced by its hash. */
  function NewUser(req: UserCreate, id: Id, now: int, hash: string -> string): (u: User)
    ensures u.password == hash(req.password)
    ensures u.id == id && u.createdAt == now
    ensures u.firstName == req.firstName && u.lastName == req.lastName && u.phone == req.phone
  {
    User(id, req.firstName, req.lastName, req.phone, hash(req.password), now)
  }

  /** The claims login has signed: subject `str(user.id)`, lifetime the
      configured minutes, or 15 minutes when that setting is 0. */
  function LoginClaims(id: Id, now: int, minutes: int): (c: Claims)
    ensures c.Keys == {SubClaim, ExpClaim}
    ensures c[SubClaim] == Text(id)
    ensures minutes != 0 ==> c[ExpClaim] == Instant(now + 60 * minutes)
    ensures minutes == 0 ==> c[ExpClaim] == Instant(now + DefaultLifetime)
  {
    TokenClaims(map[SubClaim := Text(id)], now, Some(minutes * 60))
  }

  /** The reply of a successful login for `u`. */
  function IssuedToken(u: User, now: int, minutes: int, encode: Claims -> string): Token {
    Token(encode(LoginClaims(u.id, now, minutes)), TokenType, Public(u))
  }

  /** The public view of every stored user. */
  function PublicSet(users: map<Id, User>): set<UserPublic> {
    set id | id in users :: Public(users[id])
  }

  /** Distinct ids give distinct public views, so none is lost. */
  lemma {:induction false} PublicSetSize(users: map<Id, User>)
    requires KeyedById(users)
    ensures |PublicSet(users)| == |users|
    decreases |users|
  {
    if users != map[] {
      var k :| k in users;
      var rest := users - {k};
      assert rest.Keys == users.Keys - {k};
      assert |rest| == |users| - 1;
      PublicSetSize(rest);
      forall p | p in PublicSet(users)
        ensures p in PublicSet(rest) + {Public(users[k])}
      {
        var j :| j in users && p == Public(users[j]);
        if j != k { assert j in rest; }
      }
      assert PublicSet(users) == PublicSet(rest) + {Public(users[k])};
      assert Public(users[k]) !in PublicSet(rest);
    }
  }

  /** read_users (the listing): every stored user, unfiltered, each once. */
  function ListUsers(users: map<Id, User>): (r: set<UserPublic>)
    requires KeyedById(users)
    ensures |r| == |users|
    ensures forall id :: id in users ==> Public(users[id]) in r
    ensures forall p :: p in r ==> p.id in users && p == Public(users[p.id])
  {
    PublicSetSize(users);
    PublicSet(users)
  }

  /** read_users (by id): the stored user, or 404. */
  function ReadUser(users: map<Id, User>, id: Id): (r: Response<UserPublic>)
    requires KeyedById(users)
    ensures r.Ok? <==> id in users
    ensures r.Ok? ==> r.value.id == id && r.value == Public(users[id])
    ensures r.Err? ==> r == Err(StatusNotFound, UserNotFoundDetail)
  {
    if id !in users then Err(StatusNotFound, UserNotFoundDetail) else Ok(Public(users[id]))
  }

  /** The value the last item for field `f` sets, if any item does. */
  function Lookup(items: seq<(UserField, string)>, f: UserField): Option<string> {
    if items == [] then None
    else if items[|items| - 1].0 == f then Some(items[|items| - 1].1)
    else Lookup(items[..|items| - 1], f)
  }

  /** The row a PATCH body yields: each sent field overwrites the stored one,
      a sent password is stored as given, and User has no `username` column,
      so a body that sends one cannot be applied. */
  function Patched(u: User, patch: UserUpdate): (r: Option<User>)
    ensures r.None? <==> patch.username.Some?
    ensures r.Some? ==> r.value.id == u.id && r.value.firstName == u.firstName
                        && r.value.lastName == u.lastName && r.value.createdAt == u.createdAt
    ensures r.Some? && patch.phone.Some? ==> r.value.phone == patch.phone.value
    ensures r.Some? && patch.phone.None? ==> r.value.phone == u.phone
    ensures r.Some? && patch.password.Some? ==> r.value.password == patch.password.value
    ensures r.Some? && patch.password.None? ==> r.value.password == u.password
  {
    if patch.username.Some? then None
    else Some(u.(phone := patch.phone.GetOr(u.phone), password := patch.password.GetOr(u.password)))
  }

  /** The `setattr` loop of update_hero, run on the session's copy of the
      row; assigning a key that User does not declare raises. */
  method SetAttrs(row: User, items: seq<(UserField, string)>) returns (r: Option<User>)
    ensures r.None? <==> exists j :: 0 <= j < |items| && items[j].0 == Username
    ensures r.Some? ==> r.value == row.(phone := Lookup(items, Phone).GetOr(row.phone),
                                       password := Lookup(items, Password).GetOr(row.password))
  {
    var cur := row;
    var i := 0;
    while i < |items|
      invariant 0 <= i <= |items|
      invariant forall j :: 0 <= j < i ==> items[j].0 != Username
      invariant cur == row.(phone := Lookup(items[..i], Phone).GetOr(row.phone),
                            password := Lookup(items[..i], Password).GetOr(row.password))
    {
      var (key, value) := items[i];
      assert items[..i + 1][..i] == items[..i];
      if key == Username {
        return None;
      } else if key == Phone {
        cur := cur.(phone := value);
      } else {
        cur := cur.(password := value);
      }
      i := i + 1;
    }
    assert items[..i] == items;
    r := Some(cur);
  }

  /** A later item for a field wins over an earlier one. */
  lemma {:induction false} LookupAppend(a: seq<(UserField, string)>, b: seq<(UserField, string)>, f: UserField)
    ensures Lookup(a + b, f) == if Lookup(b, f).Some? then Lookup(b, f) else Lookup(a, f)
    decreases |b|
  {
    if b == [] {
      assert a + b == a;
    } else {
      var c := a + b;
      assert c[..|c| - 1] == a + b[..|b| - 1];
      assert c[|c| - 1] == b[|b| - 1];
      LookupAppend(a, b[..|b| - 1], f);
    }
  }

  /** The items of a PATCH body set exactly the fields it carries. */
  lemma UserDataFields(patch: UserUpdate)
    ensures (exists j :: 0 <= j < |UserData(patch)| && UserData(patch)[j].0 == Username) <==> patch.username.Some?
    ensures Lookup(UserData(patch), Phone) == patch.phone
    ensures Lookup(UserData(patch), Password) == patch.password
  {
    var items := UserData(patch);
    var u := if patch.username.Some? then [(Username, patch.username.value)] else [];
    var ph := if patch.phone.Some? then [(Phone, patch.phone.value)] else [];
    var pw := if patch.password.Some? then [(Password, patch.password.value)] else [];
    assert items == u + ph + pw;
    LookupAppend(u + ph, pw, Phone);
    LookupAppend(u, ph, Phone);
    LookupAppend(u + ph, pw, Password);
    LookupAppend(u, ph, Password);
    assert Lookup(u, Phone).None? && Lookup(u, Password).None?;
    if patch.username.Some? {
      assert items[0].0 == Username;
    }
  }

  /** Users who authenticate with a token whose subject is `id` after that
      user is deleted are told 404, not 401. */
  lemma DeletedUserTokenNotFound(users: map<Id, User>, id: Id, d: Decoded)
    requires d.Payload? && SubClaim in d.claims && d.claims[SubClaim] == id
    ensures Protect(d, users - {id}) == Err(StatusNotFound, UserNotFoundDetail)
  {
  }

  /** A token carrying the subject login put in it resolves, through the
      guard, to the user who logged in, as long as that user is stored. */
  lemma IssuedTokenResolves(users: map<Id, User>, u: User, now: int, minutes: int, d: Decoded)
    requires u.id in users && users[u.id] == u
    requires d.Payload? && SubClaim in d.claims
    requires Text(d.claims[SubClaim]) == LoginClaims(u.id, now, minutes)[SubClaim]
    ensures Protect(d, users) == Ok(u)
  {
  }

  /** A signup body that pydantic accepts always passes the handler's own
      length test, so that 400 reply can never be sent. */
  lemma ValidatedPhoneHasLength(req: UserCreate)
    requires UserCreateErrors(req) == []
    ensures |req.phone| == PhoneLength
  {
  }

  /** Without a stored user no token resolves, so no request gets past the
      guard. */
  lemma FirstSignupBlocked(d: Decoded)
    ensures Protect(d, map[]).Err?
  {
  }

  /** PATCH does not check phones, so it can give two users the same one. */
  lemma PatchCanDuplicatePhone()
    ensures exists users: map<Id, User>, id: Id, patch: UserUpdate ::
      && id in users && KeyedById(users) && UniquePhones(users)
      && Patched(users[id], patch).Some?
      && !UniquePhones(users[id := Patched(users[id], patch).value])
  {
    var a := User("a", "A", "A", "0000000000", "h", 0);
    var b := User("b", "B", "B", "1111111111", "h", 0);
    var users := map["a" := a, "b" := b];
    var patch := UserUpdate(None, Some(b.phone), None);
    var after := users["a" := Patched(a, patch).value];
    assert after["a"].phone == after["b"].phone;
    assert !UniquePhones(after);
    assert UniquePhones(users);
    assert "a" in users && KeyedById(users) && Patched(users["a"], patch).Some?
      && !UniquePhones(users["a" := Patched(users["a"], patch).value]);
  }

  /** The `user` table. */
  class Directory {
    var users: map<Id, User>

    ghost predicate Valid()
      reads this
    {
      KeyedById(users)
    }

    constructor ()
      ensures Valid() && users == map[]
    {
      users := map[];
    }

    /** create_user, on a body pydantic has already accepted: a phone some
        user already has is 400 and stores nothing; otherwise one row is
        added, holding the hash of the password and not the password. The
        handler's own length test cannot fire on such a body. */
    method Signup(req: UserCreate, id: Id, now: int, hash: string -> string) returns (r: Response<UserPublic>)
      requires Valid()
      requires id !in users
      requires UserCreateErrors(req) == []
      modifies this
      ensures Valid()
      ensures r.Ok? <==> !PhoneTaken(old(users), req.phone)
      ensures PhoneTaken(old(users), req.phone) ==> r == Err(StatusBadRequest, PhoneUsedDetail)
      ensures r.Err? ==> users == old(users)
      ensures r.Ok? ==> users == old(users)[id := NewUser(req, id, now, hash)]
      ensures r.Ok? ==> users[id].password == hash(req.password) && r.value == Public(users[id])
      ensures UniquePhones(old(users)) ==> UniquePhones(users)
    {
      ValidatedPhoneHasLength(req);
      if !(|req.phone| == PhoneLength) {
        return Err(StatusBadRequest, PhoneMessage);
      }
      if PhoneTaken(users, req.phone) {
        return Err(StatusBadRequest, PhoneUsedDetail);
      }
      var created := NewUser(req, id, now, hash);
      users := users[id := created];
      r := Ok(Public(created));
    }

    /** The signup route as mounted: the router-wide guard runs first, then
        pydantic validates the body (422 on any field error), then the
        handler runs. */
    method GuardedSignup(d: Decoded, req: UserCreate, id: Id, now: int, hash: string -> string)
      returns (r: Response<UserPublic>)
      requires Valid()
      requires id !in users
      modifies this
      ensures Valid()
      ensures Protect(d, old(users)).Err? ==> r == Err(Protect(d, old(users)).code, Protect(d, old(users)).detail) && users == old(users)
      ensures Protect(d, old(users)).Ok? && UserCreateErrors(req) != [] ==>
        r == Err(StatusUnprocessable, ValidationDetail) && users == old(users)
      ensures Protect(d, old(users)).Ok? && UserCreateErrors(req) == [] ==>
        (r.Ok? <==> !PhoneTaken(old(users), req.phone))
      ensures Protect(d, old(users)).Ok? && UserCreateErrors(req) == [] && PhoneTaken(old(users), req.phone) ==>
        r == Err(StatusBadRequest, PhoneUsedDetail)
      ensures r.Err? ==> users == old(users)
      ensures r.Ok? ==> r == Ok(Public(NewUser(req, id, now, hash))) && users == old(users)[id := NewUser(req, id, now, hash)]
      ensures old(users) == map[] ==> r.Err? && users == old(users)
    {
      var guard := Protect(d, users);
      if guard.Err? {
        FirstSignupBlocked(d);
        return Err(guard.code, guard.detail);
      }
      if UserCreateErrors(req) != [] {
        return Err(StatusUnprocessable, ValidationDetail);
      }
      r := Signup(req, id, now, hash);
    }

    /** login: an unknown phone and a wrong password are both 400 but with
        different details; on success the token's subject is the user's id.
        The lookup takes the first match of an unordered query. */
    method Login(username: string, password: string, verify: (string, string) -> bool,
                 now: int, minutes: int, encode: Claims -> string) returns (r: Response<Token>)
      requires Valid()
      ensures !PhoneTaken(users, username) ==> r == Err(StatusBadRequest, UnknownPhoneDetail)
      ensures r.Ok? ==> exists id :: id in users && users[id].phone == username
                          && verify(password, users[id].password)
                          && r.value == IssuedToken(users[id], now, minutes, encode)
      ensures PhoneTaken(users, username) && r.Err? ==>
                && r == Err(StatusBadRequest, WrongPasswordDetail)
                && exists id :: id in users && users[id].phone == username && !verify(password, users[id].password)
      ensures (PhoneTaken(users, username)
               && forall id :: id in users && users[id].phone == username ==> verify(password, users[id].password))
              ==> r.Ok?
    {
      if !PhoneTaken(users, username) {
        return Err(StatusBadRequest, UnknownPhoneDetail);
      }
      var id :| id in users && users[id].phone == username;
      var found := users[id];
      if !verify(password, found.password) {
        return Err(StatusBadRequest, WrongPasswordDetail);
      }
      var claims, accessToken := CreateAccessToken(map[SubClaim := Text(found.id)], now, Some(minutes * 60), encode);
      r := Ok(Token(accessToken, TokenType, Public(found)));
    }

    /** update_hero: 404 for a missing id; otherwise the sent fields replace
        the stored ones and the reply is the row seen as a UserUpdate. */
    method UpdateUser(id: Id, patch: UserUpdate) returns (r: Response<UserUpdate>)
      requires Valid()
      modifies this
      ensures Valid()
      ensures id !in old(users) ==> r == Err(StatusNotFound, UserNotFoundDetail) && users == old(users)
      ensures id in old(users) && Patched(old(users)[id], patch).None? ==>
        r == Err(StatusServerError, ServerErrorDetail) && users == old(users)
      ensures id in old(users) && Patched(old(users)[id], patch).Some? ==>
        var u := Patched(old(users)[id], patch).value;
        r == Ok(UpdateView(u)) && users == old(users)[id := u]
    {
      if id !in users {
        return Err(StatusNotFound, UserNotFoundDetail);
      }
      UserDataFields(patch);
      var row := SetAttrs(users[id], UserData(patch));
      if row.None? {
        return Err(StatusServerError, ServerErrorDetail);
      }
      users := users[id := row.value];
      r := Ok(UpdateView(row.value));
    }

    /** delete_hero: removes exactly that user, or 404. */
    method DeleteUser(id: Id) returns (r: Response<()>)
      requires Valid()
      modifies this
      ensures Valid()
      ensures id !in old(users) ==> r == Err(StatusNotFound, UserNotFoundDetail) && users == old(users)
      ensures id in old(users) ==> r == Ok(()) && users.Keys == old(users).Keys - {id}
      ensures forall k :: k in users ==> k in old(users) && users[k] == old(users)[k]
    {
      if id !in users {
        return Err(StatusNotFound, UserNotFoundDetail);
      }
      users := users - {id};
      r := Ok(());
    }
  }
}
