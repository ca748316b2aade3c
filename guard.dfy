/** middlewares/protect.py: resolve a bearer token into a stored user. */
module Guard {
  import opened Http
  import opened Models
  import opened Tokens

  /** What `jwt.decode` produced: a failure (bad signature, malformed token,
      expired "exp"), or the payload's claims. */
  datatype Decoded = DecodeFailed | Payload(claims: map<string, string>)

  const CredentialsDetail := "Could not validate credentials"

  /** The token decoded and carries a "sub" claim. */
  predicate HasSubject(d: Decoded) {
    d.Payload? && SubClaim in d.claims
  }

  /** protect: token errors (401) are decided before the user table is
      consulted; a valid subject naming no user is 404; otherwise the stored
      user whose id is the subject. */
  function Protect(d: Decoded, users: map<Id, User>): (r: Response<User>)
    ensures !HasSubject(d) <==> r == Err(StatusUnauthorized, CredentialsDetail)
    ensures HasSubject(d) && d.claims[SubClaim] !in users <==> r == Err(StatusNotFound, UserNotFoundDetail)
    ensures r.Ok? <==> HasSubject(d) && d.claims[SubClaim] in users
    ensures r.Ok? ==> r.value == users[d.claims[SubClaim]]
  {
    match d
    case DecodeFailed => Err(StatusUnauthorized, CredentialsDetail)
    case Payload(claims) =>
      if SubClaim !in claims then Err(StatusUnauthorized, CredentialsDetail)
      else if claims[SubClaim] !in users then Err(StatusNotFound, UserNotFoundDetail)
      else Ok(users[claims[SubClaim]])
  }

  /** A token error does not depend on the user table at all. */
  lemma TokenErrorsPrecedeLookup(d: Decoded, a: map<Id, User>, b: map<Id, User>)
    requires !HasSubject(d)
    ensures Protect(d, a) == Protect(d, b)
  {
  }
}
