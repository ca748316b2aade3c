/** The claim set that utils.create_access_token signs. The signing
    (`jwt.encode`) is a parameter: the model promises nothing about it. */
module Tokens {
  import opened Http

  /** A claim value before encoding: text, or an instant in seconds. */
  datatype ClaimValue = Text(text: string) | Instant(seconds: int)

  type Claims = map<string, ClaimValue>

  /** "sub", the subject claim of RFC 7519, section 4.1.2. */
  const SubClaim := "sub"
  /** "exp", the expiration-time claim of RFC 7519, section 4.1.4. */
  const ExpClaim := "exp"

  /** The lifetime used when the caller gives no (or a zero) timedelta. */
  const DefaultLifetime := 15 * 60

  /** The claims `create_access_token(data, expires_delta)` encodes at time
      `now`; `delta` is the timedelta in seconds, `None` when omitted. A zero
      timedelta is falsy in Python, so it takes the default as well. */
  function TokenClaims(data: Claims, now: int, delta: Option<int>): (c: Claims)
    ensures c.Keys == data.Keys + {ExpClaim}
    ensures forall k :: k in data && k != ExpClaim ==> c[k] == data[k]
    ensures delta.Some? && delta.value != 0 ==> c[ExpClaim] == Instant(now + delta.value)
    ensures delta.None? || delta.value == 0 ==> c[ExpClaim] == Instant(now + DefaultLifetime)
  {
    var expire := if delta.Some? && delta.value != 0 then now + delta.value else now + DefaultLifetime;
    data[ExpClaim := Instant(expire)]
  }

  /** utils.create_access_token: copy `data`, add "exp", sign. Dafny maps are
      values, so the caller's `data` cannot be changed by the update. */
  method CreateAccessToken(data: Claims, now: int, delta: Option<int>, encode: Claims -> string)
    returns (toEncode: Claims, token: string)
    ensures toEncode == TokenClaims(data, now, delta)
    ensures token == encode(toEncode)
  {
    toEncode := data;
    var expire: int;
    if delta.Some? && delta.value != 0 {
      expire := now + delta.value;
    } else {
      expire := now + DefaultLifetime;
    }
    toEncode := toEncode[ExpClaim := Instant(expire)];
    token := encode(toEncode);
  }

  /** Omitting the timedelta and passing a zero one give the same claims. */
  lemma ZeroDeltaIsDefault(data: Claims, now: int)
    ensures TokenClaims(data, now, Some(0)) == TokenClaims(data, now, None)
    ensures TokenClaims(data, now, None)[ExpClaim] == Instant(now + 900)
  {
  }
}
