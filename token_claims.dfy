/**
 * The claim dictionaries that `create_token`, `create_access_token` and
 * `create_refresh_token` build (src/core/auth.py). The clock reading is a
 * parameter (`now`, in whole seconds, as the "exp" claim is serialised),
 * the expiry settings are parameters, and the signing step is not modelled.
 */
module TokenClaims {

  /** A JSON claim value. */
  datatype ClaimValue = Text(s: string) | Number(n: int) | Bool(b: bool) | Null

  type Claims = map<string, ClaimValue>

  const SECONDS_PER_MINUTE := 60
  const SECONDS_PER_DAY := 86_400

  const ACCESS := "access"
  const REFRESH := "refresh"

  /**
   * A copy of `data` updated with "exp" = now + expiresDelta and
   * "type" = tokenType; the caller's dictionary is a value and so untouched.
   */
  function CreateToken(data: Claims, now: int, expiresDelta: int, tokenType: string): (claims: Claims)
    ensures claims.Keys == data.Keys + {"exp", "type"}
    ensures claims["type"] == Text(tokenType)
    ensures claims["exp"] == Number(now + expiresDelta)
    ensures forall k :: k in data && k != "exp" && k != "type" ==> claims[k] == data[k]
  {
    data["exp" := Number(now + expiresDelta)]["type" := Text(tokenType)]
  }

  /** An access token expires `expireMinutes` minutes after `now` and is stamped "access". */
  function CreateAccessToken(data: Claims, now: int, expireMinutes: int): (claims: Claims)
    ensures claims.Keys == data.Keys + {"exp", "type"}
    ensures claims["type"] == Text(ACCESS)
    ensures claims["exp"] == Number(now + expireMinutes * SECONDS_PER_MINUTE)
    ensures forall k :: k in data && k != "exp" && k != "type" ==> claims[k] == data[k]
  {
    CreateToken(data, now, expireMinutes * SECONDS_PER_MINUTE, ACCESS)
  }

  /** A refresh token expires `expireDays` days after `now` and is stamped "refresh". */
  function CreateRefreshToken(data: Claims, now: int, expireDays: int): (claims: Claims)
    ensures claims.Keys == data.Keys + {"exp", "type"}
    ensures claims["type"] == Text(REFRESH)
    ensures claims["exp"] == Number(now + expireDays * SECONDS_PER_DAY)
    ensures forall k :: k in data && k != "exp" && k != "type" ==> claims[k] == data[k]
  {
    CreateToken(data, now, expireDays * SECONDS_PER_DAY, REFRESH)
  }
}
