/**
 * `validate_token` (src/core/validations.py): the checks applied to a
 * decoded payload. Decoding and signature checking are not modelled.
 */
module TokenValidation {
  import opened Wrappers
  import opened Errors
  import opened Text
  import opened TokenClaims

  /** `payload.get("type")`. */
  function TypeClaim(payload: Claims): (t: Option<ClaimValue>)
    ensures t.Some? <==> "type" in payload
    ensures t.Some? ==> t.value == payload["type"]
  {
    if "type" in payload then Some(payload["type"]) else None
  }

  /** How an f-string writes a claim value; an absent claim is Python's `None`. */
  function Render(v: Option<ClaimValue>): string {
    match v
    case None => "None"
    case Some(Null) => "None"
    case Some(Text(s)) => s
    case Some(Number(n)) => IntToString(n)
    case Some(Bool(b)) => if b then "True" else "False"
  }

  /**
   * The type claim must equal the expected type (a string equal to it: a
   * number or an absent claim never is), and then a "sub" claim must be
   * present; the type check comes first.
   */
  function ValidateToken(tokenType: string, payload: Claims): (r: Outcome)
    ensures r.Pass? <==> "type" in payload && payload["type"] == Text(tokenType) && "sub" in payload
    ensures TypeClaim(payload) != Some(Text(tokenType)) ==>
              r == Fail(TokenTypeMismatch(Render(TypeClaim(payload)), tokenType))
    ensures TypeClaim(payload) == Some(Text(tokenType)) && "sub" !in payload ==> r == Fail(InvalidToken)
    ensures r.Fail? ==> StatusOf(r.error) == HTTP_401_UNAUTHORIZED
  {
    var current := TypeClaim(payload);
    if current != Some(Text(tokenType)) then
      Fail(TokenTypeMismatch(Render(current), tokenType))
    else if "sub" !in payload then
      Fail(InvalidToken)
    else
      Pass
  }

  /** A payload with no "type" claim is refused, and the message shows `None`. */
  lemma MissingTypeIsRefused(tokenType: string, payload: Claims)
    requires "type" !in payload
    ensures ValidateToken(tokenType, payload) == Fail(TokenTypeMismatch("None", tokenType))
  {
  }

  /** Claims of an access token carrying "sub" pass the access check and fail the refresh check. */
  lemma AccessClaimsAreAccessOnly(data: Claims, now: int, expireMinutes: int)
    requires "sub" in data
    ensures ValidateToken(ACCESS, CreateAccessToken(data, now, expireMinutes)).Pass?
    ensures ValidateToken(REFRESH, CreateAccessToken(data, now, expireMinutes))
            == Fail(TokenTypeMismatch(ACCESS, REFRESH))
  {
  }

  /** Claims of a refresh token carrying "sub" pass the refresh check and fail the access check. */
  lemma RefreshClaimsAreRefreshOnly(data: Claims, now: int, expireDays: int)
    requires "sub" in data
    ensures ValidateToken(REFRESH, CreateRefreshToken(data, now, expireDays)).Pass?
    ensures ValidateToken(ACCESS, CreateRefreshToken(data, now, expireDays))
            == Fail(TokenTypeMismatch(REFRESH, ACCESS))
  {
  }

  /** Whatever "type" the caller's data carries, the stamped type wins. */
  lemma StampedTypeOverridesData(data: Claims, now: int, expireMinutes: int)
    requires "sub" in data && "type" in data
    ensures ValidateToken(ACCESS, CreateAccessToken(data, now, expireMinutes)).Pass?
  {
  }
}
