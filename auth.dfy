/**
 * The decision logic of the loans service's auth helper
 * (code/loans-service/src/shared/auth.js): reading the bearer token out of the
 * authorization header, checking the role claim of a decoded token, and how
 * requireAuth and requireRole turn the outcome of token verification into an
 * authorisation result.
 *
 * Signature verification (jsonwebtoken checking the token against the keys of
 * the Auth0 tenant's JWKS endpoint) is not modelled; it is the parameter
 * `verify`, an oracle from the token text to what verification did with it.
 */
module Auth {
  import opened Wrappers
  import opened JsText

  /** A claim value of the decoded token, as far as hasRole tells values apart. */
  datatype Json = JString(s: string) | JArray(items: seq<Json>) | JOther

  /** The decoded token payload: claim name to claim value. */
  type Claims = map<string, Json>

  const BearerPrefix := "Bearer "

  const MsgMissingBearer := "Missing bearer token"
  const MsgInvalidToken := "Invalid token"
  const MsgMisconfigured := "Auth misconfigured"
  const MsgForbidden := "Forbidden"

  /** hasRole(decoded, role), reading the claim named roleClaim (ROLE_CLAIM). */
  function HasRole(decoded: Claims, roleClaim: string, role: string): bool
  {
    if roleClaim !in decoded then false
    else match decoded[roleClaim]
      case JArray(items) => JString(role) in items
      case JString(s) => s == role
      case JOther => false
  }

  /** The roles a claim grants, normalised to a set whatever the claim's shape. */
  function Roles(decoded: Claims, roleClaim: string): set<string>
  {
    if roleClaim !in decoded then {}
    else match decoded[roleClaim]
      case JArray(items) => set i | 0 <= i < |items| && items[i].JString? :: items[i].s
      case JString(s) => {s}
      case JOther => {}
  }

  /** A list claim holds the role exactly when the list contains it as a string, a
      string claim exactly when it is the role; any other or missing claim never does. */
  lemma HasRoleByShape(decoded: Claims, roleClaim: string, role: string)
    ensures roleClaim in decoded && decoded[roleClaim].JArray? ==>
      (HasRole(decoded, roleClaim, role) <==>
        exists i :: 0 <= i < |decoded[roleClaim].items| && decoded[roleClaim].items[i] == JString(role))
    ensures roleClaim in decoded && decoded[roleClaim].JString? ==>
      (HasRole(decoded, roleClaim, role) <==> decoded[roleClaim].s == role)
    ensures roleClaim !in decoded || decoded[roleClaim].JOther? ==> !HasRole(decoded, roleClaim, role)
  {
  }

  /** hasRole agrees with membership in the normalised set of roles. */
  lemma HasRoleIffInRoles(decoded: Claims, roleClaim: string, role: string)
    ensures HasRole(decoded, roleClaim, role) <==> role in Roles(decoded, roleClaim)
  {
    if roleClaim in decoded && decoded[roleClaim].JArray? {
      var items := decoded[roleClaim].items;
      if role in Roles(decoded, roleClaim) {
        var i :| 0 <= i < |items| && items[i].JString? && items[i].s == role;
        assert items[i] == JString(role);
      }
      if JString(role) in items {
        var i :| 0 <= i < |items| && items[i] == JString(role);
        assert items[i].s in Roles(decoded, roleClaim);
      }
    }
  }

  /** The result objects of verifyJwtFromRequest, requireAuth and requireRole. */
  datatype AuthResult = AuthOk(decoded: Claims) | AuthFailed(status: int, error: string)

  /** What jwt.verify did with a token: decoded it, reported an error through its
      callback, or threw (as when the JWKS client cannot be configured). */
  datatype Verification = Verified(decoded: Claims) | Rejected | Threw

  /** The promise verifyJwtFromRequest returns: resolved with a result, or rejected. */
  datatype Settled = Resolved(result: AuthResult) | Thrown

  /** The header check and token extraction of verifyJwtFromRequest. authorization is
      the value of the header (Headers.get ignores the case of the name), None when absent. */
  function BearerToken(authorization: Option<string>): (token: Option<string>)
    ensures token.Some? <==> authorization.Some? && StartsWith(authorization.value, BearerPrefix)
    ensures token.Some? ==> token.value == Trim(authorization.value[|BearerPrefix|..])
  {
    if authorization.None? || authorization.value == "" || !StartsWith(authorization.value, BearerPrefix) then None
    else Some(Trim(authorization.value[|BearerPrefix|..]))
  }

  /** verifyJwtFromRequest */
  function VerifyJwtFromRequest(authorization: Option<string>, verify: string -> Verification): Settled
  {
    match BearerToken(authorization)
    case None => Resolved(AuthFailed(401, MsgMissingBearer))
    case Some(token) =>
      match verify(token)
      case Verified(decoded) => Resolved(AuthOk(decoded))
      case Rejected => Resolved(AuthFailed(401, MsgInvalidToken))
      case Threw => Thrown
  }

  /** The closure requireAuth() returns, applied to a request. */
  function RequireAuth(authorization: Option<string>, verify: string -> Verification): AuthResult
  {
    match VerifyJwtFromRequest(authorization, verify)
    case Resolved(result) =>
      if result.AuthFailed? then result else AuthOk(result.decoded)
    case Thrown => AuthFailed(500, MsgMisconfigured)
  }

  /** The closure requireRole(role) returns, applied to a request. */
  function RequireRole(role: string, roleClaim: string, authorization: Option<string>,
                       verify: string -> Verification): AuthResult
  {
    var auth := RequireAuth(authorization, verify);
    if auth.AuthFailed? then auth
    else if !HasRole(auth.decoded, roleClaim, role) then AuthFailed(403, MsgForbidden)
    else AuthOk(auth.decoded)
  }

  /** Without a case-sensitive "Bearer " header the answer is 401 "Missing bearer token"
      whatever the verifier would have said: verification is never consulted. */
  lemma MissingBearerSkipsVerification(authorization: Option<string>,
                                       verify1: string -> Verification, verify2: string -> Verification)
    requires authorization.None? || !StartsWith(authorization.value, BearerPrefix)
    ensures VerifyJwtFromRequest(authorization, verify1) == Resolved(AuthFailed(401, MsgMissingBearer))
    ensures RequireAuth(authorization, verify1) == RequireAuth(authorization, verify2) ==
            AuthFailed(401, MsgMissingBearer)
  {
  }

  /** The only thing verification is asked about is the header after its 7-character
      "Bearer " prefix, trimmed: two verifiers that agree on that token give the same
      result, and the result is that token's verification outcome mapped to a status. */
  lemma VerifiedTokenIsTrimmedRemainder(header: string,
                                        verify1: string -> Verification, verify2: string -> Verification)
    requires StartsWith(header, BearerPrefix)
    requires verify1(Trim(header[7..])) == verify2(Trim(header[7..]))
    ensures RequireAuth(Some(header), verify1) == RequireAuth(Some(header), verify2)
    ensures var v := verify1(Trim(header[7..]));
      RequireAuth(Some(header), verify1) ==
        match v
        case Verified(d) => AuthOk(d)
        case Rejected => AuthFailed(401, MsgInvalidToken)
        case Threw => AuthFailed(500, MsgMisconfigured)
  {
    assert |BearerPrefix| == 7;
  }

  /** requireAuth only ever fails with 401 or 500. */
  lemma RequireAuthStatuses(authorization: Option<string>, verify: string -> Verification)
    ensures RequireAuth(authorization, verify).AuthFailed? ==>
      RequireAuth(authorization, verify).status in {401, 500}
  {
  }

  /** requireRole passes an authentication failure through unchanged, answers 403 to an
      authenticated caller without the role, and otherwise succeeds with the same claims. */
  lemma RequireRoleComposition(role: string, roleClaim: string, authorization: Option<string>,
                               verify: string -> Verification)
    ensures var auth := RequireAuth(authorization, verify);
      var r := RequireRole(role, roleClaim, authorization, verify);
      (auth.AuthFailed? ==> r == auth) &&
      (auth.AuthOk? && !HasRole(auth.decoded, roleClaim, role) ==> r == AuthFailed(403, MsgForbidden)) &&
      (r.AuthOk? <==> auth.AuthOk? && role in Roles(auth.decoded, roleClaim)) &&
      (r.AuthOk? ==> r.decoded == auth.decoded)
  {
    var auth := RequireAuth(authorization, verify);
    if auth.AuthOk? {
      HasRoleIffInRoles(auth.decoded, roleClaim, role);
    }
  }
}
