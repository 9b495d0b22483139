/**
 * The authorisation decision every protected endpoint takes first (verifyAuth in utils.js):
 * an access-token / refresh-token cookie pair is decoded, checked for complete and matching
 * identity claims, then tested against the requested capability. An expired access token
 * is replaced by a new one minted from the refresh token's claims.
 *
 * Token signing and verification under the server's secret are the two functions of `Jwt`;
 * the only effect of the source function (setting the renewed access-token cookie) is the
 * `rotated` field of the decision.
 */
module Session {
  import opened Store

  /** The identity claims a token carries; any of them may be missing from a payload. */
  datatype Claims = Claims(username: Option<string>, email: Option<string>, id: Option<string>,
                           role: Option<string>)

  /** What `jwt.verify` yields: the payload, a `TokenExpiredError`, or another error by name. */
  datatype Decoded = Valid(claims: Claims) | Expired | Invalid(name: string)

  /** The two lifetimes the back end signs with: access tokens 1h, refresh tokens 7d. */
  datatype Lifetime = OneHour | SevenDays

  /** Verification and signing under the one server secret. */
  datatype Jwt = Jwt(verify: string -> Decoded, sign: (Claims, Lifetime) -> string)

  datatype Cookies = Cookies(accessToken: Option<string>, refreshToken: Option<string>)

  /** The `authType` of a request, with the information each kind needs. */
  datatype AuthInfo = Simple | User(username: string) | Admin | Group(emails: seq<string>)

  /** `flag` and `cause` as returned; `rotated` is the access token written back as a cookie. */
  datatype Decision = Decision(flag: bool, cause: string, rotated: Option<string>)

  const AUTHORIZED := "Authorized"
  const UNAUTHORIZED := "Unauthorized"
  const MISSING_INFORMATION := "Token is missing information"
  const MISMATCHED_USERS := "Mismatched users"
  const LOGIN_AGAIN := "Perform login again"

  function Deny(cause: string): Decision
  {
    Decision(false, cause, None)
  }

  /** Username, email and role are all present and non-empty. */
  predicate Complete(c: Claims)
  {
    Truthy(c.username) && Truthy(c.email) && Truthy(c.role)
  }

  /** The two tokens name the same user: username, email and role agree. */
  predicate SameUser(a: Claims, b: Claims)
  {
    a.username == b.username && a.email == b.email && a.role == b.role
  }

  /** The per-`authType` test on a token's claims. */
  predicate Satisfies(info: AuthInfo, c: Claims)
  {
    match info
    case Simple => true
    case User(u) => c.username == Some(u)
    case Admin => c.role == Some(ADMIN)
    case Group(emails) => c.email.Some? && c.email.value in emails
  }

  /** The cause reported when the per-`authType` test fails. */
  function Refusal(info: AuthInfo): string
  {
    match info
    case Simple => AUTHORIZED
    case User(_) => "Token has a username different from the requested one"
    case Admin => "Admin authority needed"
    case Group(_) => "User is not in the group"
  }

  /** Both tokens decoded: completeness, agreement, then the capability on the access claims. */
  function CheckPair(info: AuthInfo, access: Claims, refresh: Claims): Decision
  {
    if !Complete(access) || !Complete(refresh) then Deny(MISSING_INFORMATION)
    else if !SameUser(access, refresh) then Deny(MISMATCHED_USERS)
    else if !Satisfies(info, access) then Deny(Refusal(info))
    else Decision(true, AUTHORIZED, None)
  }

  /**
   * The expiry branch: the refresh token is decoded again and decides alone; its claims
   * are neither checked for completeness nor compared with anything else.
   */
  function Refresh(jwt: Jwt, refreshToken: string, info: AuthInfo): Decision
  {
    match jwt.verify(refreshToken)
    case Expired => Deny(LOGIN_AGAIN)
    case Invalid(name) => Deny(name)
    case Valid(c) =>
      if !Satisfies(info, c) then Deny(Refusal(info))
      else Decision(true, AUTHORIZED, Some(jwt.sign(c, OneHour)))
  }

  function VerifyAuth(jwt: Jwt, cookies: Cookies, info: AuthInfo): (d: Decision)
    // not logged in
    ensures !Truthy(cookies.accessToken) || !Truthy(cookies.refreshToken) ==>
      d == Deny(UNAUTHORIZED)
    // a grant is always backed by a refresh token that verifies and meets the capability
    ensures d.flag ==>
      d.cause == AUTHORIZED && Truthy(cookies.refreshToken) &&
      jwt.verify(cookies.refreshToken.value).Valid? &&
      Satisfies(info, jwt.verify(cookies.refreshToken.value).claims)
    ensures d.rotated.Some? ==> d.flag
    // both tokens verify: the pair is checked and nothing is minted
    ensures Truthy(cookies.accessToken) && Truthy(cookies.refreshToken) &&
            jwt.verify(cookies.accessToken.value).Valid? && jwt.verify(cookies.refreshToken.value).Valid? ==>
      var a, r := jwt.verify(cookies.accessToken.value).claims, jwt.verify(cookies.refreshToken.value).claims;
      d.rotated == None &&
      (d.flag <==> Complete(a) && Complete(r) && SameUser(a, r) && Satisfies(info, r)) &&
      (!Complete(a) || !Complete(r) ==> d.cause == MISSING_INFORMATION) &&
      (Complete(a) && Complete(r) && !SameUser(a, r) ==> d.cause == MISMATCHED_USERS)
    // expired access token, valid refresh token: the refresh claims decide, and are re-signed
    ensures Truthy(cookies.accessToken) && Truthy(cookies.refreshToken) &&
            jwt.verify(cookies.accessToken.value).Expired? && jwt.verify(cookies.refreshToken.value).Valid? ==>
      var r := jwt.verify(cookies.refreshToken.value).claims;
      d.flag == Satisfies(info, r) &&
      d.rotated == (if d.flag then Some(jwt.sign(r, OneHour)) else None)
    // an expired refresh token ends the session unless the access token failed otherwise
    ensures Truthy(cookies.accessToken) && Truthy(cookies.refreshToken) &&
            !jwt.verify(cookies.accessToken.value).Invalid? && jwt.verify(cookies.refreshToken.value).Expired? ==>
      d == Deny(LOGIN_AGAIN)
    // any other decoding failure is reported by name and never retried
    ensures Truthy(cookies.accessToken) && Truthy(cookies.refreshToken) &&
            jwt.verify(cookies.accessToken.value).Invalid? ==>
      d == Deny(jwt.verify(cookies.accessToken.value).name)
    ensures Truthy(cookies.accessToken) && Truthy(cookies.refreshToken) &&
            !jwt.verify(cookies.accessToken.value).Invalid? && jwt.verify(cookies.refreshToken.value).Invalid? ==>
      d == Deny(jwt.verify(cookies.refreshToken.value).name)
  {
    if !Truthy(cookies.accessToken) then Deny(UNAUTHORIZED)
    else if !Truthy(cookies.refreshToken) then Deny(UNAUTHORIZED)
    else
      match jwt.verify(cookies.accessToken.value)
      case Invalid(name) => Deny(name)
      case Expired => Refresh(jwt, cookies.refreshToken.value, info)
      case Valid(a) =>
        match jwt.verify(cookies.refreshToken.value)
        case Invalid(name) => Deny(name)
        // an expired refresh token throws inside the first try block as well
        case Expired => Refresh(jwt, cookies.refreshToken.value, info)
        case Valid(r) => CheckPair(info, a, r)
  }

  /** The name of the error a call to a method the object does not have throws. */
  const TYPE_ERROR := "TypeError"

  /**
   * verifyAuth called with the request where the response belongs: a request has no
   * `cookie` method, so writing a renewed access token throws inside the expiry branch, and
   * that branch's catch reports the error by name. Every other path never touches the
   * response and decides as usual.
   */
  function VerifyAuthOnRequest(jwt: Jwt, cookies: Cookies, info: AuthInfo): (d: Decision)
    ensures d.rotated == None
    // a renewal becomes a refusal named after the thrown error
    ensures VerifyAuth(jwt, cookies, info).rotated.Some? ==> d == Deny(TYPE_ERROR)
    ensures VerifyAuth(jwt, cookies, info).rotated.None? ==> d == VerifyAuth(jwt, cookies, info)
    // so only a pair of tokens that both verify can be granted
    ensures d.flag ==>
      Truthy(cookies.accessToken) && jwt.verify(cookies.accessToken.value).Valid? &&
      Truthy(cookies.refreshToken) && jwt.verify(cookies.refreshToken.value).Valid?
  {
    var d := VerifyAuth(jwt, cookies, info);
    if d.rotated.Some? then Deny(TYPE_ERROR) else d
  }

  /** A signer whose fresh tokens verify to the claims they were signed with. */
  ghost predicate SoundSigner(jwt: Jwt)
  {
    forall c, l :: jwt.verify(jwt.sign(c, l)) == Valid(c)
  }

  /**
   * Round trip of the rotation: the renewed access token, sent back with the same refresh
   * token, passes the pair check without a further renewal, when the refresh claims are complete.
   */
  lemma RenewedTokenAccepted(jwt: Jwt, cookies: Cookies, info: AuthInfo)
    requires SoundSigner(jwt)
    requires Truthy(cookies.accessToken) && Truthy(cookies.refreshToken)
    requires jwt.verify(cookies.accessToken.value).Expired?
    requires jwt.verify(cookies.refreshToken.value).Valid?
    requires Complete(jwt.verify(cookies.refreshToken.value).claims)
    requires VerifyAuth(jwt, cookies, info).flag
    ensures var d := VerifyAuth(jwt, cookies, info);
      d.rotated.Some? && d.rotated.value != "" ==>
      VerifyAuth(jwt, cookies.(accessToken := d.rotated), info) == Decision(true, AUTHORIZED, None)
  {
    var r := jwt.verify(cookies.refreshToken.value).claims;
    assert jwt.verify(jwt.sign(r, OneHour)) == Valid(r);
  }

  /** Swapping in a token for another user makes a consistent pair fail as mismatched. */
  lemma MismatchDetected(jwt: Jwt, cookies: Cookies, info: AuthInfo)
    requires Truthy(cookies.accessToken) && Truthy(cookies.refreshToken)
    requires jwt.verify(cookies.accessToken.value).Valid? && jwt.verify(cookies.refreshToken.value).Valid?
    requires Complete(jwt.verify(cookies.accessToken.value).claims)
    requires Complete(jwt.verify(cookies.refreshToken.value).claims)
    requires jwt.verify(cookies.accessToken.value).claims.email != jwt.verify(cookies.refreshToken.value).claims.email
    ensures VerifyAuth(jwt, cookies, info) == Deny(MISMATCHED_USERS)
  {
  }
}
