/** Session tokens and the `requireAuth` middleware
    (backend/src/middleware/requireAuth.ts). The token is a signed JWT; its
    signature and expiry check is an oracle that either yields the payload the
    token carries or rejects it. */
module Session {
  import opened Wrappers
  import Users

  /** `expiresIn: "7d"`, in seconds as JWT timestamps are. */
  const SessionLifetimeSeconds: nat := 7 * 24 * 60 * 60

  /** The name of the session cookie: the routes set it, and `requireAuth`
      reads and clears it. */
  const CookieName: string := "token"

  /** The cookie's `maxAge`, in milliseconds. */
  const CookieMaxAgeMs: nat := 7 * 24 * 60 * 60 * 1000

  /** What `jwt.sign({ userId, email }, secret, { expiresIn: "7d" })` signs:
      the claims plus the `iat` and `exp` timestamps in seconds. */
  datatype SessionPayload = SessionPayload(userId: Users.UserId, email: string, iat: nat, exp: nat)

  /** The payload minted for a user at `nowMs`. */
  function Mint(user: Users.User, nowMs: nat): (p: SessionPayload)
    ensures p.userId == user.id && p.email == user.email
    ensures p.iat * 1000 <= nowMs < p.iat * 1000 + 1000
    ensures (p.exp - p.iat) * 1000 == CookieMaxAgeMs
  {
    SessionPayload(user.id, user.email, nowMs / 1000, nowMs / 1000 + SessionLifetimeSeconds)
  }

  /** What `jwt.verify(token, secret)` does with a token: return its payload,
      or throw (bad signature, malformed, expired). */
  datatype Verdict = Verified(payload: SessionPayload) | Invalid

  /** What `requireAuth` attaches to the request: the user id only. */
  datatype RequestUser = RequestUser(userId: Users.UserId)

  /** The middleware's decision: call `next()` with the request user, or
      answer 401 with a message, naming the cookie `res.clearCookie` removes,
      if any. */
  datatype Decision =
    | Proceed(user: RequestUser)
    | Unauthorized(message: string, cleared: Option<string>)

  /** `req.cookies.token`: the session cookie among those the browser sent,
      if there is one. */
  function ReadCookie(cookies: map<string, string>): (r: Option<string>)
    ensures r.Some? <==> CookieName in cookies
    ensures r.Some? ==> r.value == cookies[CookieName]
  {
    if CookieName in cookies then Some(cookies[CookieName]) else None
  }

  const NoTokenMessage: string := "Unauthorized: No token provided"
  const UserNotFoundMessage: string := "Unauthorized: User not found"
  const InvalidTokenMessage: string := "Unauthorized: Invalid token"

  /** `requireAuth`: `cookie` is `req.cookies.token` (see `ReadCookie`),
      `verify` the token oracle and `users` the user collection. */
  function RequireAuth(cookie: Option<string>, verify: string -> Verdict, users: Users.Store): (d: Decision)
    ensures d.Proceed? <==>
              && cookie.Some? && cookie.value != ""
              && verify(cookie.value).Verified?
              && verify(cookie.value).payload.userId in users.byId
    ensures d.Proceed? ==> d.user.userId == verify(cookie.value).payload.userId
    ensures (cookie.None? || cookie.value == "") ==> d == Unauthorized(NoTokenMessage, None)
    ensures cookie.Some? && cookie.value != "" && verify(cookie.value).Invalid? ==>
              d == Unauthorized(InvalidTokenMessage, Some(CookieName))
    ensures cookie.Some? && cookie.value != "" && verify(cookie.value).Verified? &&
            verify(cookie.value).payload.userId !in users.byId ==>
              d == Unauthorized(UserNotFoundMessage, Some(CookieName))
  {
    match cookie
    case None => Unauthorized(NoTokenMessage, None)
    case Some(token) =>
      if token == "" then Unauthorized(NoTokenMessage, None)
      else
        match verify(token)
        case Invalid => Unauthorized(InvalidTokenMessage, Some(CookieName))
        case Verified(payload) =>
          match Users.FindById(users, payload.userId)
          case None => Unauthorized(UserNotFoundMessage, Some(CookieName))
          case Some(_) => Proceed(RequestUser(payload.userId))
  }

  /** The cookie is cleared exactly when a token was presented and rejected:
      a missing token leaves it alone, success never clears it, and the cookie
      cleared is the session cookie. */
  lemma ClearCookieIffTokenRejected(cookie: Option<string>, verify: string -> Verdict, users: Users.Store)
    ensures var d := RequireAuth(cookie, verify, users);
            d.Unauthorized? && d.cleared.Some? <==> cookie.Some? && cookie.value != "" && !d.Proceed?
    ensures var d := RequireAuth(cookie, verify, users);
            d.Unauthorized? && d.cleared.Some? ==> d.cleared.value == CookieName
  {
  }

  /** The decision depends on the token only through the oracle's verdict:
      two tokens the oracle maps to the same verdict are treated alike. */
  lemma DecisionDependsOnlyOnVerdict(t1: string, t2: string, verify: string -> Verdict, users: Users.Store)
    requires t1 != "" && t2 != ""
    requires verify(t1) == verify(t2)
    ensures RequireAuth(Some(t1), verify, users) == RequireAuth(Some(t2), verify, users)
  {
  }
}
