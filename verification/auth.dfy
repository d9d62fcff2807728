/** The authentication routes (backend/src/routes/auth.ts) as transitions of a
    state made of the OTP ledger and the user collection. Randomness, hashing,
    the clock and Google's token check are parameters: a draw `num / den` in
    [0, 1) for `Math.random()`, a `hash` function and a `matches` relation for
    bcrypt, `nowMs` for `Date.now()`, and an oracle for `verifyIdToken`. */
module Auth {
  import opened Wrappers
  import opened Text
  import Users
  import opened OtpLedger
  import Session

  datatype State = State(ledger: Ledger, users: Users.Store)

  /** The user collection keeps its invariant, and every stored code is for a
      non-empty address (`/send-otp` refuses a falsy email). */
  predicate Valid(s: State) {
    && Users.Valid(s.users)
    && forall i :: 0 <= i < |s.ledger| ==> s.ledger[i].email != ""
  }

  /** A reply of the routes. `SignedIn` is `{ success: true }` with a cookie
      named `cookieName` set to the signed session; `tokenInBody` records that
      `/verify-otp` also puts the token in the JSON body. */
  datatype Reply =
    | OtpSent
    | SignedIn(session: Session.SessionPayload, cookieName: string, cookieMaxAgeMs: nat, tokenInBody: bool)
    | Rejected(status: nat, message: string)

  datatype Outcome = Outcome(state: State, reply: Reply)

  const MissingEmailMessage: string := "Missing email field"
  const MissingEmailOrOtpMessage: string := "Missing email or OTP"
  const InvalidOtpMessage: string := "Invalid or expired OTP"
  const MissingIdTokenMessage: string := "Missing idToken"
  const InvalidTokenMessage: string := "Invalid token"
  const GoogleFailedMessage: string := "Google authentication failed"

  // ---------------------------------------------------------------------------
  // POST /send-otp
  // ---------------------------------------------------------------------------

  const CodeLow: nat := 100000
  const CodeSpan: nat := 900000

  /** `Math.floor(100000 + Math.random() * 900000)` with `Math.random()` the
      fraction `num / den`: always a code from 100000 to 999999. */
  function IssueCode(num: nat, den: nat): (code: nat)
    requires num < den
    ensures 100000 <= code <= 999999
  {
    QuotientBelow(num * CodeSpan, den, CodeSpan);
    CodeLow + (num * CodeSpan) / den
  }

  lemma QuotientBelow(x: nat, d: nat, k: nat)
    requires 0 < d && x < d * k
    ensures x / d < k
  {
    var q := x / d;
    assert d * q <= x;
    assert d * (k - q) > 0;
  }

  /** Every code in the range is issued by some draw. */
  lemma IssueCodeCoversRange(code: nat)
    requires 100000 <= code <= 999999
    ensures IssueCode(code - CodeLow, CodeSpan) == code
  {
  }

  /** An issued code renders as exactly six decimal digits, the first of
      which is not zero. */
  lemma {:induction false} IssuedCodeIsSixDigits(num: nat, den: nat)
    requires num < den
    ensures var s := ToDecimal(IssueCode(num, den));
            |s| == 6 && AllDigits(s) && s[0] != '0'
  {
    var code := IssueCode(num, den);
    assert Pow10(5) == 100000 by {
      assert Pow10(1) == 10;
      assert Pow10(2) == 100;
      assert Pow10(3) == 1000;
      assert Pow10(4) == 10000;
    }
    assert Pow10(6) == 1000000;
    DecimalLength(code, 6);
    NoLeadingZero(code);
  }

  /** `POST /send-otp { email }`: a falsy email is refused with 400 and no
      change; otherwise one record is appended holding the hash of the code's
      decimal text and an expiry ten minutes out, nothing else changes, and
      the delivery (which swallows its own errors) does not affect the
      reply. */
  function SendOtp(s: State, email: Option<string>, num: nat, den: nat, nowMs: nat,
                   hash: string -> string): (o: Outcome)
    requires num < den
    ensures !IsTruthy(email) ==> o == Outcome(s, Rejected(400, MissingEmailMessage))
    ensures IsTruthy(email) ==>
              && o.reply == OtpSent
              && o.state.users == s.users
              && |o.state.ledger| == |s.ledger| + 1
              && o.state.ledger[..|s.ledger|] == s.ledger
              && var rec := o.state.ledger[|s.ledger|];
                 && rec.email == email.value
                 && rec.codeHash == hash(ToDecimal(IssueCode(num, den)))
                 && rec.expiresAt == nowMs + OtpLifetimeMs
    ensures Valid(s) ==> Valid(o.state)
  {
    if !IsTruthy(email) then Outcome(s, Rejected(400, MissingEmailMessage))
    else
      var otp := ToDecimal(IssueCode(num, den));
      var rec := OtpRecord(email.value, hash(otp), nowMs + OtpLifetimeMs);
      assert (s.ledger + [rec])[..|s.ledger|] == s.ledger;
      Outcome(s.(ledger := s.ledger + [rec]), OtpSent)
  }

  // ---------------------------------------------------------------------------
  // POST /verify-otp
  // ---------------------------------------------------------------------------

  /** The code is accepted when the newest record for the email has not
      expired (`expiresAt < now` is the only expiry) and its hash matches. */
  ghost predicate OtpAccepted(l: Ledger, email: string, code: string, nowMs: nat, matches: (string, string) -> bool) {
    exists i :: IsNewestAt(l, email, i) && nowMs <= l[i].expiresAt && matches(code, l[i].codeHash)
  }

  /** `POST /verify-otp { email, otp }`. Missing fields give 400; no record,
      an expired record and a wrong code all give the same 400 and change
      nothing; success deletes every record for the email, reuses the user
      with that email or creates one holding only the email, and mints a
      7-day session for that user. */
  function VerifyOtp(s: State, email: Option<string>, otp: Option<string>, nowMs: nat,
                     matches: (string, string) -> bool): (o: Outcome)
    requires Valid(s)
    ensures !IsTruthy(email) || !IsTruthy(otp) ==> o == Outcome(s, Rejected(400, MissingEmailOrOtpMessage))
    ensures IsTruthy(email) && IsTruthy(otp) && !OtpAccepted(s.ledger, email.value, otp.value, nowMs, matches) ==>
              o == Outcome(s, Rejected(400, InvalidOtpMessage))
    ensures o.reply.SignedIn? <==>
              IsTruthy(email) && IsTruthy(otp) && OtpAccepted(s.ledger, email.value, otp.value, nowMs, matches)
    ensures Valid(o.state)
    ensures o.reply.SignedIn? ==>
              && o.state.ledger == DeleteAll(s.ledger, email.value)
              && o.reply.session.email == email.value
              && o.reply.cookieName == Session.CookieName
              && o.reply.cookieMaxAgeMs == Session.CookieMaxAgeMs
              && o.reply.tokenInBody
              && var id := o.reply.session.userId;
                 && id in o.state.users.byId
                 && o.state.users.byId[id].email == email.value
                 && o.reply.session == Session.Mint(o.state.users.byId[id], nowMs)
    ensures o.reply.SignedIn? && (exists id :: id in s.users.byId && s.users.byId[id].email == email.value) ==>
              && o.state.users == s.users
    ensures o.reply.SignedIn? && (forall id :: id in s.users.byId ==> s.users.byId[id].email != email.value) ==>
              var id := o.reply.session.userId;
              && id !in s.users.byId
              && o.state.users.byId == s.users.byId[id := Users.User(id, email.value, None, None, Users.DefaultProvider, nowMs)]
  {
    if !IsTruthy(email) || !IsTruthy(otp) then Outcome(s, Rejected(400, MissingEmailOrOtpMessage))
    else
      var e := email.value;
      var record := Newest(s.ledger, e);
      if record.None? || record.value.expiresAt < nowMs then
        NotAcceptedWithoutNewest(s.ledger, e, otp.value, nowMs, matches);
        Outcome(s, Rejected(400, InvalidOtpMessage))
      else if !matches(otp.value, record.value.codeHash) then
        NotAcceptedWithoutNewest(s.ledger, e, otp.value, nowMs, matches);
        Outcome(s, Rejected(400, InvalidOtpMessage))
      else
        NewestIsUnique(s.ledger, e);
        var ledger' := DeleteAll(s.ledger, e);
        match Users.FindByEmail(s.users, e)
        case Some(user) =>
          Outcome(State(ledger', s.users), SignedIn(Session.Mint(user, nowMs), Session.CookieName, Session.CookieMaxAgeMs, true))
        case None =>
          // `User.create({ email })` cannot be refused here: the email is
          // non-empty and no user holds it.
          var created := Users.Create(s.users, e, None, None, None, None, nowMs);
          assert created.Success?;
          var (users', user) := created.value;
          Outcome(State(ledger', users'), SignedIn(Session.Mint(user, nowMs), Session.CookieName, Session.CookieMaxAgeMs, true))
  }

  /** Only one position is the newest for an email. */
  lemma NewestIsUnique(l: Ledger, email: string)
    ensures forall i, j :: IsNewestAt(l, email, i) && IsNewestAt(l, email, j) ==> i == j
  {
  }

  /** Acceptance is decided by the record `Newest` returns. */
  lemma NotAcceptedWithoutNewest(l: Ledger, email: string, code: string, nowMs: nat,
                                 matches: (string, string) -> bool)
    ensures OtpAccepted(l, email, code, nowMs, matches) <==>
              var r := Newest(l, email);
              r.Some? && nowMs <= r.value.expiresAt && matches(code, r.value.codeHash)
  {
    NewestIsUnique(l, email);
    var r := Newest(l, email);
    if r.None? {
      assert forall i :: !IsNewestAt(l, email, i);
    }
  }

  // ---------------------------------------------------------------------------
  // POST /google
  // ---------------------------------------------------------------------------

  /** The claims of a verified Google ID token that the route reads. */
  datatype Claims = Claims(email: Option<string>, name: Option<string>, picture: Option<string>)

  /** What `verifyIdToken` plus `getPayload()` yield: a thrown error, or a
      payload that may be missing. */
  datatype TokenCheck = TokenRejected | TokenAccepted(payload: Option<Claims>)

  /** The oracle accepted the token and its payload carries a truthy email. */
  predicate HasEmail(check: TokenCheck) {
    check.TokenAccepted? && check.payload.Some? && IsTruthy(check.payload.value.email)
  }

  /** `POST /google { idToken }`. A missing token gives 400, a rejected token
      401, a payload without an email 400. A new user gets the token's name,
      or the email's local part when the token has none, and provider
      "google"; an existing user only has its name replaced, and only when the
      token carries a name. The picture claim is never stored. */
  function GoogleSignIn(s: State, idToken: Option<string>, verifyIdToken: string -> TokenCheck,
                        nowMs: nat): (o: Outcome)
    requires Valid(s)
    ensures !IsTruthy(idToken) ==> o == Outcome(s, Rejected(400, MissingIdTokenMessage))
    ensures IsTruthy(idToken) && verifyIdToken(idToken.value).TokenRejected? ==>
              o == Outcome(s, Rejected(401, GoogleFailedMessage))
    ensures IsTruthy(idToken) && verifyIdToken(idToken.value).TokenAccepted? && !HasEmail(verifyIdToken(idToken.value)) ==>
              o == Outcome(s, Rejected(400, InvalidTokenMessage))
    ensures o.reply.SignedIn? <==> IsTruthy(idToken) && HasEmail(verifyIdToken(idToken.value))
    ensures Valid(o.state) && o.state.ledger == s.ledger
    ensures o.reply.SignedIn? ==>
              var claims := verifyIdToken(idToken.value).payload.value;
              var email := claims.email.value;
              var id := o.reply.session.userId;
              && !o.reply.tokenInBody
              && o.reply.cookieName == Session.CookieName
              && o.reply.cookieMaxAgeMs == Session.CookieMaxAgeMs
              && id in o.state.users.byId
              && o.state.users.byId[id].email == email
              && o.reply.session == Session.Mint(o.state.users.byId[id], nowMs)
              && (forall other :: other in s.users.byId && other != id ==>
                    other in o.state.users.byId && o.state.users.byId[other] == s.users.byId[other])
              && (id in s.users.byId ==>
                    && o.state.users.byId.Keys == s.users.byId.Keys
                    && o.state.users.byId[id] ==
                         if claims.name.Some? then s.users.byId[id].(name := claims.name) else s.users.byId[id])
              && (id !in s.users.byId ==>
                    && (forall other :: other in s.users.byId ==> s.users.byId[other].email != email)
                    && o.state.users.byId.Keys == s.users.byId.Keys + {id}
                    && o.state.users.byId[id] ==
                         Users.User(id, email, Some(claims.name.GetOr(LocalPart(email))), None, "google", nowMs))
  {
    if !IsTruthy(idToken) then Outcome(s, Rejected(400, MissingIdTokenMessage))
    else
      match verifyIdToken(idToken.value)
      case TokenRejected => Outcome(s, Rejected(401, GoogleFailedMessage))
      case TokenAccepted(payload) =>
        if !HasEmail(TokenAccepted(payload)) then Outcome(s, Rejected(400, InvalidTokenMessage))
        else
          var claims := payload.value;
          var email := claims.email.value;
          match Users.FindByEmail(s.users, email)
          case None =>
            // As in `/verify-otp`, the create cannot be refused.
            var created := Users.Create(s.users, email, Some(claims.name.GetOr(LocalPart(email))), None, Some("google"), None, nowMs);
            assert created.Success?;
            var (users', user) := created.value;
            Outcome(s.(users := users'), SignedIn(Session.Mint(user, nowMs), Session.CookieName, Session.CookieMaxAgeMs, false))
          case Some(user) =>
            var users' := if claims.name.Some? then Users.SetName(s.users, user.id, claims.name.value) else s.users;
            Outcome(s.(users := users'), SignedIn(Session.Mint(users'.byId[user.id], nowMs), Session.CookieName, Session.CookieMaxAgeMs, false))
  }

  // ---------------------------------------------------------------------------
  // GET /me
  // ---------------------------------------------------------------------------

  /** The profile `/me` returns. */
  datatype Profile = Profile(userId: Users.UserId, name: Option<string>, email: string, provider: string)

  datatype MeReply = MeOk(user: Profile) | MeError(status: nat, message: string)

  /** `GET /me` behind `requireAuth`: `ctx` is `req.user`. */
  function Me(users: Users.Store, ctx: Option<Session.RequestUser>): (r: MeReply)
    ensures ctx.None? ==> r == MeError(401, "Unauthorized")
    ensures ctx.Some? && ctx.value.userId !in users.byId ==> r == MeError(404, "User not found")
    ensures r.MeOk? <==> ctx.Some? && ctx.value.userId in users.byId
    ensures r.MeOk? ==>
              var u := users.byId[ctx.value.userId];
              r.user == Profile(u.id, u.name, u.email, u.provider)
  {
    match ctx
    case None => MeError(401, "Unauthorized")
    case Some(req) =>
      match Users.FindById(users, req.userId)
      case None => MeError(404, "User not found")
      case Some(u) => MeOk(Profile(u.id, u.name, u.email, u.provider))
  }
}
