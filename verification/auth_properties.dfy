/** Properties of the authentication routes that relate several calls: the
    newest code shadows older ones, expiry is strict, a code is single-use,
    verification only touches its own email, an issued code can be redeemed,
    and the user collection keeps one user per email across any sequence of
    requests. */
module AuthProperties {
  import opened Wrappers
  import opened Text
  import Users
  import opened OtpLedger
  import Session
  import opened Auth

  /** Only the newest record counts: a code that does not match the newest
      record for the email (the one at position `i`, with no later record for
      that email) is refused, whatever older records it would match. */
  lemma NewerCodeShadowsOlder(s: State, i: nat, code: string, nowMs: nat,
                              matches: (string, string) -> bool)
    requires Valid(s) && i < |s.ledger| && IsNewestAt(s.ledger, s.ledger[i].email, i)
    requires code != ""
    requires !matches(code, s.ledger[i].codeHash)
    ensures var newer := s.ledger[i];
            VerifyOtp(s, Some(newer.email), Some(code), nowMs, matches) == Outcome(s, Rejected(400, InvalidOtpMessage))
  {
    var newer := s.ledger[i];
    NewestIsUnique(s.ledger, newer.email);
    NotAcceptedWithoutNewest(s.ledger, newer.email, code, nowMs, matches);
  }

  /** Two codes sent to one address: the second redeems, the first does not
      (with a hash that matches exactly its own input). */
  lemma TwoCodesOnlyNewestRedeems(s: State, email: string, n1: nat, d1: nat, n2: nat, d2: nat,
                                  t1: nat, t2: nat, t3: nat, hash: string -> string,
                                  matches: (string, string) -> bool)
    requires Valid(s) && email != ""
    requires n1 < d1 && n2 < d2
    requires forall p, q :: matches(p, hash(q)) <==> p == q
    requires IssueCode(n1, d1) != IssueCode(n2, d2)
    requires t3 <= t2 + OtpLifetimeMs
    ensures var s1 := SendOtp(s, Some(email), n1, d1, t1, hash).state;
            var s2 := SendOtp(s1, Some(email), n2, d2, t2, hash).state;
            && VerifyOtp(s2, Some(email), Some(ToDecimal(IssueCode(n1, d1))), t3, matches).reply == Rejected(400, InvalidOtpMessage)
            && VerifyOtp(s2, Some(email), Some(ToDecimal(IssueCode(n2, d2))), t3, matches).reply.SignedIn?
  {
    var s1 := SendOtp(s, Some(email), n1, d1, t1, hash).state;
    var s2 := SendOtp(s1, Some(email), n2, d2, t2, hash).state;
    var c1 := ToDecimal(IssueCode(n1, d1));
    var c2 := ToDecimal(IssueCode(n2, d2));
    var newer := s2.ledger[|s1.ledger|];
    assert s2.ledger == s1.ledger + [newer];
    assert c1 != c2 by {
      ParseToDecimal(IssueCode(n1, d1));
      ParseToDecimal(IssueCode(n2, d2));
    }
    assert !matches(c1, newer.codeHash);
    assert IsNewestAt(s2.ledger, email, |s1.ledger|);
    NewerCodeShadowsOlder(s2, |s1.ledger|, c1, t3, matches);
    NewestAfterAppend(s1.ledger, newer, email);
    NotAcceptedWithoutNewest(s2.ledger, email, c2, t3, matches);
  }

  /** Expiry is strict: with a matching newest record, the code is accepted
      exactly while `now <= expiresAt`, so at `now == expiresAt` it still
      works. */
  lemma ExpiryIsStrict(s: State, i: nat, code: string, nowMs: nat,
                       matches: (string, string) -> bool)
    requires Valid(s) && i < |s.ledger| && IsNewestAt(s.ledger, s.ledger[i].email, i)
    requires code != ""
    requires matches(code, s.ledger[i].codeHash)
    ensures var rec := s.ledger[i];
            VerifyOtp(s, Some(rec.email), Some(code), nowMs, matches).reply.SignedIn? <==> nowMs <= rec.expiresAt
  {
    var rec := s.ledger[i];
    NewestIsUnique(s.ledger, rec.email);
    NotAcceptedWithoutNewest(s.ledger, rec.email, code, nowMs, matches);
  }

  /** No record, an expired newest record and a mismatching newest record
      all produce the very same reply and leave the state as it was. */
  lemma FailureKindsAlike(s: State, email: string, code: string, nowMs: nat, matches: (string, string) -> bool)
    requires Valid(s) && email != "" && code != ""
    ensures (forall i :: 0 <= i < |s.ledger| ==> s.ledger[i].email != email) ==>
              VerifyOtp(s, Some(email), Some(code), nowMs, matches) == Outcome(s, Rejected(400, InvalidOtpMessage))
    ensures Newest(s.ledger, email).Some? && Newest(s.ledger, email).value.expiresAt < nowMs ==>
              VerifyOtp(s, Some(email), Some(code), nowMs, matches) == Outcome(s, Rejected(400, InvalidOtpMessage))
    ensures Newest(s.ledger, email).Some? && !matches(code, Newest(s.ledger, email).value.codeHash) ==>
              VerifyOtp(s, Some(email), Some(code), nowMs, matches) == Outcome(s, Rejected(400, InvalidOtpMessage))
  {
    NotAcceptedWithoutNewest(s.ledger, email, code, nowMs, matches);
  }

  /** A redeemed code cannot be redeemed again: after a successful
      verification no record is left for the email, so any later attempt
      with any code fails without changing anything. */
  lemma SingleUse(s: State, email: string, code: string, nowMs: nat, matches: (string, string) -> bool,
                  code2: string, later: nat, matches2: (string, string) -> bool)
    requires Valid(s) && email != "" && code2 != ""
    ensures var o := VerifyOtp(s, Some(email), Some(code), nowMs, matches);
            o.reply.SignedIn? ==>
              VerifyOtp(o.state, Some(email), Some(code2), later, matches2) == Outcome(o.state, Rejected(400, InvalidOtpMessage))
  {
    var o := VerifyOtp(s, Some(email), Some(code), nowMs, matches);
    if o.reply.SignedIn? {
      assert forall i :: 0 <= i < |o.state.ledger| ==> o.state.ledger[i].email != email;
      NotAcceptedWithoutNewest(o.state.ledger, email, code2, later, matches2);
    }
  }

  /** A successful verification leaves every other address's records, and
      hence whether its pending code would be accepted, exactly as they
      were. */
  lemma VerifyLeavesOtherEmails(s: State, email: string, code: string, nowMs: nat,
                                matches: (string, string) -> bool,
                                other: string, code2: string, t2: nat, matches2: (string, string) -> bool)
    requires Valid(s) && email != "" && other != email
    ensures var o := VerifyOtp(s, Some(email), Some(code), nowMs, matches);
            o.reply.SignedIn? ==>
              && ForEmail(o.state.ledger, other) == ForEmail(s.ledger, other)
              && (OtpAccepted(o.state.ledger, other, code2, t2, matches2) <==> OtpAccepted(s.ledger, other, code2, t2, matches2))
  {
    var o := VerifyOtp(s, Some(email), Some(code), nowMs, matches);
    if o.reply.SignedIn? {
      DeleteAllScope(s.ledger, email, other);
      NewestIsLastForEmail(s.ledger, other);
      NewestIsLastForEmail(o.state.ledger, other);
      NotAcceptedWithoutNewest(s.ledger, other, code2, t2, matches2);
      NotAcceptedWithoutNewest(o.state.ledger, other, code2, t2, matches2);
    }
  }

  /** An issued code can be redeemed before it expires; a wrong code in the
      meantime is refused and changes nothing, so the right code still
      works afterwards. */
  lemma IssueThenRedeem(s: State, email: string, num: nat, den: nat, t0: nat, hash: string -> string,
                        matches: (string, string) -> bool, wrong: string, t1: nat, t2: nat)
    requires Valid(s) && email != "" && num < den
    requires forall p :: matches(p, hash(p))
    requires wrong != "" && !matches(wrong, hash(ToDecimal(IssueCode(num, den))))
    requires t2 <= t0 + OtpLifetimeMs
    ensures var s1 := SendOtp(s, Some(email), num, den, t0, hash).state;
            && VerifyOtp(s1, Some(email), Some(wrong), t1, matches) == Outcome(s1, Rejected(400, InvalidOtpMessage))
            && VerifyOtp(s1, Some(email), Some(ToDecimal(IssueCode(num, den))), t2, matches).reply.SignedIn?
  {
    var s1 := SendOtp(s, Some(email), num, den, t0, hash).state;
    var rec := s1.ledger[|s.ledger|];
    assert s1.ledger == s.ledger + [rec];
    assert IsNewestAt(s1.ledger, email, |s.ledger|);
    NewerCodeShadowsOlder(s1, |s.ledger|, wrong, t1, matches);
    ExpiryIsStrict(s1, |s.ledger|, ToDecimal(IssueCode(num, den)), t2, matches);
  }

  /** The session minted by a successful verification passes `requireAuth`
      for the user it names: the browser stores the token under the cookie
      name the reply sets, which is the one `requireAuth` reads; `/me` then
      returns that user's profile. */
  lemma OtpSessionAdmitted(s: State, email: string, code: string, nowMs: nat, matches: (string, string) -> bool,
                           token: string, verify: string -> Session.Verdict, jar: map<string, string>)
    requires Valid(s) && email != "" && token != ""
    ensures var o := VerifyOtp(s, Some(email), Some(code), nowMs, matches);
            o.reply.SignedIn? && verify(token) == Session.Verified(o.reply.session) ==>
              var id := o.reply.session.userId;
              var cookies := jar[o.reply.cookieName := token];
              && Session.RequireAuth(Session.ReadCookie(cookies), verify, o.state.users) == Session.Proceed(Session.RequestUser(id))
              && Me(o.state.users, Some(Session.RequestUser(id))).MeOk?
              && Me(o.state.users, Some(Session.RequestUser(id))).user.email == email
  {
  }

  /** Likewise for `/google`: the cookie it sets is the one `requireAuth`
      reads, and the session it mints is admitted for the signed-in user. */
  lemma GoogleSessionAdmitted(s: State, idToken: Option<string>, verifyIdToken: string -> TokenCheck, nowMs: nat,
                              token: string, verify: string -> Session.Verdict, jar: map<string, string>)
    requires Valid(s) && token != ""
    ensures var o := GoogleSignIn(s, idToken, verifyIdToken, nowMs);
            o.reply.SignedIn? && verify(token) == Session.Verified(o.reply.session) ==>
              var cookies := jar[o.reply.cookieName := token];
              Session.RequireAuth(Session.ReadCookie(cookies), verify, o.state.users)
                == Session.Proceed(Session.RequestUser(o.reply.session.userId))
  {
  }

  // ---------------------------------------------------------------------------
  // Any sequence of requests
  // ---------------------------------------------------------------------------

  /** A `Math.random()` draw as a fraction in [0, 1). */
  type Draw = d: (nat, nat) | d.0 < d.1 witness (0, 1)

  /** One request to the authentication routes, with the values its oracles
      produce. */
  datatype Request =
    | SendOtpRequest(email: Option<string>, draw: Draw, nowMs: nat, hash: string -> string)
    | VerifyOtpRequest(email: Option<string>, otp: Option<string>, nowMs: nat, matches: (string, string) -> bool)
    | GoogleRequest(idToken: Option<string>, verifyIdToken: string -> TokenCheck, nowMs: nat)

  function Step(s: State, r: Request): (s': State)
    requires Valid(s)
    ensures Valid(s')
  {
    match r
    case SendOtpRequest(email, draw, nowMs, hash) => SendOtp(s, email, draw.0, draw.1, nowMs, hash).state
    case VerifyOtpRequest(email, otp, nowMs, matches) => VerifyOtp(s, email, otp, nowMs, matches).state
    case GoogleRequest(idToken, verifyIdToken, nowMs) => GoogleSignIn(s, idToken, verifyIdToken, nowMs).state
  }

  /** The state after serving the requests in order. */
  function Run(s: State, rs: seq<Request>): (s': State)
    requires Valid(s)
    ensures Valid(s')
    decreases |rs|
  {
    if |rs| == 0 then s else Run(Step(s, rs[0]), rs[1..])
  }

  /** From an empty database, any sequence of requests leaves at most one
      user per email, and every user has a non-empty email. */
  lemma {:induction false} OneUserPerEmail(rs: seq<Request>, a: Users.UserId, b: Users.UserId)
    ensures var users := Run(State([], Users.EmptyStore), rs).users;
            a in users.byId && b in users.byId && users.byId[a].email == users.byId[b].email ==> a == b
    ensures var users := Run(State([], Users.EmptyStore), rs).users;
            a in users.byId ==> users.byId[a].email != ""
  {
    var users := Run(State([], Users.EmptyStore), rs).users;
    if a in users.byId && b in users.byId && users.byId[a].email == users.byId[b].email {
      Users.UniqueEmails(users, a, b);
    }
  }
}
