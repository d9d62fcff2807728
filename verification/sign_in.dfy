/** The sign-in page's logic (frontend/src/pages/auth/sign-in.tsx): the
    blank-field checks before submitting, the send and resend guards, and the
    60-second resend cooldown. */
module SignIn {
  import opened Wrappers
  import opened Text
  import Auth
  import opened AuthClient
  import SignUp

  /** The cooldown set after every send, in seconds (timer ticks). */
  const ResendCooldownSeconds: int := 60

  /** The page state the handlers read and write. The cooldown is an `int`
      as in the source, so staying non-negative is a property to prove. */
  datatype Page = Page(email: string, otp: string, isOtpSent: bool, isLoadingOtp: bool, resendCooldown: int)

  /** What `handleSignIn` does: one of two toasts, or post `{ email, otp }`. */
  datatype SignInAction = AskForEmail | AskForOtp | PostVerify(email: string, otp: string)

  /** `handleSignIn`: a blank email is reported first, then a blank code;
      otherwise the fields are posted as typed, with no format check. */
  function HandleSignIn(email: string, otp: string): (a: SignInAction)
    ensures a == AskForEmail <==> IsBlank(email)
    ensures a == AskForOtp <==> !IsBlank(email) && IsBlank(otp)
    ensures a.PostVerify? <==> !IsBlank(email) && !IsBlank(otp)
    ensures a.PostVerify? ==> a == PostVerify(email, otp)
  {
    if IsBlank(email) then AskForEmail
    else if IsBlank(otp) then AskForOtp
    else PostVerify(email, otp)
  }

  /** Unlike sign-up, sign-in posts codes that are not six digits. */
  lemma SignInSkipsFormatCheck()
    ensures HandleSignIn("a@b", "ab").PostVerify?
    ensures !SignUp.IsValidOtp("ab")
  {
    var email, otp := "a@b", "ab";
    assert !IsJsWhitespace(email[0]) && !IsJsWhitespace(otp[0]);
    BlankIffAllWhitespace(email);
    BlankIffAllWhitespace(otp);
  }

  /** Sign-in is looser than sign-up in the other direction too: with a
      non-blank email, every code the sign-up page would post is posted
      here as well, unchanged. */
  lemma SignInPostsEverySignUpCode(email: string, otp: string)
    requires !IsBlank(email) && SignUp.IsValidOtp(otp)
    ensures HandleSignIn(email, otp) == PostVerify(email, otp)
  {
    assert !IsJsWhitespace(otp[0]);
    BlankIffAllWhitespace(otp);
  }

  /** A handler's effect: the new page state and whether a request was
      sent. */
  datatype Effect = Effect(page: Page, sent: bool)

  /** `handleSendOtp`: nothing without a non-blank email; otherwise the code
      is requested and, when the call resolves, the code input is shown and
      the cooldown starts. The `catch` only runs if the call rejects. */
  function HandleSendOtp(p: Page, result: Settled<SendOtpBody>): (e: Effect)
    ensures IsBlank(p.email) ==> e == Effect(p, false)
    ensures !IsBlank(p.email) ==> e.sent && !e.page.isLoadingOtp
    ensures !IsBlank(p.email) && result.Resolved? ==>
              e.page == p.(isOtpSent := true, resendCooldown := ResendCooldownSeconds, isLoadingOtp := false)
    ensures !IsBlank(p.email) && result.Rejected? ==> e.page == p.(isLoadingOtp := false)
  {
    if IsBlank(p.email) then Effect(p, false)
    else
      match result
      case Resolved(_) =>
        Effect(p.(isOtpSent := true, resendCooldown := ResendCooldownSeconds, isLoadingOtp := false), true)
      case Rejected => Effect(p.(isLoadingOtp := false), true)
  }

  /** `handleResendOtp`: the same guard; a resolved call restarts the
      cooldown and leaves `isOtpSent` alone. */
  function HandleResendOtp(p: Page, result: Settled<SendOtpBody>): (e: Effect)
    ensures IsBlank(p.email) ==> e == Effect(p, false)
    ensures !IsBlank(p.email) ==> e.sent && !e.page.isLoadingOtp && e.page.isOtpSent == p.isOtpSent
    ensures !IsBlank(p.email) && result.Resolved? ==>
              e.page == p.(resendCooldown := ResendCooldownSeconds, isLoadingOtp := false)
    ensures !IsBlank(p.email) && result.Rejected? ==> e.page == p.(isLoadingOtp := false)
  {
    if IsBlank(p.email) then Effect(p, false)
    else
      match result
      case Resolved(_) => Effect(p.(resendCooldown := ResendCooldownSeconds, isLoadingOtp := false), true)
      case Rejected => Effect(p.(isLoadingOtp := false), true)
  }

  /** Because `sendOTP` never rejects, a send with a non-blank email shows
      the code input and starts the cooldown whatever the server answered,
      an error included. */
  lemma SendMarksSentWhateverTheServerSays(p: Page, reply: Option<Auth.Reply>)
    requires !IsBlank(p.email)
    ensures var e := HandleSendOtp(p, SendOtp(reply));
            e.page.isOtpSent && e.page.resendCooldown == ResendCooldownSeconds
    ensures var e := HandleResendOtp(p, SendOtp(reply));
            e.page.resendCooldown == ResendCooldownSeconds
  {
  }

  /** One firing of the countdown effect: a pending one-second timer
      decrements the cooldown, and none is scheduled at 0. */
  function Tick(cooldown: int): (c: int)
    ensures cooldown > 0 ==> c == cooldown - 1
    ensures cooldown <= 0 ==> c == cooldown
  {
    if cooldown > 0 then cooldown - 1 else cooldown
  }

  /** The cooldown after `n` ticks. */
  function Ticks(cooldown: int, n: nat): int
    decreases n
  {
    if n == 0 then cooldown else Ticks(Tick(cooldown), n - 1)
  }

  /** Counting down from a non-negative value stops at 0: after `n` ticks
      the cooldown is `max(0, c - n)`, never negative. */
  lemma {:induction false} TicksCountDown(cooldown: int, n: nat)
    requires cooldown >= 0
    ensures Ticks(cooldown, n) == if cooldown >= n then cooldown - n else 0
    ensures Ticks(cooldown, n) >= 0
    decreases n
  {
    if n > 0 {
      TicksCountDown(Tick(cooldown), n - 1);
    }
  }

  /** The resend button: disabled while loading or while cooling down. */
  function ResendDisabled(p: Page): (disabled: bool)
    ensures !disabled <==> !p.isLoadingOtp && p.resendCooldown <= 0
  {
    p.isLoadingOtp || p.resendCooldown > 0
  }

  /** After a successful send, resend stays disabled for exactly the first
      60 ticks. */
  lemma ResendLockedForSixtyTicks(p: Page, result: Settled<SendOtpBody>, n: nat)
    requires !IsBlank(p.email) && result.Resolved?
    ensures var q := HandleSendOtp(p, result).page;
            ResendDisabled(q.(resendCooldown := Ticks(q.resendCooldown, n))) <==> n < 60
  {
    TicksCountDown(ResendCooldownSeconds, n);
  }
}
