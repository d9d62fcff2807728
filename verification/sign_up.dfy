/** The sign-up page's checks (frontend/src/pages/auth/sign-up.tsx): the
    ordered form validation before a code is requested, and the six-digit
    format check before a code is submitted. */
module SignUp {
  import opened Wrappers
  import opened Text
  import Auth
  import opened AuthClient

  /** `/^\d{6}$/.test(otp)`: exactly six characters, each an ASCII digit. */
  function IsValidOtp(otp: string): (ok: bool)
    ensures ok <==> |otp| == 6 && forall i :: 0 <= i < 6 ==> '0' <= otp[i] <= '9'
  {
    |otp| == 6 && AllDigits(otp)
  }

  /** Every code the server issues passes the page's format check. */
  lemma IssuedCodePassesFormatCheck(num: nat, den: nat)
    requires num < den
    ensures IsValidOtp(ToDecimal(Auth.IssueCode(num, den)))
  {
    Auth.IssuedCodeIsSixDigits(num, den);
  }

  /** The check is looser than the issuer: a six-digit string with a leading
      zero passes it, although no issued code has one. */
  lemma FormatCheckAdmitsUnissuableCodes()
    ensures IsValidOtp("012345")
    ensures forall num: nat, den: nat | num < den :: ToDecimal(Auth.IssueCode(num, den)) != "012345"
  {
    forall num: nat, den: nat | num < den
      ensures ToDecimal(Auth.IssueCode(num, den)) != "012345"
    {
      Auth.IssuedCodeIsSixDigits(num, den);
    }
  }

  /** The first failing check of `validateForm`, each with its own toast. */
  datatype FormError = NameRequired | EmailRequired | InvalidEmail | DateOfBirthRequired

  /** `validateForm()`: the trimmed name, then the trimmed email, then an '@'
      in the email as typed, then the date of birth; `None` means it returns
      true. */
  function ValidateForm(fullName: string, email: string, dateOfBirth: string): (r: Option<FormError>)
    ensures r.None? <==> !IsBlank(fullName) && !IsBlank(email) && '@' in email && dateOfBirth != ""
    ensures r == Some(NameRequired) <==> IsBlank(fullName)
    ensures r == Some(EmailRequired) <==> !IsBlank(fullName) && IsBlank(email)
    ensures r == Some(InvalidEmail) <==> !IsBlank(fullName) && !IsBlank(email) && '@' !in email
    ensures r == Some(DateOfBirthRequired) <==>
              !IsBlank(fullName) && !IsBlank(email) && '@' in email && dateOfBirth == ""
  {
    if IsBlank(fullName) then Some(NameRequired)
    else if IsBlank(email) then Some(EmailRequired)
    else if '@' !in email then Some(InvalidEmail)
    else if dateOfBirth == "" then Some(DateOfBirthRequired)
    else None
  }

  /** A form that passes validation always gets past the server's
      missing-email check: the email it sends is non-empty. */
  lemma ValidFormIsAcceptedBySendOtp(fullName: string, email: string, dateOfBirth: string,
                                     s: Auth.State, num: nat, den: nat, nowMs: nat, hash: string -> string)
    requires num < den
    requires ValidateForm(fullName, email, dateOfBirth).None?
    ensures Auth.SendOtp(s, Some(email), num, den, nowMs, hash).reply == Auth.OtpSent
  {
    assert email != "" by {
      if email == "" {
        BlankIffAllWhitespace(email);
      }
    }
  }

  /** The page state the handlers read and write. */
  datatype Page = Page(fullName: string, email: string, dateOfBirth: string, otp: string, isOtpSent: bool)

  /** A handler's effect: the new page state and the request it sent, if
      any. */
  datatype Effect<R> = Effect(page: Page, request: Option<R>)

  /** `handleGetOTP`: nothing is sent unless the form validates; then the
      email as typed is sent and `isOtpSent` becomes true only when the reply
      has a truthy `success`. */
  function HandleGetOtp(p: Page, result: SendOtpBody): (e: Effect<string>)
    ensures e.request.Some? <==> ValidateForm(p.fullName, p.email, p.dateOfBirth).None?
    ensures e.request.Some? ==> e.request.value == p.email
    ensures e.page == p.(isOtpSent := e.page.isOtpSent)
    ensures e.page.isOtpSent <==> p.isOtpSent || (e.request.Some? && result.success)
  {
    if ValidateForm(p.fullName, p.email, p.dateOfBirth).Some? then Effect(p, None)
    else if result.success then Effect(p.(isOtpSent := true), Some(p.email))
    else Effect(p, Some(p.email))
  }

  /** Against the real server, `isOtpSent` becomes true exactly when the form
      validates and the server accepted the request. */
  lemma GetOtpMarksSentOnlyOnServerSuccess(p: Page, s: Auth.State, num: nat, den: nat, nowMs: nat,
                                           hash: string -> string)
    requires num < den && !p.isOtpSent
    ensures var reply := Auth.SendOtp(s, Some(p.email), num, den, nowMs, hash).reply;
            var result := SendOtp(Some(reply)).value;
            HandleGetOtp(p, result).page.isOtpSent <==> ValidateForm(p.fullName, p.email, p.dateOfBirth).None?
  {
    if ValidateForm(p.fullName, p.email, p.dateOfBirth).None? {
      ValidFormIsAcceptedBySendOtp(p.fullName, p.email, p.dateOfBirth, s, num, den, nowMs, hash);
    }
  }

  /** `handleVerifyOtp`: no request unless the code passes `isValidOtp`;
      then `{ email, otp }` is posted. */
  function HandleVerifyOtp(p: Page): (e: Effect<(string, string)>)
    ensures e.page == p
    ensures e.request.Some? <==> IsValidOtp(p.otp)
    ensures e.request.Some? ==> e.request.value == (p.email, p.otp)
  {
    if !IsValidOtp(p.otp) then Effect(p, None) else Effect(p, Some((p.email, p.otp)))
  }

  /** The verify button: disabled while loading or while the code fails the
      format check. */
  function VerifyButtonDisabled(otpLoading: bool, otp: string): (disabled: bool)
    ensures !disabled ==> IsValidOtp(otp)
    ensures disabled <==> otpLoading || |otp| != 6 || exists i :: 0 <= i < |otp| && !IsDigit(otp[i])
  {
    otpLoading || !IsValidOtp(otp)
  }

  /** The button and the handler agree: a click the button allows always
      posts the code, so the handler's own format check never fires from
      that button. */
  lemma EnabledButtonAlwaysPosts(p: Page, otpLoading: bool)
    requires !VerifyButtonDisabled(otpLoading, p.otp)
    ensures HandleVerifyOtp(p).request == Some((p.email, p.otp))
    ensures IsValidOtp(p.otp)
  {
  }
}
