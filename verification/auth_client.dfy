/** The frontend's calls to the backend, as functions from the server's reply
    to the value the page's `await` sees. */
module AuthClient {
  import opened Wrappers
  import Auth
  import Notes

  /** How a promise settles. */
  datatype Settled<+T> = Resolved(value: T) | Rejected

  /** The part of `/auth/send-otp`'s JSON body the pages read: whether
      `success` is truthy. */
  datatype SendOtpBody = SendOtpBody(success: bool)

  /** `sendOTP(email)` from frontend/src/hooks/use-auth.ts: `reply` is the
      server's reply, or `None` when `fetch` or JSON parsing throws. Every
      error is caught and turned into `{ error }`, so the promise always
      resolves, and `success` is truthy only for the server's success
      reply. */
  function SendOtp(reply: Option<Auth.Reply>): (p: Settled<SendOtpBody>)
    ensures p.Resolved?
    ensures p.value.success <==> reply == Some(Auth.OtpSent)
  {
    match reply
    case None => Resolved(SendOtpBody(false))
    case Some(r) => Resolved(SendOtpBody(r.OtpSent?))
  }

  /** `api.delete(...)` through axios: a 2xx reply resolves with its body, an
      error status rejects. The body's `ok` is truthy only for `{ ok: true }`. */
  function DeleteNote(resp: Notes.Response): (p: Settled<bool>)
    ensures p.Rejected? <==> resp.Failed?
    ensures p.Resolved? ==> (p.value <==> resp == Notes.DeletedOk)
  {
    if resp.Failed? then Rejected else Resolved(resp.DeletedOk?)
  }
}
