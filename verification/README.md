# Secure notes: authentication and ownership, in Dafny

This project models the security core of a full-stack notes application. The
backend is Express with MongoDB. The frontend is React.

- **Users** (`Users`): the `User` collection. Email is required and unique.
  Name and picture are optional. The provider defaults to "google", and the
  creation time is the default for `createdAt`.
- **One-time codes** (`OtpLedger`): an append-only ledger of hashed codes.
- **Authentication routes** (`Auth`):
  - `/send-otp` appends a record.
  - `/verify-otp` checks the newest record for the email, then deletes every
    record for that email and finds or creates the user.
  - `/google` creates a user, or overwrites the name of an existing one.
  - `/me` returns the caller's profile.
- **Sessions** (`Session`): the 7-day session payload and the `requireAuth`
  middleware, which decides between proceeding and a 401, with or without
  clearing the cookie.
- **Notes** (`Notes`): the five note routes. Every query is filtered by the
  requester's id.
- **Frontend logic**:
  - `NotesPage`: `maskEmail`, `getNameFromEmail`, the welcome name, and the
    optimistic delete with rollback.
  - `SignUp`: the OTP format check and the ordered form validation.
  - `SignIn`: the blank-field checks, the send and resend guards, and the
    60-tick resend cooldown.
  - `AuthClient`: the two client calls these pages await.

Shared helpers:

- `Wrappers`: `Option` and `Result`.
- `Text`: JavaScript's `split` on one character, `trim` over the
  ECMAScript whitespace set, and `Number.prototype.toString` for naturals.

Everything is pure. Each route is a function from a state plus its inputs to a
new state plus a reply.

The parts the code cannot compute itself are parameters:

- the clock is `nowMs`, in milliseconds;
- `Math.random()` is a fraction `num / den` in [0, 1);
- bcrypt is a `hash` function and a `matches` relation;
- `jwt.verify` is an oracle that returns a payload or rejects;
- Google's `verifyIdToken` is an oracle that returns optional claims or
  rejects.

The main results:

- A code is single-use.
- Only the newest code for an email can be redeemed. "Newest" means the record
  stored last; see `OtpLedger.Newest` under "Left out".
- Expiry is strict: a code still works at `now == expiresAt`.
- A missing record, an expired record and a wrong code get one identical reply
  and change nothing.
- Verification never touches another address's codes.
- From an empty database, any sequence of requests leaves at most one user per
  email.
- No note request reads or changes another user's notes, over any sequence of
  requests.
- One optimistic delete at a time leaves the dashboard list equal to the
  server's view. Two deletes in flight at once can break this: a failed one
  restores a note that the other has already deleted on the server.

Points of the code's behaviour that are easy to misread:

- **Expiry.** A record is refused only when `expiresAt < now`
  (backend/src/routes/auth.ts:92). A code is therefore still accepted at the
  instant it expires.
- **Provider of an OTP user.** A user created by `/verify-otp` passes only an
  email. It therefore gets the schema default provider "google"
  (backend/src/models/User.ts:7, backend/src/routes/auth.ts:105).
- **Google name overwrite.** For an existing user, `/google` overwrites the
  name with any string claim, the empty string included. A missing or
  non-string claim leaves the name as it was
  (backend/src/routes/auth.ts:33-35).
- **Request context.** `requireAuth` puts only the token's `userId` on the
  request (backend/src/middleware/requireAuth.ts:31). The declaration file
  backend/src/middleware/requireAuth.d.ts:3-6 also declares an `email` field,
  which the code never sets.

## Model

| member | source | states |
|---|---|---|
| Text.JoinSplit | frontend/src/pages/NotesPage.tsx:29 | Joining the parts of `split` with the separator gives back the original string. |
| Text.SplitJoin | frontend/src/pages/NotesPage.tsx:29 | Splitting a join of separator-free parts gives back exactly those parts. |
| Text.SecondOfSplit | frontend/src/pages/NotesPage.tsx:29 | There is a second part iff the string contains the separator. The first two parts are exactly the text up to the next separator, and further parts exist iff text remains after it. |
| Text.Split | frontend/src/pages/NotesPage.tsx:29 | `split` on one character returns at least one part, and no part holds the separator. With `Text.JoinSplit`, joining the parts gives back the string. |
| Text.LocalPart | frontend/src/pages/NotesPage.tsx:39-41 | `getNameFromEmail`: a prefix of the email with no '@'. It is shorter than the email iff the email holds an '@', and then it stops right at the first '@'. |
| Text.TrimStart | frontend/src/pages/auth/sign-in.tsx:42 | The result is the suffix of the input starting at its first non-whitespace character. Every dropped character is ECMAScript whitespace. |
| Text.TrimEnd | frontend/src/pages/auth/sign-in.tsx:42 | The result is the prefix ending at the last non-whitespace character. Every dropped character is whitespace. |
| Text.Trim | frontend/src/pages/auth/sign-up.tsx:30 | `trim()` returns the slice that starts after the leading whitespace and ends before the trailing whitespace. Everything dropped is ECMAScript whitespace, and a non-empty result starts and ends with a non-whitespace character. |
| Text.BlankIffAllWhitespace | frontend/src/pages/auth/sign-up.tsx:30 | `!s.trim()` (`Text.IsBlank`) holds iff every character of `s` is whitespace. |
| Text.ToDecimal | backend/src/routes/auth.ts:66 | `toString()` of a natural is a non-empty string of ASCII digits. |
| Text.ParseToDecimal | backend/src/routes/auth.ts:66 | Reading back the decimal rendering gives the number, so distinct codes render differently. |
| Text.DecimalLength | backend/src/routes/auth.ts:66 | A number in [10^(k-1), 10^k) renders with exactly k digits. |
| Text.NoLeadingZero | backend/src/routes/auth.ts:66 | A positive number renders without a leading '0'. |
| Users.UniqueEmails | backend/src/models/User.ts:4 | In a valid store, two users with the same email are the same user. |
| Users.FindByEmail | backend/src/routes/auth.ts:103 | `findOne({ email })` returns the stored user holding that email, and returns nothing iff no user holds it. |
| Users.FindById | backend/src/middleware/requireAuth.ts:25 | `findById` returns the user stored under that id iff there is one. |
| Users.Create | backend/src/models/User.ts:3-9 | Fails with EmailRequired iff the email is empty, and with DuplicateEmail iff another user holds it. Otherwise it adds one user under a fresh id with the given fields, provider "google" and `createdAt` = now as defaults, and keeps the store valid. |
| Users.SetName | backend/src/routes/auth.ts:33-36 | `user.name = ...; save()` changes only that user's name and keeps every other user and the store invariant. |
| OtpLedger.Newest | backend/src/routes/auth.ts:90 | Returns nothing iff there is no record for the email. Otherwise it returns the record at the one position that is for the email with no later record for it. |
| OtpLedger.NewestIsLastForEmail | backend/src/routes/auth.ts:90 | `Newest` equals the last element of the email's records taken in ledger order. |
| OtpLedger.NewestAfterAppend | backend/src/routes/auth.ts:73 | An appended record becomes the newest for its email, and the newest for every other email does not change. |
| OtpLedger.DeleteAll | backend/src/routes/auth.ts:101 | `deleteMany({ email })` keeps exactly the records for other emails. |
| OtpLedger.DeleteAllScope | backend/src/routes/auth.ts:101 | After the delete no record for the email is left. Every other email's records are unchanged, in order. |
| Session.Mint | backend/src/routes/auth.ts:108-119 | The signed payload carries the user's id and email, `iat` is the current second, and `exp - iat` equals the cookie's 7-day `maxAge`. |
| Session.ReadCookie | backend/src/middleware/requireAuth.ts:16 | `req.cookies.token` is present exactly when the browser sent a cookie named "token", and is then its value. |
| Session.RequireAuth | backend/src/middleware/requireAuth.ts:15-37 | Proceeds iff a non-empty token verifies and names an existing user, and then carries exactly that userId. A missing token gets a 401 that keeps the cookie. A rejected token, or a token for a missing user, gets a 401 that clears it. |
| Session.ClearCookieIffTokenRejected | backend/src/middleware/requireAuth.ts:16-35 | The cookie is cleared exactly when a token was presented and the request was refused, and the cookie cleared is the session cookie "token". |
| Session.DecisionDependsOnlyOnVerdict | backend/src/middleware/requireAuth.ts:22-31 | Two tokens with the same verdict get the same decision. |
| Auth.IssueCode | backend/src/routes/auth.ts:66 | `Math.floor(100000 + r * 900000)` for r in [0, 1) lies in [100000, 999999]. |
| Auth.IssueCodeCoversRange | backend/src/routes/auth.ts:66 | Every code in [100000, 999999] is produced by some draw. |
| Auth.IssuedCodeIsSixDigits | backend/src/routes/auth.ts:66 | An issued code renders as six digits, the first not '0'. |
| Auth.SendOtp | backend/src/routes/auth.ts:59-81 | A falsy email gives 400 and no change. Otherwise exactly one record is appended, holding the email, the hash of the code's text and an expiry of now + 600000 ms, with nothing else changed, and the reply is success. |
| Auth.NotAcceptedWithoutNewest | backend/src/routes/auth.ts:90-99 | A code is accepted iff the record `Newest` returns exists, is not past its expiry and matches the code. |
| Auth.VerifyOtp | backend/src/routes/auth.ts:83-126 | A missing field gives 400. It signs in iff the newest record is unexpired and matches, and otherwise gives 400 "Invalid or expired OTP" with no change. On success all the email's records go, an existing user is reused unchanged or a user holding only the email is created, and a 7-day session for that user is set in the cookie "token". The token also goes in the body. |
| Auth.GoogleSignIn | backend/src/routes/auth.ts:14-57 | A missing token gives 400, a rejected token 401 and a payload without an email 400. A new user gets the token's name, or the email's local part, and provider "google". An existing user only has its name replaced, and only when a name is present. Other users and the ledger are untouched. On success a 7-day session is set in the cookie "token". |
| Auth.Me | backend/src/routes/auth.ts:128-153 | No request user gives 401, an unknown id 404. Otherwise the reply holds exactly the stored user's id, name, email and provider. |
| AuthProperties.NewerCodeShadowsOlder | backend/src/routes/auth.ts:90-99 | A code that does not match the newest record for the email is refused without any change, whatever older records it matches. |
| AuthProperties.TwoCodesOnlyNewestRedeems | backend/src/routes/auth.ts:59-99 | After two sends to one address, the first code is refused and the second redeems. |
| AuthProperties.ExpiryIsStrict | backend/src/routes/auth.ts:92 | With a matching newest record, sign-in succeeds iff `now <= expiresAt`. |
| AuthProperties.FailureKindsAlike | backend/src/routes/auth.ts:92-99 | No record, an expired record and a wrong code all give the identical 400 and leave the state unchanged. |
| AuthProperties.SingleUse | backend/src/routes/auth.ts:101 | After a successful verification, any later attempt for that email fails with no change. |
| AuthProperties.VerifyLeavesOtherEmails | backend/src/routes/auth.ts:101 | A successful verification leaves every other email's records, and whether their codes are accepted, unchanged. |
| AuthProperties.IssueThenRedeem | backend/src/routes/auth.ts:59-99 | An issued code redeems within ten minutes. A wrong guess in the meantime is refused and changes nothing. |
| AuthProperties.OtpSessionAdmitted | backend/src/routes/auth.ts:103-119 | The cookie a successful verification sets is the one `requireAuth` reads, so the session it carries passes `requireAuth`, and `/me` then returns the user with that email. |
| AuthProperties.GoogleSessionAdmitted | backend/src/routes/auth.ts:39-52 | The cookie `/google` sets is the one `requireAuth` reads, and the session it carries passes `requireAuth` for the signed-in user. |
| AuthProperties.Step | backend/src/models/User.ts:4 | Every route keeps the store invariant: unique, non-empty emails and codes only for non-empty addresses. |
| AuthProperties.Run | backend/src/models/User.ts:4 | Any sequence of auth requests keeps the invariant. |
| AuthProperties.OneUserPerEmail | backend/src/models/User.ts:4 | From an empty database, after any requests, no two users share an email and no user has an empty one. |
| Notes.List | backend/src/routes/notes.ts:7-15 | Returns exactly the notes owned by the requester, unchanged, and modifies nothing. |
| Notes.Create | backend/src/routes/notes.ts:17-33 | No requester id gives 400 and no change. Otherwise it adds one note under a fresh id, owned by the requester, with title "Untitled Note" and content "" replacing falsy values. |
| Notes.Get | backend/src/routes/notes.ts:35-46 | Returns the note iff the requester owns it. A missing note and another user's note get the same 404. |
| Notes.Update | backend/src/routes/notes.ts:48-64 | Only an owned note changes: its given fields are replaced and its owner kept. Every other note is unchanged, and otherwise the reply is 404. |
| Notes.DeleteOne | backend/src/routes/notes.ts:68 | Deletes at most one note, and exactly one iff the requester owns it. No other note changes. |
| Notes.Delete | backend/src/routes/notes.ts:66-77 | An owned note is removed with `{ ok: true }`. Anything else gets 404 and no change. |
| Notes.Handle | backend/src/routes/notes.ts:7-77 | Every note route keeps ids below the counter. |
| Notes.NoCrossUserEffect | backend/src/routes/notes.ts:7-77 | For any request, the reply carries only the requester's notes and every other user's notes stay exactly as they were. |
| Notes.Run | backend/src/routes/notes.ts:7-77 | Any sequence of note requests keeps the store valid. |
| Notes.OthersNeverTouchMyNotes | backend/src/routes/notes.ts:7-77 | However many requests other users make, a user's notes are exactly as they were. |
| AuthClient.SendOtp | frontend/src/hooks/use-auth.ts:29-42 | `sendOTP` always resolves, and `success` is truthy iff the server replied with success. |
| AuthClient.DeleteNote | frontend/src/pages/NotesPage.tsx:126-127 | The axios delete rejects iff the server replied with an error status. It resolves with a truthy `ok` iff the note was deleted. |
| NotesPage.Stars | frontend/src/pages/NotesPage.tsx:34 | `"*".repeat(n)` has length n and holds only '*'. |
| NotesPage.MaskLocal | frontend/src/pages/NotesPage.tsx:31-34 | Keeps the length. Positions 0 and 1 are kept and every later position becomes '*'. |
| NotesPage.MaskEmail | frontend/src/pages/NotesPage.tsx:28-36 | Returns the input when the part before or after the first '@' is empty or missing. Otherwise it returns the masked first part, '@' and the second part. |
| NotesPage.MaskKeepsShape | frontend/src/pages/NotesPage.tsx:28-36 | With one '@' and both sides non-empty, the output has the input's length and matches it everywhere except the hidden local characters, which are '*'. |
| NotesPage.MaskDropsAfterSecondAt | frontend/src/pages/NotesPage.tsx:29-35 | With a second '@', the output is shorter than the input and holds only the one '@'. |
| NotesPage.MaskIdempotent | frontend/src/pages/NotesPage.tsx:28-36 | Masking a masked address changes nothing. |
| NotesPage.WelcomeName | frontend/src/pages/NotesPage.tsx:220 | A truthy name is shown. Failing that, the local part of a truthy email, and otherwise "User". |
| NotesPage.WelcomeNameEmptyIff | frontend/src/pages/NotesPage.tsx:220 | The greeting is empty iff the user has no name and an email starting with '@'. |
| NotesPage.RemoveById | frontend/src/pages/NotesPage.tsx:124 | The filter keeps exactly the notes whose id differs, each taken from the list. |
| NotesPage.RemoveByIdAppend | frontend/src/pages/NotesPage.tsx:124 | Filtering distributes over concatenation, so the kept notes stay in order. |
| NotesPage.RemoveByIdIdempotent | frontend/src/pages/NotesPage.tsx:124 | Filtering twice equals filtering once. |
| NotesPage.HandleDeleteNote | frontend/src/pages/NotesPage.tsx:121-137 | Without confirmation nothing changes. The list ends filtered only when the request resolves with a truthy `ok`, and otherwise ends exactly as it was. |
| NotesPage.ConfirmDelete | frontend/src/pages/NotesPage.tsx:140-159 | Without a pending note nothing changes. Otherwise a resolved request leaves the filtered list and a rejected one restores the list, and the dialog closes either way. |
| NotesPage.BeginDelete | frontend/src/pages/NotesPage.tsx:123-124 | The part before the request takes a copy of the list, and the list keeps exactly the notes with a different id. |
| NotesPage.SettleDelete | frontend/src/pages/NotesPage.tsx:130 | A failed delete sets the list back to the copy from its start, whatever changed in between. A successful one leaves the list as it is. |
| NotesPage.SplitDeleteIsHandler | frontend/src/pages/NotesPage.tsx:121-159 | With nothing in between, the two halves give exactly `handleDeleteNote` and `confirmDelete`. |
| NotesPage.StaleRollbackRestoresOtherDelete | frontend/src/pages/NotesPage.tsx:143-150 | With two deletes in flight, if the second succeeds on the server and the first then fails, the rollback lists the second note again although the server no longer has it. |
| NotesPage.DeleteKeepsListInSync | frontend/src/pages/NotesPage.tsx:121-159 | If the list shows exactly the user's notes on the server, it still does after either delete path runs against the real `DELETE` route. |
| SignUp.IsValidOtp | frontend/src/pages/auth/sign-up.tsx:84 | `/^\d{6}$/` accepts exactly the strings of six characters that are all ASCII digits. |
| SignUp.IssuedCodePassesFormatCheck | frontend/src/pages/auth/sign-up.tsx:84 | Every code the server issues passes `isValidOtp`. |
| SignUp.FormatCheckAdmitsUnissuableCodes | frontend/src/pages/auth/sign-up.tsx:84 | `isValidOtp` accepts "012345", which no issued code equals. |
| SignUp.ValidateForm | frontend/src/pages/auth/sign-up.tsx:29-67 | Fails on a blank name first, then a blank email, then a missing '@' in the untrimmed email, then an empty date of birth. It passes iff all four checks pass. |
| SignUp.ValidFormIsAcceptedBySendOtp | frontend/src/pages/auth/sign-up.tsx:69-74 | An email that passes validation is never refused by `/send-otp` as missing. |
| SignUp.HandleGetOtp | frontend/src/pages/auth/sign-up.tsx:69-81 | A request is sent iff the form validates, with the email as typed. `isOtpSent` becomes true only when `success` is truthy, and nothing else changes. |
| SignUp.GetOtpMarksSentOnlyOnServerSuccess | frontend/src/pages/auth/sign-up.tsx:69-81 | Against the modelled server, `isOtpSent` becomes true iff the form validates. |
| SignUp.HandleVerifyOtp | frontend/src/pages/auth/sign-up.tsx:86-101 | `{ email, otp }` is posted iff the code is exactly six ASCII digits. |
| SignUp.VerifyButtonDisabled | frontend/src/pages/auth/sign-up.tsx:216 | The button is disabled iff loading, or the code is not six characters, or it holds a non-digit. |
| SignUp.EnabledButtonAlwaysPosts | frontend/src/pages/auth/sign-up.tsx:86-101 | A click the enabled button allows always posts the code, and that code passes `isValidOtp`. |
| SignIn.HandleSignIn | frontend/src/pages/auth/sign-in.tsx:39-65 | A blank email is reported first, then a blank code. Otherwise the fields are posted as typed. |
| SignIn.SignInSkipsFormatCheck | frontend/src/pages/auth/sign-in.tsx:51-65 | Sign-in posts a code that fails the sign-up format check. |
| SignIn.SignInPostsEverySignUpCode | frontend/src/pages/auth/sign-in.tsx:51-65 | With a non-blank email, every code the sign-up page would post is posted unchanged by sign-in too. |
| SignIn.HandleSendOtp | frontend/src/pages/auth/sign-in.tsx:90-117 | A blank email sends nothing and changes nothing. Otherwise the request goes out and loading ends. A resolved call shows the code input and sets the cooldown to 60, and a rejected one changes nothing else. |
| SignIn.HandleResendOtp | frontend/src/pages/auth/sign-in.tsx:120-146 | The same guard applies. A resolved call sets the cooldown to 60, ends loading and changes nothing else, `isOtpSent` included. A rejected one only ends loading. |
| SignIn.SendMarksSentWhateverTheServerSays | frontend/src/pages/auth/sign-in.tsx:100-107 | Because `sendOTP` never rejects, a send with a non-blank email shows the code input and starts the cooldown even when the server answered with an error. |
| SignIn.Tick | frontend/src/pages/auth/sign-in.tsx:31-37 | A tick lowers a positive cooldown by one and leaves zero alone. |
| SignIn.TicksCountDown | frontend/src/pages/auth/sign-in.tsx:31-37 | After n ticks from c >= 0 the cooldown is max(0, c - n), never negative. |
| SignIn.ResendDisabled | frontend/src/pages/auth/sign-in.tsx:216 | The button is enabled iff not loading and the cooldown is not positive. |
| SignIn.ResendLockedForSixtyTicks | frontend/src/pages/auth/sign-in.tsx:103 | After a successful send, resend stays disabled for exactly the first 60 ticks. |

## Left out

- Cryptography is modelled as parameters, not computed:
  - bcrypt hashing and comparison are a `hash` function and a `matches` relation, with no salts;
  - JWT signing and verification are a payload record plus a verification oracle;
  - Google's `verifyIdToken` is an oracle.
  Lemmas that need a faithful hash state it as a precondition.
- Auth.IssueCode: `Math.random()` is an exact fraction `num / den` in [0, 1). Floating-point rounding of `r * 900000` is not modelled.
- The clock is a parameter. Nothing models time passing between the steps of one request.
- Email delivery (backend/src/utils/sendEmail.js) is not modelled. It swallows its own errors, so it never affects `/send-otp`'s reply. The code itself is never sent anywhere in the model.
- Concurrency is not modelled: the read-then-delete in `/verify-otp`, and the find-then-create of users. Requests run one at a time, and email uniqueness is a store invariant.
- Store and network failures are not modelled. With no failing store, the following branches cannot be reached:
  - the 500 replies ("Internal server error", "Failed to ... note");
  - Auth.GoogleSignIn: a `findOne`, `create` or `save` that throws is caught and answered with 401 "Google authentication failed" (backend/src/routes/auth.ts:24-36, 53-56), like a rejected ID token. In the model only a rejected token gives that 401;
  - Session.RequireAuth: a `findById` that throws (backend/src/middleware/requireAuth.ts:25) is caught and answered with 401 "Unauthorized: Invalid token", with the cookie cleared (lines 33-35). In the model only a rejected token gives that reply.
- OtpLedger.Newest: `/verify-otp` picks the record with `sort({ createdAt: -1 })` (backend/src/routes/auth.ts:90), but the OTP schema declares no `createdAt` (backend/src/models/Otp.d.ts:2-5). Sorting on a missing field leaves the order up to the database. The model assumes the record inserted last is returned, and every "newest code" result rests on that assumption.
- NotesPage.MaskLocal and NotesPage.MaskEmail: lengths and positions count Unicode characters, not UTF-16 code units. For a character outside the Basic Multilingual Plane the results differ: the model keeps the emoji of "\u{1F600}ab@x" plus "a", while JavaScript keeps the emoji's two code units and masks both letters.
- NotesPage.DeleteKeepsListInSync: covers one delete at a time. Overlapping deletes, whose rollbacks restore a stale copy of the list (frontend/src/pages/NotesPage.tsx:123-130, 143-150), are modelled only by NotesPage.StaleRollbackRestoresOtherDelete, which shows the list and the server disagreeing afterwards.
- Auth.VerifyOtp and Auth.GoogleSignIn: both require the store invariant (`Auth.Valid`). It holds for every state reachable from an empty database (`AuthProperties.Run`), and it stands in for the unique index.
- Notes.Update: a field missing from the body (`undefined`) is taken to leave that field unchanged. This is how Mongoose treats `undefined` in an update. A field set to `null` is not modelled.
- Request bodies whose fields are not strings are not modelled. Every body field is an absent-or-string `Option<string>`.
- Malformed note ids, which make Mongoose throw a cast error and reply 500, are not modelled. Ids are naturals.
- The order of `Note.find` results is not modelled: the list is a map from id to note.
- Session.Mint: `iat` is the current second, rounded down. The JWT library's own clock and its expiry check belong to the verification oracle.
- Cookie flags are not modelled (httpOnly, secure, sameSite). The cookie name "token" (`Session.CookieName`, shared by the routes that set the cookie and by `requireAuth`, which reads and clears it) and the 7-day `maxAge` are kept.
- The server bootstrap in backend/src/index.ts is not part of this model: CORS, the database connection, the duplicate `/auth/me` that the router shadows, and logout, which only clears the cookie.
- The compiled backend/src/routes/auth.js, routes/notes.js and index.js are older builds that differ from the TypeScript sources. They are not part of this model.
- The Supabase-based hooks and pages under src/, and `signInWithGoogle`, wrap a library that is not part of this model.
- The following are not modelled: rendering, routing, toasts, navigation after success, timers as real time, date formatting, and the note editor page.
- SignUp.HandleGetOtp and SignUp.HandleVerifyOtp: the loading flag `otpLoading` and the reply of `/verify-otp` only drive navigation and toasts, so they are not part of the page state.
