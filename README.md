# Ticket-marketplace front end: request validation and session gate

This project models the request-handling logic of the front end of a small
ticket marketplace (`CI-Python/qa327/frontend.py`):

- **Registration** (`register_post`). An ordered `if/elif` chain over the form
  fields (email, name, password, password2) picks the first failing check. Its
  message is re-rendered on the registration page. A message-free run
  redirects to `/login`.
- **Login** (`login_post`). The backend's `login_user` is asked first. A
  blank check, the login email pattern and a password-strength scan then
  decide, in that order. Only a form that passes all of them lets a found
  user log in. Login writes the user's email under `logged_in` in the session
  and redirects to the profile with status 303.
- **Logout**. It removes `logged_in` from the session and redirects to `/`.
- **The `authenticate` gate**. With no `logged_in` entry it redirects to
  `/login`. When the entry resolves through `get_user`, it runs the wrapped
  handler for that user. When the entry does not resolve, it returns `None`.

Modules:

- `PyChars` (chars.dfy): ASCII character classes for `str.isupper`,
  `str.islower`, `str.isalnum`, `str.isspace` and the pattern class `\w`.
- `Http` (http.dfy): the `Response` datatype, the exceptions a handler can
  raise, and the `User` record.
- `EmailPattern` (email_pattern.dfy): the language of the login email
  pattern under `re.search`.
- `Register` (register.dfy): the registration chain. It comes three ways:
  - as written, with the two conditions that raise given as inputs;
  - as the source runs it;
  - as it is evidently meant to behave.

  It also holds the handler's two character scans.
- `Login` (login.dfy): the login decision, the session update and the
  password scan.
- `Sessions` (session.dfy): the session object, logout and the
  `authenticate` gate.

The backend (`get_user`, `register_user`, `login_user`) is not part of this
model. Its answers are parameters: an `Option<User>` for a lookup, and a
boolean for "the email is taken" or "the user was stored".

Points where the code behaves differently from what its names and comments
suggest, and the model follows the code:

- The two handlers accept different special characters in a password.
  Registration accepts ``!@#$%^&*+=~`-_/`` and login accepts
  `!@#$%^&*()_-+=/`. `Login.SpecialSetsDiffer` shows a password that passes
  one scan and fails the other.
- The `authenticate` wrapper handles a session entry that no longer resolves
  to a user by falling off its end, so it returns `None` rather than
  redirecting to `/login`. The model returns `NoneValue` there.
- The registration strength scan uses `if/elif/elif`, so each character sets
  at most one flag. The login scan uses three separate `if`s. On ASCII the
  classes are disjoint, so both scans compute the same three flags.
- The comment at line 38 calls the registration email check an RFC5322
  format check, and the message says so too. The code uses an ad-hoc pattern
  (line 29) that does not compile. The model models the pattern, not
  RFC 5322.

## Model

| member | source | states |
|---|---|---|
| `EmailPattern.Matches` | CI-Python/qa327/frontend.py:104-105 | `re.search` with the login pattern: the pattern matches all of the string, or all of it but a final newline; any match contains `@` and has at least seven characters |
| `EmailPattern.LocalPartIsLong` | CI-Python/qa327/frontend.py:104 | the local part `[a-z0-9]+[\._]?[a-z0-9]+` has at least two characters |
| `EmailPattern.LocalPartHasNoAt` | CI-Python/qa327/frontend.py:104 | no character of a matching local part is `@` |
| `EmailPattern.NoAtRejected` | CI-Python/qa327/frontend.py:104-106 | a string without `@` never matches the login pattern |
| `EmailPattern.LastDotInBody` | CI-Python/qa327/frontend.py:104 | in a matching string the part after the last dot is the 2-3 character top-level domain |
| `EmailPattern.LongTldRejected` | CI-Python/qa327/frontend.py:104-106 | a string ending in a dot and four or more word characters is rejected, and so is that string followed by a newline |
| `EmailPattern.ShortLocalRejected` | CI-Python/qa327/frontend.py:104-106 | a string whose local part is a single character is rejected, with or without a final newline |
| `EmailPattern.AcceptsPlainAddress` | CI-Python/qa327/frontend.py:104-106 | `ab@cd.com` is accepted |
| `EmailPattern.AcceptsTrailingNewline` | CI-Python/qa327/frontend.py:104-106 | `ab@cd.com` followed by a newline is accepted, because `$` matches before a final newline |
| `EmailPattern.AcceptsSeparatedLocalPart` | CI-Python/qa327/frontend.py:104 | a local part with one `.` between two runs is accepted |
| `EmailPattern.RejectedExamples` | CI-Python/qa327/frontend.py:104-106 | `a@cd.com`, `abcd.com` and `ab@cd.info` are rejected |
| `Register.Finish` | CI-Python/qa327/frontend.py:80-83 | a non-empty error message renders the registration page with it; no message (or an empty one) redirects to `/login` with 302 |
| `Register.BackendOutcome` | CI-Python/qa327/frontend.py:72-83 | a taken email gives "This email has already been used"; otherwise a failed store gives "Failed to store user info."; the redirect happens exactly when the email is free and the user was stored |
| `Register.StrengthStage` | CI-Python/qa327/frontend.py:45-56 | the strength block reports "Password is not strong enough" exactly when the password lacks an upper-case letter, a lower-case letter or a registration special character |
| `Register.NameStage` | CI-Python/qa327/frontend.py:58-77 | length at most 2 or at least 20 gives the length message; a 3-19 character name with a character that is neither alphanumeric nor whitespace gives the special-character message; any other 3-19 character name gives no message |
| `Register.RegisterChain` | CI-Python/qa327/frontend.py:32-83 | different passwords give "The passwords do not match" whatever the other fields are; otherwise an empty email gives "Email format error"; a crash is the exception of one of the two raising conditions; the handler never returns None |
| `Register.ChainIgnoresBackend` | CI-Python/qa327/frontend.py:44-77 | the backend's answers never change the registration response: no path reaches the calls at lines 73-76 |
| `Register.UnreachableMessages` | CI-Python/qa327/frontend.py:58-77 | the chain never answers "Spacing error in name", "This email has already been used" or "Failed to store user info." |
| `Register.NameChecks` | CI-Python/qa327/frontend.py:58-70 | for a form that reaches the name checks: wrong length gives the length message; special characters give the special-character message; a well-formed name redirects with no backend call |
| `Register.SearchRegisterPattern` | CI-Python/qa327/frontend.py:29-38 | the search with the pattern of line 29 raises re.error for every email and never yields a match result |
| `Register.StrengthGuardAsWritten` | CI-Python/qa327/frontend.py:44 | the guard `len(password > 5)` raises TypeError for every password and never yields a truth value |
| `Register.StrengthGuardIntended` | CI-Python/qa327/frontend.py:44 | the guard read as `len(password) > 5` is true for every password that reaches it |
| `Register.RegisterAsWritten` | CI-Python/qa327/frontend.py:29-39 | as the source runs it, registration answers only the password-mismatch or the empty-email message, and raises re.error on every other form |
| `Register.StrengthGuardCrashes` | CI-Python/qa327/frontend.py:44 | even with an email pattern that compiles and matches, `len(password > 5)` raises TypeError for every password of six characters or more |
| `Register.StrengthBlockSwallowsRest` | CI-Python/qa327/frontend.py:44-58 | with the guard read as `len(password) > 5`, the answer depends on the password alone: a strong password redirects to `/login`, a weak one gets the strength message |
| `Register.ValidRegistrationNotStored` | CI-Python/qa327/frontend.py:44-83 | with the guard read as intended, a valid form redirects to `/login` even though the backend stored nothing |
| `Register.ExamplePasswordStrong` | CI-Python/qa327/frontend.py:48-56 | `Abcde1!` passes the registration strength scan |
| `Register.ExampleNamesPlain` | CI-Python/qa327/frontend.py:64-67 | `Alice` and ` Alice` contain only alphanumerics and whitespace |
| `Register.RegisterIntended` | CI-Python/qa327/frontend.py:32-83 | the corrected chain: a password mismatch is reported first, and it never crashes nor returns None |
| `Register.IntendedRejectsMalformedEmail` | CI-Python/qa327/frontend.py:38-39 | in the corrected chain, a non-empty email that fails the pattern is reported as "Email not in RFC5322 format"; the chain as written, given that failed search, answers the same |
| `Register.IntendedPasswordStrength` | CI-Python/qa327/frontend.py:41-67 | in the corrected chain, a long but weak password gets the strength message; a strong one goes on to the name-length and special-character checks |
| `Register.PasswordTooShort` | CI-Python/qa327/frontend.py:41-42 | a password under six characters gets "Password not long enough", in the chain as written once the email search matched and in the corrected chain once the email matches the pattern |
| `Register.IntendedLateChecks` | CI-Python/qa327/frontend.py:69-79 | in the corrected chain, for any form passing every earlier check: a name starting or ending with a blank gets "Spacing error in name"; otherwise a taken email gets "This email has already been used", and a free one that was not stored gets "Failed to store user info." |
| `Register.IntendedSpacingReachable` | CI-Python/qa327/frontend.py:69-70 | in the corrected chain, a name with a leading blank gets "Spacing error in name" |
| `Register.IntendedExampleRegisters` | CI-Python/qa327/frontend.py:20-83 | in the corrected chain, `ab@cd.com` / `Alice` / `Abcde1!` registers and redirects to `/login` |
| `Register.IntendedRedirectIff` | CI-Python/qa327/frontend.py:32-83 | the corrected chain redirects to `/login` exactly when every check passes, the email is free and the backend stored the user |
| `Register.IntendedAgreesBeforeStrength` | CI-Python/qa327/frontend.py:32-42 | up to the password-length check, the corrected chain and the written chain (given the same pattern) answer alike |
| `Register.ScanRegisterPassword` | CI-Python/qa327/frontend.py:48-54 | the loop's flags say whether the password has an upper-case letter, a lower-case letter and a registration special character |
| `Register.ScanName` | CI-Python/qa327/frontend.py:65-67 | the loop leaves the special-character message exactly when some character is neither alphanumeric nor whitespace |
| `Register.RegisterPost` | CI-Python/qa327/frontend.py:20-83 | the step-by-step handler, with its loops, answers what the chain specifies |
| `Login.LoginResponse` | CI-Python/qa327/frontend.py:101-138 | a blank field gives the blank message; otherwise a failed pattern or password scan gives the format message; a form that passes with no user gives "login failed"; a 303 redirect to the profile happens exactly when every check passes and a user was found |
| `Login.SessionAfterLogin` | CI-Python/qa327/frontend.py:122-123 | on success the login entry holds the found user's email; in every other case the session is unchanged; keys other than the login entry are never touched |
| `Login.BlankWins` | CI-Python/qa327/frontend.py:95-102 | a blank email or password is reported as blank whatever `login_user` returned |
| `Login.FormatBeatsBackend` | CI-Python/qa327/frontend.py:104-120 | a format failure is reported even when the backend found a user |
| `Login.ScanLoginPassword` | CI-Python/qa327/frontend.py:108-118 | the loop's flags say whether the password has an upper-case letter, a lower-case letter and a login special character |
| `Login.LoginPost` | CI-Python/qa327/frontend.py:91-138 | the step-by-step handler answers what `LoginResponse` specifies and leaves the session as `SessionAfterLogin` specifies |
| `Login.LoginThenGate` | CI-Python/qa327/frontend.py:122-174 | after a successful login, a gated handler runs for the user the stored email resolves to |
| `Login.FailedLoginKeepsGate` | CI-Python/qa327/frontend.py:101-138 | a login that does not redirect leaves the gate's answer as it was |
| `Login.SpecialSetsDiffer` | CI-Python/qa327/frontend.py:108-117 | `Abcde~` passes the registration scan but not the login scan; `Abcde(` passes the login scan but not the registration scan |
| `Sessions.WithoutLogin` | CI-Python/qa327/frontend.py:143-144 | removing the login entry leaves it absent and keeps every other key and value |
| `Sessions.LogoutIdempotent` | CI-Python/qa327/frontend.py:141-146 | logging out twice leaves the same session as logging out once |
| `Sessions.LogoutAnonymousUnchanged` | CI-Python/qa327/frontend.py:143 | a session without a login entry is not changed by logout |
| `Sessions.Logout` | CI-Python/qa327/frontend.py:141-146 | the handler drops the login entry, keeps the rest of the session and redirects to `/` with 302 |
| `Sessions.GateDecision` | CI-Python/qa327/frontend.py:165-177 | the gate sends to login exactly when there is no login entry, and admits exactly when the entry resolves, admitting the user it resolves to |
| `Sessions.Authenticate` | CI-Python/qa327/frontend.py:149-180 | no entry gives a redirect to `/login`; a resolving entry gives the inner handler's result for that user; an entry that does not resolve gives None |
| `Sessions.AnonymousSkipsInner` | CI-Python/qa327/frontend.py:175-177 | without a login entry, the response does not depend on the inner handler |
| `Sessions.LogoutThenGate` | CI-Python/qa327/frontend.py:141-177 | after logout, every gated handler redirects to `/login` |
| `Sessions.GateReadsOnlyLogin` | CI-Python/qa327/frontend.py:168-170 | session keys other than the login entry do not change the gate's answer |

## Left out

- Flask routing, `render_template`, `redirect` and `url_for` are modelled as
  values of a small `Response` datatype.
- Login.LoginResponse: the 303 redirect to the profile route `/` is the
  evidently intended behaviour, not the code as written. Line 136 passes the
  view function to `url_for`, which most likely raises TypeError after line
  123 has already stored the login entry; not executed, so the model keeps
  the intended redirect and the session update.
- The `print(user)` at line 96 is output only and is left out.
- The `qa327.backend` module is not part of this model. `get_user`,
  `register_user` and `login_user` are parameters holding their answers. That
  a registered user can be retrieved and cannot register twice is a property
  of the backend and is not modelled. The "taken email" answer stands for it.
- The `register` and `login` GET handlers only render a fixed page and are
  left out.
- `profile`, `buy_ticket`, `sell_ticket` and the `/*` route only fetch tickets
  (`get_all_tickets`) and render, or redirect. They are left out, and so is
  the missing `@authenticate` on `buy_ticket` and `sell_ticket`.
- `request.form.get` can return `None`, after which `len(None)` raises. Form
  fields are modelled as strings.
- Character classes are ASCII only. Unicode upper-case, lower-case,
  alphanumeric, whitespace and word characters outside ASCII are not
  modelled.
- The registration pattern at line 29 is not modelled as a language, because
  it does not compile. `Register.SearchRegisterPattern` is its raising search.
  The corrected chain uses the login pattern of line 104 in its place.

## Findings

| source | as written | input that shows it | evidently intended | confidence | as-written member | corrected member |
|---|---|---|---|---|---|---|
| CI-Python/qa327/frontend.py:29 | the pattern `^[a-z0-9]+[\._]?[a-z0-9]\w+{2,3}$` repeats a repeat, so `re.search` at line 38 raises re.error ("multiple repeat") for every email that reaches it | email `ab@cd.com`, name `Alice`, both passwords `Abcde1!` | an email pattern that compiles, as the login handler's at line 104 does; malformed emails get "Email not in RFC5322 format" | not executed; high | `Register.RegisterAsWritten` | `Register.IntendedRejectsMalformedEmail` |
| CI-Python/qa327/frontend.py:44 | `len(password > 5)` compares a str with an int and raises TypeError for every password of six characters or more | any form passing the earlier checks, e.g. password `Abcdef!` | a strength check on long-enough passwords | not executed; high | `Register.StrengthGuardCrashes` | `Register.IntendedPasswordStrength` |
| CI-Python/qa327/frontend.py:44-77 | with line 44 read as `len(password) > 5` the branch is always taken, so the name checks and the backend calls are never reached; `elif len(name) > 0` likewise swallows the spacing check and the backend calls; a valid form redirects to `/login` without the user being stored | email `ab@cd.com`, name `Alice`, both passwords `Abcde1!`, email not yet used | each check as a condition of its own, so that a valid form reaches `get_user` and `register_user` | not executed; medium | `Register.ValidRegistrationNotStored` | `Register.IntendedRedirectIff` |
