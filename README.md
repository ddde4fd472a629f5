# PMJ Secure authentication core in Dafny

PMJ Secure is a SvelteKit password manager. This project models the part of it that
decides who is signed in and what each signed-in user may touch:

- the `Auth` store of users, sessions and two-factor settings;
- the passkey (WebAuthn) credential store;
- the in-memory challenge Maps with their five-minute deletion timers;
- the server hook that resolves the `session_id` cookie and rate-limits registration;
- the route handlers for login, registration, logout, the account page, password
  re-verification, passkey listing and deletion, passkey registration and sign-in, and the
  vault of saved passwords.

The SQLite database is a `Db.Database` object. Its tables are fields: users, passkey rows
and vault rows are sequences in rowid order, and sessions form a map keyed by their primary
key. `Database.Valid()` collects the constraints the schema declares: the primary keys,
`users.username UNIQUE`, `credential_id UNIQUE` and the foreign keys. Every state-changing
operation is a method that keeps `Valid()` and states its whole new state. Every lookup is a
function of the tables it reads.

Outside code becomes parameters:

- bcrypt: `Bcrypt.Hash` records the cost and the preimage, and `Compare` is preimage
  equality.
- otplib's `check`, and the two SimpleWebAuthn verifiers: function-typed parameters.
- Random uuids, challenges and 2FA secrets: parameters.
- The clock: `now`, in milliseconds since the epoch.

Each route handler is a method that takes the request's relevant fields, already decoded,
and returns an `Http.Reply` with a status code. The handlers that set the session cookie
also return a `CookieChange`.

Notable behaviours of the code that the model makes explicit:

- A session's expiry is compared as text. `toISOString()` writes a 'T' between date and
  time, while SQLite's `datetime('now')` writes a space. The space sorts first, so a
  session stays live until the end of the UTC day on which it expires
  (`Auth.LiveUntilEndOfExpiryDay`).
- Login never consults the two-factor flag.
- Re-storing a challenge does not cancel the earlier timer. That timer deletes the newer
  challenge (`Challenges.StaleTimerWipesNewerChallenge`).
- The account page's password pattern lets a digit count as the symbol. It also refuses
  '-', which registration accepts (`Regex.DigitPassesAsSymbol`,
  `Regex.DashOnlyAtRegistration`).
- Passkey registration can never complete, because the two registration routes use
  different Maps (see Findings).

## Model

| member | source | states |
|---|---|---|
| Db.UserInsertError | src/lib/server/db.js:10-15 | inserting a user fails exactly when its id or its username is already taken, and the message then contains "UNIQUE constraint failed" |
| Db.SessionInsertError | src/lib/server/db.js:17-22 | inserting a session fails exactly when the id is taken or the owner does not exist |
| Db.PasskeyInsertError | src/lib/server/db.js:55-65 | inserting a passkey row fails exactly when its id or credential id is taken or its owner does not exist |
| Db.UpdateUsersKeepsKeys | src/lib/server/db.js:10-15 | an update of non-key user columns keeps ids and usernames unique and keeps the same set of ids |
| Db.UpdateUsersRows | src/lib/server/auth.js:63-91 | after an UPDATE ... WHERE id = ? the table holds exactly the rows with other ids, as they were, and the updated version of each row with that id |
| Db.Database.constructor | src/lib/server/db.js:9-33 | a fresh database has empty tables and satisfies every constraint |
| Db.Database.UpdateUser | src/lib/server/auth.js:63-91 | the users table becomes the updated table, the other tables are unchanged, and the constraints still hold |
| Db.Database.InsertVaultRow | src/routes/api/passwords/+server.js:26-27 | an INSERT into passwords appends one row whose AUTOINCREMENT id is above every earlier id, and bumps the sequence |
| Bcrypt.HashPassword | src/lib/server/auth.js:8 | the stored hash uses cost factor 10 |
| Bcrypt.CompareOwnHash | src/lib/server/auth.js:26 | a password compares equal to its own hash |
| Auth.UserByUsername | src/lib/server/auth.js:22-23 | the lookup finds a row with that username exactly when one exists |
| Auth.UserById | src/lib/server/auth.js:104-105 | the lookup finds a row with that id exactly when one exists, and under the primary key it is the only such row |
| Auth.CreateUser | src/lib/server/auth.js:6-19 | succeeds exactly when neither the id nor the username is taken, and then appends one row holding the bcrypt hash of the password with 2FA off; a taken username or id gives "Username already exists" and leaves the users unchanged |
| Auth.VerifyUser | src/lib/server/auth.js:21-33 | None for an unknown username; a result always carries the id and name of a row whose hash matches the password, with the 2FA flag read as `=== 1` |
| Auth.VerifyUserExact | src/lib/server/auth.js:21-33 | under the unique-username constraint, verification succeeds exactly when some user with that name has a matching hash, so an unknown name and a wrong password are indistinguishable |
| Auth.CreatedUserVerifies | src/lib/server/auth.js:6-33 | after createUser with a fresh name, that name verifies with exactly the password it was created with |
| Auth.CreateSession | src/lib/server/auth.js:35-41 | succeeds exactly when the session id is fresh and the user exists, and then adds exactly one session for that user expiring at now + 604800000 ms as ISO text; nothing else changes |
| Auth.JoinOwner | src/lib/server/auth.js:44-53 | the join yields a row exactly when the owner exists, carrying that owner's username and the 2FA flag as a boolean |
| Auth.GetSession | src/lib/server/auth.js:43-55 | a row is returned exactly when the session exists, its expiry text is greater than SQLite's current datetime text, and its owner exists |
| Auth.LiveUntilEndOfExpiryDay | src/lib/server/auth.js:37-48 | a session whose expiry was written by toISOString is live exactly while the current UTC date is not past the expiry's date |
| Auth.LiveAfterExpiryInstant | src/lib/server/auth.js:37-48 | on the expiry's own day a session is still live after its expiry instant has passed |
| Auth.DeleteSession | src/lib/server/auth.js:57-60 | removes only the named session and does nothing for an unknown id |
| Auth.Create2FASecret | src/lib/server/auth.js:63-69 | stores the secret for that user and returns it; the enabled flag of every row is unchanged |
| Auth.TwoFactorSecret | src/lib/server/auth.js:73-77 | a secret is found only for an existing user whose stored secret is non-empty; under the primary key an existing user with a non-empty secret gets exactly that secret |
| Auth.Validate2FA | src/lib/server/auth.js:93-101 | false for a missing user or secret; under the primary key, true exactly when the user has a non-empty secret and the code checker accepts the code against it |
| Auth.Enable2FA | src/lib/server/auth.js:71-86 | throws "2FA Setup not initiated" exactly when there is no secret; otherwise returns whether the code is valid, and sets the flag only on a valid code |
| Auth.Disable2FA | src/lib/server/auth.js:88-91 | clears flag and secret for that user in one update; other tables are unchanged |
| Auth.Get2FAStatus | src/lib/server/auth.js:103-107 | false for a missing user; under the primary key, true exactly when the user's flag is 1 |
| Auth.EnabledStatus | src/lib/server/auth.js:103-107 | after enable2FA's update the status of an existing user reads enabled |
| Auth.DisabledStatus | src/lib/server/auth.js:88-101 | after disable2FA neither the status nor any code validates |
| Auth.SecretKeepsStatus | src/lib/server/auth.js:63-69 | storing a new secret leaves the 2FA status as it was |
| Text.IsoString | src/lib/server/auth.js:39 | toISOString text: 24 characters, the date first, then 'T' (years 0 to 9999 only, see Left out) |
| Text.SqliteDateTime | src/lib/server/auth.js:48 | datetime('now') text: 19 characters, the same date first, then a space |
| Text.SeparatorDecides | src/lib/server/auth.js:48 | comparing a space-separated timestamp with a 'T'-separated one, only the dates decide |
| Text.LessTransitive | src/lib/server/auth.js:48 | SQLite's text order is transitive |
| Text.LessTotal | src/lib/server/auth.js:48 | SQLite's text order is total |
| Base64.DecodeEncode | src/lib/server/passkey.js:99-100 | decoding a base64 or base64url encoding gives the bytes back |
| Base64.IllegalCharIgnored | src/lib/server/passkey.js:134-141 | a character whose UTF-16 code units all have a low byte outside both alphabets and other than '=' (a space, a line break, 'ā') changes nothing that is decoded |
| Base64.WideCharReadsAsLowByte | src/lib/server/passkey.js:134-141 | the decoder reads only the low byte of a code unit, so "ŁAAA" (U+0141) decodes like "AAAA", to three zero bytes |
| Base64.AstralCharStopsDecoding | src/lib/server/passkey.js:134-141 | the high surrogate of U+1F600 has low byte '=', so decoding "A😀…" stops at the emoji and gives no byte, whatever follows |
| Base64.UrlIdMatchesStoredId | src/lib/server/passkey.js:134-141 | the base64url id a browser sends, re-encoded as base64, equals the base64 text stored at registration for the same bytes |
| Passkey.GenerateRegistrationOptions | src/lib/server/passkey.js:20-57 | throws "User not found" exactly for an unknown user; otherwise carries the challenge, the user, the relying party, resident key required and an empty exclusion list |
| Passkey.GenerateAuthenticationOptions | src/lib/server/passkey.js:118-127 | carries the challenge, the relying party id and preferred user verification |
| Passkey.CredentialRow | src/lib/server/passkey.js:90-110 | the inserted row decodes back to the verifier's credential id and public key, holds its counter and the owner, and has no last-used time |
| Passkey.VerifyRegistration | src/lib/server/passkey.js:62-113 | inserts exactly one row only on a verified verdict with registration info; a thrown verdict is rethrown as "Failed to verify registration: ..." with no row; otherwise it reports failure and inserts nothing |
| Passkey.LookupCredential | src/lib/server/passkey.js:134-155 | finds a stored credential matching the re-encoded id, or else the base64 of rawId; a row matching the re-encoded id is always the one found; none only when neither matches any row |
| Passkey.RegisteredCredentialFound | src/lib/server/passkey.js:134-141 | a credential stored at registration is found again from the base64url id the browser reports |
| Passkey.UpdateCounterKeepsTable | src/lib/server/passkey.js:187-196 | the counter update keeps every constraint of the passkey table, and afterwards the table holds every other row as it was and the matched row with the new counter and last-used time, nothing else |
| Passkey.VerifyAuthentication | src/lib/server/passkey.js:132-199 | "Credential not found" with no change when nothing matches; "Failed to verify authentication" when the verifier throws; when verified, only the matched row's counter and time change and its owner is returned; when not verified, nothing changes |
| Passkey.GetUserPasskeys | src/lib/server/passkey.js:204-211 | exactly the summaries of the user's own rows, one per row, newest created_at first, without credential id or key |
| Passkey.DeletePasskey | src/lib/server/passkey.js:216-223 | removes rows only when both id and owner match, returns true exactly when such a row existed, and leaves every other row |
| Challenges.DueKeys | src/lib/server/challenge-store.js:9-11 | the keys deleted by the timers due at a time are exactly those of timers firing by then |
| Challenges.Pending | src/lib/server/challenge-store.js:9-11 | the timers still waiting are exactly those firing later |
| Challenges.StaleTimerWipesNewerChallenge | src/lib/server/challenge-store.js:5-12 | when a challenge is stored again before the first store's timer fires, that timer deletes the newer challenge while it is younger than five minutes |
| Challenges.TickKeepsScheduled | src/lib/server/challenge-store.js:8-11 | every challenge that survives the due timers still has a deletion pending |
| Challenges.ChallengeMap.constructor | src/lib/server/challenge-store.js:3 | a new Map is empty with no timers |
| Challenges.ChallengeMap.Store | src/lib/server/challenge-store.js:5-12 | overwrites the key's challenge, leaves every other key, and schedules one more deletion five minutes later without cancelling earlier ones |
| Challenges.ChallengeMap.Get | src/lib/server/challenge-store.js:14-16 | returns the stored challenge without removing it |
| Challenges.ChallengeMap.Delete | src/lib/server/challenge-store.js:18-20 | removes the key, does nothing when it is absent, and leaves other keys |
| Challenges.ChallengeMap.Tick | src/lib/server/challenge-store.js:9-11 | running the due timers deletes exactly their keys, leaves no due timer waiting, and every stored challenge still has a timer pending |
| Hooks.Recent | src/hooks.server.js:31 | the pruned list holds exactly the stored times strictly inside the 15-minute window |
| Hooks.RecentKeepsAll | src/hooks.server.js:31 | pruning a list whose times are all inside the window keeps all of them |
| Hooks.ResolveUser | src/hooks.server.js:7-16 | `locals.user` is set, to exactly the session's user id and username, only when the cookie is present and getSession returns a row |
| Hooks.RateLimiter.constructor | src/hooks.server.js:3 | the limiter starts empty |
| Hooks.RateLimiter.Check | src/hooks.server.js:20-41 | denied exactly when five or more recent times are stored for the address; a denial records nothing; an allowed request stores the pruned list plus now, at most five entries all inside the window; a failed address lookup lets the request through |
| Hooks.SixthAttemptDenied | src/hooks.server.js:23-35 | five attempts inside one window make the next one from that address denied |
| Hooks.WindowSlides | src/hooks.server.js:31-33 | once every recorded attempt is older than the window, the address is admitted again |
| Hooks.Handle | src/hooks.server.js:5-45 | only POST /register is rate-limited and other requests leave the limiter alone; a denied request answers 429 with the fixed message and records nothing; an allowed one stores the requester's pruned window plus now; a failed address lookup lets the request through untouched; addresses other than the requester's are untouched |
| Http.SessionCookie | src/routes/login/+page.server.js:20-26 | the session cookie is HTTP-only, SameSite lax, site-wide, secure exactly over https, and lives exactly as long as the session row |
| LoginPage.Login | src/routes/login/+page.server.js:5-29 | 400 "Username and password are required" when a field is missing; 400 "Invalid username or password" when verification fails; otherwise exactly one session for the verified user, the session cookie and a 303 to "/"; users and other tables unchanged |
| LoginPage.SameCredentialsSameLogins | src/lib/server/auth.js:21-33 | tables agreeing row by row on names and hashes admit the same password logins |
| LoginPage.TwoFactorDoesNotGateLogin | src/routes/login/+page.server.js:14-28 | enabling 2FA for any user changes no password login's outcome |
| RegisterPage.ErrorText | src/routes/register/+page.server.js:45 | the error is the exception's message, or "Internal Server Error" when it is empty |
| RegisterPage.FormError | src/routes/register/+page.server.js:10-27 | missing fields first, then the username pattern, then the password pattern; no error exactly when all three checks pass |
| RegisterPage.Register | src/routes/register/+page.server.js:5-49 | a validation failure answers 400 and changes nothing; a taken name answers 500 "Username already exists"; success adds one user and one session for the new id, sets the cookie and redirects 303 to "/"; any store error answers 500 with no session |
| LogoutRoute.Post | src/routes/logout/+server.js:4-11 | with a cookie, deletes that session and the cookie; without one, changes nothing; always a 303 to "/login" |
| LogoutRoute.LogoutIdempotent | src/routes/logout/+server.js:7 | a second logout with the same id leaves the same sessions |
| LogoutRoute.LoggedOutCookieResolvesNobody | src/routes/logout/+server.js:6-9 | after logout the old cookie resolves to no user at any time |
| AccountPage.Load | src/routes/account/+page.server.js:6-17 | redirects 302 to "/login" exactly when signed out; otherwise returns the user and, under the primary key, a 2FA status that is true exactly when the user's row is enabled |
| AccountPage.PasswordFormError | src/routes/account/+page.server.js:30-42 | missing fields, then mismatch, then the pattern, in that order; no error exactly when all pass |
| AccountPage.UpdatePassword | src/routes/account/+page.server.js:22-61 | 401, then the form checks, then a throw for a missing row, then 400 "Incorrect current password"; the hash changes only for the signed-in user and only when the current password matches; nothing else changes |
| AccountPage.PasswordChangeTakesEffect | src/routes/account/+page.server.js:54-58 | after the update the account signs in with the new password and with no other |
| AccountPage.Setup2FA | src/routes/account/+page.server.js:63-79 | 401 when signed out; otherwise stores the secret for the signed-in user and returns it |
| AccountPage.Verify2FA | src/routes/account/+page.server.js:81-96 | "2FA Setup not initiated" and a wrong or missing code are both 400 under error2fa; only an accepted code enables 2FA and answers success |
| AccountPage.Disable2FA | src/routes/account/+page.server.js:98-102 | 401 when signed out; otherwise clears 2FA for the signed-in user only |
| Regex.LookaheadFindsMeans | src/routes/register/+page.server.js:23 | a `(?=.*X)` lookahead succeeds exactly when an X occurs before the first line terminator |
| Regex.AccountPatternMeans | src/routes/account/+page.server.js:19 | PASSWORD_REGEX accepts exactly the strings of eight or more characters of its alphabet that hold an upper-case letter and a digit; the symbol lookahead adds nothing |
| Regex.RegisterPatternMeans | src/routes/register/+page.server.js:23 | the registration pattern accepts exactly the one-line strings of eight or more UTF-16 code units with an upper-case letter, a digit and a listed symbol |
| Regex.AstralCharCountsTwice | src/routes/register/+page.server.js:23 | the one password "Abc1!\U{1F600}x", seven characters with an emoji beyond the Basic Multilingual Plane, passes the registration pattern because it is eight UTF-16 code units long |
| Regex.DigitPassesAsSymbol | src/routes/account/+page.server.js:19 | every password of eight or more letters and digits with an upper-case letter and a digit, and no symbol at all, passes the account pattern and fails the registration pattern |
| Regex.DashOnlyAtRegistration | src/routes/account/+page.server.js:19 | every password holding '-' fails the account pattern; one that also has an upper-case letter, a digit and eight code units on one line passes at registration |
| VerifyPasswordApi.Post | src/routes/api/verify-password/+server.js:6-30 | 401, then 400 for a missing password, then 404 for a missing row; valid only when the signed-in user's own hash matches; a pure read |
| VerifyPasswordApi.PostExact | src/routes/api/verify-password/+server.js:16-29 | for an existing user, valid exactly when the password matches that user's hash, and `valid: false` with 400 otherwise |
| PasskeyApi.Get | src/routes/api/passkey/+server.js:5-17 | 401 when signed out; otherwise exactly the signed-in user's passkeys, newest first |
| PasskeyApi.Delete | src/routes/api/passkey/+server.js:20-38 | 401 when signed out; 200 when one of the user's own passkeys was removed, 404 with no change otherwise; another user's passkey is never removed |
| PasskeyApi.NothingKeptAway | src/lib/server/passkey.js:216-222 | a delete that matches no row leaves the table unchanged |
| PasskeyRegisterOptions.Post | src/routes/api/passkey/register-options/+server.js:8-32 | 401 when signed out; 500 "User not found" with no challenge stored for an unknown user; otherwise stores the returned challenge under the user id, overwriting, schedules its deletion in five minutes and returns the options; assumes every due timer has fired |
| PasskeyRegisterVerify.Post | src/routes/api/passkey/register-verify/+server.js:8-39 | 401 when signed out, 400 with no change when no challenge is stored; with a challenge: a thrown verification answers 500 "Failed to verify registration: ..." and keeps it, a store error answers 500 with its message and keeps it, a failed verification answers 400 "Registration verification failed" and deletes it, and a stored credential answers 200 and deletes it; the Map never gains a key; assumes every due timer has fired |
| PasskeyRegisterVerify.Register | src/routes/api/passkey/register-verify/+server.js:21-38 | for each verdict: thrown gives 500 with the prefixed message, a failed insert gives 500 with its message, both keeping the challenge; not verified gives 400; verified with a valid row stores exactly that row and gives 200 |
| PasskeyAuthOptions.Post | src/routes/api/passkey/auth-options/+server.js:6-32 | an unknown or absent username answers the same 400 and stores nothing; a known one gets its challenge stored under its user id and returned with the options and that id; assumes every due timer has fired |
| PasskeyAuthVerify.Verdict | src/lib/server/passkey.js:157-178 | a verdict exists exactly when a stored credential matches the response |
| PasskeyAuthVerify.SignIn | src/routes/api/passkey/auth-verify/+server.js:19-47 | sign-in succeeds exactly when the verifier accepts the matched credential and the session id is fresh, and the session then belongs to that credential's owner; an accepted verdict stores the new counter and last-used time on the matched row even when the session cannot be created, and the passkey table is otherwise unchanged |
| PasskeyAuthVerify.Post | src/routes/api/passkey/auth-verify/+server.js:7-52 | 400 with no change when no challenge is stored for the claimed userId; 500 keeping the challenge when the credential is unknown or the verifier throws; any verdict deletes the challenge; an accepted one updates the matched row's counter and last-used time; success opens one session for the credential's owner, whoever was claimed, and sets the cookie; assumes every due timer has fired |
| PasswordsApi.Nullable | src/routes/api/passwords/+server.js:27 | an absent or empty username is stored as NULL, any other is kept |
| PasswordsApi.Get | src/routes/api/passwords/+server.js:4-11 | an empty list when signed out; otherwise exactly the user's own entries, most recently updated first |
| PasswordsApi.Post | src/routes/api/passwords/+server.js:13-34 | 401, then 400 when password or title is missing, with no insert; otherwise exactly one new row owned by the signed-in user with a fresh id, which is returned |
| PasswordsApi.Edited | src/routes/api/passwords/+server.js:50-51 | an edit keeps the entry's id, owner and creation time |
| PasswordsApi.UpdateVaultKeepsKeys | src/routes/api/passwords/+server.js:50-51 | an edit keeps the vault's keys and owners valid, and afterwards the table holds every entry with another id as it was and the edited version of the entry with that id, nothing else |
| PasswordsApi.Put | src/routes/api/passwords/+server.js:36-53 | 401 when signed out; 403 with no change exactly when the entry is absent or another user's; a missing password throws the NOT NULL error; otherwise only the target row's password, title, username and update time change |
| PasswordsApi.EditShowsInListing | src/routes/api/passwords/+server.js:50-51 | after an edit the owner's listing shows the rewritten entry |
| PasswordsApi.ListingIsPrivate | src/routes/api/passwords/+server.js:8-9 | another user's entry is never in a user's listing |
| PasskeyRegistrationFlow.RegisterAsWritten | src/routes/api/passkey/register-verify/+server.js:5-19 | with the routes' two separate Maps, verification always answers 401 or 400 "Challenge not found or expired" and no passkey is ever stored |
| PasskeyRegistrationFlow.RegisterShared | src/routes/api/passkey/register-verify/+server.js:15-34 | with one shared Map, a signed-in existing user's registration succeeds exactly when the verifier accepts a credential that violates no constraint, and the challenge is used up |

## Findings

| source | as written | input that shows it | evidently intended | confidence | as-written member | corrected member |
|---|---|---|---|---|---|---|
| src/routes/api/passkey/register-verify/+server.js:5 | the verify route reads challenges from a `new Map()` of its own, which no code writes, while the options route stores them in a different Map | a signed-in user requests registration options, then posts a valid attestation; the answer is 400 "Challenge not found or expired" | both routes share one challenge store, so verification finds the challenge just issued | high (not executed) | PasskeyRegistrationFlow.RegisterAsWritten | PasskeyRegistrationFlow.RegisterShared |

## Left out

- Auth.LiveUntilEndOfExpiryDay: proves when a session is live in terms of calendar dates. It does not prove that the date text increases with time, so "a new session is live at once" is not derived.
- Bcrypt.CompareOwnHash: bcrypt is idealised as an exact comparison of preimages. Salts, the 72-byte truncation and collisions are not modelled, and this lemma holds by that definition.
- Random salts, uuids, challenges and TOTP secrets are parameters. Their freshness is not assumed; the insert functions model what happens when an id is not fresh.
- The TOTP algorithm and QR-code generation are not modelled. The code checker is a parameter, and setup returns only the secret and the message.
- Logging and `console` output.
- The SimpleWebAuthn library is two verifier parameters. The counter and clone check belong to the library and are not modelled.
- Passkey option generation is idealised as a total function, so the 500 "Failed to generate authentication options" branch has no counterpart.
- Exceptions thrown by getUserPasskeys or deletePasskey (500 in the passkey list route) are not modelled, and neither are malformed JSON bodies.
- The TextEncoder `userID` of the registration options is kept as the user id string.
- Form fields that are files, and JSON fields that are not strings, are out of scope. Form and JSON fields are optional strings, except the vault `id`, which is an integer, and the `passkeyId` of the passkey DELETE route, which is a string (an absent one would be the NULL binding of the next line).
- Database bindings of `undefined` are treated as NULL, so they match no row.
- The ordering of ties in ORDER BY created_at / updated_at DESC is left open: any descending order with the same rows is allowed.
- Timers fire in the order they were scheduled. JavaScript's event loop and its interleaving with requests are reduced to the explicit `Tick`. The four passkey routes require `ChallengeMap.Settled(now)`: every timer due by the time of the request has already run, as the event loop runs expired timers before a later request reaches the handler.
- Text.IsoString: models `toISOString` for years 0 to 9999 only. Outside that range JavaScript writes a six-digit signed year, and the model wraps the year to four digits instead.
- ON DELETE CASCADE never fires, because no modelled operation deletes a user.
- The schema has no `name` column on the passkey table, but passkey.js reads and writes one; rows follow passkey.js.
- The `rawId` fallback is taken whenever `rawId` is present. A present but empty `rawId` is not treated as falsy.
- The reset-password route, the export routes and the home page load are not part of this model.
- Concurrency between requests is not modelled; each handler runs to completion.
