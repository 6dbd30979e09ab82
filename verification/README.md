# Teambee authentication, session, admin pagination and URL helpers in Dafny

This project models the parts of the Teambee web application that carry real invariants.

- **`AuthManager` (auth.py).** Password hashing with a salt. Login with account lockout.
  Single-use password-reset tokens that last one hour. Club registration invitations,
  which are stored as a token owned by a placeholder user with a sentinel email. Club
  creation, the admin check and user deletion.
- **`SessionService`.** The session cookie seen as a key/value map.
- **`TablePagination`.** The search-and-pagination state of the admin tables
  (public/js/admin-search.js) and what it displays.
- **Language and URL helpers.** The helpers of app/utils/helpers.py, the `/en` language
  middleware, and the main.py helpers: translated text with a Dutch fallback, cache-busting
  URLs, and the header's link to the other language.

The database is three finite maps plus the auto-increment counters:

- `users`;
- `clubs`;
- `password_resets`, keyed by token.

Every operation is a pure function from the database to a new database and a reply. The
clock, `now`, is a parameter. A SQL `fetch_one` without `ORDER BY` is read as returning the
lowest matching primary key.

SHA-256 is a free constructor over its input, so it is injective by construction. The
random salt and random token are parameters. Token freshness is stated as the token not yet
being in the table. Sending mail is reduced to a boolean, `mailSent`.

Modules, one file each:

| module | file | models |
|---|---|---|
| `Wrappers`, `Strings` | wrappers.dfy, strings.dfy | `Option`, prefix and suffix tests, `includes`, ASCII `toLowerCase`, JavaScript `trim`, `str.replace`, decimal rendering |
| `Credentials` | credentials.dfy | `_hash_password`, `_verify_password` |
| `AuthStore` | auth_store.dfy | tables, sentinel emails, lookups by email, the `WellFormed` table constraints |
| `Accounts` | accounts.dfy | `create_user`, `create_club`, `is_admin`, `delete_user` |
| `Login` | auth_login.dfy | `authenticate_user` and lockout |
| `PasswordReset` | password_reset.dfy | `initiate_password_reset`, `reset_password` |
| `Registration` | registration.dfy | `create_registration_token`, `validate_registration_token`, `complete_registration` (as written and corrected) |
| `RegistrationFinding` | registration_finding.dfy | the two-invitation takeover described under Findings |
| `ResetFinding` | reset_finding.dfy | invitation tokens redeemed by `reset_password`, described under Findings |
| `JsonValues`, `Session` | json_values.dfy, session.dfy | `SessionService` |
| `Pagination` | pagination.dfy | `TablePagination` |
| `PercentEncoding`, `Helpers` | percent_encoding.dfy, helpers.dfy | app/utils/helpers.py, including `urllib.parse.quote` |
| `LanguageRouting` | language.dfy | `LanguageMiddleware.dispatch` |
| `App` | app.dfy | the `TeambeeApp` helpers in main.py |

### Behaviour worth noting

- **Lockout threshold.** auth.py:209-210 hard-codes 5 failures and a 30-minute lock.
  app/config.py declares a threshold of 10, but auth.py never reads it. The threshold is
  the parameter `Login.Policy`, and `Login.AuthManagerPolicy` fixes it at 5 and 30 minutes.
- **No password checks on reset.** `reset_password` has no minimum-length check and no
  same-password check, so the model has neither.
- **Reset refusals.** `reset_password` refuses in three distinct ways, in this order: an
  unknown token, an expired token, a used token.
- **Mail failure is visible.** `initiate_password_reset` answers "Error sending reset email"
  when mail fails for a known address, and the generic answer otherwise.
  `PasswordReset.AntiEnumeration` therefore holds only when the mail was sent.
- **Reset accepts any token.** `reset_password` does not look at what kind of token it is
  given, so an invitation token works there too. See Findings.
- **Which placeholder `complete_registration` replaces.** It takes over the club's first
  placeholder row, not the placeholder of the token being completed. See Findings.
- **Club id 0.** Registration completion refuses club id 0 (`if not club_id`).
  `create_user` does not.

## Model

| member | source | states |
|---|---|---|
| Credentials.HashPassword | auth.py:37-48 | a supplied salt is kept, otherwise a fresh one is used; the hash is a digest, never a literal |
| Credentials.VerifyPassword | auth.py:50-53 | verification succeeds only against a computed digest |
| Credentials.HashVerifyRoundTrip | auth.py:37-53 | a password verifies against the hash and salt that hashing it produced |
| Credentials.VerifyOnlyOriginal | auth.py:43-53 | under one salt, only the hashed password verifies (the hash is injective) |
| Credentials.LiteralNeverVerifies | auth.py:397-398 | the `'temp'` placeholder hash is matched by no password |
| AuthStore.SentinelEmail | auth.py:391 | the placeholder email has the sentinel prefix and suffix that validation tests |
| AuthStore.SentinelEmailInjective | auth.py:391 | for one club, the placeholder email determines the token inside it |
| AuthStore.TokenValid | auth.py:324-329 | a token is usable iff it is unused and `now <= expires_at`; `now > expires_at` is expired |
| AuthStore.FindUserByEmail | auth.py:95-100 | the lookup finds a row with that email, and finds none exactly when no row has it |
| AuthStore.PlaceholderOf | auth.py:113-121 | the club's placeholder is the lowest-id row of that club with a sentinel email, and there is none exactly when no such row exists |
| AuthStore.FindUserByEmailFrame | auth.py:95-100 | rewriting rows without changing emails changes no lookup by email |
| AuthStore.FindUserByEmailUnique | auth.py:95-100 | with unique emails, the lookup returns the one row that carries the email |
| Accounts.CreateUser | auth.py:91-168 | a duplicate email or unknown club is refused with no write; success exactly when the email is free and the club exists or is absent; on success one row carries the email and a verifying password with cleared lockout, other rows untouched; the club's first placeholder is reused (it takes the email and password, keeps the club and has its lockout cleared), else a new id is taken |
| Accounts.CreateUserKeepsWellFormed | auth.py:94-101 | creating a user keeps emails unique and ids below the counter |
| Accounts.CreateClub | auth.py:528-560 | a language other than nl or en, or a taken name, is refused with no write; otherwise the club gets the next id, which is returned |
| Accounts.CreateClubKeepsWellFormed | auth.py:535-557 | creating a club keeps club names unique and ids below the counter |
| Accounts.IsAdmin | auth.py:582-584 | admin exactly when `club_id` is missing or null |
| Accounts.DeleteUser | auth.py:586-606 | an unknown id is refused with no write; otherwise exactly that row is removed and nothing else changes |
| Accounts.DeleteUserKeepsWellFormed | auth.py:586-606 | deleting a user keeps the table constraints |
| Login.IsLocked | auth.py:198-200 | the lock is strict: locked while `now < locked_until`, open from `locked_until` on |
| Login.Authenticate | auth.py:178-252 | unknown email and locked account are refused with no write; a wrong password adds one failure and locks iff the count reaches the threshold; the right password clears failures and lock, stamps the login and returns user id, club id, email and club name; no other row changes |
| Login.AttemptRepeatedly | auth.py:178-228 | repeated attempts keep the set of rows and every email |
| Login.LockoutThreshold | auth.py:203-228 | k wrong passwords from f failures leave f+k failures, with the lock set only by the attempt that reaches the threshold |
| Login.LockWindow | auth.py:198-200 | during the lock even the right password is refused; from `locked_until` on it logs in |
| Login.LockedAtThreshold | auth.py:198-228 | for any threshold, one failure short of it a fresh account is still open, and the attempt that reaches it locks the account so that even the right password is refused until the lock runs out |
| Login.WrongPasswordStep | auth.py:203-219 | one wrong password on an open account adds one failure and sets the lock exactly when the count reaches the threshold, changing nothing else in the row |
| Login.LockedRowRefuses | auth.py:198-200 | a row locked past the current time is refused whatever the password, and nothing is written |
| Login.FiveStrikes | auth.py:208-210 | with the built-in policy, four failures leave the account open and the fifth locks it for 30 minutes |
| Login.SameRejectionForUnknownEmailAndWrongPassword | auth.py:193-194 | an unknown email and a wrong password get the same rejection |
| Login.PlaceholderCannotLogIn | auth.py:203 | a row still holding the `'temp'` hash cannot log in, whatever the password |
| Login.AuthenticateKeepsWellFormed | auth.py:212-242 | login keeps the table constraints |
| PasswordReset.InitiatePasswordReset | auth.py:258-299 | an unknown email gets the generic answer and no token; a known one gets exactly one new unused token valid for one hour, and the answer depends on mail delivery |
| PasswordReset.AntiEnumeration | auth.py:267-297 | with mail delivered, the answer does not depend on whether the email exists |
| PasswordReset.ResetPasswordAsWritten | auth.py:305-365 | refusals for unknown, expired and used tokens, in that order and with no write; success iff the token is valid, whatever its owner; on success the token is consumed and its owner gets the new password with the lockout cleared, no other row changes |
| PasswordReset.ResetPassword | auth.py:305-365 | the corrected reset: a token owned by a placeholder row is refused like an unknown token with no write; every other token is handled exactly as written; success iff the token is valid and not an invitation, and then only the non-placeholder owner changes |
| PasswordReset.ResetIsSingleUse | auth.py:327-329 | a second reset with the same token fails |
| PasswordReset.IssuedTokenLifetime | auth.py:274-275 | an issued token works up to and including one hour after issue, not later, and never for a placeholder email |
| PasswordReset.ResetThenLogin | auth.py:331-363 | after a reset the new password logs in and every other password is refused |
| PasswordReset.InitiatePasswordResetKeepsWellFormed | auth.py:278-290 | issuing a token keeps the table constraints |
| PasswordReset.ResetPasswordAsWrittenKeepsWellFormed | auth.py:335-363 | the as-written reset keeps the table constraints |
| PasswordReset.ResetPasswordKeepsWellFormed | auth.py:335-363 | the corrected reset keeps the table constraints |
| Registration.CreateRegistrationToken | auth.py:371-433 | an unknown club gets no token and no write; otherwise one new unused token with the requested lifetime, owned by a row with the placeholder email, which is inserted with the next id or reused if it exists |
| Registration.ValidateRegistrationToken | auth.py:439-470 | the owner's club iff the token exists, its owner has a sentinel email and a club, and the token is unused and not past expiry |
| Registration.CreatedTokenValidates | auth.py:387-391 | a fresh invitation validates for its club until its expiry time inclusive, and not after |
| Registration.CreateRegistrationTokenKeepsWellFormed | auth.py:393-431 | issuing an invitation keeps the table constraints |
| Registration.CompleteRegistrationAsWritten | auth.py:476-514 | success iff the token validates for a non-zero existing club and the email is free; on success the reply is `UserCreated`, the token is consumed, the club's first placeholder takes the new email and password with cleared failures and lock and keeps the club, and the token's own placeholder is deleted if it is a different row; clubs, counters and every other row are unchanged, and the owner row is the only one that can disappear |
| Registration.CompleteRegistrationAsWrittenKeepsWellFormed | auth.py:476-514 | the as-written completion keeps the table constraints |
| Registration.CompleteRegistration | auth.py:476-514 | the corrected completion: the same success condition; only the token's own row changes, taking the email and a verifying password with cleared lockout; only this token is consumed |
| Registration.CompletionConsumesToken | auth.py:497-503 | after completion the invitation never validates again and a second completion fails |
| Registration.OtherInvitationsSurvive | auth.py:476-514 | completing one invitation leaves every other invitation's validation unchanged |
| Registration.CompleteRegistrationKeepsWellFormed | auth.py:476-514 | the corrected completion keeps the table constraints |
| Registration.InvitationScenario | auth.py:371-514 | invite, validate, complete: the new member logs in with their password and the invitation is spent |
| RegistrationFinding.TwoInvitationsShape | auth.py:391-431 | two invitations for a club without placeholders give rows n and n+1, both valid, with n the club's first placeholder |
| RegistrationFinding.AsWrittenCompletionHijacksEarlierInvitation | auth.py:113-146 | as written, completing the later invitation spends the earlier one's placeholder; the earlier token then resets the new member's password |
| RegistrationFinding.ConcreteHijack | auth.py:113-146 | a concrete instance: club 1, invitations T1 and T2, completion of T2; resetting with T1 succeeds |
| RegistrationFinding.LoginSurvivesUnrelatedReset | auth.py:335-351 | redeeming a token owned by another row leaves a member's login working |
| RegistrationFinding.CorrectedCompletionKeepsEarlierInvitation | auth.py:476-514 | corrected, the earlier invitation still validates for its club |
| RegistrationFinding.CorrectedCompletionProtectsNewMember | auth.py:476-514 | corrected, redeeming the earlier token leaves the new member's password working |
| RegistrationFinding.MemberSurvivesOtherReset | auth.py:335-351 | after a corrected completion, redeeming any token owned by another row leaves the new member's login working |
| ResetFinding.InvitationTokenOpensPlaceholder | auth.py:305-365 | as written, a fresh invitation's token redeemed by `reset_password` succeeds, and the placeholder email then logs in with the chosen password |
| ResetFinding.ConcretePlaceholderLogin | auth.py:305-365 | a concrete instance: club 1, invitation T, reset through T; `registration_token_1_T@temp.teambee.internal` logs in |
| ResetFinding.InvitationTokenRefused | auth.py:305-329 | corrected, the same token is refused with no write and the placeholder email still cannot log in |
| ResetFinding.SentinelNeverLogsIn | auth.py:178-228 | while every placeholder row holds the `'temp'` hash, no placeholder email logs in |
| ResetFinding.EmptyPlaceholdersUnusable | auth.py:391-398 | the empty tables satisfy that invariant |
| ResetFinding.CreateRegistrationTokenKeepsPlaceholdersUnusable | auth.py:393-405 | an invitation keeps the invariant: it inserts a `'temp'` row or leaves an existing row untouched |
| ResetFinding.ResetPasswordKeepsPlaceholdersUnusable | auth.py:305-365 | the corrected reset keeps the invariant |
| ResetFinding.AuthenticateKeepsPlaceholdersUnusable | auth.py:212-242 | login keeps the invariant |
| ResetFinding.AdministrationKeepsPlaceholdersUnusable | auth.py:258-290 | issuing a reset token, creating a club and deleting a user keep the invariant |
| ResetFinding.CreateUserKeepsPlaceholdersUnusable | auth.py:91-168 | creating an account with an email that is not placeholder-shaped keeps the invariant |
| ResetFinding.CompleteRegistrationKeepsPlaceholdersUnusable | auth.py:476-514 | the corrected completion with an email that is not placeholder-shaped keeps the invariant |
| Session.LoginUser | app/services/session_service.py:13-19 | exactly the four user keys are added, taken from the user info (`club_name` may be absent); other keys are kept |
| Session.LogoutUser | app/services/session_service.py:21-26 | exactly the four user keys are removed; the other keys keep their values |
| Session.IsAuthenticated | app/services/session_service.py:40-43 | logged in iff the session has `user_id` |
| Session.GetCurrentUser | app/services/session_service.py:28-38 | None iff `user_id` is absent; otherwise the four user fields of the session |
| Session.RequireAdmin | app/services/session_service.py:45-55 | false when not logged in or without an auth service; otherwise true iff the session's club id is null or missing |
| Session.LoginThenCurrentUser | app/services/session_service.py:13-38 | after login, the current user is exactly the four user fields of the user info |
| Session.LoginLogoutKeepReadable | app/services/session_service.py:13-35 | login and logout keep the session readable by `get_current_user` |
| Session.LogoutEndsSession | app/services/session_service.py:21-43 | after logout nobody is logged in, and a second logout changes nothing |
| Session.LoginThenLogout | app/services/session_service.py:13-26 | login followed by logout leaves the session as a plain logout would |
| Session.AdminIffNoClub | app/services/session_service.py:45-55 | a session filled from a login passes the admin check iff the user has no club |
| Session.InfoDict | auth.py:245-250 | the login result as a dict has exactly the four user keys |
| Pagination.Init | public/js/admin-search.js:4-21 | every row is listed, page 1 is current, and the state is valid |
| Pagination.MatchingFrom | public/js/admin-search.js:87-91 | the selected positions are increasing, and a position is selected iff its searched cell, lower-cased, contains the term |
| Pagination.Filter | public/js/admin-search.js:81-96 | the term is lower-cased then trimmed; a blank term keeps all rows, any other keeps exactly the matching rows in order; the page goes back to 1; validity is kept |
| Pagination.EmptyTermMatchesAll | public/js/admin-search.js:84-91 | the general filter with an empty term keeps every row, so the special case agrees with it |
| Pagination.GoToPage | public/js/admin-search.js:98-104 | a page outside 1..totalPages is ignored, any other becomes current; validity is kept |
| Pagination.CeilDiv | public/js/admin-search.js:99 | the page count is the fewest pages of the page size that hold the rows |
| Pagination.TotalPages | public/js/admin-search.js:99 | `Math.ceil(length / itemsPerPage)`: the fewest pages of the page size that hold the filtered rows |
| Pagination.Slice | public/js/admin-search.js:115 | `Array.prototype.slice` with an end past the length clamped: the elements from the start up to the clamped end, none when the start is not below it |
| Pagination.View | public/js/admin-search.js:106-156 | the total is the filtered count; one button per page, numbered from 1, with only the current one highlighted |
| Pagination.VisibleWindow | public/js/admin-search.js:107-116 | a filtered row is shown iff its position is in the current page's window; at most a page of rows is shown |
| Pagination.CountersMatchVisible | public/js/admin-search.js:119-120 | the counters are 0-0 for an empty list, otherwise the 1-based positions of the first and last rows shown |
| Pagination.EachRowOnOnePage | public/js/admin-search.js:107-116 | every filtered row is shown on exactly one page, the page number position div perPage plus 1 |
| Pagination.PrevDisabledIffNoOp | public/js/admin-search.js:170 | the previous button is disabled iff clicking it would change nothing |
| Pagination.NextDisabledIffNoOp | public/js/admin-search.js:180 | the next button is disabled iff clicking it would change nothing |
| Pagination.NoResultsIff | public/js/admin-search.js:189-199 | after a search, "no results" shows iff the term is not blank and no row matches it |
| PercentEncoding.Utf8Char | app/utils/helpers.py:40 | the UTF-8 form of a character: its first byte gives its length, the others are continuation bytes, and decoding gives the character back |
| PercentEncoding.QuoteByte | app/utils/helpers.py:40 | a safe byte is kept; any other becomes % and two hex digits whose value is the byte |
| PercentEncoding.Quote | app/utils/helpers.py:40 | the encoded path holds only URL characters and percent-decodes to the path's UTF-8 bytes |
| PercentEncoding.QuoteBytes | app/utils/helpers.py:40 | the encoded path holds only safe characters, % and hex digits |
| PercentEncoding.UnquoteQuoteBytes | app/utils/helpers.py:40 | percent-decoding the encoded bytes gives them back |
| PercentEncoding.Utf8Injective | app/utils/helpers.py:40 | distinct strings have distinct UTF-8 encodings |
| PercentEncoding.QuoteInjective | app/utils/helpers.py:40 | distinct paths are encoded to distinct URLs |
| PercentEncoding.QuoteSafeIdentity | app/utils/helpers.py:40 | a path made of safe ASCII characters is unchanged by encoding |
| PercentEncoding.QuoteAppend | app/utils/helpers.py:40 | encoding works piecewise: the encoding of a concatenation is the concatenation of the encodings |
| PercentEncoding.QuoteSpace | app/utils/helpers.py:40 | a space is encoded as %20 |
| Helpers.GetVersionedUrl | app/utils/helpers.py:12-43 | a non-static path is unchanged; a static path becomes its encoding followed by `?v=` and the version |
| Helpers.StaticFile | app/utils/helpers.py:25 | a path without `/static/` is unchanged; a path starting with `/static/` becomes `public/` followed by the rest with every further `/static/` replaced as well (so with no further occurrence, just the rest) |
| Helpers.StaticFileReplacesEveryOccurrence | app/utils/helpers.py:25 | a second `/static/` after a slash-free directory name is also replaced: `/static/<dir>/static/<file>` maps to `public/<dir>public/<file>` |
| Helpers.VersionOf | app/utils/helpers.py:27-37 | the explicit version when given; otherwise decimal digits that read back as the file's mtime, or the clock for a missing file |
| Helpers.VersionedUrlDecodes | app/utils/helpers.py:23-41 | with no explicit version, the URL splits into a part that decodes to the path and digits that read back as the file's mtime, or the clock for a missing file |
| Helpers.ExplicitVersionWins | app/utils/helpers.py:27-41 | an explicit version is used as given, whatever the file system and clock say |
| Helpers.GetCurrentLanguageFromPath | app/utils/helpers.py:46-56 | the language is en iff the path starts with /en, else nl |
| Helpers.GetLanguageRootUrl | app/utils/helpers.py:59-69 | /en iff the language is en, else / |
| Helpers.RootUrlKeepsLanguage | app/utils/helpers.py:46-69 | the root URL of a page's language is classified as that language |
| Helpers.GetTranslatedText | app/utils/helpers.py:72-89 | the nested entry when all three levels are present, otherwise the default |
| Helpers.NoLanguageFallback | app/utils/helpers.py:86-87 | a key missing in English gives the default even when Dutch has it |
| Helpers.CreateErrorResponse | app/utils/helpers.py:153-169 | AJAX gets exactly a failure body with the message; otherwise a 302 redirect to the URL with `?error=` and the message |
| Strings.Trim | public/js/admin-search.js:82 | `trim()`: the input with its leading and trailing JavaScript whitespace removed, the result starting and ending with a non-whitespace character |
| Strings.ToLower | public/js/admin-search.js:82 | `toLowerCase()` on ASCII: the same length, each character lower-cased |
| Strings.ReplaceAll | app/utils/helpers.py:25 | `str.replace`: unchanged when the pattern does not occur; a leading occurrence is replaced and the rest processed in turn; a character that does not start an occurrence is kept and the scan continues after it, so every non-overlapping occurrence is replaced; the empty string stays empty |
| Strings.ReplaceAllCopiesPlain | app/utils/helpers.py:25 | a run of characters none of which can start the pattern is copied through unchanged ahead of the replaced remainder |
| LanguageRouting.Dispatch | app/middleware/language.py:13-24 | en iff the path starts with /en, and then the router sees the path without /en, except for /en and /en/; otherwise nl with the path unchanged |
| LanguageRouting.DispatchAgreesWithHelper | app/middleware/language.py:18-24 | the middleware and the path helper classify every path alike |
| LanguageRouting.EnglishPrefixIsRaw | app/middleware/language.py:18-22 | /english is English and is routed as `glish` |
| LanguageRouting.EnglishPrefixRoundTrip | app/middleware/language.py:18-22 | /en followed by a route other than the root is routed to that route in English |
| App.GetText | main.py:115-129 | with no request, the default |
| App.GetTextFallsBackToDutch | main.py:115-129 | the request language's text, else the Dutch text, else the default |
| App.DutchFallbackCases | main.py:121-129 | text missing in English but present in Dutch shows in Dutch; missing in both gives the default |
| App.GetLanguageRootUrl | main.py:135-137 | agrees with the helper: /en iff the language is en, else / |
| App.VersionedUrl | main.py:159-187 | the URL is the path, `?v=` and a version; a non-static path uses the global version; a cached file uses its cached version; an uncached file on disk uses the decimal of its modification time and that version is cached under the file; cached entries are never changed and only this file's entry can be added |
| App.VersionedUrlStable | main.py:165-184 | once a static file has been found on disk, its URL stays the same across later calls, whatever the disk says by then |
| App.MissingFileUsesGlobalVersion | main.py:178-182 | a static file that is neither cached nor on disk gets the global version and is not cached |
| App.HeaderAltLink | main.py:357-365 | from nl, the link is /en in front of the path, or /en alone for the root; from en, the path without a leading /en, with an empty path or / giving /; a path without /en (as the router sees it) is kept as it is |
| App.AltLinkRoundTripFromDutch | main.py:357-365 | switching to English and back gives the same non-empty path |
| App.AltLinkRoundTripFromEnglish | main.py:357-365 | switching from an English page to Dutch and back gives the same path, except that /en/ comes back as /en |
| App.AltLinkRoutesToSamePage | main.py:357-360 | the middleware routes the English link of a Dutch page to that same page |

## Left out

- SMTP and mail composition (`_auto_configure_smtp`, `_send_password_reset_email`,
  `send_registration_email`) are network I/O. Delivery is the boolean `mailSent`.
- The exception handlers that turn a database or SMTP error into an error reply are not
  modelled. Database errors are I/O.
- SQL text, LIKE matching beyond the prefix and suffix test, transactions and races between
  concurrent requests are not modelled. The model is sequential.
- No foreign-key cascade is modelled. When a user is deleted, their `password_resets` rows
  stay. The schema is not part of this model.
- `create_admin`, `get_clubs`, `get_all_users`, and the language stored with reset tokens
  (in app/services/auth_service.py) are not part of this model.
- AuthStore.FindUserByEmail compares emails exactly. A MySQL collation that ignores case
  would match differently, and the schema is not part of this model.
- ResetFinding.CreateUserKeepsPlaceholdersUnusable and
  ResetFinding.CompleteRegistrationKeepsPlaceholdersUnusable require the new email not to
  be placeholder-shaped. `create_user` does not check the form of the email, so an account
  registered with such an email has a real password and can log in. The corrected reset
  also refuses reset tokens of such an account.
- Credentials.HashPassword: SHA-256 itself is not modelled, only its injectivity. The
  64-character hex digest is a constructor, so a real collision could not be expressed.
- Session: the Starlette cookie signing and serialisation are not modelled.
- Session.GetCurrentUser requires that a session with `user_id` also has `email`. The
  source raises `KeyError` otherwise. Every session the model builds meets this.
- Session.LoginUser requires `user_id`, `club_id` and `email` in the user info. The source
  raises `KeyError` otherwise. Its only caller passes the `authenticate_user` result, which
  has all three.
- Pagination.Valid requires every row to have the searched column. The browser throws on a
  missing cell only when the search term is not empty.
- Pagination.Filter uses ASCII-only lower-casing, because JavaScript's full Unicode
  `toLowerCase` tables are not modelled. The searched column is a parameter.
- Pagination: the DOM writes (display styles, element text, CSS classes, event binding)
  are not modelled, only the values they would show.
- Helpers.GetTranslatedText and App.GetText use translations typed as nested string maps, so
  a JSON section that is not an object cannot be expressed. For such a section,
  `get_translated_text` catches the `AttributeError` and returns the default, while main.py's
  `get_text` raises an uncaught `TypeError` when the value is a string.
- Helpers.GetVersionedUrl: the bare `except` that falls back to the clock is not modelled
  separately. A file system error is treated like a missing file and gives the same result.
- App.GetText receives the request's language as a parameter. The source reads it from a
  request object stored on the shared application instance, which is concurrency.
- App.HeaderAltLink is a function of the language and the path it is given. Whether the
  English page sees its path with or without the `/en` prefix depends on Starlette's
  request construction, which is not part of this model.

## Findings

| source | as written | input that shows it | evidently intended | confidence | as-written member | corrected member |
|---|---|---|---|---|---|---|
| auth.py:113-146, 488 | `complete_registration` calls `create_user`, which reuses the club's lowest-id placeholder row, not the placeholder that owns the token being completed. | Club 1 has no members. Invitations T1 then T2 are created, giving placeholders n and n+1. T2 is completed by a@b.nl. Row n (T1's placeholder) becomes a@b.nl and row n+1 is deleted. T1 is still unused and unexpired, so `reset_password(T1, x)` sets a@b.nl's password. | Completion should turn the token's own placeholder into the new member and leave other invitations alone. | not executed | RegistrationFinding.AsWrittenCompletionHijacksEarlierInvitation | RegistrationFinding.CorrectedCompletionKeepsEarlierInvitation |
| auth.py:305-365 | `reset_password` accepts every row of `password_resets`, and invitation tokens live there too. | Club 1 has no members. Invitation T is created, giving placeholder `registration_token_1_T@temp.teambee.internal` with the `'temp'` hash. `reset_password(T, "chosen")` succeeds and sets that row's password. Logging in as the placeholder email with "chosen" succeeds. | A placeholder is never a working login: `reset_password` should refuse invitation tokens. | not executed | ResetFinding.InvitationTokenOpensPlaceholder | ResetFinding.InvitationTokenRefused |

`Registration.CompleteRegistrationAsWritten` models the code as written.
`RegistrationFinding.ConcreteHijack` states the concrete input above as a lemma.
`Registration.CompleteRegistration` is the corrected operation, and the rest of the model
uses it. `RegistrationFinding.CorrectedCompletionProtectsNewMember` proves the second half
of the intended property for it: the earlier token cannot reach the new member's password.

`PasswordReset.ResetPasswordAsWritten` models `reset_password` as written.
`ResetFinding.ConcretePlaceholderLogin` states the concrete input of the second row as a
lemma. `PasswordReset.ResetPassword` is the corrected operation, and the rest of the model
uses it. It refuses a token whose owner row still has a placeholder email. With it,
`AuthStore.PlaceholdersUnusable` holds in every state the operations reach: every
placeholder row keeps the `'temp'` hash. The `ResetFinding.…KeepsPlaceholdersUnusable`
lemmas prove this, and `ResetFinding.SentinelNeverLogsIn` turns it into "no placeholder
email logs in".
