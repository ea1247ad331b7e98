# Authentication layer of alx-backend-user-data, modelled in Dafny

This project models the authentication code of the repository:

- the base API `Auth` class (`basic_auth.dfy`, module `BasicAuth`). It decides which request paths need authentication and reads the `Authorization` header.
- the three session strategies:
  - `SessionAuth` keeps a dictionary of session ids in memory (`session_auth.dfy`, module `SessionAuthentication`).
  - `SessionExpAuth` adds a time to live (`session_exp_auth.dfy`, module `SessionExpiry`).
  - `SessionDBAuth` keeps session records in a durable store (`session_db_auth.dfy`, module `SessionPersistence`).
- the user-authentication service `Auth` (`user_auth.dfy`, module `UserAuthService`). It covers registration, login, sessions and password reset over a user table.
- `filter_datum`, the log redaction, and the redaction settings of `RedactingFormatter` (`filtered_logger.dfy`, module `FilteredLogger`).

`wrappers.dfy` and `web.dfy` hold shared types:

- `Option`, `Result` and the raised exceptions;
- `Value`, a Python argument that is `None`, a `str` or anything else;
- a request with its headers and cookies;
- the session-cookie lookup.

The classes that update state in place are Dafny classes. Their methods have `modifies` clauses and state the whole new state. Read-only queries are functions with `reads` clauses. The pure parts are functions with lemmas. `filter_datum` keeps its loop over the fields as a method, with a loop invariant against the function `FilterAll`.

Everything the code gets from its environment becomes a parameter:

- random UUIDs: `freshId`, `freshToken`, `sessionId`, `resetToken`;
- bcrypt salts: `salt`;
- the clock: `now`, an unbounded whole number of seconds (see "Left out" for `datetime`'s range);
- whether the durable store's `search` or `save` raises: `searchFails`, `saveFails`;
- environment settings: `SESSION_DURATION` (already read as an integer) and the session cookie name.

bcrypt is a `Hasher`, a pair of functions `hash(password, salt)` and `checkpw(password, digest)`. Members that need bcrypt's guarantees assume `Sound` (a password passes its own digest). Where a scenario needs a wrong password refused, it assumes only that the digest of its one password rejects that one other password: bcrypt reads only the first 72 bytes of a password, so two passwords that share those bytes pass the same digest.

Where the documented design and the code differ, the model follows the code:

- `require_auth` drops the last character of every exclusion pattern, not only a trailing `*`. So `/api/v1/status/` also excludes `/api/v1/statuses` (`BasicAuth.StatusExamples`). There is no exact-match mode.
- A session is expired only when `created_at + duration < now`. At exactly `created_at + duration` it still resolves (`SessionExpiry.ExpiryBoundary`).
- The durable store's lookup has no "duration <= 0 means never" case. With duration 0, a record resolves only while `now <= created_at` (`SessionPersistence.ZeroDurationDiffers`).
- When the durable `save()` fails, the exception escapes `create_session`, and the in-memory entry made just before stays (`SessionPersistence.SessionDBAuth.CreateSession`). The model takes a failing `save()` to store no record (see "Left out").
- Logout from the durable store removes the first matching record whatever its age.

## Model

| member | source | states |
|---|---|---|
| BasicAuth.AnyExcludes | 0x01-Basic_authentication/api/v1/auth/auth.py:17-21 | the loop over the patterns is true exactly when some pattern equals the path, or the pattern minus its last character is a prefix of the path |
| BasicAuth.RequireAuth | 0x01-Basic_authentication/api/v1/auth/auth.py:9-21 | a missing path, or a missing or empty pattern list, requires authentication; otherwise authentication is not required exactly when some pattern excludes the path |
| BasicAuth.ExclusionIsPrefixTest | 0x01-Basic_authentication/api/v1/auth/auth.py:18 | the equality test is subsumed: a pattern excludes a path exactly when the pattern minus its last character is a prefix of the path |
| BasicAuth.ExcludedPathsStayExcluded | 0x01-Basic_authentication/api/v1/auth/auth.py:17-19 | every extension of an excluded path is excluded too |
| BasicAuth.EmptyPatternExcludesAll | 0x01-Basic_authentication/api/v1/auth/auth.py:18 | an empty pattern in the list excludes every path |
| BasicAuth.StatusExamples | 0x01-Basic_authentication/api/v1/auth/auth.py:9-21 | /api/v1/status is excluded by /api/v1/status/, /api/v1/status* and /api/v1/stat*; /api/v1/statuses is excluded by /api/v1/status/; /api/v1/users is not excluded by /api/v1/status*; an empty list requires authentication |
| BasicAuth.AuthorizationHeader | 0x01-Basic_authentication/api/v1/auth/auth.py:23-31 | None for a missing request or a missing Authorization header; otherwise the header's value unchanged |
| BasicAuth.AuthorizationHeaderRoundTrip | 0x01-Basic_authentication/api/v1/auth/auth.py:28-31 | a value stored under Authorization is read back unchanged; removing the header gives None |
| BasicAuth.CurrentUser | 0x01-Basic_authentication/api/v1/auth/auth.py:33-35 | the base strategy never identifies a user |
| SessionAuthentication.LookupUserId | 0x02-Session_authentication/api/v1/auth/session_auth.py:27-34 | a value resolves exactly when it is a string key of the dictionary, and then to its user id |
| SessionAuthentication.SessionAuth.constructor | 0x02-Session_authentication/api/v1/auth/session_auth.py:15 | the session dictionary starts empty |
| SessionAuthentication.SessionAuth.UserIdForSessionId | 0x02-Session_authentication/api/v1/auth/session_auth.py:27-34 | None for None, a non-string or an absent id; otherwise the stored user id; the dictionary is only read |
| SessionAuthentication.SessionAuth.CreateSession | 0x02-Session_authentication/api/v1/auth/session_auth.py:17-25 | a non-string user id returns None and changes nothing; a string binds the new id to it, all other entries unchanged; the returned id resolves to the user; a fresh id adds exactly one key |
| SessionAuthentication.SessionAuth.DestroySession | 0x02-Session_authentication/api/v1/auth/session_auth.py:43-60 | true exactly when there is a request whose session cookie resolves; then exactly that key is removed and no longer resolves; otherwise the dictionary is unchanged |
| SessionAuthentication.Lifecycle | 0x02-Session_authentication/api/v1/auth/session_auth.py:17-60 | create then look up gives the user; the first destroy succeeds, the second fails, and the id no longer resolves |
| SessionExpiry.ExpLookup | 0x02-Session_authentication/api/v1/auth/session_exp_auth.py:39-62 | an id resolves exactly when it is a string key whose entry is unexpired (expiry off for duration <= 0; otherwise needs a creation time and now <= created_at + duration), and then to the entry's user |
| SessionExpiry.DisabledExpiryIgnoresTime | 0x02-Session_authentication/api/v1/auth/session_exp_auth.py:51-52 | with duration <= 0 the lookup gives the same answer at every time |
| SessionExpiry.ExpiryIsMonotone | 0x02-Session_authentication/api/v1/auth/session_exp_auth.py:57-62 | what resolves at a later time resolved to the same user at every earlier time: an expired session stays expired |
| SessionExpiry.ExpiryBoundary | 0x02-Session_authentication/api/v1/auth/session_exp_auth.py:57-62 | with duration d > 0, a session created at t still resolves at t + d and no longer at t + d + 1 |
| SessionExpiry.SessionExpAuth.constructor | 0x02-Session_authentication/api/v1/auth/session_exp_auth.py:16-23 | the duration is the SESSION_DURATION setting, 0 when unset, fixed for the object's life |
| SessionExpiry.SessionExpAuth.UserIdForSessionId | 0x02-Session_authentication/api/v1/auth/session_exp_auth.py:39-62 | the expiry-aware lookup of the object's dictionary at time now |
| SessionExpiry.SessionExpAuth.CreateSession | 0x02-Session_authentication/api/v1/auth/session_exp_auth.py:25-37 | a non-string user id returns None and adds nothing; otherwise the new id maps to the user stamped with now, and resolves to it throughout [now, now + duration], or at all times when the duration is <= 0 |
| SessionExpiry.SessionExpAuth.DestroySession | 0x02-Session_authentication/api/v1/auth/session_auth.py:43-60 | the inherited logout asks the expiry-aware lookup: it removes the entry only when the session is still live, and otherwise fails and leaves the entry in place |
| SessionExpiry.ExpiredLogout | 0x02-Session_authentication/api/v1/auth/session_exp_auth.py:57-60 | a session valid at the boundary is expired one second later, and logout then fails with the entry still stored |
| SessionPersistence.FirstMatch | 0x02-Session_authentication/api/v1/auth/session_db_auth.py:36-43 | the first record whose session id equals the value; None when no record has it; None and non-strings match nothing |
| SessionPersistence.DbLookup | 0x02-Session_authentication/api/v1/auth/session_db_auth.py:31-46 | None when search raises or nothing matches; otherwise the first match's user exactly when now <= created_at + duration, with no special case for duration <= 0 |
| SessionPersistence.ZeroDurationDiffers | 0x02-Session_authentication/api/v1/auth/session_db_auth.py:42-45 | with duration 0, a record stops resolving one second after creation, while the in-memory store keeps resolving the same session |
| SessionPersistence.RemoveAt | 0x02-Session_authentication/api/v1/auth/session_db_auth.py:59 | removing one record keeps the others in order |
| SessionPersistence.RemovedSessionIsGone | 0x02-Session_authentication/api/v1/auth/session_db_auth.py:53-60 | when one record holds an id, removing its first match leaves none |
| SessionPersistence.AppendFreshKeepsUnique | 0x02-Session_authentication/api/v1/auth/session_db_auth.py:21-29 | saving a record for an id no record holds keeps session ids unique |
| SessionPersistence.FirstMatchOfAppended | 0x02-Session_authentication/api/v1/auth/session_db_auth.py:21-29 | a record saved for a fresh id is that id's first match |
| SessionPersistence.SessionDBAuth.constructor | 0x02-Session_authentication/api/v1/auth/session_db_auth.py:9 | the object is built over the records the durable store already holds, with an empty dictionary and the duration of the expiring store (SESSION_DURATION, 0 when unset) |
| SessionPersistence.SessionDBAuth.UserIdForSessionId | 0x02-Session_authentication/api/v1/auth/session_db_auth.py:31-46 | the durable lookup at time now over the object's records |
| SessionPersistence.SessionDBAuth.CreateSession | 0x02-Session_authentication/api/v1/auth/session_db_auth.py:17-29 | a non-string user id returns None and saves nothing; otherwise the dictionary gets the entry; a failing save raises and (by the assumption under "Left out") adds no record; a successful save appends exactly one record and returns the id, which then resolves for a fresh id and a duration >= 0 |
| SessionPersistence.SessionDBAuth.DestroySession | 0x02-Session_authentication/api/v1/auth/session_db_auth.py:48-60 | false with records unchanged when search raises or nothing matches the cookie; otherwise removes the first matching record, whatever its age, and returns true |
| SessionPersistence.ExpiredLogout | 0x02-Session_authentication/api/v1/auth/session_db_auth.py:41-60 | after expiry the record no longer resolves, yet the first logout removes it and the second finds nothing |
| UserAuthService.FindUserBy | 0x03-user_authentication_service/auth.py:45-48 | the first user the filter matches; None (NoResultFound) when no user matches |
| UserAuthService.ResetTargetAsWritten | 0x03-user_authentication_service/auth.py:93-96 | the token lookup as written: the user picked holds exactly the given token value, None included |
| UserAuthService.MissingTokenPicksFirstUnsetUser | 0x03-user_authentication_service/auth.py:93-99 | on any table with a user who never asked for a reset, a call without a token picks the first such user |
| UserAuthService.ResetTarget | 0x03-user_authentication_service/auth.py:93-96 | the corrected lookup: only a present token picks a user, the one holding it; for a present token it agrees with the code |
| UserAuthService.ClearSessionKeepsUnique | 0x03-user_authentication_service/auth.py:76-77 | unsetting a session id keeps emails, session ids and reset tokens unique |
| UserAuthService.Auth.constructor | 0x03-user_authentication_service/auth.py:27-29 | the user table starts empty |
| UserAuthService.Auth.ValidLogin | 0x03-user_authentication_service/auth.py:42-49 | true exactly when some user has the email and the password passes that user's stored hash |
| UserAuthService.Auth.GetUserFromSessionId | 0x03-user_authentication_service/auth.py:62-71 | None for a missing or empty id; otherwise a user of the table holding that id, or None when no user holds it |
| UserAuthService.Auth.RegisterUser | 0x03-user_authentication_service/auth.py:31-40 | a known email raises ValueError with the table unchanged; otherwise exactly one user is appended with the email and the password's hash, and the password then logs in |
| UserAuthService.Auth.CreateSession | 0x03-user_authentication_service/auth.py:51-60 | an unknown email returns None with the table unchanged; otherwise only that user's session id becomes the fresh id, which is returned and resolves to that user |
| UserAuthService.Auth.DestroySession | 0x03-user_authentication_service/auth.py:73-77 | for a truthy id of a user, only that user's session id is unset and the old id resolves no more; otherwise nothing changes |
| UserAuthService.Auth.GetResetPasswordToken | 0x03-user_authentication_service/auth.py:79-88 | an unknown email raises ValueError with the table unchanged; otherwise only that user's reset token becomes the fresh token, which is returned and selects that user |
| UserAuthService.Auth.UpdatePassword | 0x03-user_authentication_service/auth.py:90-99 | a token no user holds raises ValueError with the table unchanged; otherwise that user gets the new password's hash and loses the token; the new password logs in and the token cannot be used again |
| UserAuthService.LoginLogout | 0x03-user_authentication_service/main.py:87-92 | register, a wrong password is refused, log in, the session finds the user, log out, and the session no longer resolves |
| UserAuthService.PasswordReset | 0x03-user_authentication_service/main.py:93-95 | a reset token changes the password once; reusing it raises ValueError; only the new password logs in |
| FilteredLogger.FindSep | 0x00-personal_data/filtered_logger.py:31 | the first position from k where the separator occurs with no newline before it (the lazy `.*?` stops there); None when there is no such position |
| FilteredLogger.MatchHereMeans | 0x00-personal_data/filtered_logger.py:31 | a match of `field=.*?sep` starts at the head of the text exactly when `field=` is there and the separator follows it with no newline in between |
| FilteredLogger.Redact | 0x00-personal_data/filtered_logger.py:31-33 | one substitution pass: empty text stays empty; where no match starts, the first character is copied (where one starts, `RedactStopsAtFirstSeparator` states the replacement) |
| FilteredLogger.FilterAll | 0x00-personal_data/filtered_logger.py:30-34 | the passes for the fields in list order: no fields leave the message as it is, one field is one pass |
| FilteredLogger.FilterDatum | 0x00-personal_data/filtered_logger.py:16-34 | the loop applies one pass per field in list order, each over the previous pass's output; no fields leave the message unchanged |
| FilteredLogger.RedactingFormatter.constructor | 0x00-personal_data/filtered_logger.py:112-120 | the formatter keeps the fields it is given |
| FilteredLogger.RedactingFormatter.RedactMessage | 0x00-personal_data/filtered_logger.py:108-110 | the formatter filters with redaction `***` and separator `;` |
| FilteredLogger.RedactCopiesUnmatched | 0x00-personal_data/filtered_logger.py:31-33 | text in which no match starts is copied unchanged |
| FilteredLogger.RedactStopsAtFirstSeparator | 0x00-personal_data/filtered_logger.py:31-33 | `field=value<sep>rest` becomes `field=<redaction><sep>` followed by the pass over rest; the value ends at the first separator |
| FilteredLogger.RedactWithoutKey | 0x00-personal_data/filtered_logger.py:31 | a message without `field=` is unchanged |
| FilteredLogger.RedactWithoutSeparator | 0x00-personal_data/filtered_logger.py:31 | a message without the separator is unchanged, `field=` included |
| FilteredLogger.FilterAllWithoutKeys | 0x00-personal_data/filtered_logger.py:30-34 | when no listed field's key occurs, all passes together leave the message unchanged |
| FilteredLogger.RedactSingleField | 0x00-personal_data/filtered_logger.py:31-33 | a lone `field=value<sep>` becomes `field=<redaction><sep>` |
| FilteredLogger.UnanchoredMatch | 0x00-personal_data/filtered_logger.py:31 | the match is not tied to a key boundary: a key that ends with the field, such as `xname=v;` for the field `name`, is redacted too |

## Left out

- UserAuthService.Auth.CreateSession: requires the new session id to be non-empty and held by no user. A random UUID is assumed to be fresh, and collisions are not modelled.
- UserAuthService.Auth.GetResetPasswordToken: requires the new token to be held by no user, for the same reason.
- UserAuthService.Auth.ValidLogin: requires the table invariant (unique emails, ids that follow the positions), which every method of the class keeps.
- UserAuthService.Auth.UpdatePassword: refuses a missing token (see Findings). The code would instead update the first user that has no token.
- FilteredLogger.FilterDatum: requires fields and separator without regular-expression metacharacters or backslashes, and a redaction without backslashes. These cases are not modelled: the code does not escape them, so the `re` engine would read them as syntax.
- Concurrency: the session dictionary is a class attribute shared by every instance in the process, with no lock. The model has one store object per class, used by one caller at a time.
- SessionAuth and SessionExpAuth share that class attribute in the code. The model gives each class its own dictionary, so it does not capture a SessionExpAuth reading plain-string entries left by a SessionAuth.
- `SessionAuth.current_user` (session_auth.py:36-41) and the session-cookie lookup of the 0x02 base `Auth`: `User.get` and that base class are not part of this model. The cookie lookup is assumed to be `request.cookies.get(name)`.
- Headers are looked up with exact names. The case-insensitive matching of the web framework is not modelled.
- SessionExpiry.ExpLookup, SessionPersistence.DbLookup: `datetime` covers years 1 to 9999 at microsecond precision, and a duration that takes `created_at + duration` out of that range makes the lookup raise `OverflowError` (session_exp_auth.py:58, session_db_auth.py:42-43, outside the `try`). The model's clock is an unbounded whole number of seconds: it returns a result for such durations, and it does not represent sub-second creation times. The round trip of `SessionExpiry.SessionExpAuth.CreateSession` holds only for durations that stay in range.
- A SESSION_DURATION that is not an integer raises at construction. The model takes the setting already parsed.
- An unhashable session id (a list, say) raises TypeError in the expiring lookup. `Value.NonStr` stands only for hashable non-strings.
- `UserSession.save` and `UserSession.search` belong to a base model class that is not part of this model. A `save` that raises is taken to store nothing, and `search` to return the records with that session id in the order they were saved.
- `UserSession`'s `created_at` is set by a base model class that is not part of this model. It is taken to be `now` at creation.
- The 0x03 `DB` class is not part of this model:
  - user ids are positions plus one;
  - `find_user_by` returns the first match;
  - `update_user` with an id no user has changes nothing.
- A `None` password raises AttributeError at `password.encode` (auth.py:15, 49). A `None` email, which app.py passes when the form has no `email` field, is not modelled: emails are strings.
- bcrypt's reading of only the first 72 bytes of a password is not modelled: `Hasher` is any pair of functions, and no member assumes that different passwords always have different digests.
- bcrypt itself and `encrypt_password.py` are foreign cryptography, modelled as the `Hasher` parameter.
- `get_logger`, `get_db`, `main` and `RedactingFormatter.format`'s call into `logging` (filtered_logger.py) are I/O and logging plumbing.
- `app.py`'s routes and status codes are web plumbing. `main.py` is modelled only as the two scenario methods.

## Findings

| source | as written | input that shows it | evidently intended | confidence | as-written member | corrected member |
|---|---|---|---|---|---|---|
| 0x03-user_authentication_service/auth.py:93-99 | `update_password` looks the user up with `find_user_by(reset_token=reset_token)` without checking the token | `update_password(None, "pw")`, reached by a PUT /reset_password without a `reset_token` field (app.py:75-78): comparing the column with None matches the first user whose reset token is unset, and that user's password is replaced | a missing token raises ValueError, as `get_user_from_session_id` refuses a missing session id | medium (relies on the database layer translating a None filter into IS NULL); not executed | UserAuthService.MissingTokenPicksFirstUnsetUser | UserAuthService.ResetTarget |
