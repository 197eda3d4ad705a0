# ZakoBox wallet sign-in and GitHub linking, modelled in Dafny

This project models the authentication core of the ZakoBox/ZakoPako back end. A wallet
owner asks for a sign-in challenge (`POST /session-messages`), signs it, and posts the
signature (`POST /sessions`). The server then looks the address up in the `users` table,
creating the user on first sign-in, and sets a one-day JWT session cookie. A signed-in
user can link a GitHub account through a two-phase OAuth route
(`GET /github-connections/authorize`). That route parks a linking state in Redis under
a fresh UUID, consumes the state in the callback, and inserts or updates the user's
`github_accounts` row. The other `/github-connections` routes read, proxy or delete
that row.

Each handler that reads or writes a store is modelled twice:

- as a pure transition function over the stores it touches, returning the response. Its
  contract states the outcome of each branch and what happens to the stores;
- as an imperative method over two mutable objects, proved equal to that function. The
  objects are `Store.Redis`, a key-value map whose entries record their TTL, and
  `Schema.Database`, which holds the `users` and `github_accounts` tables as maps.

`GET /sessions` and `DELETE /sessions` touch no store. They are modelled only as
functions (`Sessions.GetSession` and `Sessions.DeleteSession`).

The database constraints are predicates over the maps:

- `address` is the primary key of `users`;
- `internalId` is unique;
- `github_accounts.userId` is unique and references a user;
- `githubId` is unique;
- `id` is the primary key of `github_accounts`.

Not-null columns need no predicate, because every datatype field is always present. An
insert that would break a constraint fails the way Postgres makes it fail: the driver
throws and the handler answers 500. So every handler keeps the database valid, with no
extra precondition.

The external collaborators are the fields of `Collaborators.Env` and stay
uninterpreted:

- `isAddress`, the EIP-55 checksum check;
- `verifyMessage`, EIP-191 personal-message signing with secp256k1 recovery;
- viem's `toHex`;
- HS256 JWT `sign` and `verify` under the configured secret;
- the `JWT_ISSUER` setting.

Other inputs are plain parameters: `crypto.randomUUID`, the random default ids, the
clocks, what the `githubAuth` middleware does, and GitHub's answers.

A sign-in challenge is meant to be single-use: consumed by the sign-in that answers it.
The code does not do this, and the model follows the code:

- `POST /sessions` reads the challenge with `GET` and never deletes it
  (src/handlers/sessions/index.ts:40). So a replay within the TTL is accepted again
  (`Flows.SignInReplayAccepted`). A failed signature leaves the challenge in place
  too.
- Only the OAuth linking state is consumed (`GET` then `DEL`,
  src/handlers/github-connections/authorize.ts:71-72). A replayed callback gets 401
  (`Flows.LinkStateSingleUse`).
- `GET /sessions` does not catch a failing `verify`. An invalid token is an uncaught
  error (500), not 401.
- A user with no `github_accounts` row who links a GitHub id another user already
  holds fails the insert on the unique `githubId` (500). There is no 409 Conflict
  answer.
- A user who already has a row takes the `ON CONFLICT (userId) DO UPDATE` path. The
  update always succeeds and replaces only `accessToken`: the row keeps its old
  `githubId` even when the callback brought a different one, and `updatedAt` is not
  refreshed (`Schema.UpsertGitHubAccount`).
- The challenge handler reads `address` from the query string, but its test sends the
  address in the body. The model takes the address as an optional string.
- The test titled "should return 401 if session message is not found" expects 404, as
  the code answers.
- In the linking route, a session payload without a `user` object makes
  `user.internalId` throw outside the try block (authorize.ts:31). The answer is 500. A
  payload whose `user` lacks `internalId` (the empty string in the model) redirects to
  `/`.

## Model

| member | source | states |
|---|---|---|
| RedisKeys.SessionMessageKey | src/utils/redis.ts:1 | the key is `session:message:` followed by exactly the address |
| RedisKeys.GitHubOAuthStateKey | src/utils/redis.ts:2 | the key is `github:oauth:state:` followed by exactly the state UUID |
| RedisKeys.StripPrefix | src/utils/redis.ts:1-2 | gives back the argument exactly when the key carries the prefix, and prefix plus argument is the key |
| RedisKeys.SessionMessageKeyRoundTrip | src/utils/redis.ts:1 | stripping the prefix from a challenge key returns the address |
| RedisKeys.GitHubOAuthStateKeyRoundTrip | src/utils/redis.ts:2 | stripping the prefix from a state key returns the UUID |
| RedisKeys.SessionMessageKeyInjective | src/utils/redis.ts:1 | distinct addresses give distinct challenge keys |
| RedisKeys.GitHubOAuthStateKeyInjective | src/utils/redis.ts:2 | distinct UUIDs give distinct state keys |
| RedisKeys.KeyNamespacesDisjoint | src/utils/redis.ts:1-2 | no challenge key equals any linking-state key |
| SessionMessage.SessionMessageText | src/utils/session-message.ts:4-8 | the template starts with the greeting; `Your address is ` is immediately followed by the address; it ends with the timestamp and a full stop; the length is fixed text plus address plus timestamp |
| SessionMessage.GenerateSessionMessage | src/utils/session-message.ts:3-9 | the challenge is `toHex` of that template for the address and the current time |
| SessionMessage.AddressAt | src/utils/session-message.ts:8 | the address occupies exactly the positions after the fixed preamble |
| SessionMessage.SessionMessageTextInjective | src/utils/session-message.ts:4-8 | for one timestamp, distinct addresses give distinct templates |
| SessionMessage.GenerateSessionMessageInjective | src/utils/session-message.ts:3-9 | for one timestamp and an injective `toHex`, distinct addresses give distinct challenges |
| Schema.SelectUser | src/handlers/sessions/index.ts:61 | at most one row; for a stored address, exactly that address's row; no row otherwise |
| Schema.InsertUser | src/db/schema.ts:3-9 | fails exactly on a duplicate `address` or `internalId`; otherwise adds exactly that row, changes no other row, and keeps `users` valid |
| Schema.UsersValidCount | src/db/schema.ts:4-6 | with `address` as primary key and `internalId` unique, there are exactly as many internal ids as users |
| Schema.AccountsValidCount | src/db/schema.ts:12-14 | with the `userId` foreign key and the unique `githubId` and `id`, every linked user exists, and there are exactly as many GitHub ids and row ids as rows |
| Schema.AccountsValidUnderExtension | src/db/schema.ts:13 | linked accounts keep a valid reference to `users.internalId` as `users` only grows |
| Schema.UpsertGitHubAccount | src/handlers/github-connections/authorize.ts:85-94 | an existing row for `userId` only gets the new `accessToken`; otherwise a new row is inserted, and the insert fails exactly on a dangling `userId`, a taken `githubId` or a taken `id`; the table stays valid |
| Schema.DeleteGitHubAccount | src/handlers/github-connections/index.ts:59 | removes exactly the row for `userId` and keeps every other row |
| Schema.Database.constructor | src/db/schema.ts:3-21 | an empty database is valid |
| Schema.Database.SelectUserRows | src/handlers/sessions/index.ts:61 | returns the select's rows |
| Schema.Database.InsertUserRow | src/handlers/sessions/index.ts:63-66 | inserts the row or fails with no change, and keeps the database valid |
| Schema.Database.SelectGitHubAccountRows | src/handlers/github-connections/index.ts:13 | the caller's row, or no rows |
| Schema.Database.UpsertGitHubAccountRow | src/handlers/github-connections/authorize.ts:85-94 | applies the insert-or-update or fails with no change, keeps the database valid, and leaves `users` alone |
| Schema.Database.DeleteGitHubAccountRows | src/handlers/github-connections/index.ts:27 | deletes the caller's row and keeps the database valid |
| Store.Lookup | src/handlers/sessions/index.ts:40 | `GET` answers a value exactly when the key is present, and that value is the stored one |
| Store.Redis.SetEx | src/handlers/session-message/index.ts:20 | `SETEX` overwrites the key's entry with the value and TTL and changes no other key |
| Store.Redis.Get | src/handlers/github-connections/authorize.ts:71 | `GET` returns the stored value or nothing |
| Store.Redis.Del | src/handlers/github-connections/authorize.ts:72 | `DEL` removes the key and nothing else |
| Strings.IndexOfFrom | src/handlers/sessions/index.ts:18 | the result is an occurrence of the separator with none before it, or there is no occurrence |
| Strings.IndexOf | src/handlers/sessions/index.ts:18 | the first occurrence of the separator, or none at all |
| Strings.Split | src/handlers/sessions/index.ts:18 | `split` yields at least one piece |
| Strings.SplitHead | src/handlers/sessions/index.ts:18 | the first piece of a split is a prefix ending at the end of the string or right before the first separator |
| Strings.SplitAfterFirst | src/handlers/sessions/index.ts:18 | when the first separator follows `head`, the split is `head` followed by the split of the rest |
| Strings.JoinSplit | src/handlers/sessions/index.ts:18 | joining the pieces of a split with the separator gives back the string |
| Strings.SplitAvoidsSep | src/handlers/sessions/index.ts:18 | no piece of a split contains the separator |
| Strings.FindPrefixedFrom | src/handlers/sessions/index.ts:18 | the first segment starting with the prefix, or none does |
| Sessions.SessionCookieValue | src/handlers/sessions/index.ts:18 | a value exactly when some `"; "`-segment starts with `session=`; the value comes from the first such segment: it follows `session=` and runs to the end of the segment or up to the next `=`, and it contains no `=` |
| Sessions.SessionSegmentValue | src/handlers/sessions/index.ts:18 | splitting a `session=…` segment on `=` always gives a second piece: the text after `session=` up to the end or the next `=` |
| Sessions.SessionCookieRoundTrip | src/handlers/sessions/index.ts:18 | for `session=<token>` followed by nothing or by `"; "` and more cookies, the extracted value is the token, when the token has no `=` or `;` |
| Sessions.GetSession | src/handlers/sessions/index.ts:12-26 | no Cookie header, or no non-empty `session` value, gives 401 Unauthorized; a verifying token gives 200 with its `user` claim; a failing `verify` is an uncaught 500 |
| Sessions.SessionCookie | src/handlers/sessions/index.ts:79-83 | the `session` cookie holds the token, is HTTP-only and strict same-site, and lives 86400 seconds, as long as the token |
| Sessions.SessionClaims | src/handlers/sessions/index.ts:71-78 | the token carries the user, `iat = nbf = now`, `exp = now + 86400`, and the configured issuer |
| Sessions.GetOrCreateUser | src/handlers/sessions/index.ts:61-69 | an existing user is returned and the table is unchanged; otherwise exactly one row is added, with `displayName = address` and the fresh `internalId`; the table only grows and stays valid |
| Sessions.SignIn | src/handlers/sessions/index.ts:27-86 | the checks run in order and the first failure decides: 400 missing field, 400 bad address, 404 no challenge, 400 bad or throwing signature; every failure leaves `users` unchanged; success is 201 with the user and a one-day HTTP-only strict session cookie holding the signed claims |
| Sessions.PostSession | src/handlers/sessions/index.ts:27-86 | the imperative handler is `SignIn`; it leaves the challenge store and `github_accounts` unchanged and keeps the database valid |
| Sessions.DeleteSession | src/handlers/sessions/index.ts:87-90 | always 200 "Session deleted" with the session cookie cleared; no store is involved |
| SessionMessages.RequestChallenge | src/handlers/session-message/index.ts:8-23 | a missing address gives 400 "Address is required" before the format check; a rejected address gives 400 "Invalid address, or wrong checksum format"; neither writes; otherwise 200 with the hex challenge, which is stored under the address's key with TTL 60, overwriting, with other keys untouched |
| SessionMessages.PostSessionMessage | src/handlers/session-message/index.ts:8-23 | the imperative handler is `RequestChallenge` |
| SessionMessages.ChallengeOverwritten | src/handlers/session-message/index.ts:20 | a second request for the same address replaces the stored challenge without adding a key |
| MessageToSign.LegacyMessageText | src/handlers/sessions/message-to-sign.ts:16-20 | the plain-text challenge is the fixed preamble, then the address, then exactly the validity note, with no timestamp |
| MessageToSign.RequestLegacyChallenge | src/handlers/sessions/message-to-sign.ts:6-25 | the same two 400 answers, in order, with no write; otherwise 200 with the plain text and no cookie set, stored with TTL 60 under the very key `getSessionMessageKey` builds |
| MessageToSign.PostMessageToSign | src/handlers/sessions/message-to-sign.ts:6-25 | the imperative handler is `RequestLegacyChallenge` |
| MessageToSign.CurrentTemplateExtendsLegacy | src/utils/session-message.ts:4-8 | the current template is the legacy one followed by ` Now is <timestamp>.` |
| MessageToSign.LegacyMessageTextInjective | src/handlers/sessions/message-to-sign.ts:16-20 | distinct addresses give distinct plain-text challenges |
| GitHubAuthorize.StateCookie | src/handlers/github-connections/authorize.ts:38 | the `state_uuid` cookie holds the UUID with the framework defaults: no max-age, not HTTP-only, no strict same-site |
| GitHubAuthorize.BeginLink | src/handlers/github-connections/authorize.ts:14-48 | a missing or unverifiable session redirects to `/` without writing; a verified payload without `user` is an uncaught 500; one whose user has an empty `internalId` redirects to `/`; otherwise the fresh UUID maps to the `internalId` with TTL 3600, and the same UUID goes into the `state_uuid` cookie and the redirect query |
| GitHubAuthorize.CompleteLink | src/handlers/github-connections/authorize.ts:59-97 | no `state_uuid` cookie gives 401 with nothing changed; otherwise the state entry is deleted whatever follows; an absent state gives 401 with the accounts unchanged; with a recorded state, the callback redirects exactly when the insert-or-update succeeds, the table is then its result, and a failed insert is 500; success redirects to `/`, and the user recorded in the state has exactly one row holding the new token; the accounts stay valid |
| GitHubAuthorize.Authorize | src/handlers/github-connections/authorize.ts:12-97 | without a `state_uuid` cookie, a halted first phase (home redirect or 500) is the answer and nothing changes; going to GitHub carries the first phase's state query, cookie and new state; a rejected exchange is the middleware's error, leaves `github_accounts` alone and consumes no linking state (a state the first phase just recorded stays); a callback with the cookie is exactly `CompleteLink`; a callback without it has just recorded a state and gets 401; `github_accounts` changes only in the callback and stays valid |
| GitHubAuthorize.HandleAuthorize | src/handlers/github-connections/authorize.ts:12-97 | the imperative handler is `Authorize`; it keeps the database valid and leaves `users` alone |
| GitHubConnections.ShowConnection | src/handlers/github-connections/index.ts:11-37 | no row gives 404 "GitHub account not found"; a failed fetch gives 500; the table changes only when GitHub answers 401, and then the caller's row is deleted with 401 "Unauthorized"; any other status passes the data through |
| GitHubConnections.ListRepos | src/handlers/github-connections/index.ts:38-56 | 200 with the data exactly when a row exists and GitHub answered; otherwise 500 "Error fetching GitHub repos" |
| GitHubConnections.Disconnect | src/handlers/github-connections/index.ts:57-62 | 200 "GitHub connection deleted"; the caller's row is gone and every other row is kept |
| GitHubConnections.DisconnectIdempotent | src/handlers/github-connections/index.ts:57-62 | a second DELETE answers the same and leaves the same table |
| GitHubConnections.GetConnection | src/handlers/github-connections/index.ts:11-37 | the imperative handler is `ShowConnection` and keeps the database valid |
| GitHubConnections.GetRepos | src/handlers/github-connections/index.ts:38-56 | the imperative handler answers `ListRepos` and changes nothing |
| GitHubConnections.DeleteConnection | src/handlers/github-connections/index.ts:57-62 | the imperative handler is `Disconnect` and keeps the database valid |
| Flows.SignInAfterChallenge | src/handlers/sessions/index.ts:40-69 | after a challenge request, a signature that verifies over the stored hex challenge signs in with 201 and the user exists |
| Flows.SignInReplayAccepted | src/handlers/sessions/index.ts:40 | replaying an accepted sign-in is accepted again with the same user and no new row, because the challenge is never deleted |
| Flows.SessionReadsBack | src/handlers/sessions/index.ts:18-25 | the cookie set by an accepted sign-in, sent back to GET /sessions, yields 200 with the signed-in user, given a JWT that verifies to its claims |
| Flows.SignInKeepsDbValid | src/db/schema.ts:3-21 | a sign-in keeps both tables valid, including the `userId` references |
| Flows.LinkFlow | src/handlers/github-connections/authorize.ts:14-96 | starting the link stores the session's `internalId` under the fresh UUID; the callback with that cookie links GitHub to that `internalId`, whatever session the callback carries, and consumes the state |
| Flows.LinkStateSingleUse | src/handlers/github-connections/authorize.ts:70-83 | a replayed callback with the same `state_uuid` gets 401 and changes nothing |
| Flows.LinkingLeavesChallengesAlone | src/handlers/github-connections/authorize.ts:42 | the linking route never changes any sign-in challenge |
| Flows.ChallengeLeavesLinkStateAlone | src/handlers/session-message/index.ts:20 | requesting a challenge never changes any linking state |

## Left out

- Request bodies of `POST /sessions` that are not a JSON object with string fields. A body that is not JSON makes `c.req.json()` throw (src/handlers/sessions/index.ts:28), and a JSON `null` makes `body.address` throw; both are 500. Non-string `address` or `signature` values are coerced by JavaScript in `!address` and `isAddress`. The model takes each field as an optional string, so it has none of these cases.
- Wall-clock expiry of Redis entries: an entry records its TTL, but it does not vanish after that time.
- Concurrency. The select-then-insert of a user (src/handlers/sessions/index.ts:61-67) and the get-then-delete of a linking state (src/handlers/github-connections/authorize.ts:71-72) are not atomic in the source. The sequential model claims no freedom from races.
- Redis and database unavailability. The try blocks that turn a failing Redis call into a 500 `HTTPException` are I/O failures and are not modelled.
- Cryptography and encoding stay uninterpreted: EIP-55, EIP-191 with secp256k1, HS256, and viem's `toHex`. So are the `exp`/`nbf` checks that `verify` performs against the clock.
- The three Redis clients are modelled as one store: Bun's built-in client in authorize.ts, `redis` in the session handlers, and `redisClient` in message-to-sign.ts. The last is imported from a module that does not export it, and src/index.ts mounts neither that handler nor `/github-connections`.
- `githubAuth`'s own work: its redirect URL, scopes, code exchange and `state` parameter check. The model takes its outcome as an input.
- The GitHub REST calls. Their status and body are inputs, and the access token sent with them is not tied to the answer.
- src/middlewares/jwt.ts is not part of this model. The `/github-connections` handlers receive the caller's `internalId` as an input.
- Cookies set or cleared before an `HTTPException` is thrown are not modelled. Neither are the bodies of such error responses; only their status is kept.
- Column widths are not modelled: `char(42)` padding and the `varchar(255)` limits. Rows with a null `userId` in `github_accounts` are not modelled either, since no handler writes one.
- src/handlers/github-oauth/index.ts, src/index.ts (environment checks and route wiring), the connection modules and the drizzle configuration are outside the core.
