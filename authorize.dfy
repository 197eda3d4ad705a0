/**
 * GET /github-connections/authorize (src/handlers/github-connections/authorize.ts):
 * a first middleware that, without a `state_uuid` cookie, records a linking state for
 * the signed-in user; the `githubAuth` middleware; and a callback that consumes the
 * state and inserts or updates the user's `github_accounts` row.
 */
module GitHubAuthorize {
  import opened Wrappers
  import opened RedisKeys
  import opened Store
  import opened Schema
  import opened Http
  import opened Collaborators

  /** Seconds a linking state lives. */
  const StateTtl: nat := 3600

  /** The `state_uuid` cookie the first phase sets (framework default options). */
  function StateCookie(stateUuid: string): (c: CookieOp)
    ensures c.SetCookie? && c.name == "state_uuid" && c.value == stateUuid
    // no Max-Age (a browser-session cookie), not HTTP-only, no SameSite=Strict
    ensures c.maxAge.None? && !c.httpOnly && !c.sameSiteStrict
  {
    SetCookie("state_uuid", stateUuid, None, false, false)
  }

  /** Where the first middleware leaves the request: answered, or handed on to
      `githubAuth` with the query for its `redirect_uri`, the cookies set so far and
      the store. */
  datatype Phase = Halt(response: Response) | Continue(stateQuery: Option<string>, cookies: seq<CookieOp>, entries: Entries)

  /** The first middleware's own work, done only when the request has no `state_uuid`
      cookie: check the session and record a linking state. */
  function BeginLink(env: Env, entries: Entries, sessionCookie: Option<string>, freshUuid: string): (r: Phase)
    // a missing or unverifiable session, or one without an internal id, redirects home
    ensures Falsy(sessionCookie) ==> r == Halt(Redirect("/", []))
    ensures !Falsy(sessionCookie) && env.verifyJwt(sessionCookie.value).None? ==> r == Halt(Redirect("/", []))
    // a verified payload without `user` throws; one whose user has no internal id redirects
    ensures (&& !Falsy(sessionCookie)
             && env.verifyJwt(sessionCookie.value).Some?
             && env.verifyJwt(sessionCookie.value).value.user.None?)
            ==> r == Halt(Thrown(500))
    ensures (&& !Falsy(sessionCookie)
             && env.verifyJwt(sessionCookie.value).Some?
             && env.verifyJwt(sessionCookie.value).value.user.Some?
             && env.verifyJwt(sessionCookie.value).value.user.value.internalId == "")
            ==> r == Halt(Redirect("/", []))
    // otherwise the state maps the fresh UUID to the session's internal id, and the
    // same UUID goes into the cookie and the redirect query
    ensures r.Continue? <==>
      && !Falsy(sessionCookie)
      && env.verifyJwt(sessionCookie.value).Some?
      && env.verifyJwt(sessionCookie.value).value.user.Some?
      && env.verifyJwt(sessionCookie.value).value.user.value.internalId != ""
    ensures r.Continue? ==>
      && r.stateQuery == Some(freshUuid)
      && r.cookies == [StateCookie(freshUuid)]
      && r.entries == entries[GitHubOAuthStateKey(freshUuid) :=
                              Entry(env.verifyJwt(sessionCookie.value).value.user.value.internalId, StateTtl)]
  {
    if Falsy(sessionCookie) then Halt(Redirect("/", []))
    else match env.verifyJwt(sessionCookie.value)
      case None => Halt(Redirect("/", []))
      case Some(claims) =>
        // `user.internalId` on a payload without `user` throws outside the try block
        if claims.user.None? then Halt(Thrown(500))
        else if claims.user.value.internalId == "" then Halt(Redirect("/", []))
        else
          Continue(Some(freshUuid), [StateCookie(freshUuid)],
                   entries[GitHubOAuthStateKey(freshUuid) := Entry(claims.user.value.internalId, StateTtl)])
  }

  /** The callback handler, reached after `githubAuth` exchanged the code: consume the
      linking state and insert or update the user's account row. */
  function CompleteLink(entries: Entries, users: UsersTable, accounts: AccountsTable,
                        stateCookie: Option<string>, githubUserId: string, accessToken: string,
                        freshAccountId: string, dbNow: int): (r: (Response, Entries, AccountsTable))
    ensures Falsy(stateCookie) ==> r == (Thrown(401), entries, accounts)
    // once the cookie is present the state entry is read and deleted, whatever follows
    ensures !Falsy(stateCookie) ==> r.1 == entries - {GitHubOAuthStateKey(stateCookie.value)}
    ensures !Falsy(stateCookie) && Falsy(Lookup(entries, GitHubOAuthStateKey(stateCookie.value))) ==>
      r.0 == Thrown(401) && r.2 == accounts
    ensures !r.0.Redirect? ==> r.2 == accounts
    // on success the user recorded in the state has exactly one row, carrying the new
    // token; an existing row keeps its id and GitHub id
    ensures r.0.Redirect? ==>
      var userId := Lookup(entries, GitHubOAuthStateKey(stateCookie.value)).value;
      && r.0 == Redirect("/", [DeleteCookie("state_uuid")])
      && userId in r.2 && r.2[userId].accessToken == accessToken
      && (AccountsValid(accounts, users) ==> r.2[userId].userId == userId)
      && (userId in accounts ==> r.2 == accounts[userId := accounts[userId].(accessToken := accessToken)])
      && (userId !in accounts ==> r.2[userId].githubId == githubUserId && r.2.Keys == accounts.Keys + {userId})
    ensures r.0.Redirect? || r.0 == Thrown(401) || r.0 == Thrown(500)
    // with a cookie and a recorded state, the answer is decided by the insert-or-update
    ensures (&& !Falsy(stateCookie)
             && !Falsy(Lookup(entries, GitHubOAuthStateKey(stateCookie.value))))
            ==>
            var userId := Lookup(entries, GitHubOAuthStateKey(stateCookie.value)).value;
            var upserted := UpsertGitHubAccount(users, accounts, userId, githubUserId, accessToken, freshAccountId, dbNow);
            && (r.0.Redirect? <==> upserted.Some?)
            && (upserted.Some? ==> r.2 == upserted.value)
            && (upserted.None? ==> r.0 == Thrown(500))
    ensures AccountsValid(accounts, users) ==> AccountsValid(r.2, users)
  {
    if Falsy(stateCookie) then (Thrown(401), entries, accounts)
    else
      var key := GitHubOAuthStateKey(stateCookie.value);
      var userInternalId := Lookup(entries, key);
      var entries' := entries - {key};
      if Falsy(userInternalId) then (Thrown(401), entries', accounts)
      else match UpsertGitHubAccount(users, accounts, userInternalId.value, githubUserId, accessToken, freshAccountId, dbNow)
        case None => (Thrown(500), entries', accounts)
        case Some(accounts') => (Redirect("/", [DeleteCookie("state_uuid")]), entries', accounts')
  }

  /** The whole route. */
  function Authorize(env: Env, entries: Entries, users: UsersTable, accounts: AccountsTable,
                     stateCookie: Option<string>, sessionCookie: Option<string>, freshUuid: string,
                     auth: GitHubAuthStep, freshAccountId: string, dbNow: int): (r: (Response, Entries, AccountsTable))
    // without a state cookie, a halted first phase is the answer and nothing changes
    ensures Falsy(stateCookie) && BeginLink(env, entries, sessionCookie, freshUuid).Halt? ==>
      r == (BeginLink(env, entries, sessionCookie, freshUuid).response, entries, accounts)
    // sending the user to GitHub carries the first phase's query and cookies
    ensures auth.SendToGitHub? && Falsy(stateCookie) && BeginLink(env, entries, sessionCookie, freshUuid).Continue? ==>
      var phase := BeginLink(env, entries, sessionCookie, freshUuid);
      r == (RedirectToGitHub(phase.stateQuery, phase.cookies), phase.entries, accounts)
    ensures auth.SendToGitHub? && !Falsy(stateCookie) ==> r == (RedirectToGitHub(None, []), entries, accounts)
    // a rejected code exchange is the middleware's error; no linking state is consumed
    ensures auth.AuthRejected? && (!Falsy(stateCookie) || BeginLink(env, entries, sessionCookie, freshUuid).Continue?) ==>
      && r.0 == Thrown(auth.status)
      && r.1 == (if Falsy(stateCookie) then BeginLink(env, entries, sessionCookie, freshUuid).entries else entries)
      && r.2 == accounts
    // the callback with a state cookie is exactly `CompleteLink`
    ensures auth.Exchanged? && !Falsy(stateCookie) ==>
      r == CompleteLink(entries, users, accounts, stateCookie, auth.githubUserId, auth.accessToken, freshAccountId, dbNow)
    // a callback without a state cookie has just recorded a state, and is then refused
    ensures auth.Exchanged? && Falsy(stateCookie) && BeginLink(env, entries, sessionCookie, freshUuid).Continue? ==>
      r == (Thrown(401), BeginLink(env, entries, sessionCookie, freshUuid).entries, accounts)
    // the accounts table changes only in the callback
    ensures !auth.Exchanged? ==> r.2 == accounts
    // a request that carries a state cookie never records a new state
    ensures !Falsy(stateCookie) ==> r.1.Keys <= entries.Keys
    ensures AccountsValid(accounts, users) ==> AccountsValid(r.2, users)
  {
    var phase := if Falsy(stateCookie) then BeginLink(env, entries, sessionCookie, freshUuid)
                 else Continue(None, [], entries);
    match phase
    case Halt(response) => (response, entries, accounts)
    case Continue(query, cookies, entries1) =>
      match auth
      case SendToGitHub => (RedirectToGitHub(query, cookies), entries1, accounts)
      case AuthRejected(status) => (Thrown(status), entries1, accounts)
      case Exchanged(githubUserId, accessToken) =>
        CompleteLink(entries1, users, accounts, stateCookie, githubUserId, accessToken, freshAccountId, dbNow)
  }

  method HandleAuthorize(redis: Redis, db: Database, env: Env,
                         stateCookie: Option<string>, sessionCookie: Option<string>, freshUuid: string,
                         auth: GitHubAuthStep, freshAccountId: string, dbNow: int) returns (response: Response)
    requires db.Valid()
    modifies redis, db
    ensures db.Valid() && db.users == old(db.users)
    ensures (response, redis.entries, db.githubAccounts) ==
      Authorize(env, old(redis.entries), old(db.users), old(db.githubAccounts),
                stateCookie, sessionCookie, freshUuid, auth, freshAccountId, dbNow)
  {
    var stateQuery: Option<string> := None;
    var cookies: seq<CookieOp> := [];
    if Falsy(stateCookie) {
      if Falsy(sessionCookie) {
        return Redirect("/", []);
      }
      var payload := env.verifyJwt(sessionCookie.value);
      if payload.None? {
        return Redirect("/", []);
      }
      if payload.value.user.None? {
        return Thrown(500);
      }
      var user := payload.value.user.value;
      if user.internalId == "" {
        return Redirect("/", []);
      }
      cookies := [StateCookie(freshUuid)];
      stateQuery := Some(freshUuid);
      redis.SetEx(GitHubOAuthStateKey(freshUuid), StateTtl, user.internalId);
    }
    match auth {
      case SendToGitHub =>
        return RedirectToGitHub(stateQuery, cookies);
      case AuthRejected(status) =>
        return Thrown(status);
      case Exchanged(githubUserId, accessToken) =>
        if Falsy(stateCookie) {
          return Thrown(401);
        }
        var key := GitHubOAuthStateKey(stateCookie.value);
        var userInternalId := redis.Get(key);
        redis.Del(key);
        if Falsy(userInternalId) {
          return Thrown(401);
        }
        var ok := db.UpsertGitHubAccountRow(userInternalId.value, githubUserId, accessToken, freshAccountId, dbNow);
        if !ok {
          return Thrown(500);
        }
        return Redirect("/", [DeleteCookie("state_uuid")]);
    }
  }
}
