/**
 * Properties of sequences of requests: the sign-in flow, its replay, reading the
 * session back, the GitHub-linking flow, the single use of a linking state, and
 * the separation of the two kinds of store entries.
 */
module Flows {
  import opened Wrappers
  import opened RedisKeys
  import opened SessionMessage
  import opened Store
  import opened Schema
  import opened Http
  import opened Collaborators
  import opened SessionMessages
  import opened Sessions
  import opened GitHubAuthorize

  /** Requesting a challenge and then signing it with the address's key signs in. */
  lemma {:induction false} SignInAfterChallenge(env: Env, entries: Entries, users: UsersTable, address: string,
                                                nowIso: string, signature: string, freshInternalId: string,
                                                nowMs: nat, dbNow: int)
    requires address != "" && signature != "" && env.isAddress(address)
    // viem's `toHex` always returns `0x…`, so the stored challenge is never the empty
    // string that the sign-in treats as missing; `toHex` is uninterpreted here, so the
    // fact is stated rather than derived
    requires GenerateSessionMessage(env.toHex, address, nowIso) != ""
    requires env.verifyMessage(address, GenerateSessionMessage(env.toHex, address, nowIso), signature) == Verified
    requires address in users || freshInternalId !in InternalIds(users)
    ensures
      var (_, challenged) := RequestChallenge(env, entries, Some(address), nowIso);
      var (response, users') := SignIn(env, challenged, users, Some(address), Some(signature), freshInternalId, nowMs, dbNow);
      response.Json? && response.status == 201 && address in users'
  {
    var (_, challenged) := RequestChallenge(env, entries, Some(address), nowIso);
    assert Lookup(challenged, SessionMessageKey(address)) == Some(GenerateSessionMessage(env.toHex, address, nowIso));
    assert SignInAccepted(env, challenged, Some(address), Some(signature));
  }

  /** The sign-in reads the challenge and never deletes it, so replaying an accepted
      request within the TTL is accepted again and returns the same user without
      adding a row. */
  lemma {:induction false} SignInReplayAccepted(env: Env, entries: Entries, users: UsersTable,
                                                address: Option<string>, signature: Option<string>,
                                                id1: string, ms1: nat, now1: int,
                                                id2: string, ms2: nat, now2: int)
    requires UsersValid(users)
    requires SignIn(env, entries, users, address, signature, id1, ms1, now1).0.status == 201
    ensures
      var (first, users1) := SignIn(env, entries, users, address, signature, id1, ms1, now1);
      var (second, users2) := SignIn(env, entries, users1, address, signature, id2, ms2, now2);
      && second.Json? && second.status == 201
      && users2 == users1
      && second.body == first.body
  {
    var (first, users1) := SignIn(env, entries, users, address, signature, id1, ms1, now1);
    assert first.Json?;
    assert SignInAccepted(env, entries, address, signature);
    assert address.value in users1;
  }

  /** The cookie set by an accepted sign-in reads back, through GET /sessions, as the
      signed-in user, provided the token verifies to the claims it was signed from
      and, like a base64url JWT, holds no `=` and no `;`. */
  lemma {:induction false} SessionReadsBack(env: Env, entries: Entries, users: UsersTable,
                                            address: Option<string>, signature: Option<string>,
                                            freshInternalId: string, nowMs: nat, dbNow: int)
    requires
      var (response, users') := SignIn(env, entries, users, address, signature, freshInternalId, nowMs, dbNow);
      response.Json? && response.status == 201
      && var claims := SessionClaims(users'[address.value], nowMs / 1000, env.jwtIssuer);
         var token := env.signJwt(claims);
         env.verifyJwt(token) == Some(claims) && token != "" && '=' !in token && ';' !in token
    ensures
      var (response, users') := SignIn(env, entries, users, address, signature, freshInternalId, nowMs, dbNow);
      && |response.cookies| == 1 && response.cookies[0].SetCookie?
      && response.cookies[0].name == "session"
      && GetSession(env, Some("session=" + response.cookies[0].value)) == Json(200, Data(Snapshot(Some(users'[address.value]))), [])
  {
    var (response, users') := SignIn(env, entries, users, address, signature, freshInternalId, nowMs, dbNow);
    var token := response.cookies[0].value;
    SessionCookieRoundTrip(token, "");
    assert "session=" + token + "" == "session=" + token;
  }

  /** An accepted or rejected sign-in keeps the whole database valid. */
  lemma SignInKeepsDbValid(env: Env, entries: Entries, users: UsersTable, accounts: AccountsTable,
                           address: Option<string>, signature: Option<string>,
                           freshInternalId: string, nowMs: nat, dbNow: int)
    requires DbValid(users, accounts)
    ensures DbValid(SignIn(env, entries, users, address, signature, freshInternalId, nowMs, dbNow).1, accounts)
  {
    var users' := SignIn(env, entries, users, address, signature, freshInternalId, nowMs, dbNow).1;
    AccountsValidUnderExtension(accounts, users, users');
  }

  /** Starting the link records the session's internal id under a fresh state; the
      callback carrying that state's cookie links GitHub to that internal id, whatever
      session the callback request carries, and consumes the state. */
  lemma {:induction false} LinkFlow(env: Env, entries: Entries, users: UsersTable, accounts: AccountsTable,
                                    session: string, stateUuid: string,
                                    callbackSession: Option<string>, unusedUuid: string,
                                    githubUserId: string, accessToken: string,
                                    freshAccountId: string, dbNow: int)
    requires session != "" && stateUuid != ""
    requires env.verifyJwt(session).Some? && env.verifyJwt(session).value.user.Some?
    requires env.verifyJwt(session).value.user.value.internalId != ""
    requires
      var internalId := env.verifyJwt(session).value.user.value.internalId;
      internalId in accounts
      || (internalId in InternalIds(users) && githubUserId !in GitHubIds(accounts) && freshAccountId !in AccountIds(accounts))
    ensures
      var internalId := env.verifyJwt(session).value.user.value.internalId;
      var (start, started, accounts1) :=
        Authorize(env, entries, users, accounts, None, Some(session), stateUuid, SendToGitHub, freshAccountId, dbNow);
      var (callback, finished, accounts2) :=
        Authorize(env, started, users, accounts1, Some(stateUuid), callbackSession, unusedUuid,
                  Exchanged(githubUserId, accessToken), freshAccountId, dbNow);
      && start == RedirectToGitHub(Some(stateUuid), [StateCookie(stateUuid)])
      && accounts1 == accounts
      && Lookup(started, GitHubOAuthStateKey(stateUuid)) == Some(internalId)
      && callback == Redirect("/", [DeleteCookie("state_uuid")])
      && internalId in accounts2 && accounts2[internalId].accessToken == accessToken
      && GitHubOAuthStateKey(stateUuid) !in finished
  {
    var internalId := env.verifyJwt(session).value.user.value.internalId;
    var (start, started, accounts1) :=
      Authorize(env, entries, users, accounts, None, Some(session), stateUuid, SendToGitHub, freshAccountId, dbNow);
    assert started == entries[GitHubOAuthStateKey(stateUuid) := Entry(internalId, StateTtl)];
    assert Lookup(started, GitHubOAuthStateKey(stateUuid)) == Some(internalId);
    assert UpsertGitHubAccount(users, accounts, internalId, githubUserId, accessToken, freshAccountId, dbNow).Some?;
  }

  /** A linking state is single-use: once a callback has read it, replaying the
      callback with the same `state_uuid` cookie is refused with 401 and changes nothing. */
  lemma {:induction false} LinkStateSingleUse(env: Env, entries: Entries, users: UsersTable, accounts: AccountsTable,
                                              stateUuid: string, session1: Option<string>, session2: Option<string>,
                                              uuid1: string, uuid2: string,
                                              github1: string, token1: string, github2: string, token2: string,
                                              id1: string, id2: string, now1: int, now2: int)
    requires stateUuid != ""
    ensures
      var (_, entries1, accounts1) :=
        Authorize(env, entries, users, accounts, Some(stateUuid), session1, uuid1, Exchanged(github1, token1), id1, now1);
      Authorize(env, entries1, users, accounts1, Some(stateUuid), session2, uuid2, Exchanged(github2, token2), id2, now2)
        == (Thrown(401), entries1, accounts1)
  {
    var (_, entries1, accounts1) :=
      Authorize(env, entries, users, accounts, Some(stateUuid), session1, uuid1, Exchanged(github1, token1), id1, now1);
    assert GitHubOAuthStateKey(stateUuid) !in entries1;
    assert entries1 - {GitHubOAuthStateKey(stateUuid)} == entries1;
  }

  /** The linking route never disturbs a sign-in challenge. */
  lemma {:induction false} LinkingLeavesChallengesAlone(env: Env, entries: Entries, users: UsersTable, accounts: AccountsTable,
                                                        stateCookie: Option<string>, sessionCookie: Option<string>,
                                                        freshUuid: string, auth: GitHubAuthStep,
                                                        freshAccountId: string, dbNow: int, address: string)
    ensures
      var (_, entries', _) := Authorize(env, entries, users, accounts, stateCookie, sessionCookie, freshUuid, auth, freshAccountId, dbNow);
      Lookup(entries', SessionMessageKey(address)) == Lookup(entries, SessionMessageKey(address))
  {
    KeyNamespacesDisjoint(address, freshUuid);
    if !Falsy(stateCookie) {
      KeyNamespacesDisjoint(address, stateCookie.value);
    }
  }

  /** Requesting a challenge never disturbs a linking state. */
  lemma {:induction false} ChallengeLeavesLinkStateAlone(env: Env, entries: Entries, address: Option<string>,
                                                         nowIso: string, stateUuid: string)
    ensures
      var (_, entries') := RequestChallenge(env, entries, address, nowIso);
      Lookup(entries', GitHubOAuthStateKey(stateUuid)) == Lookup(entries, GitHubOAuthStateKey(stateUuid))
  {
    if !Falsy(address) {
      KeyNamespacesDisjoint(address.value, stateUuid);
    }
  }
}
