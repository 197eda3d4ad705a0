/** GET, POST and DELETE /sessions (src/handlers/sessions/index.ts). */
module Sessions {
  import opened Wrappers
  import opened Strings
  import opened RedisKeys
  import opened Store
  import opened Schema
  import opened Http
  import opened Collaborators

  const CredentialsRequired: string := "Address and signature are required"
  const ChallengeNotFound: string := "Session message not found"
  const InvalidSignature: string := "Invalid session message signature"
  const SessionDeleted: string := "Session deleted"

  /** Seconds a session token and its cookie live. */
  const SessionLifetime: nat := 60 * 60 * 24

  // ---------------------------------------------------------------- GET

  const SessionCookiePrefix: string := "session="

  /** `cookie.split('; ').find(c => c.startsWith('session='))?.split('=')[1]`:
      in the first `"; "`-separated segment that starts with `session=`, the text
      after the first `=` and before any second `=`. */
  function SessionCookieValue(header: string): (v: Option<string>)
    // a value exactly when some segment is a `session` cookie
    ensures v.Some? <==> exists k :: 0 <= k < |Split(header, "; ")| && StartsWith(Split(header, "; ")[k], SessionCookiePrefix)
    ensures v.Some? ==> '=' !in v.value
    // the value comes from the first such segment: it follows `session=` and runs to
    // the end of the segment or to the next `=`
    ensures v.Some? ==>
      exists k ::
        && 0 <= k < |Split(header, "; ")|
        && (forall j :: 0 <= j < k ==> !StartsWith(Split(header, "; ")[j], SessionCookiePrefix))
        && StartsWith(Split(header, "; ")[k], SessionCookiePrefix + v.value)
        && (|Split(header, "; ")[k]| == |SessionCookiePrefix + v.value|
            || Split(header, "; ")[k][|SessionCookiePrefix + v.value|] == '=')
  {
    var segments := Split(header, "; ");
    match FindPrefixedFrom(segments, SessionCookiePrefix, 0)
    case None => None
    case Some(k) =>
      assert exists i :: 0 <= i < |Split(header, "; ")| && StartsWith(Split(header, "; ")[i], SessionCookiePrefix);
      SessionSegmentValue(segments[k]);
      var parts := Split(segments[k], "=");
      SplitAvoidsSep(segments[k], "=", 1);
      NoOccurrenceOfChar(parts[1], '=');
      Some(parts[1])
  }

  /** Splitting a `session=…` segment on `=` always gives a second piece: the text
      after `session=` up to the end or the next `=`. */
  lemma SessionSegmentValue(segment: string)
    requires StartsWith(segment, SessionCookiePrefix)
    ensures |Split(segment, "=")| >= 2
    ensures StartsWith(segment, SessionCookiePrefix + Split(segment, "=")[1])
    ensures |segment| == |SessionCookiePrefix + Split(segment, "=")[1]|
            || segment[|SessionCookiePrefix + Split(segment, "=")[1]|] == '='
  {
    var tail := segment[8..];
    assert segment == "session" + "=" + tail;
    assert segment[7..8] == "=";
    IndexOfIs(segment, "=", 7);
    SplitAfterFirst("session", "=", tail);
    SplitHead(tail, "=");
    var value := Split(segment, "=")[1];
    assert value == Split(tail, "=")[0];
    assert segment[..8 + |value|] == SessionCookiePrefix + value;
    if |value| != |tail| {
      assert tail[|value|..|value| + 1] == "=";
      assert segment[8 + |value|] == tail[|value|];
    }
  }

  /** A cookie header whose first segment is `session=<token>` yields the token, when
      the token has no `=` and no `;` (a base64url JWT has neither). */
  lemma SessionCookieRoundTrip(token: string, rest: string)
    requires '=' !in token && ';' !in token
    requires rest == "" || StartsWith(rest, "; ")
    ensures SessionCookieValue("session=" + token + rest) == Some(token)
  {
    var segment := "session=" + token;
    var header := segment + rest;
    assert forall j :: 0 <= j < |segment| ==> segment[j] != ';' by {
      forall j | 0 <= j < |segment| ensures segment[j] != ';' {
        if j >= 8 { assert segment[j] == token[j - 8]; }
      }
    }
    if rest == "" {
      assert header == segment;
      IndexOfAbsent(header, "; ");
    } else {
      assert header[|segment|..|segment| + 2] == rest[..2];
      IndexOfIs(header, "; ", |segment|);
      assert header[..|segment|] == segment;
    }
    var segments := Split(header, "; ");
    assert segments[0] == segment;
    assert StartsWith(segments[0], "session=");
    assert FindPrefixedFrom(segments, "session=", 0) == Some(0);
    assert segment[7..8] == "=";
    IndexOfIs(segment, "=", 7);
    assert segment[8..] == token;
    IndexOfAbsent(token, "=");
    var parts := Split(segment, "=");
    assert parts == [segment[..7]] + Split(token, "=");
    assert parts[1] == token;
  }

  /** The handler: 401 without a usable session cookie; the token's `user` claim when
      it verifies; an uncaught error (500) when `verify` throws. */
  function GetSession(env: Env, cookieHeader: Option<string>): (r: Response)
    ensures Falsy(cookieHeader) ==> r == JsonError(401, Unauthorized)
    ensures !Falsy(cookieHeader) && Falsy(SessionCookieValue(cookieHeader.value)) ==> r == JsonError(401, Unauthorized)
    ensures (r.Json? && r.status == 200) <==>
      && !Falsy(cookieHeader)
      && !Falsy(SessionCookieValue(cookieHeader.value))
      && env.verifyJwt(SessionCookieValue(cookieHeader.value).value).Some?
    ensures r.Json? && r.status == 200 ==>
      r.body == Data(Snapshot(env.verifyJwt(SessionCookieValue(cookieHeader.value).value).value.user))
    ensures (&& !Falsy(cookieHeader)
             && !Falsy(SessionCookieValue(cookieHeader.value))
             && env.verifyJwt(SessionCookieValue(cookieHeader.value).value).None?)
            ==> r == Thrown(500)
    ensures r.Json? ==> r.cookies == []
  {
    if Falsy(cookieHeader) then JsonError(401, Unauthorized)
    else
      var session := SessionCookieValue(cookieHeader.value);
      if Falsy(session) then JsonError(401, Unauthorized)
      else match env.verifyJwt(session.value)
        case None => Thrown(500)
        case Some(claims) => Json(200, Data(Snapshot(claims.user)), [])
  }

  // ---------------------------------------------------------------- POST

  /** The claims of a session issued at `nowSeconds`: valid from then, for one day. */
  function SessionClaims(user: User, nowSeconds: int, issuer: string): (c: Claims)
    ensures c.user == Some(user) && c.iss == issuer
    ensures c.iat == c.nbf == nowSeconds && c.exp - c.nbf == SessionLifetime
  {
    Claims(Some(user), nowSeconds + SessionLifetime, nowSeconds, nowSeconds, issuer)
  }

  /** The `session` cookie: HTTP-only, strict same-site, living as long as the token. */
  function SessionCookie(token: string): (c: CookieOp)
    ensures c.SetCookie? && c.name == "session" && c.value == token
    ensures c.httpOnly && c.sameSiteStrict
    // the same lifetime as `exp - nbf` of the claims in `SessionClaims`
    ensures c.maxAge == Some(SessionLifetime)
  {
    SetCookie("session", token, Some(SessionLifetime), true, true)
  }

  /** The select-then-insert step of the sign-in: the user with this address, created
      with `displayName = address` and a fresh `internalId` when there is none; nothing
      when the insert fails. */
  function GetOrCreateUser(users: UsersTable, address: string, freshInternalId: string, now: int): (r: Option<(User, UsersTable)>)
    ensures address in users ==> r == Some((users[address], users))
    ensures address !in users ==> (r.Some? <==> freshInternalId !in InternalIds(users))
    ensures address !in users && r.Some? ==>
      && r.value.0 == User(address, address, freshInternalId, now, now)
      && r.value.1 == users[address := r.value.0]
    ensures r.Some? ==> address in r.value.1 && r.value.1[address] == r.value.0
    ensures r.Some? ==> UsersExtend(users, r.value.1) && |r.value.1| <= |users| + 1
    ensures r.Some? && UsersValid(users) ==> UsersValid(r.value.1) && r.value.0.address == address
  {
    var rows := SelectUser(users, address);
    if |rows| > 0 then Some((rows[0], users))
    else
      var row := User(address, address, freshInternalId, now, now);
      match InsertUser(users, row)
      case None => None
      case Some(users') => Some((row, users'))
  }

  /** Every check of the sign-in passes. */
  predicate SignInAccepted(env: Env, entries: Entries, address: Option<string>, signature: Option<string>)
  {
    && !Falsy(address) && !Falsy(signature)
    && env.isAddress(address.value)
    && !Falsy(Lookup(entries, SessionMessageKey(address.value)))
    && env.verifyMessage(address.value, Lookup(entries, SessionMessageKey(address.value)).value, signature.value) == Verified
  }

  /** The POST handler as a transition of the `users` table. The challenge store is
      only read. `nowMs` is `Date.now()`, `dbNow` the database clock. */
  function SignIn(env: Env, entries: Entries, users: UsersTable,
                  address: Option<string>, signature: Option<string>,
                  freshInternalId: string, nowMs: nat, dbNow: int): (r: (Response, UsersTable))
    // the checks, in order; the first that fails decides the answer
    ensures Falsy(address) || Falsy(signature) ==> r.0 == JsonError(400, CredentialsRequired)
    ensures !Falsy(address) && !Falsy(signature) && !env.isAddress(address.value) ==>
      r.0 == JsonError(400, InvalidAddress)
    ensures !Falsy(address) && !Falsy(signature) && env.isAddress(address.value)
            && Falsy(Lookup(entries, SessionMessageKey(address.value))) ==>
      r.0 == JsonError(404, ChallengeNotFound)
    ensures !Falsy(address) && !Falsy(signature) && env.isAddress(address.value)
            && !Falsy(Lookup(entries, SessionMessageKey(address.value)))
            && !SignInAccepted(env, entries, address, signature) ==>
      r.0 == JsonError(400, InvalidSignature)
    // a rejected or failed attempt leaves the table as it was
    ensures !(r.0.Json? && r.0.status == 201) ==> r.1 == users
    ensures (r.0.Json? && r.0.status == 201) <==>
      SignInAccepted(env, entries, address, signature)
      && (address.value in users || freshInternalId !in InternalIds(users))
    ensures SignInAccepted(env, entries, address, signature) && !(r.0.Json? && r.0.status == 201) ==> r.0 == Thrown(500)
    // on success: the existing user, or exactly one new row; a one-day session cookie
    ensures r.0.Json? && r.0.status == 201 ==>
      && address.value in r.1
      && (address.value in users ==> r.1 == users && r.1[address.value] == users[address.value])
      && (address.value !in users ==> r.1 == users[address.value := User(address.value, address.value, freshInternalId, dbNow, dbNow)])
      && r.0.body == Data(UserRow(r.1[address.value]))
      && r.0.cookies == [SessionCookie(env.signJwt(SessionClaims(r.1[address.value], nowMs / 1000, env.jwtIssuer)))]
    ensures UsersExtend(users, r.1)
    ensures UsersValid(users) ==> UsersValid(r.1)
  {
    if Falsy(address) || Falsy(signature) then
      (JsonError(400, CredentialsRequired), users)
    else if !env.isAddress(address.value) then
      (JsonError(400, InvalidAddress), users)
    else
      var rawMessage := Lookup(entries, SessionMessageKey(address.value));
      if Falsy(rawMessage) then
        (JsonError(404, ChallengeNotFound), users)
      else if env.verifyMessage(address.value, rawMessage.value, signature.value) != Verified then
        (JsonError(400, InvalidSignature), users)
      else
        match GetOrCreateUser(users, address.value, freshInternalId, dbNow)
        case None => (Thrown(500), users)
        case Some((user, users')) =>
          var token := env.signJwt(SessionClaims(user, nowMs / 1000, env.jwtIssuer));
          (Json(201, Data(UserRow(user)), [SessionCookie(token)]), users')
  }

  method PostSession(redis: Redis, db: Database, env: Env, address: Option<string>, signature: Option<string>,
                     freshInternalId: string, nowMs: nat, dbNow: int) returns (response: Response)
    requires db.Valid()
    modifies db
    ensures db.Valid()
    ensures (response, db.users) ==
      SignIn(env, redis.entries, old(db.users), address, signature, freshInternalId, nowMs, dbNow)
    ensures db.githubAccounts == old(db.githubAccounts)
    ensures redis.entries == old(redis.entries)
  {
    if Falsy(address) || Falsy(signature) {
      return JsonError(400, CredentialsRequired);
    }
    if !env.isAddress(address.value) {
      return JsonError(400, InvalidAddress);
    }
    var rawMessage := redis.Get(SessionMessageKey(address.value));
    if Falsy(rawMessage) {
      return JsonError(404, ChallengeNotFound);
    }
    var verified := env.verifyMessage(address.value, rawMessage.value, signature.value);
    if verified != Verified {
      return JsonError(400, InvalidSignature);
    }
    var usersResult := db.SelectUserRows(address.value);
    if |usersResult| == 0 {
      var inserted := db.InsertUserRow(User(address.value, address.value, freshInternalId, dbNow, dbNow));
      if inserted.None? {
        return Thrown(500);
      }
      usersResult := [inserted.value];
    }
    var user := usersResult[0];
    var timeSecondNow := nowMs / 1000;
    var jwt := env.signJwt(SessionClaims(user, timeSecondNow, env.jwtIssuer));
    return Json(201, Data(UserRow(user)), [SessionCookie(jwt)]);
  }

  // ---------------------------------------------------------------- DELETE

  /** Clears the session cookie; there is no server-side session to revoke. */
  function DeleteSession(): (r: Response)
    ensures r.Json? && r.status == 200 && r.body == Data(Text(SessionDeleted))
    ensures r.cookies == [DeleteCookie("session")]
  {
    Json(200, Data(Text(SessionDeleted)), [DeleteCookie("session")])
  }
}
