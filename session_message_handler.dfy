/** POST /session-messages (src/handlers/session-message/index.ts). */
module SessionMessages {
  import opened Wrappers
  import opened RedisKeys
  import opened SessionMessage
  import opened Store
  import opened Http
  import opened Collaborators

  /** Seconds a sign-in challenge lives. */
  const ChallengeTtl: nat := 60

  /** The handler as a transition of the challenge store. `address` is the `address`
      query parameter, absent when the request has none. */
  function RequestChallenge(env: Env, entries: Entries, address: Option<string>, nowIso: string): (r: (Response, Entries))
    // the missing-address check comes first, then the format check; neither writes
    ensures Falsy(address) ==> r == (JsonError(400, AddressRequired), entries)
    ensures !Falsy(address) && !env.isAddress(address.value) ==> r == (JsonError(400, InvalidAddress), entries)
    ensures r.0.Json? && r.0.cookies == []
    ensures r.0.status == 200 <==> !Falsy(address) && env.isAddress(address.value)
    // on success the challenge returned is the one stored, under the address's key,
    // overwriting any earlier one, with every other key untouched
    ensures r.0.status == 200 ==>
      && r.0.body == Data(Text(GenerateSessionMessage(env.toHex, address.value, nowIso)))
      && r.1 == entries[SessionMessageKey(address.value) := Entry(r.0.body.data.text, ChallengeTtl)]
  {
    if Falsy(address) then
      (JsonError(400, AddressRequired), entries)
    else if !env.isAddress(address.value) then
      (JsonError(400, InvalidAddress), entries)
    else
      var message := GenerateSessionMessage(env.toHex, address.value, nowIso);
      (Json(200, Data(Text(message)), []), entries[SessionMessageKey(address.value) := Entry(message, ChallengeTtl)])
  }

  method PostSessionMessage(redis: Redis, env: Env, address: Option<string>, nowIso: string) returns (response: Response)
    modifies redis
    ensures (response, redis.entries) == RequestChallenge(env, old(redis.entries), address, nowIso)
  {
    if Falsy(address) {
      return JsonError(400, AddressRequired);
    }
    if !env.isAddress(address.value) {
      return JsonError(400, InvalidAddress);
    }
    var message := GenerateSessionMessage(env.toHex, address.value, nowIso);
    redis.SetEx(SessionMessageKey(address.value), ChallengeTtl, message);
    return Json(200, Data(Text(message)), []);
  }

  /** A second request for the same address replaces the first challenge: at most one
      challenge per address is live. */
  lemma {:induction false} ChallengeOverwritten(env: Env, entries: Entries, address: string, t1: string, t2: string)
    requires env.isAddress(address) && address != ""
    ensures
      var (_, e1) := RequestChallenge(env, entries, Some(address), t1);
      var (_, e2) := RequestChallenge(env, e1, Some(address), t2);
      Lookup(e2, SessionMessageKey(address)) == Some(GenerateSessionMessage(env.toHex, address, t2))
      && e2.Keys == e1.Keys
  {
    var (_, e1) := RequestChallenge(env, entries, Some(address), t1);
    assert SessionMessageKey(address) in e1;
  }
}
