/** The older, unrouted POST handler of src/handlers/sessions/message-to-sign.ts,
    which stores the plain-text challenge without a timestamp. */
module MessageToSign {
  import opened Wrappers
  import opened RedisKeys
  import opened SessionMessage
  import opened Store
  import opened Http
  import opened Collaborators

  /** The plain-text challenge: the current template up to its validity note. */
  function LegacyMessageText(address: string): (text: string)
    ensures |text| == |Preamble| + |address| + |ValidityNote|
    ensures text[..|Preamble|] == Preamble
    ensures text[|Preamble|..|Preamble| + |address|] == address
    ensures text[|Preamble| + |address|..] == ValidityNote
  {
    Preamble + address + ValidityNote
  }

  function RequestLegacyChallenge(env: Env, entries: Entries, address: Option<string>): (r: (Response, Entries))
    ensures Falsy(address) ==> r == (JsonError(400, AddressRequired), entries)
    ensures !Falsy(address) && !env.isAddress(address.value) ==> r == (JsonError(400, InvalidAddress), entries)
    ensures r.0.Json? && (r.0.status == 200 <==> !Falsy(address) && env.isAddress(address.value))
    // the key written is the one `getSessionMessageKey` builds, the value is plain text
    ensures r.0.status == 200 ==>
      && r.0.body == Data(Text(LegacyMessageText(address.value)))
      && r.0.cookies == []
      && r.1 == entries[SessionMessageKey(address.value) := Entry(LegacyMessageText(address.value), 60)]
  {
    if Falsy(address) then
      (JsonError(400, AddressRequired), entries)
    else if !env.isAddress(address.value) then
      (JsonError(400, InvalidAddress), entries)
    else
      var message := LegacyMessageText(address.value);
      (Json(200, Data(Text(message)), []), entries["session:message:" + address.value := Entry(message, 60)])
  }

  method PostMessageToSign(redis: Redis, env: Env, address: Option<string>) returns (response: Response)
    modifies redis
    ensures (response, redis.entries) == RequestLegacyChallenge(env, old(redis.entries), address)
  {
    if Falsy(address) {
      return JsonError(400, AddressRequired);
    }
    if !env.isAddress(address.value) {
      return JsonError(400, InvalidAddress);
    }
    var message := LegacyMessageText(address.value);
    redis.SetEx("session:message:" + address.value, 60, message);
    return Json(200, Data(Text(message)), []);
  }

  /** The current template is the plain-text one followed by the issuing time. */
  lemma CurrentTemplateExtendsLegacy(address: string, nowIso: string)
    ensures SessionMessageText(address, nowIso) == LegacyMessageText(address) + TimestampLead + nowIso + "."
  {
  }

  /** Distinct addresses get distinct plain-text challenges. */
  lemma LegacyMessageTextInjective(a: string, b: string)
    requires LegacyMessageText(a) == LegacyMessageText(b)
    ensures a == b
  {
    assert |a| == |b|;
  }
}
