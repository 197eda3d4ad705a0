/**
 * The sign-in challenge text of src/utils/session-message.ts. The text is hex-encoded
 * by viem's `toHex`, which stays uninterpreted here and is passed in as a function;
 * the clock is passed in as the ISO-8601 timestamp string it would produce.
 */
module SessionMessage {
  import opened Strings

  const Greeting: string := "Welcome to ZakoBox/ZakoPako!"
  const Instructions: string :=
    "\n\nSign in with your wallet to continue. This request will not trigger a blockchain transaction or cost any gas fees.\n\n"
  const AddressLead: string := "Your address is "
  const ValidityNote: string := " and this message is valid for 1 minute."
  const TimestampLead: string := " Now is "

  /** Everything of the message that precedes the address. */
  const Preamble: string := Greeting + Instructions + AddressLead

  /** The plain-text template: greeting, instructions, the address, the validity note
      and the issuing time. */
  function SessionMessageText(address: string, nowIso: string): (text: string)
    ensures |text| == |Preamble| + |address| + |ValidityNote| + |TimestampLead| + |nowIso| + 1
    ensures StartsWith(text, Greeting)
    ensures StartsWith(text[|Greeting + Instructions|..], AddressLead + address)
    ensures text[|text| - |nowIso| - 1..] == nowIso + "."
  {
    Preamble + address + ValidityNote + TimestampLead + nowIso + "."
  }

  /** `generateSessionMessage(address)`: the hex encoding of the template. */
  function GenerateSessionMessage(toHex: string -> string, address: string, nowIso: string): (hex: string)
    // the encoding of the template, which greets, names the address right after the
    // fixed preamble and ends with the issuing time
    ensures hex == toHex(SessionMessageText(address, nowIso))
  {
    toHex(SessionMessageText(address, nowIso))
  }

  /** The address sits right after the preamble. */
  lemma AddressAt(address: string, nowIso: string)
    ensures SessionMessageText(address, nowIso)[|Preamble|..|Preamble| + |address|] == address
  {
    var text := SessionMessageText(address, nowIso);
    var head := Preamble + address;
    assert text == head + (ValidityNote + TimestampLead + nowIso + ".");
    assert text[|Preamble|..|head|] == head[|Preamble|..];
  }

  /** For one timestamp, distinct addresses give distinct templates: the fixed
      parts cancel. */
  lemma SessionMessageTextInjective(a: string, b: string, nowIso: string)
    requires SessionMessageText(a, nowIso) == SessionMessageText(b, nowIso)
    ensures a == b
  {
    AddressAt(a, nowIso);
    AddressAt(b, nowIso);
  }

  /** With an injective hex encoding (as UTF-8 hex is) and one timestamp, distinct
      addresses get distinct challenges. */
  lemma GenerateSessionMessageInjective(toHex: string -> string, a: string, b: string, nowIso: string)
    requires forall x, y :: toHex(x) == toHex(y) ==> x == y
    requires GenerateSessionMessage(toHex, a, nowIso) == GenerateSessionMessage(toHex, b, nowIso)
    ensures a == b
  {
    SessionMessageTextInjective(a, b, nowIso);
  }
}
