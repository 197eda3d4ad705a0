/** The Redis key builders of src/utils/redis.ts. */
module RedisKeys {
  import opened Wrappers
  import opened Strings

  const SessionMessagePrefix: string := "session:message:"
  const GitHubOAuthStatePrefix: string := "github:oauth:state:"

  /** Key of the sign-in challenge for a wallet address. */
  function SessionMessageKey(address: string): (key: string)
    ensures StartsWith(key, SessionMessagePrefix)
    ensures key[|SessionMessagePrefix|..] == address
  {
    SessionMessagePrefix + address
  }

  /** Key of the pending GitHub-linking state for a state UUID. */
  function GitHubOAuthStateKey(stateUuid: string): (key: string)
    ensures StartsWith(key, GitHubOAuthStatePrefix)
    ensures key[|GitHubOAuthStatePrefix|..] == stateUuid
  {
    GitHubOAuthStatePrefix + stateUuid
  }

  /** The argument a key was built from, when the key carries the prefix. */
  function StripPrefix(prefix: string, key: string): (arg: Option<string>)
    ensures arg.Some? <==> StartsWith(key, prefix)
    ensures arg.Some? ==> prefix + arg.value == key
  {
    if StartsWith(key, prefix) then Some(key[|prefix|..]) else None
  }

  lemma SessionMessageKeyRoundTrip(address: string)
    ensures StripPrefix(SessionMessagePrefix, SessionMessageKey(address)) == Some(address)
  {
  }

  lemma GitHubOAuthStateKeyRoundTrip(stateUuid: string)
    ensures StripPrefix(GitHubOAuthStatePrefix, GitHubOAuthStateKey(stateUuid)) == Some(stateUuid)
  {
  }

  /** Distinct addresses get distinct challenge keys. */
  lemma SessionMessageKeyInjective(a: string, b: string)
    ensures SessionMessageKey(a) == SessionMessageKey(b) ==> a == b
  {
    if SessionMessageKey(a) == SessionMessageKey(b) {
      SessionMessageKeyRoundTrip(a);
      SessionMessageKeyRoundTrip(b);
    }
  }

  /** Distinct state UUIDs get distinct state keys. */
  lemma GitHubOAuthStateKeyInjective(u: string, v: string)
    ensures GitHubOAuthStateKey(u) == GitHubOAuthStateKey(v) ==> u == v
  {
    if GitHubOAuthStateKey(u) == GitHubOAuthStateKey(v) {
      GitHubOAuthStateKeyRoundTrip(u);
      GitHubOAuthStateKeyRoundTrip(v);
    }
  }

  /** The two namespaces never collide: no challenge key is a linking-state key. */
  lemma KeyNamespacesDisjoint(address: string, stateUuid: string)
    ensures SessionMessageKey(address) != GitHubOAuthStateKey(stateUuid)
  {
    assert SessionMessageKey(address)[0] == 's';
    assert GitHubOAuthStateKey(stateUuid)[0] == 'g';
  }
}
