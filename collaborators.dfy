/**
 * The external code the handlers call, left uninterpreted: EIP-55 address checking,
 * EIP-191 personal-message signature verification with secp256k1 recovery, viem's
 * `toHex`, HS256 JWT signing and verification (RFC 7519) under the configured secret,
 * the GitHub OAuth middleware and the GitHub REST API.
 */
module Collaborators {
  import opened Wrappers
  import opened Schema

  /** The claims of a session token, as in section 4.1 of RFC 7519; `user` is absent
      when the payload carries no `user` object. */
  datatype Claims = Claims(user: Option<User>, exp: int, nbf: int, iat: int, iss: string)

  /** `verifyMessage` resolves to true or false, or throws. */
  datatype SignatureCheck = Verified | NotVerified | VerifyThrew

  datatype Env = Env(
    isAddress: string -> bool,
    /** (address, raw hex message, signature) */
    verifyMessage: (string, string, string) -> SignatureCheck,
    toHex: string -> string,
    /** `sign(payload, JWT_SECRET)` */
    signJwt: Claims -> string,
    /** `verify(token, JWT_SECRET)`: the payload, or nothing when it throws */
    verifyJwt: string -> Option<Claims>,
    /** `JWT_ISSUER` */
    jwtIssuer: string)

  /** What the `githubAuth` middleware does with the request. */
  datatype GitHubAuthStep =
    | SendToGitHub                                           // no `code`: redirect to GitHub
    | Exchanged(githubUserId: string, accessToken: string)   // code exchanged: call the next handler
    | AuthRejected(status: nat)                              // the middleware throws

  /** The outcome of a `fetch` to api.github.com followed by `response.json()`. */
  datatype GitHubAnswer =
    | FetchFailed                         // `fetch` or `json()` threw
    | Answered(status: nat, json: string)
}
