/** The responses the handlers produce, as the HTTP framework would send them. */
module Http {
  import opened Wrappers
  import opened Schema

  /** What the `data` field of a JSON body carries. */
  datatype Payload =
    | Text(text: string)              // a string
    | UserRow(user: User)             // a `users` row
    | Snapshot(claim: Option<User>)   // the `user` claim of a verified session token
    | GitHubJson(json: string)        // a GitHub API response body, passed through

  datatype Body =
    | Error(error: string)            // `{ error }`
    | Data(data: Payload)             // `{ data }`
    | Message(message: string)        // `{ message }`

  datatype CookieOp =
    | SetCookie(name: string, value: string, maxAge: Option<nat>, httpOnly: bool, sameSiteStrict: bool)
    | DeleteCookie(name: string)

  datatype Response =
    | Json(status: nat, body: Body, cookies: seq<CookieOp>)   // `c.json(body, status)`
    | Redirect(location: string, cookies: seq<CookieOp>)      // `c.redirect(location)`
    /** The OAuth provider middleware's redirect to GitHub's authorize page; its
        `redirect_uri` carries the query `state_uuid=<stateQuery>` when one was set. */
    | RedirectToGitHub(stateQuery: Option<string>, cookies: seq<CookieOp>)
    /** A thrown `HTTPException(status)`, or an uncaught error answered with 500. */
    | Thrown(status: nat)

  function JsonError(status: nat, error: string): (r: Response)
    ensures r.Json? && r.status == status && r.body == Error(error) && r.cookies == []
  {
    Json(status, Error(error), [])
  }

  const Unauthorized: string := "Unauthorized"
  const AddressRequired: string := "Address is required"
  const InvalidAddress: string := "Invalid address, or wrong checksum format"
}
