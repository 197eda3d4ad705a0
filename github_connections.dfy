/**
 * GET /, GET /repos and DELETE / of /github-connections
 * (src/handlers/github-connections/index.ts). Each runs after the session middleware,
 * which supplies the caller's `internalId`.
 */
module GitHubConnections {
  import opened Wrappers
  import opened Schema
  import opened Http
  import opened Collaborators

  const AccountNotFound: string := "GitHub account not found"
  const UserFetchFailed: string := "Error fetching GitHub user"
  const ReposFetchFailed: string := "Error fetching GitHub repos"
  const ConnectionDeleted: string := "GitHub connection deleted"

  /** GET /: the caller's GitHub profile. A 401 from GitHub unlinks the account. */
  function ShowConnection(accounts: AccountsTable, internalId: string, github: GitHubAnswer): (r: (Response, AccountsTable))
    ensures internalId !in accounts ==> r == (JsonError(404, AccountNotFound), accounts)
    ensures internalId in accounts && github.FetchFailed? ==> r == (JsonError(500, UserFetchFailed), accounts)
    // the only change ever made: GitHub rejects the token, the caller's row goes
    ensures r.1 != accounts <==> internalId in accounts && github.Answered? && github.status == 401
    ensures internalId in accounts && github.Answered? && github.status == 401 ==>
      r == (JsonError(401, Unauthorized), DeleteGitHubAccount(accounts, internalId))
    ensures internalId in accounts && github.Answered? && github.status != 401 ==>
      r == (Json(200, Data(GitHubJson(github.json)), []), accounts)
  {
    if internalId !in accounts then (JsonError(404, AccountNotFound), accounts)
    else match github
      case FetchFailed => (JsonError(500, UserFetchFailed), accounts)
      case Answered(status, data) =>
        if status == 401 then (JsonError(401, Unauthorized), DeleteGitHubAccount(accounts, internalId))
        else (Json(200, Data(GitHubJson(data)), []), accounts)
  }

  /** GET /repos: without a row, `githubAccount[0].accessToken` throws inside the try
      block, so the answer is the catch block's 500. */
  function ListRepos(accounts: AccountsTable, internalId: string, github: GitHubAnswer): (r: Response)
    ensures r.Json? && r.cookies == []
    ensures r.status == 200 <==> internalId in accounts && github.Answered?
    ensures r.status != 200 ==> r == JsonError(500, ReposFetchFailed)
    ensures r.status == 200 ==> r.body == Data(GitHubJson(github.json))
  {
    if internalId !in accounts then JsonError(500, ReposFetchFailed)
    else match github
      case FetchFailed => JsonError(500, ReposFetchFailed)
      case Answered(_, data) => Json(200, Data(GitHubJson(data)), [])
  }

  /** DELETE /: unlinks the caller's account, if any. */
  function Disconnect(accounts: AccountsTable, internalId: string): (r: (Response, AccountsTable))
    ensures r.0 == Json(200, Message(ConnectionDeleted), [])
    ensures internalId !in r.1
    ensures forall u :: u != internalId ==> (u in r.1 <==> u in accounts) && (u in r.1 ==> r.1[u] == accounts[u])
  {
    (Json(200, Message(ConnectionDeleted), []), DeleteGitHubAccount(accounts, internalId))
  }

  /** Unlinking twice answers the same and leaves the same table as unlinking once. */
  lemma {:induction false} DisconnectIdempotent(accounts: AccountsTable, internalId: string)
    ensures Disconnect(Disconnect(accounts, internalId).1, internalId) == Disconnect(accounts, internalId)
  {
    var once := Disconnect(accounts, internalId).1;
    var twice := Disconnect(once, internalId).1;
    assert twice.Keys == once.Keys;
    assert forall u :: u in twice ==> twice[u] == once[u];
    assert twice == once;
  }

  method GetConnection(db: Database, internalId: string, github: GitHubAnswer) returns (response: Response)
    requires db.Valid()
    modifies db
    ensures db.Valid() && db.users == old(db.users)
    ensures (response, db.githubAccounts) == ShowConnection(old(db.githubAccounts), internalId, github)
  {
    var githubAccount := db.SelectGitHubAccountRows(internalId);
    if |githubAccount| == 0 {
      return JsonError(404, AccountNotFound);
    }
    match github {
      case FetchFailed =>
        return JsonError(500, UserFetchFailed);
      case Answered(status, data) =>
        if status == 401 {
          db.DeleteGitHubAccountRows(internalId);
          return JsonError(401, Unauthorized);
        }
        return Json(200, Data(GitHubJson(data)), []);
    }
  }

  method GetRepos(db: Database, internalId: string, github: GitHubAnswer) returns (response: Response)
    ensures response == ListRepos(db.githubAccounts, internalId, github)
  {
    var githubAccount := db.SelectGitHubAccountRows(internalId);
    if |githubAccount| == 0 {
      // `githubAccount[0].accessToken` throws inside the try block
      return JsonError(500, ReposFetchFailed);
    }
    match github {
      case FetchFailed =>
        return JsonError(500, ReposFetchFailed);
      case Answered(_, data) =>
        return Json(200, Data(GitHubJson(data)), []);
    }
  }

  method DeleteConnection(db: Database, internalId: string) returns (response: Response)
    requires db.Valid()
    modifies db
    ensures db.Valid() && db.users == old(db.users)
    ensures (response, db.githubAccounts) == Disconnect(old(db.githubAccounts), internalId)
  {
    db.DeleteGitHubAccountRows(internalId);
    return Json(200, Message(ConnectionDeleted), []);
  }
}
