/**
 * The two tables of src/db/schema.ts with the constraints Postgres enforces on them,
 * and the row operations the handlers perform (select, insert, insert-or-update,
 * delete). Every column is `notNull` except `github_accounts.userId`, so every field
 * below is always present; rows with a null `userId` are never written by the handlers.
 */
module Schema {
  import opened Wrappers

  /** A row of `users`. Timestamps are the database clock in whole units. */
  datatype User = User(
    address: string,
    displayName: string,
    internalId: string,
    createdAt: int,
    updatedAt: int)

  /** A row of `github_accounts`. */
  datatype GitHubAccount = GitHubAccount(
    id: string,
    userId: string,
    githubId: string,
    accessToken: string,
    createdAt: int,
    updatedAt: int)

  /** `users`, keyed by its primary key `address`. */
  type UsersTable = map<string, User>

  /** `github_accounts`, keyed by its unique column `userId`. */
  type AccountsTable = map<string, GitHubAccount>

  function InternalIds(users: UsersTable): set<string>
  {
    set a | a in users :: users[a].internalId
  }

  function GitHubIds(accounts: AccountsTable): set<string>
  {
    set u | u in accounts :: accounts[u].githubId
  }

  function AccountIds(accounts: AccountsTable): set<string>
  {
    set u | u in accounts :: accounts[u].id
  }

  /** `address` is the primary key and `internalId` is unique. */
  ghost predicate UsersValid(users: UsersTable) {
    && (forall a :: a in users ==> users[a].address == a)
    && (forall a, b :: a in users && b in users && a != b ==> users[a].internalId != users[b].internalId)
  }

  /** `userId` is unique and references `users.internalId`; `githubId` is unique;
      `id` is the primary key. */
  ghost predicate AccountsValid(accounts: AccountsTable, users: UsersTable) {
    && (forall u :: u in accounts ==> accounts[u].userId == u && u in InternalIds(users))
    && (forall u, v :: u in accounts && v in accounts && u != v ==> accounts[u].githubId != accounts[v].githubId)
    && (forall u, v :: u in accounts && v in accounts && u != v ==> accounts[u].id != accounts[v].id)
  }

  /** A valid `users` table has exactly as many internal ids as rows. */
  lemma UsersValidCount(users: UsersTable)
    requires UsersValid(users)
    ensures |InternalIds(users)| == |users|
  {
    var column := map a | a in users :: users[a].internalId;
    DistinctValuesCount(column);
    assert column.Keys == users.Keys;
    assert |column| == |column.Keys| && |users| == |users.Keys|;
    forall y | y in InternalIds(users) ensures y in column.Values {
      var a :| a in users && users[a].internalId == y;
      assert column[a] == y;
    }
    assert column.Values == InternalIds(users);
  }

  /** In a valid `github_accounts` table every linked user exists, and there are
      exactly as many GitHub ids and as many row ids as rows. */
  lemma AccountsValidCount(accounts: AccountsTable, users: UsersTable)
    requires AccountsValid(accounts, users)
    ensures accounts.Keys <= InternalIds(users)
    ensures |GitHubIds(accounts)| == |accounts| && |AccountIds(accounts)| == |accounts|
  {
    var githubColumn := map u | u in accounts :: accounts[u].githubId;
    DistinctValuesCount(githubColumn);
    assert githubColumn.Keys == accounts.Keys;
    assert |githubColumn| == |githubColumn.Keys| && |accounts| == |accounts.Keys|;
    forall y | y in GitHubIds(accounts) ensures y in githubColumn.Values {
      var u :| u in accounts && accounts[u].githubId == y;
      assert githubColumn[u] == y;
    }
    assert githubColumn.Values == GitHubIds(accounts);
    var idColumn := map u | u in accounts :: accounts[u].id;
    DistinctValuesCount(idColumn);
    assert idColumn.Keys == accounts.Keys;
    assert |idColumn| == |idColumn.Keys|;
    forall y | y in AccountIds(accounts) ensures y in idColumn.Values {
      var u :| u in accounts && accounts[u].id == y;
      assert idColumn[u] == y;
    }
    assert idColumn.Values == AccountIds(accounts);
  }

  /** A column whose values are pairwise distinct over the rows has as many distinct
      values as there are rows. */
  lemma {:induction false} DistinctValuesCount(column: map<string, string>)
    requires forall a, b :: a in column && b in column && a != b ==> column[a] != column[b]
    ensures |column.Values| == |column|
    decreases |column|
  {
    if |column| == 0 {
      assert column == map[];
    } else {
      var k :| k in column;
      var rest := column - {k};
      assert rest.Keys == column.Keys - {k};
      DistinctValuesCount(rest);
      forall y | y in column.Values ensures y in rest.Values || y == column[k] {
        var a :| a in column && column[a] == y;
        if a != k { assert rest[a] == y; }
      }
      forall y | y in rest.Values ensures y in column.Values {
        var a :| a in rest && rest[a] == y;
        assert column[a] == y;
      }
      assert column.Values == rest.Values + {column[k]};
      assert column[k] !in rest.Values;
    }
  }

  ghost predicate DbValid(users: UsersTable, accounts: AccountsTable) {
    UsersValid(users) && AccountsValid(accounts, users)
  }

  /** `users` only grows: no row is removed or changed. */
  ghost predicate UsersExtend(before: UsersTable, after: UsersTable) {
    forall a :: a in before ==> a in after && after[a] == before[a]
  }

  /** `select().from(users).where(eq(users.address, address)).limit(1)` */
  function SelectUser(users: UsersTable, address: string): (rows: seq<User>)
    ensures |rows| <= 1
    ensures |rows| == 1 <==> address in users
    ensures address in users ==> rows == [users[address]]
    ensures UsersValid(users) ==> forall k :: 0 <= k < |rows| ==> rows[k].address == address
  {
    if address in users then [users[address]] else []
  }

  /** `insert(users).values(row)`: fails on a duplicate `address` or `internalId`. */
  function InsertUser(users: UsersTable, row: User): (r: Option<UsersTable>)
    ensures r.None? <==> row.address in users || row.internalId in InternalIds(users)
    ensures r.Some? ==> r.value.Keys == users.Keys + {row.address} && r.value[row.address] == row
    ensures r.Some? ==> UsersExtend(users, r.value)
    ensures r.Some? && UsersValid(users) ==> UsersValid(r.value)
  {
    if row.address in users || row.internalId in InternalIds(users) then None
    else Some(users[row.address := row])
  }

  /** A table that stays valid against `users` stays valid against any extension of it. */
  lemma AccountsValidUnderExtension(accounts: AccountsTable, users: UsersTable, users': UsersTable)
    requires AccountsValid(accounts, users) && UsersExtend(users, users')
    ensures AccountsValid(accounts, users')
  {
    forall u | u in accounts
      ensures u in InternalIds(users')
    {
      var a :| a in users && users[a].internalId == u;
      assert users'[a].internalId == u;
    }
  }

  /** `insert(githubAccounts).values({userId, githubId, accessToken})
      .onConflictDoUpdate({target: userId, set: {accessToken}})`.
      With a row for `userId` only its `accessToken` is replaced. Otherwise a new
      row is inserted, and the insert fails when `userId` names no user, when
      `githubId` is already linked or when the generated `id` is taken. */
  function UpsertGitHubAccount(users: UsersTable, accounts: AccountsTable, userId: string,
                               githubId: string, accessToken: string,
                               freshId: string, now: int): (r: Option<AccountsTable>)
    ensures userId in accounts ==> r == Some(accounts[userId := accounts[userId].(accessToken := accessToken)])
    ensures userId !in accounts ==>
      (r.None? <==> userId !in InternalIds(users) || githubId in GitHubIds(accounts) || freshId in AccountIds(accounts))
    ensures userId !in accounts && r.Some? ==>
      r.value == accounts[userId := GitHubAccount(freshId, userId, githubId, accessToken, now, now)]
    ensures r.Some? ==> userId in r.value && r.value[userId].accessToken == accessToken
    ensures r.Some? && AccountsValid(accounts, users) ==> AccountsValid(r.value, users)
  {
    if userId in accounts then
      Some(accounts[userId := accounts[userId].(accessToken := accessToken)])
    else if userId !in InternalIds(users) || githubId in GitHubIds(accounts) || freshId in AccountIds(accounts) then
      None
    else
      Some(accounts[userId := GitHubAccount(freshId, userId, githubId, accessToken, now, now)])
  }

  /** `delete(githubAccounts).where(eq(githubAccounts.userId, userId))` */
  function DeleteGitHubAccount(accounts: AccountsTable, userId: string): (r: AccountsTable)
    ensures userId !in r && r.Keys == accounts.Keys - {userId}
    ensures forall u :: u in r ==> r[u] == accounts[u]
  {
    accounts - {userId}
  }

  /** The Postgres database: the two tables, updated in place. */
  class Database {
    var users: UsersTable
    var githubAccounts: AccountsTable

    ghost predicate Valid()
      reads this
    {
      DbValid(users, githubAccounts)
    }

    constructor ()
      ensures Valid() && users == map[] && githubAccounts == map[]
    {
      users := map[];
      githubAccounts := map[];
    }

    method SelectUserRows(address: string) returns (rows: seq<User>)
      ensures rows == SelectUser(users, address)
    {
      if address in users {
        rows := [users[address]];
      } else {
        rows := [];
      }
    }

    /** `insert(users).values(row).returning()`: the inserted row, or nothing when
        the insert violates a constraint (the driver then throws). */
    method InsertUserRow(row: User) returns (inserted: Option<User>)
      requires Valid()
      modifies this
      ensures Valid()
      ensures inserted.Some? <==> InsertUser(old(users), row).Some?
      ensures inserted.Some? ==> inserted.value == row
      ensures users == InsertUser(old(users), row).GetOr(old(users))
      ensures githubAccounts == old(githubAccounts)
    {
      var r := InsertUser(users, row);
      if r.Some? {
        AccountsValidUnderExtension(githubAccounts, users, r.value);
        users := r.value;
        inserted := Some(row);
      } else {
        inserted := None;
      }
    }

    method SelectGitHubAccountRows(userId: string) returns (rows: seq<GitHubAccount>)
      ensures rows == if userId in githubAccounts then [githubAccounts[userId]] else []
    {
      if userId in githubAccounts {
        rows := [githubAccounts[userId]];
      } else {
        rows := [];
      }
    }

    /** The insert-or-update of the linking callback; `ok` is false when the
        statement violates a constraint (the driver then throws). */
    method UpsertGitHubAccountRow(userId: string, githubId: string, accessToken: string,
                                  freshId: string, now: int) returns (ok: bool)
      requires Valid()
      modifies this
      ensures Valid()
      ensures ok <==> UpsertGitHubAccount(old(users), old(githubAccounts), userId, githubId, accessToken, freshId, now).Some?
      ensures githubAccounts ==
        UpsertGitHubAccount(old(users), old(githubAccounts), userId, githubId, accessToken, freshId, now).GetOr(old(githubAccounts))
      ensures users == old(users)
    {
      var r := UpsertGitHubAccount(users, githubAccounts, userId, githubId, accessToken, freshId, now);
      ok := r.Some?;
      if ok {
        githubAccounts := r.value;
      }
    }

    method DeleteGitHubAccountRows(userId: string)
      requires Valid()
      modifies this
      ensures Valid()
      ensures githubAccounts == DeleteGitHubAccount(old(githubAccounts), userId)
      ensures users == old(users)
    {
      githubAccounts := DeleteGitHubAccount(githubAccounts, userId);
    }
  }
}
