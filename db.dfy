/**
 An in-memory stand-in for the database handle the hook queries: the user,
 session and account tables as sequences of rows, with one method per query
 the hook issues. Each delete is its own step; nothing groups them into a
 transaction.
 */
module Db {
  import opened Schema

  /** The contents of the three tables at one moment. */
  datatype Tables = Tables(users: seq<User>, sessions: seq<Session>, accounts: seq<Account>)

  /** Every row of `rows` names, in column `owner`, a user that exists. */
  predicate OwnersExist<R>(rows: seq<R>, owner: R -> string, users: seq<User>)
  {
    forall i :: 0 <= i < |rows| ==> exists j :: 0 <= j < |users| && users[j].id == owner(rows[i])
  }

  /** Integrity of the tables: user ids are a primary key and sessions and
      accounts reference existing users. No foreign key enforces the second
      part in this model: a delete is never refused or cascaded, so a step
      can leave a session or account without its user. */
  predicate Consistent(t: Tables)
  {
    && DistinctKeys(t.users, UserIdOf)
    && OwnersExist(t.sessions, SessionUserIdOf, t.users)
    && OwnersExist(t.accounts, AccountUserIdOf, t.users)
  }

  class Store {
    var users: seq<User>
    var sessions: seq<Session>
    var accounts: seq<Account>

    constructor (users: seq<User>, sessions: seq<Session>, accounts: seq<Account>)
      ensures this.users == users && this.sessions == sessions && this.accounts == accounts
    {
      this.users := users;
      this.sessions := sessions;
      this.accounts := accounts;
    }

    function Snapshot(): Tables
      reads this
    {
      Tables(users, sessions, accounts)
    }

    ghost predicate Valid()
      reads this
    {
      Consistent(Snapshot())
    }

    /** select from user where email = e and emailVerified = false limit 1 */
    method FindUnverified(email: string) returns (rows: seq<User>)
      ensures rows == SelectUnverified(users, email)
    {
      rows := SelectUnverified(users, email);
    }

    /** delete from user where id = userId */
    method DeleteUsers(userId: string)
      modifies this
      ensures users == DeleteWhereEq(old(users), UserIdOf, userId)
      ensures sessions == old(sessions) && accounts == old(accounts)
    {
      users := DeleteWhereEq(users, UserIdOf, userId);
    }

    /** delete from session where userId = userId */
    method DeleteSessions(userId: string)
      modifies this
      ensures sessions == DeleteWhereEq(old(sessions), SessionUserIdOf, userId)
      ensures users == old(users) && accounts == old(accounts)
    {
      sessions := DeleteWhereEq(sessions, SessionUserIdOf, userId);
    }

    /** delete from account where userId = userId */
    method DeleteAccounts(userId: string)
      modifies this
      ensures accounts == DeleteWhereEq(old(accounts), AccountUserIdOf, userId)
      ensures users == old(users) && sessions == old(sessions)
    {
      accounts := DeleteWhereEq(accounts, AccountUserIdOf, userId);
    }
  }
}
