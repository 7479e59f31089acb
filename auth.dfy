/**
 The "unverified email takeover" hook that runs just before a new user row is
 inserted (databaseHooks.user.create.before). If some user with the
 candidate's exact email has not verified it, the first such user in store
 order (the model's choice for limit(1) without orderBy) is deleted, then every session and every account whose userId is that
 user's id. The candidate is handed back unchanged as `{ data: user }`.
 */
module Auth {
  import opened Schema
  import opened Db

  /** The user the sign-up flow is about to insert; the hook reads only its email. */
  datatype NewUser = NewUser(email: string, name: string, emailVerified: bool)

  /** The hook's return value `{ data: user }`. */
  datatype HookResult = HookResult(data: NewUser)

  /** The three deletes keyed on one user id. */
  function WithoutUser(t: Tables, userId: string): (rest: Tables)
  {
    Tables(DeleteWhereEq(t.users, UserIdOf, userId),
           DeleteWhereEq(t.sessions, SessionUserIdOf, userId),
           DeleteWhereEq(t.accounts, AccountUserIdOf, userId))
  }

  /** The tables after the hook has run for a candidate with this email. */
  function EvictUnverified(t: Tables, email: string): (after: Tables)
  {
    var existingUser := SelectUnverified(t.users, email);
    if |existingUser| > 0 then WithoutUser(t, existingUser[0].id) else t
  }

  /** The hook itself, over an injected store. */
  method UserCreateBefore(db: Store, user: NewUser) returns (r: HookResult)
    modifies db
    ensures r.data == user
    ensures db.Snapshot() == EvictUnverified(old(db.Snapshot()), user.email)
    ensures old(db.Valid()) ==> db.Valid()
  {
    ghost var before := db.Snapshot();
    var existingUser := db.FindUnverified(user.email);
    if |existingUser| > 0 {
      var userId := existingUser[0].id;
      db.DeleteUsers(userId);
      db.DeleteSessions(userId);
      db.DeleteAccounts(userId);
    }
    r := HookResult(user);
    EvictPreservesConsistency(before, user.email);
  }

  /** The hook leaves the store exactly as it was if and only if no user has
      the candidate's email unverified. */
  lemma EvictUnchangedIffNoMatch(t: Tables, email: string)
    ensures EvictUnverified(t, email) == t <==> NoUnverified(t.users, email)
  {
  }

  /** After an eviction the first matching user is gone, and so is every
      session and every account that referenced it. */
  lemma EvictRemovesFirstMatch(t: Tables, email: string, k: nat)
    requires k < |t.users| && IsUnverifiedWith(t.users[k], email)
    requires forall i :: 0 <= i < k ==> !IsUnverifiedWith(t.users[i], email)
    ensures t.users[k] !in EvictUnverified(t, email).users
    ensures forall i :: 0 <= i < |EvictUnverified(t, email).users| ==>
      EvictUnverified(t, email).users[i].id != t.users[k].id
    ensures forall i :: 0 <= i < |EvictUnverified(t, email).sessions| ==>
      EvictUnverified(t, email).sessions[i].userId != t.users[k].id
    ensures forall i :: 0 <= i < |EvictUnverified(t, email).accounts| ==>
      EvictUnverified(t, email).accounts[i].userId != t.users[k].id
  {
    SelectUnverifiedIsFirstMatch(t.users, email, k);
  }

  /** Nothing else changes: a row survives exactly when its id (for users) or
      userId (for sessions and accounts) differs from the evicted id, every
      copy of a surviving row survives, and the survivors keep their original
      order. */
  lemma EvictKeepsOtherRows(t: Tables, email: string, k: nat)
    requires k < |t.users| && IsUnverifiedWith(t.users[k], email)
    requires forall i :: 0 <= i < k ==> !IsUnverifiedWith(t.users[i], email)
    ensures forall i :: 0 <= i < |t.users| ==>
      (t.users[i] in EvictUnverified(t, email).users <==> t.users[i].id != t.users[k].id)
    ensures forall i :: 0 <= i < |t.sessions| ==>
      (t.sessions[i] in EvictUnverified(t, email).sessions <==> t.sessions[i].userId != t.users[k].id)
    ensures forall i :: 0 <= i < |t.accounts| ==>
      (t.accounts[i] in EvictUnverified(t, email).accounts <==> t.accounts[i].userId != t.users[k].id)
    ensures Subsequence(EvictUnverified(t, email).users, t.users)
    ensures Subsequence(EvictUnverified(t, email).sessions, t.sessions)
    ensures Subsequence(EvictUnverified(t, email).accounts, t.accounts)
    ensures forall u :: (multiset(EvictUnverified(t, email).users)[u] ==
      if u.id != t.users[k].id then multiset(t.users)[u] else 0)
    ensures forall s :: (multiset(EvictUnverified(t, email).sessions)[s] ==
      if s.userId != t.users[k].id then multiset(t.sessions)[s] else 0)
    ensures forall a :: (multiset(EvictUnverified(t, email).accounts)[a] ==
      if a.userId != t.users[k].id then multiset(t.accounts)[a] else 0)
  {
    SelectUnverifiedIsFirstMatch(t.users, email, k);
    var id := t.users[k].id;
    DeleteWhereEqKeepsOrder(t.users, UserIdOf, id);
    DeleteWhereEqKeepsOrder(t.sessions, SessionUserIdOf, id);
    DeleteWhereEqKeepsOrder(t.accounts, AccountUserIdOf, id);
    DeleteWhereEqKeepsCopies(t.users, UserIdOf, id);
    DeleteWhereEqKeepsCopies(t.sessions, SessionUserIdOf, id);
    DeleteWhereEqKeepsCopies(t.accounts, AccountUserIdOf, id);
  }

  /** With user ids a primary key, only the evicted row leaves the user table:
      every verified user, even one sharing the candidate's email, and every
      other user that does not match the where clause stays. */
  lemma EvictKeepsVerified(t: Tables, email: string)
    requires DistinctKeys(t.users, UserIdOf)
    ensures forall i :: 0 <= i < |t.users| && t.users[i].emailVerified ==>
      t.users[i] in EvictUnverified(t, email).users
    ensures forall i :: 0 <= i < |t.users| && !IsUnverifiedWith(t.users[i], email) ==>
      t.users[i] in EvictUnverified(t, email).users
  {
  }

  /** With user ids a primary key, one call removes exactly one user row when
      some user matches, even when several unverified users share the email,
      and none otherwise. */
  lemma EvictRemovesAtMostOneUser(t: Tables, email: string)
    requires DistinctKeys(t.users, UserIdOf)
    ensures |EvictUnverified(t, email).users| ==
      if NoUnverified(t.users, email) then |t.users| else |t.users| - 1
  {
    var existingUser := SelectUnverified(t.users, email);
    if existingUser != [] {
      var k :| 0 <= k < |t.users| && t.users[k] == existingUser[0];
      DeleteWhereEqShrinks(t.users, UserIdOf, existingUser[0].id, k);
      DeleteWhereEqOnKey(t.users, UserIdOf, existingUser[0].id);
    }
  }

  /** Once all three deletes have run, the tables are as consistent as before. */
  lemma EvictPreservesConsistency(t: Tables, email: string)
    ensures Consistent(t) ==> Consistent(EvictUnverified(t, email))
  {
    var existingUser := SelectUnverified(t.users, email);
    if Consistent(t) && existingUser != [] {
      var id := existingUser[0].id;
      var r := WithoutUser(t, id);
      DeleteWhereEqKeepsDistinct(t.users, UserIdOf, UserIdOf, id);
      OwnersSurvive(t.sessions, SessionUserIdOf, t.users, id);
      OwnersSurvive(t.accounts, AccountUserIdOf, t.users, id);
    }
  }

  /** Rows that do not reference the deleted user still reference a user
      that exists after the user delete. */
  lemma OwnersSurvive<R>(rows: seq<R>, owner: R -> string, users: seq<User>, id: string)
    requires OwnersExist(rows, owner, users)
    ensures OwnersExist(DeleteWhereEq(rows, owner, id), owner, DeleteWhereEq(users, UserIdOf, id))
  {
  }

  /** The deletes are separate steps. In a schema without foreign keys on
      session.userId, which this model assumes, a session of the evicted user
      references a user that no longer exists between the user delete and
      the session delete. */
  lemma PartialEvictionDangles(t: Tables, email: string, k: nat, s: nat)
    requires k < |t.users| && IsUnverifiedWith(t.users[k], email)
    requires forall i :: 0 <= i < k ==> !IsUnverifiedWith(t.users[i], email)
    requires s < |t.sessions| && t.sessions[s].userId == t.users[k].id
    ensures !OwnersExist(t.sessions, SessionUserIdOf, DeleteWhereEq(t.users, UserIdOf, t.users[k].id))
  {
  }

  /** When at most one user has the email unverified, a second call for the
      same candidate (without an insert in between) changes nothing. */
  lemma EvictIdempotentWhenSingleUnverified(t: Tables, email: string)
    requires forall i, j ::
      (0 <= i < |t.users| && 0 <= j < |t.users| &&
       IsUnverifiedWith(t.users[i], email) && IsUnverifiedWith(t.users[j], email)) ==> i == j
    ensures EvictUnverified(EvictUnverified(t, email), email) == EvictUnverified(t, email)
  {
  }

  /** An unverified user u1 with session s1 and account ac1 is reclaimed by a
      new sign-up with the same email: all three rows are gone; unrelated rows stay. */
  lemma TakeoverScenario()
    ensures EvictUnverified(
      Tables([User("u1", "a@x.com", false), User("u9", "z@x.com", false)],
             [Session("s1", "u1"), Session("s9", "u9")],
             [Account("ac1", "u1")]), "a@x.com")
      == Tables([User("u9", "z@x.com", false)], [Session("s9", "u9")], [])
  {
  }

  /** A verified user u2 is never evicted by a sign-up with its email. */
  lemma VerifiedScenario()
    ensures EvictUnverified(Tables([User("u2", "b@x.com", true)], [Session("s2", "u2")], []), "b@x.com")
      == Tables([User("u2", "b@x.com", true)], [Session("s2", "u2")], [])
  {
  }

  /** Email matching is exact: an unverified user whose email differs only in
      letter case is not evicted. */
  lemma CaseVariantScenario()
    ensures EvictUnverified(Tables([User("u1", "A@x.com", false)], [], []), "a@x.com")
      == Tables([User("u1", "A@x.com", false)], [], [])
  {
  }

  /** With two unverified users sharing an email, each call evicts only the
      first of them, so a second call is not a no-op. */
  lemma TwoUnverifiedScenario()
    ensures EvictUnverified(Tables([User("u1", "a@x.com", false), User("u3", "a@x.com", false)], [], []), "a@x.com")
      == Tables([User("u3", "a@x.com", false)], [], [])
    ensures EvictUnverified(Tables([User("u3", "a@x.com", false)], [], []), "a@x.com")
      == Tables([], [], [])
  {
  }

  /** The user delete is keyed on id alone: if a verified row shared the evicted
      row's id (which a primary key rules out), it would be deleted too. */
  lemma DuplicateIdScenario()
    ensures EvictUnverified(Tables([User("u1", "a@x.com", false), User("u1", "c@x.com", true)], [], []), "a@x.com")
      == Tables([], [], [])
  {
  }
}
