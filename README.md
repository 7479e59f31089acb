# Unverified-email takeover hook

A Dafny model of the one piece of logic in this Next.js / better-auth
template: the `databaseHooks.user.create.before` callback in
`src/lib/auth.ts`. Just before better-auth inserts a new user, the hook
looks for an existing user with the same email whose `emailVerified` is
false. If one exists, the hook deletes that user row, then every session and
every account whose `userId` is its id. It then hands the candidate back as
`{ data: user }`. An abandoned, unverified sign-up therefore cannot keep an
email address forever, while a verified account is never touched.

Layout:

- `schema.dfy` (module `Schema`): the user, session and account rows and the
  meaning of the two query forms the hook issues. `SelectUnverified` is
  `select … where email = e and emailVerified = false limit 1`.
  `DeleteWhereEq` is `delete(table).where(eq(column, v))`. A table is a
  sequence of rows in store order. The model takes `limit(1)` to return the
  first match in that order (see "## Left out").
- `db.dfy` (module `Db`): `Store`, an in-memory stand-in for the drizzle `db`
  handle. It holds the three tables as `seq` fields and has one method per
  query the hook issues. `Consistent` states table integrity: user ids are
  a primary key, and sessions and accounts reference existing users. No
  foreign key enforces the second part, so a single delete can break it.
- `auth.dfy` (module `Auth`): the hook `UserCreateBefore` as a method over an
  injected `Store`, applying the three deletes step by step in source order.
  It is proved against the specification function `EvictUnverified`, and the
  lemmas state the hook's properties about that function.

Points where the hook's behaviour is easy to misread:

- There is no transaction. The code deletes the user row first, then the
  sessions, then the accounts, as three separate awaits. In a schema
  without foreign keys on `session.userId` and `account.userId`, which this
  model assumes, `PartialEvictionDangles` shows that between the first and
  second delete the evicted user's sessions reference a user that no longer
  exists.
- Running the hook twice is a no-op only while at most one unverified user
  has the email (`EvictIdempotentWhenSingleUnverified`). With two, the second
  call evicts the second (`TwoUnverifiedScenario`).
- Nothing checks that the email is non-empty, so the model has no such
  precondition.
- The user delete is keyed on `id` alone. "Verified users untouched" and "at
  most one user row removed" therefore rely on ids being a primary key
  (`DistinctKeys`). `DuplicateIdScenario` shows what would happen without one.
  The schema file is not part of this model; the primary key is taken from
  better-auth's user table.

## Model

| member | source | states |
|---|---|---|
| `Schema.SelectUnverified` | src/lib/auth.ts:55-64 | at most one row; it is empty exactly when no user has this exact email with emailVerified false; a returned row is a user of the table that matches |
| `Schema.SelectUnverifiedIsFirstMatch` | src/lib/auth.ts:64 | limit(1) returns the match at the smallest index in store order |
| `Schema.DeleteWhereEq` | src/lib/auth.ts:69-76 | a delete keeps exactly the rows whose compared column differs from the value, and never grows the table |
| `Schema.DeleteWhereEqKeepsOrder` | src/lib/auth.ts:69-76 | the surviving rows are a subsequence of the table: unchanged and in their original order |
| `Schema.DeleteWhereEqAppend` | src/lib/auth.ts:69-76 | a delete works row by row: deleting from a + b is the delete of a followed by the delete of b |
| `Schema.DeleteWhereEqNoMatch` | src/lib/auth.ts:69-76 | a delete whose where clause matches no row leaves the table identical |
| `Schema.DeleteWhereEqShrinks` | src/lib/auth.ts:69-76 | a delete whose where clause matches some row makes the table strictly shorter |
| `Schema.DeleteWhereEqOnKey` | src/lib/auth.ts:69 | on a key column a delete removes at most one row |
| `Schema.DeleteWhereEqKeepsCopies` | src/lib/auth.ts:69-76 | counted with multiplicity, a delete keeps every copy of each non-matching row and no copy of a matching one |
| `Schema.DeleteWhereEqKeepsDistinct` | src/lib/auth.ts:69-76 | a delete keeps a primary-key column free of duplicates |
| `Db.Store.constructor` | src/lib/auth.ts:7 | the store starts with the given user, session and account tables |
| `Db.Store.FindUnverified` | src/lib/auth.ts:55-64 | the query returns the limit(1) selection over the current user table, so at most one matching user of the table |
| `Db.Store.DeleteUsers` | src/lib/auth.ts:69 | the user table loses exactly the rows with that id; sessions and accounts are unchanged |
| `Db.Store.DeleteSessions` | src/lib/auth.ts:71-73 | the session table loses exactly the rows with that userId; the other tables are unchanged |
| `Db.Store.DeleteAccounts` | src/lib/auth.ts:74-76 | the account table loses exactly the rows with that userId; the other tables are unchanged |
| `Auth.UserCreateBefore` | src/lib/auth.ts:53-81 | returns `{ data: user }` with the candidate itself; the new tables are `EvictUnverified` of the old ones; store integrity is preserved |
| `Auth.EvictUnchangedIffNoMatch` | src/lib/auth.ts:55-66 | the store is left exactly as it was if and only if no user has the candidate's email unverified |
| `Auth.EvictRemovesFirstMatch` | src/lib/auth.ts:64-76 | after an eviction the first match is absent, no user keeps its id, and no session or account with that userId remains |
| `Auth.EvictKeepsOtherRows` | src/lib/auth.ts:69-76 | a user, session or account survives exactly when its id / userId differs from the evicted id, with all its copies, and survivors keep their order |
| `Auth.EvictKeepsVerified` | src/lib/auth.ts:59-62 | with ids a primary key, every verified user, even one with the candidate's email, and every non-matching user survives |
| `Auth.EvictRemovesAtMostOneUser` | src/lib/auth.ts:64-69 | with ids a primary key, exactly one user row goes when a match exists, even if several unverified users share the email, and none otherwise |
| `Auth.EvictPreservesConsistency` | src/lib/auth.ts:66-77 | once all three deletes ran, primary key and reference integrity hold if they held before |
| `Auth.PartialEvictionDangles` | src/lib/auth.ts:69-73 | with no foreign key on session.userId, after only the user delete a session of the evicted user references a missing user (no transaction) |
| `Auth.EvictIdempotentWhenSingleUnverified` | src/lib/auth.ts:55-77 | with at most one unverified user for the email, a second call changes nothing |
| `Auth.TakeoverScenario` | src/lib/auth.ts:53-81 | unverified u1 with session s1 and account ac1 is removed with both; unrelated rows stay |
| `Auth.VerifiedScenario` | src/lib/auth.ts:59-62 | a verified user with the candidate's email and its session stay |
| `Auth.CaseVariantScenario` | src/lib/auth.ts:60 | an unverified user whose email differs only in letter case is not evicted |
| `Auth.TwoUnverifiedScenario` | src/lib/auth.ts:64-69 | with two unverified users sharing the email, each call evicts only the first one left |
| `Auth.DuplicateIdScenario` | src/lib/auth.ts:69 | the user delete is keyed on id alone, so any row sharing the evicted id would go too |

## Left out

- The better-auth configuration (social providers, client ids and secrets from the environment, verification, sign-in and account-linking flags, `src/lib/auth.ts:10-47`): declarative settings for a library that is not part of this model.
- Email dispatch through `sendEmailVerification` and `sendPasswordResetEmail` (`src/lib/auth.ts:13-15`, `33-35`): fire-and-forget I/O to external services.
- The drizzle ORM, the Postgres adapter and the schema module (`src/lib/auth.ts:2`, `7-8`, `37-40`): only the observable select and delete semantics are modelled, on in-memory tables. Any `onDelete` cascade the schema may declare is not modelled.
- Storage failures: a failing query or delete, and with it any rollback. The code has no transaction, so the model claims none.
- The later insert of the candidate, the unique-email constraint on it, and races between simultaneous sign-ups: all are enforced by the database outside the hook.
- async/await: the hook is a synchronous method. The candidate's fields other than email, name and emailVerified are not modelled because the hook does not read them.
- `DeleteUsers` and `PartialEvictionDangles`: foreign keys from `session.userId` and `account.userId` to `user.id` are not modelled. The schema file is not part of this model. With an `onDelete: "cascade"` key, the user delete at `src/lib/auth.ts:69` would already remove the sessions and accounts, and the deletes at lines 71-76 would find nothing. The final state is the same either way, because the cascade removes exactly the rows `WithoutUser` removes. Only the in-between state that `PartialEvictionDangles` describes would not be observable. With a non-cascading key, the user delete would fail instead.
- `SelectUnverifiedIsFirstMatch`: the select at `src/lib/auth.ts:55-64` has no `orderBy`, so the database may return any matching row. The model fixes the first match in sequence order. `EvictRemovesFirstMatch`, `EvictKeepsOtherRows` and `TwoUnverifiedScenario` depend on that choice. `EvictUnchangedIffNoMatch`, `EvictRemovesAtMostOneUser`, `EvictKeepsVerified`, `EvictPreservesConsistency` and `EvictIdempotentWhenSingleUnverified` hold whichever match is chosen, but they are proved only for this choice.
