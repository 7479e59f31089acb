/**
 Rows of the three tables the sign-up hook touches (user, session, account)
 and the meaning of the two query forms it issues against them:

   select().from(user).where(and(eq(email, e), eq(emailVerified, false))).limit(1)
   delete(table).where(eq(column, v))

 A table is a sequence of rows in store order. The select has no orderBy,
 so which match limit(1) returns is the database's choice; this model fixes
 it as the first match in sequence order.
 */
module Schema {

  datatype User = User(id: string, email: string, emailVerified: bool)
  datatype Session = Session(id: string, userId: string)
  datatype Account = Account(id: string, userId: string)

  /** Column accessors, passed to DeleteWhereEq as the column to compare. */
  function UserIdOf(u: User): (id: string) { u.id }
  function SessionUserIdOf(s: Session): (userId: string) { s.userId }
  function AccountUserIdOf(a: Account): (userId: string) { a.userId }

  /** The where clause of the hook's select: exact email equality (no case
      folding, no trimming) and emailVerified false. */
  predicate IsUnverifiedWith(u: User, email: string)
  {
    u.email == email && !u.emailVerified
  }

  /** No row matches the hook's where clause. */
  predicate NoUnverified(users: seq<User>, email: string)
  {
    forall i :: 0 <= i < |users| ==> !IsUnverifiedWith(users[i], email)
  }

  /** The select with limit(1): at most one row, the first match in store order. */
  function SelectUnverified(users: seq<User>, email: string): (rows: seq<User>)
    ensures |rows| <= 1
    ensures rows == [] <==> NoUnverified(users, email)
    ensures rows != [] ==> rows[0] in users && IsUnverifiedWith(rows[0], email)
  {
    if users == [] then []
    else if IsUnverifiedWith(users[0], email) then [users[0]]
    else
      var rest := SelectUnverified(users[1..], email);
      assert forall i :: 1 <= i < |users| ==> users[i] == users[1..][i - 1];
      rest
  }

  /** limit(1) picks the first matching row: the match at the smallest index. */
  lemma {:induction false} SelectUnverifiedIsFirstMatch(users: seq<User>, email: string, k: nat)
    requires k < |users| && IsUnverifiedWith(users[k], email)
    requires forall i :: 0 <= i < k ==> !IsUnverifiedWith(users[i], email)
    ensures SelectUnverified(users, email) == [users[k]]
  {
    if k > 0 {
      assert !IsUnverifiedWith(users[0], email);
      assert forall i :: 0 <= i < k - 1 ==> users[1..][i] == users[i + 1];
      SelectUnverifiedIsFirstMatch(users[1..], email, k - 1);
    }
  }

  /** delete(table).where(eq(col, v)): every row whose column equals v goes,
      every other row stays. */
  function DeleteWhereEq<R(==)>(rows: seq<R>, col: R -> string, v: string): (kept: seq<R>)
    ensures |kept| <= |rows|
    ensures forall i :: 0 <= i < |kept| ==> kept[i] in rows && col(kept[i]) != v
    ensures forall i :: 0 <= i < |rows| && col(rows[i]) != v ==> rows[i] in kept
  {
    if rows == [] then []
    else if col(rows[0]) == v then DeleteWhereEq(rows[1..], col, v)
    else [rows[0]] + DeleteWhereEq(rows[1..], col, v)
  }

  /** No two rows share a value in column col (a primary key). */
  predicate DistinctKeys<R>(rows: seq<R>, col: R -> string)
  {
    forall i, j :: 0 <= i < j < |rows| ==> col(rows[i]) != col(rows[j])
  }

  /** a is a subsequence of b: a's rows occur in b, unchanged and in the same order. */
  predicate Subsequence<R(==)>(a: seq<R>, b: seq<R>)
    decreases |b|
  {
    if a == [] then true
    else if b == [] then false
    else if a[0] == b[0] then Subsequence(a[1..], b[1..])
    else Subsequence(a, b[1..])
  }

  /** The rows a delete keeps stay in their original order. */
  lemma {:induction false} DeleteWhereEqKeepsOrder<R>(rows: seq<R>, col: R -> string, v: string)
    ensures Subsequence(DeleteWhereEq(rows, col, v), rows)
  {
    if rows != [] {
      var rest := DeleteWhereEq(rows[1..], col, v);
      DeleteWhereEqKeepsOrder(rows[1..], col, v);
      if col(rows[0]) == v {
        SubsequenceOfTail(rest, rows);
      } else {
        assert ([rows[0]] + rest)[1..] == rest;
      }
    }
  }

  /** Dropping the first row of b keeps a subsequence of b[1..] a subsequence of b. */
  lemma {:induction false} SubsequenceOfTail<R>(a: seq<R>, b: seq<R>)
    requires b != [] && Subsequence(a, b[1..])
    ensures Subsequence(a, b)
    decreases |b|, 1
  {
    if a != [] && a[0] == b[0] {
      SubsequenceDropHead(a, b[1..]);
    }
  }

  /** Dropping the first row of a keeps it a subsequence of c. */
  lemma {:induction false} SubsequenceDropHead<R>(a: seq<R>, c: seq<R>)
    requires a != [] && Subsequence(a, c)
    ensures Subsequence(a[1..], c)
    decreases |c|, 2
  {
    if a[0] == c[0] {
      SubsequenceOfTail(a[1..], c);
    } else {
      SubsequenceDropHead(a, c[1..]);
      SubsequenceOfTail(a[1..], c);
    }
  }

  /** A delete works row by row: deleting from a concatenation is the
      concatenation of the deletes. */
  lemma {:induction false} DeleteWhereEqAppend<R>(a: seq<R>, b: seq<R>, col: R -> string, v: string)
    ensures DeleteWhereEq(a + b, col, v) == DeleteWhereEq(a, col, v) + DeleteWhereEq(b, col, v)
  {
    if a != [] {
      assert (a + b)[0] == a[0];
      assert (a + b)[1..] == a[1..] + b;
      DeleteWhereEqAppend(a[1..], b, col, v);
    } else {
      assert a + b == b;
    }
  }

  /** A delete whose where clause matches no row leaves the table as it was. */
  lemma {:induction false} DeleteWhereEqNoMatch<R>(rows: seq<R>, col: R -> string, v: string)
    requires forall i :: 0 <= i < |rows| ==> col(rows[i]) != v
    ensures DeleteWhereEq(rows, col, v) == rows
  {
    if rows != [] {
      assert forall i :: 0 <= i < |rows| - 1 ==> rows[1..][i] == rows[i + 1];
      DeleteWhereEqNoMatch(rows[1..], col, v);
      assert [rows[0]] + rows[1..] == rows;
    }
  }

  /** A delete whose where clause matches some row shrinks the table. */
  lemma {:induction false} DeleteWhereEqShrinks<R>(rows: seq<R>, col: R -> string, v: string, k: nat)
    requires k < |rows| && col(rows[k]) == v
    ensures |DeleteWhereEq(rows, col, v)| < |rows|
  {
    if col(rows[0]) != v {
      assert rows[1..][k - 1] == rows[k];
      DeleteWhereEqShrinks(rows[1..], col, v, k - 1);
    }
  }

  /** On a key column, a delete removes at most one row. */
  lemma {:induction false} DeleteWhereEqOnKey<R>(rows: seq<R>, col: R -> string, v: string)
    requires DistinctKeys(rows, col)
    ensures |rows| - 1 <= |DeleteWhereEq(rows, col, v)|
  {
    if rows != [] {
      assert DistinctKeys(rows[1..], col) by {
        forall i, j | 0 <= i < j < |rows| - 1
          ensures col(rows[1..][i]) != col(rows[1..][j])
        {
          assert rows[1..][i] == rows[i + 1] && rows[1..][j] == rows[j + 1];
        }
      }
      if col(rows[0]) == v {
        assert forall i :: 0 <= i < |rows| - 1 ==> col(rows[1..][i]) != v by {
          forall i | 0 <= i < |rows| - 1 ensures col(rows[1..][i]) != v {
            assert rows[1..][i] == rows[i + 1];
          }
        }
        DeleteWhereEqNoMatch(rows[1..], col, v);
      } else {
        DeleteWhereEqOnKey(rows[1..], col, v);
      }
    }
  }

  /** Deleting rows keeps a key column free of duplicates. */
  lemma {:induction false} DeleteWhereEqKeepsDistinct<R>(rows: seq<R>, key: R -> string, col: R -> string, v: string)
    requires DistinctKeys(rows, key)
    ensures DistinctKeys(DeleteWhereEq(rows, col, v), key)
  {
    if rows != [] {
      var tail := rows[1..];
      assert DistinctKeys(tail, key) by {
        forall i, j | 0 <= i < j < |tail|
          ensures key(tail[i]) != key(tail[j])
        {
          assert tail[i] == rows[i + 1] && tail[j] == rows[j + 1];
        }
      }
      DeleteWhereEqKeepsDistinct(tail, key, col, v);
      var rest := DeleteWhereEq(tail, col, v);
      if col(rows[0]) != v {
        var kept := [rows[0]] + rest;
        forall i, j | 0 <= i < j < |kept|
          ensures key(kept[i]) != key(kept[j])
        {
          if i == 0 {
            assert kept[j] == rest[j - 1] && kept[j] in tail;
            var m :| 0 <= m < |tail| && tail[m] == kept[j];
            assert rows[m + 1] == kept[j];
          } else {
            assert kept[i] == rest[i - 1] && kept[j] == rest[j - 1];
          }
        }
      }
    }
  }

  /** A delete keeps every copy of every row whose column differs from v and
      no copy of any other row: counted with multiplicity, the kept rows are
      exactly the non-matching rows. */
  lemma {:induction false} DeleteWhereEqKeepsCopies<R>(rows: seq<R>, col: R -> string, v: string)
    ensures forall x :: (multiset(DeleteWhereEq(rows, col, v))[x] ==
      if col(x) != v then multiset(rows)[x] else 0)
  {
    if rows != [] {
      DeleteWhereEqKeepsCopies(rows[1..], col, v);
      assert rows == [rows[0]] + rows[1..];
      assert multiset(rows) == multiset{rows[0]} + multiset(rows[1..]);
      if col(rows[0]) != v {
        var rest := DeleteWhereEq(rows[1..], col, v);
        assert multiset([rows[0]] + rest) == multiset{rows[0]} + multiset(rest);
      }
    }
  }
}
