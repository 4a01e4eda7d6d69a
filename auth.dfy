/** The account table of `src/auth.rs`: IMAP accounts keyed by their email
    address, stored in the `accounts` table of the same SQLite file. The
    table is the state of an `AccountStore` object; each Rust function is a
    method on it. */
module Auth {
  import opened Storage

  /** `u16`, the type of `imap_port`. */
  newtype Port = x: int | 0 <= x < 0x1_0000

  /** The `Account` record the application works with. */
  datatype Account = Account(
    email: string,
    imapHost: string,
    imapPort: Port,
    password: Option<string>,
    isDemo: bool)

  /** A row of the `accounts` table: `is_demo` is an INTEGER column. */
  datatype AccountRow = AccountRow(
    email: string,
    imapHost: string,
    imapPort: Port,
    password: Option<string>,
    isDemo: int)

  /** The errors of `save_password` and `get_password`, which the source
      reports as strings: "Account not found", "No password found", or the
      text of the SQLite error. */
  datatype AuthError =
    | AccountNotFound
    | NoPasswordFound
    | Sql(cause: StorageError)

  /** The row `save_account` writes: `is_demo` becomes 1 or 0. Reading it
      back gives the same account. */
  function ToRow(a: Account): (r: AccountRow)
    ensures r.isDemo == 0 || r.isDemo == 1
    ensures FromRow(r) == a
  {
    AccountRow(a.email, a.imapHost, a.imapPort, a.password, if a.isDemo then 1 else 0)
  }

  /** The account `get_accounts` builds from a row: `is_demo` is true
      exactly when the stored integer is 1. A row whose flag is 0 or 1 is
      recovered from the account. */
  function FromRow(row: AccountRow): (r: Account)
    ensures row.isDemo == 0 || row.isDemo == 1 ==>
      row == AccountRow(r.email, r.imapHost, r.imapPort, r.password, if r.isDemo then 1 else 0)
  {
    Account(row.email, row.imapHost, row.imapPort, row.password, row.isDemo == 1)
  }

  /** No email appears in two rows: `email` is the PRIMARY KEY. */
  predicate DistinctEmails(rows: seq<AccountRow>) {
    forall i, j :: 0 <= i < j < |rows| ==> rows[i].email != rows[j].email
  }

  function Emails(rows: seq<AccountRow>): set<string> {
    set row | row in rows :: row.email
  }

  /** The rows whose email is not `email`, in table order (see
      `WithoutAppend`). */
  function Without(rows: seq<AccountRow>, email: string): (r: seq<AccountRow>)
    ensures |r| <= |rows|
    ensures forall x :: x in r <==> x in rows && x.email != email
  {
    if rows == [] then []
    else
      var rest := Without(rows[1..], email);
      assert forall x :: x in rows <==> x == rows[0] || x in rows[1..];
      if rows[0].email == email then rest else [rows[0]] + rest
  }

  /** The deletion works row by row: deleting from two stretches of the
      table one after the other gives the two results in the same order. */
  lemma {:induction false} WithoutAppend(a: seq<AccountRow>, b: seq<AccountRow>, email: string)
    ensures Without(a + b, email) == Without(a, email) + Without(b, email)
  {
    if a == [] {
      assert a + b == b;
    } else {
      assert (a + b)[0] == a[0] && (a + b)[1..] == a[1..] + b;
      WithoutAppend(a[1..], b, email);
    }
  }

  /** Deleting rows keeps the key unique. */
  lemma {:induction false} WithoutDistinct(rows: seq<AccountRow>, email: string)
    requires DistinctEmails(rows)
    ensures DistinctEmails(Without(rows, email))
  {
    if rows != [] {
      assert DistinctEmails(rows[1..]) by {
        forall i, j | 0 <= i < j < |rows[1..]| ensures rows[1..][i].email != rows[1..][j].email {
          assert rows[1..][i] == rows[i + 1] && rows[1..][j] == rows[j + 1];
        }
      }
      WithoutDistinct(rows[1..], email);
      var rest := Without(rows[1..], email);
      if rows[0].email != email {
        forall x | x in rest ensures x.email != rows[0].email {
          var j :| 0 <= j < |rows[1..]| && rows[1..][j] == x;
          assert rows[j + 1] == x;
        }
        WithoutHead(rows[0], rest);
      }
    }
  }

  lemma WithoutHead(row: AccountRow, rest: seq<AccountRow>)
    requires DistinctEmails(rest)
    requires forall x :: x in rest ==> x.email != row.email
    ensures DistinctEmails([row] + rest)
  {
    var t := [row] + rest;
    forall i, j | 0 <= i < j < |t| ensures t[i].email != t[j].email {
      assert t[j] == rest[j - 1];
      if i > 0 {
        assert t[i] == rest[i - 1];
      }
    }
  }

  /** `INSERT OR REPLACE`: the row with the same email, if any, is deleted
      and the new row is appended with a fresh rowid. */
  function Upsert(rows: seq<AccountRow>, row: AccountRow): (r: seq<AccountRow>)
    ensures 1 <= |r| <= |rows| + 1
    ensures r[|r| - 1] == row
  {
    Without(rows, row.email) + [row]
  }

  /** After the upsert exactly one row has the new row's email, and it is
      the new row; rows with other emails are the ones there were. */
  lemma UpsertReplaces(rows: seq<AccountRow>, row: AccountRow)
    requires DistinctEmails(rows)
    ensures DistinctEmails(Upsert(rows, row))
    ensures forall x :: x in Upsert(rows, row) && x.email == row.email <==> x == row
    ensures forall x: AccountRow :: x.email != row.email ==> (x in Upsert(rows, row) <==> x in rows)
    ensures Emails(Upsert(rows, row)) == Emails(rows) + {row.email}
  {
    var w := Without(rows, row.email);
    WithoutDistinct(rows, row.email);
    var t := w + [row];
    forall i, j | 0 <= i < j < |t| ensures t[i].email != t[j].email {
      if j == |w| {
        assert t[i] == w[i] && t[i] in w;
      } else {
        assert t[i] == w[i] && t[j] == w[j];
      }
    }
    assert forall x :: x in t <==> x in w || x == row;
  }

  /** A row with email `email`: the primary-key lookup of
      `SELECT ... WHERE email = ?1`. */
  function Lookup(rows: seq<AccountRow>, email: string): (r: Option<AccountRow>)
    ensures r.Some? ==> r.value in rows && r.value.email == email
    ensures r.None? <==> email !in Emails(rows)
  {
    if rows == [] then None
    else if rows[0].email == email then Some(rows[0])
    else
      var r := Lookup(rows[1..], email);
      assert forall x :: x in rows <==> x == rows[0] || x in rows[1..];
      r
  }

  /** With distinct emails, the lookup finds the one row with that email. */
  lemma LookupUnique(rows: seq<AccountRow>, email: string, x: AccountRow)
    requires DistinctEmails(rows)
    ensures Lookup(rows, email) == Some(x) <==> x in rows && x.email == email
  {
    if x in rows && x.email == email {
      var y := Lookup(rows, email).value;
      var i :| 0 <= i < |rows| && rows[i] == x;
      var j :| 0 <= j < |rows| && rows[j] == y;
      assert i == j;
    }
  }

  /** `UPDATE accounts SET password = p WHERE email = email`: only the
      password of the row with that email changes. */
  function SetPassword(rows: seq<AccountRow>, email: string, p: string): (r: seq<AccountRow>)
    ensures |r| == |rows|
    ensures forall i :: 0 <= i < |rows| ==>
      r[i] == if rows[i].email == email then rows[i].(password := Some(p)) else rows[i]
  {
    if rows == [] then []
    else
      var head := if rows[0].email == email then rows[0].(password := Some(p)) else rows[0];
      [head] + SetPassword(rows[1..], email, p)
  }

  /** The update leaves every email where it was, so the key stays unique. */
  lemma SetPasswordKeepsKeys(rows: seq<AccountRow>, email: string, p: string)
    requires DistinctEmails(rows)
    ensures DistinctEmails(SetPassword(rows, email, p))
    ensures Emails(SetPassword(rows, email, p)) == Emails(rows)
  {
    var r := SetPassword(rows, email, p);
    forall i, j | 0 <= i < j < |r| ensures r[i].email != r[j].email {
      assert r[i].email == rows[i].email && r[j].email == rows[j].email;
    }
    forall e | e in Emails(r) ensures e in Emails(rows) {
      var x :| x in r && x.email == e;
      var i :| 0 <= i < |r| && r[i] == x;
      assert rows[i] in rows;
    }
    forall e | e in Emails(rows) ensures e in Emails(r) {
      var x :| x in rows && x.email == e;
      var i :| 0 <= i < |rows| && rows[i] == x;
      assert r[i] in r;
    }
  }

  /** Updating the password of an email no row has changes nothing. */
  lemma SetPasswordMissing(rows: seq<AccountRow>, email: string, p: string)
    requires email !in Emails(rows)
    ensures SetPassword(rows, email, p) == rows
  {
    forall i | 0 <= i < |rows| ensures rows[i].email != email {
      assert rows[i] in rows;
    }
  }

  /** After the update, the lookup of `email` finds its row with password
      `p` and every other field as before; lookups of other emails are
      unaffected. */
  lemma SetPasswordLookup(rows: seq<AccountRow>, email: string, p: string, other: string)
    requires DistinctEmails(rows)
    ensures Lookup(SetPassword(rows, email, p), email) ==
      if email in Emails(rows) then Some(Lookup(rows, email).value.(password := Some(p))) else None
    ensures other != email ==> Lookup(SetPassword(rows, email, p), other) == Lookup(rows, other)
  {
    var r := SetPassword(rows, email, p);
    SetPasswordKeepsKeys(rows, email, p);
    if email in Emails(rows) {
      var x := Lookup(rows, email).value;
      var i :| 0 <= i < |rows| && rows[i] == x;
      assert r[i] in r;
      LookupUnique(r, email, x.(password := Some(p)));
    }
    if other != email && other in Emails(rows) {
      var x := Lookup(rows, other).value;
      var i :| 0 <= i < |rows| && rows[i] == x;
      assert r[i] == x && r[i] in r;
      LookupUnique(r, other, x);
    }
  }

  /** A well-formed stored flag: `save_account` writes only 0 and 1. */
  predicate FlagsWritten(rows: seq<AccountRow>) {
    forall i :: 0 <= i < |rows| ==> rows[i].isDemo == 0 || rows[i].isDemo == 1
  }

  class AccountStore {
    var hasTable: bool
    /** The accounts table, in scan (rowid) order. */
    var rows: seq<AccountRow>

    ghost predicate Valid()
      reads this
    {
      && DistinctEmails(rows)
      && FlagsWritten(rows)
      && (!hasTable ==> rows == [])
    }

    /** A database file with no accounts table yet. */
    constructor ()
      ensures Valid()
      ensures !hasTable && rows == []
    {
      hasTable, rows := false, [];
    }

    /** `init_db` for accounts. Steps: 0 opens the connection, 1 creates the
        table if absent. Existing accounts are kept, so calling it again
        changes nothing. */
    method InitDb(io: Io) returns (r: Result<(), StorageError>)
      requires Valid()
      modifies this
      ensures Valid()
      ensures r.Ok? <==> !FaultsBefore(io, 2)
      ensures r.Err? ==> r.error == IoFailure
      ensures hasTable == (old(hasTable) || r.Ok?)
      ensures rows == old(rows)
    {
      if FaultsAt(io, 0) || FaultsAt(io, 1) {
        return Err(IoFailure);
      }
      hasTable := true;
      return Ok(());
    }

    /** `save_account`. Steps: 0 opens the connection, 1 runs the
        `INSERT OR REPLACE`. */
    method SaveAccount(a: Account, io: Io) returns (r: Result<(), StorageError>)
      requires Valid()
      modifies this
      ensures Valid()
      ensures hasTable == old(hasTable)
      ensures r.Ok? <==> hasTable && !FaultsBefore(io, 2)
      ensures rows == if r.Ok? then Upsert(old(rows), ToRow(a)) else old(rows)
    {
      if FaultsAt(io, 0) {
        return Err(IoFailure);
      }
      if !hasTable {
        return Err(NoSuchTable);
      }
      if FaultsAt(io, 1) {
        return Err(IoFailure);
      }
      UpsertReplaces(rows, ToRow(a));
      var next := Upsert(rows, ToRow(a));
      assert FlagsWritten(next) by {
        forall i | 0 <= i < |next| ensures next[i].isDemo == 0 || next[i].isDemo == 1 {
          if i < |next| - 1 {
            assert next[i] in Without(rows, a.email);
            var j :| 0 <= j < |rows| && rows[j] == next[i];
          }
        }
      }
      rows := next;
      return Ok(());
    }

    /** `get_accounts`. Steps: 0 opens the connection, 1 prepares the
        SELECT, 2 + k reads the k-th row, and 2 + |rows| is the last fetch,
        which reports the end of the scan. Every stored account is returned
        once, in table order. */
    method GetAccounts(io: Io) returns (r: Result<seq<Account>, StorageError>)
      requires Valid()
      ensures r.Ok? <==> hasTable && !FaultsBefore(io, 3 + |rows|)
      ensures r.Ok? ==> |r.value| == |rows| && forall i :: 0 <= i < |rows| ==> r.value[i] == FromRow(rows[i])
      ensures r.Ok? ==> forall i, j :: 0 <= i < j < |r.value| ==> r.value[i].email != r.value[j].email
    {
      if FaultsAt(io, 0) {
        return Err(IoFailure);
      }
      if !hasTable {
        return Err(NoSuchTable);
      }
      if FaultsAt(io, 1) {
        return Err(IoFailure);
      }
      var accounts: seq<Account> := [];
      var k := 0;
      while k < |rows|
        invariant 0 <= k <= |rows|
        invariant !FaultsBefore(io, 2 + k)
        invariant |accounts| == k && forall i :: 0 <= i < k ==> accounts[i] == FromRow(rows[i])
      {
        if FaultsAt(io, 2 + k) {
          return Err(IoFailure);
        }
        accounts := accounts + [FromRow(rows[k])];
        k := k + 1;
      }
      if FaultsAt(io, 2 + k) {
        return Err(IoFailure);
      }
      return Ok(accounts);
    }

    /** `save_password`. Steps: 0 opens the connection, 1 runs the UPDATE.
        An email that no account has is not an error and changes nothing. */
    method SavePassword(email: string, p: string, io: Io) returns (r: Result<(), AuthError>)
      requires Valid()
      modifies this
      ensures Valid()
      ensures hasTable == old(hasTable)
      ensures r.Ok? <==> hasTable && !FaultsBefore(io, 2)
      ensures r.Err? ==> r.error.Sql?
      ensures rows == if r.Ok? then SetPassword(old(rows), email, p) else old(rows)
      ensures email !in Emails(old(rows)) ==> rows == old(rows)
    {
      if FaultsAt(io, 0) {
        return Err(Sql(IoFailure));
      }
      if !hasTable {
        return Err(Sql(NoSuchTable));
      }
      if FaultsAt(io, 1) {
        return Err(Sql(IoFailure));
      }
      if email !in Emails(rows) {
        SetPasswordMissing(rows, email, p);
      }
      SetPasswordKeepsKeys(rows, email, p);
      var next := SetPassword(rows, email, p);
      assert FlagsWritten(next) by {
        forall i | 0 <= i < |next| ensures next[i].isDemo == 0 || next[i].isDemo == 1 {
          assert next[i].isDemo == rows[i].isDemo;
        }
      }
      rows := next;
      return Ok(());
    }

    /** `get_password`. Steps: 0 opens the connection, 1 prepares the
        SELECT, 2 binds the parameters, 3 runs the statement and fetches the
        first row, 4 reads its password
        (only when there is a row). The two lookup failures are told apart. */
    method GetPassword(email: string, io: Io) returns (r: Result<string, AuthError>)
      requires Valid()
      ensures r.Ok? <==>
        hasTable && !FaultsBefore(io, 5) && email in Emails(rows) && Lookup(rows, email).value.password.Some?
      ensures r.Ok? ==> Lookup(rows, email).value.password == Some(r.value)
      ensures r == Err(AccountNotFound) <==> hasTable && !FaultsBefore(io, 4) && email !in Emails(rows)
      ensures r == Err(NoPasswordFound) <==>
        hasTable && !FaultsBefore(io, 5) && email in Emails(rows) && Lookup(rows, email).value.password.None?
      ensures r.Err? && r.error.Sql? ==> !hasTable || FaultsBefore(io, 5)
    {
      if FaultsAt(io, 0) {
        return Err(Sql(IoFailure));
      }
      if !hasTable {
        return Err(Sql(NoSuchTable));
      }
      if FaultsAt(io, 1) || FaultsAt(io, 2) || FaultsAt(io, 3) {
        return Err(Sql(IoFailure));
      }
      var found := Lookup(rows, email);
      if found.None? {
        return Err(AccountNotFound);
      }
      if FaultsAt(io, 4) {
        return Err(Sql(IoFailure));
      }
      if found.value.password.None? {
        return Err(NoPasswordFound);
      }
      return Ok(found.value.password.value);
    }
  }

  /** Saving a password for an existing account and reading it back gives
      that password. */
  method PasswordRoundTrip(store: AccountStore, email: string, p: string)
    returns (saved: Result<(), AuthError>, read: Result<string, AuthError>)
    requires store.Valid() && store.hasTable && email in Emails(store.rows)
    modifies store
    ensures saved.Ok? && read == Ok(p)
  {
    ghost var before := store.rows;
    saved := store.SavePassword(email, p, Healthy);
    SetPasswordLookup(before, email, p, email);
    SetPasswordKeepsKeys(before, email, p);
    assert Lookup(store.rows, email).value.password == Some(p);
    read := store.GetPassword(email, Healthy);
  }

  /** After `save_account(a)`, `get_accounts` lists `a` exactly once and
      every other listed account has another email. */
  method SaveThenList(store: AccountStore, a: Account) returns (listed: Result<seq<Account>, StorageError>)
    requires store.Valid() && store.hasTable
    modifies store
    ensures listed.Ok? && a in listed.value
    ensures forall x :: x in listed.value && x.email == a.email ==> x == a
    ensures forall i, j :: 0 <= i < j < |listed.value| ==> listed.value[i].email != listed.value[j].email
  {
    ghost var before := store.rows;
    var s := store.SaveAccount(a, Healthy);
    UpsertReplaces(before, ToRow(a));
    listed := store.GetAccounts(Healthy);
    assert store.rows[|store.rows| - 1] == ToRow(a);
    forall x | x in listed.value && x.email == a.email ensures x == a {
      var i :| 0 <= i < |listed.value| && listed.value[i] == x;
      assert store.rows[i] in store.rows;
    }
  }
}
