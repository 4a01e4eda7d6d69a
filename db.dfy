/** The mail store of src/db.rs: an `emails` table whose `id` is an INTEGER
    PRIMARY KEY and a key/value `settings` table, both in one database file.
    The file is the state of a `MailStore` object; each Rust function that
    opens a connection and runs SQL is a method on it. */
module Db {
  import opened Storage
  import opened SqlText

  /** Rust's `i32`, the type of `DbEmail::id`. */
  newtype Int32 = x: int | -0x8000_0000 <= x < 0x8000_0000

  datatype DbEmail = DbEmail(
    id: Int32,
    subject: string,
    sender: string,
    date: string,
    body: string,
    hasAttachment: bool,
    category: string)

  /** The default of the `category` column. */
  const DefaultCategory: string := "Inbox"

  const ThemeModeKey: string := "theme_mode"

  /** What `get_theme_mode` answers when nothing is stored. */
  const DefaultThemeMode: string := "system"

  /** How far the `emails` table's schema has got. */
  datatype EmailsSchema =
    | NoTable            // the file has no emails table yet
    | NoCategoryColumn   // a table written before the category column existed
    | Current            // the table init_db creates

  /** The WHERE clauses of the store's SELECT statements. */
  datatype Where =
    | Everything
    | TextLike(pattern: string)      // subject LIKE p OR sender LIKE p OR body LIKE p
    | CategoryIs(category: string)   // category = c

  predicate Satisfies(e: DbEmail, w: Where) {
    match w
    case Everything => true
    case TextLike(p) => Like(p, e.subject) || Like(p, e.sender) || Like(p, e.body)
    case CategoryIs(c) => e.category == c
  }

  /** Ids ascend strictly along the sequence. The id is the table's rowid, so
      this is the order in which SQLite stores and scans the rows, and no id
      occurs twice. */
  predicate SortedById(s: seq<DbEmail>) {
    forall i, j :: 0 <= i < j < |s| ==> s[i].id < s[j].id
  }

  predicate DistinctIds(s: seq<DbEmail>) {
    forall i, j :: 0 <= i < j < |s| ==> s[i].id != s[j].id
  }

  function Ids(s: seq<DbEmail>): set<Int32> {
    set e | e in s :: e.id
  }

  /** `SELECT ... FROM emails WHERE w`: the rows that satisfy `w`, in scan order. */
  function Scan(rows: seq<DbEmail>, w: Where): (r: seq<DbEmail>)
    ensures |r| <= |rows|
    ensures forall i :: 0 <= i < |r| ==> Satisfies(r[i], w)
  {
    if rows == [] then []
    else (if Satisfies(rows[0], w) then [rows[0]] else []) + Scan(rows[1..], w)
  }

  /** A row is in the answer exactly when it is in the table and satisfies `w`. */
  lemma {:induction false} ScanMembers(rows: seq<DbEmail>, w: Where)
    ensures forall e :: e in Scan(rows, w) <==> e in rows && Satisfies(e, w)
  {
    if rows != [] {
      ScanMembers(rows[1..], w);
      assert rows == [rows[0]] + rows[1..];
    }
  }

  lemma {:induction false} ScanAppend(a: seq<DbEmail>, b: seq<DbEmail>, w: Where)
    ensures Scan(a + b, w) == Scan(a, w) + Scan(b, w)
  {
    if a == [] {
      assert a + b == b;
    } else {
      assert (a + b)[0] == a[0] && (a + b)[1..] == a[1..] + b;
      ScanAppend(a[1..], b, w);
    }
  }

  /** Without a WHERE clause the answer is the whole table, in order. */
  lemma {:induction false} ScanEverything(rows: seq<DbEmail>)
    ensures Scan(rows, Everything) == rows
  {
    if rows != [] {
      ScanEverything(rows[1..]);
    }
  }

  /** The answer keeps the table's id order, so no row is returned twice. */
  lemma {:induction false} ScanSorted(rows: seq<DbEmail>, w: Where)
    requires SortedById(rows)
    ensures SortedById(Scan(rows, w))
  {
    if rows != [] {
      ScanSorted(rows[1..], w);
      ScanMembers(rows[1..], w);
      var rest := Scan(rows[1..], w);
      forall x | x in rest ensures rows[0].id < x.id {
        var j :| 0 <= j < |rows[1..]| && rows[1..][j] == x;
        assert rows[j + 1] == x;
      }
    }
  }

  /** For a query without wildcards, a row matches the search exactly when
      its subject, sender or body contains the query, ignoring ASCII case. */
  lemma SearchMatchesSubstring(e: DbEmail, query: string)
    requires IsLiteral(query)
    ensures Satisfies(e, TextLike(SearchPattern(query))) <==>
      ContainsIgnoringCase(e.subject, query) || ContainsIgnoringCase(e.sender, query) || ContainsIgnoringCase(e.body, query)
  {
    SearchPatternIsSubstring(query, e.subject);
    SearchPatternIsSubstring(query, e.sender);
    SearchPatternIsSubstring(query, e.body);
  }

  /** Putting `e` between the rows with smaller ids and those with larger
      ids keeps the table in id order. */
  lemma Splice(s: seq<DbEmail>, k: nat, e: DbEmail)
    requires SortedById(s) && k <= |s|
    requires forall i :: 0 <= i < k ==> s[i].id < e.id
    requires k < |s| ==> e.id < s[k].id
    ensures e.id !in Ids(s)
    ensures SortedById(s[..k] + [e] + s[k..])
    ensures multiset(s[..k] + [e] + s[k..]) == multiset(s) + multiset{e}
  {
    SpliceAbsent(s, k, e);
    SpliceSorted(s, k, e);
    assert s == s[..k] + s[k..];
  }

  lemma SpliceAbsent(s: seq<DbEmail>, k: nat, e: DbEmail)
    requires SortedById(s) && k <= |s|
    requires forall i :: 0 <= i < k ==> s[i].id < e.id
    requires k < |s| ==> e.id < s[k].id
    ensures e.id !in Ids(s)
  {
    forall x | x in s ensures x.id != e.id {
      var i :| 0 <= i < |s| && s[i] == x;
      if i > k {
        assert s[k].id < s[i].id;
      }
    }
  }

  lemma SpliceSorted(s: seq<DbEmail>, k: nat, e: DbEmail)
    requires SortedById(s) && k <= |s|
    requires forall i :: 0 <= i < k ==> s[i].id < e.id
    requires k < |s| ==> e.id < s[k].id
    ensures SortedById(s[..k] + [e] + s[k..])
  {
    var t := s[..k] + [e] + s[k..];
    assert |t| == |s| + 1 && t[k] == e;
    assert forall i :: 0 <= i < k ==> t[i] == s[i];
    assert forall i :: k < i < |t| ==> t[i] == s[i - 1];
    forall i, j | 0 <= i < j < |t| ensures t[i].id < t[j].id {
      if i == k {
        assert s[k].id <= s[j - 1].id;
      }
    }
  }

  /** One INSERT into the id-ordered table: an id that is already present
      violates the primary key; any other row joins the table in id order.
      The loop is the descent to the row's place in the key order. */
  method InsertRow(s: seq<DbEmail>, e: DbEmail) returns (r: Result<seq<DbEmail>, StorageError>)
    requires SortedById(s)
    ensures r.Err? <==> e.id in Ids(s)
    ensures r.Err? ==> r.error == ConstraintViolation
    ensures r.Ok? ==> SortedById(r.value) && multiset(r.value) == multiset(s) + multiset{e}
  {
    var k := 0;
    while k < |s| && s[k].id < e.id
      invariant 0 <= k <= |s|
      invariant forall i :: 0 <= i < k ==> s[i].id < e.id
    {
      k := k + 1;
    }
    if k < |s| && s[k].id == e.id {
      assert s[k] in s;
      return Err(ConstraintViolation);
    }
    Splice(s, k, e);
    return Ok(s[..k] + [e] + s[k..]);
  }

  /** While `insert_emails` runs, the pending table holds the first `k`
      emails, in id order, and so far no id repeats. */
  predicate Staged(es: seq<DbEmail>, k: nat, pending: seq<DbEmail>) {
    && k <= |es|
    && SortedById(pending)
    && multiset(pending) == multiset(es[..k])
    && DistinctIds(es[..k])
  }

  /** If the pending table already has the id of `es[k]`, two emails share an id. */
  lemma DuplicateId(es: seq<DbEmail>, k: nat, pending: seq<DbEmail>)
    requires k < |es| && Staged(es, k, pending)
    requires es[k].id in Ids(pending)
    ensures !DistinctIds(es)
  {
    var x :| x in pending && x.id == es[k].id;
    assert x in multiset(es[..k]);
    var j :| 0 <= j < k && es[..k][j] == x;
    assert es[j].id == es[k].id && j < k;
  }

  /** ... and if it does not, inserting `es[k]` extends the staged prefix. */
  lemma InsertedNext(es: seq<DbEmail>, k: nat, pending: seq<DbEmail>, next: seq<DbEmail>)
    requires k < |es| && Staged(es, k, pending)
    requires es[k].id !in Ids(pending)
    requires SortedById(next) && multiset(next) == multiset(pending) + multiset{es[k]}
    ensures Staged(es, k + 1, next)
  {
    forall j | 0 <= j < k ensures es[j].id != es[k].id {
      assert es[..k][j] in multiset(pending);
    }
    var t := es[..k + 1];
    forall i, j | 0 <= i < j < k + 1 ensures t[i].id != t[j].id {
      if j < k {
        assert t[i] == es[..k][i] && t[j] == es[..k][j];
      }
    }
    assert t == es[..k] + [es[k]];
  }

  lemma StagedAll(es: seq<DbEmail>, pending: seq<DbEmail>)
    requires Staged(es, |es|, pending)
    ensures DistinctIds(es) && SortedById(pending) && multiset(pending) == multiset(es)
  {
    assert es[..|es|] == es;
  }

  /** `UPDATE emails SET category = c WHERE id = id`: the row with that id
      gets category `c`; every other row, and every other field, is kept. */
  function SetCategory(s: seq<DbEmail>, id: Int32, c: string): (r: seq<DbEmail>)
    ensures |r| == |s|
    ensures forall i :: 0 <= i < |s| ==> r[i] == if s[i].id == id then s[i].(category := c) else s[i]
  {
    if s == [] then []
    else [if s[0].id == id then s[0].(category := c) else s[0]] + SetCategory(s[1..], id, c)
  }

  /** Updating an id that no row has changes nothing. */
  lemma SetCategoryMissingId(s: seq<DbEmail>, id: Int32, c: string)
    requires id !in Ids(s)
    ensures SetCategory(s, id, c) == s
  {
    forall i | 0 <= i < |s| ensures s[i].id != id {
      assert s[i] in s;
    }
  }

  /** The update touches no id, so the table stays in id order. */
  lemma SetCategorySorted(s: seq<DbEmail>, id: Int32, c: string)
    requires SortedById(s)
    ensures SortedById(SetCategory(s, id, c))
  {
    var r := SetCategory(s, id, c);
    forall i, j | 0 <= i < j < |r| ensures r[i].id < r[j].id {
      assert r[i].id == s[i].id && r[j].id == s[j].id;
    }
  }

  /** Some row of `s` has id `x` and category `k`. */
  ghost predicate Listed(s: seq<DbEmail>, x: Int32, k: string) {
    exists i :: 0 <= i < |s| && s[i].id == x && s[i].category == k
  }

  /** The ids `get_emails_by_category(k)` returns are the listed ones. */
  lemma CategoryIds(s: seq<DbEmail>, k: string, x: Int32)
    ensures x in Ids(Scan(s, CategoryIs(k))) <==> Listed(s, x, k)
  {
    ScanMembers(s, CategoryIs(k));
    if x in Ids(Scan(s, CategoryIs(k))) {
      var e :| e in Scan(s, CategoryIs(k)) && e.id == x;
      var i :| 0 <= i < |s| && s[i] == e;
    }
    if Listed(s, x, k) {
      var i :| 0 <= i < |s| && s[i].id == x && s[i].category == k;
      assert s[i] in Scan(s, CategoryIs(k));
    }
  }

  /** After the update, the ids listed under category `k` are the ones listed
      before, except that `id` (when some row has it) is listed exactly when
      `k` is the new category. */
  lemma CategoryListsAfterUpdate(s: seq<DbEmail>, id: Int32, c: string, k: string, x: Int32)
    ensures x in Ids(Scan(SetCategory(s, id, c), CategoryIs(k))) <==>
      if x == id then id in Ids(s) && k == c else x in Ids(Scan(s, CategoryIs(k)))
  {
    var s' := SetCategory(s, id, c);
    CategoryIds(s, k, x);
    CategoryIds(s', k, x);
    if x == id && id in Ids(s) {
      var e :| e in s && e.id == id;
      var i :| 0 <= i < |s| && s[i] == e;
      assert s'[i].id == id && s'[i].category == c;
    }
    if x == id && Listed(s', x, k) {
      var i :| 0 <= i < |s'| && s'[i].id == x && s'[i].category == k;
      assert s[i] in s;
    }
  }

  /** `ALTER TABLE emails ADD COLUMN category ... DEFAULT 'Inbox'`: every
      existing row reads the default. */
  function WithDefaultCategory(s: seq<DbEmail>): (r: seq<DbEmail>)
    ensures |r| == |s|
    ensures forall i :: 0 <= i < |s| ==> r[i].category == DefaultCategory && r[i].(category := s[i].category) == s[i]
    ensures SortedById(s) ==> SortedById(r)
  {
    seq(|s|, i requires 0 <= i < |s| => s[i].(category := DefaultCategory))
  }

  /** The INSERT of `es[k]` into the staged table: it fails on a repeated
      id, and otherwise stages one more email. */
  method InsertNext(es: seq<DbEmail>, k: nat, pending: seq<DbEmail>) returns (r: Result<seq<DbEmail>, StorageError>)
    requires k < |es| && Staged(es, k, pending)
    ensures r.Ok? ==> Staged(es, k + 1, r.value)
    ensures r.Err? ==> r.error == ConstraintViolation && !DistinctIds(es)
  {
    r := InsertRow(pending, es[k]);
    if r.Err? {
      DuplicateId(es, k, pending);
    } else {
      InsertedNext(es, k, pending, r.value);
    }
  }

  /** The INSERT loop of `insert_emails`, run on the table as the
      transaction sees it after its DELETE (empty). Step 4 + k inserts
      `es[k]`. The result is the table the transaction would commit: all of
      `es`, in id order; the first repeated id stops it. */
  method InsertAll(es: seq<DbEmail>, io: Io) returns (r: Result<seq<DbEmail>, StorageError>)
    requires !FaultsBefore(io, 4)
    ensures r.Ok? <==> DistinctIds(es) && !FaultsBefore(io, 4 + |es|)
    ensures r.Ok? ==> SortedById(r.value) && multiset(r.value) == multiset(es)
    ensures r.Err? ==> || (r.error == IoFailure && FaultsBefore(io, 4 + |es|))
                       || (r.error == ConstraintViolation && !DistinctIds(es))
  {
    var pending: seq<DbEmail> := [];
    var k := 0;
    while k < |es|
      invariant 0 <= k <= |es|
      invariant !FaultsBefore(io, 4 + k)
      invariant Staged(es, k, pending)
    {
      if FaultsAt(io, 4 + k) {
        return Err(IoFailure);
      }
      var next := InsertNext(es, k, pending);
      if next.Err? {
        return Err(next.error);
      }
      pending := next.value;
      k := k + 1;
    }
    StagedAll(es, pending);
    return Ok(pending);
  }

  class MailStore {
    var schema: EmailsSchema
    var hasSettings: bool
    /** The emails table, in scan (id) order. */
    var rows: seq<DbEmail>
    var settings: map<string, string>

    ghost predicate Valid()
      reads this
    {
      && SortedById(rows)
      && (schema == NoTable ==> rows == [])
      && (!hasSettings ==> settings == map[])
    }

    /** Both tables exist in their current form. */
    ghost predicate Initialised()
      reads this
    {
      schema == Current && hasSettings
    }

    /** A database file that has never been initialised. */
    constructor ()
      ensures Valid()
      ensures schema == NoTable && !hasSettings && rows == [] && settings == map[]
    {
      schema, hasSettings, rows, settings := NoTable, false, [], map[];
    }

    /** A database file left by a version whose emails table had no category
        column and which kept no settings. */
    constructor Legacy(saved: seq<DbEmail>)
      requires SortedById(saved)
      ensures Valid()
      ensures schema == NoCategoryColumn && !hasSettings && rows == saved && settings == map[]
    {
      schema, hasSettings, rows, settings := NoCategoryColumn, false, saved, map[];
    }

    /** `init_db`. Steps: 0 opens the connection, 1 creates the emails table
        if absent, 2 adds the category column (whose failure is ignored),
        3 creates the settings table if absent. On a store that is already
        initialised it changes nothing. */
    method InitDb(io: Io) returns (r: Result<(), StorageError>)
      requires Valid()
      modifies this
      ensures Valid()
      ensures r.Ok? <==> !FaultsAt(io, 0) && !FaultsAt(io, 1) && !FaultsAt(io, 3)
      ensures schema ==
        if old(schema) == NoTable && !FaultsBefore(io, 2) then Current
        else if old(schema) == NoCategoryColumn && !FaultsBefore(io, 3) then Current
        else old(schema)
      ensures rows ==
        if old(schema) == NoCategoryColumn && schema == Current then WithDefaultCategory(old(rows))
        else old(rows)
      ensures hasSettings == (old(hasSettings) || r.Ok?)
      ensures settings == old(settings)
      ensures old(Initialised()) ==> Initialised() && rows == old(rows)
    {
      if FaultsAt(io, 0) || FaultsAt(io, 1) {
        return Err(IoFailure);
      }
      if schema == NoTable {
        schema := Current;
      }
      // The migration: on a current table SQLite reports a duplicate column,
      // and that error, like any other here, is dropped.
      if !FaultsAt(io, 2) && schema == NoCategoryColumn {
        schema := Current;
        rows := WithDefaultCategory(rows);
      }
      if FaultsAt(io, 3) {
        return Err(IoFailure);
      }
      hasSettings := true;
      return Ok(());
    }

    /** `insert_emails`: in one transaction, delete every row and insert `es`
        one by one. Steps: 0 opens the connection, 1 begins the transaction,
        2 deletes, 3 prepares the INSERT, 4 + k inserts `es[k]`, 4 + |es|
        commits. Any failure rolls the transaction back, so the table is
        either exactly `es` (in id order) or exactly what it was. */
    method InsertEmails(es: seq<DbEmail>, io: Io) returns (r: Result<(), StorageError>)
      requires Valid()
      modifies this
      ensures Valid()
      ensures schema == old(schema) && hasSettings == old(hasSettings) && settings == old(settings)
      ensures r.Ok? <==> schema == Current && DistinctIds(es) && !FaultsBefore(io, 5 + |es|)
      ensures r.Ok? ==> multiset(rows) == multiset(es)
      ensures r.Err? ==> rows == old(rows)
    {
      if FaultsAt(io, 0) || FaultsAt(io, 1) || FaultsAt(io, 2) {
        return Err(IoFailure);
      }
      if schema == NoTable {
        return Err(NoSuchTable);
      }
      if FaultsAt(io, 3) {
        return Err(IoFailure);
      }
      if schema == NoCategoryColumn {
        return Err(NoSuchColumn);
      }
      // The DELETE and the INSERTs act on the transaction's view of the
      // table; `rows` itself changes only when the commit succeeds.
      var staged := InsertAll(es, io);
      if staged.Err? {
        return Err(staged.error);
      }
      if FaultsAt(io, 4 + |es|) {
        return Err(IoFailure);
      }
      rows := staged.value;
      return Ok(());
    }

    /** The SELECT loop the queries share. Steps: 0 opens the connection,
        1 prepares the statement, 2 + k reads the k-th row of the scan, and
        2 + |rows| is the last fetch, which reports the end of the scan. */
    method Query(w: Where, io: Io) returns (r: Result<seq<DbEmail>, StorageError>)
      requires Valid()
      ensures r.Ok? <==> schema == Current && !FaultsBefore(io, 3 + |rows|)
      ensures r.Ok? ==> r.value == Scan(rows, w)
    {
      if FaultsAt(io, 0) {
        return Err(IoFailure);
      }
      if schema == NoTable {
        return Err(NoSuchTable);
      }
      if schema == NoCategoryColumn {
        return Err(NoSuchColumn);
      }
      if FaultsAt(io, 1) {
        return Err(IoFailure);
      }
      var hits: seq<DbEmail> := [];
      var k := 0;
      while k < |rows|
        invariant 0 <= k <= |rows|
        invariant !FaultsBefore(io, 2 + k)
        invariant hits == Scan(rows[..k], w)
      {
        if FaultsAt(io, 2 + k) {
          return Err(IoFailure);
        }
        assert rows[..k + 1] == rows[..k] + [rows[k]];
        ScanAppend(rows[..k], [rows[k]], w);
        if Satisfies(rows[k], w) {
          hits := hits + [rows[k]];
        }
        k := k + 1;
      }
      if FaultsAt(io, 2 + k) {
        return Err(IoFailure);
      }
      assert rows[..k] == rows;
      return Ok(hits);
    }

    /** `get_all_emails`: the whole table, in id order. */
    method GetAllEmails(io: Io) returns (r: Result<seq<DbEmail>, StorageError>)
      requires Valid()
      ensures r.Ok? <==> schema == Current && !FaultsBefore(io, 3 + |rows|)
      ensures r.Ok? ==> r.value == rows
    {
      r := Query(Everything, io);
      ScanEverything(rows);
    }

    /** `search_emails`: a blank query is answered by `get_all_emails`;
        any other query returns, in id order, the rows whose subject, sender
        or body is LIKE `%query%`. */
    method SearchEmails(query: string, io: Io) returns (r: Result<seq<DbEmail>, StorageError>)
      requires Valid()
      ensures r.Ok? <==> schema == Current && !FaultsBefore(io, 3 + |rows|)
      ensures r.Ok? && IsBlank(query) ==> r.value == rows
      ensures r.Ok? && !IsBlank(query) ==> r.value == Scan(rows, TextLike(SearchPattern(query)))
      ensures r.Ok? && !IsBlank(query) ==> forall e :: e in r.value <==>
        e in rows && (Like(SearchPattern(query), e.subject) || Like(SearchPattern(query), e.sender) || Like(SearchPattern(query), e.body))
      ensures r.Ok? ==> SortedById(r.value)
    {
      if Trim(query) == [] {
        r := GetAllEmails(io);
        return;
      }
      r := Query(TextLike(SearchPattern(query)), io);
      ScanMembers(rows, TextLike(SearchPattern(query)));
      ScanSorted(rows, TextLike(SearchPattern(query)));
    }

    /** `get_emails_by_category`: the rows whose category is exactly `c`, in
        id order. */
    method GetEmailsByCategory(c: string, io: Io) returns (r: Result<seq<DbEmail>, StorageError>)
      requires Valid()
      ensures r.Ok? <==> schema == Current && !FaultsBefore(io, 3 + |rows|)
      ensures r.Ok? ==> r.value == Scan(rows, CategoryIs(c))
      ensures r.Ok? ==> forall e :: e in r.value <==> e in rows && e.category == c
      ensures r.Ok? ==> SortedById(r.value)
    {
      r := Query(CategoryIs(c), io);
      ScanMembers(rows, CategoryIs(c));
      ScanSorted(rows, CategoryIs(c));
    }

    /** `update_email_category`. Steps: 0 opens the connection, 1 runs the
        UPDATE. An id that no row has is not an error and changes nothing. */
    method UpdateEmailCategory(id: Int32, c: string, io: Io) returns (r: Result<(), StorageError>)
      requires Valid()
      modifies this
      ensures Valid()
      ensures schema == old(schema) && hasSettings == old(hasSettings) && settings == old(settings)
      ensures r.Ok? <==> schema == Current && !FaultsBefore(io, 2)
      ensures rows == if r.Ok? then SetCategory(old(rows), id, c) else old(rows)
      ensures r.Ok? && id !in Ids(old(rows)) ==> rows == old(rows)
    {
      if FaultsAt(io, 0) {
        return Err(IoFailure);
      }
      if schema == NoTable {
        return Err(NoSuchTable);
      }
      if schema == NoCategoryColumn {
        return Err(NoSuchColumn);
      }
      if FaultsAt(io, 1) {
        return Err(IoFailure);
      }
      if id !in Ids(rows) {
        SetCategoryMissingId(rows, id, c);
      }
      SetCategorySorted(rows, id, c);
      rows := SetCategory(rows, id, c);
      return Ok(());
    }

    /** `count_emails`. Steps: 0 opens the connection, 1 prepares, 2 binds
        the parameters, 3 runs the statement and fetches its one row. COUNT(*) needs no category column, so it
        also answers on a table that predates it. */
    method CountEmails(io: Io) returns (r: Result<int, StorageError>)
      requires Valid()
      ensures r.Ok? <==> schema != NoTable && !FaultsBefore(io, 4)
      ensures r.Ok? ==> r.value == |rows|
    {
      if FaultsAt(io, 0) {
        return Err(IoFailure);
      }
      if schema == NoTable {
        return Err(NoSuchTable);
      }
      if FaultsAt(io, 1) || FaultsAt(io, 2) || FaultsAt(io, 3) {
        return Err(IoFailure);
      }
      // COUNT(*) always yields one row, so the source's `Ok(0)` branch for a
      // missing row is never taken.
      return Ok(|rows|);
    }

    /** The settings upsert (`INSERT ... ON CONFLICT(key) DO UPDATE`).
        Steps: 0 opens the connection, 1 runs the statement. */
    method SaveSetting(key: string, value: string, io: Io) returns (r: Result<(), StorageError>)
      requires Valid()
      modifies this
      ensures Valid()
      ensures schema == old(schema) && hasSettings == old(hasSettings) && rows == old(rows)
      ensures r.Ok? <==> hasSettings && !FaultsBefore(io, 2)
      ensures settings == if r.Ok? then old(settings)[key := value] else old(settings)
    {
      if FaultsAt(io, 0) {
        return Err(IoFailure);
      }
      if !hasSettings {
        return Err(NoSuchTable);
      }
      if FaultsAt(io, 1) {
        return Err(IoFailure);
      }
      settings := settings[key := value];
      return Ok(());
    }

    /** The settings read with a fallback. Steps: 0 opens the connection,
        1 prepares, 2 binds the parameters, 3 runs the statement and fetches
        the first row if there is one. */
    method GetSetting(key: string, default: string, io: Io) returns (r: Result<string, StorageError>)
      requires Valid()
      ensures r.Ok? <==> hasSettings && !FaultsBefore(io, 4)
      ensures r.Ok? && key in settings ==> r.value == settings[key]
      ensures r.Ok? && key !in settings ==> r.value == default
    {
      if FaultsAt(io, 0) {
        return Err(IoFailure);
      }
      if !hasSettings {
        return Err(NoSuchTable);
      }
      if FaultsAt(io, 1) || FaultsAt(io, 2) || FaultsAt(io, 3) {
        return Err(IoFailure);
      }
      if key in settings {
        return Ok(settings[key]);
      }
      return Ok(default);
    }

    /** `save_theme_mode`. */
    method SaveThemeMode(mode: string, io: Io) returns (r: Result<(), StorageError>)
      requires Valid()
      modifies this
      ensures Valid()
      ensures schema == old(schema) && hasSettings == old(hasSettings) && rows == old(rows)
      ensures r.Ok? <==> hasSettings && !FaultsBefore(io, 2)
      ensures settings == if r.Ok? then old(settings)[ThemeModeKey := mode] else old(settings)
    {
      r := SaveSetting(ThemeModeKey, mode, io);
    }

    /** `get_theme_mode`: the stored mode, or "system" when none is stored. */
    method GetThemeMode(io: Io) returns (r: Result<string, StorageError>)
      requires Valid()
      ensures r.Ok? <==> hasSettings && !FaultsBefore(io, 4)
      ensures r.Ok? && ThemeModeKey in settings ==> r.value == settings[ThemeModeKey]
      ensures r.Ok? && ThemeModeKey !in settings ==> r.value == DefaultThemeMode
    {
      r := GetSetting(ThemeModeKey, DefaultThemeMode, io);
    }
  }

  /** What a caller of the store can rely on: after a successful
      `insert_emails(es)`, `get_all_emails` returns exactly the emails `es`,
      each once, in id order, and `count_emails` agrees with it. */
  method ReplaceThenRead(store: MailStore, es: seq<DbEmail>)
    returns (all: Result<seq<DbEmail>, StorageError>, count: Result<int, StorageError>)
    requires store.Valid() && store.Initialised() && DistinctIds(es)
    modifies store
    ensures all.Ok? && multiset(all.value) == multiset(es) && SortedById(all.value)
    ensures count == Ok(|es|)
  {
    var r := store.InsertEmails(es, Healthy);
    all := store.GetAllEmails(Healthy);
    count := store.CountEmails(Healthy);
    assert |multiset(store.rows)| == |multiset(es)|;
  }

  /** A fresh store, once initialised, answers "system" for the theme mode;
      after `save_theme_mode(mode)` it answers `mode`. */
  method ThemeModeRoundTrip(mode: string) returns (before: Result<string, StorageError>, after: Result<string, StorageError>)
    ensures before == Ok(DefaultThemeMode)
    ensures after == Ok(mode)
  {
    var store := new MailStore();
    var i := store.InitDb(Healthy);
    before := store.GetThemeMode(Healthy);
    var s := store.SaveThemeMode(mode, Healthy);
    after := store.GetThemeMode(Healthy);
  }

  /** `count_emails` and `get_all_emails` on the same store agree. */
  method CountMatchesAll(store: MailStore, io1: Io, io2: Io)
    returns (count: Result<int, StorageError>, all: Result<seq<DbEmail>, StorageError>)
    requires store.Valid()
    ensures count.Ok? && all.Ok? ==> count.value == |all.value|
    ensures all.Ok? ==> count.Ok? || FaultsBefore(io1, 4)
  {
    count := store.CountEmails(io1);
    all := store.GetAllEmails(io2);
  }
}
