# Mail and account stores of a desktop mail client, in Dafny

The client keeps its state in one SQLite file and reaches it through two
Rust modules:

- `src/db.rs`, the **mail store**. It has an `emails` table whose `id` is
  an `INTEGER PRIMARY KEY` (the rowid) and a key/value `settings` table. It
  creates both tables, and adds the `category` column to an emails table
  that lacks it. It replaces the whole mailbox in one
  transaction and lists, searches and filters emails by category. It moves
  an email to another category, counts the emails, and stores the theme
  mode.
- `src/auth.rs`, the **account table**. It holds IMAP accounts keyed by
  email address (`email TEXT PRIMARY KEY`). It upserts an account with
  `INSERT OR REPLACE`, lists all accounts, updates a password, and looks a
  password up with two distinct failures: "Account not found" and "No
  password found".

The project has four modules:

- `Storage` (`storage.dfy`): results, options, the storage engine's
  errors, and the fault model.
- `SqlText` (`sql_text.dfy`): Rust's `str::trim` and SQLite's `LIKE`
  operator.
- `Db` (`db.dfy`): the class `MailStore`.
- `Auth` (`auth.dfy`): the class `AccountStore`.

Each Rust function that opens a connection and runs SQL is a method on the
store's object. The tables are fields that the method reassigns. The
schema is a field as well: no emails table, a table from before the
`category` column, or the current table.

How the model stands in for the engine:

- **Faults.** Every method takes an `Io` value. The method numbers its SQL
  steps, and `FaultAt(k)` makes step `k` fail. Opening the connection is
  step 0; the later steps are listed in each method's comment. A SELECT
  reads each row in its own step and then takes one more step, the fetch
  that finds no further row. Contracts say exactly which faults and which
  schema states lead to an error, and what the tables hold afterwards.
- **Row order.** The emails table is kept in ascending id order, which is
  rowid order and so SQLite's scan order. The accounts table is kept in
  rowid order. `INSERT OR REPLACE` therefore deletes an account's old row
  and appends the new one.
- **Search.** `LIKE` is modelled by its matching rule: `%` matches any run
  of characters, `_` matches one, and only the 26 ASCII letters are folded.
  SQLite's limit on pattern length and its reading of text only up to a
  NUL character are not modelled (see "Left out").
  `search_emails` wraps the user's query in `%…%` without escaping it.
  `SqlText.SearchPatternIsSubstring` shows that for a query without `%` or
  `_` the search is a case-insensitive substring test.
  `SqlText.UnderscoreMatchesAnyCharacter` shows that every `_` in a query
  without `%` matches any character, and `SqlText.UnderscoreIsAWildcard` that the
  query `a_c` finds `abc`.

## Model

| member | source | states |
|---|---|---|
| SqlText.TrimStart | src/db.rs:99 | the leading part dropped is all whitespace, and what is kept is a suffix of the input that does not start with whitespace |
| SqlText.TrimEnd | src/db.rs:99 | the trailing part dropped is all whitespace, and what is kept is a prefix of the input that does not end with whitespace |
| SqlText.Trim | src/db.rs:99 | the trimmed query is empty exactly when every character of the query is Unicode whitespace |
| SqlText.FoldAscii | src/db.rs:105 | LIKE's case folding: an upper-case ASCII letter becomes the lower-case letter 32 code points above it, every other character is kept; the result is never an upper-case ASCII letter |
| SqlText.FoldAsciiAlike | src/db.rs:105 | two characters fold alike exactly when they are equal or are the upper- and lower-case forms of one ASCII letter |
| SqlText.Like | src/db.rs:105 | `text LIKE pattern` with `%`, `_` and ASCII folding; a pattern without wildcards matches exactly the texts equal to it up to ASCII case |
| SqlText.SearchPattern | src/db.rs:107 | the pattern is the query with one `%` added in front and one behind |
| SqlText.PercentMatchesAll | src/db.rs:107 | the pattern `%` matches every text |
| SqlText.LiteralThenPercent | src/db.rs:107 | a wildcard-free literal followed by `%` matches exactly the texts that start with the literal, ignoring ASCII case |
| SqlText.PercentThen | src/db.rs:107 | a leading `%` matches a text exactly when the rest of the pattern matches some suffix of it |
| SqlText.SuffixMatch | src/db.rs:107 | literal + `%` matches the suffix of a text from position i exactly when the literal occurs at i |
| SqlText.SearchPatternIsSubstring | src/db.rs:103-107 | for a query with no `%` or `_`, `%query%` is LIKE a text exactly when the text contains the query, ignoring ASCII case (both directions) |
| SqlText.UnderscoreIsAWildcard | src/db.rs:107 | the unescaped query `a_c` matches the text `abc`, which does not contain `a_c` |
| SqlText.FitsThenPercent | src/db.rs:107 | a `%`-free pattern followed by `%` matches every text whose start agrees with the pattern, ignoring ASCII case, wherever the pattern does not hold `_` |
| SqlText.UnderscoreMatchesAnyCharacter | src/db.rs:107 | the query is not escaped: a query without `%` finds every text that agrees with it, ignoring ASCII case, at some offset and at every position where the query does not hold `_` |
| Db.ScanMembers | src/db.rs:138-141 | an email is in a SELECT's answer exactly when it is in the table and satisfies the WHERE clause |
| Db.ScanAppend | src/db.rs:120-123 | scanning two stretches of the table one after the other gives the two answers concatenated, which is what the push loop builds |
| Db.ScanEverything | src/db.rs:76-78 | a SELECT without WHERE returns the whole table in order |
| Db.ScanSorted | src/db.rs:19 | every answer keeps the table's ascending id order, so no email appears twice |
| Db.SearchMatchesSubstring | src/db.rs:103-107 | for a wildcard-free query, an email matches the search exactly when its subject, sender or body contains the query, ignoring ASCII case |
| Db.Satisfies | src/db.rs:103-106 | the WHERE clauses: every row, `subject LIKE p OR sender LIKE p OR body LIKE p`, or `category = c` |
| Db.Scan | src/db.rs:76-78 | a SELECT returns no more rows than the table holds, and every row it returns satisfies the WHERE clause |
| Db.WithDefaultCategory | src/db.rs:30-33 | the ALTER keeps every row and all its other fields, gives every row the category "Inbox", and keeps the id order |
| Db.SpliceAbsent | src/db.rs:19 | when an id falls strictly between the smaller and the larger ids of the table, no row has it |
| Db.SpliceSorted | src/db.rs:19 | placing a row between the smaller and the larger ids keeps the table in ascending id order |
| Db.Splice | src/db.rs:54-55 | placing a row in its id position keeps the order and adds exactly that row to the table's contents |
| Db.InsertRow | src/db.rs:59-67 | one INSERT fails with a constraint violation exactly when the id is already in the table; otherwise the table stays in id order and gains exactly the new email |
| Db.DuplicateId | src/db.rs:59-67 | an INSERT rejected as a duplicate means two of the inserted emails share an id |
| Db.InsertedNext | src/db.rs:58-68 | an accepted INSERT extends the staged table by the next email: in id order, the same contents as the emails so far, no repeated id |
| Db.StagedAll | src/db.rs:58-68 | once every email is staged, the staged table holds exactly the emails, in id order, and their ids are distinct |
| Db.InsertNext | src/db.rs:59-67 | the INSERT of the next email either stages one more email or fails with a constraint violation on input that repeats an id |
| Db.InsertAll | src/db.rs:58-68 | the INSERT loop succeeds exactly when the ids are distinct and no insert step faults; the result holds exactly the emails, in id order; a failure is a fault or a repeated id |
| Db.SetCategory | src/db.rs:129-132 | the UPDATE keeps the table's length; the row with the id gets the new category, and every other row and every other field is unchanged |
| Db.SetCategoryMissingId | src/db.rs:127-134 | updating an id that no row has leaves the table unchanged |
| Db.SetCategorySorted | src/db.rs:129-132 | the UPDATE keeps the table in id order |
| Db.CategoryIds | src/db.rs:136-141 | an id is in the answer for category k exactly when some row with that id has category k |
| Db.CategoryListsAfterUpdate | src/db.rs:127-159 | after moving email `id` to category c, the ids listed under any category k are those listed before, except that `id` is listed exactly when it exists and k is c |
| Db.MailStore.constructor | src/db.rs:15-28 | a file without tables: no emails table, no settings table, no rows |
| Db.MailStore.Legacy | src/db.rs:29-33 | a file from before the category column: its rows in id order, no settings table |
| Db.MailStore.InitDb | src/db.rs:15-43 | which faults make it fail; the schema becomes current when the table is created or the ALTER succeeds; a migrated table reads "Inbox" in every row; a failed ALTER is ignored; the settings table exists after success; on an initialised store nothing changes |
| Db.MailStore.InsertEmails | src/db.rs:45-72 | succeeds exactly when the table is current, the ids are distinct and no step up to the commit faults; then the table holds exactly the given emails; on any failure the transaction rolls back and the table is unchanged |
| Db.MailStore.Query | src/db.rs:91-95 | the SELECT loop succeeds exactly when the table is current and no step faults, counting one read per row and the final fetch that ends the scan, and returns the scan of the table under the WHERE clause |
| Db.MailStore.GetAllEmails | src/db.rs:74-96 | on success returns the whole table in id order; the error cases are those of the SELECT |
| Db.MailStore.SearchEmails | src/db.rs:98-125 | a blank query returns the whole table; any other query returns, in id order, exactly the emails whose subject, sender or body is LIKE `%query%` |
| Db.MailStore.GetEmailsByCategory | src/db.rs:136-159 | returns, in id order, exactly the emails whose category equals the argument |
| Db.MailStore.UpdateEmailCategory | src/db.rs:127-134 | succeeds exactly when the table is current and neither step faults; the table is then the UPDATE's result, else unchanged; an unknown id succeeds and changes nothing |
| Db.MailStore.CountEmails | src/db.rs:161-172 | succeeds exactly when an emails table exists, even one without the category column, and no step faults; the count is the number of rows |
| Db.MailStore.SaveSetting | src/db.rs:199-207 | the upsert succeeds exactly when the settings table exists and no step faults; then the key maps to the value and every other setting is kept |
| Db.MailStore.GetSetting | src/db.rs:209-220 | on success returns the stored value, or the default when the key is absent |
| Db.MailStore.SaveThemeMode | src/db.rs:199-207 | stores the mode under "theme_mode" and changes nothing else |
| Db.MailStore.GetThemeMode | src/db.rs:209-220 | returns the stored theme mode, or "system" when none is stored |
| Db.ReplaceThenRead | src/db.rs:45-172 | on an initialised store, after `insert_emails(es)` with distinct ids, `get_all_emails` returns exactly `es` in id order and `count_emails` returns its length |
| Db.ThemeModeRoundTrip | src/db.rs:199-220 | a fresh, initialised store reads "system"; after `save_theme_mode(m)` it reads `m` |
| Db.CountMatchesAll | src/db.rs:74-172 | when both succeed, `count_emails` equals the length of `get_all_emails`; when the listing succeeds the count fails only by a fault |
| Auth.ToRow | src/auth.rs:32 | the row `save_account` writes stores `is_demo` as 0 or 1, and decoding it gives back the same account |
| Auth.FromRow | src/auth.rs:41-47 | the account `get_accounts` decodes from a row with flag 0 or 1 holds everything needed to rebuild that row, so decoding loses nothing |
| Auth.Without | src/auth.rs:31 | the rows kept are exactly those whose email differs |
| Auth.WithoutAppend | src/auth.rs:31 | the deletion works row by row and keeps the table order: deleting from two stretches gives the two results in order |
| Auth.WithoutDistinct | src/auth.rs:17 | deleting rows keeps emails unique |
| Auth.Upsert | src/auth.rs:31 | `INSERT OR REPLACE` adds at most one row, and the saved row comes last in scan order, having the newest rowid |
| Auth.UpsertReplaces | src/auth.rs:28-35 | after `INSERT OR REPLACE`, emails are unique, exactly one row has the saved email and it is the saved row, the rows with other emails are those there were, and the set of emails gains the saved one |
| Auth.Lookup | src/auth.rs:68-71 | a found row is in the table and has the email; nothing is found exactly when no row has the email |
| Auth.LookupUnique | src/auth.rs:17 | with unique emails, the lookup finds a row exactly when the row is in the table with that email |
| Auth.SetPassword | src/auth.rs:59-62 | the UPDATE keeps the length; only the password of the row with the email changes |
| Auth.SetPasswordKeepsKeys | src/auth.rs:59-62 | the UPDATE keeps emails unique and keeps the same set of emails |
| Auth.SetPasswordMissing | src/auth.rs:57-64 | updating an email no account has changes nothing |
| Auth.SetPasswordLookup | src/auth.rs:57-77 | after the UPDATE the lookup of the email finds its row with the new password and the other fields unchanged; lookups of other emails are unaffected |
| Auth.AccountStore.constructor | src/auth.rs:13-16 | a file without an accounts table: no table, no rows |
| Auth.AccountStore.InitDb | src/auth.rs:13-26 | succeeds exactly when neither step faults; the table exists after success; the accounts are never changed, so calling it again is harmless |
| Auth.AccountStore.SaveAccount | src/auth.rs:28-35 | succeeds exactly when the table exists and no step faults; the table is then the upsert of the saved row, else unchanged |
| Auth.AccountStore.GetAccounts | src/auth.rs:37-55 | succeeds exactly when the table exists and no step faults, counting one read per row and the final fetch that ends the scan; returns every stored account once, in table order, decoded with `is_demo` true exactly when the stored flag is 1; the emails listed are distinct |
| Auth.AccountStore.SavePassword | src/auth.rs:57-64 | succeeds exactly when the table exists and no step faults; only the password of that account changes; an unknown email succeeds and changes nothing; errors are SQL errors only |
| Auth.AccountStore.GetPassword | src/auth.rs:66-77 | returns the stored password exactly when the account exists with a password; "Account not found" exactly when no account has the email; "No password found" exactly when the account exists without a password; other errors come from faults or a missing table |
| Auth.PasswordRoundTrip | src/auth.rs:57-77 | for an existing account, `save_password(e, p)` then `get_password(e)` gives `p` |
| Auth.SaveThenList | src/auth.rs:28-55 | after `save_account(a)`, `get_accounts` lists `a` exactly once, with no other account under its email |

## Left out

- The connection, the file name `neural-mail.db` and the engine's own failures are replaced by the `Io` parameter. The model does not say what a fault does inside SQLite. It says only that the operation reports an error and that the tables are as the contract states.
- Two connections working at once, and locking, are not modelled. Each method runs alone.
- `save_sidebar_width` and `get_sidebar_width` are not part of this model. They format and parse an `f32`, and floating point is out of scope. The settings upsert and read they share with the theme mode are modelled by `SaveSetting` and `GetSetting`.
- The text of `rusqlite` errors is not modelled. `save_password` and `get_password` return strings; the model returns `AuthError` variants, and `Sql(cause)` stands for any SQLite message.
- Decoding a column into the wrong Rust type is not modelled. Every row was written by this code, so each column has the type it is read as. `has_attachment` is kept as a `bool`; it is written as 1 or 0 and read back with `== 1`, so it round-trips.
- The `Ok(0)` branch of `count_emails` is not modelled. It is taken when `SELECT COUNT(*)` returns no row, which never happens.
- `Db.MailStore.CountEmails`: the count is an unbounded integer. The source's `i64` cannot overflow for any table that fits in a file.
- `Db.MailStore.SearchEmails`: SQLite's limit on the length of a LIKE pattern (50 000 bytes by default) is not modelled. A longer query makes SQLite report "LIKE or GLOB pattern too complex", but the model answers it like any other query.
- `SqlText.Like`: SQLite reads the operands of LIKE only up to the first NUL character, so a subject, sender or body that contains `'\0'` is matched only up to it. The model compares the whole string.
- Row order without `ORDER BY` is taken to be rowid order. That is what SQLite does for these plain table scans, but the SQL standard does not promise it.
- The rest of the program is not part of this model: the UI, the IMAP client, the AI categoriser, and the OS keyring wrapper.
- `Db.InsertAll`: when the ids repeat and a step also faults, the contract does not say which error is reported. It says only that the error is a fault or a constraint violation, and which of the two conditions holds.
