# pwman record store, modelled in Dafny

pwman keeps credential records (`Secret`: name, website, user, password,
notes) in one SQLite table `pw` with an integer primary key `id`. This
project models its record store from `pwman.py`:

- the `Secret` row and its columns (`Records`);
- SQLite's `lower()` and `LIKE`, which `Secret.name.ilike(...)` renders to (`SqlLike`);
- the search rule of `SecretManager.query` (`Search`);
- the table as a map from id to row, the `upsert` rule, `listall`, `query`,
  and `SecretManager` with its session and `transaction()` write scope (`Store`);
- the command handlers `upsert(args)`, `query(args)` and `listall(args)`,
  with the loop that keeps only truthy options (`Cli`).

The database file is a `Table` value. A `SecretManager` holds `stored` (what
the file holds) and `session` (the open session's view, with its pending
changes). `Upsert` changes only `session`. Only `EndTransaction` on a normal
exit writes `stored`. `Exit` drops the session, so uncommitted changes are
lost. New rows get one more than the largest id, starting at 1. This is
SQLite's rule for an INTEGER PRIMARY KEY; `WellFormed` keeps `nextId` equal to it.

`--id` reaches `upsert` as text, because argparse gives strings. "Truthy"
therefore means non-empty. The text selects a row when it is a string of
decimal digits, read as an integer, as SQLite compares text with an
integer column. So `--id 0` takes the update branch and fails.

Points of `pwman.py` that the model follows as written:
- `query` pastes the term into the `LIKE` pattern unescaped, so `%` and `_`
  in the term act as wildcards (see Findings).
- The empty term selects only the rows whose name or website is not NULL.
- An `--id` that selects no row makes `upsert` raise inside `setattr` or
  `merge`, which are then applied to `None`. Nothing is committed.
- The `except e:` clause of `transaction()` raises NameError, because `e` is
  undefined, so no rollback runs and nothing is committed. The pending change
  is dropped when `__exit__` closes the session.
- Nothing stops an upsert inside a `reading()` scope. The model has no such
  check either.

## Model

| member | source | states |
|---|---|---|
| Records.ColumnsListsEveryColumn | pwman.py:96-97 | the column list the options are read from names every column of `pw` |
| Records.SetField | pwman.py:69-70 | `setattr` of one column sets that column to the value, keeps the id and every other column |
| Records.Assign | pwman.py:69-70 | after the `setattr` loop each supplied column holds its value, every other column and the id are unchanged |
| Records.NewSecret | pwman.py:19-26 | `Secret(**kwargs)` has the given id, the supplied columns, and NULL in every column not supplied |
| SqlLike.Lower | pwman.py:81-82 | `lower()` keeps the length and folds each character by itself, ASCII only |
| SqlLike.LowerIdempotent | pwman.py:81-82 | folding a folded string changes nothing, so `lower()` on both sides of `LIKE` can be applied twice without effect |
| SqlLike.LowerSlice | pwman.py:81-82 | folding a string and then taking a slice gives the same as folding the slice |
| SqlLike.LowerPattern | pwman.py:81-82 | folding the pattern `%p%` folds `p` and keeps the two `%` |
| SqlLike.Like | pwman.py:81-82 | a pattern with no `%` matches no string longer than itself, and without an escape character only strings of its own length |
| SqlLike.PatternMatchesItself | pwman.py:81-82 | every string used as a pattern with no escape character matches itself |
| SqlLike.AppendPercent | pwman.py:81-82 | a string that a pattern matches is still matched when `%` is appended to the pattern |
| SqlLike.SurroundedPatternMatchesItself | pwman.py:81-82 | every string matches the pattern made of itself between two `%` |
| SqlLike.PercentMatchesAll | pwman.py:81-82 | the pattern `%` matches every string |
| SqlLike.LowerEqualCons | pwman.py:81-82 | two strings of equal length are equal up to ASCII case exactly when their first characters and their rests are |
| SqlLike.ContainsLowered | pwman.py:81-82 | folding both the string and the term does not change whether the term occurs in the string, ignoring case |
| SqlLike.PercentPrefix | pwman.py:81-82 | a pattern `%r` matches `s` exactly when `r` matches some suffix of `s` |
| SqlLike.LiteralPrefix | pwman.py:81-82 | a wildcard-free pattern followed by `%` matches exactly the strings that begin with its text, ignoring case |
| SqlLike.LikeContains | pwman.py:81-82 | `s LIKE '%p%'` for a wildcard-free `p` holds exactly when the text of `p` occurs in `s`, ignoring case |
| SqlLike.LiteralDenotesItself | pwman.py:81-82 | a term with no `%` or `_` is a wildcard-free pattern for itself |
| SqlLike.EscapeDenotes | pwman.py:81-82 | every term, with `%`, `_` and `/` escaped by `/`, is a wildcard-free pattern for itself |
| SqlLike.LowerDenotes | pwman.py:81-82 | folding a wildcard-free pattern and its text keeps the one a pattern for the other |
| SqlLike.FoldedLikeContains | pwman.py:81-82 | `lower(v) LIKE lower('%p%')` holds exactly when the text of `p` occurs in `v`, ignoring ASCII case |
| Search.Matches | pwman.py:78-84 | a row with NULL name and NULL website never matches; a row whose name or website equals the term always matches |
| Search.MatchesEscaped | pwman.py:78-84 | the corrected rule: a row with NULL name and NULL website never matches; a row whose name or website equals the term always matches |
| Search.MatchesIffContains | pwman.py:78-84 | for a term without `%` or `_`, a row matches exactly when its name or website is set and contains the term, ignoring ASCII case |
| Search.MatchesIgnoresCase | pwman.py:78-84 | two terms that differ only in ASCII case match the same rows |
| Search.EmptyTermMatchesSetColumns | pwman.py:78-84 | the empty term matches exactly the rows whose name or website is not NULL |
| Search.PercentInTermOverMatches | pwman.py:81-82 | the term `50%` matches a row whose website `5000` does not contain `50%` |
| Search.PercentTermMatchesFiveThousand | pwman.py:81-82 | `5000` is matched by the pattern `%50%%` that the term `50%` produces |
| Search.FiveThousandLacksPercentTerm | pwman.py:81-82 | `50%` does not occur in `5000`, in any case |
| Search.UnderscoreInTermOverMatches | pwman.py:81-82 | the term `a_c` matches a row whose name `abc` does not contain `a_c` |
| Search.UnderscoreTermMatchesAbc | pwman.py:81-82 | `abc` is matched by the pattern `%a_c%` that the term `a_c` produces |
| Search.AbcLacksUnderscoreTerm | pwman.py:81-82 | `a_c` does not occur in `abc`, in any case |
| Search.EscapedMatchesIffContains | pwman.py:78-84 | with the term escaped, a row matches exactly when its name or website contains the term, for every term |
| Store.PrintedIdSelectsRow | pwman.py:68 | an id written in decimal and given back as `--id` selects that same id |
| Store.RowKey | pwman.py:68 | id text selects an id exactly when it is non-empty and made of decimal digits; that id is nonnegative and below 10 to the power of the text's length |
| Store.Upserted | pwman.py:65-73 | upsert succeeds exactly when no truthy id is given or the id selects an existing row; otherwise it raises with that id text; a successful upsert drops no row |
| Store.InsertAddsOneFreshRow | pwman.py:65-73 | without a truthy id, upsert adds exactly one row, under an id no row had, with the supplied columns and NULL elsewhere; all old rows stay |
| Store.UpdateSetsSuppliedColumns | pwman.py:65-71 | with the id of an existing row, upsert sets exactly the supplied columns of that row; its id, its other columns, the other rows and the next id stay |
| Store.UpdateOfMissingRowFails | pwman.py:67-71 | with a truthy id that selects no row, upsert raises |
| Store.ZeroIdFails | pwman.py:66-68 | `--id 0` is truthy, takes the update branch and raises, because no row has id 0 |
| Store.UpsertKeepsRowsAndIds | pwman.py:65-73 | a successful upsert keeps the table well formed, keeps every row and changes no id |
| Store.UpdateIdempotent | pwman.py:65-71 | repeating the same update changes nothing further |
| Store.OrderedRows | pwman.py:75-76 | the scan yields every row of the id range, each once, in increasing id order |
| Store.Select | pwman.py:78-84 | the filter keeps exactly the rows the search rule matches, in id order when the input is in id order |
| Store.SecretManager.constructor | pwman.py:34-36 | a new manager has the file's table and no session |
| Store.SecretManager.Enter | pwman.py:38-41 | `__enter__` opens a session that sees the stored table; the file is unchanged |
| Store.SecretManager.Exit | pwman.py:43-45 | `__exit__` closes the session and leaves the file as it was: uncommitted changes are lost |
| Store.SecretManager.EndTransaction | pwman.py:47-54 | on normal exit the file becomes the session's table; when the body raised the file is unchanged |
| Store.SecretManager.Upsert | pwman.py:65-73 | upsert changes only the session, to the upsert rule's table; when it raises the session is unchanged; the file is never written |
| Store.SecretManager.ListAll | pwman.py:75-76 | `listall` returns every row the session sees, each once, in id order |
| Store.SecretManager.Query | pwman.py:78-84 | `query` returns exactly the rows the session sees that match the term, in id order |
| Cli.Supplied | pwman.py:94-100 | the upsert arguments are exactly the columns whose option is truthy, each with its option's value |
| Cli.SuppliedValuesAreTruthy | pwman.py:98-100 | no upsert argument is empty, so no option can clear a column |
| Cli.NoIdMeansInsert | pwman.py:66-67 | without a truthy `--id` the upsert takes the insert branch |
| Cli.CollectKwargs | pwman.py:94-100 | the loop over the columns builds exactly the truthy options |
| Cli.UpsertCommand | pwman.py:94-103 | the file ends with the upserted table when upsert succeeds, and with its old table when upsert raises |
| Cli.QueryCommand | pwman.py:105-109 | the command returns exactly the file's rows that match the term, in id order |
| Cli.ListCommand | pwman.py:111-115 | the command returns every row of the file, each once, in id order |

## Findings

| source | as written | input that shows it | evidently intended | confidence | as-written member | corrected member |
|---|---|---|---|---|---|---|
| pwman.py:81-82 | the term is pasted into the `LIKE` pattern unescaped, so `%` and `_` in it are wildcards | `query 50%` selects a row whose website is `5000` | the term is searched for as a literal substring | medium, not executed | Search.PercentInTermOverMatches | Search.EscapedMatchesIffContains |

`Store.SecretManager.Query` keeps the rule as the code has it.
`Search.MatchesIffContains` proves that this rule agrees with the corrected
one on every term without `%` or `_`.

## Left out

- Engine and connection creation and `os.path.abspath` (pwman.py:34-36): calls into SQLAlchemy. The file's table is a parameter.
- SQLAlchemy session internals: the identity map, autoflush, `merge` and `expunge_all`. The session is a copy of the table with its pending changes. Records are values, so the detaching done by `reading()` (pwman.py:56-63) has nothing to do in the model.
- The `print(e)` and `rollback()` branches (pwman.py:52-54, 61-63): they never run, because `except e:` names an undefined variable. Only their net effect is modelled: the error propagates and nothing is committed.
- `print_secrets` and `Secret.todict` (pwman.py:28-31, 86-92): terminal rendering and reflection.
- `main`, argument parsing and the database-file existence check (pwman.py:117-143): CLI and filesystem I/O. The commands take the parsed options and the file's table.
- Store.RowKey: only text made of ASCII digits selects a row. SQLite would also read some other texts as an integer, such as text with spaces, a sign or `1.0`; the model treats those as selecting no row.
- Store.SecretManager.EndTransaction: the commit is taken to succeed. `self._sess.commit()` (pwman.py:51) can raise, for example on a locked or read-only file or a disk I/O error; then `except e:` raises NameError and nothing is committed, which the model does not capture.
- Store.Upserted / Store.RowKey: ids are unbounded integers. SQLite's rowid is a 64-bit integer: once the largest id is 2^63-1 SQLite picks a random unused id instead of one more, and a digit string of more than 19 digits selects no row. The model captures neither.
- Unicode case folding: SQLite folds ASCII letters only, and so does the model.
- Calls of `SecretManager.upsert` from outside the CLI, with non-text values or keyword names that are not columns: the CLI never makes them, and the argument type admits only columns with text values.
- Row order: the queries have no ORDER BY. The model returns rows in id order, the order of SQLite's table scan.
- Id assignment time: SQLAlchemy assigns the id at flush; the model assigns it when the row is added. Both give the same id for the one upsert each transaction issues.
- setup.py: packaging metadata with no logic.
