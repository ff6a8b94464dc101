# A verified model of a text-file table store

The modelled system is a small database that keeps every table in two text
files: `data/<table>.txt` holds a header line of comma-joined column names
and then one comma-joined line per row; `data/<table>.meta.txt` holds a
`PRIMARY_KEY=` line and, when there are unique keys, a `UNIQUE_KEYS=` line.
A `TableManager` caches loaded tables and metadata and hands out one lock
per table name. A `Transaction` sorts the table names it is given, takes
their locks in that order, and loads each table. Then it inserts, updates,
deletes and reads rows, and `commit` writes every table back. A command-line
front end parses value lists, `col = 'value'` conditions, CREATE TABLE
column specifications and SELECT statements.

The Dafny project models this core as pure functions over immutable values:

- A table is a list of column names plus a map from each name to its cells.
- Files are strings in a map keyed by table name; a missing key is a
  missing file.
- Every operation returns its new state together with a `Result`, whose
  `Error` names the case the source raises or prints.

| file | module | models |
|---|---|---|
| base.dfy | Base | `Option`, `Result`, `Error`; sequence helpers (Python `set` as a duplicate-free sequence) |
| text.dfy | Text | Python `str.strip`, `split`, `join`, `readlines`, `upper`, `find` |
| sorting.dfy | Sorting | Python's `<` on `str` and the stable `sorted` / `list.sort` |
| schema.dfy | Schema | `TableMetadata` and its file encoding and decoding |
| tables.dfy | Tables | the column map and the row operations of `Transaction` |
| storage.dfy | Storage | the data-file format written by `commit` / `_persist_table` and read by `_load_table` |
| table_manager.dfy | TableManager | `TableManager`: locks, metadata cache, create / drop / describe / ALTER |
| transactions.dfy | Transactions | `Transaction`: begin, row operations, reads, `commit` |
| commands.dfy | Commands | `parse_values`, `parse_condition`, the CREATE TABLE spec loop, SELECT clause extraction |

Some of the source's behaviour is surprising, and the model keeps it as
written:

- A renamed column moves to the end of the column order, because the dict
  entry is popped and inserted again.
- Every ALTER first reloads the table from its data file's header line
  only. The file written afterwards therefore has no rows.
- `update_rows` does no uniqueness check. Only insert and delete are proved
  to keep the primary-key and unique columns duplicate-free.
- A transaction's table list is `sorted(tables)`, so a repeated name stays
  repeated and is locked and loaded twice.
- A rename whose metadata was never cached renames the cached table and
  then fails before anything is written.
- `parse_values` drops a last value that is empty, so `('')` yields no
  values at all.
- `commit` writes a table's header before it finds that the table has no
  columns, and then stops. Earlier tables stay written.

## Model

| member | source | states |
|---|---|---|
| Base.Dedup | table_manager.py:9 | `set(unique_keys)`: the result is duplicate-free, has exactly the members of the input, and is the input itself when that is already duplicate-free |
| Base.DedupOrder | table_manager.py:179 | the distinct elements come in the order of their first occurrence, which is the key order of a dict built from the list |
| Base.Add | table_manager.py:154 | `set.add`: the result stays duplicate-free and its members are the old ones plus the new key |
| Base.Discard | table_manager.py:134 | `set.discard`: the result keeps every member except the discarded one, stays duplicate-free, and never grows |
| Text.Strip | transaction.py:25 | `str.strip()`: the result has no whitespace at either end, is the input unchanged when the input already has none, and holds only characters of the input |
| Text.Split | transaction.py:25 | `str.split(sep)`: at least one piece, and no piece contains the separator |
| Text.JoinSplit | transaction.py:25 | joining the pieces of a split with the separator gives back the text that was split |
| Text.SplitJoin | transaction.py:135-137 | splitting a comma-joined line whose parts hold no comma gives back exactly those parts |
| Text.LinesRoundTrip | transaction.py:24 | `readlines` on text written as newline-terminated lines, none holding a line-end character, gives back those lines |
| Text.Lines | transaction.py:23-24 | text-mode `readlines`: a file has no lines exactly when it is empty, and no line holds `\n` or `\r` (how `\r\n` and a lone `\r` end lines is stated by Text.LineEndsRoundTrip) |
| Text.NewlinesAppend | transaction.py:23-24 | translating line ends piecewise gives the translation of the whole text, unless the cut splits a `\r\n` pair |
| Text.NewlinesTerminated | transaction.py:23-24 | lines ended by `\n`, `\r\n` or a lone `\r` translate to the same lines ended by `\n` |
| Text.LineEndsRoundTrip | transaction.py:23-24 | universal newlines: `readlines` on text written as lines ended by `\n`, by `\r\n` or by a lone `\r` gives back those lines |
| Text.Upper | database_cli.py:92 | `str.upper()` keeps the length and maps every character on its own |
| Text.Find | database_cli.py:111 | `str.find`: a result is a position where the pattern occurs and no earlier position matches; no result means no position matches |
| Text.FirstWord | database_cli.py:117 | `s.split()[0]`: the first word is the run of non-blank characters that starts the text after its leading whitespace; it has no whitespace and is non-empty when the text has a non-blank character |
| Text.RemoveAll | database_cli.py:68 | `.replace("(", "").replace(")", "")`: no dropped character is left, only characters of the input remain, and text without any is unchanged |
| Sorting.LessTotal | transaction.py:8 | Python's string order is total and asymmetric: two different strings are ordered exactly one way |
| Sorting.LessTransitive | transaction.py:8 | Python's string order is transitive |
| Sorting.SortBy | transaction.py:8 | `sorted`: the result is in ascending key order and is a permutation of the input (same multiset, so duplicates are kept) |
| Sorting.SortByStable | transaction.py:63 | the sort is stable: for every key, the elements with that key appear in the result in their input order |
| Sorting.Take | transaction.py:66 | `rows[:limit]`: the first `limit` elements, or all when there are no more; a negative limit leaves out the last `-limit` elements, or all of them; the result is a prefix and a sub-multiset of the input |
| Sorting.MatchingPrefix | transaction.py:65-66 | cutting a sequence to a prefix keeps, for every key, a prefix of the elements with that key |
| Schema.MakeMetadata | table_manager.py:6-9 | `TableMetadata(pk, keys)`: the primary key is the one given and the unique-key set has exactly the given keys, each once |
| Schema.DecodeKeyLine | table_manager.py:91-92 | a `PRIMARY_KEY=` line sets the primary key to the text after `=` and changes nothing else |
| Schema.DecodeUniqueLine | table_manager.py:93-94 | a `UNIQUE_KEYS=` line adds each comma-separated name to the unique-key set |
| Schema.LoadMetadata | table_manager.py:84-95 | a missing metadata file gives no primary key and no unique keys; the unique keys read are always duplicate-free |
| Schema.MetadataRoundTrip | table_manager.py:77-95 | `_save_metadata` then `_load_metadata` gives back the same primary key and unique keys, also when no `UNIQUE_KEYS` line is written, provided names hold no `=`, comma, line-end character or surrounding blanks |
| Schema.MissingKeyReloadsAsNone | table_manager.py:80 | metadata without a primary key is written as `PRIMARY_KEY=None` and reloads with the key named `None` |
| Tables.EmptyTable | table_manager.py:37 | `{col: [] for col in columns}`: an aligned table with no rows whose columns are the names given, each once, in the order they first occur |
| Tables.Positions | transaction.py:122 | exactly the indices whose cell equals (or differs from) the value, in increasing order |
| Tables.PositionsPartition | transaction.py:122-126 | the matching and the non-matching indices together account for every row |
| Tables.FirstClash | transaction.py:44-48 | the first column, from a start on, whose constrained value already occurs in it; none means no column clashes |
| Tables.Insert | transaction.py:41-50 | a wrong value count is refused; otherwise the insert fails exactly when a primary-key or unique column already holds its new value, naming the first such column; on success column `j` gains `values[j]` at its end and nothing else changes |
| Tables.InsertAppendsRow | transaction.py:49-50 | a successful insert keeps the table aligned, adds exactly one row equal to the values after the existing rows, and leaves every existing row as it was |
| Tables.InsertKeepsUnique | transaction.py:43-50 | a successful insert keeps the primary-key and unique columns duplicate-free |
| Tables.Overwrite | transaction.py:112-114 | the target column gets the new value exactly at the indices where the WHERE column holds the WHERE value, and keeps its cell elsewhere |
| Tables.Update | transaction.py:110-116 | a missing WHERE column fails; a missing SET column fails only when some row matches; on success the count is the number of matching rows, only the SET column changes, and only at matching rows |
| Tables.Delete | transaction.py:121-126 | a missing column fails; on success the rows whose cell equals the value are removed from every column, the survivors keep their order, alignment holds, and the count is the number removed |
| Tables.PickRows | transaction.py:123-125 | keeping the rows at given indices keeps the header and alignment, and row `k` of the result is the row at the `k`-th index |
| Tables.DeleteKeepsUnique | transaction.py:122-125 | deleting rows keeps the primary-key and unique columns duplicate-free |
| Tables.FirstMissing | transaction.py:82-85 | the first selected name that is not a column; none means every selected name is a column |
| Tables.Arrange | transaction.py:61-66 | a stable sort on the ORDER BY position and then the LIMIT cut: exactly as many rows as `rows[:limit]` keeps, a negative limit counting from the end, which are the first ones of the stable sort when a key is given and of the input when none is; always a sub-multiset of the input, and a permutation of it when there is no limit |
| Tables.Selection | transaction.py:90-101 | the selected rows projected onto the headers, then arranged: with ORDER BY the output is the first rows of the stable sort of the projections; it is always a sub-multiset of the projections, and in their order when there is no ORDER BY |
| Tables.ReadTable | transaction.py:58-66 | a selected name that is not a column fails, and so does an ORDER BY name that is a column but not selected; otherwise every row is listed, projected, sorted by the ORDER BY column when it is a column and left in order when it is not, and then cut to the limit; the rows listed are the first ones of the stable sort, a sub-multiset of all projected rows, and all of them when there is no limit |
| Tables.ReadTableStable | transaction.py:61-66 | with ORDER BY, rows that share a sort key keep their table order: for every key, the rows listed with it are the first ones of the table's rows with it, and all of them when there is no limit |
| Tables.ReadWhere | transaction.py:77-101 | a missing WHERE or selected column fails, and so does an ORDER BY name that is not among the selected headers; otherwise exactly the matching rows are listed, each the projection of a row whose WHERE cell equals the value, in ascending ORDER BY order, cut to the limit; they are the first rows of the stable sort of the matching projections and a sub-multiset of them |
| Tables.ReadWhereStable | transaction.py:96-101 | with ORDER BY and any limit, rows that share a sort key keep the order they had in the table: for every key, the rows listed with it are the first matching rows with it, and all of them when there is no limit |
| Storage.FormatLines | transaction.py:134-138 | the written lines are the comma-joined header and then the comma-joined row `i` as line `i + 1` |
| Storage.Header | table_manager.py:177-178 | an empty data file has no header; otherwise the header is the first line, stripped and split at commas, and holds at least one name |
| Storage.HeaderOfFormat | transaction.py:133-138 | the header of a file written in the commit format is exactly the table's column list, in order |
| Storage.HeaderOfLine | table_manager.py:35-36 | the header of a one-line file of comma-joined plain names, as CREATE TABLE writes it, is exactly those names, repeats included |
| Storage.ParseLines | transaction.py:24-30 | `_load_table`: an empty file fails on its first line; otherwise the columns are exactly the header's names |
| Storage.Parse | transaction.py:23-27 | a data file fails to load exactly when it has no line, naming the table; otherwise the table is well-formed and its columns are exactly the header's names |
| Storage.EntriesDistinct | transaction.py:29-30 | with a header that repeats no name, each line adds exactly one cell to each column: its value at that position, or `""` when the line is short |
| Storage.ParseLinesDistinct | transaction.py:25-30 | with a header that repeats no name, the loaded table is aligned, has one row per later line, and holds each line's cells, padded with `""` |
| Storage.LineRoundTrip | transaction.py:28 | a line written from cells without commas, line-end characters or surrounding blanks is read back as those cells |
| Storage.HeaderRoundTrip | table_manager.py:35-37 | a file holding one comma-joined header line of plain names loads back as the empty table with exactly those columns, repeated names included |
| Storage.FormatRoundTrip | transaction.py:133-138 | a table written in the commit format is loaded back as the same table when it has a column and its names and cells are plain |
| TableManager.GetLock | table_manager.py:67-70 | `get_table_lock`: an existing lock is returned unchanged; a new name gets a new lock, different from every other, and no other entry changes |
| TableManager.GetLockIdempotent | table_manager.py:67-70 | asking twice for the same table's lock gives the same lock and the same lock map |
| TableManager.GetLockDistinct | table_manager.py:67-70 | two different table names get two different locks |
| TableManager.GetMetadata | table_manager.py:72-75 | cached metadata is returned as it is; otherwise it is loaded from the metadata file, and only that cache entry changes |
| TableManager.GetMetadataIdempotent | table_manager.py:72-75 | a second request is answered from the cache with the same metadata |
| TableManager.StoreTable | table_manager.py:160-168 | `_persist_table`: the data file holds the written form of the cached table, and nothing but that table's entries changes |
| TableManager.StoreMetadata | table_manager.py:77-82 | `_save_metadata`: the metadata file holds the encoding of the cached metadata, and nothing but that table's entries changes |
| TableManager.Created | table_manager.py:35-40 | after a create, the data file holds the given column names comma-joined on one line, repeated names included, which is the written form of the cached empty table when the names are distinct; the cache has an aligned table with no rows and exactly the given columns; the metadata has the given primary key and unique keys and is written; nothing else changes |
| TableManager.CreateTable | table_manager.py:24-41 | `create_table` fails exactly when the data file exists, the primary key is not a column, or some unique key is not a column, in that order of checks; otherwise it gives the created state |
| TableManager.CreateThenLoad | table_manager.py:35-37 | a new table's data file loads back as the empty table that was cached, also when the column list repeats a name |
| TableManager.CreateThenLoadMetadata | table_manager.py:38-40 | a new table's metadata file reads back as the cached metadata |
| TableManager.DropTable | table_manager.py:43-56 | `drop_table` fails exactly when the data file is missing; otherwise both files, both cache entries and the lock of that table go, and nothing else changes |
| TableManager.CreateThenDrop | table_manager.py:43-56 | dropping a table just created, when no lock was handed out for its name, gives back the state before the create, minus any stale metadata or cache entries of that name |
| TableManager.LoadHeaderOnly | table_manager.py:172-179 | `_load_table_to_memory`: with no file or an empty file nothing changes; otherwise the cached table becomes the empty table of the header line, its names in the header's order, and nothing else changes |
| TableManager.Flags | table_manager.py:107-113 | each column is flagged PRIMARY KEY exactly when it is the primary key and UNIQUE exactly when it is a unique key |
| TableManager.Describe | table_manager.py:97-113 | `describe_table` loads the header when the table is not cached and then fetches the metadata; it fails when no columns are cached, and otherwise lists every cached column with its flags |
| TableManager.DescribeAfterCreate | table_manager.py:97-113 | right after a create, describing the table lists exactly the declared columns, flags only the primary key as PRIMARY KEY and only the declared unique keys as UNIQUE, and changes nothing |
| TableManager.AddColumn | table_manager.py:117-120 | an existing column is refused, and so is a table with no columns; otherwise the new column goes last, filled with one `""` per row, and the other columns are untouched |
| TableManager.WithoutColumn | table_manager.py:133 | `del data[col]`: the column leaves the header and the map, and the other columns keep their order and cells |
| TableManager.Renamed | table_manager.py:148 | `data[new] = data.pop(old)`: the old column's cells move to the new name, which goes last; the other columns keep their order and cells |
| TableManager.DropColumn | table_manager.py:127-134 | a missing column and the primary-key column are refused; otherwise the column leaves the table and the unique-key set, and everything else stays |
| TableManager.RenameColumn | table_manager.py:142-148 | a missing old name and an existing new name are refused; otherwise the rename moves the cells to the new name placed last |
| TableManager.RenameInMetadata | table_manager.py:149-154 | a primary key or unique key naming the old column names the new one afterwards, and the unique keys stay duplicate-free |
| TableManager.AddInCache | table_manager.py:117-121 | the ADD COLUMN step on the cache: an uncached table or a refused column changes nothing; success writes the data file of the new table |
| TableManager.AlterAddColumn | table_manager.py:115-122 | ADD COLUMN after the header-only reload: the columns become the file header's names, each once and in header order, followed by the new column, and the file written holds the header alone |
| TableManager.DropInCache | table_manager.py:127-136 | the DROP COLUMN step on the cache: every refusal changes nothing, including metadata that was never cached; success writes both files |
| TableManager.AlterDropColumn | table_manager.py:125-137 | DROP COLUMN after the header-only reload: the columns become the file header's names, each once and in header order, without the dropped one and the file written holds the header alone |
| TableManager.RenameInCache | table_manager.py:142-156 | the RENAME step on the cache: uncached metadata fails after the cached table was already renamed, and no file is written; success writes both files with the renamed metadata |
| TableManager.AlterRenameColumn | table_manager.py:140-157 | RENAME COLUMN after the header-only reload keeps the cache aligned and the unique keys duplicate-free; on success the columns are the file header's names in header order without the old name, then the new name, and the file written holds the header alone |
| TableManager.RenameAfterReload | table_manager.py:141-155 | a successful rename after the reload writes the header alone, with the new name last |
| Transactions.LoadInto | transaction.py:19-34 | `_load_table`: a missing file loads nothing, an empty file fails, and otherwise the parsed table is stored under its name and nothing else changes |
| Transactions.ParseLoadable | transaction.py:25-30 | a data file whose header repeats no name, or that has no line after its header, loads as an aligned table |
| Transactions.Store | transaction.py:31-34 | a read-only transaction publishes into the manager's cache, any other keeps its own copy; the other side is untouched |
| Transactions.Request | transaction.py:14-16 | one more lock is requested, for the next table in order |
| Transactions.Step | transaction.py:14-17 | one step of the loop: lock the next table, then load it; it fails exactly when that table's file is empty |
| Transactions.Acquire | transaction.py:13-17 | the loop from table `i` on fails exactly when some later table's file is empty; otherwise every lock is held in list order |
| Transactions.Begin | transaction.py:6-17 | the table list is the ascending sort of the names given, duplicates kept, and their locks are taken in that order; it fails exactly when a named table's data file is empty |
| Transactions.BeginLoads | transaction.py:13-34 | after a begin, every named table with a data file is loaded as its file parses; a writing transaction loads its own copies and leaves the cache alone, a read-only one keeps no copies |
| Transactions.AcquireFrame | transaction.py:31-34 | loading never touches the cache in a writing transaction nor the copies in a read-only one |
| Transactions.TxInsert | transaction.py:36-50 | a read-only transaction, an unloaded table and a wrong value count are refused with nothing changed; otherwise the outcome is `Insert` on the transaction's copy with the fetched metadata |
| Transactions.TxInsertAppends | transaction.py:36-50 | a successful transactional insert adds one row equal to the values, keeps the others, and keeps key columns duplicate-free |
| Transactions.TxUpdate | transaction.py:107-116 | a read-only transaction and an unloaded table are refused; otherwise the outcome is `Update` on the copy, and no other table changes |
| Transactions.TxDelete | transaction.py:118-126 | a read-only transaction and an unloaded table are refused; otherwise the outcome is `Delete` on the copy, and no other table changes |
| Transactions.TxRead | transaction.py:53-58 | a table that is missing or has no columns is reported missing; otherwise the listing is `ReadTable` on the transaction's view |
| Transactions.TxReadWhere | transaction.py:72-79 | a table that is missing or has no columns is reported missing; otherwise the listing is `ReadWhere` on the transaction's view |
| Transactions.ReadAfterBegin | transaction.py:53-54 | after a begin, a read lists the table as its data file parses |
| Transactions.FirstStop | transaction.py:130-139 | the first table from `i` on that `commit` cannot write: every earlier one has a copy with columns, and it does not |
| Transactions.Stop | transaction.py:134-136 | a table with no columns gets its header line written and then stops the commit; an unloaded table stops it at once |
| Transactions.CommitFrom | transaction.py:130-139 | the commit loop succeeds exactly when every table can be written, and it never touches metadata or locks |
| Transactions.Commit | transaction.py:128-140 | a read-only commit changes nothing; any other runs the write loop over the sorted tables |
| Transactions.CommitDurable | transaction.py:128-139 | after a successful commit every table of the transaction is written and published, and its file loads back as the committed table when names and cells are plain |
| Transactions.CommitPartial | transaction.py:130-139 | a failing commit stops at the first table it cannot write, with that table's error, and every table before it stays written and published |
| Transactions.CommitFromFrame | transaction.py:130-139 | the commit loop never changes the file or cache entry of a table it does not list |
| Commands.ParseValues | database_cli.py:181-201 | no value returned holds a quote, and every value is stripped |
| Commands.FeedAllUnquoted | database_cli.py:187-196 | the loop never keeps a quote character, and every value it finishes is stripped |
| Commands.FeedQuoted | database_cli.py:188-196 | inside quotes every character is kept, commas included |
| Commands.ParseValuesPlain | database_cli.py:181-201 | on text without quotes the result is the comma split of the text inside the parentheses, each piece stripped, minus an empty last piece |
| Commands.ParseValuesRoundTrip | database_cli.py:181-201 | a list of quoted values written `('a', 'b, c')` parses back to exactly those values, commas inside quotes included, except a lone empty value |
| Commands.LoneEmptyValueDropped | database_cli.py:198-199 | `('')` parses to no value at all |
| Commands.Cut | database_cli.py:204 | `split("=", 1)`: the text before the first `=`, and the rest |
| Commands.ParseCondition | database_cli.py:203-205 | fails exactly when there is no `=`; otherwise the column is the stripped text before the first `=` and the value is the text after it, stripped, unquoted and stripped again |
| Commands.ConditionRoundTrip | database_cli.py:203-205 | `col = 'v'` parses back to exactly `(col, v)` |
| Commands.KeyName | database_cli.py:68 | the key name after `PRIMARY KEY` or `UNIQUE` holds no parenthesis |
| Commands.Kind | database_cli.py:66-73 | a piece is the primary key exactly when its stripped, upper-cased text starts with `PRIMARY KEY`, a unique key exactly when it does not but starts with `UNIQUE`, and otherwise a column named by the stripped piece; a key holds no parenthesis and only characters of the piece |
| Commands.Classify | database_cli.py:65-73 | the unique keys collected are duplicate-free |
| Commands.ClassifyPrimary | database_cli.py:67-68 | the primary key is the one named by the last `PRIMARY KEY` piece, and there is none exactly when no piece starts with it |
| Commands.ClassifyMembers | database_cli.py:65-73 | the unique keys are exactly the keys of the `UNIQUE` pieces, and the columns are the names of the other pieces in the order written, repeats kept |
| Commands.KindColumn | database_cli.py:72-73 | a plain column name is classified as a column |
| Commands.KindKey | database_cli.py:67-68 | `PRIMARY KEY (k)` is classified as the primary key `k` |
| Commands.KindUnique | database_cli.py:69-71 | `UNIQUE (k)` is classified as the unique key `k` |
| Commands.UniquePrefixedColumn | database_cli.py:69-71 | a column name that starts with `UNIQUE`, such as `UNIQUE_ID`, is taken for a unique key named by the rest |
| Commands.ParseSpecs | database_cli.py:65-76 | a missing or empty primary key is refused; otherwise the result is the classification of the comma-separated pieces |
| Commands.SpecRoundTrip | database_cli.py:65-76 | `a, b, PRIMARY KEY (k), UNIQUE (u)` parses back to those columns in order, that primary key and those unique keys |
| Commands.ExtractClause | database_cli.py:110-112 | `extract_clause` finds nothing exactly when the keyword never occurs in the upper-cased text, and then returns the text unchanged; otherwise it splits around the first occurrence, both sides stripped |
| Commands.ExtractRoundTrip | database_cli.py:110-112 | `a KEYWORD b`, with the keyword not occurring earlier, splits back into `b` and `a` |
| Commands.ExtractLacks | database_cli.py:110-112 | the text `extract_clause` leaves behind never contains the keyword it looked for, in any letter case |
| Commands.ExtractKeeps | database_cli.py:110-112 | the text left behind contains no keyword the input did not contain |
| Commands.Slice | database_cli.py:97 | Python's `s[a:b]` is the slice whenever the bounds are in order and in range |
| Commands.ParseSelect | database_cli.py:95-96 | a command without SELECT, or with SELECT and without FROM, is refused naming the missing keyword |
| Commands.SelectTail | database_cli.py:114-130 | the tail after FROM fails only on a WHERE clause without `=`; otherwise the table name is stripped and contains none of LIMIT, ORDER BY and WHERE in any letter case, a condition's column holds no `=` and is stripped, and ORDER BY and LIMIT are non-empty words |
| Commands.TailBare | database_cli.py:114-130 | a tail with no LIMIT, ORDER BY or WHERE is the table name alone |
| Commands.SelectAllRows | database_cli.py:95-130 | `SELECT cols FROM t` asks for every row of `t`, with `*` meaning all columns |
| Commands.SelectRoundTrip | database_cli.py:95-130 | `SELECT cols FROM t WHERE c = 'v' ORDER BY o LIMIT n` parses back to exactly that table, columns, condition, order and limit |

## Left out

- File-system access is not modelled. Files are strings in maps. `os.mkdir`, `os.path.exists`, `open`, `os.remove` and `show_tables`'s directory listing are left out.
- Threading is not modelled. The model keeps only which lock number each name maps to and the order in which a transaction requests them. Acquire, release, blocking, `metadata_lock` and `_release_locks` are left out.
- `print` is not modelled. Every printed message becomes an `Error` value or a returned count or listing.
- The REPL loop, `execute_command` dispatch and the catch-all exception handler are left out. So are the command slicing of INSERT, UPDATE, DELETE, DROP, DESCRIBE and ALTER, and the table-name and parenthesis extraction of CREATE TABLE. None of these is part of the modelled core.
- `copy.deepcopy`, and the aliasing of `tm.table_data` once a table is published, have no counterpart, because values are immutable.
- `int()` of the LIMIT word is left out. `Query.limit` holds the word, and the reads take the limit as an already parsed integer, negative values included; a word `int()` rejects is not modelled.
- Base.Dedup: a Python `set` is modelled as a duplicate-free sequence in first-occurrence order (`DedupOrder`), which is exact for dict keys but not for a set's iteration order. Contracts about sets speak only of membership. The order in which `_save_metadata` writes a set is fixed here, and the metadata round trip holds for any order.
- Text.Upper: upper-cases ASCII letters only. Python also upper-cases other alphabets and can change a string's length (`ß`).
- Transactions.Begin: requires every named data file that has a line after its header to have a header that repeats no column name. With a repeated name and at least one data line, the source appends each line's cells to one list several times and loads a misaligned table. That case is not modelled. A file holding only a header with repeated names, as `create_table` writes for such a column list, is modelled.
- Transactions.Begin: models the failure of an empty data file, which the source raises from inside the constructor, as a failed result. The locks taken up to that point are not released in the source either, but the model does not track them beyond the lock map.
- Transactions.Acquire: the same requirement on headers as `Begin`.
- Tables.ReadTable: takes `orderBy == ""` for Python's `None` or empty ORDER BY, and an empty `selected` for `None`. An explicitly empty select list cannot occur from the command parser.
- Commands.ParseSelect: its own contract states only the two refusals. The successful parse is stated by `SelectTail`, `TailBare`, `SelectAllRows` and `SelectRoundTrip` for commands in the form a user writes.
- Commands.ParseValuesRoundTrip: requires the values to hold no quote and no surrounding blanks, since the source strips them and cannot tell them apart.
- Storage.FormatRoundTrip: requires at least one column and plain names and cells (no comma, no line-end character, no surrounding blanks). The format has no escaping, so other tables do not come back.
- Schema.MetadataRoundTrip: requires plain key names (no `=`, comma or line-end character, no surrounding blanks), for the same reason.
- File names: a table named `<t>.meta` has the data file `data/<t>.meta.txt`, which is also the metadata file of table `<t>`. The model keeps data files and metadata files in two separate maps, so it does not model that collision; its contracts hold for table sets in which no name is another's name plus `.meta`.
- Quirks kept as written and not proved away: a column spec that starts with `UNIQUE` (for example a column named `UNIQUE_ID`) is taken as a unique-key declaration (`UniquePrefixedColumn`). A WHERE value that contains the word `LIMIT`, `ORDER BY` or `WHERE` is cut at it, because clauses are found by plain substring search.
