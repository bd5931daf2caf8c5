# Table utilities of the ETL loader, modelled in Dafny

The repository loads entity tables (read from SQLite and CSV sources and reshaped with pandas)
into SQL Server. Its table utility layer, `tableutils.py`, does the following:

- reconciles two frames on a business key (`mergeTables`);
- derives each column's SQL type from the suffix of its name (`columnType`);
- builds the `CREATE TABLE` statement with an identity surrogate, a `Timestamp` column and
  trailing `SK_<c> INT` shadow columns for foreign surrogate keys (`createTable`);
- builds one `INSERT` per frame row, with quote doubling, `None` as `NULL` and a `0`/`NULL`
  placeholder in each shadow column (`insertTable`);
- backfills the shadow columns with an `UPDATE … WHERE SK_<c> = 0` joined to the foreign
  table (`updateSurrogate`, `updateSurrogates`);
- provides the column-set helpers `filterColumns`, `excludeColumns`, `sizeCheck` and
  `getTypes`.

`utils.py` is an earlier copy. Its `createTable` and `insertTable` have no shadow columns, and
its `sizeCheck` raises a plain `Exception`. Its `merge_tables`, `filterColumns`,
`excludeColumns`, `getTypes` and `columnType` are the same algorithms as the `tableutils.py`
ones and are modelled once, by those members.

The model is pure Dafny functions over immutable data:

- `Frames`: a cell is `PyNone`, `NaN` or `Text(s)`. `Render` is `str(cell)`: `"None"`, `"nan"`
  or the text. A frame is a list of distinct column names with rows as `map<string, Cell>`.
- `Reconcile`: `mergeTables`. The result is indexed by key value. A key a side lacks reads as
  NaN there.
- `ColumnTypes`: `columnType` with its 13-entry table and its two error messages.
- `ColumnSets`: `filterColumns`, `excludeColumns`, `sizeCheck`, `getTypes`.
- `Schema`: `createTable`, as a structured definition plus a loop method written like the
  source and proved equal to it.
- `Load`: `insertTable`.
- `Backfill`: the relational meaning of `updateSurrogate` on whole-table state, and the
  descriptor loop of `updateSurrogates`.
- `Legacy`: the differing `utils.py` variants.
- `Scenarios`: the conflict and size-check scenarios of `test.py`.
- `Base`, `Seqs`, `Strings`: the `Option`/`Result` wrappers, sequence filtering and string
  helpers (escaping, `rsplit('_', 1)`, joining).

Python exceptions are `Failure` values (`KeyError`, `ValueError`, `IndexError`, `Exception`,
`DatabaseError`), and a check that returns nothing is an `Outcome` (`Pass` or `Fail`).

## Model

| member | source | states |
|---|---|---|
| Reconcile.MergeTables | tableutils.py:29-59 | KeyError naming the key iff the key is missing from either frame. Any other failure is a ValueError naming a shared non-key column in which two rows with the same key hold non-null unequal values. That column is the first shared column, in the first frame's column order, with a conflicting key. On success, the columns are the union of both frames' columns minus the key, the index is the union of both key sets, and every row has every column. |
| Reconcile.MergeIndexed | tableutils.py:38-57 | The merged frame has the union of both column sets and of both key sets, and every row has every column. Each cell is the merge of the two sides' cells under that key. |
| Reconcile.MergeFailsOnConflict | tableutils.py:47-54 | With unique keys on both sides, the merge fails iff some shared non-key column has two rows with the same key and clashing non-null values. |
| Reconcile.ConflictSearch | tableutils.py:47-54 | A column the search reports is shared and has clashing rows. With unique keys, the search reports one iff such a column exists. |
| Reconcile.Index | tableutils.py:34-35 | `set_index`: an indexed row no longer holds the key column. |
| Reconcile.IndexKeys | tableutils.py:34-35 | `set_index`: the index holds exactly the rows' key values. |
| Reconcile.IndexEntries | tableutils.py:34-35 | Every indexed row is some input row without its key cell, filed under that row's key. |
| Reconcile.IndexUnique | tableutils.py:34-35 | With unique keys, each input row minus its key is found under its own key. |
| Reconcile.FirstConflict | tableutils.py:47-54 | Scans the shared columns in the first frame's order. Returns nothing iff no column has a conflicting key. Otherwise it returns the first column of the list that has one. |
| Reconcile.IndexConflictIsRowConflict | tableutils.py:47-54 | A conflict between the indexed frames comes from two input rows with the same key and clashing values. |
| Reconcile.RowConflictIsIndexConflict | tableutils.py:47-54 | With unique keys, two clashing input rows make the indexed frames conflict in that column. |
| Reconcile.ConflictsAgree | tableutils.py:47-54 | With unique keys, an index conflict in a column is the same thing as a row conflict. |
| Reconcile.MergedValue | tableutils.py:38-57 | A merged cell is the own side's cell for a column only one frame has, and the combine-first of both sides for a shared column. For a shared column, the two sides never clash in a successful merge. |
| Reconcile.CombineFirst | tableutils.py:57 | The first value unless it is null, else the second. The result is null iff both are. |
| Reconcile.LeftOnlyColumnKept | tableutils.py:39-43 | A column only the first frame has keeps that frame's value under each of its keys. |
| Reconcile.LeftOnlyColumnNullElsewhere | tableutils.py:39-44 | That column is NaN under keys only the second frame has. |
| Reconcile.RightOnlyColumnKept | tableutils.py:40-44 | A column only the second frame has keeps that frame's value under each of its keys. |
| Reconcile.RightOnlyColumnNullElsewhere | tableutils.py:39-44 | That column is NaN under keys only the first frame has. |
| Reconcile.SharedColumnCombined | tableutils.py:56-57 | For a key both frames hold, a shared column equals whichever of the two values is non-null (two non-null values agree). It is null iff both are null. |
| Reconcile.SharedColumnLeftKey | tableutils.py:43-57 | For a key only the first frame holds, a shared column equals the first frame's value when that is non-null, and is null iff that value is. |
| Reconcile.SharedColumnRightKey | tableutils.py:43-57 | For a key only the second frame holds, a shared column takes the second frame's value. |
| ColumnTypes.ColumnType | tableutils.py:106-130 | Fails with "Column name doesn't contain a type" iff the name has no underscore. Every other failure is "Column type not found". |
| ColumnTypes.ColumnTypeBySuffix | tableutils.py:106-130 | A name gets a type iff the text after its last underscore is one of the 13 table keys, and the type is a value of that table. |
| ColumnTypes.SameSuffixSameType | tableutils.py:124-130 | The answer depends only on the suffix. It is the table entry, or "Column type not found". |
| ColumnTypes.UpperCaseIdIsUnknown | tableutils.py:110 | The lookup is case-sensitive: an `_ID` suffix has no type. |
| ColumnTypes.EmptySuffixIsUnknown | tableutils.py:124-129 | A trailing underscore leaves the empty suffix, which has no type. |
| ColumnTypes.ImageIsSixtyCharacters | tableutils.py:109 | `image` maps to `NVARCHAR(60)`. |
| Strings.Escape | tableutils.py:215 | Doubling quotes adds one character per quote, and text without quotes is unchanged. |
| Strings.UnescapeEscape | tableutils.py:215 | Collapsing each doubled quote recovers the original text. |
| Strings.EscapeIsNone | tableutils.py:215-216 | The escaped text is `None` iff the rendered text is. |
| Strings.Suffix | tableutils.py:97 | `rsplit('_', 1)[1]`: present iff the text has an underscore. The suffix has no underscore, and the text is the prefix, `_` and the suffix. |
| Strings.SuffixSplit | tableutils.py:97 | A text with a suffix is its prefix, the last underscore and the suffix. |
| Strings.SuffixOfJoined | tableutils.py:125 | The suffix of `prefix + "_" + t`, for `t` without an underscore, is `t`. |
| ColumnSets.Project | tableutils.py:76 | `dataframe[cols]`: the listed columns, the same number of rows, and each row restricted to those columns with its cells unchanged. |
| ColumnSets.FilterColumns | tableutils.py:62-76 | Keeps exactly the frame's columns that are values of the rename mapping. The result is well formed, with the same rows and the same cells. |
| ColumnSets.ExcludeColumns | tableutils.py:79-80 | Keeps exactly the frame's columns not listed. Listed names the frame lacks are ignored. Rows and cells are kept. |
| ColumnSets.SizeCheck | tableutils.py:82-85 | Passes iff the column count equals the expected count. Otherwise it raises ValueError "Table has N columns, expected M". |
| ColumnSets.GetTypes | tableutils.py:90-99 | Raises IndexError iff some mapping value has no underscore. Otherwise it returns exactly the set of the values' suffixes. |
| ColumnSets.GetTypesPredictsColumnTypes | tableutils.py:90-130 | Every mapping value gets a column type iff `getTypes` succeeds and lists only known type suffixes. |
| Schema.TypedDefs | tableutils.py:161-163 | Succeeds iff every column is typed. It then gives one typed definition per column, in order. On failure it returns the error of the first untyped column. |
| Schema.TypedDefsFirstFailure | tableutils.py:161-163 | A failure is the error of some untyped column all of whose predecessors are typed. |
| Schema.TypedDefsStopsAt | tableutils.py:161-163 | Once an untyped column follows typed ones, typing fails with that column's error, whatever follows. |
| Schema.KeyColumn | tableutils.py:151-152 | The designated key, else the frame's first column. There is none iff no key is designated and the frame has no columns. |
| Schema.TableColumns | tableutils.py:147-165 | IndexError iff no key is designated and the frame has no columns. It succeeds iff the key and every other column are typed, and an untyped key raises first. |
| Schema.TableColumnsKey | tableutils.py:151-165 | The user columns number one plus the other columns plus the shadows. The first is the typed key, NOT NULL iff a key is designated. |
| Schema.TableColumnsOthers | tableutils.py:161-163 | After the key comes each other column with its type, in frame order, nullable. |
| Schema.TableColumnsShadows | tableutils.py:161-165 | Then `SK_<c> INT` for each listed non-key column, in frame order. |
| Schema.CreatedColumnOrder | tableutils.py:151-170 | The created column names are the key, the other columns, then the `SK_` shadows. |
| Schema.EveryColumnOnce | tableutils.py:161-165 | Each non-key column appears once. Each shadow belongs to a listed non-key column. |
| Schema.CreateTable | tableutils.py:147-170 | A statement is produced iff the column typing succeeds; otherwise it is the typing's error, raised before anything is executed. |
| Schema.SurrogateName | tableutils.py:151-156 | The identity column is `SK_` followed by the designated key, or by the table name when no key is designated. |
| Schema.CreateTableText | tableutils.py:151-170 | The statement is `CREATE TABLE <name> (` followed by the comma-joined identity column, the Timestamp column and the user column definitions of `TableColumns` (key, others, shadows), then `)`. |
| Schema.AppendColumns | tableutils.py:161-165 | The source's loop builds exactly the definition text and shadow text of the structured model, or stops with the first untyped column's error. |
| Schema.BuildCreateCommand | tableutils.py:147-170 | The source-shaped construction equals `CreateTable`. |
| Schema.CreateOutcome | tableutils.py:172-179 | An execute error containing "There is already an object named" is swallowed. Any other is re-raised. |
| Load.EncodeCell | tableutils.py:214-225 | The value is NULL iff `str(cell)` is `None`; otherwise it is the quoted, escaped text. The placeholder is NULL iff `str(cell)` is `None`; otherwise it is 0. |
| Load.QuotedValueRoundTrip | tableutils.py:215-217 | Reading a quoted value literal back yields the cell's text. |
| Load.NullLikeCells | tableutils.py:214-225 | None becomes NULL with placeholder NULL. NaN becomes `'nan'` with placeholder 0. |
| Load.InsertTable | tableutils.py:184-231 | IndexError iff no key is designated and there are no columns. KeyError iff a designated key is not a column and there are rows. Otherwise one statement per row, in row order. |
| Load.InsertColumnsMatchCreated | tableutils.py:188-202 | The INSERT column list is the created table's columns without the identity and Timestamp columns, in the same order. |
| Load.InsertColumnsLayout | tableutils.py:188-202 | The column list is the key, the other columns in frame order, then `SK_<c>` for each listed one. |
| Load.RowLiteralsLayout | tableutils.py:206-229 | Each row's VALUES list has the column list's length. The key comes first, raw. Each other cell follows, NULL when its text is `None` and otherwise quoted and escaped. Last come the placeholders, NULL when the text is `None` and otherwise 0. |
| Backfill.Leader | tableutils.py:252 | Returns a record of the given record's partition, at or before it, that no record among the first n precedes. |
| Backfill.PartitionHasLeader | tableutils.py:252 | Every partition has a record with `rn = 1`, and no record of the partition is later than it. |
| Backfill.LeaderUnique | tableutils.py:252 | A partition has only one record with `rn = 1`. |
| Backfill.DistinctKeysAllRankFirst | tableutils.py:252 | When the `SK_` values the window partitions by are distinct (identity values), every record has `rn = 1`. |
| Backfill.DistinctKeysTarget | tableutils.py:252-259 | In that case the join target is the first foreign record whose business value equals the row's under SQL equality, and there is none iff no record matches. |
| Backfill.TargetFrom | tableutils.py:250-259 | A record the search finds lies in the searched range, is ranked first in its `SK_` partition and equals the row's business value under SQL `=`. |
| Backfill.TargetFromFirstJoin | tableutils.py:259 | The search finds nothing iff no ranked-first foreign record joins. Otherwise it finds one that joins, with none joining before it. |
| Backfill.UpdateRecord | tableutils.py:256-260 | Only a pending row (`SK_<c>` = 0) that some foreign record joins changes. Only its `SK_<c>` cell changes, and it takes a joining foreign record's `SK_` value. |
| Backfill.UpdateRecordResolves | tableutils.py:257-260 | A pending row takes the key of the first joining record. A pending row that no record joins stays 0. |
| Backfill.UpdateRecordIdempotent | tableutils.py:256-260 | Updating a row twice against the same foreign records changes nothing more. |
| Backfill.MissingColumn | tableutils.py:248-260 | Returns nothing iff every column the statement names exists in its table. |
| Backfill.ApplyLink | tableutils.py:245-263 | Fails with a database error iff a table or a named column is missing. On success only `table` changes: its columns and row count stay, and each row is updated against the foreign rows as they were before the statement. |
| Backfill.TargetSameView | tableutils.py:248-259 | The join target depends only on the foreign rows' timestamps, business values and `SK_` values. |
| Backfill.ApplyLinkIdempotent | tableutils.py:245-263 | When the statement writes none of the columns it reads, including the self-link, running it again changes nothing. |
| Backfill.StoredValueIsText | tableutils.py:215-217 | A quoted value literal is stored as exactly the cell's text, with doubled quotes collapsed. |
| Backfill.NullCellNeverLinked | tableutils.py:221-225 | A cell inserted as None stores NULL and a NULL placeholder, so no statement ever fills its shadow. |
| Backfill.ResolveDescriptor | tableutils.py:268-280 | KeyError for a missing `table`, then for a missing `column`. The foreign table and foreign column default to the table and column. |
| Backfill.DefaultsAreExplicit | tableutils.py:273-280 | Omitting the foreign names is the same as repeating the table and column. |
| Backfill.UpdateSurrogates | tableutils.py:268-281 | Keeps the set of tables. A stop is a KeyError or a database error. |
| Backfill.UpdateSurrogatesFrame | tableutils.py:268-281 | A table no descriptor names is unchanged. |
| Backfill.UpdateSurrogatesResolved | tableutils.py:268-281 | A run that ends without an exception resolved every descriptor. |
| Backfill.SettledAfterApply | tableutils.py:245-263 | A statement that writes no column another statement reads leaves that statement's fixpoint a fixpoint. |
| Backfill.UpdateSurrogatesIdempotent | tableutils.py:245-282 | If no descriptor writes a column that any descriptor reads, a second run of a successful backfill succeeds and changes nothing. |
| Backfill.UpdateSurrogatesConcat | tableutils.py:268-281 | Descriptors run in list order: running `a + b` is running `a` and then `b`, unless `a` stops with an error. |
| Legacy.CreateTable | utils.py:120-139 | The earlier `createTable` raises IndexError iff there is no key. An untyped key raises its error first. It produces a statement iff the key and every other column are typed. |
| Legacy.InsertTable | utils.py:153-182 | The earlier `insertTable` raises IndexError iff no key is designated and there are no columns. It raises KeyError iff a designated key is not a column and there are rows. Otherwise it produces one statement per row. |
| Legacy.CreateTableWithoutShadows | utils.py:120-139 | The earlier `createTable` produces the same outcome as the current one when no non-key column is listed, for example with an empty list. |
| Legacy.RowWithoutShadows | utils.py:153-180 | Without listed columns, both versions write the same column list and VALUES list. |
| Legacy.InsertTableWithoutShadows | utils.py:153-182 | The earlier `insertTable` produces the same statements or error as the current one when no non-key column is listed. |
| Legacy.SizeCheck | utils.py:65-70 | A failure is a plain Exception. |
| Legacy.SizeChecksAgree | utils.py:65-70 | Both size checks pass on the same frames and fail with the same message. |
| Scenarios.ConflictScenario | test.py:33-59 | The conflicting frames of the test make the merge raise ValueError naming `Column2`. |
| Scenarios.SizeCheckScenario | test.py:61-75 | The three-column frame passes a check for 3 and raises ValueError for 5. |

## Left out

- Database I/O is not modelled:
  - `cursor.execute` and `commit` are left out;
  - the connection, `getSqlite`, `getCSV` and `dropTables` are left out;
  - printing is left out.
  - `CreateOutcome` takes the execute error text as a parameter.
  - `Backfill` models the meaning of the UPDATE, not the SQL text it sends.
- `renames.json` is a file read. `filterColumns` and `getTypes` take the mapping as a parameter.
- SQL Server runtime behaviour is not modelled:
  - identity assignment, `GETDATE()` and column-type enforcement are left out;
  - the exact database error messages are stand-ins;
  - values keep their literal text: there is no numeric conversion, so `'01'` or `'1.0'` never
    joins a key `1`, and a stored text never equals a number (a raw key `1` and a quoted `'1'`
    are both stored as the text `1`);
  - a raw key literal is stored as its text whatever it is, including `None` or `nan`, for
    which the INSERT would not be valid SQL.
- The order of `ROW_NUMBER()` among equal timestamps, and the choice among several join
  matches, are unspecified in SQL. The model takes table position and the first match.
- Backfill.ApplyLinkIdempotent: stated only for statements that write none of the columns they
  read.
- Backfill.UpdateSurrogatesIdempotent: stated only for descriptor lists in which no statement
  writes a column that any statement reads. In a chain where one statement fills the `SK_`
  column another joins on, a second run can fill more rows.
- pandas details are not modelled:
  - dtype coercion when nulls are filled;
  - the order of rows and columns produced by `concat`, `difference` and set-ordered selection.
    The model keeps frame order, and `FilterColumns` and `ExcludeColumns` state only which
    columns remain.
  - duplicate keys: `Index` keeps the last row; the merge properties assume unique keys.
  - the merged frame is indexed by key value, without the key column.
- `str()` of a value is the abstract `Render`, so two values with the same text are conflated.
- The merge compares cells by their text. pandas compares values (tableutils.py:52), so `1`,
  `1.0` and `True` do not conflict there, but the model reports a conflict for them.
- The backfill join compares text exactly. SQL Server's default collation ignores case and
  trailing blanks in `t.column = f.foreign_column` (tableutils.py:259). The model misses those
  matches.
- `val != np.nan` compares a string with a float and always holds, so it is omitted. The
  `AttributeError` branch cannot be reached once `str()` has succeeded.
- The successful merge scenario of `test.py` (`mergeTest`) is not proved as a concrete instance.
  The general lemmas in `Reconcile` cover what it checks.
- `processing.py`, `settings.py` and `main.py` are orchestration and configuration, and
  `surrogateTest` and `runTests` need a live server: none of these is part of this model.
