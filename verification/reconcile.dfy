/** `mergeTables`: the reconciling outer join of two frames on a shared business key. */
module Reconcile {
  import opened Base
  import opened Seqs
  import opened Frames

  /** A frame after `set_index(key)`: its value columns and its rows by key value. */
  datatype Indexed = Indexed(columns: set<string>, rows: map<Cell, Row>)

  /** Every row holds a cell for the key column. */
  predicate Keyed(rows: seq<Row>, key: string) {
    forall i :: 0 <= i < |rows| ==> key in rows[i]
  }

  /** The key values of the rows. */
  function KeyValues(rows: seq<Row>, key: string): set<Cell>
    requires Keyed(rows, key)
  {
    set i | 0 <= i < |rows| :: rows[i][key]
  }

  /** No key value occurs twice (the merge is only specified for such inputs). */
  predicate UniqueKeys(rows: seq<Row>, key: string)
    requires Keyed(rows, key)
  {
    forall i, j :: 0 <= i < j < |rows| ==> rows[i][key] != rows[j][key]
  }

  /** `set_index(key)`: each row, without its key cell, filed under its key value (a later
      row replaces an earlier one with the same key). */
  function Index(rows: seq<Row>, key: string): (r: map<Cell, Row>)
    requires Keyed(rows, key)
    decreases |rows|
    ensures forall k :: k in r ==> key !in r[k]
  {
    if |rows| == 0 then map[]
    else Index(rows[..|rows| - 1], key)[rows[|rows| - 1][key] := rows[|rows| - 1] - {key}]
  }

  /** The index holds exactly the key values of the rows. */
  lemma {:induction false} IndexKeys(rows: seq<Row>, key: string)
    requires Keyed(rows, key)
    ensures Index(rows, key).Keys == KeyValues(rows, key)
    decreases |rows|
  {
    if |rows| > 0 {
      var n := |rows| - 1;
      IndexKeys(rows[..n], key);
      forall k | k in KeyValues(rows, key)
        ensures k in KeyValues(rows[..n], key) + {rows[n][key]}
      {
        var i :| 0 <= i < |rows| && rows[i][key] == k;
        if i < n {
          assert rows[..n][i] == rows[i];
        }
      }
      forall k | k in KeyValues(rows[..n], key)
        ensures k in KeyValues(rows, key)
      {
        var i :| 0 <= i < n && rows[..n][i][key] == k;
        assert rows[i] == rows[..n][i];
      }
    }
  }

  /** Each indexed row is some input row with that key, minus the key cell. */
  lemma {:induction false} IndexEntries(rows: seq<Row>, key: string)
    requires Keyed(rows, key)
    ensures forall k :: k in Index(rows, key) ==>
      exists i :: 0 <= i < |rows| && rows[i][key] == k && Index(rows, key)[k] == rows[i] - {key}
    decreases |rows|
  {
    if |rows| > 0 {
      var n := |rows| - 1;
      IndexEntries(rows[..n], key);
      forall k | k in Index(rows, key)
        ensures exists i :: 0 <= i < |rows| && rows[i][key] == k && Index(rows, key)[k] == rows[i] - {key}
      {
        if k != rows[n][key] {
          assert k in Index(rows[..n], key) && Index(rows, key)[k] == Index(rows[..n], key)[k];
          var i :| 0 <= i < n && rows[..n][i][key] == k && Index(rows[..n], key)[k] == rows[..n][i] - {key};
          assert rows[i] == rows[..n][i];
        }
      }
    }
  }

  /** With unique keys, each input row is found, without its key cell, under its own key. */
  lemma {:induction false} IndexUnique(rows: seq<Row>, key: string)
    requires Keyed(rows, key) && UniqueKeys(rows, key)
    ensures forall i :: 0 <= i < |rows| ==> rows[i][key] in Index(rows, key)
    ensures forall i :: 0 <= i < |rows| ==> Index(rows, key)[rows[i][key]] == rows[i] - {key}
    decreases |rows|
  {
    if |rows| > 0 {
      var n := |rows| - 1;
      assert forall i :: 0 <= i < n ==> rows[..n][i] == rows[i];
      IndexUnique(rows[..n], key);
    }
  }

  /** The cell an aligned series holds: the indexed value, or NaN where the key or column is
      absent (what `concat` and `align` fill in). */
  function CellAt(ix: map<Cell, Row>, k: Cell, c: string): Cell {
    if k in ix && c in ix[k] then ix[k][c] else NaN
  }

  /** Two cells are in conflict when both are non-null and they differ. */
  predicate Clash(a: Cell, b: Cell) {
    !IsNull(a) && !IsNull(b) && a != b
  }

  /** Column `c` has a conflicting key in the two indexed frames. */
  predicate Conflicting(ix1: map<Cell, Row>, ix2: map<Cell, Row>, c: string) {
    exists k :: k in ix1 && k in ix2 && Clash(CellAt(ix1, k, c), CellAt(ix2, k, c))
  }

  /** `Series.combine_first`: the first value, or the second where the first is null. */
  function CombineFirst(a: Cell, b: Cell): (r: Cell)
    ensures r == a || r == b
    ensures IsNull(r) <==> IsNull(a) && IsNull(b)
    ensures !IsNull(a) ==> r == a
  {
    if IsNull(a) then b else a
  }

  /** `df1.columns.intersection(df2.columns)` after both lost the key: in df1's order. */
  function SharedColumns(cols1: seq<string>, cols2: seq<string>, key: string): seq<string> {
    Filter(c => c != key && c in cols2, cols1)
  }

  /** `c` is the first column of `cols`, in order, that has a conflict. */
  predicate IsFirstConflict(cols: seq<string>, ix1: map<Cell, Row>, ix2: map<Cell, Row>, c: string) {
    exists j :: 0 <= j < |cols| && cols[j] == c && Conflicting(ix1, ix2, c) &&
      forall i :: 0 <= i < j ==> !Conflicting(ix1, ix2, cols[i])
  }

  /** The first column of `cols`, in order, that has a conflict: the one the loop raises for. */
  function FirstConflict(cols: seq<string>, ix1: map<Cell, Row>, ix2: map<Cell, Row>): (r: Option<string>)
    ensures r.None? <==> forall j :: 0 <= j < |cols| ==> !Conflicting(ix1, ix2, cols[j])
    ensures r.Some? ==> r.value in cols && IsFirstConflict(cols, ix1, ix2, r.value)
  {
    if |cols| == 0 then None
    else if Conflicting(ix1, ix2, cols[0]) then Some(cols[0])
    else
      var r := FirstConflict(cols[1..], ix1, ix2);
      assert forall j :: 1 <= j < |cols| ==> cols[j] == cols[1..][j - 1];
      if r.Some? then FirstConflictLater(cols, ix1, ix2, r.value); r else r
  }

  /** A first conflict after a column without one is the first conflict of the longer list. */
  lemma FirstConflictLater(cols: seq<string>, ix1: map<Cell, Row>, ix2: map<Cell, Row>, c: string)
    requires |cols| > 0 && !Conflicting(ix1, ix2, cols[0]) && IsFirstConflict(cols[1..], ix1, ix2, c)
    ensures IsFirstConflict(cols, ix1, ix2, c)
  {
    var j :| 0 <= j < |cols[1..]| && cols[1..][j] == c && Conflicting(ix1, ix2, c) &&
      forall i :: 0 <= i < j ==> !Conflicting(ix1, ix2, cols[1..][i]);
    assert cols[j + 1] == c;
    forall i | 0 <= i < j + 1
      ensures !Conflicting(ix1, ix2, cols[i])
    {
      if i > 0 { assert cols[i] == cols[1..][i - 1]; }
    }
  }

  /** One merged cell: shared columns are combined, exclusive ones keep their own side. */
  function MergedCell(ix1: map<Cell, Row>, ix2: map<Cell, Row>, cols1: set<string>, cols2: set<string>,
                      k: Cell, c: string): Cell
  {
    if c in cols1 && c in cols2 then CombineFirst(CellAt(ix1, k, c), CellAt(ix2, k, c))
    else if c in cols1 then CellAt(ix1, k, c)
    else CellAt(ix2, k, c)
  }

  const KeyMissingSuffix: string := " must be a column in both DataFrames."

  function ConflictMessage(c: string): string {
    "Merge failed due to conflict in column '" + c + "'"
  }

  /** Some row of `rows1` and some row of `rows2` share a key value and clash in column `c`. */
  ghost predicate RowsConflict(rows1: seq<Row>, rows2: seq<Row>, key: string, c: string) {
    exists i, j :: 0 <= i < |rows1| && 0 <= j < |rows2| && c in rows1[i] && c in rows2[j]
      && key in rows1[i] && key in rows2[j]
      && rows1[i][key] == rows2[j][key] && Clash(rows1[i][c], rows2[j][c])
  }

  /** Some row of `df1` and some row of `df2` share a key value and clash in column `c`. */
  ghost predicate RowConflict(df1: Frame, df2: Frame, key: string, c: string) {
    RowsConflict(df1.rows, df2.rows, key, c)
  }

  /** `c` is a value column of both frames. */
  predicate IsShared(df1: Frame, df2: Frame, key: string, c: string) {
    c != key && c in df1.columns && c in df2.columns
  }

  /** `mergeTables(df1, df2, key)`. */
  function MergeTables(df1: Frame, df2: Frame, key: string): (r: Result<Indexed>)
    requires WellFormed(df1) && WellFormed(df2)
    ensures r.Failure? && r.error.KeyError? <==> key !in df1.columns || key !in df2.columns
    ensures r.Failure? && r.error.KeyError? ==> r.error.arg == key + KeyMissingSuffix
    ensures r.Failure? && !r.error.KeyError? ==>
      exists c :: IsShared(df1, df2, key, c) && r.error == ValueError(ConflictMessage(c)) && RowConflict(df1, df2, key, c) &&
        IsFirstConflict(SharedColumns(df1.columns, df2.columns, key), Index(df1.rows, key), Index(df2.rows, key), c)
    ensures r.Success? ==> r.value.columns == (Elements(df1.columns) + Elements(df2.columns)) - {key}
    ensures r.Success? ==> r.value.rows.Keys == KeyValues(df1.rows, key) + KeyValues(df2.rows, key)
    ensures r.Success? ==> forall k :: k in r.value.rows ==> r.value.rows[k].Keys == r.value.columns
  {
    if key !in df1.columns || key !in df2.columns then Failure(KeyError(key + KeyMissingSuffix))
    else
      var ix1 := Index(df1.rows, key);
      var ix2 := Index(df2.rows, key);
      ConflictSearch(df1, df2, key);
      match FirstConflict(SharedColumns(df1.columns, df2.columns, key), ix1, ix2)
      case Some(c) => Failure(ValueError(ConflictMessage(c)))
      case None =>
        IndexKeys(df1.rows, key);
        IndexKeys(df2.rows, key);
        Success(MergeIndexed(ix1, ix2, Elements(df1.columns) - {key}, Elements(df2.columns) - {key}))
  }

  /** With unique keys on both sides, the merge fails exactly when some shared column has two
      rows with the same key and clashing values. */
  lemma MergeFailsOnConflict(df1: Frame, df2: Frame, key: string)
    requires WellFormed(df1) && WellFormed(df2) && key in df1.columns && key in df2.columns
    requires UniqueKeys(df1.rows, key) && UniqueKeys(df2.rows, key)
    ensures MergeTables(df1, df2, key).Failure? <==> exists c :: IsShared(df1, df2, key, c) && RowConflict(df1, df2, key, c)
  {
    ConflictSearch(df1, df2, key);
  }

  /** The outer join of two indexed frames: every key of either, every column of either. */
  function MergeIndexed(ix1: map<Cell, Row>, ix2: map<Cell, Row>, cols1: set<string>, cols2: set<string>): (r: Indexed)
    ensures r.columns == cols1 + cols2 && r.rows.Keys == ix1.Keys + ix2.Keys
    ensures forall k :: k in r.rows ==> r.rows[k].Keys == r.columns
    ensures forall k, c :: k in r.rows && c in r.columns ==> r.rows[k][c] == MergedCell(ix1, ix2, cols1, cols2, k, c)
  {
    var cols := cols1 + cols2;
    Indexed(cols, map k | k in ix1.Keys + ix2.Keys :: map c | c in cols :: MergedCell(ix1, ix2, cols1, cols2, k, c))
  }

  /** The column the merge stops at has a row conflict; with unique keys, the merge stops
      exactly when some shared column has one. */
  lemma ConflictSearch(df1: Frame, df2: Frame, key: string)
    requires WellFormed(df1) && WellFormed(df2) && key in df1.columns && key in df2.columns
    ensures var r := FirstConflict(SharedColumns(df1.columns, df2.columns, key), Index(df1.rows, key), Index(df2.rows, key));
      && (r.Some? ==> IsShared(df1, df2, key, r.value) && RowConflict(df1, df2, key, r.value))
      && (UniqueKeys(df1.rows, key) && UniqueKeys(df2.rows, key) ==>
            (r.Some? <==> exists c :: IsShared(df1, df2, key, c) && RowConflict(df1, df2, key, c)))
  {
    var shared := SharedColumns(df1.columns, df2.columns, key);
    var r := FirstConflict(shared, Index(df1.rows, key), Index(df2.rows, key));
    ConflictsAgree(df1, df2, key);
    if UniqueKeys(df1.rows, key) && UniqueKeys(df2.rows, key) && r.None? {
      forall c | IsShared(df1, df2, key, c)
        ensures !RowConflict(df1, df2, key, c)
      {
        assert c in shared;
        var j :| 0 <= j < |shared| && shared[j] == c;
      }
    }
  }

  /** A conflict between the indexed frames is a conflict between two input rows. */
  lemma IndexConflictIsRowConflict(df1: Frame, df2: Frame, key: string, c: string)
    requires WellFormed(df1) && WellFormed(df2) && key in df1.columns && key in df2.columns
    requires Conflicting(Index(df1.rows, key), Index(df2.rows, key), c)
    ensures RowConflict(df1, df2, key, c)
  {
    FrameKeyed(df1, key);
    FrameKeyed(df2, key);
    IndexConflictRows(df1.rows, df2.rows, key, c);
  }

  /** Every row of a well-formed frame holds each of its columns. */
  lemma FrameKeyed(df: Frame, key: string)
    requires WellFormed(df) && key in df.columns
    ensures Keyed(df.rows, key)
  {
    forall i | 0 <= i < |df.rows|
      ensures key in df.rows[i]
    {
      assert df.rows[i].Keys == Elements(df.columns);
    }
  }

  /** A conflict between two indexes comes from two rows with the same key that clash. */
  lemma IndexConflictRows(rows1: seq<Row>, rows2: seq<Row>, key: string, c: string)
    requires Keyed(rows1, key) && Keyed(rows2, key)
    requires Conflicting(Index(rows1, key), Index(rows2, key), c)
    ensures RowsConflict(rows1, rows2, key, c)
  {
    var ix1 := Index(rows1, key);
    var ix2 := Index(rows2, key);
    IndexEntries(rows1, key);
    IndexEntries(rows2, key);
    var k :| k in ix1 && k in ix2 && Clash(CellAt(ix1, k, c), CellAt(ix2, k, c));
    var i :| 0 <= i < |rows1| && rows1[i][key] == k && ix1[k] == rows1[i] - {key};
    var j :| 0 <= j < |rows2| && rows2[j][key] == k && ix2[k] == rows2[j] - {key};
    assert c in ix1[k] && c in ix2[k];
    assert CellAt(ix1, k, c) == rows1[i][c];
    assert CellAt(ix2, k, c) == rows2[j][c];
  }

  /** With unique keys, a conflict between two input rows is a conflict between the indexed frames. */
  lemma RowConflictIsIndexConflict(df1: Frame, df2: Frame, key: string, c: string)
    requires WellFormed(df1) && WellFormed(df2) && key in df1.columns && key in df2.columns
    requires UniqueKeys(df1.rows, key) && UniqueKeys(df2.rows, key)
    requires c != key && RowConflict(df1, df2, key, c)
    ensures Conflicting(Index(df1.rows, key), Index(df2.rows, key), c)
  {
    var i, j :| 0 <= i < |df1.rows| && 0 <= j < |df2.rows| && c in df1.rows[i] && c in df2.rows[j]
      && key in df1.rows[i] && key in df2.rows[j]
      && df1.rows[i][key] == df2.rows[j][key] && Clash(df1.rows[i][c], df2.rows[j][c]);
    RowsClash(df1.rows, df2.rows, key, c, i, j);
  }

  /** Two clashing rows of uniquely keyed lists make their indexes conflict. */
  lemma RowsClash(rows1: seq<Row>, rows2: seq<Row>, key: string, c: string, i: nat, j: nat)
    requires Keyed(rows1, key) && Keyed(rows2, key) && UniqueKeys(rows1, key) && UniqueKeys(rows2, key)
    requires i < |rows1| && j < |rows2| && c != key && c in rows1[i] && c in rows2[j]
    requires rows1[i][key] == rows2[j][key] && Clash(rows1[i][c], rows2[j][c])
    ensures Conflicting(Index(rows1, key), Index(rows2, key), c)
  {
    IndexedAt(rows1, key, i);
    IndexedAt(rows2, key, j);
    var k := rows1[i][key];
    assert CellAt(Index(rows1, key), k, c) == rows1[i][c];
    assert CellAt(Index(rows2, key), k, c) == rows2[j][c];
  }

  /** One row of a uniquely keyed list, found under its key. */
  lemma IndexedAt(rows: seq<Row>, key: string, i: nat)
    requires Keyed(rows, key) && UniqueKeys(rows, key) && i < |rows|
    ensures rows[i][key] in Index(rows, key) && Index(rows, key)[rows[i][key]] == rows[i] - {key}
  {
    IndexUnique(rows, key);
  }

  /** Both directions, for every shared column at once. */
  lemma ConflictsAgree(df1: Frame, df2: Frame, key: string)
    requires WellFormed(df1) && WellFormed(df2) && key in df1.columns && key in df2.columns
    ensures forall c :: IsShared(df1, df2, key, c) && Conflicting(Index(df1.rows, key), Index(df2.rows, key), c) ==>
      RowConflict(df1, df2, key, c)
    ensures UniqueKeys(df1.rows, key) && UniqueKeys(df2.rows, key) ==>
      forall c :: IsShared(df1, df2, key, c) && RowConflict(df1, df2, key, c) ==>
        Conflicting(Index(df1.rows, key), Index(df2.rows, key), c)
  {
    forall c | IsShared(df1, df2, key, c) && Conflicting(Index(df1.rows, key), Index(df2.rows, key), c)
      ensures RowConflict(df1, df2, key, c)
    {
      IndexConflictIsRowConflict(df1, df2, key, c);
    }
    if UniqueKeys(df1.rows, key) && UniqueKeys(df2.rows, key) {
      forall c | IsShared(df1, df2, key, c) && RowConflict(df1, df2, key, c)
        ensures Conflicting(Index(df1.rows, key), Index(df2.rows, key), c)
      {
        RowConflictIsIndexConflict(df1, df2, key, c);
      }
    }
  }

  /** The value stored for key `k` and column `c` by a successful merge. */
  lemma MergedValue(df1: Frame, df2: Frame, key: string, m: Indexed, k: Cell, c: string)
    requires WellFormed(df1) && WellFormed(df2) && MergeTables(df1, df2, key) == Success(m)
    requires k in m.rows && c in m.columns
    ensures m.rows[k][c] == MergedCell(Index(df1.rows, key), Index(df2.rows, key),
      Elements(df1.columns) - {key}, Elements(df2.columns) - {key}, k, c)
    ensures IsShared(df1, df2, key, c) ==>
      !Clash(CellAt(Index(df1.rows, key), k, c), CellAt(Index(df2.rows, key), k, c))
  {
    var ix1 := Index(df1.rows, key);
    var ix2 := Index(df2.rows, key);
    if IsShared(df1, df2, key, c) {
      var shared := SharedColumns(df1.columns, df2.columns, key);
      assert c in shared;
      assert FirstConflict(shared, ix1, ix2).None?;
      assert !Conflicting(ix1, ix2, c);
      if k !in ix1 || k !in ix2 {
        assert CellAt(ix1, k, c) == NaN || CellAt(ix2, k, c) == NaN;
      }
    }
  }

  /** For a shared column, the merged cell is the combine-first of two cells that do not clash. */
  lemma MergedShared(df1: Frame, df2: Frame, key: string, m: Indexed, k: Cell, c: string)
    requires WellFormed(df1) && WellFormed(df2) && MergeTables(df1, df2, key) == Success(m)
    requires k in m.rows && IsShared(df1, df2, key, c)
    ensures c in m.rows[k]
    ensures !Clash(CellAt(Index(df1.rows, key), k, c), CellAt(Index(df2.rows, key), k, c))
    ensures m.rows[k][c] == CombineFirst(CellAt(Index(df1.rows, key), k, c), CellAt(Index(df2.rows, key), k, c))
  {
    MergedValue(df1, df2, key, m, k, c);
  }

  /** For a column only `df1` has, the merged cell is `df1`'s indexed cell. */
  lemma MergedLeftOnly(df1: Frame, df2: Frame, key: string, m: Indexed, k: Cell, c: string)
    requires WellFormed(df1) && WellFormed(df2) && MergeTables(df1, df2, key) == Success(m)
    requires k in m.rows && c != key && c in df1.columns && c !in df2.columns
    ensures c in m.rows[k] && m.rows[k][c] == CellAt(Index(df1.rows, key), k, c)
  {
    MergedValue(df1, df2, key, m, k, c);
  }

  /** For a column only `df2` has, the merged cell is `df2`'s indexed cell. */
  lemma MergedRightOnly(df1: Frame, df2: Frame, key: string, m: Indexed, k: Cell, c: string)
    requires WellFormed(df1) && WellFormed(df2) && MergeTables(df1, df2, key) == Success(m)
    requires k in m.rows && c != key && c !in df1.columns && c in df2.columns
    ensures c in m.rows[k] && m.rows[k][c] == CellAt(Index(df2.rows, key), k, c)
  {
    MergedValue(df1, df2, key, m, k, c);
  }

  /** The indexed cell of row `i` of one frame is the row's own cell. */
  lemma CellOfRow(df: Frame, key: string, i: nat, c: string)
    requires WellFormed(df) && key in df.columns && UniqueKeys(df.rows, key)
    requires i < |df.rows| && c in df.columns && c != key
    ensures df.rows[i][key] in KeyValues(df.rows, key)
    ensures CellAt(Index(df.rows, key), df.rows[i][key], c) == df.rows[i][c]
  {
    assert df.rows[i].Keys == Elements(df.columns);
    IndexedAt(df.rows, key, i);
  }

  /** A key outside a frame's key values reads as NaN there. */
  lemma CellOfAbsentKey(df: Frame, key: string, k: Cell, c: string)
    requires Keyed(df.rows, key) && k !in KeyValues(df.rows, key)
    ensures CellAt(Index(df.rows, key), k, c) == NaN
  {
    IndexKeys(df.rows, key);
  }

  /** `v` is whichever of `a` and `b` is non-null, and null only when both are. */
  predicate CombinedOf(v: Cell, a: Cell, b: Cell) {
    && (!IsNull(a) ==> v == a)
    && (!IsNull(b) ==> v == b)
    && (IsNull(v) <==> IsNull(a) && IsNull(b))
  }

  /** `combine_first` of two cells that do not clash. */
  lemma CombinedCell(a: Cell, b: Cell)
    requires !Clash(a, b)
    ensures CombinedOf(CombineFirst(a, b), a, b)
  {
  }

  /** A column only `df1` has keeps `df1`'s value for each of `df1`'s keys. */
  lemma LeftOnlyColumnKept(df1: Frame, df2: Frame, key: string, m: Indexed, c: string, i: nat)
    requires WellFormed(df1) && WellFormed(df2) && MergeTables(df1, df2, key) == Success(m)
    requires UniqueKeys(df1.rows, key)
    requires c != key && c in df1.columns && c !in df2.columns && i < |df1.rows|
    ensures df1.rows[i][key] in m.rows && m.rows[df1.rows[i][key]][c] == df1.rows[i][c]
  {
    CellOfRow(df1, key, i, c);
    MergedLeftOnly(df1, df2, key, m, df1.rows[i][key], c);
  }

  /** A column only `df1` has is NaN for the keys only `df2` has. */
  lemma LeftOnlyColumnNullElsewhere(df1: Frame, df2: Frame, key: string, m: Indexed, c: string, k: Cell)
    requires WellFormed(df1) && WellFormed(df2) && MergeTables(df1, df2, key) == Success(m)
    requires c != key && c in df1.columns && c !in df2.columns
    requires k in KeyValues(df2.rows, key) && k !in KeyValues(df1.rows, key)
    ensures k in m.rows && m.rows[k][c] == NaN
  {
    CellOfAbsentKey(df1, key, k, c);
    MergedLeftOnly(df1, df2, key, m, k, c);
  }

  /** A column only `df2` has keeps `df2`'s value for each of `df2`'s keys. */
  lemma RightOnlyColumnKept(df1: Frame, df2: Frame, key: string, m: Indexed, c: string, j: nat)
    requires WellFormed(df1) && WellFormed(df2) && MergeTables(df1, df2, key) == Success(m)
    requires UniqueKeys(df2.rows, key)
    requires c != key && c !in df1.columns && c in df2.columns && j < |df2.rows|
    ensures df2.rows[j][key] in m.rows && m.rows[df2.rows[j][key]][c] == df2.rows[j][c]
  {
    CellOfRow(df2, key, j, c);
    MergedRightOnly(df1, df2, key, m, df2.rows[j][key], c);
  }

  /** A column only `df2` has is NaN for the keys only `df1` has. */
  lemma RightOnlyColumnNullElsewhere(df1: Frame, df2: Frame, key: string, m: Indexed, c: string, k: Cell)
    requires WellFormed(df1) && WellFormed(df2) && MergeTables(df1, df2, key) == Success(m)
    requires c != key && c !in df1.columns && c in df2.columns
    requires k in KeyValues(df1.rows, key) && k !in KeyValues(df2.rows, key)
    ensures k in m.rows && m.rows[k][c] == NaN
  {
    CellOfAbsentKey(df2, key, k, c);
    MergedRightOnly(df1, df2, key, m, k, c);
  }

  /** For a key both frames hold, a shared column takes whichever value is non-null; the two
      never disagree, and the result is null only when both are. */
  lemma SharedColumnCombined(df1: Frame, df2: Frame, key: string, m: Indexed, c: string, i: nat, j: nat)
    requires WellFormed(df1) && WellFormed(df2) && MergeTables(df1, df2, key) == Success(m)
    requires UniqueKeys(df1.rows, key) && UniqueKeys(df2.rows, key) && IsShared(df1, df2, key, c)
    requires i < |df1.rows| && j < |df2.rows| && df1.rows[i][key] == df2.rows[j][key]
    ensures df1.rows[i][key] in m.rows
    ensures CombinedOf(m.rows[df1.rows[i][key]][c], df1.rows[i][c], df2.rows[j][c])
  {
    var k := df1.rows[i][key];
    CellOfRow(df1, key, i, c);
    CellOfRow(df2, key, j, c);
    MergedShared(df1, df2, key, m, k, c);
    CombinedCell(df1.rows[i][c], df2.rows[j][c]);
  }

  /** For a key only `df1` holds, a shared column keeps `df1`'s value when it is non-null and is
      null otherwise. */
  lemma SharedColumnLeftKey(df1: Frame, df2: Frame, key: string, m: Indexed, c: string, i: nat)
    requires WellFormed(df1) && WellFormed(df2) && MergeTables(df1, df2, key) == Success(m)
    requires UniqueKeys(df1.rows, key) && IsShared(df1, df2, key, c)
    requires i < |df1.rows| && df1.rows[i][key] !in KeyValues(df2.rows, key)
    ensures df1.rows[i][key] in m.rows
    ensures CombinedOf(m.rows[df1.rows[i][key]][c], df1.rows[i][c], NaN)
  {
    CellOfRow(df1, key, i, c);
    CellOfAbsentKey(df2, key, df1.rows[i][key], c);
    MergedShared(df1, df2, key, m, df1.rows[i][key], c);
    CombinedCell(df1.rows[i][c], NaN);
  }

  /** For a key only `df2` holds, a shared column takes `df2`'s value. */
  lemma SharedColumnRightKey(df1: Frame, df2: Frame, key: string, m: Indexed, c: string, j: nat)
    requires WellFormed(df1) && WellFormed(df2) && MergeTables(df1, df2, key) == Success(m)
    requires UniqueKeys(df2.rows, key) && IsShared(df1, df2, key, c)
    requires j < |df2.rows| && df2.rows[j][key] !in KeyValues(df1.rows, key)
    ensures df2.rows[j][key] in m.rows && m.rows[df2.rows[j][key]][c] == df2.rows[j][c]
  {
    CellOfRow(df2, key, j, c);
    CellOfAbsentKey(df1, key, df2.rows[j][key], c);
    MergedShared(df1, df2, key, m, df2.rows[j][key], c);
  }
}
