/** Column bookkeeping on frames: `filterColumns`, `excludeColumns`, `sizeCheck`, `getTypes`. */
module ColumnSets {
  import opened Base
  import opened Seqs
  import opened Strings
  import opened Frames
  import ColumnTypes

  /** `dataframe[cols]` for a list of existing columns: the same rows cut down to `cols`. */
  function Project(f: Frame, cols: seq<string>): (r: Frame)
    ensures r.columns == cols && |r.rows| == |f.rows|
    ensures forall i :: 0 <= i < |f.rows| ==> r.rows[i].Keys == f.rows[i].Keys * Elements(cols)
    ensures forall i, c :: 0 <= i < |f.rows| && c in r.rows[i] ==> r.rows[i][c] == f.rows[i][c]
  {
    Frame(cols, seq(|f.rows|, i requires 0 <= i < |f.rows| => map c | c in f.rows[i] && c in cols :: f.rows[i][c]))
  }

  /** `filterColumns`: keep the columns that are a target name of the rename mapping (the
      mapping, read from `renames.json` in the source, is a parameter here). */
  function FilterColumns(f: Frame, renames: map<string, string>): (r: Frame)
    requires WellFormed(f)
    ensures WellFormed(r)
    ensures forall c :: c in r.columns <==> c in f.columns && c in renames.Values
    ensures |r.rows| == |f.rows|
    ensures forall i, c :: 0 <= i < |f.rows| && c in r.columns ==> r.rows[i][c] == f.rows[i][c]
  {
    FilterDistinct(c => c in renames.Values, f.columns);
    Project(f, Filter(c => c in renames.Values, f.columns))
  }

  /** `excludeColumns`: drop the listed columns; listed names the frame lacks are ignored. */
  function ExcludeColumns(f: Frame, names: seq<string>): (r: Frame)
    requires WellFormed(f)
    ensures WellFormed(r)
    ensures forall c :: c in r.columns <==> c in f.columns && c !in names
    ensures |r.rows| == |f.rows|
    ensures forall i, c :: 0 <= i < |f.rows| && c in r.columns ==> r.rows[i][c] == f.rows[i][c]
  {
    FilterDistinct(c => c !in names, f.columns);
    Project(f, Filter(c => c !in names, f.columns))
  }

  function SizeMessage(actual: int, expected: int): string {
    "Table has " + IntToString(actual) + " columns, expected " + IntToString(expected)
  }

  /** `sizeCheck`: raise ValueError unless the frame has the expected number of columns. */
  function SizeCheck(f: Frame, expected: int): (r: Outcome)
    ensures r.Pass? <==> |f.columns| == expected
    ensures r.Fail? ==> r.error == ValueError(SizeMessage(|f.columns|, expected))
  {
    if |f.columns| != expected then Fail(ValueError(SizeMessage(|f.columns|, expected))) else Pass
  }

  /** `getTypes`: the distinct suffixes of the mapping's target names, or IndexError when a
      target name has no underscore. */
  function GetTypes(renames: map<string, string>): (r: Result<set<string>>)
    ensures r.Failure? <==> exists v :: v in renames.Values && '_' !in v
    ensures r.Failure? ==> r.error == IndexError
    ensures r.Success? ==> forall t :: t in r.value <==> exists v :: v in renames.Values && Suffix(v) == Some(t)
  {
    if exists v :: v in renames.Values && '_' !in v then Failure(IndexError)
    else Success(set v | v in renames.Values :: Suffix(v).value)
  }

  /** Every target name of the mapping gets a column type exactly when `getTypes` succeeds and
      lists only known suffixes. */
  lemma GetTypesPredictsColumnTypes(renames: map<string, string>)
    ensures (forall v :: v in renames.Values ==> ColumnTypes.ColumnType(v).Success?) <==>
      (GetTypes(renames).Success? && GetTypes(renames).value <= ColumnTypes.TypeTable.Keys)
  {
    if forall v :: v in renames.Values ==> ColumnTypes.ColumnType(v).Success? {
      forall v | v in renames.Values
        ensures '_' in v
      {
        assert ColumnTypes.ColumnType(v) != Failure(Exception(ColumnTypes.NoTypeMessage));
      }
      forall t | t in GetTypes(renames).value
        ensures t in ColumnTypes.TypeTable
      {
        var v :| v in renames.Values && Suffix(v) == Some(t);
        SuffixSplit(v);
        var p := v[..|v| - |t| - 1];
        ColumnTypes.SameSuffixSameType(p, p, t);
      }
    }
    if GetTypes(renames).Success? && GetTypes(renames).value <= ColumnTypes.TypeTable.Keys {
      forall v | v in renames.Values
        ensures ColumnTypes.ColumnType(v).Success?
      {
        var t := Suffix(v).value;
        assert t in GetTypes(renames).value;
        SuffixSplit(v);
        var p := v[..|v| - |t| - 1];
        ColumnTypes.SameSuffixSameType(p, p, t);
      }
    }
  }
}
