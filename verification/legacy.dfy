/** The earlier `utils.py` variants that differ from `tableutils.py`: `createTable` and
    `insertTable` without surrogate-key shadow columns, and `sizeCheck` raising a plain
    Exception. */
module Legacy {
  import opened Base
  import opened Seqs
  import opened Frames
  import opened ColumnTypes
  import opened Schema
  import opened Load
  import ColumnSets

  /** The user columns of the earlier `createTable`: the key, then every other column typed. */
  function UserColumns(cols: seq<string>, pk: Option<string>): (r: Result<seq<ColumnDef>>)
    ensures r == Failure(IndexError) <==> KeyColumn(cols, pk).None?
    ensures KeyColumn(cols, pk).Some? ==>
      (r.Success? <==>
        && ColumnType(KeyColumn(cols, pk).value).Success?
        && forall c :: c in cols && c != KeyColumn(cols, pk).value ==> ColumnType(c).Success?)
    ensures KeyColumn(cols, pk).Some? && ColumnType(KeyColumn(cols, pk).value).Failure? ==>
      r == Failure(ColumnType(KeyColumn(cols, pk).value).error)
  {
    match KeyColumn(cols, pk)
    case None => Failure(IndexError)
    case Some(key) =>
      match ColumnType(key)
      case Failure(e) => Failure(e)
      case Success(keyType) =>
        match TypedDefs(OtherColumns(cols, key))
        case Failure(e) => Failure(e)
        case Success(otherDefs) =>
          Success([ColumnDef(key, keyType, pk.Some?)] + otherDefs)
  }

  /** The earlier `createTable`: IndexError without a key, the key's type error first, and a
      statement exactly when the key and every other column are typed. */
  function CreateTable(tablename: string, cols: seq<string>, pk: Option<string>): (r: Result<string>)
    ensures r == Failure(IndexError) <==> KeyColumn(cols, pk).None?
    ensures KeyColumn(cols, pk).Some? ==>
      (r.Success? <==>
        && ColumnType(KeyColumn(cols, pk).value).Success?
        && forall c :: c in cols && c != KeyColumn(cols, pk).value ==> ColumnType(c).Success?)
    ensures KeyColumn(cols, pk).Some? && ColumnType(KeyColumn(cols, pk).value).Failure? ==>
      r == Failure(ColumnType(KeyColumn(cols, pk).value).error)
  {
    match UserColumns(cols, pk)
    case Failure(e) => Failure(e)
    case Success(defs) => Success(CreateCommand(tablename, pk, defs))
  }

  /** No listed column other than the key: nothing to shadow. */
  predicate NothingShadowed(cols: seq<string>, key: string, skList: seq<string>) {
    forall c :: c in cols && c != key ==> c !in skList
  }

  lemma NoShadowSources(cols: seq<string>, key: string, skList: seq<string>)
    requires NothingShadowed(cols, key, skList)
    ensures ShadowSources(OtherColumns(cols, key), skList) == []
  {
    ShadowSourcesNone(OtherColumns(cols, key), skList);
  }

  /** The earlier `createTable` is the current one when no non-key column is listed for a
      surrogate key (in particular with an empty list). */
  lemma CreateTableWithoutShadows(tablename: string, cols: seq<string>, pk: Option<string>, skList: seq<string>)
    requires KeyColumn(cols, pk).Some? ==> NothingShadowed(cols, KeyColumn(cols, pk).value, skList)
    ensures CreateTable(tablename, cols, pk) == Schema.CreateTable(tablename, cols, pk, skList)
  {
    if KeyColumn(cols, pk).Some? {
      var key := KeyColumn(cols, pk).value;
      NoShadowSources(cols, key, skList);
      assert ShadowDefs([]) == [];
      if UserColumns(cols, pk).Success? {
        var defs := UserColumns(cols, pk).value;
        assert defs + ShadowDefs([]) == defs;
      }
    }
  }

  /** The VALUES list of one row in the earlier `insertTable`: the key raw, each other cell encoded. */
  function RowLiterals(row: Row, cols: seq<string>, key: string): seq<Literal>
    requires key in row && forall c :: c in cols ==> c in row
  {
    var others := OtherColumns(cols, key);
    [RawLit(Render(row[key]))] + ValueLiterals(row, others)
  }

  /** The earlier `insertTable`: the same errors, and one statement per row without shadow
      columns or placeholders. */
  function InsertTable(tablename: string, f: Frame, pk: Option<string>): (r: Result<seq<string>>)
    requires WellFormed(f)
    ensures r == Failure(IndexError) <==> pk.None? && |f.columns| == 0
    ensures r.Failure? && r.error.KeyError? <==> pk.Some? && pk.value !in f.columns && |f.rows| > 0
    ensures r.Failure? && r.error.KeyError? ==> r.error == KeyError(pk.value)
    ensures r.Success? ==> |r.value| == |f.rows|
  {
    match KeyColumn(f.columns, pk)
    case None => Failure(IndexError)
    case Some(key) =>
      if |f.rows| > 0 && key !in f.columns then Failure(KeyError(key))
      else
        var names := [key] + OtherColumns(f.columns, key);
        Success(seq(|f.rows|, i requires 0 <= i < |f.rows| =>
          InsertCommand(tablename, names, RowLiterals(f.rows[i], f.columns, key))))
  }

  /** Without shadows, both versions write the same column list and the same VALUES list. */
  lemma RowWithoutShadows(row: Row, cols: seq<string>, key: string, skList: seq<string>)
    requires key in row && forall c :: c in cols ==> c in row
    requires NothingShadowed(cols, key, skList)
    ensures Load.InsertColumns(cols, key, skList) == [key] + OtherColumns(cols, key)
    ensures Load.RowLiterals(row, cols, key, skList) == RowLiterals(row, cols, key)
  {
    NoShadowSources(cols, key, skList);
    var others := OtherColumns(cols, key);
    assert ShadowNames([]) == [];
    assert [key] + others + [] == [key] + others;
    var a := Load.RowLiterals(row, cols, key, skList);
    var b := RowLiterals(row, cols, key);
    forall j | 0 <= j < |a|
      ensures a[j] == b[j]
    {
      if j > 0 {
        MidAt(b, RawLit(Render(row[key])), ValueLiterals(row, others), [], j - 1);
      }
    }
  }

  /** The earlier `insertTable` is the current one when no non-key column is listed for a
      surrogate key. */
  lemma InsertTableWithoutShadows(tablename: string, f: Frame, pk: Option<string>, skList: seq<string>)
    requires WellFormed(f)
    requires KeyColumn(f.columns, pk).Some? ==> NothingShadowed(f.columns, KeyColumn(f.columns, pk).value, skList)
    ensures InsertTable(tablename, f, pk) == Load.InsertTable(tablename, f, pk, skList)
  {
    if KeyColumn(f.columns, pk).Some? {
      var key := KeyColumn(f.columns, pk).value;
      if !(|f.rows| > 0 && key !in f.columns) {
        var a := InsertTable(tablename, f, pk).value;
        var b := Load.InsertTable(tablename, f, pk, skList).value;
        forall i | 0 <= i < |f.rows|
          ensures a[i] == b[i]
        {
          RowWithoutShadows(f.rows[i], f.columns, key, skList);
        }
        assert a == b;
      }
    }
  }

  /** The earlier `sizeCheck`: the same message, raised as a plain Exception. */
  function SizeCheck(f: Frame, expected: int): (r: Outcome)
    ensures r.Fail? ==> r.error.Exception?
  {
    if |f.columns| == expected then Pass
    else Fail(Exception(ColumnSets.SizeMessage(|f.columns|, expected)))
  }

  /** Both checks pass on the same frames and fail with the same message. */
  lemma SizeChecksAgree(f: Frame, expected: int)
    ensures SizeCheck(f, expected).Pass? <==> ColumnSets.SizeCheck(f, expected).Pass?
    ensures SizeCheck(f, expected).Fail? ==>
      SizeCheck(f, expected).error.message == ColumnSets.SizeCheck(f, expected).error.message
  {
  }
}
