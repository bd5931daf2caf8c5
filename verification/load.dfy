/** `insertTable`: one INSERT statement per frame row, against the table `createTable` made. */
module Load {
  import opened Base
  import opened Seqs
  import opened Strings
  import opened Frames
  import opened Schema

  /** A value as it appears in the VALUES list. */
  datatype Literal = NullLit | ZeroLit | RawLit(text: string) | QuotedLit(body: string)

  function LiteralText(l: Literal): string {
    match l
    case NullLit => "NULL"
    case ZeroLit => "0"
    case RawLit(t) => t
    case QuotedLit(b) => "'" + b + "'"
  }

  /** A non-key cell's value literal and, for a listed column, its placeholder literal: the
      escaped text is compared with `'None'` (the accompanying `!= np.nan` test compares a string
      with a float and always holds). */
  function EncodeCell(c: Cell): (r: (Literal, Literal))
    ensures r.0 == NullLit <==> Render(c) == "None"
    ensures r.1 == NullLit <==> Render(c) == "None"
    ensures Render(c) != "None" ==> r.0 == QuotedLit(Escape(Render(c))) && r.1 == ZeroLit
  {
    var val := Escape(Render(c));
    EscapeIsNone(Render(c));
    if val != "None" then (QuotedLit(val), ZeroLit) else (NullLit, NullLit)
  }

  /** How a non-key cell is written: NULL when its text is `None`, else quoted and escaped. */
  function ValueLiteral(c: Cell): Literal {
    if Render(c) == "None" then NullLit else QuotedLit(Escape(Render(c)))
  }

  /** How a listed cell's placeholder is written: NULL when its text is `None`, else 0. */
  function PlaceholderLiteral(c: Cell): Literal {
    if Render(c) == "None" then NullLit else ZeroLit
  }

  /** How SQL reads a quoted literal back: drop the outer quotes, collapse `''`. */
  function DecodeQuoted(s: string): string
    requires |s| >= 2
  {
    Unescape(s[1..|s| - 1])
  }

  /** A quoted value literal reads back as exactly the cell's text. */
  lemma QuotedValueRoundTrip(c: Cell)
    requires Render(c) != "None"
    ensures |LiteralText(EncodeCell(c).0)| >= 2
    ensures DecodeQuoted(LiteralText(EncodeCell(c).0)) == Render(c)
  {
    var body := Escape(Render(c));
    assert LiteralText(EncodeCell(c).0) == "'" + body + "'";
    assert ("'" + body + "'")[1..|body| + 1] == body;
    UnescapeEscape(Render(c));
  }

  /** Python None is written NULL with a NULL placeholder; a NaN cell is written as the text
      `'nan'` with the pending placeholder 0. */
  lemma NullLikeCells()
    ensures EncodeCell(PyNone) == (NullLit, NullLit)
    ensures EncodeCell(NaN) == (QuotedLit("nan"), ZeroLit)
  {
    assert Escape("nan") == "nan";
  }

  /** The INSERT column list: the key, the other columns, then the `SK_` shadows. */
  function InsertColumns(cols: seq<string>, key: string, skList: seq<string>): seq<string> {
    var others := OtherColumns(cols, key);
    [key] + others + ShadowNames(ShadowSources(others, skList))
  }

  /** The value literals of the named cells. */
  function ValueLiterals(row: Row, names: seq<string>): (r: seq<Literal>)
    requires forall c :: c in names ==> c in row
    ensures |r| == |names| && forall j :: 0 <= j < |names| ==> r[j] == EncodeCell(row[names[j]]).0
  {
    seq(|names|, j requires 0 <= j < |names| => EncodeCell(row[names[j]]).0)
  }

  /** The VALUES list of one row: the key raw, each other cell encoded, then the placeholders. */
  function RowLiterals(row: Row, cols: seq<string>, key: string, skList: seq<string>): seq<Literal>
    requires key in row && forall c :: c in cols ==> c in row
  {
    var others := OtherColumns(cols, key);
    Literals(row, key, others, ShadowSources(others, skList))
  }

  /** The VALUES list for a key, the other columns and the shadowed columns. */
  function Literals(row: Row, key: string, others: seq<string>, shadows: seq<string>): seq<Literal>
    requires key in row && (forall c :: c in others ==> c in row) && (forall c :: c in shadows ==> c in row)
  {
    seq(1 + |others| + |shadows|, j requires 0 <= j < 1 + |others| + |shadows| =>
      LiteralAt(row, key, others, shadows, j))
  }

  /** Position `j` of a VALUES list laid out as key, values, placeholders. */
  function LiteralAt(row: Row, key: string, others: seq<string>, shadows: seq<string>, j: nat): Literal
    requires key in row && (forall c :: c in others ==> c in row) && (forall c :: c in shadows ==> c in row)
    requires j < 1 + |others| + |shadows|
  {
    if j == 0 then RawLit(Render(row[key]))
    else if j <= |others| then EncodeCell(row[others[j - 1]]).0
    else EncodeCell(row[shadows[j - 1 - |others|]]).1
  }

  function LiteralTexts(ls: seq<Literal>): seq<string> {
    seq(|ls|, j requires 0 <= j < |ls| => LiteralText(ls[j]))
  }

  function InsertCommand(tablename: string, names: seq<string>, lits: seq<Literal>): string {
    "INSERT INTO " + tablename + " (" + Join(names, ", ") + ") VALUES (" + Join(LiteralTexts(lits), ", ") + ");\n"
  }

  /** The statements `insertTable` executes, in row order, or the exception it raises. */
  function InsertTable(tablename: string, f: Frame, pk: Option<string>, skList: seq<string>): (r: Result<seq<string>>)
    requires WellFormed(f)
    ensures r == Failure(IndexError) <==> pk.None? && |f.columns| == 0
    ensures r.Failure? && r.error.KeyError? <==> pk.Some? && pk.value !in f.columns && |f.rows| > 0
    ensures r.Failure? && r.error.KeyError? ==> r.error == KeyError(pk.value)
    ensures r.Success? ==> |r.value| == |f.rows| && KeyColumn(f.columns, pk).Some?
    ensures r.Success? ==> forall i :: 0 <= i < |f.rows| ==>
      var key := KeyColumn(f.columns, pk).value;
      key in f.rows[i] &&
      r.value[i] == InsertCommand(tablename, InsertColumns(f.columns, key, skList), RowLiterals(f.rows[i], f.columns, key, skList))
  {
    match KeyColumn(f.columns, pk)
    case None => Failure(IndexError)
    case Some(key) =>
      if |f.rows| > 0 && key !in f.columns then Failure(KeyError(key))
      else
        var names := InsertColumns(f.columns, key, skList);
        Success(seq(|f.rows|, i requires 0 <= i < |f.rows| =>
          InsertCommand(tablename, names, RowLiterals(f.rows[i], f.columns, key, skList))))
  }

  /** The INSERT column list is the created table's column list without the identity and
      Timestamp columns, in the same order. */
  lemma InsertColumnsMatchCreated(cols: seq<string>, pk: Option<string>, skList: seq<string>)
    requires TableColumns(cols, pk, skList).Success?
    ensures InsertColumns(cols, KeyColumn(cols, pk).value, skList) == Names(TableColumns(cols, pk, skList).value)
  {
    CreatedColumnOrder(cols, pk, skList);
  }

  /** The column list: the key, each other column in frame order, then `SK_<c>` for each
      listed non-key column. */
  lemma InsertColumnsLayout(cols: seq<string>, key: string, skList: seq<string>)
    ensures
      var names := InsertColumns(cols, key, skList);
      var others := OtherColumns(cols, key);
      var shadows := ShadowSources(others, skList);
      && |names| == 1 + |others| + |shadows| && names[0] == key
      && (forall j :: 0 <= j < |others| ==> names[1 + j] == others[j])
      && (forall j :: 0 <= j < |shadows| ==> names[1 + |others| + j] == "SK_" + shadows[j])
  {
    var others := OtherColumns(cols, key);
    ColumnListLayout(key, others, ShadowSources(others, skList));
  }

  /** The layout of a column list built from a key, other columns and shadowed columns. */
  lemma ColumnListLayout(key: string, others: seq<string>, shadows: seq<string>)
    ensures
      var names := [key] + others + ShadowNames(shadows);
      && |names| == 1 + |others| + |shadows| && names[0] == key
      && (forall j :: 0 <= j < |others| ==> names[1 + j] == others[j])
      && (forall j :: 0 <= j < |shadows| ==> names[1 + |others| + j] == "SK_" + shadows[j])
  {
    var names := [key] + others + ShadowNames(shadows);
    forall j | 0 <= j < |others|
      ensures names[1 + j] == others[j]
    {
      MidAt(names, key, others, ShadowNames(shadows), j);
    }
    forall j | 0 <= j < |shadows|
      ensures names[1 + |others| + j] == "SK_" + shadows[j]
    {
      TailAt(names, key, others, ShadowNames(shadows), j);
    }
  }

  /** Each row's VALUES list lines up with the column list: the key raw first, then each other
      cell's value literal, then each listed cell's placeholder. */
  lemma RowLiteralsLayout(row: Row, cols: seq<string>, key: string, skList: seq<string>, others: seq<string>, shadows: seq<string>)
    requires key in row && forall c :: c in cols ==> c in row
    requires others == OtherColumns(cols, key) && shadows == ShadowSources(others, skList)
    ensures |RowLiterals(row, cols, key, skList)| == |InsertColumns(cols, key, skList)| == 1 + |others| + |shadows|
    ensures RowLiterals(row, cols, key, skList)[0] == RawLit(Render(row[key]))
    ensures forall j :: 0 <= j < |others| ==> RowLiterals(row, cols, key, skList)[1 + j] == ValueLiteral(row[others[j]])
    ensures forall j :: 0 <= j < |shadows| ==>
      RowLiterals(row, cols, key, skList)[1 + |others| + j] == PlaceholderLiteral(row[shadows[j]])
  {
    InsertColumnsLayout(cols, key, skList);
    LiteralsLayout(row, key, others, shadows);
  }

  /** The layout of a VALUES list built from a key, other columns and shadowed columns. */
  lemma LiteralsLayout(row: Row, key: string, others: seq<string>, shadows: seq<string>)
    requires key in row && (forall c :: c in others ==> c in row) && (forall c :: c in shadows ==> c in row)
    ensures
      var lits := Literals(row, key, others, shadows);
      && |lits| == 1 + |others| + |shadows| && lits[0] == RawLit(Render(row[key]))
      && (forall j :: 0 <= j < |others| ==> lits[1 + j] == ValueLiteral(row[others[j]]))
      && (forall j :: 0 <= j < |shadows| ==> lits[1 + |others| + j] == PlaceholderLiteral(row[shadows[j]]))
  {
    var lits := Literals(row, key, others, shadows);
    forall j | 0 <= j < |others|
      ensures lits[1 + j] == ValueLiteral(row[others[j]])
    {
      ValueLiteralAt(row, key, others, shadows, j);
    }
    forall j | 0 <= j < |shadows|
      ensures lits[1 + |others| + j] == PlaceholderLiteral(row[shadows[j]])
    {
      PlaceholderLiteralAt(row, key, others, shadows, j);
    }
  }

  lemma ValueLiteralAt(row: Row, key: string, others: seq<string>, shadows: seq<string>, j: nat)
    requires key in row && (forall c :: c in others ==> c in row) && (forall c :: c in shadows ==> c in row)
    requires j < |others|
    ensures Literals(row, key, others, shadows)[1 + j] == ValueLiteral(row[others[j]])
  {
    assert Literals(row, key, others, shadows)[1 + j] == LiteralAt(row, key, others, shadows, 1 + j);
    EncodedCell(row[others[j]]);
  }

  lemma PlaceholderLiteralAt(row: Row, key: string, others: seq<string>, shadows: seq<string>, j: nat)
    requires key in row && (forall c :: c in others ==> c in row) && (forall c :: c in shadows ==> c in row)
    requires j < |shadows|
    ensures Literals(row, key, others, shadows)[1 + |others| + j] == PlaceholderLiteral(row[shadows[j]])
  {
    assert Literals(row, key, others, shadows)[1 + |others| + j] == LiteralAt(row, key, others, shadows, 1 + |others| + j);
    EncodedCell(row[shadows[j]]);
  }

  /** A cell's two literals, by whether its text is `None`. */
  lemma EncodedCell(c: Cell)
    ensures EncodeCell(c).0 == ValueLiteral(c) && EncodeCell(c).1 == PlaceholderLiteral(c)
  {
  }
}
