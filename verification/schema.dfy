/** `createTable`: the CREATE TABLE statement built from a frame's columns. */
module Schema {
  import opened Base
  import opened Seqs
  import opened Strings
  import opened ColumnTypes

  /** One column definition of the statement. */
  datatype ColumnDef = ColumnDef(name: string, sqlType: string, notNull: bool)

  /** `<name> <type>`, with ` NOT NULL` for a designated primary key. */
  function DefText(d: ColumnDef): string {
    d.name + " " + d.sqlType + (if d.notNull then " NOT NULL" else "")
  }

  function DefTexts(ds: seq<ColumnDef>): (r: seq<string>)
    ensures |r| == |ds| && forall j :: 0 <= j < |ds| ==> r[j] == DefText(ds[j])
  {
    seq(|ds|, j requires 0 <= j < |ds| => DefText(ds[j]))
  }

  function Names(ds: seq<ColumnDef>): (r: seq<string>)
    ensures |r| == |ds| && forall j :: 0 <= j < |ds| ==> r[j] == ds[j].name
  {
    seq(|ds|, j requires 0 <= j < |ds| => ds[j].name)
  }

  /** The primary-key column: the designated one, else the frame's first column; None when
      there is no designated key and no column (`columns[0]` raises IndexError). */
  function KeyColumn(cols: seq<string>, pk: Option<string>): (r: Option<string>)
    ensures r.None? <==> pk.None? && |cols| == 0
    ensures pk.Some? ==> r == pk
    ensures pk.None? && r.Some? ==> r.value in cols && r.value == cols[0]
  {
    if pk.Some? then pk else if |cols| > 0 then Some(cols[0]) else None
  }

  /** The columns after the primary key, in frame order. */
  function OtherColumns(cols: seq<string>, key: string): seq<string> {
    Filter(c => c != key, cols)
  }

  /** The non-key columns that get a shadow `SK_<column>`, in frame order. */
  function ShadowSources(others: seq<string>, skList: seq<string>): seq<string> {
    Filter(c => c in skList, others)
  }

  /** The typed definitions of `cols`, or the exception of the first untyped one. */
  function TypedDefs(cols: seq<string>): (r: Result<seq<ColumnDef>>)
    ensures r.Success? <==> forall j :: 0 <= j < |cols| ==> ColumnType(cols[j]).Success?
    ensures r.Success? ==> |r.value| == |cols|
    ensures r.Success? ==>
      forall j :: 0 <= j < |cols| ==> r.value[j] == ColumnDef(cols[j], ColumnType(cols[j]).value, false)
    ensures r.Failure? ==> r.error.Exception?
    decreases |cols|
  {
    if |cols| == 0 then Success([])
    else
      var n := |cols| - 1;
      var front := TypedDefs(cols[..n]);
      assert forall j :: 0 <= j < n ==> cols[..n][j] == cols[j];
      if front.Failure? then
        assert exists j :: 0 <= j < n && ColumnType(cols[j]).Failure?;
        Failure(front.error)
      else match ColumnType(cols[n])
        case Failure(e) => Failure(e)
        case Success(t) =>
          TypedSnoc(cols, front.value, t);
          Success(front.value + [ColumnDef(cols[n], t, false)])
  }

  /** The step of `TypedDefs`: the typed front plus the last column's definition. */
  lemma TypedSnoc(cols: seq<string>, defs: seq<ColumnDef>, t: string)
    requires |cols| > 0 && |defs| == |cols| - 1 && ColumnType(cols[|cols| - 1]) == Success(t)
    requires forall j :: 0 <= j < |defs| ==> ColumnType(cols[j]).Success?
    requires forall j :: 0 <= j < |defs| ==> defs[j] == ColumnDef(cols[j], ColumnType(cols[j]).value, false)
    ensures forall j :: 0 <= j < |cols| ==> ColumnType(cols[j]).Success?
    ensures forall j :: 0 <= j < |cols| ==>
      (defs + [ColumnDef(cols[|cols| - 1], t, false)])[j] == ColumnDef(cols[j], ColumnType(cols[j]).value, false)
  {
  }

  /** A failure is the error of the first untyped column. */
  lemma {:induction false} TypedDefsFirstFailure(cols: seq<string>)
    requires TypedDefs(cols).Failure?
    ensures exists j :: (0 <= j < |cols| && ColumnType(cols[j]) == Failure(TypedDefs(cols).error) &&
      forall l :: 0 <= l < j ==> ColumnType(cols[l]).Success?)
    decreases |cols|
  {
    var n := |cols| - 1;
    var front := cols[..n];
    assert forall j :: 0 <= j < n ==> front[j] == cols[j];
    if TypedDefs(front).Failure? {
      TypedDefsFirstFailure(front);
      var j :| 0 <= j < n && ColumnType(front[j]) == Failure(TypedDefs(front).error) &&
        (forall l :: 0 <= l < j ==> ColumnType(front[l]).Success?);
      assert ColumnType(cols[j]) == Failure(TypedDefs(cols).error);
    } else {
      assert ColumnType(cols[n]) == Failure(TypedDefs(cols).error);
    }
  }

  /** `SK_<INT>` shadow definitions for the given columns. */
  function ShadowDefs(srcs: seq<string>): (r: seq<ColumnDef>)
    ensures |r| == |srcs| && forall j :: 0 <= j < |srcs| ==> r[j] == ColumnDef("SK_" + srcs[j], "INT", false)
  {
    seq(|srcs|, j requires 0 <= j < |srcs| => ColumnDef("SK_" + srcs[j], "INT", false))
  }

  /** The identity column's name: `SK_<pk>`, or `SK_<tablename>` when no key is designated. */
  function SurrogateName(tablename: string, pk: Option<string>): (r: string)
    ensures |r| >= 3 && r[..3] == "SK_"
    ensures pk.Some? ==> r[3..] == pk.value
    ensures pk.None? ==> r[3..] == tablename
  {
    if pk.Some? then "SK_" + pk.value else "SK_" + tablename
  }

  /** The user columns of the table, after the identity and Timestamp columns, or the exception
      `createTable` raises first. */
  function TableColumns(cols: seq<string>, pk: Option<string>, skList: seq<string>): (r: Result<seq<ColumnDef>>)
    ensures r == Failure(IndexError) <==> KeyColumn(cols, pk).None?
    ensures KeyColumn(cols, pk).Some? ==>
      (r.Success? <==>
        && ColumnType(KeyColumn(cols, pk).value).Success?
        && forall c :: c in cols && c != KeyColumn(cols, pk).value ==> ColumnType(c).Success?)
    ensures KeyColumn(cols, pk).Some? && ColumnType(KeyColumn(cols, pk).value).Failure? ==>
      r == Failure(ColumnType(KeyColumn(cols, pk).value).error)
  {
    match KeyColumn(cols, pk)
    case None => Failure(IndexError)
    case Some(key) =>
      var others := OtherColumns(cols, key);
      match ColumnType(key)
      case Failure(e) => Failure(e)
      case Success(keyType) =>
        match TypedDefs(others)
        case Failure(e) => Failure(e)
        case Success(otherDefs) =>
          Success([ColumnDef(key, keyType, pk.Some?)] + otherDefs + ShadowDefs(ShadowSources(others, skList)))
  }

  /** The key comes first, NOT NULL only when designated. */
  lemma TableColumnsKey(cols: seq<string>, pk: Option<string>, skList: seq<string>, key: string,
                        others: seq<string>, defs: seq<ColumnDef>)
    requires TableColumns(cols, pk, skList) == Success(defs)
    requires KeyColumn(cols, pk) == Some(key) && others == OtherColumns(cols, key)
    ensures |defs| == 1 + |others| + |ShadowSources(others, skList)|
    ensures ColumnType(key).Success? && defs[0] == ColumnDef(key, ColumnType(key).value, pk.Some?)
  {
    TableColumnsValue(cols, pk, skList);
  }

  /** Then every other column with its type, in frame order. */
  lemma TableColumnsOthers(cols: seq<string>, pk: Option<string>, skList: seq<string>, key: string,
                           others: seq<string>, defs: seq<ColumnDef>)
    requires TableColumns(cols, pk, skList) == Success(defs)
    requires KeyColumn(cols, pk) == Some(key) && others == OtherColumns(cols, key)
    ensures 1 + |others| <= |defs|
    ensures forall j :: 0 <= j < |others| ==>
      ColumnType(others[j]).Success? && defs[1 + j] == ColumnDef(others[j], ColumnType(others[j]).value, false)
  {
    TableColumnsValue(cols, pk, skList);
    var keyDef := ColumnDef(key, ColumnType(key).value, pk.Some?);
    var mid := TypedDefs(others).value;
    var tail := ShadowDefs(ShadowSources(others, skList));
    forall j | 0 <= j < |others|
      ensures ColumnType(others[j]).Success? && defs[1 + j] == ColumnDef(others[j], ColumnType(others[j]).value, false)
    {
      MidAt(defs, keyDef, mid, tail, j);
    }
  }

  /** Then `SK_<c> INT` for each listed non-key column, in frame order. */
  lemma TableColumnsShadows(cols: seq<string>, pk: Option<string>, skList: seq<string>, key: string,
                            others: seq<string>, shadows: seq<string>, defs: seq<ColumnDef>)
    requires TableColumns(cols, pk, skList) == Success(defs)
    requires KeyColumn(cols, pk) == Some(key) && others == OtherColumns(cols, key)
    requires shadows == ShadowSources(others, skList)
    ensures 1 + |others| + |shadows| <= |defs|
    ensures forall j :: 0 <= j < |shadows| ==> defs[1 + |others| + j] == ColumnDef("SK_" + shadows[j], "INT", false)
  {
    TableColumnsValue(cols, pk, skList);
    ShadowDefsAt(ColumnDef(key, ColumnType(key).value, pk.Some?), TypedDefs(others).value, others, shadows);
  }

  /** The shadow definitions after a key definition and one definition per other column. */
  lemma ShadowDefsAt(keyDef: ColumnDef, mid: seq<ColumnDef>, others: seq<string>, shadows: seq<string>)
    requires |mid| == |others|
    ensures var defs := [keyDef] + mid + ShadowDefs(shadows);
      && |defs| == 1 + |others| + |shadows|
      && forall j :: 0 <= j < |shadows| ==> defs[1 + |others| + j] == ColumnDef("SK_" + shadows[j], "INT", false)
  {
    var defs := [keyDef] + mid + ShadowDefs(shadows);
    forall j | 0 <= j < |shadows|
      ensures defs[1 + |others| + j] == ColumnDef("SK_" + shadows[j], "INT", false)
    {
      TailAt(defs, keyDef, mid, ShadowDefs(shadows), j);
    }
  }

  lemma TableColumnsValue(cols: seq<string>, pk: Option<string>, skList: seq<string>)
    requires TableColumns(cols, pk, skList).Success?
    ensures KeyColumn(cols, pk).Some? && ColumnType(KeyColumn(cols, pk).value).Success?
    ensures TypedDefs(OtherColumns(cols, KeyColumn(cols, pk).value)).Success?
    ensures var key := KeyColumn(cols, pk).value;
      var others := OtherColumns(cols, key);
      TableColumns(cols, pk, skList).value ==
        [ColumnDef(key, ColumnType(key).value, pk.Some?)] + TypedDefs(others).value + ShadowDefs(ShadowSources(others, skList))
  {
  }

  /** What follows the identity column's name in its definition. */
  const IdentityType: string := " INT IDENTITY(1,1) NOT NULL PRIMARY KEY"

  /** The Timestamp column's definition. */
  const TimestampDef: string := "Timestamp DATETIME NOT NULL DEFAULT(GETDATE())"

  /** The rest of the `surogate_columns` text after the identity column's name. */
  const SystemColumnsTail: string := IdentityType + ", " + TimestampDef

  /** `CREATE TABLE t (<identity>, Timestamp ..., <user columns>)`. */
  function CreateCommand(tablename: string, pk: Option<string>, defs: seq<ColumnDef>): string {
    "CREATE TABLE " + tablename + " (" + SurrogateName(tablename, pk) + SystemColumnsTail + ", "
      + Join(DefTexts(defs), ", ") + ")"
  }

  /** The statement `createTable` executes, or the exception it raises first. */
  function CreateTable(tablename: string, cols: seq<string>, pk: Option<string>, skList: seq<string>): (r: Result<string>)
    ensures r.Success? <==> TableColumns(cols, pk, skList).Success?
    ensures r.Failure? ==> r.error == TableColumns(cols, pk, skList).error
  {
    match TableColumns(cols, pk, skList)
    case Failure(e) => Failure(e)
    case Success(defs) => Success(CreateCommand(tablename, pk, defs))
  }

  /** The identity name, Timestamp and a non-empty list of definitions, comma-joined, read as
      `CreateCommand` spells them. */
  lemma {:induction false} SystemColumnsJoined(surrogate: string, ds: seq<string>)
    requires |ds| > 0
    ensures Join([surrogate + IdentityType, TimestampDef] + ds, ", ")
      == surrogate + SystemColumnsTail + ", " + Join(ds, ", ")
  {
    var j := Join(ds, ", ");
    JoinTwoBefore(surrogate + IdentityType, TimestampDef, ds, ", ");
    Regroup(surrogate, IdentityType, ", ", TimestampDef, j);
  }

  /** Regrouping of the five pieces of the column list. */
  lemma Regroup(x: string, i: string, c: string, t: string, j: string)
    ensures (x + i) + (c + t + (c + j)) == x + (i + c + t) + c + j
  {
  }

  /** `CreateCommand` lists the identity column, Timestamp and the definitions, comma-joined. */
  lemma CreateCommandText(tablename: string, pk: Option<string>, defs: seq<ColumnDef>)
    requires |defs| > 0
    ensures CreateCommand(tablename, pk, defs) == "CREATE TABLE " + tablename + " ("
      + Join([SurrogateName(tablename, pk) + IdentityType, TimestampDef] + DefTexts(defs), ", ") + ")"
  {
    var sur := SurrogateName(tablename, pk);
    var joined := Join(DefTexts(defs), ", ");
    SystemColumnsJoined(sur, DefTexts(defs));
    Regroup4("CREATE TABLE " + tablename + " (", sur, SystemColumnsTail, ", ", joined);
  }

  /** Regrouping of a statement's head and four pieces. */
  lemma Regroup4(h: string, a: string, b: string, c: string, d: string)
    ensures h + a + b + c + d == h + (a + b + c + d)
  {
  }

  /** The statement's column list is the identity column `SK_<pk>` (or `SK_<tablename>`), then
      Timestamp, then the definitions of the table's user columns, comma-separated. */
  lemma CreateTableText(tablename: string, cols: seq<string>, pk: Option<string>, skList: seq<string>)
    requires TableColumns(cols, pk, skList).Success?
    ensures CreateTable(tablename, cols, pk, skList) == Success("CREATE TABLE " + tablename + " ("
      + Join([SurrogateName(tablename, pk) + IdentityType, TimestampDef] + DefTexts(TableColumns(cols, pk, skList).value), ", ")
      + ")")
  {
    var defs := TableColumns(cols, pk, skList).value;
    TableColumnsValue(cols, pk, skList);
    CreateCommandText(tablename, pk, defs);
  }

  /** The names of a key definition, definitions named after `others`, and shadow definitions. */
  lemma NamesOfParts(keyDef: ColumnDef, otherDefs: seq<ColumnDef>, others: seq<string>, shadows: seq<string>)
    requires |otherDefs| == |others| && forall j :: 0 <= j < |others| ==> otherDefs[j].name == others[j]
    ensures Names([keyDef] + otherDefs + ShadowDefs(shadows)) == [keyDef.name] + others + ShadowNames(shadows)
  {
    var defs := [keyDef] + otherDefs + ShadowDefs(shadows);
    var expected := [keyDef.name] + others + ShadowNames(shadows);
    forall j | 0 <= j < |expected|
      ensures Names(defs)[j] == expected[j]
    {
      if 1 <= j < 1 + |others| {
        MidAt(defs, keyDef, otherDefs, ShadowDefs(shadows), j - 1);
        MidAt(expected, keyDef.name, others, ShadowNames(shadows), j - 1);
      } else if j >= 1 + |others| {
        TailAt(defs, keyDef, otherDefs, ShadowDefs(shadows), j - 1 - |others|);
        TailAt(expected, keyDef.name, others, ShadowNames(shadows), j - 1 - |others|);
      }
    }
  }

  /** The user columns of the created table are the key, then every other column in frame
      order, then one `SK_<c>` per listed non-key column, in frame order. */
  lemma CreatedColumnOrder(cols: seq<string>, pk: Option<string>, skList: seq<string>)
    requires TableColumns(cols, pk, skList).Success?
    ensures var key := KeyColumn(cols, pk).value;
      var others := OtherColumns(cols, key);
      Names(TableColumns(cols, pk, skList).value) == [key] + others + ShadowNames(ShadowSources(others, skList))
  {
    TableColumnsValue(cols, pk, skList);
    var key := KeyColumn(cols, pk).value;
    var others := OtherColumns(cols, key);
    var otherDefs := TypedDefs(others).value;
    assert forall j :: 0 <= j < |others| ==> otherDefs[j].name == others[j];
    NamesOfParts(ColumnDef(key, ColumnType(key).value, pk.Some?), otherDefs, others, ShadowSources(others, skList));
  }

  /** `SK_<c>` for each column. */
  function ShadowNames(srcs: seq<string>): (r: seq<string>)
    ensures |r| == |srcs| && forall j :: 0 <= j < |srcs| ==> r[j] == "SK_" + srcs[j]
  {
    seq(|srcs|, j requires 0 <= j < |srcs| => "SK_" + srcs[j])
  }

  /** Every frame column other than the key appears once among the user columns, and no other
      name does; each shadow belongs to a listed non-key column. */
  lemma EveryColumnOnce(cols: seq<string>, pk: Option<string>, skList: seq<string>)
    requires Distinct(cols) && TableColumns(cols, pk, skList).Success?
    ensures var key := KeyColumn(cols, pk).value;
      var others := OtherColumns(cols, key);
      && Distinct(others)
      && (forall c :: c in others <==> c in cols && c != key)
      && (forall c :: c in ShadowSources(others, skList) <==> c in cols && c != key && c in skList)
  {
    OtherColumnsDistinct(cols, KeyColumn(cols, pk).value);
  }

  lemma OtherColumnsDistinct(cols: seq<string>, key: string)
    requires Distinct(cols)
    ensures Distinct(OtherColumns(cols, key))
  {
    FilterDistinct(c => c != key, cols);
  }

  /** The non-key columns of a concatenation are those of each part. */
  lemma {:induction false} OtherColumnsConcat(a: seq<string>, b: seq<string>, key: string)
    ensures OtherColumns(a + b, key) == OtherColumns(a, key) + OtherColumns(b, key)
    decreases |b|
  {
    if |b| == 0 {
      assert a + b == a;
    } else {
      var n := |b| - 1;
      assert (a + b)[..|a + b| - 1] == a + b[..n];
      OtherColumnsConcat(a, b[..n], key);
    }
  }

  /** Once an untyped column follows typed ones, typing the whole list fails with its error. */
  lemma {:induction false} TypedDefsStopsAt(a: seq<string>, x: string, b: seq<string>)
    requires TypedDefs(a).Success? && ColumnType(x).Failure?
    ensures TypedDefs(a + [x] + b) == Failure(ColumnType(x).error)
    decreases |b|
  {
    if |b| == 0 {
      assert a + [x] + b == a + [x];
      assert (a + [x])[..|a|] == a;
    } else {
      var n := |b| - 1;
      assert (a + [x] + b)[..|a + [x] + b| - 1] == a + [x] + b[..n];
      TypedDefsStopsAt(a, x, b[..n]);
    }
  }

  /** Typing one more typed column appends its definition. */
  lemma TypedDefsSnoc(a: seq<string>, x: string)
    requires TypedDefs(a).Success? && ColumnType(x).Success?
    ensures TypedDefs(a + [x]) == Success(TypedDefs(a).value + [ColumnDef(x, ColumnType(x).value, false)])
  {
    assert (a + [x])[..|a|] == a;
  }

  /** The loop's view of the non-key columns: one more frame column, one more non-key column
      unless it is the key. */
  lemma OtherColumnsStep(cols: seq<string>, i: nat, key: string, done: seq<string>)
    requires i < |cols| && done == OtherColumns(cols[..i], key)
    ensures cols[i] != key ==> OtherColumns(cols[..i + 1], key) == done + [cols[i]]
    ensures cols[i] == key ==> OtherColumns(cols[..i + 1], key) == done
  {
    assert cols[..i + 1][..i] == cols[..i];
  }

  /** The non-key columns split around a non-key column at position `i`. */
  lemma OtherColumnsSplitAt(cols: seq<string>, i: nat, key: string)
    requires i < |cols| && cols[i] != key
    ensures OtherColumns(cols, key) == OtherColumns(cols[..i], key) + [cols[i]] + OtherColumns(cols[i + 1..], key)
  {
    assert cols == cols[..i] + [cols[i]] + cols[i + 1..];
    OtherColumnsConcat(cols[..i] + [cols[i]], cols[i + 1..], key);
    OtherColumnsConcat(cols[..i], [cols[i]], key);
    assert OtherColumns([cols[i]], key) == [cols[i]] by {
      assert [cols[i]][..0] == [];
    }
  }

  lemma Assoc(a: string, b: string, c: string)
    ensures (a + b) + c == a + (b + c)
  {
  }

  lemma ShadowSourcesSnoc(a: seq<string>, x: string, skList: seq<string>)
    ensures ShadowSources(a + [x], skList) == ShadowSources(a, skList) + (if x in skList then [x] else [])
  {
    assert (a + [x])[..|a|] == a;
  }

  /** With no column listed, there are no shadows. */
  lemma {:induction false} ShadowSourcesNone(others: seq<string>, skList: seq<string>)
    requires forall c :: c in others ==> c !in skList
    ensures ShadowSources(others, skList) == []
  {
    if |others| > 0 {
      var n := |others| - 1;
      assert others == others[..n] + [others[n]];
      ShadowSourcesNone(others[..n], skList);
      ShadowSourcesSnoc(others[..n], others[n], skList);
    }
  }

  lemma DefTextsSnoc(ds: seq<ColumnDef>, d: ColumnDef)
    ensures DefTexts(ds + [d]) == DefTexts(ds) + [DefText(d)]
  {
  }

  lemma ShadowDefsSnoc(srcs: seq<string>, x: string)
    ensures ShadowDefs(srcs + [x]) == ShadowDefs(srcs) + [ColumnDef("SK_" + x, "INT", false)]
  {
  }

  lemma PrefixedSnoc(ps: seq<string>, p: string, sep: string)
    ensures Prefixed(ps + [p], sep) == Prefixed(ps, sep) + sep + p
  {
    assert (ps + [p])[..|ps|] == ps;
  }

  /** The pieces the source's f-strings append are the definitions' texts after `, `. */
  lemma AppendedPieces(c: string, t: string)
    ensures ", " + c + " " + t == ", " + DefText(ColumnDef(c, t, false))
    ensures ", SK_" + c + " INT" == ", " + DefText(ColumnDef("SK_" + c, "INT", false))
  {
  }

  /** One column of the source's loop: the typed text and the shadow text grow by that column. */
  lemma LoopStep(keyText: string, done: seq<string>, defs: seq<ColumnDef>, srcs: seq<string>,
                 columns: string, shadowText: string, c: string, t: string, skList: seq<string>)
    requires TypedDefs(done) == Success(defs) && srcs == ShadowSources(done, skList)
    requires ColumnType(c) == Success(t)
    requires columns == keyText + Prefixed(DefTexts(defs), ", ")
    requires shadowText == Prefixed(DefTexts(ShadowDefs(srcs)), ", ")
    ensures TypedDefs(done + [c]) == Success(defs + [ColumnDef(c, t, false)])
    ensures columns + (", " + c + " " + t) == keyText + Prefixed(DefTexts(defs + [ColumnDef(c, t, false)]), ", ")
    ensures c in skList ==> ShadowSources(done + [c], skList) == srcs + [c]
    ensures c !in skList ==> ShadowSources(done + [c], skList) == srcs
    ensures c in skList ==> shadowText + (", SK_" + c + " INT") == Prefixed(DefTexts(ShadowDefs(srcs + [c])), ", ")
  {
    var d := ColumnDef(c, t, false);
    TypedDefsSnoc(done, c);
    DefTextsSnoc(defs, d);
    var x := Prefixed(DefTexts(defs), ", ");
    PrefixedSnoc(DefTexts(defs), DefText(d), ", ");
    AppendedPieces(c, t);
    Assoc(keyText, x, ", " + DefText(d));
    Assoc(x, ", ", DefText(d));
    ShadowSourcesSnoc(done, c, skList);
    if c !in skList {
      assert srcs + [] == srcs;
    }
    if c in skList {
      var sd := ColumnDef("SK_" + c, "INT", false);
      ShadowDefsSnoc(srcs, c);
      DefTextsSnoc(ShadowDefs(srcs), sd);
      PrefixedSnoc(DefTexts(ShadowDefs(srcs)), DefText(sd), ", ");
      Assoc(shadowText, ", ", DefText(sd));
    }
  }

  /** The finished loop's two strings joined are the joined texts of the table's user columns. */
  lemma LoopResult(keyDef: ColumnDef, otherDefs: seq<ColumnDef>, shadowDefs: seq<ColumnDef>)
    ensures Join(DefTexts([keyDef] + otherDefs + shadowDefs), ", ")
      == DefText(keyDef) + Prefixed(DefTexts(otherDefs), ", ") + Prefixed(DefTexts(shadowDefs), ", ")
  {
    var all := DefTexts([keyDef] + otherDefs + shadowDefs);
    assert all[1..] == DefTexts(otherDefs) + DefTexts(shadowDefs);
    PrefixedConcat(DefTexts(otherDefs), DefTexts(shadowDefs), ", ");
  }

  /** Where the source's loop meets an untyped non-key column after typed ones, typing the
      non-key columns fails with that column's error. */
  lemma TypingFailsAt(cols: seq<string>, key: string, i: nat)
    requires i < |cols| && cols[i] != key && ColumnType(cols[i]).Failure?
    requires TypedDefs(OtherColumns(cols[..i], key)).Success?
    ensures TypedDefs(OtherColumns(cols, key)) == Failure(ColumnType(cols[i]).error)
  {
    OtherColumnsSplitAt(cols, i, key);
    TypedDefsStopsAt(OtherColumns(cols[..i], key), cols[i], OtherColumns(cols[i + 1..], key));
  }

  /** After the first `i` frame columns the loop has the typed non-key columns `done` with
      definitions `defs`, the listed ones `srcs`, and the two strings built from them. */
  predicate Built(cols: seq<string>, key: string, skList: seq<string>, keyText: string, i: nat,
                  columns: string, shadowText: string, done: seq<string>, defs: seq<ColumnDef>, srcs: seq<string>)
  {
    && i <= |cols|
    && done == OtherColumns(cols[..i], key)
    && TypedDefs(done) == Success(defs)
    && srcs == ShadowSources(done, skList)
    && columns == keyText + Prefixed(DefTexts(defs), ", ")
    && shadowText == Prefixed(DefTexts(ShadowDefs(srcs)), ", ")
  }

  /** One turn of the loop: the key is skipped, a typed column is appended, and an untyped one
      is where typing the non-key columns fails. */
  lemma BuiltStep(cols: seq<string>, key: string, skList: seq<string>, keyText: string, i: nat,
                  columns: string, shadowText: string, done: seq<string>, defs: seq<ColumnDef>, srcs: seq<string>)
    requires Built(cols, key, skList, keyText, i, columns, shadowText, done, defs, srcs) && i < |cols|
    ensures cols[i] == key ==> Built(cols, key, skList, keyText, i + 1, columns, shadowText, done, defs, srcs)
    ensures cols[i] != key && ColumnType(cols[i]).Failure? ==>
      TypedDefs(OtherColumns(cols, key)) == Failure(ColumnType(cols[i]).error)
    ensures cols[i] != key && ColumnType(cols[i]).Success? && cols[i] in skList ==>
      Built(cols, key, skList, keyText, i + 1,
            columns + (", " + cols[i] + " " + ColumnType(cols[i]).value), shadowText + (", SK_" + cols[i] + " INT"),
            done + [cols[i]], defs + [ColumnDef(cols[i], ColumnType(cols[i]).value, false)], srcs + [cols[i]])
    ensures cols[i] != key && ColumnType(cols[i]).Success? && cols[i] !in skList ==>
      Built(cols, key, skList, keyText, i + 1,
            columns + (", " + cols[i] + " " + ColumnType(cols[i]).value), shadowText,
            done + [cols[i]], defs + [ColumnDef(cols[i], ColumnType(cols[i]).value, false)], srcs)
  {
    var c := cols[i];
    OtherColumnsStep(cols, i, key, done);
    if c != key {
      if ColumnType(c).Failure? {
        TypingFailsAt(cols, key, i);
      } else {
        LoopStep(keyText, done, defs, srcs, columns, shadowText, c, ColumnType(c).value, skList);
      }
    }
  }

  /** When the loop has seen every column, its strings are those of the typed non-key columns. */
  lemma BuiltAll(cols: seq<string>, key: string, skList: seq<string>, keyText: string,
                 columns: string, shadowText: string, done: seq<string>, defs: seq<ColumnDef>, srcs: seq<string>)
    requires Built(cols, key, skList, keyText, |cols|, columns, shadowText, done, defs, srcs)
    ensures TypedDefs(OtherColumns(cols, key)) == Success(defs)
    ensures columns == keyText + Prefixed(DefTexts(TypedDefs(OtherColumns(cols, key)).value), ", ")
    ensures shadowText == Prefixed(DefTexts(ShadowDefs(ShadowSources(OtherColumns(cols, key), skList))), ", ")
  {
    assert cols[..|cols|] == cols;
  }

  /** One turn of the source's loop at column `i`: nothing for the key, otherwise append
      `, <c> <type>` and, for a listed column, `, SK_<c> INT`; an untyped column stops the loop
      with its error. */
  method AppendStep(cols: seq<string>, key: string, skList: seq<string>, keyText: string, i: nat,
                    columns: string, shadowText: string, ghost done: seq<string>, ghost defs: seq<ColumnDef>,
                    ghost srcs: seq<string>)
    returns (stop: Option<Error>, columns': string, shadowText': string, ghost done': seq<string>,
             ghost defs': seq<ColumnDef>, ghost srcs': seq<string>)
    requires Built(cols, key, skList, keyText, i, columns, shadowText, done, defs, srcs) && i < |cols|
    ensures stop.Some? ==> TypedDefs(OtherColumns(cols, key)) == Failure(stop.value)
    ensures stop.None? ==> Built(cols, key, skList, keyText, i + 1, columns', shadowText', done', defs', srcs')
  {
    var c := cols[i];
    BuiltStep(cols, key, skList, keyText, i, columns, shadowText, done, defs, srcs);
    stop, columns', shadowText', done', defs', srcs' := None, columns, shadowText, done, defs, srcs;
    if c != key {
      var t := ColumnType(c);
      if t.Failure? {
        stop := Some(t.error);
        return;
      }
      columns' := columns + (", " + c + " " + t.value);
      if c in skList {
        shadowText' := shadowText + (", SK_" + c + " INT");
        srcs' := srcs + [c];
      }
      done' := done + [c];
      defs' := defs + [ColumnDef(c, t.value, false)];
    }
  }

  /** The source's loop over the frame's columns: append `, <c> <type>` to the key definition
      for each non-key column and `, SK_<c> INT` to a second string for each listed one,
      stopping at the first untyped column. */
  method AppendColumns(cols: seq<string>, key: string, skList: seq<string>, keyText: string)
    returns (r: Result<(string, string)>)
    ensures TypedDefs(OtherColumns(cols, key)).Failure? ==> r == Failure(TypedDefs(OtherColumns(cols, key)).error)
    ensures TypedDefs(OtherColumns(cols, key)).Success? ==>
      r == Success((keyText + Prefixed(DefTexts(TypedDefs(OtherColumns(cols, key)).value), ", "),
                    Prefixed(DefTexts(ShadowDefs(ShadowSources(OtherColumns(cols, key), skList))), ", ")))
  {
    var columns := keyText;
    var shadowText := "";
    ghost var done: seq<string> := [];
    ghost var defs: seq<ColumnDef> := [];
    ghost var srcs: seq<string> := [];
    var i := 0;
    assert cols[..0] == [];
    while i < |cols|
      invariant Built(cols, key, skList, keyText, i, columns, shadowText, done, defs, srcs)
    {
      var stop;
      stop, columns, shadowText, done, defs, srcs := AppendStep(cols, key, skList, keyText, i, columns, shadowText, done, defs, srcs);
      if stop.Some? {
        return Failure(stop.value);
      }
      i := i + 1;
    }
    BuiltAll(cols, key, skList, keyText, columns, shadowText, done, defs, srcs);
    return Success((columns, shadowText));
  }

  /** `createTable` as the source writes it: the identity name and key definition chosen by
      whether a key is designated, then `AppendColumns`; the outcome is `CreateTable`'s. */
  method BuildCreateCommand(tablename: string, cols: seq<string>, pk: Option<string>, skList: seq<string>)
    returns (r: Result<string>)
    ensures r == CreateTable(tablename, cols, pk, skList)
  {
    var key: string;
    var surrogate: string;
    var keyText: string;
    if pk.None? {
      if |cols| == 0 {
        return Failure(IndexError);
      }
      key := cols[0];
      surrogate := "SK_" + tablename;
      var keyType := ColumnType(key);
      if keyType.Failure? {
        return Failure(keyType.error);
      }
      keyText := key + " " + keyType.value;
    } else {
      key := pk.value;
      surrogate := "SK_" + key;
      var keyType := ColumnType(key);
      if keyType.Failure? {
        return Failure(keyType.error);
      }
      keyText := key + " " + keyType.value + " NOT NULL";
    }
    ghost var keyDef := ColumnDef(key, ColumnType(key).value, pk.Some?);
    assert keyText == DefText(keyDef);
    var parts := AppendColumns(cols, key, skList, keyText);
    if parts.Failure? {
      return Failure(parts.error);
    }
    var (columns, shadowText) := parts.value;
    LoopResult(keyDef, TypedDefs(OtherColumns(cols, key)).value, ShadowDefs(ShadowSources(OtherColumns(cols, key), skList)));
    r := Success("CREATE TABLE " + tablename + " (" + surrogate + SystemColumnsTail + ", " + (columns + shadowText) + ")");
  }

  const AlreadyExists: string := "There is already an object named"

  /** The `try`/`except` around `execute`: no error, or an "already exists" error, counts as
      done; any other database error propagates. */
  function CreateOutcome(executeError: Option<string>): (r: Outcome)
    ensures r.Pass? <==> executeError.None? || Contains(executeError.value, AlreadyExists)
    ensures r.Fail? ==> r.error == DatabaseError(executeError.value)
  {
    match executeError
    case None => Pass
    case Some(m) => if Contains(m, AlreadyExists) then Pass else Fail(DatabaseError(m))
  }
}
