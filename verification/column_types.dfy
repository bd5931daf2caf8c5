/** Deriving the SQL Server type of a column from the suffix of its name. */
module ColumnTypes {
  import opened Base
  import opened Strings

  /** The thirteen recognised suffixes and the type each stands for. */
  const TypeTable: map<string, string> := map[
    "name" := "NVARCHAR(80)",
    "image" := "NVARCHAR(60)",
    "id" := "INT",
    "description" := "NTEXT",
    "money" := "DECIMAL(19,4)",
    "percentage" := "DECIMAL(12,12)",
    "date" := "NVARCHAR(30)",
    "code" := "NVARCHAR(40)",
    "char" := "CHAR(1)",
    "number" := "INT",
    "phone" := "NVARCHAR(30)",
    "address" := "NVARCHAR(80)",
    "bool" := "BIT"
  ]

  const NoTypeMessage: string := "Column name doesn't contain a type"
  const UnknownTypeMessage: string := "Column type not found"

  /** `columnType`: the type named by the text after the last underscore. */
  function ColumnType(name: string): (r: Result<string>)
    ensures r == Failure(Exception(NoTypeMessage)) <==> '_' !in name
    ensures r.Failure? ==> r.error == Exception(NoTypeMessage) || r.error == Exception(UnknownTypeMessage)
  {
    match Suffix(name)
    case None => Failure(Exception(NoTypeMessage))
    case Some(t) => if t in TypeTable then Success(TypeTable[t]) else Failure(Exception(UnknownTypeMessage))
  }

  /** A name gets a type exactly when the text after its last underscore is a key of the table,
      and the type is that entry. */
  lemma ColumnTypeBySuffix(name: string)
    ensures ColumnType(name).Success? <==>
      exists i :: 0 <= i < |name| && name[i] == '_' && '_' !in name[i + 1..] && name[i + 1..] in TypeTable
    ensures ColumnType(name).Success? ==> ColumnType(name).value in TypeTable.Values
  {
    if '_' in name {
      var t := Suffix(name).value;
      SuffixSplit(name);
      var i := |name| - |t| - 1;
      assert name[i] == '_' && name[i + 1..] == t;
    }
  }

  /** The type depends on the suffix alone: two names ending in the same `_t` get the same
      answer, which is the table entry for `t` or "Column type not found". */
  lemma SameSuffixSameType(prefix1: string, prefix2: string, t: string)
    requires '_' !in t
    ensures ColumnType(prefix1 + "_" + t) == ColumnType(prefix2 + "_" + t)
    ensures ColumnType(prefix1 + "_" + t) ==
      (if t in TypeTable then Success(TypeTable[t]) else Failure(Exception(UnknownTypeMessage)))
  {
    SuffixOfJoined(prefix1, t);
    SuffixOfJoined(prefix2, t);
  }

  /** The lookup is case-sensitive: an upper-case `ID` suffix is not a type. */
  lemma UpperCaseIdIsUnknown(prefix: string)
    ensures ColumnType(prefix + "_ID") == Failure(Exception(UnknownTypeMessage))
  {
    assert prefix + "_ID" == prefix + "_" + "ID";
    SameSuffixSameType(prefix, prefix, "ID");
  }

  /** A trailing underscore leaves the empty suffix, which is not a type. */
  lemma EmptySuffixIsUnknown(prefix: string)
    ensures ColumnType(prefix + "_") == Failure(Exception(UnknownTypeMessage))
  {
    assert prefix + "_" == prefix + "_" + "";
    SameSuffixSameType(prefix, prefix, "");
  }

  /** An `image` column is a 60-character string, not an 80-character one like `name`. */
  lemma ImageIsSixtyCharacters(prefix: string)
    ensures ColumnType(prefix + "_image") == Success("NVARCHAR(60)")
  {
    assert prefix + "_image" == prefix + "_" + "image";
    SameSuffixSameType(prefix, prefix, "image");
  }
}
