/** The merge and size-check scenarios of the repository's `test.py`, on concrete frames. */
module Scenarios {
  import opened Base
  import opened Seqs
  import opened Frames
  import opened Reconcile
  import ColumnSets

  /** The first input of both merge tests, with its `Column2` values as parameters. */
  function Left(x: string, y: string, z: string): Frame {
    Frame(["CODE", "Column1", "Column2"], [
      map["CODE" := Text("A"), "Column1" := Text("1"), "Column2" := Text(x)],
      map["CODE" := Text("B"), "Column1" := Text("2"), "Column2" := Text(y)],
      map["CODE" := Text("C"), "Column1" := Text("3"), "Column2" := Text(z)]])
  }

  /** The second input of both merge tests. */
  function Right(): Frame {
    Frame(["CODE", "Column2", "Column3"], [
      map["CODE" := Text("B"), "Column2" := Text("Y"), "Column3" := Text("True")],
      map["CODE" := Text("C"), "Column2" := Text("Z"), "Column3" := Text("False")],
      map["CODE" := Text("D"), "Column2" := Text("W"), "Column3" := Text("True")]])
  }

  lemma LeftWellFormed(x: string, y: string, z: string)
    ensures WellFormed(Left(x, y, z)) && UniqueKeys(Left(x, y, z).rows, "CODE")
  {
    var f := Left(x, y, z);
    assert f.columns[0] != f.columns[1] && f.columns[0] != f.columns[2] && f.columns[1] != f.columns[2] by {
      assert f.columns[0][1] != f.columns[1][1];
      assert f.columns[0][1] != f.columns[2][1];
      assert f.columns[1][6] != f.columns[2][6];
    }
    assert Elements(f.columns) == {"CODE", "Column1", "Column2"};
    assert f.rows[0]["CODE"] == Text("A") && f.rows[1]["CODE"] == Text("B") && f.rows[2]["CODE"] == Text("C");
    assert "A"[0] != "B"[0] && "A"[0] != "C"[0] && "B"[0] != "C"[0];
    ThreeUniqueKeys(f.rows, "CODE");
  }

  lemma RightWellFormed()
    ensures WellFormed(Right()) && UniqueKeys(Right().rows, "CODE")
  {
    var f := Right();
    assert f.columns[0] != f.columns[1] && f.columns[0] != f.columns[2] && f.columns[1] != f.columns[2] by {
      assert f.columns[0][1] != f.columns[1][1];
      assert f.columns[0][1] != f.columns[2][1];
      assert f.columns[1][6] != f.columns[2][6];
    }
    assert Elements(f.columns) == {"CODE", "Column2", "Column3"};
    assert f.rows[0]["CODE"] == Text("B") && f.rows[1]["CODE"] == Text("C") && f.rows[2]["CODE"] == Text("D");
    assert "B"[0] != "C"[0] && "B"[0] != "D"[0] && "C"[0] != "D"[0];
    ThreeUniqueKeys(f.rows, "CODE");
  }

  /** Three rows with pairwise different keys. */
  lemma ThreeUniqueKeys(rows: seq<Row>, key: string)
    requires |rows| == 3 && Keyed(rows, key)
    requires rows[0][key] != rows[1][key] && rows[0][key] != rows[2][key] && rows[1][key] != rows[2][key]
    ensures UniqueKeys(rows, key)
  {
  }

  lemma OnlyColumn2Shared(x: string, y: string, z: string, c: string)
    requires IsShared(Left(x, y, z), Right(), "CODE", c)
    ensures c == "Column2"
  {
  }

  /** `mergeConflictTest`: keys B and C carry different non-null `Column2` values, so the merge
      raises ValueError naming `Column2`. */
  lemma ConflictScenario()
    ensures WellFormed(Left("J", "K", "L")) && WellFormed(Right())
    ensures MergeTables(Left("J", "K", "L"), Right(), "CODE") == Failure(ValueError(ConflictMessage("Column2")))
  {
    var df1 := Left("J", "K", "L");
    var df2 := Right();
    LeftWellFormed("J", "K", "L");
    RightWellFormed();
    assert IsShared(df1, df2, "CODE", "Column2");
    assert df1.rows[1]["CODE"] == df2.rows[0]["CODE"] && Clash(df1.rows[1]["Column2"], df2.rows[0]["Column2"]);
    assert RowConflict(df1, df2, "CODE", "Column2");
    MergeFailsOnConflict(df1, df2, "CODE");
    var r := MergeTables(df1, df2, "CODE");
    var c :| IsShared(df1, df2, "CODE", c) && r.error == ValueError(ConflictMessage(c)) && RowConflict(df1, df2, "CODE", c);
    OnlyColumn2Shared("J", "K", "L", c);
  }

  /** `sizeCheckTest`: the three-column frame passes a check for 3 and fails one for 5. */
  lemma SizeCheckScenario()
    ensures ColumnSets.SizeCheck(Left("J", "K", "L"), 3) == Pass
    ensures ColumnSets.SizeCheck(Left("J", "K", "L"), 5).Fail?
    ensures ColumnSets.SizeCheck(Left("J", "K", "L"), 5).error.ValueError?
  {
  }
}
