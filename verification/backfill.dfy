/** `updateSurrogate` / `updateSurrogates`: filling the `SK_` placeholder columns from the
    foreign table's surrogate keys, modelled on whole-table state. */
module Backfill {
  import opened Base
  import opened Strings
  import opened Frames
  import opened Load

  datatype SqlValue = Null | Int(i: int) | Str(s: string)

  /** A stored row: its `Timestamp` and its other columns. */
  datatype Record = Record(timestamp: int, cells: map<string, SqlValue>)
  datatype DbTable = DbTable(columns: set<string>, records: seq<Record>)
  type Db = map<string, DbTable>

  /** One surrogate descriptor, resolved: fill `table.SK_column` from `foreignTable.SK_foreignColumn`
      by joining `table.column` to `foreignTable.foreignColumn`. */
  datatype Link = Link(table: string, foreignTable: string, column: string, foreignColumn: string)

  /** The result of a sequence of links: the state reached and the error that stopped it, if any. */
  datatype Run = Run(db: Db, error: Option<Error>)

  function Get(r: Record, c: string): SqlValue {
    if c in r.cells then r.cells[c] else Null
  }

  /** SQL `=`: a comparison with NULL is never true. */
  predicate SqlEqual(a: SqlValue, b: SqlValue) {
    a != Null && b != Null && a == b
  }

  /** The placeholder value the INSERT of a new row leaves pending. */
  const Pending := Int(0)

  function ShadowOf(c: string): string {
    "SK_" + c
  }

  /** How a VALUES literal is stored (column typing is not modelled: text stays text). SQL reads
      a quoted literal with each doubled quote collapsed. */
  function Stored(l: Literal): SqlValue {
    match l
    case NullLit => Null
    case ZeroLit => Pending
    case RawLit(t) => Str(t)
    case QuotedLit(b) => Str(Unescape(b))
  }

  /** A non-key cell whose text is not `None` is stored as exactly that text. */
  lemma StoredValueIsText(c: Cell)
    requires Render(c) != "None"
    ensures Stored(EncodeCell(c).0) == Str(Render(c))
  {
    UnescapeEscape(Render(c));
  }

  /** Record `q` comes before record `p` within `p`'s partition of `ROW_NUMBER() OVER (PARTITION BY
      sk ORDER BY Timestamp DESC)`; equal timestamps are ordered by table position. */
  predicate Precedes(recs: seq<Record>, q: nat, p: nat, sk: string)
    requires q < |recs| && p < |recs|
  {
    Get(recs[q], sk) == Get(recs[p], sk) &&
    (recs[q].timestamp > recs[p].timestamp || (recs[q].timestamp == recs[p].timestamp && q < p))
  }

  /** Record `p` gets `rn = 1`. */
  predicate RankFirst(recs: seq<Record>, p: nat, sk: string)
    requires p < |recs|
  {
    forall q :: 0 <= q < |recs| ==> !Precedes(recs, q, p, sk)
  }

  lemma PrecedesTransitive(recs: seq<Record>, a: nat, b: nat, c: nat, sk: string)
    requires a < |recs| && b < |recs| && c < |recs|
    requires Precedes(recs, a, b, sk) && Precedes(recs, b, c, sk)
    ensures Precedes(recs, a, c, sk)
  {
  }

  /** Replacing a candidate by a record that precedes it keeps the candidate's guarantees. */
  lemma NewLeader(recs: seq<Record>, p: nat, m: nat, c: nat, sk: string)
    requires p < |recs| && m < |recs| && c < |recs|
    requires c == p || Precedes(recs, c, p, sk)
    requires forall q :: 0 <= q < m ==> !Precedes(recs, q, c, sk)
    requires Precedes(recs, m, c, sk)
    ensures m == p || Precedes(recs, m, p, sk)
    ensures forall q :: 0 <= q <= m ==> !Precedes(recs, q, m, sk)
  {
    forall q | 0 <= q < m && Precedes(recs, q, m, sk)
      ensures false
    {
      PrecedesTransitive(recs, q, m, c, sk);
    }
    if c != p { PrecedesTransitive(recs, m, c, p, sk); }
  }

  /** The record of `p`'s partition that comes first among `p` and the first `n` records. */
  function Leader(recs: seq<Record>, p: nat, n: nat, sk: string): (r: nat)
    requires p < |recs| && n <= |recs|
    ensures r < |recs| && Get(recs[r], sk) == Get(recs[p], sk)
    ensures r == p || Precedes(recs, r, p, sk)
    ensures forall q :: 0 <= q < n ==> !Precedes(recs, q, r, sk)
  {
    if n == 0 then p
    else
      var c := Leader(recs, p, n - 1, sk);
      if Precedes(recs, n - 1, c, sk) then
        NewLeader(recs, p, n - 1, c, sk);
        n - 1
      else c
  }

  /** Every partition has a record ranked first: the latest one. */
  lemma {:induction false} PartitionHasLeader(recs: seq<Record>, p: nat, sk: string)
    requires p < |recs|
    ensures exists q :: 0 <= q < |recs| && RankFirst(recs, q, sk) && Get(recs[q], sk) == Get(recs[p], sk)
    ensures forall q :: 0 <= q < |recs| && RankFirst(recs, q, sk) && Get(recs[q], sk) == Get(recs[p], sk) ==>
      recs[p].timestamp <= recs[q].timestamp
  {
    var l := Leader(recs, p, |recs|, sk);
    assert RankFirst(recs, l, sk);
    forall q | 0 <= q < |recs| && RankFirst(recs, q, sk) && Get(recs[q], sk) == Get(recs[p], sk)
      ensures recs[p].timestamp <= recs[q].timestamp
    {
      assert !Precedes(recs, p, q, sk);
    }
  }

  /** Only one record of a partition is ranked first. */
  lemma LeaderUnique(recs: seq<Record>, p: nat, q: nat, sk: string)
    requires p < |recs| && q < |recs| && Get(recs[p], sk) == Get(recs[q], sk)
    requires RankFirst(recs, p, sk) && RankFirst(recs, q, sk)
    ensures p == q
  {
    assert !Precedes(recs, p, q, sk) && !Precedes(recs, q, p, sk);
  }

  /** When no two foreign records share a surrogate key value, every one is ranked first. */
  lemma DistinctKeysAllRankFirst(recs: seq<Record>, sk: string)
    requires forall p, q :: 0 <= p < q < |recs| ==> Get(recs[p], sk) != Get(recs[q], sk)
    ensures forall p :: 0 <= p < |recs| ==> RankFirst(recs, p, sk)
  {
    forall p, q | 0 <= p < |recs| && 0 <= q < |recs|
      ensures !Precedes(recs, q, p, sk)
    {
      if q < p { assert Get(recs[q], sk) != Get(recs[p], sk); }
      else if p < q { assert Get(recs[p], sk) != Get(recs[q], sk); }
    }
  }

  /** Foreign record `p` passes the join for a row whose business value is `v`. */
  predicate Joins(frecs: seq<Record>, p: nat, v: SqlValue, fc: string, fsk: string)
    requires p < |frecs|
  {
    RankFirst(frecs, p, fsk) && SqlEqual(v, Get(frecs[p], fc))
  }

  /** The first foreign record at or after `i` that passes the join (when several do, the model
      takes the first in table order). */
  function TargetFrom(v: SqlValue, frecs: seq<Record>, fc: string, fsk: string, i: nat): (r: Option<nat>)
    requires i <= |frecs|
    decreases |frecs| - i
    ensures r.Some? ==> i <= r.value < |frecs| && Joins(frecs, r.value, v, fc, fsk)
  {
    if i == |frecs| then None
    else if Joins(frecs, i, v, fc, fsk) then Some(i)
    else TargetFrom(v, frecs, fc, fsk, i + 1)
  }

  /** The search finds nothing exactly when no record from `i` on joins; otherwise it finds one
      that joins, with none before it. */
  lemma {:induction false} TargetFromFirstJoin(v: SqlValue, frecs: seq<Record>, fc: string, fsk: string, i: nat)
    requires i <= |frecs|
    decreases |frecs| - i
    ensures var r := TargetFrom(v, frecs, fc, fsk, i);
      && (r.None? <==> forall p :: i <= p < |frecs| ==> !Joins(frecs, p, v, fc, fsk))
      && (r.Some? ==> (i <= r.value < |frecs| && Joins(frecs, r.value, v, fc, fsk) &&
            forall q :: i <= q < r.value ==> !Joins(frecs, q, v, fc, fsk)))
  {
    if i < |frecs| && !Joins(frecs, i, v, fc, fsk) {
      TargetFromFirstJoin(v, frecs, fc, fsk, i + 1);
    }
  }

  function Target(v: SqlValue, frecs: seq<Record>, fc: string, fsk: string): Option<nat> {
    TargetFrom(v, frecs, fc, fsk, 0)
  }

  /** Identity surrogates are distinct, so the ranking filters nothing out: the target is the
      first foreign record whose business value equals the row's. */
  lemma DistinctKeysTarget(v: SqlValue, frecs: seq<Record>, fc: string, fsk: string)
    requires forall p, q :: 0 <= p < q < |frecs| ==> Get(frecs[p], fsk) != Get(frecs[q], fsk)
    ensures var t := Target(v, frecs, fc, fsk);
      && (t.None? <==> forall p :: 0 <= p < |frecs| ==> !SqlEqual(v, Get(frecs[p], fc)))
      && (t.Some? ==> (t.value < |frecs| && SqlEqual(v, Get(frecs[t.value], fc)) &&
            forall q :: 0 <= q < t.value ==> !SqlEqual(v, Get(frecs[q], fc))))
  {
    TargetFromFirstJoin(v, frecs, fc, fsk, 0);
    DistinctKeysAllRankFirst(frecs, fsk);
    assert forall p :: 0 <= p < |frecs| ==> (Joins(frecs, p, v, fc, fsk) <==> SqlEqual(v, Get(frecs[p], fc)));
  }

  /** One row of `table` under the UPDATE: only a pending row that joins changes, and then only in
      its `SK_` column, which takes the surrogate key of the first joining foreign record. */
  function UpdateRecord(r: Record, link: Link, frecs: seq<Record>): (u: Record)
    ensures u.timestamp == r.timestamp && u.cells.Keys == r.cells.Keys
    ensures forall c :: c in r.cells && c != ShadowOf(link.column) ==> u.cells[c] == r.cells[c]
    ensures Get(r, ShadowOf(link.column)) != Pending ==> u == r
    ensures (forall p :: 0 <= p < |frecs| ==> !Joins(frecs, p, Get(r, link.column), link.foreignColumn, ShadowOf(link.foreignColumn))) ==> u == r
    ensures Get(r, ShadowOf(link.column)) == Pending && u != r ==>
      exists p :: 0 <= p < |frecs| && Joins(frecs, p, Get(r, link.column), link.foreignColumn, ShadowOf(link.foreignColumn)) &&
        Get(u, ShadowOf(link.column)) == Get(frecs[p], ShadowOf(link.foreignColumn))
  {
    var sk := ShadowOf(link.column);
    TargetFromFirstJoin(Get(r, link.column), frecs, link.foreignColumn, ShadowOf(link.foreignColumn), 0);
    if Get(r, sk) != Pending then r
    else
      match Target(Get(r, link.column), frecs, link.foreignColumn, ShadowOf(link.foreignColumn))
      case None => r
      case Some(p) => Record(r.timestamp, r.cells[sk := Get(frecs[p], ShadowOf(link.foreignColumn))])
  }

  /** A pending row that some ranked-first foreign record joins takes the key of the first such
      record; a pending row nothing joins stays pending. */
  lemma UpdateRecordResolves(r: Record, link: Link, frecs: seq<Record>)
    requires Get(r, ShadowOf(link.column)) == Pending
    ensures var t := Target(Get(r, link.column), frecs, link.foreignColumn, ShadowOf(link.foreignColumn));
      && (t.None? ==> Get(UpdateRecord(r, link, frecs), ShadowOf(link.column)) == Pending)
      && (t.Some? ==> Get(UpdateRecord(r, link, frecs), ShadowOf(link.column)) == Get(frecs[t.value], ShadowOf(link.foreignColumn)))
  {
  }

  /** Running the same UPDATE row twice against the same foreign records changes nothing more. */
  lemma UpdateRecordIdempotent(r: Record, link: Link, frecs: seq<Record>)
    ensures UpdateRecord(UpdateRecord(r, link, frecs), link, frecs) == UpdateRecord(r, link, frecs)
  {
    var sk := ShadowOf(link.column);
    var u := UpdateRecord(r, link, frecs);
    if Get(r, sk) == Pending && u != r {
      assert |sk| != |link.column|;
      assert Get(u, link.column) == Get(r, link.column);
    }
  }

  /** The columns the UPDATE names, table by table, in the order they are looked up. */
  function RequiredColumns(link: Link): seq<(string, string)> {
    [(link.table, ShadowOf(link.column)), (link.table, link.column),
     (link.foreignTable, ShadowOf(link.foreignColumn)), (link.foreignTable, link.foreignColumn),
     (link.foreignTable, "Timestamp")]
  }

  function InvalidObject(name: string): Error {
    DatabaseError("Invalid object name '" + name + "'.")
  }

  function InvalidColumn(name: string): Error {
    DatabaseError("Invalid column name '" + name + "'.")
  }

  /** The first required column its table lacks. */
  function MissingColumn(db: Db, req: seq<(string, string)>): (r: Option<string>)
    requires forall k :: 0 <= k < |req| ==> req[k].0 in db
    ensures r.None? <==> forall k :: 0 <= k < |req| ==> req[k].1 in db[req[k].0].columns
    ensures r.Some? ==> exists k :: 0 <= k < |req| && r.value == req[k].1 && r.value !in db[req[k].0].columns
  {
    if |req| == 0 then None
    else if req[0].1 !in db[req[0].0].columns then Some(req[0].1)
    else
      var rest := MissingColumn(db, req[1..]);
      assert forall k :: 1 <= k < |req| ==> req[k] == req[1..][k - 1];
      rest
  }

  /** One `updateSurrogate` statement. The foreign table is read as it stood before the statement
      (also when it is `table` itself); only `table` changes. */
  function ApplyLink(db: Db, link: Link): (r: Result<Db>)
    ensures r.Failure? <==> (link.table !in db || link.foreignTable !in db ||
      exists k :: 0 <= k < |RequiredColumns(link)| && RequiredColumns(link)[k].1 !in db[RequiredColumns(link)[k].0].columns)
    ensures r.Failure? ==> r.error.DatabaseError?
    ensures r.Success? ==> r.value.Keys == db.Keys && link.table in db && link.foreignTable in db
    ensures r.Success? ==> forall n :: n in db && n != link.table ==> r.value[n] == db[n]
    ensures r.Success? ==>
      var before := db[link.table];
      var after := r.value[link.table];
      && after.columns == before.columns && |after.records| == |before.records|
      && forall i :: 0 <= i < |before.records| ==>
           after.records[i] == UpdateRecord(before.records[i], link, db[link.foreignTable].records)
  {
    if link.table !in db then Failure(InvalidObject(link.table))
    else if link.foreignTable !in db then Failure(InvalidObject(link.foreignTable))
    else
      match MissingColumn(db, RequiredColumns(link))
      case Some(c) => Failure(InvalidColumn(c))
      case None =>
        var t := db[link.table];
        var frecs := db[link.foreignTable].records;
        var recs := seq(|t.records|, i requires 0 <= i < |t.records| => UpdateRecord(t.records[i], link, frecs));
        Success(db[link.table := DbTable(t.columns, recs)])
  }

  /** Two versions of the foreign records that agree on everything the join reads. */
  predicate SameView(a: seq<Record>, b: seq<Record>, fc: string, fsk: string) {
    |a| == |b| &&
    forall i :: 0 <= i < |a| ==>
      a[i].timestamp == b[i].timestamp && Get(a[i], fc) == Get(b[i], fc) && Get(a[i], fsk) == Get(b[i], fsk)
  }

  lemma JoinsSameView(v: SqlValue, a: seq<Record>, b: seq<Record>, fc: string, fsk: string, p: nat)
    requires SameView(a, b, fc, fsk) && p < |a|
    ensures Joins(a, p, v, fc, fsk) == Joins(b, p, v, fc, fsk)
  {
    forall q | 0 <= q < |a|
      ensures Precedes(a, q, p, fsk) == Precedes(b, q, p, fsk)
    {
      assert a[q].timestamp == b[q].timestamp && Get(a[q], fsk) == Get(b[q], fsk);
    }
    assert RankFirst(a, p, fsk) == RankFirst(b, p, fsk);
  }

  lemma {:induction false} TargetSameView(v: SqlValue, a: seq<Record>, b: seq<Record>, fc: string, fsk: string, i: nat)
    requires SameView(a, b, fc, fsk) && i <= |a|
    decreases |a| - i
    ensures TargetFrom(v, a, fc, fsk, i) == TargetFrom(v, b, fc, fsk, i)
  {
    if i < |a| {
      JoinsSameView(v, a, b, fc, fsk, i);
      TargetSameView(v, a, b, fc, fsk, i + 1);
    }
  }

  /** The statement writes none of the foreign columns it reads: the foreign table is another
      table, or the filled shadow is neither the joined nor the ranking column. */
  predicate ReadsUntouched(link: Link) {
    link.table != link.foreignTable ||
    (ShadowOf(link.column) != link.foreignColumn && ShadowOf(link.column) != ShadowOf(link.foreignColumn))
  }

  /** When it writes none of the columns it reads, running the same statement again changes
      nothing. */
  lemma ApplyLinkIdempotent(db: Db, link: Link)
    requires ReadsUntouched(link)
    requires ApplyLink(db, link).Success?
    ensures ApplyLink(ApplyLink(db, link).value, link) == ApplyLink(db, link)
  {
    var db1 := ApplyLink(db, link).value;
    var fc := link.foreignColumn;
    var fsk := ShadowOf(link.foreignColumn);
    var frecs := db[link.foreignTable].records;
    var frecs1 := db1[link.foreignTable].records;
    assert SameView(frecs, frecs1, fc, fsk);
    var db2 := ApplyLink(db1, link).value;
    var before := db1[link.table].records;
    forall i | 0 <= i < |before|
      ensures db2[link.table].records[i] == before[i]
    {
      var r := db[link.table].records[i];
      TargetSameView(Get(r, link.column), frecs, frecs1, fc, fsk, 0);
      TargetSameView(Get(before[i], link.column), frecs, frecs1, fc, fsk, 0);
      UpdateRecordIdempotent(r, link, frecs);
    }
    assert db2[link.table].records == before;
    assert db2 == db1;
  }

  /** A row inserted with a `None` cell has a NULL placeholder and a NULL business value, so no
      statement ever fills it. */
  lemma NullCellNeverLinked(c: Cell, r: Record, link: Link, frecs: seq<Record>)
    requires Render(c) == "None"
    requires Get(r, ShadowOf(link.column)) == Stored(EncodeCell(c).1)
    ensures Stored(EncodeCell(c).1) == Null && Stored(EncodeCell(c).0) == Null
    ensures UpdateRecord(r, link, frecs) == r
  {
  }

  /** A descriptor dictionary: `table` and `column` must be present; the foreign names default to
      them. */
  function ResolveDescriptor(d: map<string, string>): (r: Result<Link>)
    ensures r.Failure? <==> "table" !in d || "column" !in d
    ensures r.Failure? ==> r.error == KeyError(if "table" !in d then "table" else "column")
    ensures r.Success? ==> r.value.table == d["table"] && r.value.column == d["column"]
    ensures r.Success? ==> r.value.foreignTable == (if "foreign_table" in d then d["foreign_table"] else d["table"])
    ensures r.Success? ==> r.value.foreignColumn == (if "foreign_column" in d then d["foreign_column"] else d["column"])
  {
    if "table" !in d then Failure(KeyError("table"))
    else if "column" !in d then Failure(KeyError("column"))
    else
      var t := d["table"];
      var c := d["column"];
      var ft := if "foreign_table" in d then d["foreign_table"] else t;
      var fc := if "foreign_column" in d then d["foreign_column"] else c;
      Success(Link(t, ft, c, fc))
  }

  /** Leaving out the foreign names is the same as naming the table and column again. */
  lemma DefaultsAreExplicit(t: string, c: string)
    ensures ResolveDescriptor(map["table" := t, "column" := c]) ==
      ResolveDescriptor(map["table" := t, "column" := c, "foreign_table" := t, "foreign_column" := c])
  {
  }

  /** The tables a descriptor can update. */
  predicate MayUpdate(d: map<string, string>, n: string) {
    "table" in d && d["table"] == n
  }

  /** `updateSurrogates`: each descriptor in order; the first exception stops the loop, and the
      statements already committed stay. */
  function UpdateSurrogates(descs: seq<map<string, string>>, db: Db): (r: Run)
    decreases |descs|
    ensures r.db.Keys == db.Keys
    ensures r.error.Some? ==> r.error.value.KeyError? || r.error.value.DatabaseError?
  {
    if |descs| == 0 then Run(db, None)
    else
      match ResolveDescriptor(descs[0])
      case Failure(e) => Run(db, Some(e))
      case Success(link) =>
        match ApplyLink(db, link)
        case Failure(e) => Run(db, Some(e))
        case Success(db1) =>
          UpdateSurrogates(descs[1..], db1)
  }

  /** A table no descriptor names keeps its contents. */
  lemma {:induction false} UpdateSurrogatesFrame(descs: seq<map<string, string>>, db: Db, n: string)
    requires n in db && forall k :: 0 <= k < |descs| ==> !MayUpdate(descs[k], n)
    decreases |descs|
    ensures UpdateSurrogates(descs, db).db[n] == db[n]
  {
    if |descs| > 0 {
      match ResolveDescriptor(descs[0])
      case Failure(_) =>
      case Success(link) =>
        match ApplyLink(db, link)
        case Failure(_) =>
        case Success(db1) =>
          assert !MayUpdate(descs[0], n);
          assert forall k :: 0 <= k < |descs[1..]| ==> descs[1..][k] == descs[k + 1];
          UpdateSurrogatesFrame(descs[1..], db1, n);
    }
  }

  /** A run that ends without an exception resolved every descriptor. */
  lemma {:induction false} UpdateSurrogatesResolved(descs: seq<map<string, string>>, db: Db)
    requires UpdateSurrogates(descs, db).error.None?
    decreases |descs|
    ensures forall k :: 0 <= k < |descs| ==> ResolveDescriptor(descs[k]).Success?
  {
    if |descs| > 0 {
      match ResolveDescriptor(descs[0])
      case Success(link) =>
        match ApplyLink(db, link)
        case Success(db1) =>
          UpdateSurrogatesResolved(descs[1..], db1);
          forall k | 1 <= k < |descs|
            ensures ResolveDescriptor(descs[k]).Success?
          {
            assert descs[k] == descs[1..][k - 1];
          }
    }
  }

  /** Running two descriptor lists one after the other is running their concatenation, unless
      the first stops with an error. */
  lemma {:induction false} UpdateSurrogatesConcat(a: seq<map<string, string>>, b: seq<map<string, string>>, db: Db)
    ensures UpdateSurrogates(a + b, db) ==
      (var ra := UpdateSurrogates(a, db); if ra.error.Some? then ra else UpdateSurrogates(b, ra.db))
  {
    if |a| == 0 {
      assert a + b == b;
    } else {
      assert (a + b)[0] == a[0] && (a + b)[1..] == a[1..] + b;
      match ResolveDescriptor(a[0])
      case Failure(_) =>
      case Success(link) =>
        match ApplyLink(db, link)
        case Failure(_) =>
        case Success(db1) =>
          UpdateSurrogatesConcat(a[1..], b, db1);
    }
  }

  /** The one column a statement writes: `SK_<column>` of its table. */
  function Writes(link: Link): (string, string) {
    (link.table, ShadowOf(link.column))
  }

  /** The columns a statement's join reads: the table's business column and the foreign
      business and `SK_` columns. */
  function Reads(link: Link): set<(string, string)> {
    {(link.table, link.column), (link.foreignTable, link.foreignColumn), (link.foreignTable, ShadowOf(link.foreignColumn))}
  }

  /** Statement `a` writes nothing statement `b` reads. */
  predicate Unread(a: Link, b: Link) {
    Writes(a) !in Reads(b)
  }

  /** Descriptor `d` writes nothing descriptor `e` reads (when both resolve). */
  predicate DescriptorUnread(d: map<string, string>, e: map<string, string>) {
    ResolveDescriptor(d).Success? && ResolveDescriptor(e).Success? ==>
      Unread(ResolveDescriptor(d).value, ResolveDescriptor(e).value)
  }

  /** No descriptor of the list writes a column that any of them reads. */
  predicate Independent(descs: seq<map<string, string>>) {
    forall k, l :: 0 <= k < |descs| && 0 <= l < |descs| ==> DescriptorUnread(descs[k], descs[l])
  }

  /** Running the statement on `db` succeeds and changes nothing. */
  predicate Settled(db: Db, link: Link) {
    ApplyLink(db, link) == Success(db)
  }

  /** The statement leaves every cell it does not write as it was. */
  lemma GetOutsideWrite(r: Record, a: Link, frecs: seq<Record>, c: string)
    requires c != ShadowOf(a.column)
    ensures Get(UpdateRecord(r, a, frecs), c) == Get(r, c)
  {
  }

  /** Foreign records with the same view give every row the same update. */
  lemma UpdateRecordSameView(x: Record, l: Link, f: seq<Record>, g: seq<Record>)
    requires SameView(f, g, l.foreignColumn, ShadowOf(l.foreignColumn))
    ensures UpdateRecord(x, l, f) == UpdateRecord(x, l, g)
  {
    TargetSameView(Get(x, l.column), f, g, l.foreignColumn, ShadowOf(l.foreignColumn), 0);
  }

  /** A row the statement leaves alone is still left alone after a change that keeps its
      business value and either keeps its `SK_` cell or fills it. */
  lemma UpdateRecordStaysFixed(r: Record, r1: Record, l: Link, f: seq<Record>)
    requires UpdateRecord(r, l, f) == r
    requires Get(r1, l.column) == Get(r, l.column)
    requires Get(r1, ShadowOf(l.column)) == Get(r, ShadowOf(l.column)) || Get(r1, ShadowOf(l.column)) != Pending
    ensures UpdateRecord(r1, l, f) == r1
  {
    var sk := ShadowOf(l.column);
    if Get(r1, sk) == Pending {
      match Target(Get(r, l.column), f, l.foreignColumn, ShadowOf(l.foreignColumn))
      case None =>
      case Some(p) =>
        var w := Get(f[p], ShadowOf(l.foreignColumn));
        assert r.cells[sk := w][sk] == r.cells[sk];
        assert r1.cells[sk := w] == r1.cells;
    }
  }

  /** A statement on a table other than the foreign one leaves the foreign view alone; on the
      foreign table itself, it does too when it writes neither column the view holds. */
  lemma ViewAfterApply(db: Db, a: Link, l: Link)
    requires ApplyLink(db, a).Success? && l.foreignTable in db && Unread(a, l)
    ensures l.foreignTable in ApplyLink(db, a).value
    ensures SameView(db[l.foreignTable].records, ApplyLink(db, a).value[l.foreignTable].records,
                     l.foreignColumn, ShadowOf(l.foreignColumn))
  {
    var db1 := ApplyLink(db, a).value;
    if l.foreignTable == a.table {
      var f := db[l.foreignTable].records;
      var fa := db[a.foreignTable].records;
      forall i | 0 <= i < |f|
        ensures f[i].timestamp == db1[l.foreignTable].records[i].timestamp
        ensures Get(f[i], l.foreignColumn) == Get(db1[l.foreignTable].records[i], l.foreignColumn)
        ensures Get(f[i], ShadowOf(l.foreignColumn)) == Get(db1[l.foreignTable].records[i], ShadowOf(l.foreignColumn))
      {
        GetOutsideWrite(f[i], a, fa, l.foreignColumn);
        GetOutsideWrite(f[i], a, fa, ShadowOf(l.foreignColumn));
      }
    }
  }

  /** One row of `l`'s table after statement `a`: still left alone by `l`. */
  lemma RowStaysSettled(db: Db, a: Link, l: Link, i: nat)
    requires ApplyLink(db, a).Success? && Settled(db, l) && Unread(a, l)
    requires i < |db[l.table].records|
    ensures l.table in ApplyLink(db, a).value && i < |ApplyLink(db, a).value[l.table].records|
    ensures var r1 := ApplyLink(db, a).value[l.table].records[i];
      UpdateRecord(r1, l, ApplyLink(db, a).value[l.foreignTable].records) == r1
  {
    var db1 := ApplyLink(db, a).value;
    var r := db[l.table].records[i];
    var f := db[l.foreignTable].records;
    var r1 := db1[l.table].records[i];
    assert UpdateRecord(r, l, f) == r;
    if l.table == a.table {
      var sk := ShadowOf(l.column);
      GetOutsideWrite(r, a, db[a.foreignTable].records, l.column);
      if sk != ShadowOf(a.column) {
        GetOutsideWrite(r, a, db[a.foreignTable].records, sk);
      }
    }
    UpdateRecordStaysFixed(r, r1, l, f);
    ViewAfterApply(db, a, l);
    UpdateRecordSameView(r1, l, f, db1[l.foreignTable].records);
  }

  /** A statement that writes nothing `l` reads keeps `l` settled. */
  lemma SettledAfterApply(db: Db, a: Link, l: Link)
    requires ApplyLink(db, a).Success? && Settled(db, l) && Unread(a, l)
    ensures Settled(ApplyLink(db, a).value, l)
  {
    var db1 := ApplyLink(db, a).value;
    assert forall n :: n in db ==> db1[n].columns == db[n].columns;
    var out := ApplyLink(db1, l).value;
    var t1 := db1[l.table];
    forall i | 0 <= i < |t1.records|
      ensures out[l.table].records[i] == t1.records[i]
    {
      RowStaysSettled(db, a, l, i);
    }
    assert out[l.table].records == t1.records;
    assert out[l.table] == t1;
    assert out == db1;
  }

  /** Every statement is settled once the whole list has run: the ones already run stay settled
      and each new one settles its own table. */
  lemma {:induction false} SettledAfterRun(all: seq<map<string, string>>, i: nat, db: Db)
    requires i <= |all| && Independent(all)
    requires UpdateSurrogates(all[i..], db).error.None?
    requires forall k :: 0 <= k < i ==> ResolveDescriptor(all[k]).Success? && Settled(db, ResolveDescriptor(all[k]).value)
    decreases |all| - i
    ensures forall k :: 0 <= k < |all| ==>
      ResolveDescriptor(all[k]).Success? && Settled(UpdateSurrogates(all[i..], db).db, ResolveDescriptor(all[k]).value)
  {
    if i < |all| {
      assert all[i..][0] == all[i] && all[i..][1..] == all[i + 1..];
      var link := ResolveDescriptor(all[i]).value;
      var db1 := ApplyLink(db, link).value;
      assert DescriptorUnread(all[i], all[i]);
      ApplyLinkIdempotent(db, link);
      forall k | 0 <= k < i
        ensures Settled(db1, ResolveDescriptor(all[k]).value)
      {
        assert DescriptorUnread(all[i], all[k]);
        SettledAfterApply(db, link, ResolveDescriptor(all[k]).value);
      }
      SettledAfterRun(all, i + 1, db1);
    }
  }

  /** A list of settled statements runs without error and changes nothing. */
  lemma {:induction false} RunSettled(descs: seq<map<string, string>>, db: Db)
    requires forall k :: 0 <= k < |descs| ==>
      ResolveDescriptor(descs[k]).Success? && Settled(db, ResolveDescriptor(descs[k]).value)
    decreases |descs|
    ensures UpdateSurrogates(descs, db) == Run(db, None)
  {
    if |descs| > 0 {
      assert forall k :: 0 <= k < |descs[1..]| ==> descs[1..][k] == descs[k + 1];
      RunSettled(descs[1..], db);
    }
  }

  /** When no descriptor writes a column any descriptor reads, a second run of a successful
      backfill succeeds and changes nothing. */
  lemma UpdateSurrogatesIdempotent(descs: seq<map<string, string>>, db: Db)
    requires Independent(descs)
    requires UpdateSurrogates(descs, db).error.None?
    ensures var first := UpdateSurrogates(descs, db).db;
      UpdateSurrogates(descs, first) == Run(first, None)
  {
    assert descs[0..] == descs;
    SettledAfterRun(descs, 0, db);
    RunSettled(descs, UpdateSurrogates(descs, db).db);
  }
}
