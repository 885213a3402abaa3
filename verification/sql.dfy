/** The slice of SQLite the schema relies on: integer column affinity, and tables whose
    `INTEGER PRIMARY KEY AUTOINCREMENT` ids are assigned, looked up, updated and deleted. */
module Sql {
  import opened Common
  import opened Text

  /** What an INTEGER-affinity column holds: text that reads as an integer is stored as an
      integer, any other text is kept as text (and never equals an integer). */
  datatype Value = Int(i: int) | Txt(s: string)

  /** Storing form text into an INTEGER column, or comparing it with `id = ?`. */
  function IntegerAffinity(s: string): (v: Value)
    ensures v.Int? <==> IsDigits(s)
    ensures v.Txt? ==> v.s == s
    ensures v.Int? ==> v.i >= 0
  {
    if IsDigits(s) then Int(DigitsValue(s)) else Txt(s)
  }

  /** Ids written by a page (`value="{{ c.id }}"`) come back as the same integer. */
  lemma AffinityOfDecimal(n: nat)
    ensures IntegerAffinity(DecimalString(n)) == Int(n)
  {
    DecimalRoundTrip(n);
  }

  /** Text that is stored as an integer reads back as the same text when it has no leading zero. */
  lemma AffinityRoundTrip(s: string)
    requires IntegerAffinity(s).Int?
    requires |s| == 1 || s[0] != '0'
    ensures DecimalString(IntegerAffinity(s).i) == s
  {
    CanonicalDigitsRoundTrip(s);
  }

  datatype Row<T> = Row(id: int, data: T)

  /** A table in rowid order, with `lastId` the table's `sqlite_sequence` entry: the largest id it ever held. */
  datatype Table<T> = Table(rows: seq<Row<T>>, lastId: int)

  function EmptyTable<T>(): Table<T>
  {
    Table([], 0)
  }

  /** Ids strictly increase along the rows: they are unique and in scan order. */
  predicate Increasing<T>(rows: seq<Row<T>>)
  {
    forall i, j :: 0 <= i < j < |rows| ==> rows[i].id < rows[j].id
  }

  predicate WellFormed<T>(t: Table<T>)
  {
    && 0 <= t.lastId
    && Increasing(t.rows)
    && (forall i :: 0 <= i < |t.rows| ==> t.rows[i].id <= t.lastId)
  }

  predicate HasId<T>(rows: seq<Row<T>>, id: int)
  {
    exists i :: 0 <= i < |rows| && rows[i].id == id
  }

  /** `SELECT ... WHERE id = ?` on the primary key. */
  function Find<T>(rows: seq<Row<T>>, id: int): (r: Option<T>)
    ensures r.Some? <==> HasId(rows, id)
    ensures r.Some? ==> Row(id, r.value) in rows
    ensures Increasing(rows) ==> forall i :: 0 <= i < |rows| && rows[i].id == id ==> r == Some(rows[i].data)
  {
    if |rows| == 0 then None
    else if rows[0].id == id then Some(rows[0].data)
    else
      var r := Find(rows[1..], id);
      assert forall i :: 1 <= i < |rows| ==> rows[i] == rows[1..][i - 1];
      r
  }

  function MaxId<T>(rows: seq<Row<T>>, floor: int): (m: int)
    ensures m >= floor
    ensures forall i :: 0 <= i < |rows| ==> rows[i].id <= m
  {
    if |rows| == 0 then floor
    else
      var m := MaxId(rows[1..], floor);
      assert forall i :: 1 <= i < |rows| ==> rows[i] == rows[1..][i - 1];
      if rows[0].id > m then rows[0].id else m
  }

  /** AUTOINCREMENT: one more than the largest id the table holds or ever held. */
  function NextId<T>(t: Table<T>): (id: int)
    ensures id > t.lastId
    ensures forall i :: 0 <= i < |t.rows| ==> t.rows[i].id < id
  {
    MaxId(t.rows, t.lastId) + 1
  }

  /** In a well-formed table the fresh id is the `sqlite_sequence` value plus one. */
  lemma NextIdOfWellFormed<T>(t: Table<T>)
    requires WellFormed(t)
    ensures NextId(t) == t.lastId + 1
  {
    MaxIdBound(t.rows, t.lastId);
  }

  lemma {:induction false} MaxIdBound<T>(rows: seq<Row<T>>, floor: int)
    requires forall i :: 0 <= i < |rows| ==> rows[i].id <= floor
    ensures MaxId(rows, floor) == floor
  {
    if |rows| > 0 {
      MaxIdBound(rows[1..], floor);
    }
  }

  /** `INSERT INTO t (...) VALUES (...)` without an id: appended under a fresh id. */
  function Insert<T>(t: Table<T>, d: T): (r: Table<T>)
    ensures |r.rows| == |t.rows| + 1 && r.rows[..|t.rows|] == t.rows
    ensures r.rows[|t.rows|].data == d && !HasId(t.rows, r.rows[|t.rows|].id)
    ensures r.lastId == r.rows[|t.rows|].id > t.lastId
    ensures WellFormed(t) ==> WellFormed(r)
  {
    var id := NextId(t);
    Table(t.rows + [Row(id, d)], id)
  }

  /** The rows with `row` placed before the first row of larger id. */
  function InsertSorted<T(!new)>(rows: seq<Row<T>>, row: Row<T>): (r: seq<Row<T>>)
    ensures |r| == |rows| + 1
    ensures forall x :: x in r <==> x in rows || x == row
    ensures Increasing(rows) && !HasId(rows, row.id) ==> Increasing(r)
  {
    if |rows| == 0 || row.id < rows[0].id then
      [row] + rows
    else
      var tail := InsertSorted(rows[1..], row);
      assert forall x :: x in rows <==> x == rows[0] || x in rows[1..];
      TailAbove(rows);
      NoIdTail(rows, row.id);
      ConsIncreasing(rows[0], tail);
      [rows[0]] + tail
  }

  lemma ConsIncreasing<T>(x: Row<T>, tail: seq<Row<T>>)
    ensures Increasing(tail) && (forall y :: y in tail ==> x.id < y.id) ==> Increasing([x] + tail)
  {
    if Increasing(tail) && (forall y :: y in tail ==> x.id < y.id) {
      forall i, j | 0 <= i < j < |[x] + tail|
        ensures ([x] + tail)[i].id < ([x] + tail)[j].id
      {
        assert ([x] + tail)[j] == tail[j - 1];
        if i > 0 {
          assert ([x] + tail)[i] == tail[i - 1];
        } else {
          assert tail[j - 1] in tail;
        }
      }
    }
  }

  lemma TailAbove<T>(rows: seq<Row<T>>)
    requires |rows| > 0
    ensures Increasing(rows) ==> Increasing(rows[1..]) && forall y :: y in rows[1..] ==> rows[0].id < y.id
  {
    if Increasing(rows) {
      forall y | y in rows[1..]
        ensures rows[0].id < y.id
      {
        var j :| 0 <= j < |rows[1..]| && rows[1..][j] == y;
        assert rows[j + 1] == y;
      }
    }
  }

  lemma NoIdTail<T>(rows: seq<Row<T>>, id: int)
    requires |rows| > 0
    ensures !HasId(rows, id) ==> rows[0].id != id && !HasId(rows[1..], id)
  {
    if HasId(rows[1..], id) {
      var i :| 0 <= i < |rows[1..]| && rows[1..][i].id == id;
      assert rows[i + 1].id == id;
    }
  }

  /** `INSERT OR IGNORE INTO t (id, ...)`: nothing happens when the id is taken. */
  function InsertOrIgnore<T(!new)>(t: Table<T>, id: int, d: T): (r: Table<T>)
    ensures HasId(t.rows, id) ==> r == t
    ensures !HasId(t.rows, id) ==> Row(id, d) in r.rows && |r.rows| == |t.rows| + 1
    ensures forall x :: x in t.rows ==> x in r.rows
    ensures forall x :: x in r.rows ==> x in t.rows || x == Row(id, d)
    ensures HasId(r.rows, id)
    ensures forall k :: HasId(t.rows, k) ==> HasId(r.rows, k)
    ensures WellFormed(t) ==> WellFormed(r)
  {
    if HasId(t.rows, id) then t
    else
      var r := Table(InsertSorted(t.rows, Row(id, d)), if id > t.lastId then id else t.lastId);
      BoundedRows(t.rows, r.rows, Row(id, d), r.lastId);
      KeepsIds(t.rows, r.rows);
      assert r.rows[0].id == id || HasId(r.rows, id) by {
        assert Row(id, d) in r.rows;
      }
      r
  }

  /** The row a `WHERE id = ?` with this key selects. */
  predicate KeyMatches<T>(row: Row<T>, key: Value)
  {
    key == Int(row.id)
  }

  /** `UPDATE t SET ... WHERE id = ?`: every selected row takes the new data, no row moves. */
  function Update<T>(t: Table<T>, key: Value, d: T): (r: Table<T>)
    ensures |r.rows| == |t.rows| && r.lastId == t.lastId
    ensures forall i :: 0 <= i < |t.rows| ==> r.rows[i].id == t.rows[i].id
    ensures forall i :: 0 <= i < |t.rows| && KeyMatches(t.rows[i], key) ==> r.rows[i].data == d
    ensures forall i :: 0 <= i < |t.rows| && !KeyMatches(t.rows[i], key) ==> r.rows[i] == t.rows[i]
    ensures WellFormed(t) ==> WellFormed(r)
  {
    Table(seq(|t.rows|, i requires 0 <= i < |t.rows| =>
            if KeyMatches(t.rows[i], key) then Row(t.rows[i].id, d) else t.rows[i]),
          t.lastId)
  }

  function DeleteRows<T(!new)>(rows: seq<Row<T>>, key: Value): (r: seq<Row<T>>)
    ensures |r| <= |rows|
  {
    if |rows| == 0 then []
    else
      var tail := DeleteRows(rows[1..], key);
      if KeyMatches(rows[0], key) then tail else [rows[0]] + tail
  }

  /** The rows that survive a delete are exactly the unselected ones, still in increasing id order. */
  lemma {:induction false} DeleteRowsSpec<T(!new)>(rows: seq<Row<T>>, key: Value)
    ensures forall x :: x in DeleteRows(rows, key) <==> x in rows && !KeyMatches(x, key)
    ensures Increasing(rows) ==> Increasing(DeleteRows(rows, key))
  {
    if |rows| > 0 {
      var tail := DeleteRows(rows[1..], key);
      DeleteRowsSpec(rows[1..], key);
      assert forall x :: x in rows <==> x == rows[0] || x in rows[1..];
      if !KeyMatches(rows[0], key) {
        TailAbove(rows);
        ConsIncreasing(rows[0], tail);
      }
    }
  }

  /** `DELETE FROM t WHERE id = ?`: the selected rows go, the others stay in order. */
  function Delete<T(!new)>(t: Table<T>, key: Value): (r: Table<T>)
    ensures r.lastId == t.lastId
    ensures forall x :: x in r.rows <==> x in t.rows && !KeyMatches(x, key)
    ensures WellFormed(t) ==> WellFormed(r)
  {
    var r := Table(DeleteRows(t.rows, key), t.lastId);
    DeleteRowsSpec(t.rows, key);
    BoundedSubset(t.rows, r.rows, t.lastId);
    r
  }

  /** Deleting a key no row has changes nothing. */
  lemma {:induction false} DeleteAbsent<T(!new)>(rows: seq<Row<T>>, key: Value)
    requires forall i :: 0 <= i < |rows| ==> !KeyMatches(rows[i], key)
    ensures DeleteRows(rows, key) == rows
  {
    if |rows| > 0 {
      DeleteAbsent(rows[1..], key);
    }
  }

  lemma {:induction false} DeleteConcat<T(!new)>(a: seq<Row<T>>, b: seq<Row<T>>, key: Value)
    ensures DeleteRows(a + b, key) == DeleteRows(a, key) + DeleteRows(b, key)
  {
    if |a| > 0 {
      var h, t := a[0], a[1..];
      DeleteConcat(t, b, key);
      assert a + b == [h] + (t + b);
      assert a == [h] + t;
      DeleteCons(h, t + b, key);
      DeleteCons(h, t, key);
      if !KeyMatches(h, key) {
        var dt, db := DeleteRows(t, key), DeleteRows(b, key);
        assert [h] + (dt + db) == ([h] + dt) + db;
      }
    } else {
      assert a + b == b;
    }
  }

  /** Deleting from a list with a known first row decides that row and moves on. */
  lemma DeleteCons<T(!new)>(h: Row<T>, t: seq<Row<T>>, key: Value)
    ensures KeyMatches(h, key) ==> DeleteRows([h] + t, key) == DeleteRows(t, key)
    ensures !KeyMatches(h, key) ==> DeleteRows([h] + t, key) == [h] + DeleteRows(t, key)
  {
    assert ([h] + t)[1..] == t;
  }

  lemma SplitAt<X>(s: seq<X>, k: nat)
    requires k < |s|
    ensures s == s[..k] + ([s[k]] + s[k + 1..])
  {
  }

  /** In a well-formed table deleting an existing id removes exactly that one row. */
  lemma DeleteOne<T(!new)>(rows: seq<Row<T>>, k: nat)
    requires Increasing(rows) && k < |rows|
    ensures DeleteRows(rows, Int(rows[k].id)) == rows[..k] + rows[k + 1..]
  {
    var key := Int(rows[k].id);
    var before, after := rows[..k], rows[k + 1..];
    SplitAt(rows, k);
    assert forall i :: 0 <= i < |before| ==> before[i] == rows[i] && !KeyMatches(before[i], key);
    assert forall i :: 0 <= i < |after| ==> after[i] == rows[k + 1 + i] && !KeyMatches(after[i], key);
    DeleteAbsent(before, key);
    DeleteAbsent(after, key);
    DeleteConcat(before, [rows[k]] + after, key);
    DeleteConcat([rows[k]], after, key);
    assert DeleteRows([rows[k]], key) == [];
  }

  /** Rows drawn from a table (plus possibly one new row) stay under the table's `sqlite_sequence`. */
  lemma BoundedRows<T>(rows: seq<Row<T>>, r: seq<Row<T>>, extra: Row<T>, bound: int)
    requires extra.id <= bound
    requires forall x :: x in r ==> x in rows || x == extra
    ensures (forall i :: 0 <= i < |rows| ==> rows[i].id <= bound) ==> forall i :: 0 <= i < |r| ==> r[i].id <= bound
  {
    forall i | 0 <= i < |r| && (forall i :: 0 <= i < |rows| ==> rows[i].id <= bound)
      ensures r[i].id <= bound
    {
      assert r[i] in r;
      if r[i] != extra {
        var j :| 0 <= j < |rows| && rows[j] == r[i];
      }
    }
  }

  lemma BoundedSubset<T>(rows: seq<Row<T>>, r: seq<Row<T>>, bound: int)
    requires forall x :: x in r ==> x in rows
    ensures (forall i :: 0 <= i < |rows| ==> rows[i].id <= bound) ==> forall i :: 0 <= i < |r| ==> r[i].id <= bound
  {
    if forall i :: 0 <= i < |rows| ==> rows[i].id <= bound {
      forall i | 0 <= i < |r|
        ensures r[i].id <= bound
      {
        assert r[i] in r;
        var j :| 0 <= j < |rows| && rows[j] == r[i];
      }
    }
  }

  /** A row whose id exceeds every id present lands at the end. */
  lemma {:induction false} InsertSortedAppend<T(!new)>(rows: seq<Row<T>>, row: Row<T>)
    requires forall i :: 0 <= i < |rows| ==> rows[i].id < row.id
    ensures InsertSorted(rows, row) == rows + [row]
  {
    if |rows| > 0 {
      InsertSortedAppend(rows[1..], row);
      assert [rows[0]] + (rows[1..] + [row]) == rows + [row];
    }
  }

  lemma InsertOrIgnoreAppend<T(!new)>(t: Table<T>, id: int, d: T)
    requires forall i :: 0 <= i < |t.rows| ==> t.rows[i].id < id
    ensures InsertOrIgnore(t, id, d).rows == t.rows + [Row(id, d)]
  {
    InsertSortedAppend(t.rows, Row(id, d));
  }

  /** Seeding an empty table with ids 1, 2 and 3 in turn gives exactly those rows, in that order. */
  lemma InsertOrIgnoreFresh<T(!new)>(d1: T, d2: T, d3: T)
    ensures InsertOrIgnore(InsertOrIgnore(EmptyTable(), 1, d1), 2, d2).rows == [Row(1, d1), Row(2, d2)]
    ensures InsertOrIgnore(InsertOrIgnore(InsertOrIgnore(EmptyTable(), 1, d1), 2, d2), 3, d3).rows
              == [Row(1, d1), Row(2, d2), Row(3, d3)]
  {
    var t0: Table<T> := EmptyTable();
    InsertOrIgnoreAppend(t0, 1, d1);
    var t1 := InsertOrIgnore(t0, 1, d1);
    assert t1.rows == [Row(1, d1)];
    InsertOrIgnoreAppend(t1, 2, d2);
    var t2 := InsertOrIgnore(t1, 2, d2);
    assert t2.rows == [Row(1, d1), Row(2, d2)];
    InsertOrIgnoreAppend(t2, 3, d3);
  }

  lemma KeepsIds<T>(rows: seq<Row<T>>, r: seq<Row<T>>)
    requires forall x :: x in rows ==> x in r
    ensures forall k :: HasId(rows, k) ==> HasId(r, k)
  {
    forall k | HasId(rows, k)
      ensures HasId(r, k)
    {
      var i :| 0 <= i < |rows| && rows[i].id == k;
      assert rows[i] in r;
      var j :| 0 <= j < |r| && r[j] == rows[i];
    }
  }
}
