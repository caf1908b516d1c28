/**
 * A relational table with an AUTO_INCREMENT primary key, as the MySQL backend
 * keeps the `images`, `bookings` and `users` tables. Rows are kept in insertion
 * order; an insert takes the next counter value as its generated id.
 */
module Tables {
  import opened Options

  datatype Row<T> = Row(id: nat, data: T)

  datatype Table<T> = Table(rows: seq<Row<T>>, nextId: nat)

  /** Ids grow strictly with insertion order and all lie below the counter, so
      every id names at most one row and the next insert's id is fresh. */
  ghost predicate WellFormed<T>(t: Table<T>)
  {
    && Increasing(t.rows)
    && forall i :: 0 <= i < |t.rows| ==> t.rows[i].id < t.nextId
  }

  ghost predicate Increasing<T>(rows: seq<Row<T>>)
  {
    forall i, j :: 0 <= i < j < |rows| ==> rows[i].id < rows[j].id
  }

  /** `SELECT ... WHERE id = ?`, first row: the data of the first row with that id. */
  function Find<T>(rows: seq<Row<T>>, id: nat): (r: Option<T>)
    ensures r.None? <==> forall i :: 0 <= i < |rows| ==> rows[i].id != id
    ensures r.Some? ==> Row(id, r.value) in rows
  {
    if |rows| == 0 then None
    else if rows[0].id == id then Some(rows[0].data)
    else Find(rows[1..], id)
  }

  function Get<T>(t: Table<T>, id: nat): Option<T>
  {
    Find(t.rows, id)
  }

  /** An insert: the new row gets the counter's value as its id. */
  function Insert<T>(t: Table<T>, data: T): (r: Table<T>)
    ensures r.nextId == t.nextId + 1
    ensures |r.rows| == |t.rows| + 1
    ensures WellFormed(t) ==> WellFormed(r)
    ensures WellFormed(t) ==> Get(r, t.nextId) == Some(data)
    ensures forall k :: k != t.nextId ==> Get(r, k) == Get(t, k)
  {
    var x := Row(t.nextId, data);
    FindAppend(t.rows, x);
    Table(t.rows + [x], t.nextId + 1)
  }

  function FindAfter<T>(found: Option<T>, x: Row<T>, k: nat): Option<T>
  {
    if found.Some? then found else if x.id == k then Some(x.data) else None
  }

  /** Looking up in a table with one more row at the end finds what the shorter
      table had, or else the new row. */
  lemma {:induction false} FindAppend<T>(rows: seq<Row<T>>, x: Row<T>)
    ensures forall k :: Find(rows + [x], k) == FindAfter(Find(rows, k), x, k)
  {
    if |rows| > 0 {
      assert (rows + [x])[1..] == rows[1..] + [x];
      FindAppend(rows[1..], x);
    }
  }

  /** `DELETE ... WHERE id = ?` on a row sequence: the other rows, in order. */
  function RemoveRows<T>(rows: seq<Row<T>>, id: nat): (r: seq<Row<T>>)
    ensures |r| <= |rows|
    ensures forall i :: 0 <= i < |r| ==> r[i] in rows && r[i].id != id
    ensures forall j :: 0 <= j < |rows| && rows[j].id != id ==> rows[j] in r
  {
    if |rows| == 0 then []
    else if rows[0].id == id then RemoveRows(rows[1..], id)
    else [rows[0]] + RemoveRows(rows[1..], id)
  }

  /** Deleting a row by id. */
  function Remove<T>(t: Table<T>, id: nat): (r: Table<T>)
    ensures r.nextId == t.nextId
    ensures Get(r, id).None?
    ensures forall k :: k != id ==> Get(r, k) == Get(t, k)
    ensures WellFormed(t) ==> WellFormed(r)
  {
    FindRemove(t.rows, id);
    RemoveIncreasing(t.rows, id);
    Table(RemoveRows(t.rows, id), t.nextId)
  }

  /** Removing rows with one id leaves every other id's lookup as it was. */
  lemma {:induction false} FindRemove<T>(rows: seq<Row<T>>, id: nat)
    ensures forall k :: k != id ==> Find(RemoveRows(rows, id), k) == Find(rows, k)
  {
    if |rows| > 0 {
      FindRemove(rows[1..], id);
      var rest := RemoveRows(rows[1..], id);
      if rows[0].id != id {
        assert RemoveRows(rows, id) == [rows[0]] + rest;
        assert ([rows[0]] + rest)[1..] == rest;
      }
    }
  }

  /** Removing rows keeps the ids in increasing order. */
  lemma {:induction false} RemoveIncreasing<T>(rows: seq<Row<T>>, id: nat)
    ensures Increasing(rows) ==> Increasing(RemoveRows(rows, id))
  {
    if |rows| > 0 && Increasing(rows) {
      RemoveIncreasing(rows[1..], id);
      var rest := RemoveRows(rows[1..], id);
      if rows[0].id != id {
        var r := [rows[0]] + rest;
        forall i, j | 0 <= i < j < |r| ensures r[i].id < r[j].id {
          assert r[j] in rows[1..];
          if i > 0 {
            assert rest[i - 1].id < rest[j - 1].id;
          }
        }
      }
    }
  }

  /** Removing the row an insert just added gives back the rows the table had. */
  lemma InsertThenRemove<T>(t: Table<T>, data: T)
    requires WellFormed(t)
    ensures Remove(Insert(t, data), t.nextId).rows == t.rows
  {
    RemoveAbsentLast(t.rows, Row(t.nextId, data));
  }

  lemma {:induction false} RemoveAbsentLast<T>(rows: seq<Row<T>>, x: Row<T>)
    requires forall i :: 0 <= i < |rows| ==> rows[i].id != x.id
    ensures RemoveRows(rows + [x], x.id) == rows
  {
    if |rows| == 0 {
      assert RemoveRows([x], x.id) == RemoveRows([x][1..], x.id);
    } else {
      assert (rows + [x])[1..] == rows[1..] + [x];
      RemoveAbsentLast(rows[1..], x);
      assert [rows[0]] + rows[1..] == rows;
    }
  }

}
