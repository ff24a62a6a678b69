/**
 * What both catalog loaders read from the CSV file: rows as column -> text maps, the fields they
 * take with `row.get(column, default)`, and the rows a limited load keeps.
 */
module Catalog {
  import opened Common

  /** One csv.DictReader row; a column the file does not have is absent from the map. */
  type Row = map<string, string>

  /** row.get(column) */
  function Get(row: Row, column: string): Option<string>
  {
    if column in row then Some(row[column]) else None
  }

  /** row.get(column, default) */
  function Field(row: Row, column: string, default: string): string
  {
    if column in row then row[column] else default
  }

  /** The restaurant id of a row, "" when the column is missing. */
  function RowId(row: Row): string
  {
    Field(row, "restaurant_id", "")
  }

  /** `if not rid: continue` lets through exactly the rows with a non-empty restaurant id. */
  predicate HasId(row: Row)
  {
    Truthy(Get(row, "restaurant_id"))
  }

  lemma HasIdSpec(row: Row)
    ensures HasId(row) <==> RowId(row) != ""
    ensures HasId(row) ==> Get(row, "restaurant_id") == Some(RowId(row))
  {
  }

  /** With a truthy limit the loop stops once `count_menu >= limit`; a negative limit stops it at once. */
  function Cap(limit: int): nat
  {
    if limit < 0 then 0 else limit
  }

  /** The rows a load turns into menus: those with a restaurant id, the first `limit` of them
      when the limit is truthy (None and 0 mean no limit). */
  function Kept(rows: seq<Row>, limit: Option<int>): seq<Row>
  {
    if TruthyInt(limit) then Take(Filter(rows, HasId), Cap(limit.value)) else Filter(rows, HasId)
  }

  /** The limit test of the loop, made before reading a row, in terms of the rows loaded so far. */
  predicate LimitReached(rows: seq<Row>, limit: Option<int>)
  {
    TruthyInt(limit) && |Filter(rows, HasId)| >= Cap(limit.value)
  }

  /** The rows with an id grow by one row at a time. */
  lemma FilterAppend(rows: seq<Row>, r: Row)
    ensures Filter(rows + [r], HasId) == Filter(rows, HasId) + (if HasId(r) then [r] else [])
  {
    var s := rows + [r];
    assert s[..|s| - 1] == rows;
  }

  /** The kept rows grow by one row at a time: a row is kept when it has an id and the limit has
      not been reached by the rows before it. */
  lemma KeptAppend(rows: seq<Row>, r: Row, limit: Option<int>)
    ensures Kept(rows + [r], limit) ==
      if LimitReached(rows, limit) || !HasId(r) then Kept(rows, limit) else Kept(rows, limit) + [r]
  {
    var s := rows + [r];
    assert s[..|s| - 1] == rows;
    var f := Filter(rows, HasId);
    assert Filter(s, HasId) == f + (if HasId(r) then [r] else []);
    if TruthyInt(limit) {
      var c := Cap(limit.value);
      var g := Filter(s, HasId);
      if |f| >= c {
        assert g[..c] == f[..c];
      } else if HasId(r) {
        assert Take(g, c) == g;
        assert Take(f, c) == f;
      } else {
        assert g == f;
      }
    }
  }

  /** A truthy non-negative limit bounds the rows kept; without one every row with an id is kept. */
  lemma KeptBound(rows: seq<Row>, limit: Option<int>)
    ensures TruthyInt(limit) ==> |Kept(rows, limit)| <= Cap(limit.value)
    ensures !TruthyInt(limit) ==> Kept(rows, limit) == Filter(rows, HasId)
    ensures forall r :: r in Kept(rows, limit) ==> r in rows && HasId(r)
  {
    if TruthyInt(limit) {
      var f := Filter(rows, HasId);
      var k := Take(f, Cap(limit.value));
      forall r | r in k ensures r in f {
        var i :| 0 <= i < |k| && k[i] == r;
        assert f[i] == r;
      }
    }
  }

  /** The restaurant ids of some rows. */
  function Rids(rows: seq<Row>): set<string>
  {
    set i | 0 <= i < |rows| :: RowId(rows[i])
  }

  lemma RidsAppend(rows: seq<Row>, r: Row)
    ensures Rids(rows + [r]) == Rids(rows) + {RowId(r)}
  {
    var s := rows + [r];
    assert forall i :: 0 <= i < |rows| ==> s[i] == rows[i];
    assert s[|rows|] == r;
  }
}
