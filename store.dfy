/** The relational store `generate` queries through `DB::select`, as a value:
    a database maps table names to tables, a table has a set of columns and an
    ordered list of rows, and a row maps each of its non-NULL columns to its
    text. The two queries are modelled by their meaning, not their SQL text:
    `count(id)` and `MAX(SUBSTR(id, ...))` over the rows that satisfy a list of
    column-equals-value conditions. */
module Store {
  import opened Wrappers
  import opened SqlStrings

  /** The column both queries read; `generate` hard-codes it. */
  const IdColumn: string := "id"

  /** A row: its non-NULL columns and their values; a column missing from the
      map is NULL. */
  type Row = map<string, string>

  datatype Table = Table(columns: set<string>, rows: seq<Row>)

  type Database = map<string, Table>

  /** One `column=value` term of a WHERE clause. */
  type Condition = (string, string)

  /** The row satisfies every condition (a NULL column satisfies none). */
  predicate Matches(row: Row, conds: seq<Condition>) {
    forall i :: 0 <= i < |conds| ==> conds[i].0 in row && row[conds[i].0] == conds[i].1
  }

  /** The store runs the query: the table exists, has an `id` column and the
      columns the conditions name, and no condition has an empty right-hand
      side (`col=` is a syntax error). */
  predicate QueryValid(db: Database, table: string, conds: seq<Condition>) {
    && table in db
    && IdColumn in db[table].columns
    && forall i :: 0 <= i < |conds| ==> conds[i].0 in db[table].columns && conds[i].1 != ""
  }

  /** The non-NULL ids of the rows that satisfy the conditions, in row order:
      the values `count(id)` counts and `MAX` ranges over. */
  function MatchingIds(rows: seq<Row>, conds: seq<Condition>): (ids: seq<string>)
    ensures |ids| <= |rows|
  {
    if rows == [] then []
    else
      var last := rows[|rows| - 1];
      MatchingIds(rows[..|rows| - 1], conds)
        + if Matches(last, conds) && IdColumn in last then [last[IdColumn]] else []
  }

  /** The positions of the rows `count(id)` counts. */
  function CountedRows(rows: seq<Row>, conds: seq<Condition>): set<int> {
    set i | 0 <= i < |rows| && Matches(rows[i], conds) && IdColumn in rows[i]
  }

  /** The row `i` is counted and carries the id `x`. */
  predicate CountedWithId(rows: seq<Row>, conds: seq<Condition>, i: int, x: string) {
    0 <= i < |rows| && Matches(rows[i], conds) && IdColumn in rows[i] && rows[i][IdColumn] == x
  }

  /** The counted ids are exactly the ids of the rows that satisfy the
      conditions and have an id. */
  lemma {:induction false} MatchingIdsMembers(rows: seq<Row>, conds: seq<Condition>)
    ensures forall x :: x in MatchingIds(rows, conds) <==> exists i :: CountedWithId(rows, conds, i, x)
  {
    if rows != [] {
      var init, last := rows[..|rows| - 1], rows[|rows| - 1];
      MatchingIdsMembers(init, conds);
      forall x ensures x in MatchingIds(rows, conds) <==> exists i :: CountedWithId(rows, conds, i, x) {
        if x in MatchingIds(rows, conds) && x !in MatchingIds(init, conds) {
          assert CountedWithId(rows, conds, |rows| - 1, x);
        }
        if x in MatchingIds(init, conds) {
          var i :| CountedWithId(init, conds, i, x);
          assert CountedWithId(rows, conds, i, x);
        }
        if exists i :: CountedWithId(rows, conds, i, x) {
          var i :| CountedWithId(rows, conds, i, x);
          if i < |rows| - 1 {
            assert CountedWithId(init, conds, i, x);
          }
        }
      }
    }
  }

  /** The last row adds its position to the counted rows when it is counted. */
  lemma CountedRowsStep(rows: seq<Row>, conds: seq<Condition>)
    requires rows != []
    ensures var last := rows[|rows| - 1];
            CountedRows(rows, conds)
            == CountedRows(rows[..|rows| - 1], conds) + if Matches(last, conds) && IdColumn in last then {|rows| - 1} else {}
  {
    forall i | 0 <= i < |rows| - 1 ensures rows[i] == rows[..|rows| - 1][i] { }
  }

  /** There is one counted id per row that satisfies the conditions and has
      an id. */
  lemma {:induction false} MatchingIdsCount(rows: seq<Row>, conds: seq<Condition>)
    ensures |MatchingIds(rows, conds)| == |CountedRows(rows, conds)|
  {
    if rows != [] {
      var init := rows[..|rows| - 1];
      MatchingIdsCount(init, conds);
      CountedRowsStep(rows, conds);
      assert |rows| - 1 !in CountedRows(init, conds);
    }
  }

  /** `SELECT count(id) FROM table WHERE conds`. */
  function Count(t: Table, conds: seq<Condition>): nat {
    |MatchingIds(t.rows, conds)|
  }

  /** `SUBSTR(id, offset + 1, width)` of each id. */
  function Suffixes(ids: seq<string>, offset: nat, width: int): seq<string> {
    seq(|ids|, i requires 0 <= i < |ids| => Substr(ids[i], offset, width))
  }

  /** `SELECT MAX(SUBSTR(id, offset + 1, width)) FROM table WHERE conds`:
      NULL exactly when no row is counted, otherwise the greatest suffix. */
  function MaxSuffix(t: Table, conds: seq<Condition>, offset: nat, width: int): (r: Option<string>)
    ensures r.None? <==> Count(t, conds) == 0
    ensures r.Some? ==> r.value in Suffixes(MatchingIds(t.rows, conds), offset, width)
    ensures r.Some? ==> forall s <- Suffixes(MatchingIds(t.rows, conds), offset, width) :: LexLe(s, r.value)
  {
    var ss := Suffixes(MatchingIds(t.rows, conds), offset, width);
    if ss == [] then None else Some(MaxOf(ss))
  }

  /** The caller's insert of `row` after the existing rows of `table`. */
  function Insert(db: Database, table: string, row: Row): (db': Database)
    requires table in db
    ensures db'.Keys == db.Keys
    ensures db'[table] == Table(db[table].columns, db[table].rows + [row])
    ensures forall t <- db | t != table :: db'[t] == db[t]
  {
    db[table := Table(db[table].columns, db[table].rows + [row])]
  }

  /** An insert appends the new row's id to the counted ids exactly when the
      row satisfies the conditions and has an id. */
  lemma MatchingIdsAppend(rows: seq<Row>, row: Row, conds: seq<Condition>)
    ensures MatchingIds(rows + [row], conds)
         == MatchingIds(rows, conds) + if Matches(row, conds) && IdColumn in row then [row[IdColumn]] else []
  {
    assert (rows + [row])[..|rows|] == rows;
  }
}
