/** The `interns` table as the front end sees it: a list of rows that the
    registration forms insert into, the management page updates, and the
    attendance desk looks codes up in. The database enforces three unique
    columns (`id`, `intern_id`, `email`); `Valid` states them and `Insert`
    keeps them, answering a clash with a unique violation (code 23505). */
module InternStore {
  import opened Common
  import opened Rows

  /** A column that a lookup filters on with `.eq(column, value)`. */
  datatype Column = IdColumn | CodeColumn | EmailColumn

  function ColumnValue(row: InternRow, col: Column): string {
    match col
    case IdColumn => row.id
    case CodeColumn => row.internCode
    case EmailColumn => row.email
  }

  /** `.eq(col, v)`: the rows whose column `col` holds `v`, in table order. */
  function RowsWhere(rows: seq<InternRow>, col: Column, v: string): (r: seq<InternRow>)
    ensures |r| <= |rows|
  {
    if rows == [] then []
    else RowsWhere(rows[..|rows| - 1], col, v) + (if ColumnValue(rows[|rows| - 1], col) == v then [rows[|rows| - 1]] else [])
  }

  /** The selection holds exactly the rows whose column holds `v`, and
      nothing when no row holds it. */
  lemma RowsWhereMembers(rows: seq<InternRow>, col: Column, v: string)
    ensures forall x | x in RowsWhere(rows, col, v) :: x in rows && ColumnValue(x, col) == v
    ensures forall i | 0 <= i < |rows| && ColumnValue(rows[i], col) == v :: rows[i] in RowsWhere(rows, col, v)
    ensures (forall i | 0 <= i < |rows| :: ColumnValue(rows[i], col) != v) ==> RowsWhere(rows, col, v) == []
  {
    RowsWhereSound(rows, col, v);
    RowsWhereComplete(rows, col, v);
    var r := RowsWhere(rows, col, v);
    if r != [] {
      assert r[0] in r;
    }
  }

  lemma {:induction false} RowsWhereSound(rows: seq<InternRow>, col: Column, v: string)
    ensures forall x | x in RowsWhere(rows, col, v) :: x in rows && ColumnValue(x, col) == v
  {
    if rows != [] {
      var p, x := rows[..|rows| - 1], rows[|rows| - 1];
      var q, tail := RowsWhere(p, col, v), if ColumnValue(x, col) == v then [x] else [];
      assert RowsWhere(rows, col, v) == q + tail;
      RowsWhereSound(p, col, v);
      forall y | y in q + tail
        ensures y in rows && ColumnValue(y, col) == v
      {
        if y in q {
          var i :| 0 <= i < |p| && p[i] == y;
          assert rows[i] == y;
        }
      }
    }
  }

  lemma {:induction false} RowsWhereComplete(rows: seq<InternRow>, col: Column, v: string)
    ensures forall i | 0 <= i < |rows| && ColumnValue(rows[i], col) == v :: rows[i] in RowsWhere(rows, col, v)
  {
    if rows != [] {
      var p, x := rows[..|rows| - 1], rows[|rows| - 1];
      var q, tail := RowsWhere(p, col, v), if ColumnValue(x, col) == v then [x] else [];
      assert RowsWhere(rows, col, v) == q + tail;
      RowsWhereComplete(p, col, v);
      forall i | 0 <= i < |rows| && ColumnValue(rows[i], col) == v
        ensures rows[i] in q + tail
      {
        if i < |p| {
          assert rows[i] == p[i];
        }
      }
    }
  }

  /** `.eq(col, v)` keeps the table order: the selection from two stretches
      of the table is the selection from the first followed by the selection
      from the second. */
  lemma {:induction false} RowsWhereAppend(a: seq<InternRow>, b: seq<InternRow>, col: Column, v: string)
    ensures RowsWhere(a + b, col, v) == RowsWhere(a, col, v) + RowsWhere(b, col, v)
  {
    if b == [] {
      assert a + b == a;
    } else {
      var p, x := b[..|b| - 1], b[|b| - 1];
      assert (a + b)[..|a + b| - 1] == a + p;
      assert (a + b)[|a + b| - 1] == x;
      RowsWhereAppend(a, p, col, v);
    }
  }

  /** A single row is selected exactly when its column holds `v`; with
      `RowsWhereAppend` this fixes the selection and its size completely. */
  lemma RowsWhereOne(x: InternRow, col: Column, v: string)
    ensures RowsWhere([x], col, v) == if ColumnValue(x, col) == v then [x] else []
  {
    assert [x][..0] == [];
  }

  /** The answer of `.single()`: the row when exactly one row matches; error
      PGRST116 ("no rows") when none or several match; or an error of the
      store itself. */
  datatype Lookup = Found(row: InternRow) | NoRows | LookupError

  function Single(matches: seq<InternRow>, storeFails: bool): (r: Lookup)
    ensures r.Found? <==> !storeFails && |matches| == 1
    ensures r.Found? ==> r.row == matches[0]
    ensures r.LookupError? <==> storeFails
  {
    if storeFails then LookupError
    else if |matches| == 1 then Found(matches[0])
    else NoRows
  }

  predicate ColumnUnique(rows: seq<InternRow>, col: Column) {
    forall i, j | 0 <= i < j < |rows| :: ColumnValue(rows[i], col) != ColumnValue(rows[j], col)
  }

  /** On a unique column a value matches at most one row. */
  lemma {:induction false} UniqueColumnMatchesOnce(rows: seq<InternRow>, col: Column, v: string)
    requires ColumnUnique(rows, col)
    ensures |RowsWhere(rows, col, v)| <= 1
  {
    if rows != [] {
      var p, x := rows[..|rows| - 1], rows[|rows| - 1];
      assert ColumnUnique(p, col);
      UniqueColumnMatchesOnce(p, col, v);
      if ColumnValue(x, col) == v {
        RowsWhereMembers(p, col, v);
        forall i | 0 <= i < |p|
          ensures ColumnValue(p[i], col) != v
        {
          assert rows[i] == p[i];
        }
      }
    }
  }

  /** On a unique column, `.single()` finds a row exactly when some row holds
      the value, and then it is that row. */
  lemma UniqueLookup(rows: seq<InternRow>, col: Column, v: string)
    requires ColumnUnique(rows, col)
    ensures Single(RowsWhere(rows, col, v), false).Found?
            <==> exists i :: 0 <= i < |rows| && ColumnValue(rows[i], col) == v
    ensures Single(RowsWhere(rows, col, v), false).Found? ==>
              Single(RowsWhere(rows, col, v), false).row in rows
              && ColumnValue(Single(RowsWhere(rows, col, v), false).row, col) == v
  {
    UniqueColumnMatchesOnce(rows, col, v);
    RowsWhereMembers(rows, col, v);
  }

  datatype InsertResult = Inserted | UniqueViolation | InsertError

  /** A new row clashes with the table when it repeats an id, a code or an email. */
  predicate Clashes(rows: seq<InternRow>, row: InternRow) {
    exists i | 0 <= i < |rows| ::
      rows[i].id == row.id || rows[i].internCode == row.internCode || rows[i].email == row.email
  }

  /** `.update({ is_active: flag }).eq('id', id)`: every row with that id
      gets the flag; nothing else changes and no row is added or removed. */
  function WithActiveFlag(rows: seq<InternRow>, id: string, flag: bool): (r: seq<InternRow>)
    ensures |r| == |rows|
    ensures forall i | 0 <= i < |rows| :: r[i].(isActive := rows[i].isActive) == rows[i]
    ensures forall i | 0 <= i < |rows| :: r[i].isActive == if rows[i].id == id then flag else rows[i].isActive
  {
    seq(|rows|, i requires 0 <= i < |rows| => if rows[i].id == id then rows[i].(isActive := flag) else rows[i])
  }

  /** Changing the flag keeps every unique column unique. */
  lemma WithActiveFlagKeepsColumns(rows: seq<InternRow>, id: string, flag: bool, col: Column)
    ensures forall i | 0 <= i < |rows| :: ColumnValue(WithActiveFlag(rows, id, flag)[i], col) == ColumnValue(rows[i], col)
    ensures ColumnUnique(rows, col) ==> ColumnUnique(WithActiveFlag(rows, id, flag), col)
  {
    var r := WithActiveFlag(rows, id, flag);
    assert forall i | 0 <= i < |rows| :: r[i].(isActive := rows[i].isActive) == rows[i];
  }

  class InternDirectory {
    var rows: seq<InternRow>

    ghost predicate Valid()
      reads this
    {
      ColumnUnique(rows, IdColumn) && ColumnUnique(rows, CodeColumn) && ColumnUnique(rows, EmailColumn)
    }

    constructor (initial: seq<InternRow>)
      requires ColumnUnique(initial, IdColumn) && ColumnUnique(initial, CodeColumn)
      requires ColumnUnique(initial, EmailColumn)
      ensures Valid() && rows == initial
    {
      rows := initial;
    }

    /** `.from('interns').select(...).eq(col, v).single()` */
    function Find(col: Column, v: string, storeFails: bool): (r: Lookup)
      reads this
      ensures r.Found? ==> r.row in rows && ColumnValue(r.row, col) == v
      ensures storeFails <==> r.LookupError?
    {
      RowsWhereMembers(rows, col, v);
      Single(RowsWhere(rows, col, v), storeFails)
    }

    /** `.from('interns').insert([row])`: the database rejects a row that
        repeats a unique column and otherwise appends it. */
    method Insert(row: InternRow, storeFails: bool) returns (res: InsertResult)
      requires Valid()
      modifies this
      ensures Valid()
      ensures storeFails ==> res == InsertError
      ensures !storeFails && Clashes(old(rows), row) ==> res == UniqueViolation
      ensures !storeFails && !Clashes(old(rows), row) ==> res == Inserted
      ensures rows == if res == Inserted then old(rows) + [row] else old(rows)
    {
      if storeFails {
        return InsertError;
      }
      if Clashes(rows, row) {
        return UniqueViolation;
      }
      rows := rows + [row];
      res := Inserted;
    }

    /** `.from('interns').update({ is_active: flag }).eq('id', id)` */
    method SetActive(id: string, flag: bool, storeFails: bool) returns (ok: bool)
      requires Valid()
      modifies this
      ensures Valid()
      ensures ok == !storeFails
      ensures rows == if ok then WithActiveFlag(old(rows), id, flag) else old(rows)
    {
      if storeFails {
        return false;
      }
      WithActiveFlagKeepsColumns(rows, id, flag, IdColumn);
      WithActiveFlagKeepsColumns(rows, id, flag, CodeColumn);
      WithActiveFlagKeepsColumns(rows, id, flag, EmailColumn);
      rows := WithActiveFlag(rows, id, flag);
      ok := true;
    }
  }
}
