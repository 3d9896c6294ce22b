/**
 * The `folder_schema` table (category columns) kept in the sqlite database
 * that lives in the identity file: `id INTEGER PRIMARY KEY AUTOINCREMENT`,
 * `name TEXT UNIQUE NOT NULL`.
 */
module SchemaStore {
  import opened Seqs

  datatype Row = Row(id: nat, name: string)

  /** The `name` column of a list of rows. */
  function Names(rows: seq<Row>): (names: seq<string>)
    ensures |names| == |rows|
    ensures forall i :: 0 <= i < |rows| ==> names[i] == rows[i].name
  {
    seq(|rows|, i requires 0 <= i < |rows| => rows[i].name)
  }

  /** Rows listed in strictly increasing id order, which is also their storage order. */
  ghost predicate IdsAscending(rows: seq<Row>)
  {
    forall i, j :: 0 <= i < j < |rows| ==> rows[i].id < rows[j].id
  }

  /** The UNIQUE constraint on `name`. */
  ghost predicate NamesUnique(rows: seq<Row>)
  {
    Distinct(Names(rows))
  }

  /**
   * The listing after `INSERT OR IGNORE` of `name`: unchanged when the name is
   * already there, otherwise the name appended at the end.
   */
  function AddName(names: seq<string>, name: string): (r: seq<string>)
    ensures name in r
    ensures name in names ==> r == names
    ensures name !in names ==> |r| == |names| + 1 && r[..|names|] == names && r[|names|] == name
    ensures Distinct(names) ==> Distinct(r)
  {
    if name in names then names else names + [name]
  }

  /** The listing after adding each of `adds` in turn. */
  function AddAll(names: seq<string>, adds: seq<string>): seq<string>
    decreases |adds|
  {
    if adds == [] then names
    else AddName(AddAll(names, adds[..|adds| - 1]), adds[|adds| - 1])
  }

  /** Each distinct element of `xs` once, in the order of its first occurrence. */
  function FirstOccurrences(xs: seq<string>): seq<string>
    decreases |xs|
  {
    if xs == [] then []
    else
      var init := xs[..|xs| - 1];
      FirstOccurrences(init) + (if xs[|xs| - 1] in init then [] else [xs[|xs| - 1]])
  }

  /** Adding names never loses or invents a name. */
  lemma {:induction false} AddAllElems(xs: seq<string>)
    ensures Elems(AddAll([], xs)) == Elems(xs)
    decreases |xs|
  {
    if xs != [] {
      var init := xs[..|xs| - 1];
      AddAllElems(init);
      var before := AddAll([], init);
      assert Elems(AddAll([], xs)) == Elems(before) + {xs[|xs| - 1]};
      assert Elems(xs) == Elems(init) + {xs[|xs| - 1]} by {
        assert xs == init + [xs[|xs| - 1]];
      }
    }
  }

  /**
   * Insertion order: starting from an empty table, the listing after a series
   * of adds is each distinct name once, in the order it was first added.
   */
  lemma {:induction false} ListingIsFirstOccurrences(xs: seq<string>)
    ensures AddAll([], xs) == FirstOccurrences(xs)
    ensures Distinct(AddAll([], xs))
    decreases |xs|
  {
    if xs != [] {
      var init := xs[..|xs| - 1];
      ListingIsFirstOccurrences(init);
      AddAllElems(init);
      var x := xs[|xs| - 1];
      assert x in AddAll([], init) <==> x in init by {
        assert x in AddAll([], init) <==> x in Elems(AddAll([], init));
        assert x in init <==> x in Elems(init);
      }
    }
  }

  /**
   * `DELETE FROM folder_schema WHERE name = ?`: the rows named `name` go, every
   * other row stays.
   */
  function DeleteByName(rows: seq<Row>, name: string): (r: seq<Row>)
    ensures forall row :: row in r <==> row in rows && row.name != name
    decreases |rows|
  {
    if rows == [] then []
    else
      var init := rows[..|rows| - 1];
      var last := rows[|rows| - 1];
      var kept := DeleteByName(init, name);
      assert forall row :: row in init ==> row in rows;
      if last.name == name then kept else kept + [last]
  }

  /** Deleting keeps the surviving rows in their relative order. */
  lemma {:induction false} DeleteByNameKeepsOrder(rows: seq<Row>, name: string)
    ensures IsSubsequence(DeleteByName(rows, name), rows)
    decreases |rows|
  {
    if rows != [] {
      var init := rows[..|rows| - 1];
      var last := rows[|rows| - 1];
      var kept := DeleteByName(init, name);
      DeleteByNameKeepsOrder(init, name);
      if last.name != name {
        var r := kept + [last];
        assert r[..|r| - 1] == kept;
      }
    }
  }

  /** Deleting a name no row has leaves the table as it was. */
  lemma {:induction false} DeleteByNameAbsentIsNoop(rows: seq<Row>, name: string)
    requires forall i :: 0 <= i < |rows| ==> rows[i].name != name
    ensures DeleteByName(rows, name) == rows
    decreases |rows|
  {
    if rows != [] {
      var init := rows[..|rows| - 1];
      assert forall i :: 0 <= i < |init| ==> init[i] == rows[i];
      DeleteByNameAbsentIsNoop(init, name);
      assert rows == init + [rows[|rows| - 1]];
    }
  }

  /** Deleting keeps the table's ids ascending. */
  lemma {:induction false} DeleteByNameKeepsAscending(rows: seq<Row>, name: string)
    requires IdsAscending(rows)
    ensures IdsAscending(DeleteByName(rows, name))
    decreases |rows|
  {
    if rows != [] {
      var init := rows[..|rows| - 1];
      var kept := DeleteByName(init, name);
      DeleteByNameKeepsAscending(init, name);
      if rows[|rows| - 1].name != name {
        var r := kept + [rows[|rows| - 1]];
        forall i, j | 0 <= i < j < |r| ensures r[i].id < r[j].id {
          if j == |r| - 1 {
            assert r[i] in kept;
            var k :| 0 <= k < |init| && init[k] == r[i];
            assert rows[k] == r[i];
          }
        }
      }
    }
  }

  /** Deleting keeps the table's names unique. */
  lemma {:induction false} DeleteByNameKeepsUnique(rows: seq<Row>, name: string)
    requires NamesUnique(rows)
    ensures NamesUnique(DeleteByName(rows, name))
    decreases |rows|
  {
    if rows != [] {
      var init := rows[..|rows| - 1];
      var last := rows[|rows| - 1];
      var kept := DeleteByName(init, name);
      assert Names(init) == Names(rows)[..|rows| - 1];
      DeleteByNameKeepsUnique(init, name);
      if last.name != name {
        var r := kept + [last];
        assert Names(r) == Names(kept) + [last.name];
      }
    }
  }

  /** Deleting keeps the table's ids ascending and its names unique. */
  lemma DeleteByNameKeepsValid(rows: seq<Row>, name: string)
    requires IdsAscending(rows) && NamesUnique(rows)
    ensures IdsAscending(DeleteByName(rows, name))
    ensures NamesUnique(DeleteByName(rows, name))
  {
    DeleteByNameKeepsAscending(rows, name);
    DeleteByNameKeepsUnique(rows, name);
  }

  /**
   * Appending a row for a name not yet in the table, with an id above every id
   * handed out so far, keeps ids ascending and names unique, and lists the name last.
   */
  lemma AppendRowKeepsValid(rows: seq<Row>, lastId: nat, name: string)
    requires IdsAscending(rows) && NamesUnique(rows)
    requires forall i :: 0 <= i < |rows| ==> 0 < rows[i].id <= lastId
    requires name !in Names(rows)
    ensures var r := rows + [Row(lastId + 1, name)];
            && IdsAscending(r) && NamesUnique(r)
            && (forall i :: 0 <= i < |r| ==> 0 < r[i].id <= lastId + 1)
            && Names(r) == AddName(Names(rows), name)
  {
  }

  /** The table as stored in the identity file. */
  class FolderSchemaTable {
    /** Whether `CREATE TABLE` has run on this database. */
    var created: bool
    /** The rows, in id order. */
    var rows: seq<Row>
    /** The AUTOINCREMENT counter: the largest id ever handed out. */
    var lastId: nat

    ghost predicate Valid()
      reads this
    {
      && (!created ==> rows == [])
      && IdsAscending(rows)
      && (forall i :: 0 <= i < |rows| ==> 0 < rows[i].id <= lastId)
      && NamesUnique(rows)
    }
  }
}
