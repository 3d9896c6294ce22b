/**
 * The data logic of the file table page: the per-column filters, the sort
 * column and direction, and the rows a render shows. Column keys are the
 * header's `data-col` values: "name", "cat_<i>" and "ann_<i>".
 */
module UiTable {
  import opened Wrappers
  import opened Seqs

  /** A column key: "name", "cat_<index>" or "ann_<index>". */
  datatype ColKey = NameCol | Cat(index: nat) | Ann(index: nat)

  /** One entry of the scan result's `files` list. */
  datatype Item = Item(name: string, categories: seq<string>, annotations: seq<string>)

  /** The scan result: the files and the labels of the two kinds of extra column. */
  datatype ScanData = ScanData(files: seq<Item>, categoryColumns: seq<string>, annotationColumns: seq<string>)

  // ---------------------------------------------------------------
  // Text
  // ---------------------------------------------------------------

  /** `toLowerCase` on one character, for the ASCII letters. */
  function LowerChar(c: char): char
  {
    if 'A' <= c <= 'Z' then (c as int + 32) as char else c
  }

  /** `toLowerCase` on a string, character by character. */
  function Lower(s: string): (r: string)
    ensures |r| == |s| && forall i :: 0 <= i < |s| ==> r[i] == LowerChar(s[i])
    ensures forall i :: 0 <= i < |r| ==> !('A' <= r[i] <= 'Z')
  {
    seq(|s|, i requires 0 <= i < |s| => LowerChar(s[i]))
  }

  /** `sub` occurs in `s` starting at position `k`. */
  predicate OccursAt(s: string, sub: string, k: int)
  {
    0 <= k && k + |sub| <= |s| && s[k..k + |sub|] == sub
  }

  /** `s.includes(sub)`. */
  predicate Includes(s: string, sub: string)
    ensures sub <= s ==> Includes(s, sub)
    ensures Includes(s, sub) ==> |sub| <= |s|
  {
    assert sub <= s ==> OccursAt(s, sub, 0);
    exists k | 0 <= k <= |s| :: OccursAt(s, sub, k)
  }

  // ---------------------------------------------------------------
  // Filtering
  // ---------------------------------------------------------------

  /** The filter of `key` is truthy: present and not the empty string. */
  predicate Active(fv: map<ColKey, string>, key: ColKey)
  {
    key in fv && fv[key] != ""
  }

  /** A cell passes its column's filter: the filter is off, or it occurs in the cell, ignoring case. */
  predicate FieldPasses(fv: map<ColKey, string>, key: ColKey, value: string)
    ensures FieldPasses(fv, key, value) && Active(fv, key) ==> |fv[key]| <= |value|
  {
    !Active(fv, key) || Includes(Lower(value), Lower(fv[key]))
  }

  /** Every item carries a cell for each category column and each annotation column. */
  predicate WellShaped(items: seq<Item>, ncat: nat, nann: nat)
  {
    forall x :: x in items ==> |x.categories| >= ncat && |x.annotations| >= nann
  }

  /**
   * The filter callback's verdict: the name and each of the first `ncat`
   * categories and `nann` annotations pass their filters.
   */
  predicate RowMatches(item: Item, ncat: nat, nann: nat, fv: map<ColKey, string>)
    requires |item.categories| >= ncat && |item.annotations| >= nann
    ensures RowMatches(item, ncat, nann, fv) && Active(fv, NameCol) ==> |fv[NameCol]| <= |item.name|
  {
    && FieldPasses(fv, NameCol, item.name)
    && (forall i :: 0 <= i < ncat ==> FieldPasses(fv, Cat(i), item.categories[i]))
    && (forall i :: 0 <= i < nann ==> FieldPasses(fv, Ann(i), item.annotations[i]))
  }

  /**
   * The filter callback as written: check the name, then each category column,
   * then each annotation column, rejecting at the first cell that fails.
   */
  method RowPasses(item: Item, ncat: nat, nann: nat, fv: map<ColKey, string>) returns (keep: bool)
    requires |item.categories| >= ncat && |item.annotations| >= nann
    ensures keep <==> RowMatches(item, ncat, nann, fv)
  {
    if NameCol in fv && fv[NameCol] != "" && !Includes(Lower(item.name), Lower(fv[NameCol])) {
      return false;
    }
    for i := 0 to ncat
      invariant forall k :: 0 <= k < i ==> FieldPasses(fv, Cat(k), item.categories[k])
    {
      if Cat(i) in fv && fv[Cat(i)] != "" && !Includes(Lower(item.categories[i]), Lower(fv[Cat(i)])) {
        return false;
      }
    }
    for i := 0 to nann
      invariant forall k :: 0 <= k < i ==> FieldPasses(fv, Ann(k), item.annotations[k])
    {
      if Ann(i) in fv && fv[Ann(i)] != "" && !Includes(Lower(item.annotations[i]), Lower(fv[Ann(i)])) {
        return false;
      }
    }
    return true;
  }

  /** `files.filter(...)`: the items the callback keeps, in their original order. */
  function FilterRows(items: seq<Item>, ncat: nat, nann: nat, fv: map<ColKey, string>): (r: seq<Item>)
    requires WellShaped(items, ncat, nann)
    ensures |r| <= |items|
    decreases |items|
  {
    if items == [] then []
    else
      var init := items[..|items| - 1];
      var last := items[|items| - 1];
      assert forall x :: x in init ==> x in items;
      var kept := FilterRows(init, ncat, nann, fv);
      if RowMatches(last, ncat, nann, fv) then kept + [last] else kept
  }

  /** A row is kept exactly when it is in the data and passes every filter. */
  lemma {:induction false} FilterMembership(items: seq<Item>, ncat: nat, nann: nat, fv: map<ColKey, string>)
    requires WellShaped(items, ncat, nann)
    ensures forall x :: x in FilterRows(items, ncat, nann, fv) <==> x in items && RowMatches(x, ncat, nann, fv)
    decreases |items|
  {
    if items != [] {
      var init := items[..|items| - 1];
      var last := items[|items| - 1];
      assert forall x :: x in init ==> x in items;
      FilterMembership(init, ncat, nann, fv);
      assert items == init + [last];
    }
  }

  /** The kept rows keep their relative order. */
  lemma {:induction false} FilterKeepsOrder(items: seq<Item>, ncat: nat, nann: nat, fv: map<ColKey, string>)
    requires WellShaped(items, ncat, nann)
    ensures IsSubsequence(FilterRows(items, ncat, nann, fv), items)
    decreases |items|
  {
    if items != [] {
      var init := items[..|items| - 1];
      assert forall x :: x in init ==> x in items;
      var kept := FilterRows(init, ncat, nann, fv);
      FilterKeepsOrder(init, ncat, nann, fv);
      if RowMatches(items[|items| - 1], ncat, nann, fv) {
        var r := kept + [items[|items| - 1]];
        assert r[..|r| - 1] == kept;
      }
    }
  }

  /** With every filter empty or absent, a row passes. */
  lemma NoFilterMatches(item: Item, ncat: nat, nann: nat, fv: map<ColKey, string>)
    requires |item.categories| >= ncat && |item.annotations| >= nann
    requires forall key :: key in fv ==> fv[key] == ""
    ensures RowMatches(item, ncat, nann, fv)
  {
    assert forall key :: !Active(fv, key);
  }

  /** With every filter empty or absent, every row is shown. */
  lemma {:induction false} NoFilterKeepsAll(items: seq<Item>, ncat: nat, nann: nat, fv: map<ColKey, string>)
    requires WellShaped(items, ncat, nann)
    requires forall key :: key in fv ==> fv[key] == ""
    ensures FilterRows(items, ncat, nann, fv) == items
    decreases |items|
  {
    if items != [] {
      var init := items[..|items| - 1];
      var last := items[|items| - 1];
      assert WellShaped(init, ncat, nann) by {
        assert forall x :: x in init ==> x in items;
      }
      NoFilterKeepsAll(init, ncat, nann, fv);
      assert |last.categories| >= ncat && |last.annotations| >= nann by {
        assert last in items;
      }
      NoFilterMatches(last, ncat, nann, fv);
      assert FilterRows(items, ncat, nann, fv) == FilterRows(init, ncat, nann, fv) + [last];
      assert items == init + [last];
    }
  }

  /** Lower-casing a prefix gives a prefix of the lower-cased string. */
  lemma LowerPrefix(u: string, v: string)
    requires |u| <= |v| && v[..|u|] == u
    ensures Lower(v)[..|u|] == Lower(u)
  {
  }

  /** A string containing the longer text also contains its prefix. */
  lemma IncludesPrefix(s: string, u: string, v: string)
    requires |u| <= |v| && v[..|u|] == u
    requires Includes(s, Lower(v))
    ensures Includes(s, Lower(u))
  {
    assert |Lower(v)| == |v|;
    var k :| 0 <= k <= |s| && OccursAt(s, Lower(v), k);
    LowerPrefix(u, v);
    assert s[k..k + |u|] == s[k..k + |v|][..|u|];
    assert OccursAt(s, Lower(u), k);
  }

  /** One cell: extending the filter text of `col` only narrows what passes. */
  lemma FieldNarrows(fv: map<ColKey, string>, col: ColKey, u: string, v: string, key: ColKey, value: string)
    requires |u| <= |v| && v[..|u|] == u
    requires FieldPasses(fv[col := v], key, value)
    ensures FieldPasses(fv[col := u], key, value)
  {
    if key == col && u != "" {
      IncludesPrefix(Lower(value), u, v);
    }
  }

  /**
   * Typing more characters into a filter input only removes rows: a row kept
   * with the longer text was kept with the shorter one.
   */
  lemma TypingNarrowsFilter(item: Item, ncat: nat, nann: nat, fv: map<ColKey, string>, col: ColKey, u: string, v: string)
    requires |item.categories| >= ncat && |item.annotations| >= nann
    requires |u| <= |v| && v[..|u|] == u
    requires RowMatches(item, ncat, nann, fv[col := v])
    ensures RowMatches(item, ncat, nann, fv[col := u])
  {
    FieldNarrows(fv, col, u, v, NameCol, item.name);
    forall i | 0 <= i < ncat ensures FieldPasses(fv[col := u], Cat(i), item.categories[i]) {
      FieldNarrows(fv, col, u, v, Cat(i), item.categories[i]);
    }
    forall i | 0 <= i < nann ensures FieldPasses(fv[col := u], Ann(i), item.annotations[i]) {
      FieldNarrows(fv, col, u, v, Ann(i), item.annotations[i]);
    }
  }

  // ---------------------------------------------------------------
  // Sorting
  // ---------------------------------------------------------------

  /** `s[i] || ""`: a missing cell sorts as the empty string. */
  function At(s: seq<string>, i: nat): (r: string)
    ensures i < |s| ==> r == s[i]
    ensures i >= |s| ==> r == ""
    ensures r == "" || r in s
  {
    if i < |s| then s[i] else ""
  }

  /** The value a row is sorted by in column `col`. */
  function SortKey(col: ColKey, item: Item): (r: string)
    ensures col.NameCol? ==> r == item.name
    ensures col.Cat? && col.index < |item.categories| ==> r == item.categories[col.index]
    ensures col.Ann? && col.index < |item.annotations| ==> r == item.annotations[col.index]
    ensures col.Cat? && col.index >= |item.categories| ==> r == ""
    ensures col.Ann? && col.index >= |item.annotations| ==> r == ""
    ensures !col.NameCol? && r != "" ==> (col.Cat? ==> r in item.categories) && (col.Ann? ==> r in item.annotations)
  {
    match col
    case NameCol => item.name
    case Cat(i) => At(item.categories, i)
    case Ann(i) => At(item.annotations, i)
  }

  /**
   * `localeCompare` is a consistent comparator: `lc(a, b)` and `lc(b, a)` have
   * opposite signs, and "not after" is transitive.
   */
  ghost predicate Consistent(lc: (string, string) -> int)
  {
    && (forall a, b :: lc(a, b) <= 0 <==> lc(b, a) >= 0)
    && (forall a, b, c :: lc(a, b) <= 0 && lc(b, c) <= 0 ==> lc(a, c) <= 0)
  }

  /** The sort callback: compare the keys, negated when sorting descending. */
  function RowCompare(col: ColKey, asc: bool, lc: (string, string) -> int, a: Item, b: Item): (r: int)
    ensures asc ==> (r <= 0 <==> lc(SortKey(col, a), SortKey(col, b)) <= 0)
    ensures !asc ==> (r <= 0 <==> lc(SortKey(col, a), SortKey(col, b)) >= 0)
  {
    var cmp := lc(SortKey(col, a), SortKey(col, b));
    if asc then cmp else -cmp
  }

  /** `rows` is in the order the callback asks for. */
  ghost predicate Sorted(rows: seq<Item>, col: ColKey, asc: bool, lc: (string, string) -> int)
  {
    forall i, j :: 0 <= i < j < |rows| ==> RowCompare(col, asc, lc, rows[i], rows[j]) <= 0
  }

  /** With a consistent `localeCompare`, the callback is a total preorder in both directions. */
  lemma RowCompareConsistent(col: ColKey, asc: bool, lc: (string, string) -> int)
    requires Consistent(lc)
    ensures forall a, b :: RowCompare(col, asc, lc, a, b) <= 0 || RowCompare(col, asc, lc, b, a) <= 0
    ensures forall a, b, c :: RowCompare(col, asc, lc, a, b) <= 0 && RowCompare(col, asc, lc, b, c) <= 0 ==>
              RowCompare(col, asc, lc, a, c) <= 0
  {
  }

  /** The reverse of a sequence. */
  function Reverse<T>(s: seq<T>): (r: seq<T>)
    ensures |r| == |s| && forall i :: 0 <= i < |s| ==> r[i] == s[|s| - 1 - i]
  {
    seq(|s|, i requires 0 <= i < |s| => s[|s| - 1 - i])
  }

  /** Rows sorted descending, read backwards, are sorted ascending. */
  lemma ReverseOfDescending(rows: seq<Item>, col: ColKey, lc: (string, string) -> int)
    requires Consistent(lc) && Sorted(rows, col, false, lc)
    ensures Sorted(Reverse(rows), col, true, lc)
  {
  }

  /** Rows whose reverse is sorted ascending are sorted descending. */
  lemma DescendingOfReverse(rows: seq<Item>, col: ColKey, lc: (string, string) -> int)
    requires Consistent(lc) && Sorted(Reverse(rows), col, true, lc)
    ensures Sorted(rows, col, false, lc)
  {
    var rev := Reverse(rows);
    var n := |rows|;
    forall i, j | 0 <= i < j < n ensures RowCompare(col, false, lc, rows[i], rows[j]) <= 0 {
      assert rows[i] == rev[n - 1 - i] && rows[j] == rev[n - 1 - j];
      assert RowCompare(col, true, lc, rev[n - 1 - j], rev[n - 1 - i]) <= 0;
      assert lc(SortKey(col, rows[j]), SortKey(col, rows[i])) <= 0;
    }
  }

  /** Descending order is ascending order read backwards. */
  lemma DescendingIsReversedAscending(rows: seq<Item>, col: ColKey, lc: (string, string) -> int)
    requires Consistent(lc)
    ensures Sorted(rows, col, false, lc) <==> Sorted(Reverse(rows), col, true, lc)
  {
    if Sorted(rows, col, false, lc) {
      ReverseOfDescending(rows, col, lc);
    }
    if Sorted(Reverse(rows), col, true, lc) {
      DescendingOfReverse(rows, col, lc);
    }
  }

  /** Insert `x` before the first row it does not come after. */
  function InsertRow(col: ColKey, asc: bool, lc: (string, string) -> int, x: Item, s: seq<Item>): (r: seq<Item>)
    ensures multiset(r) == multiset(s) + multiset{x}
    decreases |s|
  {
    if s == [] then [x]
    else if RowCompare(col, asc, lc, x, s[0]) <= 0 then [x] + s
    else
      assert s == [s[0]] + s[1..];
      [s[0]] + InsertRow(col, asc, lc, x, s[1..])
  }

  /** `rows.sort(callback)`: each row is inserted into the sorted rest. */
  function SortRows(col: ColKey, asc: bool, lc: (string, string) -> int, rows: seq<Item>): (r: seq<Item>)
    ensures multiset(r) == multiset(rows)
    decreases |rows|
  {
    if rows == [] then []
    else
      assert rows == [rows[0]] + rows[1..];
      InsertRow(col, asc, lc, rows[0], SortRows(col, asc, lc, rows[1..]))
  }

  /** `a` comes after none of `s`. */
  ghost predicate NotAfterAll(col: ColKey, asc: bool, lc: (string, string) -> int, a: Item, s: seq<Item>)
  {
    forall i :: 0 <= i < |s| ==> RowCompare(col, asc, lc, a, s[i]) <= 0
  }

  /** A row coming after none of the sorted rows `t` can be put in front of them. */
  lemma ConsSorted(col: ColKey, asc: bool, lc: (string, string) -> int, a: Item, t: seq<Item>)
    requires Sorted(t, col, asc, lc) && NotAfterAll(col, asc, lc, a, t)
    ensures Sorted([a] + t, col, asc, lc)
  {
  }

  /** Inserting a row `a` does not come after keeps `a` before all of them. */
  lemma NotAfterInserted(col: ColKey, asc: bool, lc: (string, string) -> int, a: Item, x: Item, s: seq<Item>)
    requires NotAfterAll(col, asc, lc, a, s) && RowCompare(col, asc, lc, a, x) <= 0
    ensures NotAfterAll(col, asc, lc, a, InsertRow(col, asc, lc, x, s))
  {
    var r := InsertRow(col, asc, lc, x, s);
    forall i | 0 <= i < |r| ensures RowCompare(col, asc, lc, a, r[i]) <= 0 {
      assert r[i] in multiset(r);
      if r[i] != x {
        assert r[i] in multiset(s);
        var j :| 0 <= j < |s| && s[j] == r[i];
      }
    }
  }

  /** Inserting into sorted rows keeps them sorted. */
  lemma {:induction false} InsertKeepsSorted(col: ColKey, asc: bool, lc: (string, string) -> int, x: Item, s: seq<Item>)
    requires Consistent(lc) && Sorted(s, col, asc, lc)
    ensures Sorted(InsertRow(col, asc, lc, x, s), col, asc, lc)
    decreases |s|
  {
    if s == [] {
      assert InsertRow(col, asc, lc, x, s) == [x];
    } else {
      RowCompareConsistent(col, asc, lc);
      var s0 := s[0];
      if RowCompare(col, asc, lc, x, s0) <= 0 {
        forall i | 0 <= i < |s| ensures RowCompare(col, asc, lc, x, s[i]) <= 0 {
          if i > 0 {
            assert RowCompare(col, asc, lc, s0, s[i]) <= 0;
          }
        }
        ConsSorted(col, asc, lc, x, s);
      } else {
        var rest := s[1..];
        assert Sorted(rest, col, asc, lc) by {
          forall i, j | 0 <= i < j < |rest| ensures RowCompare(col, asc, lc, rest[i], rest[j]) <= 0 {
            assert rest[i] == s[i + 1] && rest[j] == s[j + 1];
          }
        }
        InsertKeepsSorted(col, asc, lc, x, rest);
        assert NotAfterAll(col, asc, lc, s0, rest) by {
          forall i | 0 <= i < |rest| ensures RowCompare(col, asc, lc, s0, rest[i]) <= 0 {
            assert rest[i] == s[i + 1];
          }
        }
        NotAfterInserted(col, asc, lc, s0, x, rest);
        ConsSorted(col, asc, lc, s0, InsertRow(col, asc, lc, x, rest));
      }
    }
  }

  /** The sort callback orders the rows when `localeCompare` is consistent. */
  lemma {:induction false} SortRowsSorted(col: ColKey, asc: bool, lc: (string, string) -> int, rows: seq<Item>)
    requires Consistent(lc)
    ensures Sorted(SortRows(col, asc, lc, rows), col, asc, lc)
    decreases |rows|
  {
    if rows != [] {
      SortRowsSorted(col, asc, lc, rows[1..]);
      InsertKeepsSorted(col, asc, lc, rows[0], SortRows(col, asc, lc, rows[1..]));
    }
  }

  // ---------------------------------------------------------------
  // Header clicks
  // ---------------------------------------------------------------

  /** The sort column (`null` when none) and the direction. */
  datatype SortState = SortState(column: Option<ColKey>, asc: bool)

  /** A click on the header of `col`: the same column flips direction, another starts ascending. */
  function ClickSort(s: SortState, col: ColKey): (r: SortState)
    ensures r.column == Some(col)
    ensures s.column == Some(col) ==> r.asc == !s.asc
    ensures s.column != Some(col) ==> r.asc
  {
    if s.column == Some(col) then SortState(s.column, !s.asc) else SortState(Some(col), true)
  }

  /** Two clicks on the sorted column give back the state before them. */
  lemma ClickTwiceRestores(s: SortState, col: ColKey)
    requires s.column == Some(col)
    ensures ClickSort(ClickSort(s, col), col) == s
  {
  }

  /** After clicks on another column and back, the column is sorted ascending. */
  lemma ClickElsewhereResets(s: SortState, col: ColKey, other: ColKey)
    requires other != col
    ensures ClickSort(ClickSort(s, other), col) == SortState(Some(col), true)
  {
  }

  // ---------------------------------------------------------------
  // Page state
  // ---------------------------------------------------------------

  /** The page's filter and sort state, changed in place by the input and click handlers. */
  class TableState {
    var filterValues: map<ColKey, string>
    var sortColumn: Option<ColKey>
    var sortAsc: bool

    /** The page's starting state: no filters, no sort column, ascending. */
    constructor ()
      ensures filterValues == map[] && sortColumn == None && sortAsc
    {
      filterValues := map[];
      sortColumn := None;
      sortAsc := true;
    }

    function Sort(): SortState
      reads this
    {
      SortState(sortColumn, sortAsc)
    }

    /** The input handler of a filter box: record its text for that column. */
    method OnFilterInput(col: ColKey, value: string)
      modifies this
      ensures filterValues == old(filterValues)[col := value]
      ensures Active(filterValues, col) <==> value != ""
      ensures forall k :: k != col ==> (k in filterValues <==> k in old(filterValues))
      ensures forall k :: k != col && k in filterValues ==> filterValues[k] == old(filterValues)[k]
      ensures sortColumn == old(sortColumn) && sortAsc == old(sortAsc)
    {
      filterValues := filterValues[col := value];
    }

    /** The click handler of a sortable header. */
    method OnHeaderClick(col: ColKey)
      modifies this
      ensures Sort() == ClickSort(old(Sort()), col)
      ensures filterValues == old(filterValues)
    {
      if sortColumn == Some(col) {
        sortAsc := !sortAsc;
      } else {
        sortColumn := Some(col);
        sortAsc := true;
      }
    }

    /**
     * The rows a render shows: nothing before the data has loaded; otherwise the
     * rows that pass every filter, sorted by the sort column when there is one.
     */
    method RenderRows(data: Option<ScanData>, lc: (string, string) -> int) returns (shown: Option<seq<Item>>)
      requires data.Some? ==> WellShaped(data.value.files, |data.value.categoryColumns|, |data.value.annotationColumns|)
      ensures shown.None? <==> data.None?
      ensures data.Some? ==>
                var d := data.value;
                var kept := FilterRows(d.files, |d.categoryColumns|, |d.annotationColumns|, filterValues);
                && (forall x :: x in shown.value <==>
                      x in d.files && RowMatches(x, |d.categoryColumns|, |d.annotationColumns|, filterValues))
                && multiset(shown.value) == multiset(kept)
                && (sortColumn.None? ==> shown.value == kept)
                && (sortColumn.Some? ==> shown.value == SortRows(sortColumn.value, sortAsc, lc, kept))
                && (sortColumn.Some? && Consistent(lc) ==> Sorted(shown.value, sortColumn.value, sortAsc, lc))
    {
      if data.None? {
        return None;
      }
      var d := data.value;
      var ncat, nann := |d.categoryColumns|, |d.annotationColumns|;
      var rows: seq<Item> := [];
      for k := 0 to |d.files|
        invariant WellShaped(d.files[..k], ncat, nann)
        invariant rows == FilterRows(d.files[..k], ncat, nann, filterValues)
      {
        assert d.files[..k + 1][..k] == d.files[..k];
        assert d.files[k] in d.files;
        var keep := RowPasses(d.files[k], ncat, nann, filterValues);
        if keep {
          rows := rows + [d.files[k]];
        }
      }
      assert d.files[..|d.files|] == d.files;
      FilterMembership(d.files, ncat, nann, filterValues);
      if sortColumn.Some? {
        if Consistent(lc) {
          SortRowsSorted(sortColumn.value, sortAsc, lc, rows);
        }
        var sorted := SortRows(sortColumn.value, sortAsc, lc, rows);
        SameMultisetSameElems(sorted, rows);
        rows := sorted;
      }
      return Some(rows);
    }
  }
}
