/** The rows the table renders: `filteeData()`, which filters the fetched rows by
    the search text and then sorts them by the current sort state. */
module DataView {
  import opened JsStrings
  import opened Records
  import opened SortToggle
  import opened Comparator
  import opened StableSort
  import opened SymbolFilter

  /** `sortData(data.filter(...))` under the sort state `st`. */
  function VisibleRows(dateKey: DateKey, st: SortState, search: JsString, data: seq<Record>): (rows: seq<Record>)
    ensures forall x :: x in rows <==> x in data && Matches(x, search)
    ensures forall x :: Matches(x, search) ==> multiset(rows)[x] == multiset(data)[x]
    ensures Sorted(dateKey, st, rows)
    ensures StableWrt(dateKey, st, rows, FilterBySymbol(data, search))
  {
    var filtered := FilterBySymbol(data, search);
    SortDataCorrect(dateKey, st, filtered);
    SortData(dateKey, st, filtered)
  }

  /** The state the rendered rows depend on. The loading flag and the fetch are
      not part of this model. */
  datatype TableState = TableState(data: seq<Record>, search: JsString, sort: SortState)

  /** A table that has received `data` and not been touched yet. */
  function Fresh(data: seq<Record>): (t: TableState)
    ensures t.data == data && t.search == []
    ensures t.sort.orderBy == StartDate && t.sort.order == Asc
  {
    TableState(data, [], Initial)
  }

  /** Typing into the search box. */
  function TypeSearch(t: TableState, text: JsString): (u: TableState)
    ensures u.search == text
    ensures u.data == t.data && u.sort == t.sort
  {
    t.(search := text)
  }

  /** Clicking a column header. */
  function ClickHeader(t: TableState, column: Column): (u: TableState)
    ensures u.sort.orderBy == column
    ensures u.sort.order == Desc <==> t.sort.orderBy == column && t.sort.order == Asc
    ensures u.data == t.data && u.search == t.search
  {
    t.(sort := HandleSort(t.sort, column))
  }

  /** What is rendered for a state: the rows whose symbol includes the search text,
      each as often as fetched, sorted by the state's column and direction, with
      tied rows in fetch order. */
  function Render(dateKey: DateKey, t: TableState): (rows: seq<Record>)
    ensures forall x :: x in rows <==> x in t.data && Matches(x, t.search)
    ensures forall x :: Matches(x, t.search) ==> multiset(rows)[x] == multiset(t.data)[x]
    ensures Sorted(dateKey, t.sort, rows)
    ensures StableWrt(dateKey, t.sort, rows, FilterBySymbol(t.data, t.search))
  {
    VisibleRows(dateKey, t.sort, t.search, t.data)
  }

  // ---------------------------------------------------------------------------
  // Properties of the pipeline
  // ---------------------------------------------------------------------------

  /** A fresh table shows every row, ordered by start date, oldest first, with rows
      of equal start date in fetch order. */
  lemma FreshTableShowsAllRows(dateKey: DateKey, data: seq<Record>)
    ensures Render(dateKey, Fresh(data)) == SortData(dateKey, Initial, data)
    ensures multiset(Render(dateKey, Fresh(data))) == multiset(data)
  {
    FilterEmptySearch(data);
    SortDataCorrect(dateKey, Initial, data);
  }

  /** Clearing the search box shows every row again, sorted by the current state. */
  lemma ClearingSearchShowsAllRows(dateKey: DateKey, t: TableState)
    ensures Render(dateKey, TypeSearch(t, [])) == SortData(dateKey, t.sort, t.data)
  {
    FilterEmptySearch(t.data);
  }

  /** A header click re-sorts the same matching rows by the new sort state. */
  lemma ClickHeaderResorts(dateKey: DateKey, t: TableState, column: Column)
    ensures var rows := Render(dateKey, ClickHeader(t, column));
            && multiset(rows) == multiset(Render(dateKey, t))
            && Sorted(dateKey, HandleSort(t.sort, column), rows)
  {
    var filtered := FilterBySymbol(t.data, t.search);
    SortDataCorrect(dateKey, t.sort, filtered);
    SortDataCorrect(dateKey, HandleSort(t.sort, column), filtered);
  }

  /** Clicking the current column twice renders the same rows again. */
  lemma ClickTwiceRestoresRows(dateKey: DateKey, t: TableState)
    ensures Render(dateKey, ClickHeader(ClickHeader(t, t.sort.orderBy), t.sort.orderBy)) == Render(dateKey, t)
  {
    HandleSortTwice(t.sort);
    assert ClickHeader(ClickHeader(t, t.sort.orderBy), t.sort.orderBy) == t;
  }

  /** Filtering keeps a sorted sequence sorted. */
  lemma {:induction false} FilterKeepsSorted(dateKey: DateKey, st: SortState, s: seq<Record>, search: JsString)
    requires Sorted(dateKey, st, s)
    ensures Sorted(dateKey, st, FilterBySymbol(s, search))
    decreases |s|
  {
    if s != [] {
      var rest := FilterBySymbol(s[1..], search);
      FilterKeepsSorted(dateKey, st, s[1..], search);
      if Includes(s[0].symbol, search) {
        var r := [s[0]] + rest;
        forall j | 1 <= j < |r|
          ensures Compare(dateKey, st, r[0], r[j]) <= 0
        {
          assert r[j] in rest;
          var i :| 0 <= i < |s[1..]| && s[1..][i] == r[j];
          assert s[i + 1] == r[j];
        }
      }
    }
  }

  /** The ties of a filtered sequence are the filtered ties. */
  lemma {:induction false} TiesWithFilter(dateKey: DateKey, st: SortState, k: Record, s: seq<Record>, search: JsString)
    ensures TiesWith(dateKey, st, k, FilterBySymbol(s, search))
         == FilterBySymbol(TiesWith(dateKey, st, k, s), search)
    decreases |s|
  {
    if s != [] {
      TiesWithFilter(dateKey, st, k, s[1..], search);
      var rest := FilterBySymbol(s[1..], search);
      var ties := TiesWith(dateKey, st, k, s[1..]);
      if Includes(s[0].symbol, search) {
        TiesWithCons(dateKey, st, k, s[0], rest);
      }
      if Compare(dateKey, st, s[0], k) == 0 {
        assert ([s[0]] + ties)[1..] == ties;
      } else {
        assert [] + ties == ties;
      }
    }
  }

  /** Filtering before sorting, as the component does, gives the same rows as
      sorting before filtering. */
  lemma FilterThenSortIsSortThenFilter(dateKey: DateKey, st: SortState, search: JsString, data: seq<Record>)
    ensures VisibleRows(dateKey, st, search, data) == FilterBySymbol(SortData(dateKey, st, data), search)
  {
    var sorted := SortData(dateKey, st, data);
    var t := FilterBySymbol(sorted, search);
    var filtered := FilterBySymbol(data, search);
    SortDataCorrect(dateKey, st, data);
    FilterKeepsSorted(dateKey, st, sorted, search);
    forall k
      ensures TiesWith(dateKey, st, k, t) == TiesWith(dateKey, st, k, filtered)
    {
      TiesWithFilter(dateKey, st, k, sorted, search);
      TiesWithFilter(dateKey, st, k, data, search);
    }
    SortedStableIsSortData(dateKey, st, filtered, t);
  }

  /** The two-row example table: "AAA" started on `later`, "BBB" on `earlier`
      (2024-02-01 and 2024-01-01, say). */
  function ExampleRows(earlier: JsString, later: JsString): seq<Record> {
    [ Record([0x41, 0x41, 0x41], [], later, [], []),
      Record([0x42, 0x42, 0x42], [], earlier, [], []) ]
  }

  /** Sorting the example by start date: ascending shows the older row first,
      descending the newer one. */
  lemma ExampleSortedByStartDate(dateKey: DateKey, earlier: JsString, later: JsString)
    requires dateKey(earlier) < dateKey(later)
    ensures var rows := ExampleRows(earlier, later);
            && VisibleRows(dateKey, SortState(StartDate, Asc), [], rows) == [rows[1], rows[0]]
            && VisibleRows(dateKey, SortState(StartDate, Desc), [], rows) == rows
  {
    var rows := ExampleRows(earlier, later);
    FilterEmptySearch(rows);
    assert rows[1..] == [rows[1]];
  }

  /** Of the example symbols, only "AAA" includes "AA". */
  lemma ExampleFilter(earlier: JsString, later: JsString)
    ensures var rows := ExampleRows(earlier, later);
            FilterBySymbol(rows, [0x41, 0x41]) == [rows[0]]
  {
    var rows := ExampleRows(earlier, later);
    assert OccursAt(rows[0].symbol, [0x41, 0x41], 0);
    forall i | OccursAt(rows[1].symbol, [0x41, 0x41], i)
      ensures false
    {
      OccursAtStartsWith(rows[1].symbol, [0x41, 0x41], i);
    }
    assert rows[1..] == [rows[1]];
  }

  /** Searching the example for "AA" keeps only "AAA", whatever the sort state. */
  lemma ExampleSearch(dateKey: DateKey, st: SortState, earlier: JsString, later: JsString)
    ensures var rows := ExampleRows(earlier, later);
            VisibleRows(dateKey, st, [0x41, 0x41], rows) == [rows[0]]
  {
    ExampleFilter(earlier, later);
  }
}
