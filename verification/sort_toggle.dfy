/** The sort-column state machine behind the column headers: the pair
    `(orderBy, order)` and the click handler that updates it. */
module SortToggle {
  import opened Records

  datatype Direction = Asc | Desc

  datatype SortState = SortState(orderBy: Column, order: Direction)

  /** The state a freshly mounted table starts in. */
  const Initial: SortState := SortState(StartDate, Asc)

  /** Clicking the header of `column`: the current column while ascending turns
      descending; every other click selects `column`, ascending. */
  function HandleSort(s: SortState, column: Column): (t: SortState)
    ensures t.orderBy == column
  {
    var isAsc := s.orderBy == column && s.order == Asc;
    SortState(column, if isAsc then Desc else Asc)
  }

  /** Clicking the current column while ascending only flips the direction. */
  lemma HandleSortFlipsAscending(c: Column)
    ensures HandleSort(SortState(c, Asc), c) == SortState(c, Desc)
  {
  }

  /** Any click other than "the current column while ascending" yields the clicked
      column, ascending; in particular a different column always starts ascending. */
  lemma HandleSortResets(s: SortState, column: Column)
    requires column != s.orderBy || s.order == Desc
    ensures HandleSort(s, column) == SortState(column, Asc)
  {
  }

  /** The result is descending exactly when the current column was clicked while
      ascending. */
  lemma HandleSortDescending(s: SortState, column: Column)
    ensures HandleSort(s, column).order == Desc <==> s.orderBy == column && s.order == Asc
  {
  }

  /** The first click on a fresh table: "Start Date" turns descending, every other
      header selects its column ascending. */
  lemma FirstClickFromInitial(column: Column)
    ensures HandleSort(Initial, column)
         == if column == StartDate then SortState(StartDate, Desc) else SortState(column, Asc)
  {
  }

  /** Clicking the current column twice restores the original state. */
  lemma HandleSortTwice(s: SortState)
    ensures HandleSort(HandleSort(s, s.orderBy), s.orderBy) == s
  {
  }

  /** The header cells that carry a click handler: every column but "file". */
  function Clickable(column: Column): (b: bool)
    ensures b <==> column == Symbol || column == Timeframe || IsDateColumn(column)
  {
    column != File
  }

  /** The state after a sequence of header clicks, oldest first. */
  function Replay(s: SortState, clicks: seq<Column>): (t: SortState)
    ensures clicks != [] ==> t.orderBy == clicks[|clicks| - 1]
    ensures clicks == [] ==> t == s
    decreases |clicks|
  {
    if clicks == [] then s else Replay(HandleSort(s, clicks[0]), clicks[1..])
  }

  /** Clicks on headers never select "file": every state reachable from the initial
      one sorts by symbol, timeframe or one of the dates. */
  lemma ReachableStatesAreClickable(clicks: seq<Column>)
    requires forall i :: 0 <= i < |clicks| ==> Clickable(clicks[i])
    ensures Clickable(Replay(Initial, clicks).orderBy)
  {
  }
}
