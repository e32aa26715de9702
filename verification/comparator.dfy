/** The comparison function `sortData` hands to `Array.prototype.sort`, and the key
    order it encodes. */
module Comparator {
  import opened JsStrings
  import opened Records
  import opened SortToggle

  /** The chronological value `new Date(text)` gives a date string. Date parsing is
      not part of this model; the sort is verified for every such function. */
  type DateKey = JsString -> int

  // ---------------------------------------------------------------------------
  // The key order, stated independently of the comparator
  // ---------------------------------------------------------------------------

  /** `a`'s value in `column` is at most `b`'s: chronologically for the date
      columns, in the standard's string order otherwise. */
  ghost predicate KeyAtMost(dateKey: DateKey, column: Column, a: Record, b: Record) {
    if IsDateColumn(column) then dateKey(Field(a, column)) <= dateKey(Field(b, column))
    else !IsLessThan(Field(b, column), Field(a, column))
  }

  /** `a` and `b` have the same value in `column`. */
  ghost predicate SameKey(dateKey: DateKey, column: Column, a: Record, b: Record) {
    if IsDateColumn(column) then dateKey(Field(a, column)) == dateKey(Field(b, column))
    else Field(a, column) == Field(b, column)
  }

  /** `a` may come before `b` in a table sorted by `st`: non-decreasing keys when
      ascending, non-increasing keys when descending. */
  ghost predicate InOrder(dateKey: DateKey, st: SortState, a: Record, b: Record) {
    if st.order == Asc then KeyAtMost(dateKey, st.orderBy, a, b)
    else KeyAtMost(dateKey, st.orderBy, b, a)
  }

  /** The comparator of `sortData` under the current `(orderBy, order)`: a negative
      result puts `a` first, a positive one puts `b` first, zero is a tie. Date
      columns subtract the two chronological values; every other column compares
      the raw strings with `<` and `>`. Its sign is non-positive exactly when the
      two records are in order, and zero exactly when their keys are equal. */
  function Compare(dateKey: DateKey, st: SortState, a: Record, b: Record): (r: int)
    ensures r <= 0 <==> InOrder(dateKey, st, a, b)
    ensures r == 0 <==> SameKey(dateKey, st.orderBy, a, b)
  {
    if st.orderBy == StartDate || st.orderBy == EndDate then
      var dateA := dateKey(Field(a, st.orderBy));
      var dateB := dateKey(Field(b, st.orderBy));
      if st.order == Asc then dateA - dateB else dateB - dateA
    else
      var valueA := Field(a, st.orderBy);
      var valueB := Field(b, st.orderBy);
      LessIrreflexive(valueA);
      LessAsymmetric(valueA, valueB);
      LessTrichotomy(valueA, valueB);
      if Less(valueA, valueB) then (if st.order == Asc then -1 else 1)
      else if Less(valueB, valueA) then (if st.order == Asc then 1 else -1)
      else 0
  }

  // ---------------------------------------------------------------------------
  // The comparator is consistent (a total preorder), as `sort` requires
  // ---------------------------------------------------------------------------

  lemma CompareReflexive(dateKey: DateKey, st: SortState, a: Record)
    ensures Compare(dateKey, st, a, a) == 0
  {
    LessIrreflexive(Field(a, st.orderBy));
  }

  /** Swapping the arguments flips the sign. */
  lemma CompareAntisymmetric(dateKey: DateKey, st: SortState, a: Record, b: Record)
    ensures Compare(dateKey, st, a, b) < 0 <==> Compare(dateKey, st, b, a) > 0
    ensures Compare(dateKey, st, a, b) == 0 <==> Compare(dateKey, st, b, a) == 0
  {
    LessAsymmetric(Field(a, st.orderBy), Field(b, st.orderBy));
  }

  lemma CompareTransitive(dateKey: DateKey, st: SortState, a: Record, b: Record, c: Record)
    requires Compare(dateKey, st, a, b) <= 0 && Compare(dateKey, st, b, c) <= 0
    ensures Compare(dateKey, st, a, c) <= 0
  {
    var x, y, z := Field(a, st.orderBy), Field(b, st.orderBy), Field(c, st.orderBy);
    LessTransitive(x, y, z);
    LessTransitive(z, y, x);
    LessTrichotomy(x, z);
    LessAsymmetric(x, z);
    LessTrichotomy(x, y);
    LessTrichotomy(y, z);
  }

  /** Ascending and descending differ only in the order of the arguments: the
      direction flips the comparison rather than reversing the output. */
  lemma DescendingSwapsArguments(dateKey: DateKey, column: Column, a: Record, b: Record)
    ensures Compare(dateKey, SortState(column, Desc), a, b)
         == Compare(dateKey, SortState(column, Asc), b, a)
  {
    LessAsymmetric(Field(a, column), Field(b, column));
  }
}
