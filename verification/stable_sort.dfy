/** `sortData`: a stable sort of a copy of the rows by the comparator of the current
    sort state. `Array.prototype.sort` must be stable, so its result is fixed by the
    comparator alone; it is computed here by insertion sort, and `SortedStableIsSortData`
    shows that every stable sort by the same comparator agrees with it. */
module StableSort {
  import opened Records
  import opened SortToggle
  import opened Comparator

  /** Every earlier record compares at most equal to every later one. */
  ghost predicate Sorted(dateKey: DateKey, st: SortState, s: seq<Record>) {
    forall i, j :: 0 <= i < j < |s| ==> Compare(dateKey, st, s[i], s[j]) <= 0
  }

  /** The records of `s`, in their order in `s`, whose key ties with `k`'s. */
  ghost function TiesWith(dateKey: DateKey, st: SortState, k: Record, s: seq<Record>): seq<Record>
    decreases |s|
  {
    if s == [] then []
    else
      (if Compare(dateKey, st, s[0], k) == 0 then [s[0]] else [])
      + TiesWith(dateKey, st, k, s[1..])
  }

  /** Stability: in `t`, every group of tied records appears in the same relative
      order as in `s`. */
  ghost predicate StableWrt(dateKey: DateKey, st: SortState, t: seq<Record>, s: seq<Record>) {
    forall k :: TiesWith(dateKey, st, k, t) == TiesWith(dateKey, st, k, s)
  }

  /** Inserts `x` before the first record of `t` that does not compare below it. */
  function Insert(dateKey: DateKey, st: SortState, x: Record, t: seq<Record>): (r: seq<Record>)
    ensures multiset(r) == multiset(t) + multiset{x}
    decreases |t|
  {
    if t == [] then [x]
    else if Compare(dateKey, st, x, t[0]) <= 0 then [x] + t
    else
      assert t == [t[0]] + t[1..];
      [t[0]] + Insert(dateKey, st, x, t[1..])
  }

  /** `sortData(data)`: the rows of `s`, rearranged by the comparator. */
  function SortData(dateKey: DateKey, st: SortState, s: seq<Record>): (r: seq<Record>)
    ensures multiset(r) == multiset(s)
    decreases |s|
  {
    if s == [] then []
    else
      assert s == [s[0]] + s[1..];
      Insert(dateKey, st, s[0], SortData(dateKey, st, s[1..]))
  }

  // ---------------------------------------------------------------------------
  // Sortedness
  // ---------------------------------------------------------------------------

  /** A record at most every member of `t` and at most `x` is at most every member
      of `Insert(x, t)`. */
  lemma InsertLowerBound(dateKey: DateKey, st: SortState, p: Record, x: Record, t: seq<Record>)
    requires Compare(dateKey, st, p, x) <= 0
    requires forall j :: 0 <= j < |t| ==> Compare(dateKey, st, p, t[j]) <= 0
    ensures forall j :: 0 <= j < |Insert(dateKey, st, x, t)| ==>
      Compare(dateKey, st, p, Insert(dateKey, st, x, t)[j]) <= 0
  {
    var r := Insert(dateKey, st, x, t);
    forall j | 0 <= j < |r|
      ensures Compare(dateKey, st, p, r[j]) <= 0
    {
      assert r[j] in multiset(r);
      if r[j] != x {
        assert r[j] in multiset(t);
        var i :| 0 <= i < |t| && t[i] == r[j];
      }
    }
  }

  /** A record at most every member of a sorted sequence may go in front of it. */
  lemma ConsSorted(dateKey: DateKey, st: SortState, p: Record, t: seq<Record>)
    requires Sorted(dateKey, st, t)
    requires forall j :: 0 <= j < |t| ==> Compare(dateKey, st, p, t[j]) <= 0
    ensures Sorted(dateKey, st, [p] + t)
  {
    var r := [p] + t;
    forall i, j | 0 <= i < j < |r|
      ensures Compare(dateKey, st, r[i], r[j]) <= 0
    {
      if i > 0 {
        assert r[i] == t[i - 1] && r[j] == t[j - 1];
      } else {
        assert r[j] == t[j - 1];
      }
    }
  }

  lemma {:induction false} InsertSorted(dateKey: DateKey, st: SortState, x: Record, t: seq<Record>)
    requires Sorted(dateKey, st, t)
    ensures Sorted(dateKey, st, Insert(dateKey, st, x, t))
    decreases |t|
  {
    if t == [] {
    } else if Compare(dateKey, st, x, t[0]) <= 0 {
      forall j | 0 <= j < |t|
        ensures Compare(dateKey, st, x, t[j]) <= 0
      {
        if j > 0 {
          CompareTransitive(dateKey, st, x, t[0], t[j]);
        }
      }
      ConsSorted(dateKey, st, x, t);
    } else {
      var rest := Insert(dateKey, st, x, t[1..]);
      InsertSorted(dateKey, st, x, t[1..]);
      CompareAntisymmetric(dateKey, st, x, t[0]);
      InsertLowerBound(dateKey, st, t[0], x, t[1..]);
      ConsSorted(dateKey, st, t[0], rest);
    }
  }

  /** The output of `sortData` is ordered by the comparator. */
  lemma {:induction false} SortDataSorted(dateKey: DateKey, st: SortState, s: seq<Record>)
    ensures Sorted(dateKey, st, SortData(dateKey, st, s))
    decreases |s|
  {
    if s != [] {
      SortDataSorted(dateKey, st, s[1..]);
      InsertSorted(dateKey, st, s[0], SortData(dateKey, st, s[1..]));
    }
  }

  /** The output of `sortData` has non-decreasing column keys when ascending and
      non-increasing ones when descending: chronological for the date columns,
      the standard's string order for the others. */
  lemma SortDataOrdered(dateKey: DateKey, st: SortState, s: seq<Record>)
    ensures forall i, j :: 0 <= i < j < |SortData(dateKey, st, s)| ==>
      InOrder(dateKey, st, SortData(dateKey, st, s)[i], SortData(dateKey, st, s)[j])
  {
    SortDataSorted(dateKey, st, s);
  }

  // ---------------------------------------------------------------------------
  // Stability
  // ---------------------------------------------------------------------------

  lemma TiesWithCons(dateKey: DateKey, st: SortState, k: Record, a: Record, s: seq<Record>)
    ensures TiesWith(dateKey, st, k, [a] + s)
         == (if Compare(dateKey, st, a, k) == 0 then [a] else []) + TiesWith(dateKey, st, k, s)
  {
    assert ([a] + s)[1..] == s;
  }

  /** A record is among the ties of `k` in `s` exactly when it occurs in `s` and
      ties with `k`. */
  lemma {:induction false} TiesWithMembers(dateKey: DateKey, st: SortState, k: Record, s: seq<Record>, y: Record)
    ensures y in TiesWith(dateKey, st, k, s) <==> y in s && Compare(dateKey, st, y, k) == 0
    decreases |s|
  {
    if s != [] {
      TiesWithMembers(dateKey, st, k, s[1..], y);
      assert s == [s[0]] + s[1..];
    }
  }

  /** `r` is `t` with `x` put in at index `p`, directly behind the records of `t`
      that compare strictly below `x` and in front of the first one that does not. */
  ghost predicate InsertedAt(dateKey: DateKey, st: SortState, x: Record, t: seq<Record>, r: seq<Record>, p: int) {
    && 0 <= p <= |t|
    && r == t[..p] + [x] + t[p..]
    && (forall j :: 0 <= j < p ==> Compare(dateKey, st, x, t[j]) > 0)
    && (p < |t| ==> Compare(dateKey, st, x, t[p]) <= 0)
  }

  /** A placement in the tail behind a head below `x` is a placement in the whole. */
  lemma InsertedAtCons(dateKey: DateKey, st: SortState, x: Record, t: seq<Record>, r: seq<Record>, q: int)
    requires t != [] && Compare(dateKey, st, x, t[0]) > 0
    requires InsertedAt(dateKey, st, x, t[1..], r, q)
    ensures InsertedAt(dateKey, st, x, t, [t[0]] + r, q + 1)
  {
    assert t[..q + 1] == [t[0]] + t[1..][..q];
    assert t[q + 1..] == t[1..][q..];
    forall j | 1 <= j < q + 1
      ensures Compare(dateKey, st, x, t[j]) > 0
    {
      assert t[j] == t[1..][j - 1];
    }
  }

  /** `x` goes in directly behind the longest prefix of `t` whose records compare
      strictly below it, so in front of the first record that is not below it. */
  lemma {:induction false} InsertPosition(dateKey: DateKey, st: SortState, x: Record, t: seq<Record>)
    ensures exists p :: InsertedAt(dateKey, st, x, t, Insert(dateKey, st, x, t), p)
    decreases |t|
  {
    if t == [] || Compare(dateKey, st, x, t[0]) <= 0 {
      assert InsertedAt(dateKey, st, x, t, Insert(dateKey, st, x, t), 0);
    } else {
      var rest := Insert(dateKey, st, x, t[1..]);
      InsertPosition(dateKey, st, x, t[1..]);
      var q :| InsertedAt(dateKey, st, x, t[1..], rest, q);
      InsertedAtCons(dateKey, st, x, t, rest, q);
      assert Insert(dateKey, st, x, t) == [t[0]] + rest;
    }
  }

  /** `x` lands in front of every record it ties with; every other tie group is
      unchanged. */
  lemma {:induction false} InsertTies(dateKey: DateKey, st: SortState, k: Record, x: Record, t: seq<Record>)
    ensures TiesWith(dateKey, st, k, Insert(dateKey, st, x, t))
         == (if Compare(dateKey, st, x, k) == 0 then [x] else []) + TiesWith(dateKey, st, k, t)
    decreases |t|
  {
    if t == [] {
      TiesWithCons(dateKey, st, k, x, []);
    } else if Compare(dateKey, st, x, t[0]) <= 0 {
      TiesWithCons(dateKey, st, k, x, t);
    } else {
      var rest := Insert(dateKey, st, x, t[1..]);
      InsertTies(dateKey, st, k, x, t[1..]);
      TiesWithCons(dateKey, st, k, t[0], rest);
      assert t == [t[0]] + t[1..];
      TiesWithCons(dateKey, st, k, t[0], t[1..]);
      if Compare(dateKey, st, x, k) == 0 && Compare(dateKey, st, t[0], k) == 0 {
        CompareAntisymmetric(dateKey, st, t[0], k);
        CompareTransitive(dateKey, st, x, k, t[0]);
        assert false;
      }
    }
  }

  /** Stability of `sortData`: tied records keep their relative input order. */
  lemma {:induction false} SortDataStable(dateKey: DateKey, st: SortState, s: seq<Record>, k: Record)
    ensures TiesWith(dateKey, st, k, SortData(dateKey, st, s)) == TiesWith(dateKey, st, k, s)
    decreases |s|
  {
    if s != [] {
      SortDataStable(dateKey, st, s[1..], k);
      InsertTies(dateKey, st, k, s[0], SortData(dateKey, st, s[1..]));
      assert s == [s[0]] + s[1..];
      TiesWithCons(dateKey, st, k, s[0], s[1..]);
    }
  }

  /** `sortData` returns a stable, sorted permutation of its input. */
  lemma SortDataCorrect(dateKey: DateKey, st: SortState, s: seq<Record>)
    ensures multiset(SortData(dateKey, st, s)) == multiset(s)
    ensures Sorted(dateKey, st, SortData(dateKey, st, s))
    ensures StableWrt(dateKey, st, SortData(dateKey, st, s), s)
  {
    SortDataSorted(dateKey, st, s);
    forall k
      ensures TiesWith(dateKey, st, k, SortData(dateKey, st, s)) == TiesWith(dateKey, st, k, s)
    {
      SortDataStable(dateKey, st, s, k);
    }
  }

  // ---------------------------------------------------------------------------
  // Uniqueness: a stable sort is determined by its comparator
  // ---------------------------------------------------------------------------

  /** The first record of a sorted sequence compares at most equal to every member. */
  lemma SortedHeadIsLeast(dateKey: DateKey, st: SortState, t: seq<Record>, c: Record)
    requires Sorted(dateKey, st, t)
    requires c in t
    ensures Compare(dateKey, st, t[0], c) <= 0
  {
    var i :| 0 <= i < |t| && t[i] == c;
    if i == 0 {
      CompareReflexive(dateKey, st, c);
    }
  }

  /** A nonempty sequence has a nonempty tie group, so only the empty sequence
      has the tie groups of the empty sequence. */
  lemma StableWrtEmpty(dateKey: DateKey, st: SortState, t: seq<Record>)
    requires StableWrt(dateKey, st, t, [])
    ensures t == []
  {
    if t != [] {
      CompareReflexive(dateKey, st, t[0]);
      TiesWithMembers(dateKey, st, t[0], t, t[0]);
      assert TiesWith(dateKey, st, t[0], t) != TiesWith(dateKey, st, t[0], []);
    }
  }

  /** The heads of two sorted sequences with the same tie groups tie. */
  lemma SortedHeadsTie(dateKey: DateKey, st: SortState, t1: seq<Record>, t2: seq<Record>)
    requires t1 != [] && t2 != []
    requires Sorted(dateKey, st, t1) && Sorted(dateKey, st, t2)
    requires StableWrt(dateKey, st, t1, t2)
    ensures Compare(dateKey, st, t1[0], t2[0]) == 0
  {
    var a, b := t1[0], t2[0];
    // b ties with some member c of t1, and a is at most c.
    CompareReflexive(dateKey, st, b);
    TiesWithMembers(dateKey, st, b, t2, b);
    var c :| c in TiesWith(dateKey, st, b, t1);
    TiesWithMembers(dateKey, st, b, t1, c);
    SortedHeadIsLeast(dateKey, st, t1, c);
    CompareTransitive(dateKey, st, a, c, b);
    // Symmetrically, b is at most a.
    CompareReflexive(dateKey, st, a);
    TiesWithMembers(dateKey, st, a, t1, a);
    var d :| d in TiesWith(dateKey, st, a, t2);
    TiesWithMembers(dateKey, st, a, t2, d);
    SortedHeadIsLeast(dateKey, st, t2, d);
    CompareTransitive(dateKey, st, b, d, a);
    CompareAntisymmetric(dateKey, st, a, b);
  }

  /** Removing the same head from two sequences with the same tie groups leaves
      sequences with the same tie groups. */
  lemma StableWrtTails(dateKey: DateKey, st: SortState, a: Record, t1: seq<Record>, t2: seq<Record>)
    requires StableWrt(dateKey, st, [a] + t1, [a] + t2)
    ensures StableWrt(dateKey, st, t1, t2)
  {
    forall k
      ensures TiesWith(dateKey, st, k, t1) == TiesWith(dateKey, st, k, t2)
    {
      TiesWithCons(dateKey, st, k, a, t1);
      TiesWithCons(dateKey, st, k, a, t2);
      var p := if Compare(dateKey, st, a, k) == 0 then [a] else [];
      assert TiesWith(dateKey, st, k, t1) == (p + TiesWith(dateKey, st, k, t1))[|p|..];
      assert TiesWith(dateKey, st, k, t2) == (p + TiesWith(dateKey, st, k, t2))[|p|..];
    }
  }

  /** Two sorted sequences whose tie groups agree are equal. */
  lemma {:induction false} SortedStableUnique(dateKey: DateKey, st: SortState, t1: seq<Record>, t2: seq<Record>)
    requires Sorted(dateKey, st, t1) && Sorted(dateKey, st, t2)
    requires StableWrt(dateKey, st, t1, t2)
    ensures t1 == t2
    decreases |t1|
  {
    if t2 == [] {
      StableWrtEmpty(dateKey, st, t1);
    } else if t1 == [] {
      StableWrtEmpty(dateKey, st, t2);
    } else {
      var a, b := t1[0], t2[0];
      SortedHeadsTie(dateKey, st, t1, t2);
      CompareAntisymmetric(dateKey, st, a, b);
      // The tie group of a starts with a in t1 and with b in t2.
      assert t1 == [a] + t1[1..] && t2 == [b] + t2[1..];
      CompareReflexive(dateKey, st, a);
      TiesWithCons(dateKey, st, a, a, t1[1..]);
      TiesWithCons(dateKey, st, a, b, t2[1..]);
      assert TiesWith(dateKey, st, a, t1)[0] == a;
      assert TiesWith(dateKey, st, a, t2)[0] == b;
      StableWrtTails(dateKey, st, a, t1[1..], t2[1..]);
      SortedStableUnique(dateKey, st, t1[1..], t2[1..]);
    }
  }

  /** Any sorted, stable rearrangement of `s` is exactly `sortData(s)`: the output
      does not depend on the algorithm the engine uses. */
  lemma SortedStableIsSortData(dateKey: DateKey, st: SortState, s: seq<Record>, t: seq<Record>)
    requires Sorted(dateKey, st, t)
    requires StableWrt(dateKey, st, t, s)
    ensures t == SortData(dateKey, st, s)
  {
    SortDataCorrect(dateKey, st, s);
    SortedStableUnique(dateKey, st, t, SortData(dateKey, st, s));
  }

  /** Sorting an already sorted table changes nothing. */
  lemma SortDataIdempotent(dateKey: DateKey, st: SortState, s: seq<Record>)
    ensures SortData(dateKey, st, SortData(dateKey, st, s)) == SortData(dateKey, st, s)
  {
    var t := SortData(dateKey, st, s);
    SortDataCorrect(dateKey, st, s);
    SortedStableIsSortData(dateKey, st, t, t);
  }

  // ---------------------------------------------------------------------------
  // Direction: a flipped comparison, not a reversed output
  // ---------------------------------------------------------------------------

  function Reverse(s: seq<Record>): (r: seq<Record>)
    ensures |r| == |s|
    ensures forall i :: 0 <= i < |s| ==> r[i] == s[|s| - 1 - i]
    decreases |s|
  {
    if s == [] then [] else Reverse(s[1..]) + [s[0]]
  }

  lemma {:induction false} TiesWithAppend(dateKey: DateKey, st: SortState, k: Record, a: seq<Record>, b: seq<Record>)
    ensures TiesWith(dateKey, st, k, a + b) == TiesWith(dateKey, st, k, a) + TiesWith(dateKey, st, k, b)
    decreases |a|
  {
    if a != [] {
      assert a + b == [a[0]] + (a[1..] + b);
      assert a == [a[0]] + a[1..];
      TiesWithCons(dateKey, st, k, a[0], a[1..] + b);
      TiesWithCons(dateKey, st, k, a[0], a[1..]);
      TiesWithAppend(dateKey, st, k, a[1..], b);
    } else {
      assert a + b == b;
    }
  }

  /** The ties of `k` in a reversed sequence are the reversed ties. */
  lemma {:induction false} TiesWithReverse(dateKey: DateKey, st: SortState, k: Record, s: seq<Record>)
    ensures TiesWith(dateKey, st, k, Reverse(s)) == Reverse(TiesWith(dateKey, st, k, s))
    decreases |s|
  {
    if s != [] {
      TiesWithReverse(dateKey, st, k, s[1..]);
      TiesWithAppend(dateKey, st, k, Reverse(s[1..]), [s[0]]);
      assert s == [s[0]] + s[1..];
      TiesWithCons(dateKey, st, k, s[0], s[1..]);
      TiesWithCons(dateKey, st, k, s[0], []);
      var p := if Compare(dateKey, st, s[0], k) == 0 then [s[0]] else [];
      var q := TiesWith(dateKey, st, k, s[1..]);
      assert Reverse(p + q) == Reverse(q) + p by {
        ReverseAppend(p, q);
      }
    }
  }

  lemma ReverseAppend(p: seq<Record>, q: seq<Record>)
    requires |p| <= 1
    ensures Reverse(p + q) == Reverse(q) + p
  {
    if p != [] {
      assert (p + q)[1..] == q;
    } else {
      assert p + q == q;
    }
  }

  lemma ReverseReverse(s: seq<Record>)
    ensures Reverse(Reverse(s)) == s
  {
  }

  /** Both directions group the same records as ties. */
  lemma {:induction false} TiesWithEitherDirection(dateKey: DateKey, column: Column, k: Record, s: seq<Record>)
    ensures TiesWith(dateKey, SortState(column, Desc), k, s) == TiesWith(dateKey, SortState(column, Asc), k, s)
    decreases |s|
  {
    if s != [] {
      DescendingSwapsArguments(dateKey, column, s[0], k);
      CompareAntisymmetric(dateKey, SortState(column, Asc), s[0], k);
      TiesWithEitherDirection(dateKey, column, k, s[1..]);
    }
  }

  /** Sorting descending equals sorting the reversed input ascending and reversing
      the result: tied records keep their input order in both directions. */
  lemma SortDescendingIsReversedAscending(dateKey: DateKey, column: Column, s: seq<Record>)
    ensures SortData(dateKey, SortState(column, Desc), s)
         == Reverse(SortData(dateKey, SortState(column, Asc), Reverse(s)))
  {
    var asc, desc := SortState(column, Asc), SortState(column, Desc);
    var u := SortData(dateKey, asc, Reverse(s));
    var t := Reverse(u);
    SortDataCorrect(dateKey, asc, Reverse(s));
    forall i, j | 0 <= i < j < |t|
      ensures Compare(dateKey, desc, t[i], t[j]) <= 0
    {
      DescendingSwapsArguments(dateKey, column, t[i], t[j]);
    }
    forall k
      ensures TiesWith(dateKey, desc, k, t) == TiesWith(dateKey, desc, k, s)
    {
      TiesWithEitherDirection(dateKey, column, k, t);
      TiesWithEitherDirection(dateKey, column, k, s);
      TiesWithReverse(dateKey, asc, k, u);
      TiesWithReverse(dateKey, asc, k, s);
      ReverseReverse(TiesWith(dateKey, asc, k, s));
    }
    SortedStableIsSortData(dateKey, desc, s, t);
  }

  /** Reversing the ascending output is NOT the descending sort: two rows with the
      same start date stay in input order when descending. */
  lemma DescendingIsNotReversedOutput(dateKey: DateKey)
    ensures var r1 := Record([0x41], [], [0x30], [], []);
            var r2 := Record([0x42], [], [0x30], [], []);
            && SortData(dateKey, SortState(StartDate, Desc), [r1, r2]) == [r1, r2]
            && Reverse(SortData(dateKey, SortState(StartDate, Asc), [r1, r2])) == [r2, r1]
  {
    var r1 := Record([0x41], [], [0x30], [], []);
    var r2 := Record([0x42], [], [0x30], [], []);
    assert [r1, r2][1..] == [r2];
  }
}
