/** The search box: `data.filter((row) => row.symbol.includes(search))`. */
module SymbolFilter {
  import opened JsStrings
  import opened Records

  /** `sub` is `s` with some elements left out, the rest in their original order. */
  ghost predicate IsSubsequence(sub: seq<Record>, s: seq<Record>)
    decreases |s|
  {
    if sub == [] then true
    else if s == [] then false
    else (sub[0] == s[0] && IsSubsequence(sub[1..], s[1..])) || IsSubsequence(sub, s[1..])
  }

  /** The row is shown for this search text: its symbol contains the text, with
      case significant. */
  ghost predicate Matches(r: Record, search: JsString) {
    HasSubstring(r.symbol, search)
  }

  /** The rows whose symbol includes `search`, in their original order. Every
      matching row is kept as often as it occurs; no other row is kept. */
  function FilterBySymbol(data: seq<Record>, search: JsString): (r: seq<Record>)
    ensures IsSubsequence(r, data)
    ensures forall x :: x in r <==> x in data && Matches(x, search)
    ensures forall x :: Matches(x, search) ==> multiset(r)[x] == multiset(data)[x]
    decreases |data|
  {
    if data == [] then []
    else
      assert data == [data[0]] + data[1..];
      var rest := FilterBySymbol(data[1..], search);
      if Includes(data[0].symbol, search) then
        assert ([data[0]] + rest)[1..] == rest;
        [data[0]] + rest
      else rest
  }

  /** An empty search shows every row, in order. */
  lemma {:induction false} FilterEmptySearch(data: seq<Record>)
    ensures FilterBySymbol(data, []) == data
    decreases |data|
  {
    if data != [] {
      IncludesEmpty(data[0].symbol);
      FilterEmptySearch(data[1..]);
    }
  }

  /** Filtering twice with the same text is filtering once. */
  lemma {:induction false} FilterIdempotent(data: seq<Record>, search: JsString)
    ensures FilterBySymbol(FilterBySymbol(data, search), search) == FilterBySymbol(data, search)
    decreases |data|
  {
    if data != [] {
      FilterIdempotent(data[1..], search);
      var rest := FilterBySymbol(data[1..], search);
      if Includes(data[0].symbol, search) {
        assert ([data[0]] + rest)[1..] == rest;
      }
    }
  }

  /** The match is case-sensitive: "AAA" does not include "aa". */
  lemma FilterIsCaseSensitive()
    ensures var row := Record([0x41, 0x41, 0x41], [], [], [], []);
            FilterBySymbol([row], [0x61, 0x61]) == []
  {
    var row := Record([0x41, 0x41, 0x41], [], [], [], []);
    forall i | OccursAt(row.symbol, [0x61, 0x61], i)
      ensures false
    {
      OccursAtStartsWith(row.symbol, [0x61, 0x61], i);
    }
    assert [row][1..] == [];
  }
}
