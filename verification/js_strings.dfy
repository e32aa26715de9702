/** ECMAScript string values as the component sees them: sequences of UTF-16 code
    units, ordered by the relational `<` operator and searched by
    `String.prototype.includes`. */
module JsStrings {

  /** One UTF-16 code unit, the element type of an ECMAScript string value. */
  type CodeUnit = u: int | 0 <= u < 0x1_0000

  type JsString = seq<CodeUnit>

  // ---------------------------------------------------------------------------
  // Substring search: `s.includes(t)`
  // ---------------------------------------------------------------------------

  /** `t` occurs in `s` starting at code-unit index `i`. */
  ghost predicate OccursAt(s: JsString, t: JsString, i: int) {
    0 <= i && i + |t| <= |s| && s[i..i + |t|] == t
  }

  /** `t` is a (case-sensitive, code-unit) substring of `s`. */
  ghost predicate HasSubstring(s: JsString, t: JsString) {
    exists i :: OccursAt(s, t, i)
  }

  /** Scans `s` for `t` from index `from` onwards. */
  function IncludesFrom(s: JsString, t: JsString, from: nat): (b: bool)
    requires from <= |s|
    ensures b <==> exists i :: from <= i && OccursAt(s, t, i)
    decreases |s| - from
  {
    if from + |t| > |s| then false
    else if s[from..from + |t|] == t then
      assert OccursAt(s, t, from);
      true
    else IncludesFrom(s, t, from + 1)
  }

  /** `s.includes(t)`, with the default start position 0. */
  function Includes(s: JsString, t: JsString): (b: bool)
    ensures b <==> HasSubstring(s, t)
  {
    IncludesFrom(s, t, 0)
  }

  /** An occurrence of `t` at `i` starts with `t`'s first code unit. */
  lemma OccursAtStartsWith(s: JsString, t: JsString, i: int)
    requires OccursAt(s, t, i) && t != []
    ensures s[i] == t[0]
  {
    assert s[i..i + |t|][0] == s[i];
  }

  /** Every string includes the empty string. */
  lemma IncludesEmpty(s: JsString)
    ensures Includes(s, [])
  {
    assert OccursAt(s, [], 0);
  }

  // ---------------------------------------------------------------------------
  // Relational comparison: `x < y` on two strings
  // ---------------------------------------------------------------------------

  ghost predicate IsPrefix(p: JsString, s: JsString) {
    |p| <= |s| && s[..|p|] == p
  }

  /** `k` is the first index at which `x` and `y` differ. */
  ghost predicate FirstDifference(x: JsString, y: JsString, k: int) {
    0 <= k < |x| && k < |y| && x[..k] == y[..k] && x[k] != y[k]
  }

  /** The IsLessThan abstract operation of ECMA-262 for two strings, in the
      standard's own steps: if `y` is a prefix of `x` the answer is false; else if
      `x` is a prefix of `y` it is true; else the first differing code units decide. */
  ghost predicate IsLessThan(x: JsString, y: JsString) {
    if IsPrefix(y, x) then false
    else if IsPrefix(x, y) then true
    else exists k :: FirstDifference(x, y, k) && x[k] < y[k]
  }

  /** When the first code units differ, they decide IsLessThan. */
  lemma IsLessThanHeadsDiffer(x: JsString, y: JsString)
    requires x != [] && y != [] && x[0] != y[0]
    ensures IsLessThan(x, y) == (x[0] < y[0])
  {
    assert !IsPrefix(y, x) && !IsPrefix(x, y);
    assert FirstDifference(x, y, 0);
    forall k | FirstDifference(x, y, k)
      ensures k == 0
    {
    }
  }

  /** A common first code unit does not change IsLessThan. */
  lemma IsLessThanCommonHead(x: JsString, y: JsString)
    requires x != [] && y != [] && x[0] == y[0]
    ensures IsLessThan(x, y) == IsLessThan(x[1..], y[1..])
  {
    assert IsPrefix(y, x) <==> IsPrefix(y[1..], x[1..]) by {
      if IsPrefix(y[1..], x[1..]) {
        assert x[..|y|] == [x[0]] + x[1..][..|y| - 1];
        assert y == [y[0]] + y[1..];
      }
    }
    assert IsPrefix(x, y) <==> IsPrefix(x[1..], y[1..]) by {
      if IsPrefix(x[1..], y[1..]) {
        assert y[..|x|] == [y[0]] + y[1..][..|x| - 1];
        assert x == [x[0]] + x[1..];
      }
    }
    forall k | FirstDifference(x, y, k)
      ensures k > 0 && FirstDifference(x[1..], y[1..], k - 1)
    {
      assert x[1..][..k - 1] == x[..k][1..];
      assert y[1..][..k - 1] == y[..k][1..];
    }
    forall k | FirstDifference(x[1..], y[1..], k)
      ensures FirstDifference(x, y, k + 1)
    {
      assert x[..k + 1] == [x[0]] + x[1..][..k];
      assert y[..k + 1] == [y[0]] + y[1..][..k];
    }
  }

  /** `x < y` for two string operands, computed code unit by code unit; it is the
      standard's IsLessThan. */
  function Less(x: JsString, y: JsString): (b: bool)
    ensures b == IsLessThan(x, y)
    decreases |x|
  {
    if y == [] then
      assert IsPrefix(y, x);
      false
    else if x == [] then
      assert !IsPrefix(y, x) && IsPrefix(x, y);
      true
    else if x[0] != y[0] then
      IsLessThanHeadsDiffer(x, y);
      x[0] < y[0]
    else
      IsLessThanCommonHead(x, y);
      Less(x[1..], y[1..])
  }

  lemma {:induction false} LessIrreflexive(x: JsString)
    ensures !Less(x, x)
    decreases |x|
  {
    if x != [] {
      LessIrreflexive(x[1..]);
    }
  }

  lemma {:induction false} LessAsymmetric(x: JsString, y: JsString)
    ensures Less(x, y) ==> !Less(y, x)
    decreases |x|
  {
    if x != [] && y != [] && x[0] == y[0] {
      LessAsymmetric(x[1..], y[1..]);
    }
  }

  lemma {:induction false} LessTransitive(x: JsString, y: JsString, z: JsString)
    ensures Less(x, y) && Less(y, z) ==> Less(x, z)
    decreases |x|
  {
    if x != [] && y != [] && z != [] && x[0] == y[0] && y[0] == z[0] {
      LessTransitive(x[1..], y[1..], z[1..]);
    }
  }

  /** Two different strings are always ordered one way or the other. */
  lemma {:induction false} LessTrichotomy(x: JsString, y: JsString)
    ensures x == y || Less(x, y) || Less(y, x)
    decreases |x|
  {
    if x != [] && y != [] && x[0] == y[0] {
      LessTrichotomy(x[1..], y[1..]);
      if x[1..] == y[1..] {
        assert x == [x[0]] + x[1..] && y == [y[0]] + y[1..];
      }
    }
  }
}
