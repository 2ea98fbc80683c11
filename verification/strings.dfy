/** The `std::string` operations the filter and the parser rely on:
    `find` (first occurrence, `npos` when absent), prefix tests and
    `replace` of a sub-range.
 */
module Strings {
  import opened Words

  /** `p` occurs in `s` starting at index `i`. */
  predicate OccursAt<T(==)>(s: seq<T>, p: seq<T>, i: nat)
  {
    i + |p| <= |s| && s[i..i + |p|] == p
  }

  predicate IsPrefix<T(==)>(p: seq<T>, s: seq<T>)
  {
    |p| <= |s| && s[..|p|] == p
  }

  /** `s.find(p, from)`: the first occurrence of `p` at or after `from`. */
  function FindFrom<T(==)>(s: seq<T>, p: seq<T>, from: nat): (r: Option<nat>)
    decreases |s| - from
    ensures r.Some? ==> from <= r.value && OccursAt(s, p, r.value)
    ensures r.Some? ==> forall j :: from <= j < r.value ==> !OccursAt(s, p, j)
    ensures r.None? ==> forall j :: from <= j ==> !OccursAt(s, p, j)
  {
    if from + |p| > |s| then None
    else if s[from..from + |p|] == p then Some(from)
    else FindFrom(s, p, from + 1)
  }

  /** `s.find(p)`; `None` plays the part of `std::string::npos`. */
  function Find<T(==)>(s: seq<T>, p: seq<T>): (r: Option<nat>)
    ensures r.Some? ==> OccursAt(s, p, r.value)
    ensures r.Some? ==> forall j :: 0 <= j < r.value ==> !OccursAt(s, p, j)
    ensures r.None? <==> forall j :: 0 <= j ==> !OccursAt(s, p, j)
  {
    FindFrom(s, p, 0)
  }

  /** `s.find(p) != npos` */
  predicate ContainsSub<T(==)>(s: seq<T>, p: seq<T>)
  {
    Find(s, p).Some?
  }

  /** `s.find(p) == 0` holds exactly when `p` is a prefix of `s`. */
  lemma FindZeroIffPrefix<T>(s: seq<T>, p: seq<T>)
    ensures Find(s, p) == Some(0) <==> IsPrefix(p, s)
  {
    if IsPrefix(p, s) {
      assert OccursAt(s, p, 0);
    }
  }

  /** The empty pattern occurs in every string, at index 0. */
  lemma FindEmpty<T>(s: seq<T>)
    ensures Find(s, []) == Some(0)
  {
    assert OccursAt(s, [], 0);
  }

  /** The middle part of a three-part concatenation is where it was put. */
  lemma MiddleSlice<T>(a: seq<T>, b: seq<T>, c: seq<T>)
    ensures (a + b + c)[|a|..|a| + |b|] == b
  {
  }

  /** `s.replace(i, n, t)` */
  function ReplaceRange<T>(s: seq<T>, i: nat, n: nat, t: seq<T>): (r: seq<T>)
    requires i + n <= |s|
    ensures |r| == |s| - n + |t|
    ensures r[..i] == s[..i] && r[i..i + |t|] == t && r[i + |t|..] == s[i + n..]
  {
    s[..i] + t + s[i + n..]
  }
}
