/** The parts of Python's `list` (and of pandas' `unique()`) that the
    sequence builder relies on: negative indexing, slicing with negative
    bounds, distinct values in first-seen order, and filtering by membership. */
module PyList {
  import opened Wrappers

  function Max0(i: int): nat { if i < 0 then 0 else i }

  /** A slice bound as Python normalises it for a list of length `n`:
      negative bounds count from the end, and both are clamped to `0..n`. */
  function Clamp(i: int, n: nat): (k: nat)
    ensures k <= n
    ensures 0 <= i <= n ==> k == i
    ensures i < 0 && 0 <= i + n ==> k == i + n
    ensures i + n < 0 ==> k == 0
    ensures n < i ==> k == n
  {
    if i < 0 then Max0(n + i) else if i > n then n else i
  }

  /** `s[start:stop]`. */
  function Slice<T>(s: seq<T>, start: int, stop: int): seq<T>
  {
    var lo, hi := Clamp(start, |s|), Clamp(stop, |s|);
    if lo < hi then s[lo..hi] else []
  }

  /** `s[-a:-b]` for `a >= b >= 1` is the window that ends `b` elements
      before the end and starts `a` elements before it (or at the front). */
  lemma NegativeSlice<T>(s: seq<T>, a: nat, b: nat)
    requires 1 <= b <= a
    ensures Max0(|s| - a) <= Max0(|s| - b) <= |s|
    ensures Slice(s, -(a as int), -(b as int)) == s[Max0(|s| - a)..Max0(|s| - b)]
    ensures |Slice(s, -(a as int), -(b as int))| == Max0(|s| - b) - Max0(|s| - a)
    ensures |s| >= a ==> |Slice(s, -(a as int), -(b as int))| == a - b
  {
  }

  /** `s[i]`, with Python's negative indices; `None` is the `IndexError`. */
  function Index<T>(s: seq<T>, i: int): (r: Option<T>)
    ensures r.Some? <==> -|s| <= i < |s|
    ensures 0 <= i < |s| ==> r == Some(s[i])
    ensures -|s| <= i < 0 ==> r == Some(s[|s| + i])
  {
    var k := if i < 0 then |s| + i else i;
    if 0 <= k < |s| then Some(s[k]) else None
  }

  predicate Distinct<T(==)>(s: seq<T>) {
    forall i, j :: 0 <= i < j < |s| ==> s[i] != s[j]
  }

  /** The position of the first occurrence of `x` in `s`: where a value
      landed in a list, as the relevance vector is read. */
  function FirstIndex<T(==)>(s: seq<T>, x: T): (k: nat)
    requires x in s
    ensures k < |s| && s[k] == x
    ensures forall i :: 0 <= i < k ==> s[i] != x
  {
    if s[0] == x then 0 else 1 + FirstIndex(s[1..], x)
  }

  /** The distinct values of `s` in the order of their first occurrence
      (pandas' `Series.unique()`). */
  function Unique<T(==, !new)>(s: seq<T>): (r: seq<T>)
    ensures Distinct(r)
    ensures forall x :: x in r <==> x in s
    ensures |r| <= |s|
  {
    if s == [] then []
    else
      var u := Unique(s[..|s| - 1]);
      var x := s[|s| - 1];
      assert s == s[..|s| - 1] + [x];
      if x in u then u else u + [x]
  }

  lemma {:induction false} FirstIndexPrefix<T>(s: seq<T>, t: seq<T>, x: T)
    requires x in s
    ensures FirstIndex(s + t, x) == FirstIndex(s, x)
  {
    if s[0] != x {
      assert (s + t)[1..] == s[1..] + t;
      FirstIndexPrefix(s[1..], t, x);
    }
  }

  lemma {:induction false} FirstIndexLast<T>(s: seq<T>, x: T)
    requires x !in s
    ensures FirstIndex(s + [x], x) == |s|
  {
    if s != [] {
      assert (s + [x])[1..] == s[1..] + [x];
      FirstIndexLast(s[1..], x);
    }
  }

  /** `Unique` keeps first-seen order: earlier values of the result occur
      earlier in the input. */
  lemma {:induction false} UniqueFirstSeen<T(!new)>(s: seq<T>, i: nat, j: nat)
    requires i < j < |Unique(s)|
    ensures FirstIndex(s, Unique(s)[i]) < FirstIndex(s, Unique(s)[j])
  {
    var p := s[..|s| - 1];
    var x := s[|s| - 1];
    var u := Unique(p);
    assert s == p + [x];
    if j < |u| {
      UniqueFirstSeen(p, i, j);
      FirstIndexPrefix(p, [x], u[i]);
      FirstIndexPrefix(p, [x], u[j]);
    } else {
      FirstIndexPrefix(p, [x], u[i]);
      FirstIndexLast(p, x);
    }
  }

  /** `[x for x in s if x not in excluded]`. */
  function Without<T(==, !new)>(s: seq<T>, excluded: seq<T>): (r: seq<T>)
    ensures forall x :: x in r <==> x in s && x !in excluded
    ensures Distinct(s) ==> Distinct(r)
    ensures |r| <= |s|
  {
    if s == [] then []
    else (if s[0] in excluded then [] else [s[0]]) + Without(s[1..], excluded)
  }
}
