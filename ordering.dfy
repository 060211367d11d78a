/**
 * The orderings pandas imposes on tables: `groupby` lists its groups in
 * ascending key order, and `sort_values` sorts rows by a comparison.
 * Keys are kept as a strictly sorted sequence without duplicates; rows are
 * sorted by an insertion sort.
 */
module Ordering {

  /** `less` is irreflexive and transitive. */
  ghost predicate IsStrictOrder<T(!new)>(less: (T, T) -> bool) {
    && (forall a :: !less(a, a))
    && (forall a, b, c :: less(a, b) && less(b, c) ==> less(a, c))
  }

  /** The natural order of the integers. */
  predicate IntLess(a: int, b: int) {
    a < b
  }

  /** Any two distinct values are comparable under `less`. */
  ghost predicate IsTotal<T(!new)>(less: (T, T) -> bool) {
    forall a, b :: a != b ==> less(a, b) || less(b, a)
  }

  predicate StrictlySorted<T>(s: seq<T>, less: (T, T) -> bool) {
    forall i, j :: 0 <= i < j < |s| ==> less(s[i], s[j])
  }

  /** No element is strictly `before` an element to its left. */
  predicate SortedBy<T>(s: seq<T>, before: (T, T) -> bool) {
    forall i, j :: 0 <= i < j < |s| ==> !before(s[j], s[i])
  }

  /** Adds the key `x` to the strictly sorted key list `s`. */
  function InsertKey<T(!new, ==)>(s: seq<T>, x: T, less: (T, T) -> bool): (r: seq<T>)
    requires IsStrictOrder(less) && IsTotal(less)
    requires StrictlySorted(s, less)
    ensures StrictlySorted(r, less)
    ensures forall k :: k in r <==> k in s || k == x
  {
    if s == [] then [x]
    else if x == s[0] then s
    else if less(x, s[0]) then [x] + s
    else
      var t := InsertKey(s[1..], x, less);
      assert forall k :: k in t ==> less(s[0], k);
      [s[0]] + t
  }

  /** The distinct values of `xs`, ascending: the group keys of `groupby(sort=True)`. */
  function SortedKeys<T(!new, ==)>(xs: seq<T>, less: (T, T) -> bool): (r: seq<T>)
    requires IsStrictOrder(less) && IsTotal(less)
    ensures StrictlySorted(r, less)
    ensures forall k :: k in r <==> k in xs
  {
    if xs == [] then []
    else InsertKey(SortedKeys(xs[..|xs| - 1], less), xs[|xs| - 1], less)
  }

  /** In a strictly sorted sequence every value occurs once. */
  lemma StrictlySortedDistinct<T(!new)>(s: seq<T>, less: (T, T) -> bool, i: int, j: int)
    requires IsStrictOrder(less) && StrictlySorted(s, less)
    requires 0 <= i < j < |s|
    ensures s[i] != s[j]
  {
    assert less(s[i], s[j]);
  }

  lemma InsertFront<T(!new)>(s: seq<T>, x: T, before: (T, T) -> bool)
    requires IsStrictOrder(before) && SortedBy(s, before)
    requires s != [] && before(x, s[0])
    ensures SortedBy([x] + s, before)
  {
    forall j | 0 <= j < |s| ensures !before(s[j], x) {
      var a, b := s[j], s[0];
      assert before(a, x) ==> before(a, b);
    }
  }

  lemma SortedCons<T>(h: T, t: seq<T>, before: (T, T) -> bool)
    requires SortedBy(t, before)
    requires forall k :: k in t ==> !before(k, h)
    ensures SortedBy([h] + t, before)
  {
    forall i, j | 0 <= i < j < |[h] + t| ensures !before(([h] + t)[j], ([h] + t)[i]) {
      assert ([h] + t)[j] == t[j - 1];
      if i > 0 {
        assert ([h] + t)[i] == t[i - 1];
      }
    }
  }

  /** Nothing in a permutation of `s[1..]` plus `x` is before `s[0]`, when `x` is not. */
  lemma NoneBeforeHead<T>(s: seq<T>, t: seq<T>, x: T, before: (T, T) -> bool)
    requires s != [] && SortedBy(s, before) && !before(x, s[0])
    requires multiset(t) == multiset(s[1..]) + multiset{x}
    ensures forall k :: k in t ==> !before(k, s[0])
  {
    forall k | k in t ensures !before(k, s[0]) {
      assert k in multiset(t);
      if k != x {
        assert k in multiset(s[1..]);
        var j :| 0 <= j < |s| - 1 && s[1..][j] == k;
        assert s[j + 1] == k;
      }
    }
  }

  /** Puts `x` after every element it is not strictly `before`. */
  function InsertStable<T(!new)>(s: seq<T>, x: T, before: (T, T) -> bool): (r: seq<T>)
    requires IsStrictOrder(before) && SortedBy(s, before)
    ensures SortedBy(r, before)
    ensures multiset(r) == multiset(s) + multiset{x}
  {
    if s == [] then [x]
    else if before(x, s[0]) then
      InsertFront(s, x, before);
      [x] + s
    else
      var t := InsertStable(s[1..], x, before);
      NoneBeforeHead(s, t, x, before);
      SortedCons(s[0], t, before);
      assert s == [s[0]] + s[1..];
      assert multiset([s[0]] + t) == multiset{s[0]} + multiset(t);
      [s[0]] + t
  }

  /**
   * A sort by `before` that inserts each element after the equal ones
   * already placed: the result is a permutation of `xs` in which no element
   * is strictly before one to its left. The order it leaves among elements
   * that `before` does not separate is not part of its contract.
   */
  function SortStable<T(!new)>(xs: seq<T>, before: (T, T) -> bool): (r: seq<T>)
    requires IsStrictOrder(before)
    ensures SortedBy(r, before)
    ensures multiset(r) == multiset(xs)
  {
    if xs == [] then []
    else
      assert xs == xs[..|xs| - 1] + [xs[|xs| - 1]];
      InsertStable(SortStable(xs[..|xs| - 1], before), xs[|xs| - 1], before)
  }

  /**
   * `r` is `xs` with some elements left out and the others kept in their
   * order, each occurrence at most once: what a boolean-mask filter gives.
   */
  predicate IsSubsequence<T(==)>(r: seq<T>, xs: seq<T>)
    decreases |xs|
  {
    if r == [] then true
    else if xs == [] then false
    else
      || (r[|r| - 1] == xs[|xs| - 1] && IsSubsequence(r[..|r| - 1], xs[..|xs| - 1]))
      || IsSubsequence(r, xs[..|xs| - 1])
  }

  /**
   * One step of a filter over the last element: keeping or dropping the
   * last element of `xs` keeps a subsequence of `xs[..|xs| - 1]` a
   * subsequence of `xs`.
   */
  lemma SubsequenceStep<T>(r: seq<T>, q: seq<T>, xs: seq<T>, keep: bool)
    requires xs != [] && IsSubsequence(q, xs[..|xs| - 1])
    requires r == q + (if keep then [xs[|xs| - 1]] else [])
    ensures IsSubsequence(r, xs)
  {
    if keep {
      assert r[..|r| - 1] == q;
    } else {
      assert r == q;
    }
  }

  /** Prepending to the source keeps a subsequence, with or without prepending to it too. */
  lemma {:induction false} SubsequenceCons<T>(r: seq<T>, xs: seq<T>, x: T)
    requires IsSubsequence(r, xs)
    ensures IsSubsequence([x] + r, [x] + xs) && IsSubsequence(r, [x] + xs)
    decreases |xs|
  {
    if xs == [] {
      assert r == [];
      assert ([x] + r)[..0] == [];
    } else {
      var p, y := xs[..|xs| - 1], xs[|xs| - 1];
      assert ([x] + xs)[..|xs|] == [x] + p;
      if r == [] {
        SubsequenceCons(r, p, x);
        assert ([x] + r)[..|r|] == [];
      } else if r[|r| - 1] == y && IsSubsequence(r[..|r| - 1], p) {
        SubsequenceCons(r[..|r| - 1], p, x);
        assert ([x] + r)[..|r|] == [x] + r[..|r| - 1];
      } else {
        SubsequenceCons(r, p, x);
      }
    }
  }

  /** No value occurs twice in `s`. */
  predicate Distinct<T(==)>(s: seq<T>) {
    forall i, j :: 0 <= i < j < |s| ==> s[i] != s[j]
  }

  lemma {:induction false} DistinctCount<T>(s: seq<T>, x: T)
    requires Distinct(s)
    ensures multiset(s)[x] <= 1
  {
    if s != [] {
      var p := s[..|s| - 1];
      assert s == p + [s[|s| - 1]];
      assert Distinct(p);
      DistinctCount(p, x);
      assert s[|s| - 1] == x ==> x !in p;
    }
  }

  lemma RepeatCount<T>(t: seq<T>, i: int, j: int)
    requires 0 <= i < j < |t|
    ensures t[i] == t[j] ==> multiset(t)[t[i]] >= 2
  {
    assert t == t[..j] + t[j..];
    assert t[i] in t[..j] && t[j] in t[j..];
  }

  /** A permutation of a sequence without repeats has no repeats. */
  lemma DistinctPermutation<T>(s: seq<T>, t: seq<T>)
    requires Distinct(s) && multiset(s) == multiset(t)
    ensures Distinct(t)
  {
    forall i, j | 0 <= i < j < |t| ensures t[i] != t[j] {
      RepeatCount(t, i, j);
      DistinctCount(s, t[i]);
    }
  }

  /** Python's comparison of two strings: lexicographic by code point. */
  predicate StrLess(a: string, b: string) {
    if a == [] then b != []
    else if b == [] then false
    else if a[0] != b[0] then a[0] < b[0]
    else StrLess(a[1..], b[1..])
  }

  lemma {:induction false} StrLessIrreflexive(a: string)
    ensures !StrLess(a, a)
  {
    if a != [] {
      StrLessIrreflexive(a[1..]);
    }
  }

  lemma {:induction false} StrLessTransitive(a: string, b: string, c: string)
    requires StrLess(a, b) && StrLess(b, c)
    ensures StrLess(a, c)
  {
    if a != [] && b != [] && c != [] && a[0] == b[0] && b[0] == c[0] {
      StrLessTransitive(a[1..], b[1..], c[1..]);
    }
  }

  lemma {:induction false} StrLessTotal(a: string, b: string)
    requires a != b
    ensures StrLess(a, b) || StrLess(b, a)
  {
    if a != [] && b != [] && a[0] == b[0] {
      assert a == [a[0]] + a[1..] && b == [b[0]] + b[1..];
      StrLessTotal(a[1..], b[1..]);
    }
  }

  /** Text comparison is a strict total order, so it can key a `groupby`. */
  lemma StrLessIsStrictTotal()
    ensures IsStrictOrder(StrLess) && IsTotal(StrLess)
  {
    forall a ensures !StrLess(a, a) {
      StrLessIrreflexive(a);
    }
    forall a, b, c | StrLess(a, b) && StrLess(b, c) ensures StrLess(a, c) {
      StrLessTransitive(a, b, c);
    }
    forall a, b | a != b ensures StrLess(a, b) || StrLess(b, a) {
      StrLessTotal(a, b);
    }
  }
}
