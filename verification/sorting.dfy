/** A stable insertion sort over any total preorder. It stands in for the three
    orderings the server relies on: JavaScript's stable `Array.prototype.sort`
    (edges by timestamp) and the database's `orderBy` (devices by creation time,
    schedules by device id then version). */
module Sorting {

  /** `le` is total and transitive: a comparator that may tie distinct values. */
  ghost predicate TotalPreorder<T(!new)>(le: (T, T) -> bool) {
    && (forall a, b :: le(a, b) || le(b, a))
    && (forall a, b, c :: le(a, b) && le(b, c) ==> le(a, c))
  }

  predicate SortedBy<T>(s: seq<T>, le: (T, T) -> bool) {
    forall i, j :: 0 <= i < j < |s| ==> le(s[i], s[j])
  }

  /** `x` and `y` compare equal under `le`. */
  predicate Tied<T>(le: (T, T) -> bool, x: T, y: T) {
    le(x, y) && le(y, x)
  }

  /** The subsequence of `s` tied with `k`, in the order of `s`. A sort is stable
      exactly when it leaves every such subsequence unchanged. */
  function Ties<T>(s: seq<T>, le: (T, T) -> bool, k: T): (r: seq<T>)
    ensures |r| <= |s|
    ensures forall i :: 0 <= i < |r| ==> Tied(le, r[i], k)
  {
    if s == [] then [] else (if Tied(le, s[0], k) then [s[0]] else []) + Ties(s[1..], le, k)
  }

  /** A value below every element of `u` and below `x` is below every element
      of any rearrangement `t` of `u` with `x` added. */
  lemma BelowAll<T>(a: T, u: seq<T>, x: T, t: seq<T>, le: (T, T) -> bool)
    requires forall j :: 0 <= j < |u| ==> le(a, u[j])
    requires le(a, x)
    requires multiset(t) == multiset(u) + multiset{x}
    ensures forall j :: 0 <= j < |t| ==> le(a, t[j])
  {
    forall j | 0 <= j < |t|
      ensures le(a, t[j])
    {
      assert t[j] in multiset(t);
      if t[j] != x {
        assert t[j] in multiset(u);
        assert t[j] in u;
      }
    }
  }

  lemma SortedCons<T>(a: T, t: seq<T>, le: (T, T) -> bool)
    requires SortedBy(t, le)
    requires forall j :: 0 <= j < |t| ==> le(a, t[j])
    ensures SortedBy([a] + t, le)
  {
  }

  /** Inserts `x` before the first element it is not above, so that `x` lands
      ahead of every element it ties with. */
  function InsertBy<T(!new)>(x: T, s: seq<T>, le: (T, T) -> bool): (r: seq<T>)
    requires TotalPreorder(le)
    requires SortedBy(s, le)
    ensures SortedBy(r, le)
    ensures multiset(r) == multiset(s) + multiset{x}
  {
    if s == [] || le(x, s[0]) then
      [x] + s
    else
      var t := InsertBy(x, s[1..], le);
      assert le(s[0], x);
      BelowAll(s[0], s[1..], x, t, le);
      SortedCons(s[0], t, le);
      assert s == [s[0]] + s[1..];
      [s[0]] + t
  }

  /** Stable insertion sort. */
  function SortBy<T(!new)>(s: seq<T>, le: (T, T) -> bool): (r: seq<T>)
    requires TotalPreorder(le)
    ensures SortedBy(r, le)
    ensures multiset(r) == multiset(s)
    ensures |r| == |s|
  {
    if s == [] then []
    else
      assert s == [s[0]] + s[1..];
      InsertBy(s[0], SortBy(s[1..], le), le)
  }

  lemma TiesCons<T>(x: T, s: seq<T>, le: (T, T) -> bool, k: T)
    ensures Ties([x] + s, le, k) == (if Tied(le, x, k) then [x] else []) + Ties(s, le, k)
  {
    assert ([x] + s)[1..] == s;
  }

  /** Ties distribute over concatenation: the tied elements of `a` come first. */
  lemma {:induction false} TiesAppend<T>(a: seq<T>, b: seq<T>, le: (T, T) -> bool, k: T)
    ensures Ties(a + b, le, k) == Ties(a, le, k) + Ties(b, le, k)
  {
    if a == [] {
      assert a + b == b;
    } else {
      assert a + b == [a[0]] + (a[1..] + b);
      assert a == [a[0]] + a[1..];
      TiesCons(a[0], a[1..] + b, le, k);
      TiesCons(a[0], a[1..], le, k);
      TiesAppend(a[1..], b, le, k);
    }
  }

  /** Inserting `x` into a sorted sequence puts it ahead of everything it ties with. */
  lemma {:induction false} InsertTies<T(!new)>(x: T, s: seq<T>, le: (T, T) -> bool, k: T)
    requires TotalPreorder(le)
    requires SortedBy(s, le)
    ensures Ties(InsertBy(x, s, le), le, k) == (if Tied(le, x, k) then [x] else []) + Ties(s, le, k)
  {
    if s == [] || le(x, s[0]) {
      TiesCons(x, s, le, k);
    } else {
      var t := InsertBy(x, s[1..], le);
      InsertTies(x, s[1..], le, k);
      TiesCons(s[0], t, le, k);
      assert s == [s[0]] + s[1..];
      TiesCons(s[0], s[1..], le, k);
      // s[0] sits strictly below x, so the two never tie with the same k.
      assert !(Tied(le, x, k) && Tied(le, s[0], k));
    }
  }

  /** The sort is stable: among tied elements the input order survives. */
  lemma {:induction false} SortStable<T(!new)>(s: seq<T>, le: (T, T) -> bool, k: T)
    requires TotalPreorder(le)
    ensures Ties(SortBy(s, le), le, k) == Ties(s, le, k)
  {
    if s != [] {
      SortStable(s[1..], le, k);
      InsertTies(s[0], SortBy(s[1..], le), le, k);
      assert s == [s[0]] + s[1..];
      TiesCons(s[0], s[1..], le, k);
    }
  }

  /** No element occurs twice. */
  predicate Distinct<T(==)>(s: seq<T>) {
    forall i, j :: 0 <= i < j < |s| ==> s[i] != s[j]
  }

  lemma {:induction false} DistinctAtMostOnce<T>(s: seq<T>, x: T)
    requires Distinct(s)
    ensures multiset(s)[x] <= 1
  {
    if s != [] {
      assert s == [s[0]] + s[1..];
      DistinctAtMostOnce(s[1..], x);
      if x == s[0] {
        assert x !in s[1..];
      }
    }
  }

  lemma TwoPositions<T>(s: seq<T>, i: int, j: int)
    requires 0 <= i < j < |s| && s[i] == s[j]
    ensures multiset(s)[s[i]] >= 2
  {
    assert s == s[..j] + s[j..];
    assert s[i] in s[..j];
    assert s[j] in s[j..];
  }

  /** Reordering keeps a sequence free of repeats. */
  lemma PermutationKeepsDistinct<T>(a: seq<T>, b: seq<T>)
    requires multiset(a) == multiset(b) && Distinct(a)
    ensures Distinct(b)
  {
    forall i, j | 0 <= i < j < |b|
      ensures b[i] != b[j]
    {
      if b[i] == b[j] {
        TwoPositions(b, i, j);
        DistinctAtMostOnce(a, b[i]);
      }
    }
  }
}
