/** Sequence operations the dashboard uses: `Array.prototype.filter`, flattening,
    and the stable comparator sort that `Array.prototype.sort` performs. */
module Seqs {

  // ---------------------------------------------------------------------------
  // Filtering
  // ---------------------------------------------------------------------------

  /** Keeps the elements satisfying `p`, in their original order. */
  function Filter<T>(s: seq<T>, p: T -> bool): (r: seq<T>)
    ensures |r| <= |s|
    ensures forall i :: 0 <= i < |r| ==> p(r[i])
  {
    if |s| == 0 then []
    else (if p(s[0]) then [s[0]] else []) + Filter(s[1..], p)
  }

  /** Each element is kept exactly as often as it occurs, if it satisfies `p`, and dropped otherwise. */
  lemma {:induction false} FilterCount<T>(s: seq<T>, p: T -> bool, x: T)
    ensures multiset(Filter(s, p))[x] == if p(x) then multiset(s)[x] else 0
    decreases |s|
  {
    if |s| > 0 {
      assert s == [s[0]] + s[1..];
      FilterCount(s[1..], p, x);
    }
  }

  lemma FilterMembership<T>(s: seq<T>, p: T -> bool, x: T)
    ensures x in Filter(s, p) <==> x in s && p(x)
  {
    FilterCount(s, p, x);
    assert x in Filter(s, p) <==> x in multiset(Filter(s, p));
  }

  /** Nothing is kept when no element satisfies `p`. */
  lemma {:induction false} FilterNone<T>(s: seq<T>, p: T -> bool)
    requires forall i :: 0 <= i < |s| ==> !p(s[i])
    ensures Filter(s, p) == []
    decreases |s|
  {
    if |s| > 0 {
      FilterNone(s[1..], p);
    }
  }

  /** `a` can be obtained from `b` by deleting elements: an order-preserving subsequence. */
  ghost predicate IsSubsequence<T>(a: seq<T>, b: seq<T>)
    decreases |b|
  {
    |a| == 0 ||
    (|b| > 0 &&
     ((a[0] == b[0] && IsSubsequence(a[1..], b[1..])) || IsSubsequence(a, b[1..])))
  }

  lemma {:induction false} FilterIsSubsequence<T>(s: seq<T>, p: T -> bool)
    ensures IsSubsequence(Filter(s, p), s)
    decreases |s|
  {
    if |s| > 0 {
      FilterIsSubsequence(s[1..], p);
      var r := Filter(s, p);
      if p(s[0]) {
        assert r == [s[0]] + Filter(s[1..], p);
        assert r[0] == s[0] && r[1..] == Filter(s[1..], p);
      } else {
        assert r == Filter(s[1..], p);
      }
    }
  }

  lemma {:induction false} FilterAppend<T>(a: seq<T>, b: seq<T>, p: T -> bool)
    ensures Filter(a + b, p) == Filter(a, p) + Filter(b, p)
    decreases |a|
  {
    if |a| > 0 {
      assert (a + b)[0] == a[0];
      assert (a + b)[1..] == a[1..] + b;
      FilterAppend(a[1..], b, p);
    } else {
      assert a + b == b;
    }
  }

  /** Two predicates that agree on every element of `s` filter it identically. */
  lemma {:induction false} FilterCongruent<T>(s: seq<T>, p: T -> bool, q: T -> bool)
    requires forall i :: 0 <= i < |s| ==> p(s[i]) == q(s[i])
    ensures Filter(s, p) == Filter(s, q)
    decreases |s|
  {
    if |s| > 0 {
      FilterCongruent(s[1..], p, q);
    }
  }

  // ---------------------------------------------------------------------------
  // Flattening
  // ---------------------------------------------------------------------------

  /** Concatenates `f(x)` for every `x` of `s`, in order. */
  function FlatMap<T, U>(s: seq<T>, f: T -> seq<U>): (r: seq<U>)
  {
    if |s| == 0 then [] else f(s[0]) + FlatMap(s[1..], f)
  }

  lemma {:induction false} FlatMapAppend<T, U>(a: seq<T>, b: seq<T>, f: T -> seq<U>)
    ensures FlatMap(a + b, f) == FlatMap(a, f) + FlatMap(b, f)
    decreases |a|
  {
    if |a| > 0 {
      assert (a + b)[0] == a[0];
      assert (a + b)[1..] == a[1..] + b;
      FlatMapAppend(a[1..], b, f);
    } else {
      assert a + b == b;
    }
  }

  // ---------------------------------------------------------------------------
  // Comparator sorting
  // ---------------------------------------------------------------------------

  /** The sign of `cmp(a, b)` is the opposite of the sign of `cmp(b, a)`. */
  ghost predicate Antisymmetric<T(!new)>(cmp: (T, T) -> int) {
    forall a, b :: cmp(a, b) > 0 <==> cmp(b, a) < 0
  }

  /** "Not after" (`cmp <= 0`) is transitive. */
  ghost predicate Transitive<T(!new)>(cmp: (T, T) -> int) {
    forall a, b, c :: cmp(a, b) <= 0 && cmp(b, c) <= 0 ==> cmp(a, c) <= 0
  }

  /** What `Array.prototype.sort` asks of a comparator: a consistent total preorder. */
  ghost predicate TotalPreorder<T(!new)>(cmp: (T, T) -> int) {
    Antisymmetric(cmp) && Transitive(cmp)
  }

  /** Every element is "not after" every later element. */
  ghost predicate SortedBy<T>(s: seq<T>, cmp: (T, T) -> int) {
    forall i, j :: 0 <= i < j < |s| ==> cmp(s[i], s[j]) <= 0
  }

  /** Places `x` in front of the first element it is not after. */
  function Insert<T>(x: T, s: seq<T>, cmp: (T, T) -> int): (r: seq<T>)
    ensures |r| == |s| + 1
    ensures multiset(r) == multiset(s) + multiset{x}
  {
    if |s| == 0 then [x]
    else if cmp(x, s[0]) <= 0 then [x] + s
    else
      assert s == [s[0]] + s[1..];
      [s[0]] + Insert(x, s[1..], cmp)
  }

  /** Stable insertion sort: the result `Array.prototype.sort(cmp)` produces. */
  function SortBy<T>(s: seq<T>, cmp: (T, T) -> int): (r: seq<T>)
    ensures |r| == |s|
    ensures multiset(r) == multiset(s)
  {
    if |s| == 0 then []
    else
      assert s == [s[0]] + s[1..];
      Insert(s[0], SortBy(s[1..], cmp), cmp)
  }

  /** A lower bound of `x` and of every element of `s` bounds every element of the insertion. */
  lemma InsertKeepsLowerBound<T>(y: T, x: T, s: seq<T>, cmp: (T, T) -> int)
    requires cmp(y, x) <= 0
    requires forall k :: 0 <= k < |s| ==> cmp(y, s[k]) <= 0
    ensures forall k :: 0 <= k < |Insert(x, s, cmp)| ==> cmp(y, Insert(x, s, cmp)[k]) <= 0
  {
    var t := Insert(x, s, cmp);
    forall k | 0 <= k < |t|
      ensures cmp(y, t[k]) <= 0
    {
      assert t[k] in multiset(t);
      if t[k] != x {
        assert t[k] in s;
        var m :| 0 <= m < |s| && s[m] == t[k];
      }
    }
  }

  /** Putting a lower bound of a sorted sequence in front keeps it sorted. */
  lemma ConsSorted<T>(y: T, t: seq<T>, cmp: (T, T) -> int)
    requires SortedBy(t, cmp)
    requires forall k :: 0 <= k < |t| ==> cmp(y, t[k]) <= 0
    ensures SortedBy([y] + t, cmp)
  {
    var r := [y] + t;
    forall i, j | 0 <= i < j < |r|
      ensures cmp(r[i], r[j]) <= 0
    {
      assert r[j] == t[j - 1];
      if i > 0 {
        assert r[i] == t[i - 1];
      }
    }
  }

  lemma {:induction false} InsertSorted<T(!new)>(x: T, s: seq<T>, cmp: (T, T) -> int)
    requires TotalPreorder(cmp)
    requires SortedBy(s, cmp)
    ensures SortedBy(Insert(x, s, cmp), cmp)
    decreases |s|
  {
    if |s| == 0 {
      ConsSorted(x, [], cmp);
      assert [x] + [] == [x];
    } else if cmp(x, s[0]) > 0 {
      var tail := s[1..];
      forall k | 0 <= k < |tail|
        ensures cmp(s[0], tail[k]) <= 0
      {
        assert tail[k] == s[k + 1];
      }
      forall i, j | 0 <= i < j < |tail|
        ensures cmp(tail[i], tail[j]) <= 0
      {
        assert tail[i] == s[i + 1] && tail[j] == s[j + 1];
      }
      InsertSorted(x, tail, cmp);
      InsertKeepsLowerBound(s[0], x, tail, cmp);
      ConsSorted(s[0], Insert(x, tail, cmp), cmp);
    } else {
      forall k | 0 <= k < |s|
        ensures cmp(x, s[k]) <= 0
      {
        if k > 0 {
          assert cmp(s[0], s[k]) <= 0;
        }
      }
      ConsSorted(x, s, cmp);
    }
  }

  /** The sort orders its output by the comparator. */
  lemma {:induction false} SortBySorted<T(!new)>(s: seq<T>, cmp: (T, T) -> int)
    requires TotalPreorder(cmp)
    ensures SortedBy(SortBy(s, cmp), cmp)
    decreases |s|
  {
    if |s| > 0 {
      SortBySorted(s[1..], cmp);
      InsertSorted(s[0], SortBy(s[1..], cmp), cmp);
    }
  }

  /** A comparator that reports every pair as equal leaves the order untouched. */
  lemma {:induction false} SortByAllEqual<T(!new)>(s: seq<T>, cmp: (T, T) -> int)
    requires forall a, b :: cmp(a, b) == 0
    ensures SortBy(s, cmp) == s
    decreases |s|
  {
    if |s| > 0 {
      SortByAllEqual(s[1..], cmp);
      assert SortBy(s, cmp) == Insert(s[0], s[1..], cmp);
    }
  }

  /** The elements the comparator ranks equal to `x`. */
  function EquivalentTo<T>(cmp: (T, T) -> int, x: T): T -> bool {
    y => cmp(x, y) == 0
  }

  lemma FilterCons<T>(a: T, b: seq<T>, p: T -> bool)
    ensures p(a) ==> Filter([a] + b, p) == [a] + Filter(b, p)
    ensures !p(a) ==> Filter([a] + b, p) == Filter(b, p)
  {
    assert ([a] + b)[1..] == b;
    assert [] + Filter(b, p) == Filter(b, p);
  }

  /** Two elements in strict order cannot both be equivalent to the same `x`. */
  lemma NotBothEquivalent<T(!new)>(a: T, b: T, cmp: (T, T) -> int, x: T)
    requires TotalPreorder(cmp)
    requires cmp(a, b) > 0
    ensures !(EquivalentTo(cmp, x)(a) && EquivalentTo(cmp, x)(b))
  {
    assert cmp(x, a) == 0 ==> cmp(a, x) <= 0;
    assert cmp(a, x) <= 0 && cmp(x, b) <= 0 ==> cmp(a, b) <= 0;
  }

  /** One step of the stability proof: `h` passes `t0`, and at most one of them is kept by the filter. */
  lemma InsertStableStep<T>(h: T, t0: T, t': seq<T>, cmp: (T, T) -> int, p: T -> bool)
    requires cmp(h, t0) > 0
    requires !(p(h) && p(t0))
    requires Filter(Insert(h, t', cmp), p) == Filter([h] + t', p)
    ensures Filter(Insert(h, [t0] + t', cmp), p) == Filter([h] + ([t0] + t'), p)
  {
    var t := [t0] + t';
    var ins := Insert(h, t', cmp);
    assert t[1..] == t';
    assert Insert(h, t, cmp) == [t0] + ins;
    FilterCons(t0, ins, p);
    FilterCons(h, t', p);
    FilterCons(t0, t', p);
    FilterCons(h, t, p);
    var ft := Filter(t', p);
    if p(h) {
      assert Filter([t0] + ins, p) == Filter(ins, p) == [h] + ft;
      assert Filter([h] + t, p) == [h] + Filter(t, p) == [h] + ft;
    } else if p(t0) {
      assert Filter([t0] + ins, p) == [t0] + Filter(ins, p) == [t0] + ft;
      assert Filter([h] + t, p) == Filter(t, p) == [t0] + ft;
    } else {
      assert Filter([t0] + ins, p) == Filter(ins, p) == ft;
      assert Filter([h] + t, p) == Filter(t, p) == ft;
    }
  }

  lemma {:induction false} InsertStable<T(!new)>(h: T, t: seq<T>, cmp: (T, T) -> int, x: T)
    requires TotalPreorder(cmp)
    ensures Filter(Insert(h, t, cmp), EquivalentTo(cmp, x)) == Filter([h] + t, EquivalentTo(cmp, x))
    decreases |t|
  {
    if |t| > 0 && cmp(h, t[0]) > 0 {
      var t0, t' := t[0], t[1..];
      assert t == [t0] + t';
      InsertStable(h, t', cmp, x);
      NotBothEquivalent(h, t0, cmp, x);
      InsertStableStep(h, t0, t', cmp, EquivalentTo(cmp, x));
    }
  }

  /** Stability: among elements the comparator ranks equal, input order survives. */
  lemma {:induction false} SortByStable<T(!new)>(s: seq<T>, cmp: (T, T) -> int, x: T)
    requires TotalPreorder(cmp)
    ensures Filter(SortBy(s, cmp), EquivalentTo(cmp, x)) == Filter(s, EquivalentTo(cmp, x))
    decreases |s|
  {
    if |s| > 0 {
      SortByStable(s[1..], cmp, x);
      InsertStable(s[0], SortBy(s[1..], cmp), cmp, x);
      assert ([s[0]] + SortBy(s[1..], cmp))[1..] == SortBy(s[1..], cmp);
    }
  }

  /** No two elements of `s` share a key. */
  ghost predicate DistinctBy<T, K>(s: seq<T>, key: T -> K) {
    forall i, j :: 0 <= i < j < |s| ==> key(s[i]) != key(s[j])
  }

  lemma {:induction false} InsertDistinct<T, K>(x: T, s: seq<T>, cmp: (T, T) -> int, key: T -> K)
    requires DistinctBy(s, key)
    requires forall i :: 0 <= i < |s| ==> key(s[i]) != key(x)
    ensures DistinctBy(Insert(x, s, cmp), key)
    decreases |s|
  {
    if |s| > 0 && cmp(x, s[0]) > 0 {
      var t := Insert(x, s[1..], cmp);
      InsertDistinct(x, s[1..], cmp, key);
      forall k | 0 <= k < |t|
        ensures key(s[0]) != key(t[k])
      {
        assert t[k] in multiset(t);
        if t[k] != x {
          assert t[k] in s[1..];
          var j :| 0 <= j < |s[1..]| && s[1..][j] == t[k];
          assert s[j + 1] == t[k];
        }
      }
      var r := [s[0]] + t;
      forall i, j | 0 <= i < j < |r|
        ensures key(r[i]) != key(r[j])
      {
        if i > 0 {
          assert r[i] == t[i - 1] && r[j] == t[j - 1];
        }
      }
    }
  }

  /** Sorting keeps keys distinct: it only reorders. */
  lemma {:induction false} SortByDistinct<T, K>(s: seq<T>, cmp: (T, T) -> int, key: T -> K)
    requires DistinctBy(s, key)
    ensures DistinctBy(SortBy(s, cmp), key)
    decreases |s|
  {
    if |s| > 0 {
      var t := SortBy(s[1..], cmp);
      SortByDistinct(s[1..], cmp, key);
      forall i | 0 <= i < |t|
        ensures key(t[i]) != key(s[0])
      {
        assert t[i] in multiset(t);
        assert t[i] in s[1..];
        var j :| 0 <= j < |s[1..]| && s[1..][j] == t[i];
        assert s[j + 1] == t[i];
      }
      InsertDistinct(s[0], t, cmp, key);
    }
  }

  lemma {:induction false} InsertFlatMap<T, U>(x: T, s: seq<T>, cmp: (T, T) -> int, f: T -> seq<U>)
    ensures multiset(FlatMap(Insert(x, s, cmp), f)) == multiset(f(x)) + multiset(FlatMap(s, f))
    decreases |s|
  {
    if |s| > 0 && cmp(x, s[0]) > 0 {
      InsertFlatMap(x, s[1..], cmp, f);
      assert ([s[0]] + Insert(x, s[1..], cmp))[1..] == Insert(x, s[1..], cmp);
    } else if |s| > 0 {
      assert ([x] + s)[1..] == s;
    }
  }

  /** Reordering whole blocks keeps the multiset of their concatenation. */
  lemma {:induction false} SortByFlatMap<T, U>(s: seq<T>, cmp: (T, T) -> int, f: T -> seq<U>)
    ensures multiset(FlatMap(SortBy(s, cmp), f)) == multiset(FlatMap(s, f))
    decreases |s|
  {
    if |s| > 0 {
      SortByFlatMap(s[1..], cmp, f);
      InsertFlatMap(s[0], SortBy(s[1..], cmp), cmp, f);
    }
  }
}
