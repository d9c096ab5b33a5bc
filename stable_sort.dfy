/** Python's `list.sort(key=...)` and `sorted(...)`: a stable sort, modelled
    as insertion sort on sequences. `lt(a, b)` says that `a` must come before
    `b` (for `key=k` it is `k(a) < k(b)`, for `reverse=True` it is
    `k(a) > k(b)`); elements that are not ordered either way keep their
    original relative order. */
module StableSort {
  import opened Seqs

  /** The orders a sort key induces: irreflexive, transitive, and with a
      transitive "neither is smaller" relation. */
  ghost predicate StrictWeakOrder<T(!new)>(lt: (T, T) -> bool) {
    && (forall a :: !lt(a, a))
    && (forall a, b, c :: lt(a, b) && lt(b, c) ==> lt(a, c))
    && (forall a, b, c :: lt(a, c) ==> lt(a, b) || lt(b, c))
  }

  /** No later element of `s` must come before an earlier one. */
  ghost predicate SortedBy<T>(s: seq<T>, lt: (T, T) -> bool) {
    forall i, j :: 0 <= i < j < |s| ==> !lt(s[j], s[i])
  }

  /** Neither element has to come before the other. */
  predicate Equivalent<T>(lt: (T, T) -> bool, a: T, b: T) {
    !lt(a, b) && !lt(b, a)
  }

  /** Places `x` after every element of `s` that need not follow it. */
  function Insert<T>(x: T, s: seq<T>, lt: (T, T) -> bool): (r: seq<T>)
    ensures multiset(r) == multiset(s) + multiset{x}
    ensures |r| == |s| + 1
  {
    if s == [] || lt(x, s[0]) then [x] + s
    else
      assert s == [s[0]] + s[1..];
      [s[0]] + Insert(x, s[1..], lt)
  }

  /** The stable sort of `s`: each element is inserted, in input order,
      behind the equivalent elements already placed. */
  function Sort<T>(s: seq<T>, lt: (T, T) -> bool): (r: seq<T>)
    ensures multiset(r) == multiset(s)
    ensures |r| == |s|
  {
    if s == [] then []
    else
      assert s == s[..|s| - 1] + [s[|s| - 1]];
      Insert(s[|s| - 1], Sort(s[..|s| - 1], lt), lt)
  }

  lemma {:induction false} SortedTail<T>(s: seq<T>, lt: (T, T) -> bool)
    requires s != [] && SortedBy(s, lt)
    ensures SortedBy(s[1..], lt)
  {
    forall i, j | 0 <= i < j < |s[1..]| ensures !lt(s[1..][j], s[1..][i]) {
      assert s[1..][j] == s[j + 1] && s[1..][i] == s[i + 1];
    }
  }

  lemma {:induction false} SortedCons<T>(x: T, s: seq<T>, lt: (T, T) -> bool)
    requires SortedBy(s, lt)
    requires forall k :: 0 <= k < |s| ==> !lt(s[k], x)
    ensures SortedBy([x] + s, lt)
  {
    var r := [x] + s;
    forall i, j | 0 <= i < j < |r| ensures !lt(r[j], r[i]) {
      assert r[j] == s[j - 1];
      if i > 0 { assert r[i] == s[i - 1]; }
    }
  }

  lemma {:induction false} InsertSorted<T(!new)>(x: T, s: seq<T>, lt: (T, T) -> bool)
    requires StrictWeakOrder(lt) && SortedBy(s, lt)
    ensures SortedBy(Insert(x, s, lt), lt)
  {
    if s == [] || lt(x, s[0]) {
      assert forall k :: 0 <= k < |s| ==> !lt(s[k], x);
      SortedCons(x, s, lt);
    } else {
      SortedTail(s, lt);
      InsertSorted(x, s[1..], lt);
      var rest := Insert(x, s[1..], lt);
      forall k | 0 <= k < |rest| ensures !lt(rest[k], s[0]) {
        assert rest[k] in multiset(rest);
        if rest[k] != x {
          assert rest[k] in multiset(s[1..]);
          var m :| 0 <= m < |s[1..]| && s[1..][m] == rest[k];
          assert s[m + 1] == rest[k];
        }
      }
      SortedCons(s[0], rest, lt);
    }
  }

  /** The result of `Sort` is ordered by `lt`. */
  lemma {:induction false} SortSorted<T(!new)>(s: seq<T>, lt: (T, T) -> bool)
    requires StrictWeakOrder(lt)
    ensures SortedBy(Sort(s, lt), lt)
  {
    if s != [] {
      SortSorted(s[..|s| - 1], lt);
      InsertSorted(s[|s| - 1], Sort(s[..|s| - 1], lt), lt);
    }
  }

  lemma {:induction false} FilterCons<T>(a: T, r: seq<T>, p: T -> bool)
    ensures Filter([a] + r, p) == (if p(a) then [a] else []) + Filter(r, p)
  {
    assert ([a] + r)[1..] == r;
  }

  /** When `x` must precede the head of a sorted `s`, it must precede every element. */
  lemma {:induction false} PrecedesAll<T(!new)>(x: T, s: seq<T>, lt: (T, T) -> bool)
    requires StrictWeakOrder(lt) && SortedBy(s, lt)
    requires s != [] && lt(x, s[0])
    ensures forall k :: 0 <= k < |s| ==> lt(x, s[k])
  {
    forall k | 0 <= k < |s| ensures lt(x, s[k]) {
      if k > 0 {
        assert !lt(s[k], s[0]);
      }
    }
  }

  lemma {:induction false} InsertFilterFront<T(!new)>(x: T, s: seq<T>, lt: (T, T) -> bool, p: T -> bool)
    requires StrictWeakOrder(lt) && SortedBy(s, lt)
    requires s == [] || lt(x, s[0])
    ensures Filter([x] + s, p) == if p(x) then Insert(x, Filter(s, p), lt) else Filter(s, p)
  {
    FilterCons(x, s, p);
    var f := Filter(s, p);
    if p(x) && f != [] {
      PrecedesAll(x, s, lt);
      FilterSubMultiset(s, p);
      assert f[0] in s;
      var m :| 0 <= m < |s| && s[m] == f[0];
      assert lt(x, f[0]);
    }
  }

  lemma {:induction false} InsertFilterBehind<T>(x: T, s: seq<T>, lt: (T, T) -> bool, p: T -> bool)
    requires s != [] && !lt(x, s[0])
    requires Filter(Insert(x, s[1..], lt), p) == if p(x) then Insert(x, Filter(s[1..], p), lt) else Filter(s[1..], p)
    ensures Filter([s[0]] + Insert(x, s[1..], lt), p) == if p(x) then Insert(x, Filter(s, p), lt) else Filter(s, p)
  {
    var t := s[1..];
    var ins, ft := Insert(x, t, lt), Filter(t, p);
    var head := if p(s[0]) then [s[0]] else [];
    assert Filter([s[0]] + ins, p) == head + Filter(ins, p) by {
      FilterCons(s[0], ins, p);
    }
    assert Filter(s, p) == head + ft by {
      assert s == [s[0]] + t;
      FilterCons(s[0], t, p);
    }
    if p(x) {
      assert Filter(ins, p) == Insert(x, ft, lt);
      assert head + Insert(x, ft, lt) == Insert(x, head + ft, lt) by {
        if p(s[0]) {
          InsertBehindHead(x, s[0], ft, lt);
        } else {
          assert head + ft == ft;
        }
      }
    } else {
      assert Filter(ins, p) == ft;
    }
  }

  lemma {:induction false} InsertBehindHead<T>(x: T, a: T, r: seq<T>, lt: (T, T) -> bool)
    requires !lt(x, a)
    ensures Insert(x, [a] + r, lt) == [a] + Insert(x, r, lt)
  {
    assert ([a] + r)[0] == a;
    assert ([a] + r)[1..] == r;
  }

  lemma {:induction false} InsertFilter<T(!new)>(x: T, s: seq<T>, lt: (T, T) -> bool, p: T -> bool)
    requires StrictWeakOrder(lt) && SortedBy(s, lt)
    ensures Filter(Insert(x, s, lt), p) == if p(x) then Insert(x, Filter(s, p), lt) else Filter(s, p)
  {
    if s == [] || lt(x, s[0]) {
      InsertFilterFront(x, s, lt, p);
    } else {
      SortedTail(s, lt);
      InsertFilter(x, s[1..], lt, p);
      InsertFilterBehind(x, s, lt, p);
    }
  }

  /** Sorting and then keeping the elements that satisfy `p` gives the same
      sequence as keeping them first and sorting afterwards. */
  lemma {:induction false} SortFilter<T(!new)>(s: seq<T>, lt: (T, T) -> bool, p: T -> bool)
    requires StrictWeakOrder(lt)
    ensures Filter(Sort(s, lt), p) == Sort(Filter(s, p), lt)
  {
    if s != [] {
      var init, last := s[..|s| - 1], s[|s| - 1];
      assert s == init + [last];
      SortSorted(init, lt);
      InsertFilter(last, Sort(init, lt), lt, p);
      SortFilter(init, lt, p);
      FilterAppend(init, [last], p);
      assert Filter([last], p) == if p(last) then [last] else [];
      var f := Filter(init, p);
      if p(last) {
        assert (f + [last])[..|f|] == f;
      } else {
        assert f + [] == f;
      }
    }
  }

  lemma {:induction false} InsertAtEnd<T>(x: T, s: seq<T>, lt: (T, T) -> bool)
    requires forall k :: 0 <= k < |s| ==> !lt(x, s[k])
    ensures Insert(x, s, lt) == s + [x]
  {
    if s != [] {
      InsertAtEnd(x, s[1..], lt);
      assert s == [s[0]] + s[1..];
    }
  }

  /** A sequence none of whose elements must precede another is already sorted. */
  lemma {:induction false} SortOfUnordered<T>(s: seq<T>, lt: (T, T) -> bool)
    requires forall i, j :: 0 <= i < |s| && 0 <= j < |s| ==> !lt(s[i], s[j])
    ensures Sort(s, lt) == s
  {
    if s != [] {
      var init, last := s[..|s| - 1], s[|s| - 1];
      SortOfUnordered(init, lt);
      InsertAtEnd(last, init, lt);
      assert s == init + [last];
    }
  }

  /** Stability: the elements equivalent to any `y` appear in the sorted
      sequence in exactly their original order. */
  lemma {:induction false} SortStable<T(!new)>(s: seq<T>, lt: (T, T) -> bool, y: T)
    requires StrictWeakOrder(lt)
    ensures Filter(Sort(s, lt), e => Equivalent(lt, e, y)) == Filter(s, e => Equivalent(lt, e, y))
  {
    var eq := e => Equivalent(lt, e, y);
    SortFilter(s, lt, eq);
    var f := Filter(s, eq);
    forall i, j | 0 <= i < |f| && 0 <= j < |f| ensures !lt(f[i], f[j]) {
      assert f[i] in f && f[j] in f;
    }
    SortOfUnordered(f, lt);
  }

  /** A symmetric relation between every two elements survives sorting. */
  lemma {:induction false} SortPairwise<T>(s: seq<T>, lt: (T, T) -> bool, rel: (T, T) -> bool)
    requires forall a, b :: rel(a, b) ==> rel(b, a)
    requires Pairwise(s, rel)
    ensures Pairwise(Sort(s, lt), rel)
  {
    if s != [] {
      var init, last := s[..|s| - 1], s[|s| - 1];
      assert Pairwise(init, rel) by {
        forall i, j | 0 <= i < j < |init| ensures rel(init[i], init[j]) {
          assert init[i] == s[i] && init[j] == s[j];
        }
      }
      SortPairwise(init, lt, rel);
      var sorted := Sort(init, lt);
      forall k | 0 <= k < |sorted| ensures rel(sorted[k], last) {
        assert sorted[k] in multiset(init);
        var m :| 0 <= m < |init| && init[m] == sorted[k];
        assert s[m] == init[m];
      }
      InsertPairwise(last, sorted, lt, rel);
    }
  }

  lemma {:induction false} InsertPairwise<T>(x: T, s: seq<T>, lt: (T, T) -> bool, rel: (T, T) -> bool)
    requires forall a, b :: rel(a, b) ==> rel(b, a)
    requires Pairwise(s, rel)
    requires forall k :: 0 <= k < |s| ==> rel(s[k], x)
    ensures Pairwise(Insert(x, s, lt), rel)
  {
    if s == [] || lt(x, s[0]) {
      var r := [x] + s;
      forall i, j | 0 <= i < j < |r| ensures rel(r[i], r[j]) {
        assert r[j] == s[j - 1];
        if i > 0 { assert r[i] == s[i - 1]; }
      }
    } else {
      var t := s[1..];
      assert Pairwise(t, rel) by {
        forall i, j | 0 <= i < j < |t| ensures rel(t[i], t[j]) {
          assert t[i] == s[i + 1] && t[j] == s[j + 1];
        }
      }
      InsertPairwise(x, t, lt, rel);
      var rest := Insert(x, t, lt);
      forall k | 0 <= k < |rest| ensures rel(s[0], rest[k]) {
        assert rest[k] in multiset(rest);
        if rest[k] != x {
          assert rest[k] in multiset(t);
          var m :| 0 <= m < |t| && t[m] == rest[k];
          assert s[m + 1] == rest[k];
        } else {
          assert rel(s[0], x);
        }
      }
      var r := [s[0]] + rest;
      forall i, j | 0 <= i < j < |r| ensures rel(r[i], r[j]) {
        assert r[j] == rest[j - 1];
        if i > 0 { assert r[i] == rest[i - 1]; }
      }
    }
  }
}
