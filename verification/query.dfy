/**
 * What the blog relies on from its content-query engine and from
 * `Array.prototype.sort`: ordering by date, newest first, with ties left in
 * collection order, and SQL-style `LIMIT`/`OFFSET` windows.
 */
module Query {

  /** A record's date as the ordering sees it; an undated record sorts below every dated one. */
  datatype Stamp = Undated | At(time: int)

  /** `a` is not later than `b`. */
  predicate NoLater(a: Stamp, b: Stamp) {
    a.Undated? || (b.At? && a.time <= b.time)
  }

  lemma NoLaterTotal(a: Stamp, b: Stamp)
    ensures NoLater(a, b) || NoLater(b, a)
    ensures NoLater(a, b) && NoLater(b, a) ==> a == b
  {
  }

  /** `s.map(f)`: `f` applied to each element, in order. */
  function Map<A, B>(s: seq<A>, f: A -> B): (r: seq<B>)
    ensures |r| == |s|
  {
    if s == [] then [] else [f(s[0])] + Map(s[1..], f)
  }

  lemma {:induction false} MapAt<A, B>(s: seq<A>, f: A -> B, k: nat)
    requires k < |s|
    ensures Map(s, f)[k] == f(s[k])
  {
    if k > 0 {
      MapAt(s[1..], f, k - 1);
    }
  }

  lemma {:induction false} MapSnoc<A, B>(s: seq<A>, x: A, f: A -> B)
    ensures Map(s + [x], f) == Map(s, f) + [f(x)]
  {
    if s == [] {
      assert [x][1..] == [];
    } else {
      assert (s + [x])[1..] == s[1..] + [x];
      MapSnoc(s[1..], x, f);
    }
  }

  /** Every element is at least as recent as every element after it. */
  ghost predicate NewestFirst<T>(s: seq<T>, key: T -> Stamp) {
    forall i, j :: 0 <= i < j < |s| ==> NoLater(key(s[j]), key(s[i]))
  }

  /** The elements of `s` dated `d`, in their order in `s`. */
  function Dated<T>(s: seq<T>, key: T -> Stamp, d: Stamp): (r: seq<T>)
    ensures |r| <= |s|
    ensures forall i :: 0 <= i < |r| ==> key(r[i]) == d
  {
    if s == [] then []
    else (if key(s[0]) == d then [s[0]] else []) + Dated(s[1..], key, d)
  }

  /** Puts `x` in front of the first element that is not later than it, so it stays ahead of equal elements. */
  function Insert<T>(x: T, s: seq<T>, key: T -> Stamp): (r: seq<T>)
    ensures multiset(r) == multiset(s) + multiset{x}
    ensures |r| == |s| + 1
  {
    if s == [] || NoLater(key(s[0]), key(x)) then [x] + s
    else
      assert s == [s[0]] + s[1..];
      [s[0]] + Insert(x, s[1..], key)
  }

  /** A stable sort, newest first: the order of `Array.prototype.sort` with `(a, b) => b.date - a.date`. */
  function SortNewestFirst<T>(s: seq<T>, key: T -> Stamp): (r: seq<T>)
    ensures multiset(r) == multiset(s)
    ensures |r| == |s|
  {
    if s == [] then []
    else
      assert s == [s[0]] + s[1..];
      Insert(s[0], SortNewestFirst(s[1..], key), key)
  }

  lemma {:induction false} InsertSorted<T>(x: T, s: seq<T>, key: T -> Stamp)
    requires NewestFirst(s, key)
    ensures NewestFirst(Insert(x, s, key), key)
    decreases |s|
  {
    if s == [] || NoLater(key(s[0]), key(x)) {
      var r := [x] + s;
      forall i, j | 0 <= i < j < |r|
        ensures NoLater(key(r[j]), key(r[i]))
      {
        if i == 0 {
          assert NoLater(key(s[j - 1]), key(s[0]));
        }
      }
    } else {
      InsertSorted(x, s[1..], key);
      var t := Insert(x, s[1..], key);
      var r := [s[0]] + t;
      forall j | 0 <= j < |t|
        ensures NoLater(key(t[j]), key(s[0]))
      {
        assert t[j] in multiset(s[1..]) + multiset{x};
        if t[j] != x {
          assert t[j] in multiset(s[1..]);
          var m :| 0 <= m < |s[1..]| && s[1..][m] == t[j];
          assert s[m + 1] == t[j];
        }
      }
      forall i, j | 0 <= i < j < |r|
        ensures NoLater(key(r[j]), key(r[i]))
      {
        if i > 0 {
          assert r[i] == t[i - 1] && r[j] == t[j - 1];
        }
      }
    }
  }

  /** The sort really orders newest first. */
  lemma {:induction false} SortSorted<T>(s: seq<T>, key: T -> Stamp)
    ensures NewestFirst(SortNewestFirst(s, key), key)
    decreases |s|
  {
    if s != [] {
      SortSorted(s[1..], key);
      InsertSorted(s[0], SortNewestFirst(s[1..], key), key);
    }
  }

  lemma {:induction false} InsertStable<T>(x: T, s: seq<T>, key: T -> Stamp, d: Stamp)
    ensures Dated(Insert(x, s, key), key, d) == (if key(x) == d then [x] else []) + Dated(s, key, d)
    decreases |s|
  {
    if s == [] || NoLater(key(s[0]), key(x)) {
      assert ([x] + s)[1..] == s;
    } else {
      InsertStable(x, s[1..], key, d);
      assert key(s[0]) != key(x);
      assert ([s[0]] + Insert(x, s[1..], key))[1..] == Insert(x, s[1..], key);
    }
  }

  /** The sort is stable: records with the same date come out in the order they went in. */
  lemma {:induction false} SortStable<T>(s: seq<T>, key: T -> Stamp, d: Stamp)
    ensures Dated(SortNewestFirst(s, key), key, d) == Dated(s, key, d)
    decreases |s|
  {
    if s != [] {
      SortStable(s[1..], key, d);
      InsertStable(s[0], SortNewestFirst(s[1..], key), key, d);
    }
  }

  /** The records of one date in a prefix of `s` are the first records of that date in `s`. */
  lemma {:induction false} DatedPrefix<T>(s: seq<T>, key: T -> Stamp, d: Stamp, n: nat)
    requires n <= |s|
    ensures Dated(s[..n], key, d) <= Dated(s, key, d)
    decreases n
  {
    if n > 0 {
      DatedPrefix(s[1..], key, d, n - 1);
      assert s[..n][1..] == s[1..][..n - 1];
      var h := if key(s[0]) == d then [s[0]] else [];
      assert Dated(s[..n], key, d) == h + Dated(s[1..][..n - 1], key, d);
    }
  }

  /** SQL `LIMIT n`: the first `n` elements; a negative limit keeps them all. */
  function Limit<T>(s: seq<T>, n: int): (r: seq<T>)
    ensures n >= 0 ==> |r| == (if n < |s| then n else |s|)
    ensures n < 0 ==> r == s
    ensures r == s[..|r|]
  {
    if n < 0 || n >= |s| then s else s[..n]
  }

  /** SQL `OFFSET n`: all but the first `n` elements; a negative offset skips nothing. */
  function Offset<T>(s: seq<T>, n: int): (r: seq<T>)
    ensures n >= 0 ==> |r| == (if n < |s| then |s| - n else 0)
    ensures n <= 0 ==> r == s
    ensures r == s[|s| - |r|..]
  {
    if n <= 0 then s else if n >= |s| then [] else s[n..]
  }

  /** `WHERE`, or `Array.prototype.filter`: the elements that pass `keep`, in order. */
  function Filter<T(!new)>(s: seq<T>, keep: T -> bool): (r: seq<T>)
    ensures |r| <= |s|
    ensures forall x :: x in r <==> x in s && keep(x)
  {
    if s == [] then []
    else
      assert s == [s[0]] + s[1..];
      (if keep(s[0]) then [s[0]] else []) + Filter(s[1..], keep)
  }

  /**
   * Filtering distributes over concatenation, and one element is kept exactly
   * when it passes: so the filter keeps the passing elements in their order
   * and with their multiplicity.
   */
  lemma FilterOne<T(!new)>(x: T, keep: T -> bool)
    ensures Filter([x], keep) == if keep(x) then [x] else []
  {
    assert [x][1..] == [];
  }

  lemma {:induction false} FilterAppend<T(!new)>(a: seq<T>, b: seq<T>, keep: T -> bool)
    ensures Filter(a + b, keep) == Filter(a, keep) + Filter(b, keep)
    decreases |a|
  {
    if a == [] {
      assert a + b == b;
    } else {
      var head := if keep(a[0]) then [a[0]] else [];
      var x, y := Filter(a[1..], keep), Filter(b, keep);
      calc {
        Filter(a + b, keep);
        { assert (a + b)[0] == a[0] && (a + b)[1..] == a[1..] + b; }
        head + Filter(a[1..] + b, keep);
        { FilterAppend(a[1..], b, keep); }
        head + (x + y);
        { assert head + (x + y) == (head + x) + y; }
        (head + x) + y;
      }
    }
  }

  /** A filter that every element passes keeps them all. */
  lemma {:induction false} FilterAll<T(!new)>(s: seq<T>, keep: T -> bool)
    requires forall i :: 0 <= i < |s| ==> keep(s[i])
    ensures Filter(s, keep) == s
  {
    if s != [] {
      FilterAll(s[1..], keep);
    }
  }

  /**
   * The query `WHERE keep ORDER BY key DESC OFFSET skip LIMIT n`, and equally
   * the array chain filter, sort newest first, drop `skip`, take `n`.
   */
  function Newest<T(!new)>(s: seq<T>, keep: T -> bool, key: T -> Stamp, skip: int, n: int): (r: seq<T>)
    ensures forall x :: x in r ==> x in s && keep(x)
  {
    var sorted := SortNewestFirst(Filter(s, keep), key);
    var r := Limit(Offset(sorted, skip), n);
    assert forall x :: x in r ==> x in multiset(sorted);
    r
  }

  /** The window `Newest` returns is a run of consecutive elements of the sorted list. */
  lemma NewestWindow<T(!new)>(s: seq<T>, keep: T -> bool, key: T -> Stamp, skip: int, n: int)
    ensures var sorted := SortNewestFirst(Filter(s, keep), key);
      var start := if skip <= 0 then 0 else if skip < |sorted| then skip else |sorted|;
      start + |Newest(s, keep, key, skip, n)| <= |sorted| &&
      Newest(s, keep, key, skip, n) == sorted[start..start + |Newest(s, keep, key, skip, n)|]
  {
  }

  /** How many elements the window holds: at most `n`, and no more than are left after `skip`. */
  lemma NewestSize<T(!new)>(s: seq<T>, keep: T -> bool, key: T -> Stamp, skip: int, n: int)
    requires skip >= 0 && n >= 0
    ensures var left := if skip < |Filter(s, keep)| then |Filter(s, keep)| - skip else 0;
      |Newest(s, keep, key, skip, n)| == if n < left then n else left
  {
  }

  /** A limit that is not negative bounds the window. */
  lemma NewestAtMost<T(!new)>(s: seq<T>, keep: T -> bool, key: T -> Stamp, skip: int, n: int)
    requires n >= 0
    ensures |Newest(s, keep, key, skip, n)| <= n
  {
  }

  /** The window is ordered newest first. */
  lemma NewestOrdered<T(!new)>(s: seq<T>, keep: T -> bool, key: T -> Stamp, skip: int, n: int)
    ensures NewestFirst(Newest(s, keep, key, skip, n), key)
  {
    var sorted := SortNewestFirst(Filter(s, keep), key);
    SortSorted(Filter(s, keep), key);
    NewestWindow(s, keep, key, skip, n);
    var r := Newest(s, keep, key, skip, n);
    var start := if skip <= 0 then 0 else if skip < |sorted| then skip else |sorted|;
    SliceNewestFirst(sorted, key, start, start + |r|);
  }

  /** A run of consecutive elements of a newest-first list is newest first. */
  lemma SliceNewestFirst<T>(s: seq<T>, key: T -> Stamp, lo: nat, hi: nat)
    requires lo <= hi <= |s| && NewestFirst(s, key)
    ensures NewestFirst(s[lo..hi], key)
  {
    var r := s[lo..hi];
    forall i, j | 0 <= i < j < |r|
      ensures NoLater(key(r[j]), key(r[i]))
    {
      assert r[i] == s[lo + i] && r[j] == s[lo + j];
    }
  }

  /** An element that passes `keep` but is left out of a first window is no later than anything in it. */
  lemma NewestMostRecent<T(!new)>(s: seq<T>, keep: T -> bool, key: T -> Stamp, n: int, x: T)
    requires x in s && keep(x) && x !in Newest(s, keep, key, 0, n)
    ensures forall y :: y in Newest(s, keep, key, 0, n) ==> NoLater(key(x), key(y))
  {
    var sorted := SortNewestFirst(Filter(s, keep), key);
    var r := Newest(s, keep, key, 0, n);
    SortSorted(Filter(s, keep), key);
    NewestWindow(s, keep, key, 0, n);
    assert x in multiset(sorted);
    var j :| 0 <= j < |sorted| && sorted[j] == x;
    assert forall i :: 0 <= i < |r| ==> sorted[i] != x;
    assert j >= |r|;
    forall y | y in r
      ensures NoLater(key(x), key(y))
    {
      var i :| 0 <= i < |r| && r[i] == y;
      assert sorted[i] == y;
    }
  }

  /**
   * The sort is stable: among the elements of one date, a first window holds
   * the first ones in their original order.
   */
  lemma NewestStable<T(!new)>(s: seq<T>, keep: T -> bool, key: T -> Stamp, n: int, d: Stamp)
    ensures Dated(Newest(s, keep, key, 0, n), key, d) <= Dated(Filter(s, keep), key, d)
  {
    var sorted := SortNewestFirst(Filter(s, keep), key);
    var r := Newest(s, keep, key, 0, n);
    NewestWindow(s, keep, key, 0, n);
    assert r == sorted[..|r|];
    DatedPrefix(sorted, key, d, |r|);
    SortStable(Filter(s, keep), key, d);
  }
}
