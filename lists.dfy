/**
 * The array operations the server and the web client use on lists of records:
 * `filter`, reversal (a descending order over rows kept in insertion order),
 * `find`-style lookup, and `Array.prototype.sort` with a comparator, which
 * JavaScript requires to be stable: elements the comparator ties keep their
 * input order. `le(a, b)` holds when the comparator allows `a` before `b` (the
 * comparator's result is at most zero).
 */
module Lists {

  /** `s.filter(p)`: the elements satisfying `p`, each as often as in `s`, none other. */
  function Filter<T>(s: seq<T>, p: T -> bool): (r: seq<T>)
    ensures |r| <= |s|
    ensures multiset(r) <= multiset(s)
    ensures forall i :: 0 <= i < |r| ==> p(r[i])
    ensures forall i :: 0 <= i < |s| && p(s[i]) ==> multiset(r)[s[i]] == multiset(s)[s[i]]
  {
    if s == [] then []
    else
      var rest := Filter(s[..|s| - 1], p);
      assert s == s[..|s| - 1] + [s[|s| - 1]];
      if p(s[|s| - 1]) then rest + [s[|s| - 1]] else rest
  }

  /** What `filter` keeps, stated on membership. */
  lemma FilterMembers<T>(s: seq<T>, p: T -> bool)
    ensures forall x :: x in Filter(s, p) <==> x in s && p(x)
  {
    var r := Filter(s, p);
    forall x ensures x in r <==> x in s && p(x) {
      if x in r {
        var i :| 0 <= i < |r| && r[i] == x;
        assert x in multiset(r);
      }
      if x in s && p(x) {
        var i :| 0 <= i < |s| && s[i] == x;
        assert x in multiset(s);
      }
    }
  }

  /** What `filter` keeps, stated on multiplicities: every satisfying element as often as in `s`, no other. */
  lemma FilterCount<T>(s: seq<T>, p: T -> bool)
    ensures forall x :: multiset(Filter(s, p))[x] == if p(x) then multiset(s)[x] else 0
  {
    var r := Filter(s, p);
    forall x ensures multiset(r)[x] == if p(x) then multiset(s)[x] else 0 {
      if x in s && p(x) {
        var i :| 0 <= i < |s| && s[i] == x;
      }
    }
  }

  /** The same two facts for the filtered list read back to front. */
  lemma ReverseFilterCount<T>(s: seq<T>, p: T -> bool)
    ensures forall x :: x in Reverse(Filter(s, p)) <==> x in s && p(x)
    ensures forall x :: multiset(Reverse(Filter(s, p)))[x] == if p(x) then multiset(s)[x] else 0
  {
    FilterMembers(s, p);
    FilterCount(s, p);
    var r := Reverse(Filter(s, p));
    forall x ensures x in r <==> x in multiset(r) {
    }
  }

  /** Filtering a list with one more element at the end. */
  lemma FilterSnoc<T>(s: seq<T>, x: T, p: T -> bool)
    ensures Filter(s + [x], p) == if p(x) then Filter(s, p) + [x] else Filter(s, p)
  {
    assert (s + [x])[..|s|] == s;
  }

  /** Filtering with a predicate every element meets keeps the whole list. */
  lemma {:induction false} FilterAll<T>(s: seq<T>, p: T -> bool)
    requires forall i :: 0 <= i < |s| ==> p(s[i])
    ensures Filter(s, p) == s
    decreases |s|
  {
    if s != [] {
      var prefix, x := s[..|s| - 1], s[|s| - 1];
      assert s == prefix + [x];
      FilterAll(prefix, p);
      FilterSnoc(prefix, x, p);
    }
  }

  lemma {:induction false} FilterAppend<T>(s: seq<T>, t: seq<T>, p: T -> bool)
    ensures Filter(s + t, p) == Filter(s, p) + Filter(t, p)
    decreases |t|
  {
    if t == [] {
      assert s + t == s;
    } else {
      var t' := t[..|t| - 1];
      assert (s + t)[..|s + t| - 1] == s + t';
      FilterAppend(s, t', p);
    }
  }

  /** Filtering keeps the relative order of what it keeps. */
  lemma {:induction false} FilterSorted<T>(s: seq<T>, p: T -> bool, le: (T, T) -> bool)
    requires Sorted(s, le)
    ensures Sorted(Filter(s, p), le)
    decreases |s|
  {
    if s != [] {
      var s' := s[..|s| - 1];
      assert Sorted(s', le);
      FilterSorted(s', p, le);
      var f := Filter(s', p);
      forall i | 0 <= i < |f| ensures le(f[i], s[|s| - 1]) {
        assert f[i] in multiset(s');
        var k :| 0 <= k < |s'| && s'[k] == f[i];
      }
    }
  }

  /** The number of elements satisfying `p`: what `s.filter(p).length` counts. */
  function Count<T>(s: seq<T>, p: T -> bool): nat {
    |Filter(s, p)|
  }

  /** The list read back to front. */
  function Reverse<T>(s: seq<T>): (r: seq<T>)
    ensures |r| == |s|
    ensures forall i :: 0 <= i < |s| ==> r[i] == s[|s| - 1 - i]
    ensures multiset(r) == multiset(s)
  {
    if s == [] then []
    else
      assert s == [s[0]] + s[1..];
      Reverse(s[1..]) + [s[0]]
  }

  /** The index of the first element satisfying `p`, or -1 when there is none. */
  function FirstIndex<T>(s: seq<T>, p: T -> bool): (i: int)
    ensures -1 <= i < |s|
    ensures i >= 0 ==> p(s[i]) && forall k :: 0 <= k < i ==> !p(s[k])
    ensures i < 0 <==> forall k :: 0 <= k < |s| ==> !p(s[k])
  {
    if s == [] then -1
    else if p(s[0]) then 0
    else
      var j := FirstIndex(s[1..], p);
      assert forall k :: 0 < k < |s| ==> s[k] == s[1..][k - 1];
      if j < 0 then -1 else j + 1
  }

  /** `indexOf`: the position of the first occurrence of `x`, or -1. */
  function IndexOf<T(==)>(s: seq<T>, x: T): (i: int)
    ensures -1 <= i < |s|
    ensures i >= 0 ==> s[i] == x && forall k :: 0 <= k < i ==> s[k] != x
    ensures i < 0 <==> x !in s
  {
    FirstIndex(s, (y: T) => y == x)
  }

  /** A prefix that already holds `x` has its first occurrence where the whole list has it. */
  lemma IndexOfPrefix<T>(s: seq<T>, n: nat, x: T)
    requires n <= |s|
    requires x in s[..n]
    ensures IndexOf(s, x) == IndexOf(s[..n], x)
  {
    var i := IndexOf(s[..n], x);
    assert s[i] == x;
    var j := IndexOf(s, x);
    assert j <= i;
    assert s[..n][j] == x;
  }

  predicate NoDuplicates<T(==)>(s: seq<T>) {
    forall i, j :: 0 <= i < j < |s| ==> s[i] != s[j]
  }

  /** The elements of `r` come in the order of their first occurrences in `s`. */
  predicate InOrderOf<T(==)>(r: seq<T>, s: seq<T>) {
    forall i, j :: 0 <= i < j < |r| ==> IndexOf(s, r[i]) < IndexOf(s, r[j])
  }

  /** A list without repeats loses none by dropping its last element, and that element is new. */
  lemma NoDuplicatesSnoc<T>(s: seq<T>, x: T)
    requires NoDuplicates(s + [x])
    ensures NoDuplicates(s) && x !in s
  {
    var t := s + [x];
    forall i, j | 0 <= i < j < |s| ensures s[i] != s[j] {
      assert s[i] == t[i] && s[j] == t[j];
    }
    forall k | 0 <= k < |s| ensures s[k] != x {
      assert s[k] == t[k] && t[|s|] == x;
    }
  }

  /** Appending a new element to both lists keeps a list of earlier elements in order of first occurrence. */
  lemma InOrderOfSnoc<T>(r: seq<T>, s: seq<T>, x: T)
    requires x !in s
    requires forall y :: y in r ==> y in s
    requires InOrderOf(r, s)
    ensures InOrderOf(r, s + [x]) && InOrderOf(r + [x], s + [x])
  {
    var t := s + [x];
    assert t[..|s|] == s;
    forall y | y in r ensures IndexOf(t, y) == IndexOf(s, y) < |s| {
      IndexOfPrefix(t, |s|, y);
    }
    assert IndexOf(t, x) == |s|;
    var r' := r + [x];
    forall i, j | 0 <= i < j < |r'| ensures IndexOf(t, r'[i]) < IndexOf(t, r'[j]) {
      assert r'[i] == r[i] && r[i] in r;
      if j < |r| {
        assert r'[j] == r[j] && r[j] in r;
      }
    }
  }

  /** Every two elements are comparable and comparisons chain: what a consistent comparator gives. */
  ghost predicate TotalPreorder<T(!new)>(le: (T, T) -> bool) {
    && (forall a, b :: le(a, b) || le(b, a))
    && (forall a, b, c :: le(a, b) && le(b, c) ==> le(a, c))
  }

  predicate Sorted<T>(s: seq<T>, le: (T, T) -> bool) {
    forall i, j :: 0 <= i < j < |s| ==> le(s[i], s[j])
  }

  /** Puts `x` in front of the first element it may precede. */
  function Insert<T>(x: T, s: seq<T>, le: (T, T) -> bool): (r: seq<T>)
    ensures multiset(r) == multiset(s) + multiset{x}
    ensures |r| == |s| + 1
  {
    if s == [] || le(x, s[0]) then [x] + s
    else
      assert s == [s[0]] + s[1..];
      [s[0]] + Insert(x, s[1..], le)
  }

  /** The stable sort: each element is inserted into the sorted rest, ahead of the elements it ties with. */
  function SortBy<T>(s: seq<T>, le: (T, T) -> bool): (r: seq<T>)
    ensures multiset(r) == multiset(s)
    ensures |r| == |s|
  {
    if s == [] then []
    else
      assert s == [s[0]] + s[1..];
      Insert(s[0], SortBy(s[1..], le), le)
  }

  lemma {:induction false} InsertSorted<T(!new)>(x: T, s: seq<T>, le: (T, T) -> bool)
    requires TotalPreorder(le)
    requires Sorted(s, le)
    ensures Sorted(Insert(x, s, le), le)
    decreases |s|
  {
    if s == [] || le(x, s[0]) {
      var r := [x] + s;
      forall i, j | 0 <= i < j < |r| ensures le(r[i], r[j]) {
        if i == 0 && j > 1 {
          assert le(x, s[0]) && le(s[0], s[j - 1]);
        }
      }
    } else {
      assert le(s[0], x);
      var tail := Insert(x, s[1..], le);
      assert Sorted(s[1..], le) by {
        forall i, j | 0 <= i < j < |s[1..]| ensures le(s[1..][i], s[1..][j]) {
          assert s[1..][i] == s[i + 1] && s[1..][j] == s[j + 1];
        }
      }
      InsertSorted(x, s[1..], le);
      var r := [s[0]] + tail;
      forall j | 0 <= j < |tail| ensures le(s[0], tail[j]) {
        assert tail[j] in multiset(tail);
        assert tail[j] in multiset(s[1..]) || tail[j] == x;
        if tail[j] != x {
          var k :| 0 <= k < |s[1..]| && s[1..][k] == tail[j];
          assert s[1..][k] == s[k + 1];
        }
      }
      forall i, j | 0 <= i < j < |r| ensures le(r[i], r[j]) {
        if i == 0 {
          assert r[j] == tail[j - 1];
        } else {
          assert r[i] == tail[i - 1] && r[j] == tail[j - 1];
        }
      }
    }
  }

  /** The sort's result is ordered by the comparator and is a permutation of its input. */
  lemma {:induction false} SortBySorted<T(!new)>(s: seq<T>, le: (T, T) -> bool)
    requires TotalPreorder(le)
    ensures Sorted(SortBy(s, le), le)
    ensures multiset(SortBy(s, le)) == multiset(s)
    decreases |s|
  {
    if s != [] {
      SortBySorted(s[1..], le);
      InsertSorted(s[0], SortBy(s[1..], le), le);
    }
  }

  /** Filtering a list with one more element at the front. */
  lemma FilterCons<T>(x: T, t: seq<T>, p: T -> bool)
    ensures Filter([x] + t, p) == (if p(x) then [x] else []) + Filter(t, p)
  {
    var one := [x];
    assert one[..0] == [] && one[0] == x;
    assert Filter(one, p) == (if p(x) then [x] else []) by {
      assert Filter(one, p) == (if p(one[0]) then Filter(one[..0], p) + [one[0]] else Filter(one[..0], p));
    }
    FilterAppend(one, t, p);
  }

  /** Two lists of which one is empty can be put in front of a third in either order. */
  lemma SwapEmpty<T>(a: seq<T>, b: seq<T>, c: seq<T>)
    requires a == [] || b == []
    ensures a + (b + c) == b + (a + c)
  {
    if a == [] {
      assert a + (b + c) == b + c && a + c == c;
    } else {
      assert b + c == c && b + (a + c) == a + c;
    }
  }

  /**
   * Inserting `x` passes over no element that `q` picks out together with it:
   * among elements that all tie with one another, `x` stays in front.
   */
  lemma {:induction false} InsertKeepsTiedOrder<T>(x: T, t: seq<T>, le: (T, T) -> bool, q: T -> bool)
    requires forall a, b {:trigger le(a, b)} :: q(a) && q(b) ==> le(a, b)
    ensures Filter(Insert(x, t, le), q) == Filter([x] + t, q)
    decreases |t|
  {
    if t != [] && !le(x, t[0]) {
      var y, u := t[0], t[1..];
      assert t == [y] + u;
      var fy := if q(y) then [y] else [];
      var fx := if q(x) then [x] else [];
      InsertKeepsTiedOrder(x, u, le, q);
      FilterCons(y, Insert(x, u, le), q);
      FilterCons(x, u, q);
      FilterCons(y, u, q);
      FilterCons(x, t, q);
      assert !(q(x) && q(y));
      calc {
        Filter(Insert(x, t, le), q);
        fy + Filter(Insert(x, u, le), q);
        fy + (fx + Filter(u, q));
        { SwapEmpty(fy, fx, Filter(u, q)); }
        fx + (fy + Filter(u, q));
        fx + Filter([y] + u, q);
        { assert [y] + u == t; }
        fx + Filter(t, q);
        Filter([x] + t, q);
      }
    }
  }

  /**
   * Inserting `x` into a list that agrees with `u` on the elements `q` picks
   * out gives a list that agrees with `[x] + u` on them.
   */
  lemma InsertAfterStable<T>(x: T, u: seq<T>, sorted: seq<T>, le: (T, T) -> bool, q: T -> bool)
    requires forall a, b {:trigger le(a, b)} :: q(a) && q(b) ==> le(a, b)
    requires Filter(sorted, q) == Filter(u, q)
    ensures Filter(Insert(x, sorted, le), q) == Filter([x] + u, q)
  {
    InsertKeepsTiedOrder(x, sorted, le, q);
    FilterCons(x, sorted, q);
    FilterCons(x, u, q);
  }

  /**
   * The sort is stable: elements that all tie with one another come out in
   * their input order.
   */
  lemma {:induction false} SortByStable<T>(s: seq<T>, le: (T, T) -> bool, q: T -> bool)
    requires forall a, b {:trigger le(a, b)} :: q(a) && q(b) ==> le(a, b)
    ensures Filter(SortBy(s, le), q) == Filter(s, q)
    decreases |s|
  {
    if s != [] {
      SortByStable(s[1..], le, q);
      SortByStableStep(s, le, q);
    }
  }

  /** Sorting `s` keeps the tied elements in order when sorting its tail does. */
  lemma SortByStableStep<T>(s: seq<T>, le: (T, T) -> bool, q: T -> bool)
    requires s != []
    requires forall a, b {:trigger le(a, b)} :: q(a) && q(b) ==> le(a, b)
    requires Filter(SortBy(s[1..], le), q) == Filter(s[1..], q)
    ensures Filter(SortBy(s, le), q) == Filter(s, q)
  {
    var sorted := SortBy(s[1..], le);
    assert SortBy(s, le) == Insert(s[0], sorted, le);
    HeadTail(s);
    InsertAfterStable(s[0], s[1..], sorted, le, q);
  }

  /** A non-empty list is its head followed by its tail. */
  lemma HeadTail<T>(s: seq<T>)
    requires s != []
    ensures [s[0]] + s[1..] == s
  {
  }
}
