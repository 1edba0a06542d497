/**
 * Sequence helpers shared by the probe managers: the `std::find` / `erase`
 * idiom on vectors, an order-preserving filter, and the distance sort.
 */
module Seqs {

  /** No element occurs twice. */
  ghost predicate Distinct<T>(s: seq<T>) {
    forall i, j :: 0 <= i < j < |s| ==> s[i] != s[j]
  }

  /** Position of the first `x` in `s`, or `|s|` (the end iterator) when absent. */
  function IndexOf<T(==)>(s: seq<T>, x: T): (i: nat)
    ensures i <= |s|
    ensures i < |s| ==> s[i] == x
    ensures forall j :: 0 <= j < i ==> s[j] != x
    ensures i == |s| <==> x !in s
  {
    if s == [] then 0
    else if s[0] == x then 0
    else 1 + IndexOf(s[1..], x)
  }

  /** The sequence without its element at position `i` (`vector::erase`). */
  function RemoveAt<T>(s: seq<T>, i: nat): (r: seq<T>)
    requires i < |s|
    ensures |r| == |s| - 1
    ensures forall k :: 0 <= k < i ==> r[k] == s[k]
    ensures forall k :: i <= k < |r| ==> r[k] == s[k + 1]
  {
    s[..i] + s[i + 1..]
  }

  lemma {:induction false} RemoveAtDistinct<T>(s: seq<T>, i: nat)
    requires i < |s|
    ensures Distinct(s) ==> Distinct(RemoveAt(s, i))
    ensures Distinct(s) ==> forall y :: y in RemoveAt(s, i) <==> y in s && y != s[i]
  {
    var r := RemoveAt(s, i);
    if Distinct(s) {
      forall y | y in s && y != s[i] ensures y in r {
        var k :| 0 <= k < |s| && s[k] == y;
        if k < i { assert r[k] == y; } else { assert r[k - 1] == y; }
      }
    }
  }

  /** `erase(find(s, x))` when `x` is present; `s` itself otherwise. */
  function RemoveFirst<T(==,!new)>(s: seq<T>, x: T): (r: seq<T>)
    ensures x !in s ==> r == s
    ensures x in s ==> |r| == |s| - 1
    ensures Distinct(s) ==> Distinct(r) && forall y :: y in r <==> y in s && y != x
  {
    var i := IndexOf(s, x);
    if i < |s| then
      RemoveAtDistinct(s, i); RemoveAt(s, i)
    else s
  }

  /** The elements of `s` satisfying `f`, in their original order. */
  function Filter<T(!new)>(s: seq<T>, f: T -> bool): (r: seq<T>)
    ensures |r| <= |s|
    decreases |s|
  {
    if s == [] then []
    else
      var init := s[..|s| - 1];
      assert s == init + [s[|s| - 1]];
      Filter(init, f) + (if f(s[|s| - 1]) then [s[|s| - 1]] else [])
  }

  /** The filtered sequence holds exactly the elements of `s` satisfying `f`. */
  lemma {:induction false} FilterIn<T(!new)>(s: seq<T>, f: T -> bool)
    ensures forall x :: x in Filter(s, f) <==> x in s && f(x)
    decreases |s|
  {
    if s != [] {
      var init := s[..|s| - 1];
      assert s == init + [s[|s| - 1]];
      FilterIn(init, f);
    }
  }

  lemma {:induction false} FilterDistinct<T(!new)>(s: seq<T>, f: T -> bool)
    requires Distinct(s)
    ensures Distinct(Filter(s, f))
    decreases |s|
  {
    if s != [] {
      var init := s[..|s| - 1];
      assert s == init + [s[|s| - 1]];
      FilterDistinct(init, f);
      FilterIn(init, f);
      assert s[|s| - 1] !in init;
    }
  }

  /** Filtering one more element extends the filtered prefix by at most that element. */
  lemma FilterSnoc<T(!new)>(s: seq<T>, x: T, f: T -> bool)
    ensures Filter(s + [x], f) == Filter(s, f) + (if f(x) then [x] else [])
  {
    assert (s + [x])[..|s + [x]| - 1] == s;
  }

  /** Filtering a concatenation filters each part. */
  lemma {:induction false} FilterAppend<T(!new)>(s: seq<T>, t: seq<T>, f: T -> bool)
    ensures Filter(s + t, f) == Filter(s, f) + Filter(t, f)
    decreases |t|
  {
    if t == [] {
      assert s + t == s;
    } else {
      var t0 := t[..|t| - 1];
      var x := t[|t| - 1];
      assert t == t0 + [x];
      assert s + t == (s + t0) + [x];
      FilterAppend(s, t0, f);
      FilterSnoc(s + t0, x, f);
      FilterSnoc(t0, x, f);
    }
  }

  /** A sequence is its part before `j`, its element at `j`, and its part after. */
  lemma SplitAt<T>(s: seq<T>, j: nat)
    requires j < |s|
    ensures s == s[..j] + [s[j]] + s[j + 1..]
  {
  }

  /**
   * One step of a scan that compacts `s` in place, keeping the elements
   * `f` selects: after `j` elements the list is the kept ones followed by
   * the unscanned rest, the element under the cursor is `s[j]`, and keeping
   * or erasing it gives the list after `j + 1` elements.
   */
  lemma CompactStep<T(!new)>(s: seq<T>, j: nat, f: T -> bool)
    requires j < |s|
    ensures var pre := Filter(s[..j], f); var cur := pre + s[j..];
      |pre| < |cur| && cur[|pre|] == s[j] && cur[..|pre|] == pre
      && Filter(s[..j + 1], f) == pre + (if f(s[j]) then [s[j]] else [])
      && (f(s[j]) ==> Filter(s[..j + 1], f) + s[j + 1..] == cur)
      && (!f(s[j]) ==> Filter(s[..j + 1], f) + s[j + 1..] == RemoveAt(cur, |pre|))
  {
    var a, b := s[..j], s[j + 1..];
    SplitAt(s, j);
    assert s[..j + 1] == a + [s[j]];
    assert s[j..] == [s[j]] + b;
    FilterSnoc(a, s[j], f);
  }

  /** Filtering around position `j`: the part before, `s[j]` if selected, and the part after. */
  lemma FilterSplit<T(!new)>(s: seq<T>, j: nat, f: T -> bool)
    requires j < |s|
    ensures Filter(s, f) == Filter(s[..j], f) + (if f(s[j]) then [s[j]] else []) + Filter(s[j + 1..], f)
  {
    var a, b := s[..j], s[j + 1..];
    SplitAt(s, j);
    FilterAppend(a + [s[j]], b, f);
    FilterSnoc(a, s[j], f);
  }

  /** A filter that keeps every element of `s` returns `s`. */
  lemma {:induction false} FilterKeepsAll<T(!new)>(s: seq<T>, f: T -> bool)
    requires forall x :: x in s ==> f(x)
    ensures Filter(s, f) == s
    decreases |s|
  {
    if s != [] {
      var init := s[..|s| - 1];
      assert s == init + [s[|s| - 1]];
      FilterKeepsAll(init, f);
    }
  }

  /** Filters that agree on the elements of `s` select the same elements. */
  lemma {:induction false} FilterExt<T(!new)>(s: seq<T>, f: T -> bool, g: T -> bool)
    requires forall x :: x in s ==> f(x) == g(x)
    ensures Filter(s, f) == Filter(s, g)
    decreases |s|
  {
    if s != [] {
      var init := s[..|s| - 1];
      assert s == init + [s[|s| - 1]];
      FilterExt(init, f, g);
    }
  }

  /** The first `x` of `a + b` is the first `x` of `a` when `a` has one. */
  lemma {:induction false} IndexOfAppend<T>(a: seq<T>, b: seq<T>, x: T)
    requires x in a
    ensures IndexOf(a + b, x) == IndexOf(a, x)
  {
    var i := IndexOf(a, x);
    assert (a + b)[i] == x;
    assert forall j :: 0 <= j < i ==> (a + b)[j] != x;
  }

  /**
   * On a duplicate-free sequence, also excluding `x` from a filter is the
   * same as erasing the first `x` of the filtered sequence.
   */
  lemma {:induction false} FilterRemoveFirst<T(!new)>(s: seq<T>, f: T -> bool, g: T -> bool, x: T)
    requires Distinct(s) && forall y :: y in s ==> g(y) == (f(y) && y != x)
    ensures Filter(s, g) == RemoveFirst(Filter(s, f), x)
    decreases |s|
  {
    if s != [] {
      var init := s[..|s| - 1];
      var y := s[|s| - 1];
      assert s == init + [y];
      assert Distinct(init);
      var a := Filter(init, f);
      var tail := if f(y) then [y] else [];
      assert Filter(s, f) == a + tail;
      assert Filter(s, g) == Filter(init, g) + (if g(y) then [y] else []);
      if y == x {
        assert x !in init;
        FilterExt(init, f, g);
        FilterIn(init, f);
        assert x !in a;
        if f(y) {
          RemoveFirstLast(a, x);
        }
      } else {
        FilterRemoveFirst(init, f, g, x);
        if x in a {
          RemoveFirstAppend(a, tail, x);
        } else {
          assert x !in a + tail;
        }
      }
    }
  }

  /** Erasing the first `x` of `a + [x]`, where `a` has none, leaves `a`. */
  lemma RemoveFirstLast<T(!new)>(a: seq<T>, x: T)
    requires x !in a
    ensures RemoveFirst(a + [x], x) == a
  {
    assert IndexOf(a + [x], x) == |a| by {
      assert (a + [x])[|a|] == x;
      assert forall j :: 0 <= j < |a| ==> (a + [x])[j] != x;
    }
    assert RemoveAt(a + [x], |a|) == a;
  }

  /** Erasing the first `x` of `a + b`, where `a` holds one, erases it from `a`. */
  lemma RemoveFirstAppend<T(!new)>(a: seq<T>, b: seq<T>, x: T)
    requires x in a
    ensures RemoveFirst(a + b, x) == RemoveFirst(a, x) + b
  {
    IndexOfAppend(a, b, x);
    var i := IndexOf(a, x);
    assert i < |a|;
    assert RemoveAt(a + b, i) == RemoveAt(a, i) + b;
  }

  /** Every element of the sorted sequence is at most its successors under `key`. */
  ghost predicate SortedBy<T>(s: seq<T>, key: T -> real) {
    forall i, j :: 0 <= i < j < |s| ==> key(s[i]) <= key(s[j])
  }

  lemma SortedCons<T>(h: T, t: seq<T>, key: T -> real)
    requires SortedBy(t, key)
    requires forall k :: 0 <= k < |t| ==> key(h) <= key(t[k])
    ensures SortedBy([h] + t, key)
  {
    var r := [h] + t;
    forall i, j | 0 <= i < j < |r| ensures key(r[i]) <= key(r[j]) {
      if i == 0 { assert r[j] == t[j - 1]; } else { assert r[i] == t[i - 1] && r[j] == t[j - 1]; }
    }
  }

  function InsertBy<T(!new)>(x: T, s: seq<T>, key: T -> real): (r: seq<T>)
    requires SortedBy(s, key)
    ensures SortedBy(r, key)
    ensures multiset(r) == multiset(s) + multiset{x}
  {
    if s == [] then [x]
    else if key(x) <= key(s[0]) then
      SortedCons(x, s, key);
      [x] + s
    else
      var t := s[1..];
      assert s == [s[0]] + t;
      var rest := InsertBy(x, t, key);
      assert forall k :: 0 <= k < |rest| ==> key(s[0]) <= key(rest[k]) by {
        forall k | 0 <= k < |rest| ensures key(s[0]) <= key(rest[k]) {
          assert rest[k] in multiset(rest);
          if rest[k] != x {
            assert rest[k] in t;
            var m :| 0 <= m < |t| && t[m] == rest[k];
            assert s[m + 1] == rest[k];
          }
        }
      }
      SortedCons(s[0], rest, key);
      [s[0]] + rest
  }

  /** A sequence is distinct exactly when no element has multiplicity above one. */
  lemma {:induction false} DistinctMultiset<T>(s: seq<T>)
    ensures Distinct(s) <==> forall y :: multiset(s)[y] <= 1
  {
    if s != [] {
      var t := s[1..];
      assert s == [s[0]] + t;
      DistinctMultiset(t);
      if Distinct(s) {
        assert Distinct(t);
        assert s[0] !in t;
      } else {
        var i, j :| 0 <= i < j < |s| && s[i] == s[j];
        assert multiset(s) == multiset([s[0]]) + multiset(t);
        if i == 0 {
          assert s[j] in t;
          assert multiset(s)[s[0]] >= 2;
        } else {
          assert t[i - 1] == t[j - 1];
          assert !Distinct(t);
          var y :| multiset(t)[y] > 1;
          assert multiset(s)[y] > 1;
        }
      }
    }
  }

  /** Reordering keeps distinctness. */
  lemma PermutationDistinct<T>(a: seq<T>, b: seq<T>)
    requires multiset(a) == multiset(b) && Distinct(a)
    ensures Distinct(b)
  {
    DistinctMultiset(a);
    DistinctMultiset(b);
  }

  /**
   * Insertion sort by `key`, standing for `std::sort` with a strict-less
   * comparator: the result is ordered and a permutation of the input; the
   * order of equal keys is not promised.
   */
  function SortBy<T(!new)>(s: seq<T>, key: T -> real): (r: seq<T>)
    ensures SortedBy(r, key)
    ensures multiset(r) == multiset(s)
  {
    if s == [] then []
    else
      assert s == [s[0]] + s[1..];
      InsertBy(s[0], SortBy(s[1..], key), key)
  }

  /** The sorted sequence has the same length, members and distinctness. */
  lemma SortByFacts<T(!new)>(s: seq<T>, key: T -> real)
    ensures |SortBy(s, key)| == |s|
    ensures forall y :: y in SortBy(s, key) <==> y in s
    ensures Distinct(s) ==> Distinct(SortBy(s, key))
  {
    var r := SortBy(s, key);
    assert |multiset(r)| == |multiset(s)|;
    assert forall y :: y in r <==> y in multiset(r);
    assert forall y :: y in s <==> y in multiset(s);
    if Distinct(s) { PermutationDistinct(s, r); }
  }
}
