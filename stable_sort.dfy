/**
 * The engine sorts with JavaScript's Array.prototype.sort, which is stable.
 * Both comparators it uses order by one numeric key: `b[1] - a[1]` and
 * `b.score - a.score` put larger keys first, `a.index - b.index` puts smaller
 * indexes first (the larger key being `-index`). `SortDesc` is a stable sort
 * by a key, larger keys first; a stable sort's output is determined by its
 * input, so this one gives the same order as the runtime's.
 */
module StableSort {

  /** `s` is ordered by `key`, larger keys first. */
  ghost predicate SortedDesc<T>(s: seq<T>, key: T -> real)
  {
    forall i, j :: 0 <= i < j < |s| ==> key(s[i]) >= key(s[j])
  }

  /** `f` strictly increases along `s` (for instance an original position). */
  ghost predicate StrictlyIncreasing<T>(s: seq<T>, f: T -> int)
  {
    forall i, j :: 0 <= i < j < |s| ==> f(s[i]) < f(s[j])
  }

  /** Among elements with equal keys, `f` strictly increases along `s`. */
  ghost predicate TiesIncreasing<T>(s: seq<T>, key: T -> real, f: T -> int)
  {
    forall i, j :: 0 <= i < j < |s| && key(s[i]) == key(s[j]) ==> f(s[i]) < f(s[j])
  }

  /** No two elements of `s` agree on `f`. */
  ghost predicate DistinctBy<T, U>(s: seq<T>, f: T -> U)
  {
    forall i, j :: 0 <= i < j < |s| ==> f(s[i]) != f(s[j])
  }

  /** Places `x`, which comes after every element of `s` in the input, behind every element of
      `s` whose key is at least its own. */
  function InsertDesc<T>(s: seq<T>, x: T, key: T -> real): (r: seq<T>)
    ensures |r| == |s| + 1
    ensures multiset(r) == multiset(s) + multiset{x}
  {
    if |s| == 0 || key(s[|s| - 1]) >= key(x) then s + [x]
    else
      assert s == s[..|s| - 1] + [s[|s| - 1]];
      InsertDesc(s[..|s| - 1], x, key) + [s[|s| - 1]]
  }

  /** The stable sort, larger keys first. */
  function SortDesc<T>(s: seq<T>, key: T -> real): (r: seq<T>)
    ensures |r| == |s|
    ensures multiset(r) == multiset(s)
  {
    if |s| == 0 then []
    else
      assert s == s[..|s| - 1] + [s[|s| - 1]];
      InsertDesc(SortDesc(s[..|s| - 1], key), s[|s| - 1], key)
  }

  lemma {:induction false} InsertDescSorted<T>(s: seq<T>, x: T, key: T -> real)
    requires SortedDesc(s, key)
    ensures SortedDesc(InsertDesc(s, x, key), key)
    decreases |s|
  {
    if |s| > 0 && key(s[|s| - 1]) < key(x) {
      var init := s[..|s| - 1];
      var last := s[|s| - 1];
      InsertDescSorted(init, x, key);
      var r' := InsertDesc(init, x, key);
      forall e | e in r' ensures key(e) >= key(last) {
        assert e in multiset(r');
        if e != x {
          var i :| 0 <= i < |init| && init[i] == e;
          assert s[i] == e;
        }
      }
      assert InsertDesc(s, x, key) == r' + [last];
    }
  }

  /** The result is ordered by key, larger keys first. */
  lemma {:induction false} SortDescSorted<T>(s: seq<T>, key: T -> real)
    ensures SortedDesc(SortDesc(s, key), key)
  {
    if |s| > 0 {
      SortDescSorted(s[..|s| - 1], key);
      InsertDescSorted(SortDesc(s[..|s| - 1], key), s[|s| - 1], key);
    }
  }

  lemma {:induction false} InsertDescTies<T>(s: seq<T>, x: T, key: T -> real, f: T -> int)
    requires SortedDesc(s, key) && TiesIncreasing(s, key, f)
    requires forall e :: e in s ==> f(e) < f(x)
    ensures TiesIncreasing(InsertDesc(s, x, key), key, f)
    decreases |s|
  {
    if |s| == 0 || key(s[|s| - 1]) >= key(x) {
      TiesSnoc(s, x, key, f);
    } else {
      var init := s[..|s| - 1];
      var last := s[|s| - 1];
      OrderedPrefix(s, key, f);
      InsertDescTies(init, x, key, f);
      var r' := InsertDesc(init, x, key);
      forall e | e in r' && key(e) == key(last) ensures f(e) < f(last) {
        assert e in multiset(r');
        if e != x {
          var k :| 0 <= k < |init| && init[k] == e;
          assert s[k] == e;
        }
      }
      TiesSnoc(r', last, key, f);
    }
  }

  /** Dropping the last element keeps a sequence ordered by key and its ties ordered by `f`. */
  lemma OrderedPrefix<T>(s: seq<T>, key: T -> real, f: T -> int)
    requires |s| > 0 && SortedDesc(s, key) && TiesIncreasing(s, key, f)
    ensures SortedDesc(s[..|s| - 1], key) && TiesIncreasing(s[..|s| - 1], key, f)
  {
    var init := s[..|s| - 1];
    forall i, j | 0 <= i < j < |init| ensures key(init[i]) >= key(init[j]) {
      assert init[i] == s[i] && init[j] == s[j];
    }
    forall i, j | 0 <= i < j < |init| && key(init[i]) == key(init[j]) ensures f(init[i]) < f(init[j]) {
      assert init[i] == s[i] && init[j] == s[j];
    }
  }

  /** Appending an element that comes after every equal-keyed element keeps ties ordered. */
  lemma TiesSnoc<T>(r: seq<T>, y: T, key: T -> real, f: T -> int)
    requires TiesIncreasing(r, key, f)
    requires forall e :: e in r && key(e) == key(y) ==> f(e) < f(y)
    ensures TiesIncreasing(r + [y], key, f)
  {
    var r2 := r + [y];
    forall i, j | 0 <= i < j < |r2| && key(r2[i]) == key(r2[j]) ensures f(r2[i]) < f(r2[j]) {
      assert r2[i] == r[i];
      if j < |r| {
        assert r2[j] == r[j];
      }
    }
  }

  /** Stability: when the input is in increasing order of `f` (its original position, say),
      elements with equal keys keep that order in the output. */
  lemma {:induction false} SortDescStable<T>(s: seq<T>, key: T -> real, f: T -> int)
    requires StrictlyIncreasing(s, f)
    ensures TiesIncreasing(SortDesc(s, key), key, f)
  {
    if |s| > 0 {
      var init := s[..|s| - 1];
      var last := s[|s| - 1];
      forall i, j | 0 <= i < j < |init| ensures f(init[i]) < f(init[j]) {
        assert init[i] == s[i] && init[j] == s[j];
      }
      SortDescStable(init, key, f);
      SortDescSorted(init, key);
      var r' := SortDesc(init, key);
      forall e | e in r' ensures f(e) < f(last) {
        assert e in multiset(r');
        var k :| 0 <= k < |init| && init[k] == e;
        assert s[k] == e;
      }
      InsertDescTies(r', last, key, f);
    }
  }

  lemma {:induction false} InsertDescDistinct<T, U>(s: seq<T>, x: T, key: T -> real, f: T -> U)
    requires DistinctBy(s, f)
    requires forall e :: e in s ==> f(e) != f(x)
    ensures DistinctBy(InsertDesc(s, x, key), f)
    decreases |s|
  {
    var r := InsertDesc(s, x, key);
    if |s| == 0 || key(s[|s| - 1]) >= key(x) {
      assert r == s + [x];
      forall i, j | 0 <= i < j < |r| ensures f(r[i]) != f(r[j]) {
        assert r[i] == s[i];
        if j < |s| {
          assert r[j] == s[j];
        }
      }
    } else {
      var init := s[..|s| - 1];
      var last := s[|s| - 1];
      forall i, j | 0 <= i < j < |init| ensures f(init[i]) != f(init[j]) {
        assert init[i] == s[i] && init[j] == s[j];
      }
      InsertDescDistinct(init, x, key, f);
      var r' := InsertDesc(init, x, key);
      assert r == r' + [last];
      forall i, j | 0 <= i < j < |r| ensures f(r[i]) != f(r[j]) {
        if j < |r'| {
          assert r[i] == r'[i] && r[j] == r'[j];
        } else {
          var e := r'[i];
          assert r[i] == e && r[j] == last;
          assert e in multiset(r');
          if e != x {
            var k :| 0 <= k < |init| && init[k] == e;
            assert s[k] == e;
          }
        }
      }
    }
  }

  /** Sorting never makes two elements agree on `f`. */
  lemma {:induction false} SortDescDistinct<T, U>(s: seq<T>, key: T -> real, f: T -> U)
    requires DistinctBy(s, f)
    ensures DistinctBy(SortDesc(s, key), f)
  {
    if |s| > 0 {
      var init := s[..|s| - 1];
      var last := s[|s| - 1];
      forall i, j | 0 <= i < j < |init| ensures f(init[i]) != f(init[j]) {
        assert init[i] == s[i] && init[j] == s[j];
      }
      SortDescDistinct(init, key, f);
      var r' := SortDesc(init, key);
      forall e | e in r' ensures f(e) != f(last) {
        assert e in multiset(r');
        var k :| 0 <= k < |init| && init[k] == e;
        assert s[k] == e;
      }
      InsertDescDistinct(r', last, key, f);
    }
  }

  /** Keeping the first `c` sorted elements keeps the best ones: a kept element `x` has a larger
      key than an element `y` left out, or an equal key and a smaller `f`. */
  lemma SortDescPrefixDominates<T>(s: seq<T>, key: T -> real, f: T -> int, c: nat, x: T, y: T)
    requires StrictlyIncreasing(s, f)
    requires c <= |s|
    requires x in SortDesc(s, key)[..c] && y in s && y !in SortDesc(s, key)[..c]
    ensures key(x) > key(y) || (key(x) == key(y) && f(x) < f(y))
  {
    var r := SortDesc(s, key);
    SortDescSorted(s, key);
    SortDescStable(s, key, f);
    var p :| 0 <= p < c && r[..c][p] == x;
    assert y in multiset(r);
    var q :| 0 <= q < |r| && r[q] == y;
    assert r[p] == x && p < q;
  }

  /** Where `InsertDesc` puts `x`: after position `j - 1`, when every element from `j` on has a
      smaller key than `x` and the one before (if any) does not. */
  lemma {:induction false} InsertDescAt<T>(s: seq<T>, x: T, key: T -> real, j: nat)
    requires j <= |s|
    requires forall k :: j <= k < |s| ==> key(s[k]) < key(x)
    requires j == 0 || key(s[j - 1]) >= key(x)
    ensures InsertDesc(s, x, key) == s[..j] + [x] + s[j..]
    decreases |s|
  {
    if j < |s| {
      var init := s[..|s| - 1];
      var last := s[|s| - 1];
      assert key(last) < key(x);
      assert InsertDesc(s, x, key) == InsertDesc(init, x, key) + [last];
      forall k | j <= k < |init| ensures key(init[k]) < key(x) {
        assert init[k] == s[k];
      }
      assert j == 0 || init[j - 1] == s[j - 1];
      InsertDescAt(init, x, key, j);
      assert init[..j] == s[..j];
      SuffixOfSnoc(s, j);
      AppendAfterInsert(s[..j], x, init[j..], last);
    } else {
      assert s[..j] == s;
    }
  }

  /** Sorting one more element inserts it into the sorted prefix. */
  lemma SortDescSnoc<T>(s: seq<T>, i: nat, key: T -> real)
    requires i < |s|
    ensures SortDesc(s[..i + 1], key) == InsertDesc(SortDesc(s[..i], key), s[i], key)
  {
    assert s[..i + 1][..i] == s[..i];
  }

  lemma SuffixOfSnoc<T>(s: seq<T>, j: nat)
    requires j < |s|
    ensures s[j..] == s[..|s| - 1][j..] + [s[|s| - 1]]
  {
    assert s == s[..|s| - 1] + [s[|s| - 1]];
  }

  lemma AppendAfterInsert<T>(a: seq<T>, x: T, b: seq<T>, y: T)
    ensures a + [x] + b + [y] == a + [x] + (b + [y])
  {
  }

  /** The array contents after the shifting loop, read as a sequence. */
  lemma ShiftedIsInserted<T>(b: seq<T>, sorted: seq<T>, x: T, j: nat)
    requires |b| == |sorted| + 1 && j <= |sorted|
    requires forall k :: 0 <= k < j ==> b[k] == sorted[k]
    requires b[j] == x
    requires forall k :: j < k < |b| ==> b[k] == sorted[k - 1]
    ensures b == sorted[..j] + [x] + sorted[j..]
  {
  }

  /** Inserts `a[i]` into the sorted prefix `a[..i]`, shifting the elements with smaller keys
      one place to the right. */
  method InsertInPlace<T>(a: array<T>, i: nat, key: T -> real)
    requires i < a.Length
    modifies a
    ensures a[..i + 1] == InsertDesc(old(a[..i]), old(a[i]), key)
    ensures a[i + 1..] == old(a[i + 1..])
  {
    var x := a[i];
    ghost var sorted := a[..i];
    var j := i;
    while j > 0 && key(a[j - 1]) < key(x)
      invariant 0 <= j <= i
      invariant forall k :: 0 <= k < j ==> a[k] == sorted[k]
      invariant forall k :: j < k <= i ==> a[k] == sorted[k - 1]
      invariant forall k :: j <= k < i ==> key(sorted[k]) < key(x)
      invariant a[i + 1..] == old(a[i + 1..])
    {
      a[j] := a[j - 1];
      j := j - 1;
    }
    a[j] := x;
    InsertDescAt(sorted, x, key, j);
    ShiftedIsInserted(a[..i + 1], sorted, x, j);
  }

  /** Array.prototype.sort on an array, in place: the array ends up holding `SortDesc` of what
      it held before. */
  method SortInPlace<T>(a: array<T>, key: T -> real)
    modifies a
    ensures a[..] == SortDesc(old(a[..]), key)
  {
    ghost var orig := a[..];
    for i := 0 to a.Length
      invariant a[..i] == SortDesc(orig[..i], key)
      invariant a[i..] == orig[i..]
    {
      ghost var rest := a[i + 1..];
      assert a[i] == orig[i] && rest == orig[i + 1..];
      InsertInPlace(a, i, key);
      SortDescSnoc(orig, i, key);
      assert a[i + 1..] == orig[i + 1..];
    }
    assert orig[..a.Length] == orig;
  }
}
