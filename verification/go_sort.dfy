/**
 The two functions of Go's `sort` package that the lock uses on the child list:
 `sort.Strings`, which orders a slice of strings ascending, and
 `sort.SearchStrings`, which binary-searches a sorted slice for the first
 position whose element is not below a given string.
 */
module GoSort {
  import opened StringOrder

  /** Every element is at most every later element. */
  ghost predicate Sorted(s: seq<string>)
  {
    forall i, j :: 0 <= i < j < |s| ==> LessEq(s[i], s[j])
  }

  /** Putting a head below all elements of a sorted sequence keeps it sorted. */
  lemma PrependSorted(h: string, s: seq<string>)
    requires Sorted(s)
    requires forall y :: y in s ==> LessEq(h, y)
    ensures Sorted([h] + s)
  {
    var r := [h] + s;
    forall i, j | 0 <= i < j < |r|
      ensures LessEq(r[i], r[j])
    {
      if i > 0 {
        assert r[i] == s[i - 1] && r[j] == s[j - 1];
      } else {
        assert r[j] == s[j - 1];
        assert s[j - 1] in s;
      }
    }
  }

  /** Inserts `x` into a sorted sequence at its place. */
  function Insert(x: string, s: seq<string>): (r: seq<string>)
    requires Sorted(s)
    ensures Sorted(r)
    ensures multiset(r) == multiset(s) + multiset{x}
  {
    if |s| == 0 then [x]
    else if LessEq(x, s[0]) then
      InsertAtFront(x, s);
      [x] + s
    else
      var t := Insert(x, s[1..]);
      InsertAfterHead(x, s, t);
      [s[0]] + t
  }

  lemma InsertAtFront(x: string, s: seq<string>)
    requires Sorted(s) && |s| > 0 && LessEq(x, s[0])
    ensures Sorted([x] + s)
  {
    forall y | y in s
      ensures LessEq(x, y)
    {
      var j :| 0 <= j < |s| && s[j] == y;
      if j > 0 {
        LessEqTransitive(x, s[0], s[j]);
      }
    }
    PrependSorted(x, s);
  }

  lemma InsertAfterHead(x: string, s: seq<string>, t: seq<string>)
    requires Sorted(s) && |s| > 0 && !LessEq(x, s[0])
    requires Sorted(t) && multiset(t) == multiset(s[1..]) + multiset{x}
    ensures Sorted([s[0]] + t)
    ensures multiset([s[0]] + t) == multiset(s) + multiset{x}
  {
    LessEqIffNotLess(x, s[0]);
    forall y | y in t
      ensures LessEq(s[0], y)
    {
      assert y in multiset(t);
      if y != x {
        assert y in multiset(s[1..]);
        var j :| 0 <= j < |s[1..]| && s[1..][j] == y;
        assert s[j + 1] == y;
      }
    }
    PrependSorted(s[0], t);
    assert s == [s[0]] + s[1..];
  }

  /**
   `sort.Strings`: the ascending rearrangement of `s`. Go's algorithm is not
   stable, but equal strings are indistinguishable, and SortedPermutationUnique
   shows that every correct sort yields this same sequence.
   */
  function SortStrings(s: seq<string>): (r: seq<string>)
    ensures Sorted(r)
    ensures multiset(r) == multiset(s)
  {
    if |s| == 0 then []
    else
      assert s == [s[0]] + s[1..];
      Insert(s[0], SortStrings(s[1..]))
  }

  /** A sorted sequence is determined by its elements. */
  lemma {:induction false} SortedPermutationUnique(a: seq<string>, b: seq<string>)
    requires Sorted(a) && Sorted(b)
    requires multiset(a) == multiset(b)
    ensures a == b
    decreases |a|
  {
    assert |a| == |multiset(a)| == |multiset(b)| == |b|;
    if |a| > 0 {
      assert a[0] in multiset(b) && b[0] in multiset(a);
      var i :| 0 <= i < |b| && b[i] == a[0];
      var j :| 0 <= j < |a| && a[j] == b[0];
      assert LessEq(b[0], a[0]) by {
        if i > 0 { assert LessEq(b[0], b[i]); }
      }
      assert LessEq(a[0], b[0]) by {
        if j > 0 { assert LessEq(a[0], a[j]); }
      }
      LessEqAntisymmetric(a[0], b[0]);
      TailMultiset(a);
      TailMultiset(b);
      SortedPermutationUnique(a[1..], b[1..]);
    }
  }

  lemma TailMultiset(a: seq<string>)
    requires |a| > 0
    ensures multiset(a[1..]) == multiset(a) - multiset{a[0]}
  {
    assert a == [a[0]] + a[1..];
  }

  /** The sorted rearrangement keeps exactly the same members. */
  lemma SortStringsMembers(s: seq<string>, x: string)
    ensures x in SortStrings(s) <==> x in s
  {
    var r := SortStrings(s);
    assert x in r <==> x in multiset(r);
    assert x in s <==> x in multiset(s);
  }

  /**
   `sort.Search(hi, f)` restricted to the window [lo, hi), with
   `f(h) == (a[h] >= x)`: Go halves the window, moving `lo` past `h` when
   `a[h] < x` and `hi` down to `h` otherwise.
   */
  function SearchWindow(a: seq<string>, x: string, lo: nat, hi: nat): (i: nat)
    requires lo <= hi <= |a|
    ensures lo <= i <= hi
    ensures Sorted(a)
            && (forall k :: 0 <= k < lo ==> Less(a[k], x))
            && (forall k :: hi <= k < |a| ==> LessEq(x, a[k]))
            ==> (forall k :: 0 <= k < i ==> Less(a[k], x))
                && (forall k :: i <= k < |a| ==> LessEq(x, a[k]))
    decreases hi - lo
  {
    if lo < hi then
      var h := (lo + hi) / 2;
      if Less(a[h], x) then
        BelowFromMid(a, x, h);
        SearchWindow(a, x, h + 1, hi)
      else
        AboveFromMid(a, x, h);
        SearchWindow(a, x, lo, h)
    else lo
  }

  lemma BelowFromMid(a: seq<string>, x: string, h: nat)
    requires h < |a| && Less(a[h], x)
    ensures Sorted(a) ==> forall k :: 0 <= k <= h ==> Less(a[k], x)
  {
    if Sorted(a) {
      forall k | 0 <= k <= h
        ensures Less(a[k], x)
      {
        if k < h {
          LessEqLessTransitive(a[k], a[h], x);
        }
      }
    }
  }

  lemma AboveFromMid(a: seq<string>, x: string, h: nat)
    requires h < |a| && !Less(a[h], x)
    ensures Sorted(a) ==> forall k :: h <= k < |a| ==> LessEq(x, a[k])
  {
    LessEqIffNotLess(x, a[h]);
    if Sorted(a) {
      forall k | h <= k < |a|
        ensures LessEq(x, a[k])
      {
        if h < k {
          LessEqTransitive(x, a[h], a[k]);
        }
      }
    }
  }

  /**
   `sort.SearchStrings(a, x)`: on a sorted `a`, the index that splits it into
   the elements strictly below `x` and those at or above it, i.e. the place
   where `x` is or would be inserted.
   */
  function SearchStrings(a: seq<string>, x: string): (i: nat)
    ensures i <= |a|
    ensures Sorted(a) ==> (forall k :: 0 <= k < i ==> Less(a[k], x))
    ensures Sorted(a) ==> (forall k :: i <= k < |a| ==> LessEq(x, a[k]))
  {
    SearchWindow(a, x, 0, |a|)
  }

  /**
   The element just before the search index is the greatest element strictly
   below `x`: the immediate predecessor of `x` in the sorted sequence.
   */
  lemma SearchPredecessor(a: seq<string>, x: string)
    requires Sorted(a)
    requires SearchStrings(a, x) >= 1
    ensures var p := a[SearchStrings(a, x) - 1];
            Less(p, x) && forall y :: y in a && Less(y, x) ==> LessEq(y, p)
  {
    var i := SearchStrings(a, x);
    forall y | y in a && Less(y, x)
      ensures LessEq(y, a[i - 1])
    {
      var k :| 0 <= k < |a| && a[k] == y;
      if k >= i {
        LessAsymmetric(y, x);
        LessEqIffNotLess(x, y);
      }
    }
  }

  /** The search index is 0 exactly when no element is strictly below `x`. */
  lemma SearchAtStart(a: seq<string>, x: string)
    requires Sorted(a)
    ensures SearchStrings(a, x) == 0 <==> forall y :: y in a ==> LessEq(x, y)
  {
    var i := SearchStrings(a, x);
    if i == 0 {
      forall y | y in a
        ensures LessEq(x, y)
      {
        var k :| 0 <= k < |a| && a[k] == y;
      }
    } else {
      assert Less(a[0], x);
      LessAsymmetric(a[0], x);
      LessEqIffNotLess(x, a[0]);
      assert a[0] in a;
    }
  }
}
