/** A JavaScript `Set` of numbers, kept as the list of its members in
    insertion order (the order `Array.from(set)` yields), and the numeric sort
    `Array.from(set).sort((a, b) => a - b)` the page parsers finish with. */
module JsSet {
  import opened Sequences

  /** `set.add(x)`: a member already present is not added again. */
  function Add<T(==,!new)>(s: seq<T>, x: T): (r: seq<T>)
    ensures Distinct(s) ==> Distinct(r)
    ensures forall y :: y in r <==> y in s || y == x
    ensures x in s ==> r == s
    ensures x !in s ==> r == s + [x]
  {
    if x in s then s else s + [x]
  }

  /** Two duplicate-free lists with the same members are permutations of each
      other. */
  lemma SameMembersSameMultiset<T>(a: seq<T>, b: seq<T>)
    requires Distinct(a) && Distinct(b)
    requires forall x :: x in a <==> x in b
    ensures multiset(a) == multiset(b)
  {
    DistinctMultiplicity(a);
    DistinctMultiplicity(b);
    forall x ensures multiset(a)[x] == multiset(b)[x] {
      if x in a {
        assert x in multiset(a) && x in multiset(b);
      } else {
        assert x !in multiset(a) && x !in multiset(b);
      }
    }
  }

  ghost predicate StrictlyIncreasing(s: seq<int>) {
    forall i, j :: 0 <= i < j < |s| ==> s[i] < s[j]
  }

  /** Sorting the members of a set of integers lists each member once, in
      strictly increasing order. */
  lemma SortOfSet(s: seq<int>)
    requires Distinct(s)
    ensures var r := Sort(s, Ascending);
      StrictlyIncreasing(r) && (forall x :: x in r <==> x in s) && |r| == |s|
  {
    var r := Sort(s, Ascending);
    assert forall x :: x in r <==> x in s by {
      forall x ensures x in r <==> x in s {
        assert x in r <==> x in multiset(r);
        assert x in s <==> x in multiset(s);
      }
    }
    assert |r| == |s| by { assert |multiset(r)| == |multiset(s)|; }
    PermutationKeepsDistinct(s, r);
  }

  /** The sorted list of a set's members depends only on which members it
      has, not on the order in which they were added. */
  lemma SortOfSetDependsOnMembers(a: seq<int>, b: seq<int>)
    requires Distinct(a) && Distinct(b)
    requires forall x :: x in a <==> x in b
    ensures Sort(a, Ascending) == Sort(b, Ascending)
  {
    SameMembersSameMultiset(a, b);
    SortedUnique(Sort(a, Ascending), Sort(b, Ascending), Ascending);
  }

  ghost predicate SortedReals(s: seq<real>) {
    forall i, j :: 0 <= i < j < |s| ==> s[i] <= s[j]
  }

  ghost predicate StrictlyIncreasingReals(s: seq<real>) {
    forall i, j :: 0 <= i < j < |s| ==> s[i] < s[j]
  }

  /** Inserts `x` into an ascending list of numbers, keeping it ascending. */
  function InsertReal(x: real, s: seq<real>): (r: seq<real>)
    requires SortedReals(s)
    ensures SortedReals(r) && multiset(r) == multiset(s) + multiset{x}
    decreases |s|
  {
    if s == [] || x <= s[0] then
      [x] + s
    else
      assert s == [s[0]] + s[1..];
      var r := InsertReal(x, s[1..]);
      HeadPrecedesInsertReal(s[0], x, s[1..], r);
      ConsSortedReals(s[0], r);
      [s[0]] + r
  }

  /** A number below `x` and no greater than any element of `t` is no greater
      than any element of a list holding `t` and `x`. */
  lemma HeadPrecedesInsertReal(h: real, x: real, t: seq<real>, r: seq<real>)
    requires h < x && SortedReals([h] + t)
    requires multiset(r) == multiset(t) + multiset{x}
    ensures forall k :: 0 <= k < |r| ==> h <= r[k]
  {
    forall k | 0 <= k < |r| ensures h <= r[k] {
      assert r[k] in multiset(r);
      if r[k] != x {
        assert r[k] in multiset(t);
        var j :| 0 <= j < |t| && t[j] == r[k];
        var ht := [h] + t;
        assert ht[0] == h && ht[j + 1] == t[j];
        assert ht[0] <= ht[j + 1];
      }
    }
  }

  /** An ascending list stays ascending behind a number no greater than any
      of its elements. */
  lemma ConsSortedReals(h: real, r: seq<real>)
    requires SortedReals(r)
    requires forall k :: 0 <= k < |r| ==> h <= r[k]
    ensures SortedReals([h] + r)
  {
    var s := [h] + r;
    forall i, j | 0 <= i < j < |s| ensures s[i] <= s[j] {
      assert s[j] == r[j - 1];
      if i > 0 { assert s[i] == r[i - 1]; }
    }
  }

  /** `a.sort((a, b) => a - b)` on a list of numbers: the ascending
      permutation of the list. */
  function SortReals(s: seq<real>): (r: seq<real>)
    ensures SortedReals(r) && multiset(r) == multiset(s)
    decreases |s|
  {
    if s == [] then []
    else
      assert s == [s[0]] + s[1..];
      InsertReal(s[0], SortReals(s[1..]))
  }

  /** Sorting the members of a set of numbers lists each member once, in
      strictly increasing order. */
  lemma SortRealsOfSet(s: seq<real>)
    requires Distinct(s)
    ensures var r := SortReals(s);
      StrictlyIncreasingReals(r) && (forall x :: x in r <==> x in s) && |r| == |s|
  {
    var r := SortReals(s);
    assert forall x :: x in r <==> x in s by {
      forall x ensures x in r <==> x in s {
        assert x in r <==> x in multiset(r);
        assert x in s <==> x in multiset(s);
      }
    }
    assert |r| == |s| by { assert |multiset(r)| == |multiset(s)|; }
    PermutationKeepsDistinct(s, r);
  }
}
