/** Operations on page lists shared by the page organiser and the page editor:
    JavaScript's `splice` used to remove one element or to move one element,
    the swap of two slots, and `sort` with a numeric comparator. */
module Sequences {

  /** No value occurs twice. */
  ghost predicate Distinct<T>(s: seq<T>) {
    forall i, j :: 0 <= i < j < |s| ==> s[i] != s[j]
  }

  /** Every value lies in `[0, n)`. */
  ghost predicate InRange(s: seq<int>, n: int) {
    forall x :: x in s ==> 0 <= x < n
  }

  /** `[0, 1, ..., n - 1]`: the natural page order. */
  function Identity(n: nat): (r: seq<int>)
    ensures |r| == n && forall i :: 0 <= i < n ==> r[i] == i
    ensures Distinct(r) && InRange(r, n)
  {
    seq(n, i => i)
  }

  /** Where `splice(start, ...)` begins on an array of length `len`: a negative
      start counts back from the end, and the result is clamped to `[0, len]`. */
  function SpliceStart(len: nat, start: int): (k: nat)
    ensures k <= len
    ensures 0 <= start <= len ==> k == start
  {
    if start < 0 then (if len + start < 0 then 0 else len + start)
    else if start > len then len
    else start
  }

  /** `a.splice(start, 1)`: the array without the element where the splice
      begins, or the array unchanged when the splice begins at its end. */
  function SpliceRemove<T>(s: seq<T>, start: int): seq<T> {
    var k := SpliceStart(|s|, start);
    if k < |s| then s[..k] + s[k + 1..] else s
  }

  /** Removing the element at `i` shortens the array by one and keeps every
      other element in its relative order. */
  lemma SpliceRemoveAt<T>(s: seq<T>, i: nat)
    requires i < |s|
    ensures var r := SpliceRemove(s, i);
      && |r| == |s| - 1
      && (forall j :: 0 <= j < i ==> r[j] == s[j])
      && (forall j :: i <= j < |r| ==> r[j] == s[j + 1])
      && multiset(r) + multiset{s[i]} == multiset(s)
  {
    assert s == s[..i] + [s[i]] + s[i + 1..];
  }

  /** A removal never brings in a value and never makes two values equal. */
  lemma SpliceRemoveKeepsDistinct<T>(s: seq<T>, start: int)
    requires Distinct(s)
    ensures Distinct(SpliceRemove(s, start))
    ensures forall x :: x in SpliceRemove(s, start) ==> x in s
  {
    var k := SpliceStart(|s|, start);
    if k < |s| {
      SpliceRemoveAt(s, k);
      var r := SpliceRemove(s, start);
      forall i, j | 0 <= i < j < |r| ensures r[i] != r[j] {
        var i' := if i < k then i else i + 1;
        var j' := if j < k then j else j + 1;
        assert r[i] == s[i'] && r[j] == s[j'] && i' < j';
      }
    }
  }

  /** `a.splice(to, 0, a.splice(from, 1)[0])`: the element at `from` is taken
      out and inserted again so that it ends at position `to`. */
  function Moved<T>(s: seq<T>, from: nat, to: nat): seq<T>
    requires from < |s| && to < |s|
  {
    var rest := s[..from] + s[from + 1..];
    rest[..to] + [s[from]] + rest[to..]
  }

  /** A move keeps the length and the multiset of values, and puts the moved
      value at its target position. */
  lemma MovedFacts<T>(s: seq<T>, from: nat, to: nat)
    requires from < |s| && to < |s|
    ensures var r := Moved(s, from, to);
      |r| == |s| && r[to] == s[from] && multiset(r) == multiset(s)
  {
    var rest := s[..from] + s[from + 1..];
    assert s == s[..from] + [s[from]] + s[from + 1..];
    assert multiset(s) == multiset(s[..from]) + multiset{s[from]} + multiset(s[from + 1..]);
    assert multiset(rest) == multiset(s[..from]) + multiset(s[from + 1..]);
    assert rest == rest[..to] + rest[to..];
    assert multiset(rest) == multiset(rest[..to]) + multiset(rest[to..]);
    var r := Moved(s, from, to);
    var front := rest[..to] + [s[from]];
    assert r == front + rest[to..];
    assert multiset(front) == multiset(rest[..to]) + multiset{s[from]};
    assert multiset(r) == multiset(front) + multiset(rest[to..]);
    assert multiset(r) == multiset(rest) + multiset{s[from]};
  }

  /** Dragging an element back to where it came from undoes a move. */
  lemma MovedInverse<T>(s: seq<T>, from: nat, to: nat)
    requires from < |s| && to < |s|
    ensures Moved(Moved(s, from, to), to, from) == s
  {
    var rest := s[..from] + s[from + 1..];
    var r := Moved(s, from, to);
    MovedFacts(s, from, to);
    assert r[..to] + r[to + 1..] == rest;
    assert rest[..from] == s[..from];
    assert rest[from..] == s[from + 1..];
    assert s == s[..from] + [s[from]] + s[from + 1..];
  }

  /** The array with the values in slots `i` and `j` exchanged. */
  function Swapped<T>(s: seq<T>, i: nat, j: nat): (r: seq<T>)
    requires i < |s| && j < |s|
    ensures |r| == |s| && r[i] == s[j] && r[j] == s[i]
    ensures forall k :: 0 <= k < |s| && k != i && k != j ==> r[k] == s[k]
  {
    s[i := s[j]][j := s[i]]
  }

  /** A swap keeps the multiset of values, and swapping again undoes it. */
  lemma SwappedFacts<T>(s: seq<T>, i: nat, j: nat)
    requires i < |s| && j < |s|
    ensures multiset(Swapped(s, i, j)) == multiset(s)
    ensures Swapped(Swapped(s, i, j), i, j) == s
  {
    var t := s[i := s[j]];
    assert multiset(t) == multiset(s) - multiset{s[i]} + multiset{s[j]};
  }

  /** A sequence is free of duplicates exactly when no value occurs in it more
      than once as a multiset. */
  lemma {:induction false} DistinctMultiplicity<T>(s: seq<T>)
    ensures Distinct(s) <==> forall x :: multiset(s)[x] <= 1
    decreases |s|
  {
    if s != [] {
      var t := s[1..];
      assert s == [s[0]] + t;
      DistinctMultiplicity(t);
      assert multiset(s) == multiset{s[0]} + multiset(t);
      if Distinct(s) {
        forall k | 0 <= k < |t| ensures t[k] != s[0] {
          assert t[k] == s[k + 1];
        }
        forall i, j | 0 <= i < j < |t| ensures t[i] != t[j] {
          assert t[i] == s[i + 1] && t[j] == s[j + 1];
        }
        assert multiset(t)[s[0]] == 0;
      }
      if forall x :: multiset(s)[x] <= 1 {
        forall x ensures multiset(t)[x] <= 1 {
          assert multiset(s)[x] == multiset(t)[x] + (if x == s[0] then 1 else 0);
        }
        assert multiset(t)[s[0]] == 0;
        forall i, j | 0 <= i < j < |s| ensures s[i] != s[j] {
          assert s[j] == t[j - 1];
          if i > 0 { assert s[i] == t[i - 1]; }
        }
      }
    }
  }

  /** Reordering never creates a duplicate. */
  lemma PermutationKeepsDistinct<T>(a: seq<T>, b: seq<T>)
    requires multiset(a) == multiset(b) && Distinct(a)
    ensures Distinct(b)
  {
    DistinctMultiplicity(a);
    DistinctMultiplicity(b);
  }

  /** Pigeonhole: a list of distinct values from `[0, n)` has at most `n`
      elements. */
  lemma {:induction false} DistinctBounded(s: seq<int>, n: nat)
    requires Distinct(s) && InRange(s, n)
    ensures |s| <= n
    decreases n
  {
    if s != [] {
      assert s[0] in s;
      if n - 1 in s {
        var k :| 0 <= k < |s| && s[k] == n - 1;
        var r := SpliceRemove(s, k);
        SpliceRemoveAt(s, k);
        SpliceRemoveKeepsDistinct(s, k);
        forall x | x in r ensures 0 <= x < n - 1 {
          var j :| 0 <= j < |r| && r[j] == x;
          if j < k { assert s[j] == x; } else { assert s[j + 1] == x; }
        }
        DistinctBounded(r, n - 1);
      } else {
        DistinctBounded(s, n - 1);
      }
    }
  }

  /** The direction of `sortPages`. */
  datatype Direction = Ascending | Descending

  /** Whether the comparator `(a, b) => a - b` (ascending) or
      `(a, b) => b - a` (descending) lets `x` come before `y`. */
  predicate InOrder(x: int, y: int, dir: Direction) {
    if dir == Ascending then x <= y else y <= x
  }

  ghost predicate SortedBy(s: seq<int>, dir: Direction) {
    forall i, j :: 0 <= i < j < |s| ==> InOrder(s[i], s[j], dir)
  }

  /** Inserts `x` into a sorted list, keeping it sorted. */
  function Insert(x: int, s: seq<int>, dir: Direction): (r: seq<int>)
    requires SortedBy(s, dir)
    ensures SortedBy(r, dir) && multiset(r) == multiset(s) + multiset{x}
    decreases |s|
  {
    if s == [] || InOrder(x, s[0], dir) then
      [x] + s
    else
      assert s == [s[0]] + s[1..];
      var r := Insert(x, s[1..], dir);
      HeadPrecedesInsert(s[0], x, s[1..], r, dir);
      ConsSorted(s[0], r, dir);
      [s[0]] + r
  }

  /** A value that comes before `x` and before every element of `t` comes
      before every element of a list holding `t` and `x`. */
  lemma HeadPrecedesInsert(h: int, x: int, t: seq<int>, r: seq<int>, dir: Direction)
    requires !InOrder(x, h, dir) && SortedBy([h] + t, dir)
    requires multiset(r) == multiset(t) + multiset{x}
    ensures forall k :: 0 <= k < |r| ==> InOrder(h, r[k], dir)
  {
    forall k | 0 <= k < |r| ensures InOrder(h, r[k], dir) {
      assert r[k] in multiset(r);
      if r[k] != x {
        assert r[k] in multiset(t);
        var j :| 0 <= j < |t| && t[j] == r[k];
        var ht := [h] + t;
        assert ht[0] == h && ht[j + 1] == t[j];
        assert InOrder(ht[0], ht[j + 1], dir);
      }
    }
  }

  /** A sorted list stays sorted behind a value that comes before all of it. */
  lemma ConsSorted(h: int, r: seq<int>, dir: Direction)
    requires SortedBy(r, dir)
    requires forall k :: 0 <= k < |r| ==> InOrder(h, r[k], dir)
    ensures SortedBy([h] + r, dir)
  {
    var s := [h] + r;
    forall i, j | 0 <= i < j < |s| ensures InOrder(s[i], s[j], dir) {
      assert s[j] == r[j - 1];
      if i > 0 { assert s[i] == r[i - 1]; }
    }
  }

  /** The head of a sorted list comes before each of its elements. */
  lemma HeadFirst(a: seq<int>, v: int, dir: Direction)
    requires SortedBy(a, dir) && v in multiset(a)
    ensures InOrder(a[0], v, dir)
  {
    var j :| 0 <= j < |a| && a[j] == v;
    if j > 0 { assert InOrder(a[0], a[j], dir); }
  }

  /** `a.sort(comparator)` with a numeric comparator: the sorted permutation of
      the list. */
  function Sort(s: seq<int>, dir: Direction): (r: seq<int>)
    ensures SortedBy(r, dir) && multiset(r) == multiset(s)
    decreases |s|
  {
    if s == [] then []
    else
      assert s == [s[0]] + s[1..];
      Insert(s[0], Sort(s[1..], dir), dir)
  }

  /** Dropping the head of a list drops one copy of it from the multiset. */
  lemma TailMultiset(a: seq<int>)
    requires a != []
    ensures multiset(a[1..]) == multiset(a) - multiset{a[0]}
  {
    assert a == [a[0]] + a[1..];
  }

  /** The tail of a sorted list is sorted. */
  lemma SortedTail(a: seq<int>, dir: Direction)
    requires a != [] && SortedBy(a, dir)
    ensures SortedBy(a[1..], dir)
  {
    forall i, j | 0 <= i < j < |a| - 1 ensures InOrder(a[1..][i], a[1..][j], dir) {
      assert a[1..][i] == a[i + 1] && a[1..][j] == a[j + 1];
    }
  }

  /** There is only one sorted arrangement of a multiset of numbers. */
  lemma {:induction false} SortedUnique(a: seq<int>, b: seq<int>, dir: Direction)
    requires SortedBy(a, dir) && SortedBy(b, dir) && multiset(a) == multiset(b)
    ensures a == b
    decreases |a|
  {
    if a == [] {
      assert |multiset(b)| == 0;
    } else {
      assert |b| == |a| by { assert |multiset(a)| == |multiset(b)|; }
      assert a[0] in multiset(b) && b[0] in multiset(a);
      HeadFirst(a, b[0], dir);
      HeadFirst(b, a[0], dir);
      assert a[0] == b[0];
      TailMultiset(a);
      TailMultiset(b);
      SortedTail(a, dir);
      SortedTail(b, dir);
      SortedUnique(a[1..], b[1..], dir);
    }
  }

  /** Sorting twice in the same direction gives the same list as sorting once. */
  lemma SortIdempotent(s: seq<int>, dir: Direction)
    ensures Sort(Sort(s, dir), dir) == Sort(s, dir)
  {
    SortedUnique(Sort(Sort(s, dir), dir), Sort(s, dir), dir);
  }
}
