/**
 * What `Collections.sort` promises for a list of integers: the result is in
 * ascending order and holds the same elements with the same multiplicities.
 * Insertion sort is used only to give that promise a definition; the library's
 * own algorithm is not modelled.
 */
module Sorting {

  predicate Ascending(xs: seq<int>) {
    forall i, j :: 0 <= i < j < |xs| ==> xs[i] <= xs[j]
  }

  predicate StrictlyAscending(xs: seq<int>) {
    forall i, j :: 0 <= i < j < |xs| ==> xs[i] < xs[j]
  }

  /** No element occurs twice. */
  predicate Distinct(xs: seq<int>) {
    forall i, j :: 0 <= i < j < |xs| ==> xs[i] != xs[j]
  }

  /** Prepending a value no larger than any element keeps a sequence ascending. */
  lemma ConsAscending(y: int, ys: seq<int>)
    requires Ascending(ys)
    requires forall z :: z in ys ==> y <= z
    ensures Ascending([y] + ys)
  {
    var r := [y] + ys;
    forall i, j | 0 <= i < j < |r| ensures r[i] <= r[j] {
      assert r[j] == ys[j - 1] && r[j] in ys;
      if i > 0 {
        assert r[i] == ys[i - 1];
      }
    }
  }

  /** Inserts x into an ascending sequence, keeping it ascending. */
  function Insert(x: int, xs: seq<int>): (r: seq<int>)
    requires Ascending(xs)
    ensures |r| == |xs| + 1
    ensures forall y :: y in r <==> y == x || y in xs
    ensures multiset(r) == multiset(xs) + multiset{x}
    ensures Ascending(r)
  {
    if xs == [] || x <= xs[0] then
      HeadAtLeast(x, xs);
      ConsAscending(x, xs);
      [x] + xs
    else
      assert xs == [xs[0]] + xs[1..];
      var rest := Insert(x, xs[1..]);
      HeadAtLeast(xs[0], xs[1..]);
      ConsAscending(xs[0], rest);
      [xs[0]] + rest
  }

  /** In an ascending sequence, a value no larger than the head is no larger than any element. */
  lemma HeadAtLeast(y: int, xs: seq<int>)
    requires Ascending(xs)
    requires xs != [] ==> y <= xs[0]
    ensures forall z :: z in xs ==> y <= z
  {
    forall z | z in xs ensures y <= z {
      HeadIsLeast(xs, z);
    }
  }

  /** The list `Collections.sort` leaves behind: ascending, and a permutation of its input. */
  function Sort(xs: seq<int>): (r: seq<int>)
    ensures Ascending(r)
    ensures multiset(r) == multiset(xs)
    ensures |r| == |xs|
  {
    if xs == [] then []
    else
      assert xs == [xs[0]] + xs[1..];
      Insert(xs[0], Sort(xs[1..]))
  }

  /** The first element of an ascending sequence is its least. */
  lemma HeadIsLeast(xs: seq<int>, y: int)
    requires Ascending(xs) && y in xs
    ensures xs[0] <= y
  {
    var k :| 0 <= k < |xs| && xs[k] == y;
    if k > 0 {
      assert xs[0] <= xs[k];
    }
  }

  /** Sorting is fully determined by its contract: two ascending permutations of each other are equal. */
  lemma {:induction false} AscendingPermutationUnique(a: seq<int>, b: seq<int>)
    requires Ascending(a) && Ascending(b)
    requires multiset(a) == multiset(b)
    ensures a == b
  {
    assert |a| == |multiset(a)| == |multiset(b)| == |b|;
    if a == [] {
      assert b == [];
    } else {
      assert a[0] in multiset(a) && b[0] in multiset(b);
      HeadIsLeast(b, a[0]);
      HeadIsLeast(a, b[0]);
      assert a[0] == b[0];
      TailBag(a);
      TailBag(b);
      AscendingPermutationUnique(a[1..], b[1..]);
      assert a == [a[0]] + a[1..] == [b[0]] + b[1..] == b;
    }
  }

  /** Dropping the head removes one occurrence of it from the bag, and keeps the order. */
  lemma TailBag(a: seq<int>)
    requires a != []
    ensures multiset(a[1..]) == multiset(a) - multiset{a[0]}
    ensures Ascending(a) ==> Ascending(a[1..])
  {
    assert a == [a[0]] + a[1..];
  }

  /** Past the head of a strictly ascending sequence lie exactly its other elements. */
  lemma StrictTail(a: seq<int>)
    requires StrictlyAscending(a) && a != []
    ensures forall x :: x in a[1..] <==> x in a && x != a[0]
  {
    forall x | x in a && x != a[0] ensures x in a[1..] {
      var m :| 0 <= m < |a| && a[m] == x;
      assert a[1..][m - 1] == x;
    }
  }

  /** Two strictly ascending sequences with the same elements are equal. */
  lemma {:induction false} StrictlyAscendingUnique(a: seq<int>, b: seq<int>)
    requires StrictlyAscending(a) && StrictlyAscending(b)
    requires forall x :: x in a <==> x in b
    ensures a == b
  {
    if b != [] {
      assert b[0] in b;
    }
    if a != [] {
      assert a[0] in a;
      HeadIsLeast(a, b[0]);
      HeadIsLeast(b, a[0]);
      StrictTail(a);
      StrictTail(b);
      StrictlyAscendingUnique(a[1..], b[1..]);
      assert a == [a[0]] + a[1..] && b == [b[0]] + b[1..];
    }
  }

  /** A sequence is duplicate-free exactly when every value occurs in it at most once. */
  lemma {:induction false} DistinctIffSingleOccurrences(xs: seq<int>)
    ensures Distinct(xs) <==> forall x :: multiset(xs)[x] <= 1
  {
    if xs != [] {
      var t := xs[1..];
      assert xs == [xs[0]] + t;
      DistinctIffSingleOccurrences(t);
      if Distinct(xs) {
        assert xs[0] !in t;
        assert Distinct(t) by {
          forall i, j | 0 <= i < j < |t| ensures t[i] != t[j] {
            assert t[i] == xs[i + 1] && t[j] == xs[j + 1];
          }
        }
      }
      if forall x :: multiset(xs)[x] <= 1 {
        assert forall x :: multiset(t)[x] <= 1 by {
          forall x ensures multiset(t)[x] <= 1 {
            assert multiset(xs)[x] == multiset(t)[x] + (if x == xs[0] then 1 else 0);
          }
        }
        assert multiset(t)[xs[0]] == 0 by {
          assert multiset(xs)[xs[0]] == multiset(t)[xs[0]] + 1;
        }
        forall i, j | 0 <= i < j < |xs| ensures xs[i] != xs[j] {
          if i == 0 {
            assert xs[j] == t[j - 1] && xs[j] in t;
          } else {
            assert xs[i] == t[i - 1] && xs[j] == t[j - 1];
          }
        }
      }
    }
  }

  /** Sorting a duplicate-free list yields a strictly ascending one. */
  lemma SortDistinctIsStrict(xs: seq<int>)
    requires Distinct(xs)
    ensures StrictlyAscending(Sort(xs))
  {
    var r := Sort(xs);
    DistinctIffSingleOccurrences(xs);
    DistinctIffSingleOccurrences(r);
  }
}
