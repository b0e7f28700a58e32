/** Sorting by a key comparison, as the core gets it from Python's `sorted`,
    `natsorted` and pandas' `sort_values`: a stable insertion sort by a total
    preorder, with its two promises (ordered, a permutation) and uniqueness of the
    result when the order has no ties among the elements. */
module Sorting {

  ghost predicate TotalPreorder<T(!new)>(le: (T, T) -> bool) {
    && (forall a, b :: le(a, b) || le(b, a))
    && (forall a, b, c :: le(a, b) && le(b, c) ==> le(a, c))
  }

  /** Concatenation regrouped, for sequences whose elements are costly to compare. */
  lemma ConcatAssoc<T>(x: seq<T>, y: seq<T>, z: seq<T>)
    ensures x + (y + z) == (x + y) + z
  {
  }

  predicate SortedBy<T>(s: seq<T>, le: (T, T) -> bool) {
    forall i, j :: 0 <= i < j < |s| ==> le(s[i], s[j])
  }

  /** No two distinct elements of `s` tie under `le`. */
  predicate NoTies<T(==)>(s: seq<T>, le: (T, T) -> bool) {
    forall i, j :: 0 <= i < |s| && 0 <= j < |s| && le(s[i], s[j]) && le(s[j], s[i]) ==> s[i] == s[j]
  }

  /** Inserts `x` before the first element it does not come after. */
  function Insert<T(!new)>(x: T, s: seq<T>, le: (T, T) -> bool): (r: seq<T>)
    requires TotalPreorder(le) && SortedBy(s, le)
    ensures SortedBy(r, le)
    ensures multiset(r) == multiset(s) + multiset{x}
    ensures |r| == |s| + 1
  {
    if s == [] then [x]
    else if le(x, s[0]) then
      assert forall j :: 0 <= j < |s| ==> le(x, s[j]) by {
        forall j | 0 <= j < |s| ensures le(x, s[j]) {
          if j > 0 {
            assert le(s[0], s[j]);
          }
        }
      }
      assert s == [s[0]] + s[1..];
      [x] + s
    else
      var tail := Insert(x, s[1..], le);
      assert forall j :: 0 <= j < |tail| ==> le(s[0], tail[j]) by {
        forall j | 0 <= j < |tail| ensures le(s[0], tail[j]) {
          assert tail[j] in multiset(tail);
          if tail[j] != x {
            assert tail[j] in multiset(s[1..]);
            var k :| 0 <= k < |s[1..]| && s[1..][k] == tail[j];
            assert le(s[0], s[k + 1]);
          }
        }
      }
      assert s == [s[0]] + s[1..];
      [s[0]] + tail
  }

  /** A stable sort: elements that tie keep their input order. */
  function Sort<T(!new)>(s: seq<T>, le: (T, T) -> bool): (r: seq<T>)
    requires TotalPreorder(le)
    ensures SortedBy(r, le)
    ensures multiset(r) == multiset(s)
    ensures |r| == |s|
  {
    if s == [] then []
    else
      assert s == [s[0]] + s[1..];
      Insert(s[0], Sort(s[1..], le), le)
  }

  lemma SortedHeadsAgree<T>(a: seq<T>, b: seq<T>, le: (T, T) -> bool)
    requires SortedBy(a, le) && SortedBy(b, le)
    requires multiset(a) == multiset(b) && a != []
    requires NoTies(a, le)
    ensures b != [] && a[0] == b[0]
  {
    assert a[0] in multiset(b);
    var i :| 0 <= i < |b| && b[i] == a[0];
    assert b[0] in multiset(a);
    var j :| 0 <= j < |a| && a[j] == b[0];
    assert le(b[0], b[i]) || i == 0;
    assert le(a[0], a[j]) || j == 0;
  }

  lemma TailsAgree<T>(a: seq<T>, b: seq<T>, le: (T, T) -> bool)
    requires a != [] && b != [] && a[0] == b[0] && multiset(a) == multiset(b)
    requires NoTies(a, le)
    ensures multiset(a[1..]) == multiset(b[1..])
    ensures NoTies(a[1..], le)
  {
    TailMultiset(a);
    TailMultiset(b);
    TailNoTies(a, le);
  }

  lemma TailMultiset<T>(a: seq<T>)
    requires a != []
    ensures multiset(a[1..]) == multiset(a) - multiset{a[0]}
  {
    assert a == [a[0]] + a[1..];
  }

  lemma TailNoTies<T>(a: seq<T>, le: (T, T) -> bool)
    requires a != [] && NoTies(a, le)
    ensures NoTies(a[1..], le)
  {
    var tail := a[1..];
    forall i, j | 0 <= i < |tail| && 0 <= j < |tail| && le(tail[i], tail[j]) && le(tail[j], tail[i])
      ensures tail[i] == tail[j]
    {
      assert tail[i] == a[i + 1] && tail[j] == a[j + 1];
    }
  }

  /** When no two elements tie, the sorted order is the only one. */
  lemma {:induction false} SortedUnique<T>(a: seq<T>, b: seq<T>, le: (T, T) -> bool)
    requires SortedBy(a, le) && SortedBy(b, le)
    requires multiset(a) == multiset(b)
    requires NoTies(a, le)
    ensures a == b
    decreases |a|
  {
    if a == [] {
      assert |b| == |multiset(b)| == 0;
    } else {
      SortedHeadsAgree(a, b, le);
      TailsAgree(a, b, le);
      SortedUnique(a[1..], b[1..], le);
      assert a == [a[0]] + a[1..] && b == [b[0]] + b[1..];
    }
  }

  predicate Distinct<T(==)>(s: seq<T>) {
    forall i, j :: 0 <= i < j < |s| ==> s[i] != s[j]
  }

  lemma {:induction false} DistinctMultiplicity<T>(s: seq<T>, x: T)
    requires Distinct(s)
    ensures multiset(s)[x] <= 1
  {
    if s != [] {
      DistinctMultiplicity(s[1..], x);
      assert s == [s[0]] + s[1..];
      if s[0] == x {
        forall k | 0 <= k < |s[1..]| ensures s[1..][k] != x {
          assert s[1..][k] == s[k + 1];
        }
      }
    }
  }

  /** Reordering keeps a sequence free of repetitions. */
  lemma PermutationKeepsDistinct<T>(a: seq<T>, b: seq<T>)
    requires multiset(a) == multiset(b) && Distinct(a)
    ensures Distinct(b)
  {
    forall i, j | 0 <= i < j < |b| ensures b[i] != b[j] {
      if b[i] == b[j] {
        assert b == b[..j] + b[j..];
        assert b[i] in b[..j] && b[j] in b[j..];
        assert multiset(b)[b[i]] >= 2;
        DistinctMultiplicity(a, b[i]);
        assert false;
      }
    }
  }
}
