/** Python's ordering of `str` values (code point by code point, a proper prefix
    first) and `sorted()` over a set of strings, which the core uses for record ids,
    dict keys and author names. */
module StringOrder {

  /** `a < b` on Python strings. */
  predicate Less(a: string, b: string) {
    if a == [] then b != []
    else if b == [] then false
    else if a[0] != b[0] then a[0] < b[0]
    else Less(a[1..], b[1..])
  }

  predicate LessEq(a: string, b: string) {
    a == b || Less(a, b)
  }

  lemma {:induction false} LessIrreflexive(a: string)
    ensures !Less(a, a)
  {
    if a != [] {
      LessIrreflexive(a[1..]);
    }
  }

  lemma {:induction false} LessTransitive(a: string, b: string, c: string)
    requires Less(a, b) && Less(b, c)
    ensures Less(a, c)
  {
    if a != [] && b != [] && c != [] && a[0] == b[0] && b[0] == c[0] {
      LessTransitive(a[1..], b[1..], c[1..]);
    }
  }

  lemma {:induction false} LessTotal(a: string, b: string)
    ensures a == b || Less(a, b) || Less(b, a)
  {
    if a != [] && b != [] && a[0] == b[0] {
      LessTotal(a[1..], b[1..]);
      if a[1..] == b[1..] {
        assert a == [a[0]] + a[1..] && b == [b[0]] + b[1..];
      }
    }
  }

  lemma {:induction false} LessAsymmetric(a: string, b: string)
    requires Less(a, b)
    ensures !Less(b, a) && a != b
  {
    if Less(b, a) {
      LessTransitive(a, b, a);
      LessIrreflexive(a);
    }
    if a == b {
      LessIrreflexive(a);
    }
  }

  /** Python strings compare as a total order. */
  lemma LessEqTotalOrder()
    ensures forall a, b :: LessEq(a, b) || LessEq(b, a)
    ensures forall a, b :: LessEq(a, b) && LessEq(b, a) ==> a == b
    ensures forall a, b, c :: LessEq(a, b) && LessEq(b, c) ==> LessEq(a, c)
  {
    forall a, b ensures LessEq(a, b) || LessEq(b, a) {
      LessTotal(a, b);
    }
    forall a, b | LessEq(a, b) && LessEq(b, a) ensures a == b {
      if a != b {
        LessAsymmetric(a, b);
      }
    }
    forall a, b, c | LessEq(a, b) && LessEq(b, c) ensures LessEq(a, c) {
      if a != b && b != c {
        LessTransitive(a, b, c);
      }
    }
  }

  function Elements(s: seq<string>): set<string> {
    set x | x in s
  }

  predicate StrictlySorted(s: seq<string>) {
    forall i, j :: 0 <= i < j < |s| ==> Less(s[i], s[j])
  }

  predicate IsMinimum(m: string, s: set<string>) {
    m in s && forall x :: x in s ==> LessEq(m, x)
  }

  lemma {:induction false} MinimumExists(s: set<string>)
    requires s != {}
    ensures exists m :: IsMinimum(m, s)
    decreases |s|
  {
    var x :| x in s;
    if s == {x} {
      assert IsMinimum(x, s);
    } else {
      MinimumExists(s - {x});
      var m :| IsMinimum(m, s - {x});
      LessTotal(m, x);
      if Less(x, m) {
        forall y | y in s ensures LessEq(x, y) {
          if y != x && y != m {
            assert y in s - {x};
            LessTransitive(x, m, y);
          }
        }
        assert IsMinimum(x, s);
      } else {
        assert IsMinimum(m, s);
      }
    }
  }

  lemma MinimumUnique(s: set<string>)
    ensures forall m, n :: IsMinimum(m, s) && IsMinimum(n, s) ==> m == n
  {
    forall m, n | IsMinimum(m, s) && IsMinimum(n, s) ensures m == n {
      if m != n {
        LessAsymmetric(m, n);
      }
    }
  }

  /** `sorted(s)` for a set of strings: ascending, each element once. */
  function Sorted(s: set<string>): (r: seq<string>)
    ensures StrictlySorted(r)
    ensures Elements(r) == s
    ensures |r| == |s|
    decreases |s|
  {
    if s == {} then []
    else
      MinimumExists(s);
      MinimumUnique(s);
      var m :| IsMinimum(m, s);
      var rest := Sorted(s - {m});
      PrependMinimum(m, s, rest);
      [m] + rest
  }

  lemma PrependMinimum(m: string, s: set<string>, rest: seq<string>)
    requires IsMinimum(m, s)
    requires StrictlySorted(rest) && Elements(rest) == s - {m}
    ensures StrictlySorted([m] + rest) && Elements([m] + rest) == s
  {
    forall i | 0 <= i < |rest| ensures Less(m, rest[i]) {
      assert rest[i] in Elements(rest);
    }
    assert Elements([m] + rest) == {m} + Elements(rest);
  }

  lemma SortedUnfold(s: set<string>, m: string)
    requires IsMinimum(m, s)
    ensures Sorted(s) == [m] + Sorted(s - {m})
  {
    MinimumUnique(s);
  }

  lemma HeadIsMinimum(a: seq<string>)
    requires StrictlySorted(a) && a != []
    ensures IsMinimum(a[0], Elements(a))
    ensures Elements(a[1..]) == Elements(a) - {a[0]}
  {
    forall x | x in Elements(a) ensures LessEq(a[0], x) {
      var k :| 0 <= k < |a| && a[k] == x;
    }
    forall x ensures x in Elements(a[1..]) <==> x in Elements(a) - {a[0]} {
      if x in Elements(a[1..]) {
        var k :| 1 <= k < |a| && a[k] == x;
        LessAsymmetric(a[0], x);
      }
      if x in Elements(a) - {a[0]} {
        var k :| 0 <= k < |a| && a[k] == x;
        assert a[1..][k - 1] == x;
      }
    }
  }

  /** A strictly sorted sequence is the sorted list of its own elements. */
  lemma {:induction false} StrictlySortedIsSorted(a: seq<string>)
    requires StrictlySorted(a)
    ensures a == Sorted(Elements(a))
    decreases |a|
  {
    if a != [] {
      HeadIsMinimum(a);
      SortedUnfold(Elements(a), a[0]);
      StrictlySortedIsSorted(a[1..]);
      assert a == [a[0]] + a[1..];
    }
  }

  /** A strictly sorted sequence is determined by its elements. */
  lemma StrictlySortedUnique(a: seq<string>, b: seq<string>)
    requires StrictlySorted(a) && StrictlySorted(b)
    requires Elements(a) == Elements(b)
    ensures a == b
  {
    StrictlySortedIsSorted(a);
    StrictlySortedIsSorted(b);
  }
}
