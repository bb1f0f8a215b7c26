/**
 Python's ordering of `str` values (lexicographic on code points) and the two
 uses of `sorted` in the tools: sorting a list of directory entries, and
 sorting a set of terms or words into a list.
 */
module Order {

  /** `a <= b` on Python strings: `a` is a prefix of `b`, or at the first
      position where they differ `a` has the smaller code point. */
  predicate LessEq(a: string, b: string) {
    |a| == 0 || (|b| > 0 && (a[0] < b[0] || (a[0] == b[0] && LessEq(a[1..], b[1..]))))
  }

  /** `a < b` on Python strings. */
  predicate Less(a: string, b: string) {
    LessEq(a, b) && a != b
  }

  lemma {:induction false} LessEqReflexive(a: string)
    ensures LessEq(a, a)
  {
    if a != [] {
      LessEqReflexive(a[1..]);
    }
  }

  lemma {:induction false} LessEqAntisymmetric(a: string, b: string)
    requires LessEq(a, b) && LessEq(b, a)
    ensures a == b
  {
    if a != [] && b != [] {
      LessEqAntisymmetric(a[1..], b[1..]);
      assert a == [a[0]] + a[1..] && b == [b[0]] + b[1..];
    }
  }

  lemma {:induction false} LessEqTransitive(a: string, b: string, c: string)
    requires LessEq(a, b) && LessEq(b, c)
    ensures LessEq(a, c)
  {
    if a != [] && b != [] && c != [] && a[0] == b[0] == c[0] {
      LessEqTransitive(a[1..], b[1..], c[1..]);
    }
  }

  lemma {:induction false} LessEqTotal(a: string, b: string)
    ensures LessEq(a, b) || LessEq(b, a)
  {
    if a != [] && b != [] && a[0] == b[0] {
      LessEqTotal(a[1..], b[1..]);
    }
  }

  lemma AntisymmetricAll()
    ensures forall a, b :: LessEq(a, b) && LessEq(b, a) ==> a == b
  {
    forall a, b | LessEq(a, b) && LessEq(b, a) {
      LessEqAntisymmetric(a, b);
    }
  }

  /** Non-decreasing: the order `sorted` produces for a list. */
  predicate Sorted(s: seq<string>) {
    forall i, j :: 0 <= i < j < |s| ==> LessEq(s[i], s[j])
  }

  /** Strictly increasing: sorted and without duplicates. */
  predicate StrictlySorted(s: seq<string>) {
    forall i, j :: 0 <= i < j < |s| ==> Less(s[i], s[j])
  }

  // ---------------------------------------------------------------------------
  // sorted(a_set)
  // ---------------------------------------------------------------------------

  /** `m` is below every element of `s`. */
  predicate IsLowerBound(m: string, s: set<string>) {
    forall y :: y in s ==> LessEq(m, y)
  }

  /** A lower bound of `s` that is also below `x` bounds `s + {x}`. */
  lemma LowerBoundAdd(m: string, s: set<string>, x: string)
    requires IsLowerBound(m, s) && LessEq(m, x)
    ensures IsLowerBound(m, s + {x})
  {
  }

  /** Below a lower bound is a lower bound. */
  lemma LowerBoundBelow(x: string, m: string, s: set<string>)
    requires IsLowerBound(m, s) && LessEq(x, m)
    ensures IsLowerBound(x, s)
  {
    forall y | y in s ensures LessEq(x, y) {
      LessEqTransitive(x, m, y);
    }
  }

  /** Every non-empty finite set of strings has a least element. */
  lemma {:induction false} MinimumExists(s: set<string>)
    requires s != {}
    ensures exists m :: m in s && IsLowerBound(m, s)
    decreases |s|
  {
    var x :| x in s;
    var rest := s - {x};
    assert s == rest + {x};
    LessEqReflexive(x);
    if rest == {} {
      assert IsLowerBound(x, s);
    } else {
      MinimumExists(rest);
      var m :| m in rest && IsLowerBound(m, rest);
      LessEqTotal(x, m);
      if LessEq(x, m) {
        LowerBoundBelow(x, m, rest);
        LowerBoundAdd(x, rest, x);
      } else {
        LowerBoundAdd(m, rest, x);
      }
    }
  }

  /** The least element of a non-empty set (`min(s)`). */
  function Minimum(s: set<string>): (m: string)
    requires s != {}
    ensures m in s
    ensures forall y :: y in s ==> LessEq(m, y)
  {
    MinimumExists(s);
    AntisymmetricAll();
    var m :| m in s && IsLowerBound(m, s);
    m
  }

  /** `sorted(s)` for a set of strings: its elements in strictly increasing order. */
  function SortSet(s: set<string>): (r: seq<string>)
    ensures StrictlySorted(r)
    ensures forall x :: x in r <==> x in s
    ensures |r| == |s|
    decreases |s|
  {
    if s == {} then []
    else
      var m := Minimum(s);
      var rest := SortSet(s - {m});
      assert forall x :: x in rest ==> Less(m, x);
      [m] + rest
  }

  /** A strictly sorted list is determined by its elements, so `SortSet` is the
      only answer `sorted` can give. */
  lemma {:induction false} StrictlySortedUnique(a: seq<string>, b: seq<string>)
    requires StrictlySorted(a) && StrictlySorted(b)
    requires forall x :: x in a <==> x in b
    ensures a == b
  {
    assert a != [] ==> a[0] in b;
    assert b != [] ==> b[0] in a;
    if a != [] && b != [] {
      var i :| 0 <= i < |a| && a[i] == b[0];
      var j :| 0 <= j < |b| && b[j] == a[0];
      assert LessEq(a[0], b[0]) by { if i > 0 { assert Less(a[0], a[i]); } else { LessEqReflexive(a[0]); } }
      assert LessEq(b[0], a[0]) by { if j > 0 { assert Less(b[0], b[j]); } else { LessEqReflexive(b[0]); } }
      LessEqAntisymmetric(a[0], b[0]);
      forall x
        ensures x in a[1..] <==> x in b[1..]
      {
        if x in a[1..] {
          var k :| 1 <= k < |a| && a[k] == x;
          assert Less(a[0], a[k]);
          assert x in b;
        }
        if x in b[1..] {
          var k :| 1 <= k < |b| && b[k] == x;
          assert Less(b[0], b[k]);
          assert x in a;
        }
      }
      StrictlySortedUnique(a[1..], b[1..]);
      assert a == [a[0]] + a[1..] && b == [b[0]] + b[1..];
    }
  }

  // ---------------------------------------------------------------------------
  // sorted(a_list)
  // ---------------------------------------------------------------------------

  /** Inserts `x` into a sorted list after the entries smaller than it. */
  function Insert(x: string, s: seq<string>): (r: seq<string>)
    requires Sorted(s)
    ensures Sorted(r)
    ensures multiset(r) == multiset(s) + multiset{x}
  {
    if s == [] then [x]
    else if LessEq(x, s[0]) then
      BelowHead(x, s);
      [x] + s
    else
      var rest := Insert(x, s[1..]);
      assert s == [s[0]] + s[1..];
      LessEqTotal(x, s[0]);
      HeadBelowInsertion(x, s, rest);
      [s[0]] + rest
  }

  /** Whatever is below the head of a sorted list is below all of it. */
  lemma BelowHead(x: string, s: seq<string>)
    requires Sorted(s) && s != [] && LessEq(x, s[0])
    ensures forall k :: 0 <= k < |s| ==> LessEq(x, s[k])
  {
    forall k | 0 <= k < |s| ensures LessEq(x, s[k]) {
      if k > 0 { LessEqTransitive(x, s[0], s[k]); }
    }
  }

  /** The head of a sorted list is below the insertion of a larger `x` into its tail. */
  lemma HeadBelowInsertion(x: string, s: seq<string>, rest: seq<string>)
    requires Sorted(s) && s != [] && LessEq(s[0], x)
    requires multiset(rest) == multiset(s[1..]) + multiset{x}
    ensures forall y :: y in rest ==> LessEq(s[0], y)
  {
    forall y | y in rest ensures LessEq(s[0], y) {
      assert y in multiset(rest);
      if y != x {
        assert y in multiset(s[1..]);
        var k :| 0 <= k < |s[1..]| && s[1..][k] == y;
        assert s[k + 1] == y;
      }
    }
  }

  /** `sorted(xs)` for a list of strings: the same entries, in non-decreasing order. */
  function SortSeq(xs: seq<string>): (r: seq<string>)
    ensures Sorted(r)
    ensures multiset(r) == multiset(xs)
  {
    if xs == [] then []
    else
      assert xs == [xs[0]] + xs[1..];
      Insert(xs[0], SortSeq(xs[1..]))
  }

  /** The head of a sorted list is below every entry. */
  lemma SortedHeadIsLeast(a: seq<string>)
    requires Sorted(a) && a != []
    ensures forall x :: x in a ==> LessEq(a[0], x)
  {
    forall x | x in a
      ensures LessEq(a[0], x)
    {
      var i :| 0 <= i < |a| && a[i] == x;
      if i == 0 {
        LessEqReflexive(x);
      }
    }
  }

  /** A sorted list is determined by its entries (with multiplicity), so
      `SortSeq` is the only answer `sorted` can give. */
  lemma {:induction false} SortedPermutationUnique(a: seq<string>, b: seq<string>)
    requires Sorted(a) && Sorted(b)
    requires multiset(a) == multiset(b)
    ensures a == b
  {
    if a == [] {
      assert |multiset(b)| == 0;
    } else {
      assert b != [] by { assert a[0] in multiset(b); }
      assert a[0] in b by { assert a[0] in multiset(b); }
      assert b[0] in a by { assert b[0] in multiset(a); }
      SortedHeadIsLeast(a);
      SortedHeadIsLeast(b);
      LessEqAntisymmetric(a[0], b[0]);
      MultisetTail(a, b);
      SortedPermutationUnique(a[1..], b[1..]);
      assert a == [a[0]] + a[1..] && b == [b[0]] + b[1..];
    }
  }

  /** Equal bags with equal first entries have equal bags of the rest. */
  lemma MultisetTail(a: seq<string>, b: seq<string>)
    requires a != [] && b != [] && a[0] == b[0]
    requires multiset(a) == multiset(b)
    ensures multiset(a[1..]) == multiset(b[1..])
  {
    assert a == [a[0]] + a[1..] && b == [b[0]] + b[1..];
    assert multiset(a) == multiset{a[0]} + multiset(a[1..]);
    assert multiset(b) == multiset{b[0]} + multiset(b[1..]);
    forall y
      ensures multiset(a[1..])[y] == multiset(b[1..])[y]
    {
      assert multiset(a)[y] == multiset{a[0]}[y] + multiset(a[1..])[y];
      assert multiset(b)[y] == multiset{b[0]}[y] + multiset(b[1..])[y];
    }
  }
}
