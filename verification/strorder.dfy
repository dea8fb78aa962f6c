/** Python's ordering of `str` values and `sorted(set(...))` over strings. */
module StrOrder {

  /** Python's `a < b` on `str`: lexicographic by code point, a proper
      prefix ordered first. */
  predicate Less(a: string, b: string)
    ensures Less(a, b) ==> a != b
    decreases |a|
  {
    if |a| == 0 then |b| > 0
    else if |b| == 0 then false
    else if a[0] != b[0] then a[0] < b[0]
    else Less(a[1..], b[1..])
  }

  lemma {:induction false} LessIrreflexive(a: string)
    ensures !Less(a, a)
    decreases |a|
  {
    if |a| > 0 {
      LessIrreflexive(a[1..]);
    }
  }

  lemma {:induction false} LessTransitive(a: string, b: string, c: string)
    requires Less(a, b) && Less(b, c)
    ensures Less(a, c)
    decreases |a|
  {
    if |a| > 0 && a[0] == b[0] && b[0] == c[0] {
      LessTransitive(a[1..], b[1..], c[1..]);
    }
  }

  /** Any two different strings are ordered one way or the other. */
  lemma {:induction false} LessTotal(a: string, b: string)
    requires a != b
    ensures Less(a, b) || Less(b, a)
    decreases |a|
  {
    if |a| > 0 && |b| > 0 && a[0] == b[0] {
      assert a == [a[0]] + a[1..] && b == [b[0]] + b[1..];
      LessTotal(a[1..], b[1..]);
    }
  }

  lemma LessAsymmetric(a: string, b: string)
    requires Less(a, b)
    ensures !Less(b, a)
  {
    if Less(b, a) {
      LessTransitive(a, b, a);
      LessIrreflexive(a);
    }
  }

  /** Ascending and free of repeats. */
  predicate StrictlySorted(xs: seq<string>) {
    forall i, j :: 0 <= i < j < |xs| ==> Less(xs[i], xs[j])
  }

  lemma SortedCons(h: string, xs: seq<string>)
    requires StrictlySorted(xs)
    requires forall y :: y in xs ==> Less(h, y)
    ensures StrictlySorted([h] + xs)
  {
    var r := [h] + xs;
    forall i, j | 0 <= i < j < |r| ensures Less(r[i], r[j]) {
      if i == 0 {
        assert r[j] == xs[j - 1];
      } else {
        assert r[i] == xs[i - 1] && r[j] == xs[j - 1];
      }
    }
  }

  /** The head of a strictly sorted sequence is below everything after it. */
  lemma HeadBelowTail(xs: seq<string>)
    requires StrictlySorted(xs) && |xs| > 0
    ensures forall y :: y in xs[1..] ==> Less(xs[0], y)
  {
    forall y | y in xs[1..] ensures Less(xs[0], y) {
      var k :| 0 <= k < |xs[1..]| && xs[1..][k] == y;
      assert xs[k + 1] == y;
    }
  }

  /** `x` placed into a strictly sorted sequence, unless it is already there. */
  function Insert(x: string, xs: seq<string>): (r: seq<string>)
    requires StrictlySorted(xs)
    ensures StrictlySorted(r)
    ensures forall y :: y in r <==> y == x || y in xs
    decreases |xs|
  {
    if |xs| == 0 then [x]
    else if x == xs[0] then xs
    else if Less(x, xs[0]) then
      HeadBelowTail(xs);
      assert forall y :: y in xs ==> Less(x, y) by {
        forall y | y in xs ensures Less(x, y) {
          if y != xs[0] {
            assert y in xs[1..] by { assert xs == [xs[0]] + xs[1..]; }
            LessTransitive(x, xs[0], y);
          }
        }
      }
      SortedCons(x, xs);
      [x] + xs
    else
      LessTotal(x, xs[0]);
      HeadBelowTail(xs);
      var rest := Insert(x, xs[1..]);
      SortedCons(xs[0], rest);
      assert xs == [xs[0]] + xs[1..];
      [xs[0]] + rest
  }

  /** `sorted(set(xs))`: the distinct elements of `xs` in ascending order. */
  function SortDistinct(xs: seq<string>): (r: seq<string>)
    ensures StrictlySorted(r)
    ensures forall y :: y in r <==> y in xs
  {
    if |xs| == 0 then []
    else
      assert xs == [xs[0]] + xs[1..];
      Insert(xs[0], SortDistinct(xs[1..]))
  }

  /** Two strictly sorted sequences with the same elements are equal: the
      sorted order of a set does not depend on how the set was built. */
  lemma {:induction false} SortedUnique(a: seq<string>, b: seq<string>)
    requires StrictlySorted(a) && StrictlySorted(b)
    requires forall y :: y in a <==> y in b
    ensures a == b
    decreases |a|
  {
    SortedLength(a);
    SortedLength(b);
    assert Elems(a) == Elems(b);
    if |a| > 0 {
      assert a[0] in b;
      HeadBelowTail(a);
      HeadBelowTail(b);
      assert a == [a[0]] + a[1..];
      assert b == [b[0]] + b[1..];
      if a[0] != b[0] {
        assert b[0] in a && b[0] in a[1..];
        assert a[0] in b[1..];
        LessAsymmetric(a[0], b[0]);
        assert false;
      }
      forall y ensures y in a[1..] <==> y in b[1..] {
        if y in a[1..] {
          LessIrreflexive(a[0]);
          assert y != a[0];
          assert y in b;
        }
        if y in b[1..] {
          LessIrreflexive(b[0]);
          assert y != b[0];
          assert y in a;
        }
      }
      SortedUnique(a[1..], b[1..]);
    }
  }

  /** The set of elements of a sequence. */
  function Elems(xs: seq<string>): set<string> {
    set y | y in xs
  }

  /** A strictly sorted sequence has no repeats, so its length counts its
      distinct elements. */
  lemma {:induction false} SortedLength(xs: seq<string>)
    requires StrictlySorted(xs)
    ensures |Elems(xs)| == |xs|
    decreases |xs|
  {
    if |xs| > 0 {
      HeadBelowTail(xs);
      LessIrreflexive(xs[0]);
      assert xs == [xs[0]] + xs[1..];
      assert Elems(xs) == {xs[0]} + Elems(xs[1..]);
      assert xs[0] !in Elems(xs[1..]);
      SortedLength(xs[1..]);
    }
  }

  /** `len(sorted(set(xs)))` is the number of distinct elements of `xs`. */
  lemma SortDistinctLength(xs: seq<string>)
    ensures |SortDistinct(xs)| == |Elems(xs)|
  {
    var r := SortDistinct(xs);
    SortedLength(r);
    assert Elems(r) == Elems(xs);
  }
}
