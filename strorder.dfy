/**
 * Python's ordering of `str` values (lexicographic by code point) and
 * `sorted()` applied to a set of strings.
 */
module StrOrder {

  /** `a < b` on Python strings. */
  predicate Less(a: string, b: string)
    decreases |a|
  {
    if a == [] then b != []
    else if b == [] then false
    else if a[0] != b[0] then a[0] < b[0]
    else Less(a[1..], b[1..])
  }

  lemma {:induction false} LessIrreflexive(a: string)
    ensures !Less(a, a)
    decreases |a|
  {
    if a != [] {
      LessIrreflexive(a[1..]);
    }
  }

  lemma {:induction false} LessTransitive(a: string, b: string, c: string)
    requires Less(a, b) && Less(b, c)
    ensures Less(a, c)
    decreases |a|
  {
    if a != [] && b != [] && c != [] && a[0] == b[0] && b[0] == c[0] {
      LessTransitive(a[1..], b[1..], c[1..]);
    }
  }

  lemma {:induction false} LessTotal(a: string, b: string)
    ensures a == b || Less(a, b) || Less(b, a)
    decreases |a|
  {
    if a != [] && b != [] && a[0] == b[0] {
      LessTotal(a[1..], b[1..]);
      if a[1..] == b[1..] {
        assert a == [a[0]] + a[1..] && b == [b[0]] + b[1..];
      }
    }
  }

  /** Strictly increasing, hence also free of duplicates. */
  predicate StrictlySorted(r: seq<string>) {
    forall i, j :: 0 <= i < j < |r| ==> Less(r[i], r[j])
  }

  /** `x` placed into the sorted sequence `r` at its position. */
  function Insert(r: seq<string>, x: string): (q: seq<string>)
    requires StrictlySorted(r) && x !in r
    ensures StrictlySorted(q)
    ensures |q| == |r| + 1
    ensures forall y :: y in q <==> y in r || y == x
    decreases |r|
  {
    if r == [] then [x]
    else if Less(x, r[0]) then
      assert StrictlySorted([x] + r) by {
        forall j | 0 < j < |r| {
          LessTransitive(x, r[0], r[j]);
        }
      }
      [x] + r
    else
      LessTotal(x, r[0]);
      var q' := Insert(r[1..], x);
      assert forall y :: y in q' ==> Less(r[0], y);
      [r[0]] + q'
  }

  /** `sorted(s)` for a set of strings: its elements, each once, in increasing order. */
  method SortStrings(s: set<string>) returns (r: seq<string>)
    ensures StrictlySorted(r)
    ensures |r| == |s|
    ensures forall x :: x in r <==> x in s
  {
    r := [];
    var rest := s;
    while rest != {}
      invariant StrictlySorted(r)
      invariant |r| + |rest| == |s|
      invariant rest <= s
      invariant forall x :: x in r <==> x in s && x !in rest
      decreases |rest|
    {
      var x :| x in rest;
      r := Insert(r, x);
      rest := rest - {x};
    }
  }

  /** Two increasing sequences with the same elements are equal: the result of
      sorting a set does not depend on how it was computed. */
  lemma {:induction false} SortedUnique(a: seq<string>, b: seq<string>)
    requires StrictlySorted(a) && StrictlySorted(b)
    requires forall x :: x in a <==> x in b
    ensures a == b
    decreases |a|
  {
    assert a == [] <==> b == [] by {
      if a != [] {
        assert a[0] in b;
      }
      if b != [] {
        assert b[0] in a;
      }
    }
    if a != [] {
      assert a[0] in b && b[0] in a;
      assert a[0] == b[0] by {
        LessTotal(a[0], b[0]);
        if Less(a[0], b[0]) {
          var k :| 0 <= k < |b| && b[k] == a[0];
          if k > 0 {
            LessTransitive(b[0], b[k], b[0]);
          }
          LessIrreflexive(b[0]);
        }
      }
      forall x | x in a[1..] ensures x in b[1..] {
        var k :| 1 <= k < |a| && a[k] == x;
        assert x in a;
        var m :| 0 <= m < |b| && b[m] == x;
        LessIrreflexive(x);
        assert m != 0;
        assert b[1..][m - 1] == x;
      }
      forall x | x in b[1..] ensures x in a[1..] {
        var k :| 1 <= k < |b| && b[k] == x;
        assert x in b;
        var m :| 0 <= m < |a| && a[m] == x;
        LessIrreflexive(x);
        assert m != 0;
        assert a[1..][m - 1] == x;
      }
      SortedUnique(a[1..], b[1..]);
      assert a == [a[0]] + a[1..] && b == [b[0]] + b[1..];
    }
  }
}
