/** Lexicographic order on equal-length integer sequences: the reference
    order that both version comparators are measured against. */
module Lexicographic {

  /** `a` is at or before `b`: at the first position where they differ, `a`
      holds the smaller integer (or they never differ). */
  predicate LexLeq(a: seq<int>, b: seq<int>)
    requires |a| == |b|
    decreases |a|
  {
    |a| == 0 || a[0] < b[0] || (a[0] == b[0] && LexLeq(a[1..], b[1..]))
  }

  /** Three-way comparison under the same order: 1 when `a` is after `b`,
      -1 when before, 0 when equal. */
  function LexCompare(a: seq<int>, b: seq<int>): (r: int)
    requires |a| == |b|
    ensures r == 0 <==> a == b
    ensures r >= 0 <==> LexLeq(b, a)
    ensures r <= 0 <==> LexLeq(a, b)
    ensures r == -1 || r == 0 || r == 1
    decreases |a|
  {
    if |a| == 0 then 0
    else if a[0] > b[0] then 1
    else if a[0] < b[0] then -1
    else
      var r := LexCompare(a[1..], b[1..]);
      assert a == [a[0]] + a[1..] && b == [b[0]] + b[1..];
      r
  }

  lemma {:induction false} LexLeqReflexive(a: seq<int>)
    ensures LexLeq(a, a)
    decreases |a|
  {
    if |a| > 0 {
      LexLeqReflexive(a[1..]);
    }
  }

  lemma {:induction false} LexLeqTransitive(a: seq<int>, b: seq<int>, c: seq<int>)
    requires |a| == |b| == |c|
    requires LexLeq(a, b) && LexLeq(b, c)
    ensures LexLeq(a, c)
    decreases |a|
  {
    if |a| > 0 && a[0] == b[0] == c[0] {
      LexLeqTransitive(a[1..], b[1..], c[1..]);
    }
  }

  lemma {:induction false} LexLeqTotal(a: seq<int>, b: seq<int>)
    requires |a| == |b|
    ensures LexLeq(a, b) || LexLeq(b, a)
    decreases |a|
  {
    if |a| > 0 && a[0] == b[0] {
      LexLeqTotal(a[1..], b[1..]);
    }
  }

  lemma {:induction false} LexLeqAntisymmetric(a: seq<int>, b: seq<int>)
    requires |a| == |b|
    requires LexLeq(a, b) && LexLeq(b, a)
    ensures a == b
    decreases |a|
  {
    if |a| > 0 {
      LexLeqAntisymmetric(a[1..], b[1..]);
      assert a == [a[0]] + a[1..] && b == [b[0]] + b[1..];
    }
  }

  /** On triples the order is the usual chain: first by the first
      component, then the second, then the third. */
  lemma LexLeqTriple(a0: int, a1: int, a2: int, b0: int, b1: int, b2: int)
    ensures LexLeq([a0, a1, a2], [b0, b1, b2])
        <==> a0 < b0 || (a0 == b0 && (a1 < b1 || (a1 == b1 && a2 <= b2)))
  {
    assert [a0, a1, a2][1..] == [a1, a2] && [b0, b1, b2][1..] == [b1, b2];
    assert [a1, a2][1..] == [a2] && [b1, b2][1..] == [b2];
    assert [a2][1..] == [] && [b2][1..] == [];
    assert LexLeq([a2], [b2]) <==> a2 <= b2;
    assert LexLeq([a1, a2], [b1, b2]) <==> a1 < b1 || (a1 == b1 && a2 <= b2);
  }
}
