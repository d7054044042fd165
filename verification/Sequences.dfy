/** Sequences of numbers without repetition. */
module Sequences {
  ghost predicate Distinct(q: seq<nat>) {
    forall i, j :: 0 <= i < j < |q| ==> q[i] != q[j]
  }

  ghost function Elements(q: seq<nat>): (r: set<nat>)
    ensures forall x :: x in r <==> x in q
  {
    set x | x in q
  }

  ghost function Below(n: nat): (r: set<nat>)
    ensures (forall x :: x in r <==> 0 <= x < n) && |r| == n
  {
    if n == 0 then {} else Below(n - 1) + {n - 1}
  }

  lemma {:induction false} DistinctSize(q: seq<nat>)
    requires Distinct(q)
    ensures |Elements(q)| == |q|
  {
    if q != [] {
      var rest, x := q[..|q| - 1], q[|q| - 1];
      DistinctSize(rest);
      assert q == rest + [x];
      assert Elements(q) == Elements(rest) + {x};
    } else {
      assert Elements(q) == {};
    }
  }

  /** `log` is 0, 1, ..., n - 1 in some order. */
  ghost predicate EachOnce(log: seq<nat>, n: nat) {
    |log| == n && Distinct(log) && forall i :: i in log <==> 0 <= i < n
  }

  lemma SubsetSize(a: set<nat>, b: set<nat>)
    requires a <= b
    ensures |a| <= |b|
  {
    assert b == a + (b - a);
  }
}
