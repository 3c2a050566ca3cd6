/** Sums and extremes of series of reals, and the sizes of finite sets. */
module RealSeries {
  function Sum(xs: seq<real>): real { if xs == [] then 0.0 else Sum(xs[..|xs| - 1]) + xs[|xs| - 1] }

  function Least(xs: seq<real>): real
    requires xs != []
  {
    var last := xs[|xs| - 1];
    if |xs| == 1 || last <= Least(xs[..|xs| - 1]) then last else Least(xs[..|xs| - 1])
  }

  function Greatest(xs: seq<real>): real
    requires xs != []
  {
    var last := xs[|xs| - 1];
    if |xs| == 1 || last >= Greatest(xs[..|xs| - 1]) then last else Greatest(xs[..|xs| - 1])
  }

  lemma {:induction false} LeastIsLeast(xs: seq<real>)
    requires xs != []
    ensures Least(xs) in xs && forall x :: x in xs ==> Least(xs) <= x
  {
    if |xs| > 1 {
      LeastIsLeast(xs[..|xs| - 1]);
      assert forall x :: x in xs <==> x == xs[|xs| - 1] || x in xs[..|xs| - 1];
    }
  }

  lemma {:induction false} GreatestIsGreatest(xs: seq<real>)
    requires xs != []
    ensures Greatest(xs) in xs && forall x :: x in xs ==> x <= Greatest(xs)
  {
    if |xs| > 1 {
      GreatestIsGreatest(xs[..|xs| - 1]);
      assert forall x :: x in xs <==> x == xs[|xs| - 1] || x in xs[..|xs| - 1];
    }
  }

  lemma SubsetSize<T>(a: set<T>, b: set<T>)
    requires a <= b
    ensures |a| <= |b| && (|a| == |b| ==> a == b)
  {
    assert b == a + (b - a);
    assert |b| == |a| + |b - a|;
  }
}
