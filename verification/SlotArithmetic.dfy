/** The few facts about remainders and common multiples on which the slot timeline rests.
    Python's remainder with a positive modulus is the Euclidean one, so it is Dafny's `%`
    for negative slots too. */
module SlotArithmetic {
  lemma ProductBound(d: int, n: int)
    requires n > 0
    ensures d >= 1 ==> d * n >= n
    ensures d == 0 ==> d * n == 0
    ensures d <= -1 ==> d * n <= -n
  {
  }

  lemma Distribute(a: int, b: int, n: int)
    ensures (a + b) * n == a * n + b * n
  {
  }

  lemma ModUnique(x: int, n: int, q: int, r: int)
    requires 0 <= r < n && x == q * n + r
    ensures x % n == r
  {
    var d := x / n - q;
    assert d * n == r - x % n;
    ProductBound(d, n);
  }

  lemma ModShift(x: int, k: int, n: int)
    requires n > 0
    ensures (x + k * n) % n == x % n
  {
    assert x + k * n == (x / n + k) * n + x % n;
    ModUnique(x + k * n, n, x / n + k, x % n);
  }

  // The candidate multiples a, 2a, 3a, ... are tried in order; b * a is one at the latest.
  function LcmFrom(a: int, b: int, k: int): (r: int)
    requires a > 0 && 1 <= k <= b
    ensures r >= a * k && r % a == 0 && r % b == 0
    ensures forall i :: k <= i && a * i < r ==> (a * i) % b != 0
    decreases b - k
  {
    ModUnique(a * k, a, k, 0);
    if k == b then
      ModUnique(a * b, b, a, 0);
      a * b
    else if (a * k) % b == 0 then a * k
    else
      var r := LcmFrom(a, b, k + 1);
      assert a * (k + 1) == a * k + a;
      r
  }

  /** math.lcm on positive arguments. */
  function Lcm(a: int, b: int): (r: int)
    requires a > 0 && b > 0
    ensures r >= a && r % a == 0 && r % b == 0
  {
    LcmFrom(a, b, 1)
  }

  lemma LcmIsLeast(a: int, b: int, m: int)
    requires a > 0 && b > 0 && m > 0 && m % a == 0 && m % b == 0
    ensures Lcm(a, b) <= m
  {
    var i := m / a;
    assert m == a * i;
    ProductBound(i, a);
  }
}
