/** Quotients and remainders. */
module Division {

  lemma {:induction false} ModUnique(x: nat, d: nat, q: nat, r: nat)
    requires d > 0 && r < d && x == d * q + r
    ensures x % d == r
  {
    var p, s := x / d, x % d;
    assert x == d * p + s;
    assert d * (q - p) == s - r;
    NotBetween(d, q - p);
  }

  lemma {:induction false} NotBetween(d: int, x: int)
    requires d >= 0
    ensures x >= 1 ==> d * x >= d
    ensures x <= -1 ==> d * x <= -d
  {
    if x >= 1 {
      assert d * x == d + d * (x - 1);
    } else if x <= -1 {
      assert d * x == -d - d * (-x - 1);
    }
  }
}
