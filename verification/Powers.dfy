/** Powers of two and division by them, for bit fields and address blocks. */
module Powers {

  function Pow2(n: nat): (p: nat)
    ensures p > 0
  {
    if n == 0 then 1 else 2 * Pow2(n - 1)
  }

  lemma {:induction false} Pow2Monotone(m: nat, n: nat)
    requires m <= n
    ensures Pow2(m) <= Pow2(n)
  {
    if m < n {
      Pow2Monotone(m, n - 1);
    }
  }

  lemma {:induction false} Pow2Add(m: nat, n: nat)
    ensures Pow2(m + n) == Pow2(m) * Pow2(n)
  {
    if n > 0 {
      Pow2Add(m, n - 1);
    }
  }

  // ----- Quotients and remainders -----

  lemma ModUnique(x: int, m: nat, q: int, r: nat)
    requires m > 0 && x == q * m + r && r < m
    ensures x % m == r && x / m == q
  {
    var e := x / m;
    assert x == e * m + x % m;
    Distribute(e, q, m);
    SmallMultiple(e - q, m);
  }

  lemma Distribute(a: int, b: int, m: int)
    ensures (a - b) * m == a * m - b * m
  {
  }

  lemma SmallMultiple(d: int, m: nat)
    requires 0 < d * m + m && d * m < m
    ensures d == 0
  {
    if d >= 1 {
      Distribute(d, 1, m);
      Product(d - 1, m);
    } else if d <= -1 {
      Distribute(-1, d, m);
      Product(-1 - d, m);
    }
  }

  lemma Product(a: nat, b: nat)
    ensures a * b >= 0
  {
  }
}
