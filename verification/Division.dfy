/** Facts about products, quotients and remainders. */
module Division {

  function Quotient(x: nat, n: nat): nat
    requires n > 0
  {
    x / n
  }

  function Remainder(x: nat, n: nat): (r: nat)
    requires n > 0
    ensures r < n
  {
    x % n
  }

  lemma MulGrows(x: nat, y: nat, z: nat)
    requires x <= y
    ensures x * z <= y * z
  {
  }

  lemma Distribute(q: nat, k: nat, size: nat)
    ensures (q + k) * size == q * size + k * size
  {
  }

  lemma DivUnique(a: nat, q: nat, r: nat, size: nat)
    requires r < size && a == q * size + r
    ensures a % size == r
  {
    var p, t := a / size, a % size;
    assert a == p * size + t;
    if p < q {
      MulGrows(p + 1, q, size);
      Distribute(p, 1, size);
    } else if q < p {
      MulGrows(q + 1, p, size);
      Distribute(q, 1, size);
    }
  }

  lemma ModDrop(x: nat, k: nat, size: nat)
    requires 0 < size
    ensures (x + k * size) % size == x % size
  {
    var q, r := x / size, x % size;
    Distribute(q, k, size);
    DivUnique(x + k * size, q + k, r, size);
  }

  /** What a quotient is bounded by. */
  lemma DivBelow(x: nat, n: nat, m: nat)
    requires 0 < n && x < m * n
    ensures x / n < m
  {
    if x / n >= m { MulGrows(m, x / n, n); }
  }

  /** Of two multiples the greater one is greater by at least n. */
  lemma NextMultiple(d: nat, e: nat, n: nat)
    requires d * n < e * n
    ensures d < e && (d + 1) * n == d * n + n <= e * n
  {
    if e <= d { MulGrows(e, d, n); }
    MulGrows(d + 1, e, n);
    Distribute(d, 1, n);
  }
}
