/** Quotients and remainders. */
module Division {

  lemma Factor(a: nat, w: nat)
    requires w > 0
    ensures a == a / w * w + a % w
  {
  }

  lemma Products(x: int, w: nat)
    ensures x >= 0 ==> x * w >= 0
  {
  }

  /** Quotient and remainder are determined by a == k * w + r. */
  lemma Unique(a: int, k: int, r: nat, w: nat)
    requires r < w && a == k * w + r
    ensures a / w == k && a % w == r
  {
    var d := a / w - k;
    assert d * w == r - a % w;
    Products(d - 1, w);
    Products(-d - 1, w);
  }

  lemma SameRemainder(h: nat, r: nat, q: nat, m: nat)
    requires m > 0 && h == q * m + r
    ensures h % m == r % m
  {
    Factor(r, m);
    assert h == (q + r / m) * m + r % m;
    Unique(h, q + r / m, r % m, m);
  }

  lemma Regroup(n: nat, q: nat, m: nat, u: nat, v: nat, w: nat, x: nat, y: nat)
    requires u == v * w && n == q * u + m && m == x * v + y
    ensures n == (q * w + x) * v + y
  {
    assert q * u == q * w * v;
  }

  /** A number cut to u = v * w has the same remainder by v, and its quotient is cut to w. */
  lemma Cut(n: nat, v: nat, w: nat, u: nat)
    requires v > 0 && w > 0 && u > 0 && u == v * w
    ensures (n % u) % v == n % v && (n % u) / v == n / v % w
  {
    var q, m := n / u, n % u;
    Factor(n, u);
    Factor(m, v);
    CutParts(n, q, m, u, v, w, m / v, m % v);
  }

  lemma CutParts(n: nat, q: nat, m: nat, u: nat, v: nat, w: nat, x: nat, y: nat)
    requires u == v * w && n == q * u + m && m == x * v + y && y < v && m < u
    ensures n % v == y && w > 0 && n / v % w == x
  {
    Regroup(n, q, m, u, v, w, x, y);
    Unique(n, q * w + x, y, v);
    Unique(m, x, y, v);
    Below(m, v, w);
    Unique(n / v, q, x, w);
  }

  lemma Below(m: nat, v: nat, w: nat)
    requires v > 0 && m < v * w
    ensures m / v < w
  {
    Factor(m, v);
    Products(m / v - w, v);
  }
}
