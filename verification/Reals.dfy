/** Facts about products of reals. */
module Reals {

  function Product(x: real, y: real): real {
    x * y
  }

  function Sq(x: real): real {
    Product(x, x)
  }

  lemma Positive(x: real, y: real)
    requires (x > 0.0 && y > 0.0) || (x < 0.0 && y < 0.0)
    ensures Product(x, y) > 0.0
  {
  }

  lemma SqPositive(x: real)
    ensures Sq(x) >= 0.0
    ensures x != 0.0 ==> Sq(x) > 0.0
  {
    if x != 0.0 { Positive(x, x); }
  }

  lemma Monotone(h: real, x: real, y: real)
    requires h >= 0.0 && x <= y
    ensures h * x <= h * y
  {
  }

  lemma StrictlyMonotone(h: real, x: real, y: real)
    requires h > 0.0 && x < y
    ensures h * x < h * y
  {
  }

  lemma Distribute(h: real, x: real, y: real)
    ensures h * (x + y) == h * x + h * y
  {
  }

  lemma Divide(t: real, r: real)
    requires r != 0.0
    ensures r * (t / r) == t
  {
  }

  lemma Cancel(h: real, x: real, y: real)
    requires h > 0.0 && h * x == h * y
    ensures x == y
  {
    if x < y {
      StrictlyMonotone(h, x, y);
    } else if y < x {
      StrictlyMonotone(h, y, x);
    }
  }

  lemma DivideBelow(t: real, r: real, x: real)
    requires r > 0.0 && t <= r * x
    ensures t / r <= x
  {
    Divide(t, r);
    if t / r > x { StrictlyMonotone(r, x, t / r); }
  }

  lemma DivideAbove(t: real, r: real, x: real)
    requires r > 0.0 && t >= r * x
    ensures t / r >= x
  {
    Divide(t, r);
    if t / r < x { StrictlyMonotone(r, t / r, x); }
  }
}
