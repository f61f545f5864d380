/** Repeated application of a function. */
module Iteration {

  // f applied n times
  function Iter<T>(f: T -> T, n: nat, x: T): T {
    if n == 0 then x else f(Iter(f, n - 1, x))
  }

  lemma IterOne<T>(f: T -> T, x: T)
    ensures Iter(f, 1, x) == f(x)
  {
    assert Iter(f, 0, x) == x;
  }

  lemma {:induction false} IterAdd<T>(f: T -> T, m: nat, n: nat, x: T)
    ensures Iter(f, m, Iter(f, n, x)) == Iter(f, m + n, x)
  {
    if m > 0 { IterAdd(f, m - 1, n, x); }
  }

  lemma {:induction false} IterCommutes<T>(f: T -> T, g: T -> T, n: nat, x: T)
    requires forall y {:trigger f(g(y))} :: f(g(y)) == g(f(y))
    ensures Iter(f, n, g(x)) == g(Iter(f, n, x))
  {
    if n > 0 { IterCommutes(f, g, n - 1, x); }
  }

  // If k times g is f after g, then kn times g is n times f after n times g.
  lemma {:induction false} IterProduct<T>(f: T -> T, g: T -> T, k: nat, n: nat, m: nat, x: T)
    requires forall y {:trigger f(g(y))} :: f(g(y)) == g(f(y))
    requires forall y {:trigger Iter(g, k, y)} :: Iter(g, k, y) == f(g(y))
    requires m == k * n
    ensures Iter(g, m, x) == Iter(f, n, Iter(g, n, x))
    decreases n
  {
    if n > 0 {
      assert m - k == k * (n - 1);
      IterProduct(f, g, k, n - 1, m - k, x);
      IterAdd(g, k, m - k, x);
      IterCommutes(f, g, n - 1, Iter(g, n - 1, x));
    }
  }

  // If q + 1 times g is g, then q more applications after the first change nothing.
  lemma IterTurn<T>(g: T -> T, q: nat, m: nat, x: T)
    requires m > 0 && forall y {:trigger Iter(g, q + 1, y)} :: Iter(g, q + 1, y) == g(y)
    ensures Iter(g, m + q, x) == Iter(g, m, x)
  {
    IterAdd(g, q + 1, m - 1, x);
  }

  lemma {:induction false} IterTurns<T>(g: T -> T, q: nat, m: nat, j: nat, n: nat, x: T)
    requires m > 0 && (forall y {:trigger Iter(g, q + 1, y)} :: Iter(g, q + 1, y) == g(y)) && n == m + j * q
    ensures Iter(g, n, x) == Iter(g, m, x)
    decreases j
  {
    if j > 0 {
      assert n - q == m + (j - 1) * q;
      IterTurns(g, q, m, j - 1, n - q, x);
      IterTurn(g, q, n - q, x);
    }
  }

  // f^p is the identity on the values of g, because (f g)^p = g^64p = g^p.
  lemma PowerFixes<T>(f: T -> T, g: T -> T, p: nat, k: nat, r: nat, x: T)
    requires forall y {:trigger f(g(y))} :: f(g(y)) == g(f(y))
    requires forall y {:trigger Iter(g, k, y)} :: Iter(g, k, y) == f(g(y))
    requires forall y {:trigger Iter(g, r, y)} :: Iter(g, r, y) == g(y)
    requires p > 0 && k == 64 && r == 7 * p + 1
    ensures Iter(f, p, g(x)) == g(x)
  {
    var z := Iter(g, r - p, x);
    IterProduct(f, g, k, p, k * p, z);
    IterTurns(g, r - 1, p, 9, k * p, z);
    IterAdd(g, p, r - p, x);
  }
}
