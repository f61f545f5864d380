/** Dense real vectors and the sparse rows of sources/liblinear/linear.cpp (sparse_operator). A row is the
    list of its feature nodes without the end mark; indices start at 1. */
module Vectors {

  import opened Reals

  type Vector = seq<real>

  function Zero(n: nat): (v: Vector)
    ensures |v| == n
  {
    seq(n, _ => 0.0)
  }

  // u + a * d
  function Add(u: Vector, a: real, d: Vector): (v: Vector)
    requires |u| == |d|
    ensures |v| == |u|
  {
    seq(|u|, j requires 0 <= j < |u| => u[j] + Product(a, d[j]))
  }

  function Inner(u: Vector, v: Vector): real
    requires |u| == |v|
  {
    if u == [] then 0.0 else Inner(u[..|u| - 1], v[..|u| - 1]) + Product(u[|u| - 1], v[|u| - 1])
  }

  // ---------- algebra ----------

  lemma ProductPlus(a: real, x: real, y: real, z: real)
    requires z == x + y
    ensures Product(a, z) == Product(a, x) + Product(a, y)
    ensures Product(z, a) == Product(x, a) + Product(y, a)
  {
  }

  lemma ProductAssoc(a: real, x: real, y: real)
    ensures Product(Product(a, x), y) == Product(a, Product(x, y))
  {
  }

  lemma ProductComm(x: real, y: real)
    ensures Product(x, y) == Product(y, x)
  {
  }

  lemma ProductZero(x: real)
    ensures Product(x, 0.0) == Product(0.0, x) == 0.0
  {
  }

  lemma AddComm(u: Vector, a: real, d: Vector, b: real, e: Vector)
    requires |u| == |d| == |e|
    ensures Add(Add(u, a, d), b, e) == Add(Add(u, b, e), a, d)
  {
  }

  lemma AddTwice(u: Vector, a: real, b: real, d: Vector, c: real)
    requires |u| == |d| && c == a + b
    ensures Add(Add(u, a, d), b, d) == Add(u, c, d)
  {
    forall j | 0 <= j < |u| ensures Add(Add(u, a, d), b, d)[j] == Add(u, c, d)[j] {
      ProductPlus(d[j], a, b, c);
    }
  }

  lemma {:induction false} InnerComm(u: Vector, v: Vector)
    requires |u| == |v|
    ensures Inner(u, v) == Inner(v, u)
  {
    if u != [] {
      var k := |u| - 1;
      InnerComm(u[..k], v[..k]);
      ProductComm(u[k], v[k]);
    }
  }

  lemma {:induction false} InnerAdd(u: Vector, a: real, d: Vector, v: Vector)
    requires |u| == |d| == |v|
    ensures Inner(Add(u, a, d), v) == Inner(u, v) + Product(a, Inner(d, v))
  {
    if u == [] {
      ProductZero(a);
    } else {
      var k := |u| - 1;
      InnerAdd(u[..k], a, d[..k], v[..k]);
      assert Add(u, a, d)[..k] == Add(u[..k], a, d[..k]);
      ProductPlus(v[k], u[k], Product(a, d[k]), u[k] + Product(a, d[k]));
      ProductAssoc(a, d[k], v[k]);
      ProductPlus(a, Inner(d[..k], v[..k]), Product(d[k], v[k]), Inner(d, v));
    }
  }

  /** |u + a d|^2 = |u|^2 + 2a u.d + a^2 |d|^2 */
  lemma NormAdd(u: Vector, a: real, d: Vector)
    requires |u| == |d|
    ensures var v := Add(u, a, d);
      Inner(v, v) == Inner(u, u) + 2.0 * Product(a, Inner(u, d)) + Product(a, Product(a, Inner(d, d)))
  {
    var v := Add(u, a, d);
    InnerAdd(u, a, d, v);
    InnerComm(u, v);
    InnerAdd(u, a, d, u);
    InnerComm(d, v);
    InnerAdd(u, a, d, d);
    InnerComm(d, u);
    ProductPlus(a, Inner(u, d), Product(a, Inner(d, d)), Inner(d, v));
  }

  lemma {:induction false} InnerZero(n: nat, v: Vector)
    requires |v| == n
    ensures Inner(Zero(n), v) == 0.0
  {
    if n > 0 {
      assert Zero(n)[..n - 1] == Zero(n - 1);
      InnerZero(n - 1, v[..n - 1]);
      ProductZero(v[n - 1]);
    }
  }

  // ---------- sparse rows ----------

  datatype Feature = Feature(index: int, value: real)

  type Row = seq<Feature>

  predicate RowOK(x: Row, n: nat) {
    && (forall k :: 0 <= k < |x| ==> 1 <= x[k].index <= n)
    && (forall i, k :: 0 <= i < k < |x| ==> x[i].index < x[k].index)
  }

  function Coef(x: Row, j: int): real {
    if x == [] then 0.0 else (if x[0].index - 1 == j then x[0].value else 0.0) + Coef(x[1..], j)
  }

  // The vector a row stands for
  function Dense(x: Row, n: nat): (v: Vector)
    ensures |v| == n
  {
    seq(n, j => Coef(x, j))
  }

  function Dot(w: Vector, x: Row): real
    requires RowOK(x, |w|)
  {
    if x == [] then 0.0 else Product(w[x[0].index - 1], x[0].value) + Dot(w, x[1..])
  }

  function NormSq(x: Row): real {
    if x == [] then 0.0 else Sq(x[0].value) + NormSq(x[1..])
  }

  // The first coordinate of a row, and the rest, which leaves that coordinate alone
  lemma DenseFirst(x: Row, n: nat)
    requires RowOK(x, n) && x != []
    ensures RowOK(x[1..], n) && Dense(x[1..], n)[x[0].index - 1] == 0.0
    ensures Dense(x, n) == Dense(x[1..], n)[x[0].index - 1 := x[0].value]
  {
    Absent(x[1..], x[0].index - 1);
  }

  lemma {:induction false} Absent(x: Row, j: int)
    requires forall k :: 0 <= k < |x| ==> x[k].index - 1 != j
    ensures Coef(x, j) == 0.0
  {
    if x != [] {
      assert x[0].index - 1 != j;
      Absent(x[1..], j);
    }
  }

  lemma {:induction false} InnerUpdate(u: Vector, v: Vector, j: nat, c: real)
    requires j < |u| == |v| && v[j] == 0.0
    ensures Inner(u, v[j := c]) == Inner(u, v) + Product(u[j], c)
  {
    var k := |u| - 1;
    if j == k {
      assert v[j := c][..k] == v[..k];
      ProductZero(u[j]);
    } else {
      InnerUpdate(u[..k], v[..k], j, c);
      assert v[j := c][..k] == v[..k][j := c];
    }
  }

  /** The sparse product is the dense one. */
  lemma {:induction false} DotInner(w: Vector, x: Row)
    requires RowOK(x, |w|)
    ensures Dot(w, x) == Inner(w, Dense(x, |w|))
  {
    var n := |w|;
    if x == [] {
      assert Dense(x, n) == Zero(n);
      InnerZero(n, w);
      InnerComm(Zero(n), w);
    } else {
      DenseFirst(x, n);
      DotInner(w, x[1..]);
      InnerUpdate(w, Dense(x[1..], n), x[0].index - 1, x[0].value);
    }
  }

  lemma NormDense(x: Row, n: nat)
    requires RowOK(x, n)
    ensures NormSq(x) == Inner(Dense(x, n), Dense(x, n))
  {
    var d := Dense(x, n);
    DotInner(d, x);
    forall k | 0 <= k < |x| ensures d[x[k].index - 1] == x[k].value {
      CoefAt(x, n, k);
    }
    NormDot(d, x);
  }

  // Where a vector holds the row's own values, the product with the row is the row's norm.
  lemma {:induction false} NormDot(w: Vector, x: Row)
    requires RowOK(x, |w|) && forall k :: 0 <= k < |x| ==> w[x[k].index - 1] == x[k].value
    ensures Dot(w, x) == NormSq(x)
  {
    if x != [] {
      NormDot(w, x[1..]);
    }
  }

  lemma {:induction false} CoefAt(x: Row, n: nat, k: nat)
    requires RowOK(x, n) && k < |x|
    ensures Coef(x, x[k].index - 1) == x[k].value
  {
    if k == 0 {
      Absent(x[1..], x[0].index - 1);
    } else {
      CoefAt(x[1..], n, k - 1);
    }
  }

  // ---------- sparse_operator ----------

  /** nrm2_sq */
  method Nrm2Sq(x: Row) returns (r: real)
    ensures r == NormSq(x)
  {
    r := 0.0;
    var k := 0;
    while k < |x|
      invariant 0 <= k <= |x| && r + NormSq(x[k..]) == NormSq(x)
    {
      assert x[k..][1..] == x[k + 1..];
      r := r + Sq(x[k].value);
      k := k + 1;
    }
  }

  /** dot */
  method SparseWithDense(s: array<real>, x: Row) returns (r: real)
    requires RowOK(x, s.Length)
    ensures r == Dot(s[..], x) == Inner(s[..], Dense(x, s.Length))
  {
    r := 0.0;
    var k := 0;
    while k < |x|
      invariant 0 <= k <= |x| && r + Dot(s[..], x[k..]) == Dot(s[..], x)
    {
      assert x[k..][1..] == x[k + 1..];
      r := r + Product(s[x[k].index - 1], x[k].value);
      k := k + 1;
    }
    DotInner(s[..], x);
  }

  lemma AxpyStep(u: Vector, a: real, x: Row)
    requires RowOK(x, |u|) && x != []
    ensures var j := x[0].index - 1;
      Add(u[j := u[j] + Product(a, x[0].value)], a, Dense(x[1..], |u|)) == Add(u, a, Dense(x, |u|))
  {
    DenseFirst(x, |u|);
    ProductZero(a);
  }

  /** axpy: y becomes y + a x. */
  method Axpy(a: real, x: Row, y: array<real>)
    requires RowOK(x, y.Length)
    modifies y
    ensures y[..] == Add(old(y[..]), a, Dense(x, y.Length))
  {
    ghost var n := y.Length;
    var k := 0;
    while k < |x|
      invariant 0 <= k <= |x|
      invariant Add(y[..], a, Dense(x[k..], n)) == Add(old(y[..]), a, Dense(x, n))
    {
      var j := x[k].index - 1;
      ghost var u := y[..];
      assert x[k..][1..] == x[k + 1..];
      AxpyStep(u, a, x[k..]);
      y[j] := y[j] + Product(a, x[k].value);
      assert y[..] == u[j := u[j] + Product(a, x[k].value)];
      k := k + 1;
    }
    ProductZero(a);
    assert y[..] == Add(y[..], a, Dense(x[k..], n));
  }

  // The product of two rows
  ghost function RowDot(x: Row, z: Row, n: nat): real {
    Inner(Dense(x, n), Dense(z, n))
  }

  lemma RowDotFirst(x: Row, z: Row, n: nat)
    requires RowOK(x, n) && RowOK(z, n) && z != []
    ensures RowDot(x, z, n) == Product(Coef(x, z[0].index - 1), z[0].value) + RowDot(x, z[1..], n)
  {
    DotInner(Dense(x, n), z);
    DotInner(Dense(x, n), z[1..]);
  }

  lemma RowDotComm(x: Row, z: Row, n: nat)
    ensures RowDot(x, z, n) == RowDot(z, x, n)
  {
    InnerComm(Dense(x, n), Dense(z, n));
  }

  lemma RowDotStep(x: Row, z: Row, n: nat)
    requires RowOK(x, n) && RowOK(z, n) && x != [] && z != []
    ensures x[0].index == z[0].index ==> RowDot(x, z, n) == Product(x[0].value, z[0].value) + RowDot(x[1..], z[1..], n)
    ensures x[0].index > z[0].index ==> RowDot(x, z, n) == RowDot(x, z[1..], n)
    ensures x[0].index < z[0].index ==> RowDot(x, z, n) == RowDot(x[1..], z, n)
  {
    var i, j := x[0].index - 1, z[0].index - 1;
    if i == j {
      RowDotFirst(x, z, n);
      CoefAt(x, n, 0);
      RowDotComm(x, z[1..], n);
      RowDotFirst(z[1..], x, n);
      Absent(z[1..], i);
      ProductZero(x[0].value);
      RowDotComm(z[1..], x[1..], n);
    } else if i > j {
      RowDotFirst(x, z, n);
      Absent(x, j);
      ProductZero(z[0].value);
    } else {
      RowDotComm(x, z, n);
      RowDotFirst(z, x, n);
      Absent(z, i);
      ProductZero(x[0].value);
      RowDotComm(z, x[1..], n);
    }
  }

  lemma RowDotEmpty(x: Row, z: Row, n: nat)
    requires x == [] || z == []
    ensures RowDot(x, z, n) == 0.0
  {
    if x == [] {
      assert Dense(x, n) == Zero(n);
      InnerZero(n, Dense(z, n));
    } else {
      RowDotComm(x, z, n);
      assert Dense(z, n) == Zero(n);
      InnerZero(n, Dense(x, n));
    }
  }

  /** sparse_dot: merging two rows in index order gives their product. */
  method SparseDot(x: Row, z: Row, ghost n: nat) returns (r: real)
    requires RowOK(x, n) && RowOK(z, n)
    ensures r == RowDot(x, z, n)
  {
    r := 0.0;
    var i, k := 0, 0;
    while i < |x| && k < |z|
      invariant 0 <= i <= |x| && 0 <= k <= |z|
      invariant r + RowDot(x[i..], z[k..], n) == RowDot(x, z, n)
      decreases |x| - i + |z| - k
    {
      RowDotStep(x[i..], z[k..], n);
      assert x[i..][1..] == x[i + 1..] && z[k..][1..] == z[k + 1..];
      if x[i].index == z[k].index {
        r := r + Product(x[i].value, z[k].value);
        i, k := i + 1, k + 1;
      } else if x[i].index > z[k].index {
        k := k + 1;
      } else {
        i := i + 1;
      }
    }
    RowDotEmpty(x[i..], z[k..], n);
  }
}
