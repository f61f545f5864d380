/** The dual problem of L1- and L2-loss support vector classification that sources/liblinear/linear.cpp solves
    (solve_l2r_l1l2_svc), in exact arithmetic. */
module SvcDual {

  import opened Common
  import opened Reals
  import opened Vectors

  datatype Loss = L1 | L2

  datatype Problem = Problem(n: nat, rows: seq<Row>, labels: seq<real>, loss: Loss, cp: real, cn: real)

  predicate ProblemOK(p: Problem) {
    && |p.rows| == |p.labels| && p.cp > 0.0 && p.cn > 0.0
    && forall i :: 0 <= i < |p.rows| ==> RowOK(p.rows[i], p.n)
  }

  function Label(p: Problem, i: nat): (y: real)
    requires i < |p.labels|
    ensures y == 1.0 || y == -1.0
  {
    if p.labels[i] > 0.0 then 1.0 else -1.0
  }

  function Diag(p: Problem, i: nat): (d: real)
    requires ProblemOK(p) && i < |p.labels|
    ensures d >= 0.0 && (p.loss.L2? ==> d > 0.0)
  {
    if p.loss.L1? then 0.0 else if p.labels[i] > 0.0 then 0.5 / p.cp else 0.5 / p.cn
  }

  // upper_bound; None is infinity
  function Upper(p: Problem, i: nat): (u: Option<real>)
    requires ProblemOK(p) && i < |p.labels|
    ensures u.Some? ==> u.value > 0.0
  {
    if p.loss.L2? then None else if p.labels[i] > 0.0 then Some(p.cp) else Some(p.cn)
  }

  // ---------- the dual problem ----------

  // w = sum of alpha[i] * y[i] * x[i], over the first k examples
  function Weights(p: Problem, alpha: Vector, k: nat): (w: Vector)
    requires ProblemOK(p) && k <= |p.rows| == |alpha|
    ensures |w| == p.n
  {
    if k == 0 then Zero(p.n)
    else Add(Weights(p, alpha, k - 1), Product(alpha[k - 1], Label(p, k - 1)), Dense(p.rows[k - 1], p.n))
  }

  function Term(d: real, a: real): real {
    Product(d / 2.0, Sq(a)) - a
  }

  function Separable(p: Problem, alpha: Vector, k: nat): real
    requires ProblemOK(p) && k <= |p.rows| == |alpha|
  {
    if k == 0 then 0.0 else Separable(p, alpha, k - 1) + Term(Diag(p, k - 1), alpha[k - 1])
  }

  // The dual objective, (alpha' Q alpha + alpha' D alpha) / 2 - sum of alpha
  function Dual(p: Problem, alpha: Vector): real
    requires ProblemOK(p) && |p.rows| == |alpha|
  {
    var w := Weights(p, alpha, |alpha|);
    Inner(w, w) / 2.0 + Separable(p, alpha, |alpha|)
  }

  predicate InBox(p: Problem, i: nat, a: real)
    requires ProblemOK(p) && i < |p.rows|
  {
    0.0 <= a && (Upper(p, i).Some? ==> a <= Upper(p, i).value)
  }

  predicate Feasible(p: Problem, alpha: Vector)
    requires ProblemOK(p)
  {
    |alpha| == |p.rows| && forall i :: 0 <= i < |alpha| ==> InBox(p, i, alpha[i])
  }

  // ---------- the quadratic form ----------

  function Q(p: Problem, i: nat, k: nat): real
    requires ProblemOK(p) && i < |p.rows| && k < |p.rows|
  {
    Product(Product(Label(p, i), Label(p, k)), Inner(Dense(p.rows[i], p.n), Dense(p.rows[k], p.n)))
  }

  // Row i of the matrix applied to alpha
  function RowSum(p: Problem, alpha: Vector, i: nat, k: nat): real
    requires ProblemOK(p) && |alpha| == |p.rows| && i < |p.rows| && k <= |p.rows|
  {
    if k == 0 then 0.0 else RowSum(p, alpha, i, k - 1) + Product(alpha[k - 1], Q(p, i, k - 1))
  }

  function Quadratic(p: Problem, alpha: Vector, k: nat): real
    requires ProblemOK(p) && |alpha| == |p.rows| && k <= |p.rows|
  {
    if k == 0 then 0.0 else Quadratic(p, alpha, k - 1) + Product(alpha[k - 1], RowSum(p, alpha, k - 1, |alpha|))
  }

  // (Q alpha)_i = y_i * w . x_i
  lemma {:induction false} RowSumIs(p: Problem, alpha: Vector, i: nat, k: nat)
    requires ProblemOK(p) && |alpha| == |p.rows| && i < |p.rows| && k <= |p.rows|
    ensures RowSum(p, alpha, i, k) == Product(Label(p, i), Inner(Weights(p, alpha, k), Dense(p.rows[i], p.n)))
  {
    var e, y := Dense(p.rows[i], p.n), Label(p, i);
    if k == 0 {
      InnerZero(p.n, e);
      ProductZero(y);
    } else {
      RowSumIs(p, alpha, i, k - 1);
      var d, z, a := Dense(p.rows[k - 1], p.n), Label(p, k - 1), alpha[k - 1];
      var w := Weights(p, alpha, k - 1);
      InnerAdd(w, Product(a, z), d, e);
      InnerComm(d, e);
      ProductPlus(y, Inner(w, e), Product(Product(a, z), Inner(d, e)), Inner(Weights(p, alpha, k), e));
      Shuffle4(y, a, z, Inner(d, e));
    }
  }

  lemma Shuffle4(y: real, a: real, z: real, s: real)
    ensures Product(y, Product(Product(a, z), s)) == Product(a, Product(Product(y, z), s))
  {
  }

  // alpha_1 y_1 u.x_1 + ... + alpha_k y_k u.x_k
  function Combined(p: Problem, alpha: Vector, u: Vector, k: nat): real
    requires ProblemOK(p) && |alpha| == |p.rows| && |u| == p.n && k <= |p.rows|
  {
    if k == 0 then 0.0
    else Combined(p, alpha, u, k - 1) + Product(alpha[k - 1],
        Product(Label(p, k - 1), Inner(u, Dense(p.rows[k - 1], p.n))))
  }

  lemma {:induction false} CombinedIs(p: Problem, alpha: Vector, u: Vector, k: nat)
    requires ProblemOK(p) && |alpha| == |p.rows| && |u| == p.n && k <= |p.rows|
    ensures Combined(p, alpha, u, k) == Inner(Weights(p, alpha, k), u)
  {
    if k == 0 {
      InnerZero(p.n, u);
    } else {
      CombinedIs(p, alpha, u, k - 1);
      var d, z, a := Dense(p.rows[k - 1], p.n), Label(p, k - 1), alpha[k - 1];
      InnerAdd(Weights(p, alpha, k - 1), Product(a, z), d, u);
      InnerComm(d, u);
      ProductAssoc(a, z, Inner(d, u));
    }
  }

  lemma {:induction false} QuadraticIs(p: Problem, alpha: Vector, w: Vector, k: nat)
    requires ProblemOK(p) && |alpha| == |p.rows| && k <= |p.rows| && w == Weights(p, alpha, |alpha|)
    ensures Quadratic(p, alpha, k) == Combined(p, alpha, w, k)
  {
    if k > 0 {
      QuadraticIs(p, alpha, w, k - 1);
      RowSumIs(p, alpha, k - 1, |alpha|);
    }
  }

  /** The objective is that of the documentation: alpha' Q alpha / 2 + alpha' D alpha / 2 - sum of alpha,
      with Q[i][k] = y_i y_k x_i . x_k. */
  lemma DualIs(p: Problem, alpha: Vector)
    requires ProblemOK(p) && |alpha| == |p.rows|
    ensures Dual(p, alpha) == Quadratic(p, alpha, |alpha|) / 2.0 + Separable(p, alpha, |alpha|)
  {
    var w := Weights(p, alpha, |alpha|);
    QuadraticIs(p, alpha, w, |alpha|);
    CombinedIs(p, alpha, w, |alpha|);
  }

  // ---------- changing one coordinate ----------

  lemma {:induction false} WeightsUpdate(p: Problem, alpha: Vector, i: nat, v: real, k: nat)
    requires ProblemOK(p) && |alpha| == |p.rows| && i < |p.rows| && k <= |p.rows|
    ensures Weights(p, alpha[i := v], k) ==
      if i < k then Add(Weights(p, alpha, k), Product(v - alpha[i], Label(p, i)), Dense(p.rows[i], p.n))
          else Weights(p, alpha, k)
  {
    if k > 0 {
      WeightsUpdate(p, alpha, i, v, k - 1);
      var w, y, d := Weights(p, alpha, k - 1), Label(p, i), Dense(p.rows[i], p.n);
      if i == k - 1 {
        ProductPlus(y, alpha[i], v - alpha[i], v);
        AddTwice(w, Product(alpha[i], y), Product(v - alpha[i], y), d, Product(v, y));
      } else if i < k {
        AddComm(w, Product(v - alpha[i], y), d, Product(alpha[k - 1], Label(p, k - 1)), Dense(p.rows[k - 1], p.n));
      }
    }
  }

  lemma {:induction false} SeparableUpdate(p: Problem, alpha: Vector, i: nat, v: real, k: nat)
    requires ProblemOK(p) && |alpha| == |p.rows| && i < |p.rows| && k <= |p.rows|
    ensures Separable(p, alpha[i := v], k) ==
      Separable(p, alpha, k) + if i < k then Term(Diag(p, i), v) - Term(Diag(p, i), alpha[i]) else 0.0
  {
    if k > 0 {
      SeparableUpdate(p, alpha, i, v, k - 1);
    }
  }

  // The change of the objective along one coordinate with gradient g and curvature q
  function Change(g: real, q: real, d: real): real {
    Product(g, d) + Product(q / 2.0, Sq(d))
  }

  function Gradient(p: Problem, alpha: Vector, i: nat): real
    requires ProblemOK(p) && |alpha| == |p.rows| && i < |p.rows|
  {
    Product(Label(p, i), Inner(Weights(p, alpha, |alpha|), Dense(p.rows[i], p.n))) - 1.0 + Product(alpha[i], Diag(p, i))
  }

  function Curvature(p: Problem, i: nat): real
    requires ProblemOK(p) && i < |p.rows|
  {
    Diag(p, i) + NormSq(p.rows[i])
  }

  lemma TermChange(d: real, a: real, v: real)
    ensures Term(d, v) - Term(d, a) == Product(Product(a, d), v - a) - (v - a) + Product(d / 2.0, Sq(v - a))
  {
    var h, e := d / 2.0, v - a;
    assert v == a + e;
    assert v * v == a * a + 2.0 * (a * e) + e * e;
    assert h * (v * v) == h * (a * a) + 2.0 * (h * (a * e)) + h * (e * e);
    assert 2.0 * (h * (a * e)) == a * d * e;
  }

  lemma NormChange(y: real, e: real, s: real, x: real)
    requires y == 1.0 || y == -1.0
    ensures Product(Product(e, y), s) == Product(Product(y, s), e)
    ensures Product(Product(e, y), Product(Product(e, y), x)) == Product(x, Sq(e))
  {
  }

  lemma ChangeSum(gs: real, a: real, d: real, x: real, e: real, g: real, q: real)
    requires g == gs - 1.0 + Product(a, d) && q == d + x
    ensures Change(g, q, e) == Product(gs, e) + Product(x, Sq(e)) / 2.0 +
        (Product(Product(a, d), e) - e + Product(d / 2.0, Sq(e)))
  {
    var b := Product(a, d);
    assert (gs - 1.0 + b) * e == gs * e - e + b * e;
    var t := Sq(e);
    assert (d + x) / 2.0 * t == d / 2.0 * t + x * t / 2.0;
  }

  lemma NormUpdate(p: Problem, alpha: Vector, i: nat, v: real)
    requires ProblemOK(p) && |alpha| == |p.rows| && i < |p.rows|
    ensures
      var w, u, e := Weights(p, alpha, |alpha|), Weights(p, alpha[i := v], |alpha|), v - alpha[i];
      Inner(u, u) / 2.0 == Inner(w, w) / 2.0 + Product(Product(Label(p, i), Inner(w, Dense(p.rows[i], p.n))), e)
        + Product(NormSq(p.rows[i]), Sq(e)) / 2.0
  {
    var l, w, y, x, e := |alpha|, Weights(p, alpha, |alpha|), Label(p, i), Dense(p.rows[i], p.n), v - alpha[i];
    WeightsUpdate(p, alpha, i, v, l);
    NormAdd(w, Product(e, y), x);
    NormDense(p.rows[i], p.n);
    NormChange(y, e, Inner(w, x), Inner(x, x));
  }

  /** The exact effect of changing one coordinate on the dual objective. */
  lemma DualChange(p: Problem, alpha: Vector, i: nat, v: real)
    requires ProblemOK(p) && |alpha| == |p.rows| && i < |p.rows|
    ensures Dual(p, alpha[i := v]) == Dual(p, alpha) + Change(Gradient(p, alpha, i), Curvature(p, i), v - alpha[i])
  {
    var l, w, y, x, e := |alpha|, Weights(p, alpha, |alpha|), Label(p, i), Dense(p.rows[i], p.n), v - alpha[i];
    NormUpdate(p, alpha, i, v);
    SeparableUpdate(p, alpha, i, v, l);
    TermChange(Diag(p, i), alpha[i], v);
    ChangeSum(Product(y, Inner(w, x)), alpha[i], Diag(p, i), NormSq(p.rows[i]), e, Gradient(p, alpha, i),
        Curvature(p, i));
  }

  // ---------- the coordinate step ----------

  // min(max(a - g/q, 0), upper). A zero row has q = 0 and g = -1, where the quotient is -infinity.
  function Step(a: real, g: real, q: real, upper: Option<real>): real
    requires q > 0.0 || (g < 0.0 && upper.Some?)
  {
    if q == 0.0 then upper.value
    else
      var t := a - g / q;
      var v := if t <= 0.0 then 0.0 else t;
      if upper.Some? && upper.value <= v then upper.value else v
  }

  lemma ChangeGap(g: real, q: real, d: real, e: real)
    requires q >= 0.0 && Product(g + Product(q, d), e - d) >= 0.0
    ensures Change(g, q, d) <= Change(g, q, e)
  {
    var f, h := e - d, q / 2.0;
    assert e == d + f;
    assert g * e == g * d + g * f;
    assert e * e == d * d + 2.0 * (d * f) + f * f;
    assert h * (e * e) == h * (d * d) + 2.0 * (h * (d * f)) + h * (f * f);
    assert 2.0 * (h * (d * f)) == q * d * f;
    assert (g + q * d) * f == g * f + q * d * f;
    SqPositive(f);
    Monotone(h, 0.0, Sq(f));
  }

  lemma SameSign(x: real, y: real)
    requires (x >= 0.0 && y >= 0.0) || (x <= 0.0 && y <= 0.0)
    ensures Product(x, y) >= 0.0
  {
  }

  // The gradient after a step of d, when t = -g/q is the step to the unconstrained minimum
  lemma SlopeAfter(g: real, q: real, t: real, d: real)
    requires q > 0.0 && Product(q, t) == -g
    ensures d >= t ==> g + Product(q, d) >= 0.0
    ensures d <= t ==> g + Product(q, d) <= 0.0
  {
    if d >= t { Monotone(q, t, d); }
    if d <= t { Monotone(q, d, t); }
  }

  /** The step leads to the minimum of the objective along its coordinate within the box. */
  lemma StepMinimises(a: real, g: real, q: real, upper: Option<real>, v: real)
    requires q > 0.0 || (q == 0.0 && g < 0.0 && upper.Some?)
    requires 0.0 <= a && 0.0 <= v && (upper.Some? ==> a <= upper.value && v <= upper.value && 0.0 <= upper.value)
    ensures var s := Step(a, g, q, upper); 0.0 <= s && (upper.Some? ==> s <= upper.value)
    ensures Change(g, q, Step(a, g, q, upper) - a) <= Change(g, q, v - a)
  {
    var s := Step(a, g, q, upper);
    var d, e := s - a, v - a;
    if q == 0.0 {
      ProductZero(d);
      SameSign(g, e - d);
      ChangeGap(g, q, d, e);
    } else {
      Divide(g, q);
      Opposite(q, g / q);
      SlopeAfter(g, q, -(g / q), d);
      SameSign(g + Product(q, d), e - d);
      ChangeGap(g, q, d, e);
    }
  }

  lemma Opposite(q: real, x: real)
    ensures Product(q, -x) == -(q * x)
  {
  }

  // ---------- optimality ----------

  // PG: the gradient with what points out of the box removed
  function Projected(a: real, g: real, upper: Option<real>): real {
    if a == 0.0 then (if g < 0.0 then g else 0.0)
    else if upper == Some(a) then (if g > 0.0 then g else 0.0)
    else g
  }

  ghost predicate Stationary(p: Problem, alpha: Vector)
    requires ProblemOK(p) && Feasible(p, alpha)
  {
    forall i :: 0 <= i < |alpha| ==> Projected(alpha[i], Gradient(p, alpha, i), Upper(p, i)) == 0.0
  }

  lemma {:induction false} InnerSelf(v: Vector)
    ensures Inner(v, v) >= 0.0
  {
    if v != [] {
      InnerSelf(v[..|v| - 1]);
      SqPositive(v[|v| - 1]);
    }
  }

  // |u|^2/2 lies above its tangent at w.
  lemma NormTangent(u: Vector, w: Vector)
    requires |u| == |w|
    ensures Inner(u, u) / 2.0 - Inner(w, w) / 2.0 >= Inner(u, w) - Inner(w, w)
  {
    NormAdd(u, -1.0, w);
    InnerSelf(Add(u, -1.0, w));
  }

  lemma TermTangent(d: real, a: real, v: real, s: real, g: real, upper: Option<real>)
    requires d >= 0.0 && g == s - 1.0 + Product(a, d) && Projected(a, g, upper) == 0.0
    requires 0.0 <= a && 0.0 <= v && (upper.Some? ==> a <= upper.value && v <= upper.value)
    ensures Product(v, s) - Product(a, s) + (Term(d, v) - Term(d, a)) >= 0.0
  {
    var e := v - a;
    TermChange(d, a, v);
    ProductPlus(s, a, e, v);
    SqPositive(e);
    Monotone(d / 2.0, 0.0, Sq(e));
    SameSign(g, e);
    assert (s - 1.0 + Product(a, d)) * e == e * s - e + Product(a, d) * e;
  }

  lemma {:induction false} Tangent(p: Problem, alpha: Vector, beta: Vector, w: Vector, k: nat)
    requires ProblemOK(p) && Feasible(p, alpha) && Feasible(p, beta) && Stationary(p, alpha)
    requires w == Weights(p, alpha, |alpha|) && k <= |alpha|
    ensures Combined(p, beta, w, k) - Combined(p, alpha, w, k) + (Separable(p, beta, k) - Separable(p, alpha, k)) >= 0.0
  {
    if k > 0 {
      Tangent(p, alpha, beta, w, k - 1);
      var i := k - 1;
      assert InBox(p, i, alpha[i]) && InBox(p, i, beta[i]);
      TermTangent(Diag(p, i), alpha[i], beta[i], Product(Label(p, i), Inner(w, Dense(p.rows[i], p.n))),
          Gradient(p, alpha, i), Upper(p, i));
    }
  }

  lemma StationaryMinimum(p: Problem, alpha: Vector, beta: Vector)
    requires ProblemOK(p) && Feasible(p, alpha) && Feasible(p, beta) && Stationary(p, alpha)
    ensures Dual(p, alpha) <= Dual(p, beta)
  {
    var w, u := Weights(p, alpha, |alpha|), Weights(p, beta, |beta|);
    Tangent(p, alpha, beta, w, |alpha|);
    CombinedIs(p, alpha, w, |alpha|);
    CombinedIs(p, beta, w, |beta|);
    NormTangent(u, w);
  }

  lemma {:induction false} NormSqNonNegative(x: Row)
    ensures NormSq(x) >= 0.0
    ensures NormSq(x) == 0.0 ==> forall k :: 0 <= k < |x| ==> x[k].value == 0.0
  {
    if x != [] {
      NormSqNonNegative(x[1..]);
      SqPositive(x[0].value);
      assert forall k :: 1 <= k < |x| ==> x[k] == x[1..][k - 1];
    }
  }

  lemma {:induction false} DotZeroRow(w: Vector, x: Row)
    requires RowOK(x, |w|) && forall k :: 0 <= k < |x| ==> x[k].value == 0.0
    ensures Dot(w, x) == 0.0
  {
    if x != [] {
      DotZeroRow(w, x[1..]);
      ProductZero(w[x[0].index - 1]);
    }
  }

  // Only a zero row under the L1 loss has no curvature; its gradient is then -1.
  lemma CurvatureFacts(p: Problem, alpha: Vector, i: nat)
    requires ProblemOK(p) && |alpha| == |p.rows| && i < |p.rows|
    ensures Curvature(p, i) >= 0.0
    ensures Curvature(p, i) == 0.0 ==> Gradient(p, alpha, i) == -1.0 && Upper(p, i).Some?
  {
    NormSqNonNegative(p.rows[i]);
    if Curvature(p, i) == 0.0 {
      var w := Weights(p, alpha, |alpha|);
      DotZeroRow(w, p.rows[i]);
      DotInner(w, p.rows[i]);
      ProductZero(Label(p, i));
      ProductZero(alpha[i]);
    }
  }

  lemma StrictGap(g: real, q: real, d: real)
    requires (q > 0.0 && d != 0.0 && Product(g + Product(q, d), 0.0 - d) >= 0.0) || (q == 0.0 && g < 0.0 && d > 0.0)
    ensures Change(g, q, d) < 0.0
  {
    var h := q / 2.0;
    if q > 0.0 {
      SqPositive(d);
      Positive(h, Sq(d));
      assert (g + q * d) * (0.0 - d) == -(g * d) - 2.0 * (h * (d * d));
    } else {
      ProductZero(Sq(d));
      Positive(-g, d);
      assert (-g) * d == -(g * d);
    }
  }

  // A nonzero projected gradient means that the step strictly lowers the objective.
  lemma StepStrict(a: real, g: real, q: real, upper: Option<real>)
    requires q > 0.0 || (q == 0.0 && g < 0.0 && upper.Some?)
    requires 0.0 <= a && (upper.Some? ==> a <= upper.value && 0.0 < upper.value) && Projected(a, g, upper) != 0.0
    ensures Change(g, q, Step(a, g, q, upper) - a) < 0.0
  {
    var s := Step(a, g, q, upper);
    var d := s - a;
    if q > 0.0 {
      Divide(g, q);
      Opposite(q, g / q);
      SlopeAfter(g, q, -(g / q), d);
      SlopeAfter(g, q, -(g / q), 0.0);
      ProductZero(q);
      SameSign(g + Product(q, d), 0.0 - d);
    }
    StrictGap(g, q, d);
  }

  /** A feasible point is a minimum of the dual exactly if every projected gradient is zero. */
  lemma Optimality(p: Problem, alpha: Vector)
    requires ProblemOK(p) && Feasible(p, alpha)
    ensures Stationary(p, alpha) <==> forall beta :: Feasible(p, beta) ==> Dual(p, alpha) <= Dual(p, beta)
  {
    if Stationary(p, alpha) {
      forall beta | Feasible(p, beta) ensures Dual(p, alpha) <= Dual(p, beta) {
        StationaryMinimum(p, alpha, beta);
      }
    } else {
      var i :| 0 <= i < |alpha| && Projected(alpha[i], Gradient(p, alpha, i), Upper(p, i)) != 0.0;
      Improves(p, alpha, i);
    }
  }

  lemma Improves(p: Problem, alpha: Vector, i: nat)
    requires ProblemOK(p) && Feasible(p, alpha) && i < |alpha|
    requires Projected(alpha[i], Gradient(p, alpha, i), Upper(p, i)) != 0.0
    ensures exists beta :: Feasible(p, beta) && Dual(p, beta) < Dual(p, alpha)
  {
    var g, q, u := Gradient(p, alpha, i), Curvature(p, i), Upper(p, i);
    assert InBox(p, i, alpha[i]);
    CurvatureFacts(p, alpha, i);
    StepMinimises(alpha[i], g, q, u, alpha[i]);
    StepStrict(alpha[i], g, q, u);
    var s := Step(alpha[i], g, q, u);
    DualChange(p, alpha, i, s);
    assert Feasible(p, alpha[i := s]);
  }
}
