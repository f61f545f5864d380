/** The sub-problem of the Crammer-Singer solver in sources/liblinear/linear.cpp, in exact arithmetic:

      minimise  sum over m of  A/2 * a[m]^2 + b[m] * a[m]
      subject to  a[m] <= Upper(m)  and  sum of a  equal to  Target

    for the n active classes of one training example, where only the example's own class y may be
    positive, up to C. The code finds the solution by sorting and thresholding. */
module CrammerSinger {

  import opened Reals

  function Min(x: real, y: real): real {
    if x <= y then x else y
  }

  function Upper(m: int, y: int, C: real): real {
    if m == y then C else 0.0
  }

  // The coordinates of the active classes add up to zero together with that of an inactive class y,
  // which then sits at its bound C.
  function Target(n: nat, y: nat, C: real): real {
    if y < n then 0.0 else -C
  }

  function Sum(s: seq<real>): real {
    if s == [] then 0.0 else Sum(s[..|s| - 1]) + s[|s| - 1]
  }

  function Cost(A: real, b: real, x: real): real {
    A / 2.0 * (x * x) + b * x
  }

  function Objective(b: seq<real>, A: real, a: seq<real>): real
    requires |a| == |b|
  {
    if a == [] then 0.0
    else
      var k := |a| - 1;
      Objective(b[..k], A, a[..k]) + Cost(A, b[k], a[k])
  }

  ghost predicate Feasible(a: seq<real>, y: nat, C: real) {
    && (forall m :: 0 <= m < |a| ==> a[m] <= Upper(m, y, C))
    && Sum(a) == Target(|a|, y, C)
  }

  /** The optimality conditions at the multiplier beta: the gradient A*a + b equals beta at a coordinate
      below its bound and is at most beta at one on its bound. */
  ghost predicate Kkt(b: seq<real>, A: real, y: nat, C: real, beta: real, a: seq<real>)
    requires |a| == |b|
  {
    forall m :: 0 <= m < |a| ==> KktAt(A, b[m], Upper(m, y, C), beta, a[m])
  }

  ghost predicate KktAt(A: real, b: real, u: real, beta: real, x: real) {
    x <= u && A * x + b <= beta && (x < u ==> A * x + b == beta)
  }

  function SquaredDistance(a: seq<real>, c: seq<real>): real
    requires |a| == |c|
  {
    if a == [] then 0.0 else SquaredDistance(a[..|a| - 1], c[..|a| - 1]) + Sq(a[|a| - 1] - c[|a| - 1])
  }

  lemma {:induction false} Distance(a: seq<real>, c: seq<real>)
    requires |a| == |c|
    ensures SquaredDistance(a, c) >= 0.0
    ensures a != c ==> SquaredDistance(a, c) > 0.0
  {
    if a != [] {
      var k := |a| - 1;
      Distance(a[..k], c[..k]);
      SqPositive(a[k] - c[k]);
      assert a == a[..k] + [a[k]] && c == c[..k] + [c[k]];
    }
  }

  // ---------- the optimality conditions give the minimum ----------

  lemma Expand(A: real, b: real, a: real, d: real)
    ensures Cost(A, b, a + d) - Cost(A, b, a) == (A * a + b) * d + A / 2.0 * (d * d)
  {
    var h := A / 2.0;
    assert (a + d) * (a + d) == a * a + 2.0 * (a * d) + d * d;
    Distribute(h, a * a + 2.0 * (a * d), d * d);
    Distribute(h, a * a, 2.0 * (a * d));
    assert h * (2.0 * (a * d)) == A * a * d;
    Distribute(b, a, d);
    assert (A * a + b) * d == A * a * d + b * d;
  }

  // One coordinate: moving from a to any c <= u costs at least beta * (c - a) plus a square.
  lemma CoordinateGap(A: real, b: real, u: real, beta: real, a: real, c: real)
    requires A > 0.0 && c <= u && KktAt(A, b, u, beta, a)
    ensures Gap(Cost(A, b, c) - Cost(A, b, a), A, beta, c - a, Sq(c - a))
  {
    var g, d := A * a + b, c - a;
    Expand(A, b, a, d);
    assert a + d == c;
    if a == u { Monotone(-d, g, beta); }
  }

  ghost predicate Gap(gap: real, A: real, beta: real, s: real, q: real) {
    gap >= beta * s + A / 2.0 * q
  }

  lemma GapSum(A: real, beta: real, g: real, s: real, q: real, g': real, s': real, q': real, g'': real, s'': real,
      q'': real)
    requires Gap(g, A, beta, s, q) && Gap(g', A, beta, s', q')
    requires g'' == g + g' && s'' == s + s' && q'' == q + q'
    ensures Gap(g'', A, beta, s'', q'')
  {
    Distribute(beta, s, s');
    Distribute(A / 2.0, q, q');
  }

  lemma {:induction false} ObjectiveGap(b: seq<real>, A: real, y: nat, C: real, beta: real, a: seq<real>, c: seq<real>)
    requires |a| == |b| == |c| && A > 0.0 && Kkt(b, A, y, C, beta, a)
    requires forall m :: 0 <= m < |c| ==> c[m] <= Upper(m, y, C)
    ensures Gap(Objective(b, A, c) - Objective(b, A, a), A, beta, Sum(c) - Sum(a), SquaredDistance(c, a))
  {
    if a != [] {
      var k := |a| - 1;
      var b', a', c' := b[..k], a[..k], c[..k];
      ObjectiveGap(b', A, y, C, beta, a', c');
      CoordinateGap(A, b[k], Upper(k, y, C), beta, a[k], c[k]);
      GapSum(A, beta, Objective(b', A, c') - Objective(b', A, a'), Sum(c') - Sum(a'), SquaredDistance(c', a'),
             Cost(A, b[k], c[k]) - Cost(A, b[k], a[k]), c[k] - a[k], Sq(c[k] - a[k]),
             Objective(b, A, c) - Objective(b, A, a), Sum(c) - Sum(a), SquaredDistance(c, a));
    }
  }

  lemma GapZero(gap: real, A: real, beta: real, s: real, q: real)
    requires Gap(gap, A, beta, s, q) && A > 0.0 && s == 0.0 && q >= 0.0
    ensures gap >= 0.0 && (gap == 0.0 ==> q == 0.0)
  {
    assert beta * s == 0.0;
    if q > 0.0 { Positive(A / 2.0, q); }
  }

  /** A feasible point that meets the optimality conditions is the only minimum. */
  lemma Minimum(b: seq<real>, A: real, y: nat, C: real, beta: real, a: seq<real>, c: seq<real>)
    requires |a| == |b| == |c| && A > 0.0 && Kkt(b, A, y, C, beta, a)
    requires Feasible(a, y, C) && Feasible(c, y, C)
    ensures Objective(b, A, a) <= Objective(b, A, c)
    ensures Objective(b, A, a) == Objective(b, A, c) ==> c == a
  {
    ObjectiveGap(b, A, y, C, beta, a, c);
    Distance(c, a);
    GapZero(Objective(b, A, c) - Objective(b, A, a), A, beta, Sum(c) - Sum(a), SquaredDistance(c, a));
  }

  // ---------- the threshold ----------

  // qsort with compare_double: descending order
  function Insert(x: real, s: seq<real>): seq<real> {
    if s == [] || x >= s[0] then [x] + s else [s[0]] + Insert(x, s[1..])
  }

  function SortDown(s: seq<real>): seq<real> {
    if s == [] then [] else Insert(s[|s| - 1], SortDown(s[..|s| - 1]))
  }

  ghost predicate Descending(s: seq<real>) {
    forall i, j :: 0 <= i <= j < |s| ==> s[i] >= s[j]
  }

  // How far the entries of s exceed beta, in total, negated
  function Deficit(s: seq<real>, beta: real): real {
    if s == [] then 0.0 else Min(0.0, beta - s[0]) + Deficit(s[1..], beta)
  }

  lemma {:induction false} InsertSorts(x: real, s: seq<real>)
    requires Descending(s)
    ensures var r := Insert(x, s);
      && Descending(r) && |r| == |s| + 1 && (r[0] == x || (s != [] && r[0] == s[0]))
      && multiset(r) == multiset(s) + multiset{x}
  {
    if s != [] && x < s[0] {
      InsertSorts(x, s[1..]);
      var t := Insert(x, s[1..]);
      assert s == [s[0]] + s[1..];
      assert t[0] <= s[0];
    }
  }

  lemma {:induction false} InsertDeficit(x: real, s: seq<real>, beta: real)
    ensures Deficit(Insert(x, s), beta) == Deficit(s, beta) + Min(0.0, beta - x)
  {
    if s == [] || x >= s[0] {
      assert ([x] + s)[1..] == s;
    } else {
      InsertDeficit(x, s[1..], beta);
      assert ([s[0]] + Insert(x, s[1..]))[1..] == Insert(x, s[1..]);
    }
  }

  lemma {:induction false} DeficitEnd(s: seq<real>, beta: real)
    requires s != []
    ensures Deficit(s, beta) == Deficit(s[..|s| - 1], beta) + Min(0.0, beta - s[|s| - 1])
  {
    var k := |s| - 1;
    if k > 0 {
      DeficitEnd(s[1..], beta);
      assert s[1..][..k - 1] == s[..k][1..];
    }
  }

  lemma {:induction false} SortFacts(s: seq<real>, beta: real)
    ensures var r := SortDown(s);
      Descending(r) && |r| == |s| && multiset(r) == multiset(s) && Deficit(r, beta) == Deficit(s, beta)
  {
    if s != [] {
      var k := |s| - 1;
      SortFacts(s[..k], beta);
      InsertSorts(s[k], SortDown(s[..k]));
      InsertDeficit(s[k], SortDown(s[..k]), beta);
      DeficitEnd(s, beta);
      assert s == s[..k] + [s[k]];
    }
  }

  // If the first r entries reach beta and the rest do not, the deficit is that of the first r.
  lemma {:induction false} DeficitAt(d: seq<real>, r: nat, beta: real)
    requires r <= |d|
    requires forall k :: 0 <= k < r ==> d[k] >= beta
    requires forall k :: r <= k < |d| ==> d[k] <= beta
    ensures Deficit(d, beta) == (r as real) * beta - Sum(d[..r])
    decreases |d|
  {
    if d != [] {
      var k := |d| - 1;
      DeficitEnd(d, beta);
      if r == |d| {
        DeficitAt(d[..k], k, beta);
        assert d[..r] == d && d[..k][..k] == d[..k];
        assert (r as real) * beta == (k as real) * beta + beta;
      } else {
        DeficitAt(d[..k], r, beta);
        assert d[..k][..r] == d[..r];
      }
    }
  }

  function Raise(b: real, A: real, u: real): (r: real)
    ensures u == 0.0 ==> r == b
  {
    b + A * u
  }

  // B[m] raised by A times the bound of m: the array D before sorting
  function Raised(b: seq<real>, A: real, y: nat, C: real): (d: seq<real>)
    ensures |d| == |b| && forall m :: 0 <= m < |b| ==> d[m] == Raise(b[m], A, Upper(m, y, C))
  {
    if y < |b| then b[y := Raise(b[y], A, C)] else b
  }

  // The code's coordinate for the threshold beta
  function Coordinate(b: real, A: real, u: real, beta: real): real
    requires A > 0.0
  {
    Min(u, (beta - b) / A)
  }

  // A times the sum is A times the bounds plus the deficit.
  ghost predicate Balanced(A: real, sum: real, u: real, deficit: real) {
    A * sum == A * u + deficit
  }

  lemma BalancedSum(A: real, s: real, u: real, d: real, s': real, u': real, d': real, s'': real, u'': real, d'': real)
    requires Balanced(A, s, u, d) && Balanced(A, s', u', d')
    requires s'' == s + s' && u'' == u + u' && d'' == d + d'
    ensures Balanced(A, s'', u'', d'')
  {
    Distribute(A, s, s');
    Distribute(A, u, u');
  }

  lemma CoordinateFacts(b: real, A: real, u: real, beta: real)
    requires A > 0.0
    ensures var a := Coordinate(b, A, u, beta);
      KktAt(A, b, u, beta, a) && Balanced(A, a, u, Min(0.0, beta - Raise(b, A, u)))
  {
    var q := (beta - b) / A;
    Divide(beta - b, A);
    if u <= q {
      Monotone(A, u, q);
    } else {
      Monotone(A, q, u);
    }
  }

  lemma {:induction false} CoordinateSum(b: seq<real>, A: real, y: nat, C: real, beta: real, a: seq<real>)
    requires A > 0.0 && |a| == |b| && forall m :: 0 <= m < |b| ==> a[m] == Coordinate(b[m], A, Upper(m, y, C), beta)
    ensures Balanced(A, Sum(a), if y < |b| then C else 0.0, Deficit(Raised(b, A, y, C), beta))
    ensures Kkt(b, A, y, C, beta, a)
  {
    if b != [] {
      var k := |b| - 1;
      CoordinateSum(b[..k], A, y, C, beta, a[..k]);
      CoordinateFacts(b[k], A, Upper(k, y, C), beta);
      var d, u := Raised(b, A, y, C), Upper(k, y, C);
      DeficitEnd(d, beta);
      assert d[..k] == Raised(b[..k], A, y, C);
      BalancedSum(A, Sum(a[..k]), if y < k then C else 0.0, Deficit(d[..k], beta), a[k], u, Min(0.0, beta - d[k]),
                  Sum(a), if y < |b| then C else 0.0, Deficit(d, beta));
      forall m | 0 <= m < |b| ensures KktAt(A, b[m], Upper(m, y, C), beta, a[m]) {
        if m < k {
          assert KktAt(A, b[..k][m], Upper(m, y, C), beta, a[..k][m]);
        }
      }
    }
  }

  ghost predicate Thresholds(d: seq<real>, beta: real, AC: real) {
    Deficit(d, beta) == -AC
  }

  ghost predicate Below(total: real, r: nat, x: real) {
    total <= (r as real) * x
  }

  lemma BelowStep(total: real, r: nat, x: real)
    requires total < (r as real) * x
    ensures Below(total + x, r + 1, x)
  {
    Distribute(x, r as real, 1.0);
  }

  lemma SumEnd(d: seq<real>, r: nat)
    requires r < |d|
    ensures Sum(d[..r + 1]) == Sum(d[..r]) + d[r]
  {
    assert d[..r + 1][..r] == d[..r];
  }

  lemma ThresholdFound(d: seq<real>, r: nat, total: real, AC: real)
    requires 1 <= r <= |d| && Descending(d) && total == Sum(d[..r]) - AC && Below(total, r, d[r - 1])
    requires r < |d| ==> !(total < (r as real) * d[r])
    ensures Thresholds(d, total / (r as real), AC)
  {
    var beta := total / (r as real);
    DivideBelow(total, r as real, d[r - 1]);
    if r < |d| { DivideAbove(total, r as real, d[r]); }
    assert (r as real) * beta == total by { Divide(total, r as real); }
    DeficitAt(d, r, beta);
  }

  // The loop over the sorted array: after it the first r entries are above the threshold, the others not
  method Threshold(d: seq<real>, AC: real) returns (beta: real)
    requires |d| > 0 && Descending(d) && AC >= 0.0
    ensures Thresholds(d, beta, AC)
  {
    var total, r := d[0] - AC, 1;
    SumEnd(d, 0);
    while r < |d| && total < (r as real) * d[r]
      invariant 1 <= r <= |d|
      invariant total == Sum(d[..r]) - AC
      invariant Below(total, r, d[r - 1])
    {
      SumEnd(d, r);
      BelowStep(total, r, d[r]);
      total := total + d[r];
      r := r + 1;
    }
    ThresholdFound(d, r, total, AC);
    beta := total / (r as real);
  }

  /** solve_sub_problem: alphaNew[..n] becomes the one minimum of the sub-problem given by B[..n]. */
  method SolveSubProblem(A: real, y: nat, C: real, n: nat, B: array<real>, alphaNew: array<real>)
      returns (ghost beta: real)
    requires A > 0.0 && C >= 0.0 && 1 <= n <= B.Length && n <= alphaNew.Length && B != alphaNew
    modifies alphaNew
    ensures Feasible(alphaNew[..n], y, C) && Kkt(B[..n], A, y, C, beta, alphaNew[..n])
    ensures forall c :: |c| == n && Feasible(c, y, C) ==> Objective(B[..n], A, alphaNew[..n]) <= Objective(B[..n], A, c)
    ensures var best := Objective(B[..n], A, alphaNew[..n]);
      forall c :: |c| == n && Feasible(c, y, C) && best == Objective(B[..n], A, c) ==> c == alphaNew[..n]
    ensures forall m :: n <= m < alphaNew.Length ==> alphaNew[m] == old(alphaNew[m])
  {
    ghost var b := B[..n];
    var D := Raised(B[..n], A, y, C);
    var t := FindThreshold(D, A * C);
    beta := t;
    var r := 0;
    while r < n
      invariant 0 <= r <= n && B[..n] == b
      invariant forall m :: 0 <= m < r ==> alphaNew[m] == Coordinate(b[m], A, Upper(m, y, C), beta)
      invariant forall m :: n <= m < alphaNew.Length ==> alphaNew[m] == old(alphaNew[m])
    {
      if r == y {
        alphaNew[r] := Min(C, (t - B[r]) / A);
      } else {
        alphaNew[r] := Min(0.0, (t - B[r]) / A);
      }
      r := r + 1;
    }
    Solution(b, A, y, C, beta, alphaNew[..n]);
    ghost var a := alphaNew[..n];
    forall c | |c| == n && Feasible(c, y, C)
      ensures Objective(b, A, a) <= Objective(b, A, c) && (Objective(b, A, a) == Objective(b, A, c) ==> c == a)
    {
      Minimum(b, A, y, C, beta, a, c);
    }
  }

  method FindThreshold(d: seq<real>, AC: real) returns (beta: real)
    requires |d| > 0 && AC >= 0.0
    ensures Thresholds(d, beta, AC)
  {
    SortFacts(d, 0.0);
    beta := Threshold(SortDown(d), AC);
    SortFacts(d, beta);
  }

  lemma BalancedExactly(A: real, s: real, u: real, C: real)
    requires A > 0.0 && Balanced(A, s, u, -(A * C))
    ensures s == u - C
  {
    Distribute(A, u, -C);
    Cancel(A, s, u - C);
  }

  /** Thresholding gives a feasible point that meets the optimality conditions. */
  lemma Solution(b: seq<real>, A: real, y: nat, C: real, beta: real, a: seq<real>)
    requires A > 0.0 && |a| == |b| && forall m :: 0 <= m < |b| ==> a[m] == Coordinate(b[m], A, Upper(m, y, C), beta)
    requires Thresholds(Raised(b, A, y, C), beta, A * C)
    ensures Feasible(a, y, C) && Kkt(b, A, y, C, beta, a)
  {
    CoordinateSum(b, A, y, C, beta, a);
    var u := if y < |b| then C else 0.0;
    BalancedExactly(A, Sum(a), u, C);
    forall m | 0 <= m < |a| ensures a[m] <= Upper(m, y, C) {
      assert KktAt(A, b[m], Upper(m, y, C), beta, a[m]);
    }
  }
}
