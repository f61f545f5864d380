/** The dual coordinate descent solver for L1- and L2-loss support vector classification of
    sources/liblinear/linear.cpp (solve_l2r_l1l2_svc), in exact arithmetic. */
module SvcSolver {

  import opened Common
  import opened Reals
  import opened Vectors
  import opened SvcDual

  datatype Extended = NegInf | Fin(value: real) | PosInf

  function Max(e: Extended, x: real): Extended {
    match e
    case NegInf => Fin(x)
    case Fin(v) => Fin(if v < x then x else v)
    case PosInf => PosInf
  }

  function Min(e: Extended, x: real): Extended {
    match e
    case NegInf => NegInf
    case Fin(v) => Fin(if x < v then x else v)
    case PosInf => Fin(x)
  }

  predicate Exceeds(x: real, e: Extended) {
    e.NegInf? || (e.Fin? && x > e.value)
  }

  predicate FallsBelow(x: real, e: Extended) {
    e.PosInf? || (e.Fin? && x < e.value)
  }

  // The state of the solver between two visits: alpha in its box and w the matching weights
  ghost predicate Consistent(p: Problem, alpha: Vector, w: Vector)
    requires ProblemOK(p)
  {
    Feasible(p, alpha) && w == Weights(p, alpha, |alpha|)
  }

  function Everyone(l: nat): (r: seq<int>)
    ensures |r| == l && forall i :: 0 <= i < l ==> r[i] == i
  {
    seq(l, i => i)
  }

  // index lists every example once.
  ghost predicate Permutation(index: seq<int>, l: nat) {
    |index| == l && multiset(index) == multiset(Everyone(l))
  }

  lemma IndexRange(index: seq<int>, l: nat, s: nat)
    requires Permutation(index, l) && s < l
    ensures 0 <= index[s] < l
  {
    assert index[s] in multiset(index);
    assert index[s] in Everyone(l);
  }

  // The first `active` entries are in another order, the others where they were.
  ghost predicate Rearranged(was: seq<int>, now: seq<int>, active: nat) {
    active <= |was| == |now| && multiset(now) == multiset(was) && now[active..] == was[active..]
  }

  lemma SwapRearranges(was: seq<int>, now: seq<int>, active: nat, i: nat, j: nat)
    requires Rearranged(was, now, active) && i < active && j < active
    ensures Rearranged(was, now[i := now[j]][j := now[i]], active)
  {
    var next := now[i := now[j]][j := now[i]];
    SwapSame(now, i, j);
    assert next[active..] == now[active..];
  }

  lemma SwapSame(s: seq<int>, i: nat, j: nat)
    requires i < |s| && j < |s|
    ensures multiset(s[i := s[j]][j := s[i]]) == multiset(s)
  {
  }

  method Swap(index: array<int>, i: nat, j: nat)
    requires i < index.Length && j < index.Length
    modifies index
    ensures index[..] == old(index[..])[i := old(index[j])][j := old(index[i])]
  {
    index[i], index[j] := index[j], index[i];
  }

  // The random shuffle of the active examples, for any choices of rand()
  method Shuffle(index: array<int>, active: nat)
    requires active <= index.Length
    modifies index
    ensures Rearranged(old(index[..]), index[..], active)
  {
    var i := 0;
    while i < active
      invariant 0 <= i <= active && Rearranged(old(index[..]), index[..], active) == true
    {
      var j :| i <= j < active;
      SwapRearranges(old(index[..]), index[..], active, i, j);
      Swap(index, i, j);
      i := i + 1;
    }
  }

  // alpha' is the best among the feasible vectors that differ from alpha in coordinate i only.
  ghost predicate Minimal(p: Problem, alpha: Vector, i: nat, alpha': Vector)
    requires ProblemOK(p) && |alpha| == |alpha'| == |p.rows| && i < |alpha|
  {
    && (forall k :: 0 <= k < |alpha| && k != i ==> alpha'[k] == alpha[k])
    && forall v :: InBox(p, i, v) ==> Dual(p, alpha') <= Dual(p, alpha[i := v])
  }

  lemma StepBest(p: Problem, alpha: Vector, i: nat, s: real)
    requires ProblemOK(p) && Feasible(p, alpha) && i < |alpha|
    requires var q := Curvature(p, i); q > 0.0 || (q == 0.0 && Gradient(p, alpha, i) < 0.0 && Upper(p, i).Some?)
    requires s == Step(alpha[i], Gradient(p, alpha, i), Curvature(p, i), Upper(p, i))
    ensures Feasible(p, alpha[i := s]) && Minimal(p, alpha, i, alpha[i := s])
    ensures Weights(p, alpha[i := s], |alpha|) ==
        Add(Weights(p, alpha, |alpha|), Product(s - alpha[i], Label(p, i)), Dense(p.rows[i], p.n))
  {
    WeightsUpdate(p, alpha, i, s, |alpha|);
    var g, q, u := Gradient(p, alpha, i), Curvature(p, i), Upper(p, i);
    assert InBox(p, i, alpha[i]);
    StepMinimises(alpha[i], g, q, u, alpha[i]);
    DualChange(p, alpha, i, s);
    forall v | InBox(p, i, v) ensures Dual(p, alpha[i := s]) <= Dual(p, alpha[i := v]) {
      StepMinimises(alpha[i], g, q, u, v);
      DualChange(p, alpha, i, v);
    }
  }

  /** The update of one coordinate: the exact minimum along it, with w kept in step. */
  method Update(p: Problem, i: nat, g: real, q: real, alpha: array<real>, w: array<real>)
    requires ProblemOK(p) && i < |p.rows| && alpha != w && Consistent(p, alpha[..], w[..])
    requires g == Gradient(p, alpha[..], i) && q == Curvature(p, i)
    modifies alpha, w
    ensures Consistent(p, alpha[..], w[..]) && Minimal(p, old(alpha[..]), i, alpha[..])
  {
    ghost var a := alpha[..];
    var before := alpha[i];
    CurvatureFacts(p, a, i);
    var s := Step(before, g, q, Upper(p, i));
    StepBest(p, a, i, s);
    alpha[i] := s;
    assert alpha[..] == a[i := s];
    Axpy(Product(s - before, Label(p, i)), p.rows[i], w);
  }

  function Abs(x: real): real {
    if x < 0.0 then -x else x
  }

  const TINY: real := 0.000000000001

  // ---------- what a pass records ----------

  /** A visit of one example: alpha before it, whether the example was shrunk away, and otherwise its projected
      gradient. */
  datatype Visited = Visited(example: nat, before: Vector, shrunk: bool, pg: real)

  // At a bound, with a gradient that points out of the box by more than any violation of the pass before
  predicate Shrinks(a: real, g: real, upper: Option<real>, maxOld: Extended, minOld: Extended) {
    (a == 0.0 && Exceeds(g, maxOld)) || (a != 0.0 && upper == Some(a) && FallsBelow(g, minOld))
  }

  // alpha' is the best choice for coordinate i, and better than alpha.
  ghost predicate Improved(p: Problem, alpha: Vector, i: nat, alpha': Vector)
    requires ProblemOK(p) && |alpha| == |alpha'| == |p.rows| && i < |alpha|
  {
    Minimal(p, alpha, i, alpha') && Dual(p, alpha') < Dual(p, alpha)
  }

  /** What a visit does: an example is shrunk away or left alone, or its coordinate is optimised. */
  ghost predicate VisitOK(p: Problem, v: Visited, alpha': Vector, maxOld: Extended, minOld: Extended)
    requires ProblemOK(p)
  {
    && Feasible(p, v.before) && Feasible(p, alpha') && v.example < |p.rows|
    && var a, g, u := v.before[v.example], Gradient(p, v.before, v.example), Upper(p, v.example);
    && (v.shrunk <==> Shrinks(a, g, u, maxOld, minOld))
    && (!v.shrunk ==> v.pg == Projected(a, g, u))
    && if !v.shrunk && Abs(v.pg) > TINY then Improved(p, v.before, v.example, alpha') else alpha' == v.before
  }

  lemma UpdateImproves(p: Problem, alpha: Vector, i: nat, alpha': Vector)
    requires ProblemOK(p) && Feasible(p, alpha) && i < |p.rows| && |alpha'| == |alpha|
    requires Minimal(p, alpha, i, alpha') && Projected(alpha[i], Gradient(p, alpha, i), Upper(p, i)) != 0.0
    ensures Improved(p, alpha, i, alpha')
  {
    var g, q, u := Gradient(p, alpha, i), Curvature(p, i), Upper(p, i);
    assert InBox(p, i, alpha[i]);
    CurvatureFacts(p, alpha, i);
    StepMinimises(alpha[i], g, q, u, alpha[i]);
    StepStrict(alpha[i], g, q, u);
    var s := Step(alpha[i], g, q, u);
    assert InBox(p, i, s);
    DualChange(p, alpha, i, s);
  }

  /** One visit of an example. */
  method Visit(p: Problem, i: nat, q: real, alpha: array<real>, w: array<real>, maxOld: Extended, minOld: Extended)
    returns (shrunk: bool, pg: real)
    requires ProblemOK(p) && i < |p.rows| && alpha != w && Consistent(p, alpha[..], w[..]) && q == Curvature(p, i)
    modifies alpha, w
    ensures Consistent(p, alpha[..], w[..])
    ensures VisitOK(p, Visited(i, old(alpha[..]), shrunk, pg), alpha[..], maxOld, minOld) == true
  {
    ghost var a := alpha[..];
    var dot := SparseWithDense(w, p.rows[i]);
    var g := Product(Label(p, i), dot) - 1.0;
    g := g + Product(alpha[i], Diag(p, i));
    shrunk, pg := false, 0.0;
    if alpha[i] == 0.0 {
      if Exceeds(g, maxOld) { return true, 0.0; }
      if g < 0.0 { pg := g; }
    } else if Upper(p, i) == Some(alpha[i]) {
      if FallsBelow(g, minOld) { return true, 0.0; }
      if g > 0.0 { pg := g; }
    } else {
      pg := g;
    }
    if Abs(pg) > TINY {
      Update(p, i, g, q, alpha, w);
      UpdateImproves(p, a, i, alpha[..]);
    }
  }

  // The examples that stay active, in the order of their visits
  function Kept(visits: seq<Visited>): seq<int> {
    if visits == [] then []
    else
      var k := |visits| - 1;
      Kept(visits[..k]) + if visits[k].shrunk then [] else [visits[k].example]
  }

  // The examples that were shrunk away, the last one first
  function Dropped(visits: seq<Visited>): seq<int> {
    if visits == [] then []
    else
      var k := |visits| - 1;
      (if visits[k].shrunk then [visits[k].example] else []) + Dropped(visits[..k])
  }

  // The extremes of the projected gradients found
  function Largest(visits: seq<Visited>): Extended {
    if visits == [] then NegInf
    else
      var k := |visits| - 1;
      if visits[k].shrunk then Largest(visits[..k]) else Max(Largest(visits[..k]), visits[k].pg)
  }

  function Smallest(visits: seq<Visited>): Extended {
    if visits == [] then PosInf
    else
      var k := |visits| - 1;
      if visits[k].shrunk then Smallest(visits[..k]) else Min(Smallest(visits[..k]), visits[k].pg)
  }

  // alpha before visit k, or after the last one
  function AlphaAt(visits: seq<Visited>, k: nat, alpha: Vector): Vector {
    if k < |visits| then visits[k].before else alpha
  }

  // Each visit goes on from the alpha that the one before it left; the last one leaves alpha.
  ghost predicate Chained(p: Problem, visits: seq<Visited>, alpha: Vector, maxOld: Extended, minOld: Extended)
    requires ProblemOK(p)
  {
    forall k: nat {:trigger VisitAt(p, visits, alpha, maxOld, minOld, k)} :: k < |visits| ==>
      VisitAt(p, visits, alpha, maxOld, minOld, k)
  }

  ghost predicate VisitAt(p: Problem, visits: seq<Visited>, alpha: Vector, maxOld: Extended, minOld: Extended, k: nat)
    requires ProblemOK(p) && k < |visits|
  {
    VisitOK(p, visits[k], AlphaAt(visits, k + 1, alpha), maxOld, minOld)
  }

  lemma ChainedMore(p: Problem, visits: seq<Visited>, alpha: Vector, v: Visited, alpha': Vector, maxOld: Extended,
                    minOld: Extended)
    requires ProblemOK(p) && Chained(p, visits, alpha, maxOld, minOld)
    requires v.before == alpha && VisitOK(p, v, alpha', maxOld, minOld)
    ensures Chained(p, visits + [v], alpha', maxOld, minOld)
    ensures AlphaAt(visits + [v], 0, alpha') == AlphaAt(visits, 0, alpha)
  {
    var more := visits + [v];
    forall k: nat | k < |more| ensures VisitAt(p, more, alpha', maxOld, minOld, k) {
      if k < |visits| {
        assert VisitAt(p, visits, alpha, maxOld, minOld, k);
        assert more[k] == visits[k] && AlphaAt(more, k + 1, alpha') == AlphaAt(visits, k + 1, alpha);
      }
    }
  }

  lemma VisitedMore(visits: seq<Visited>, v: Visited)
    ensures Kept(visits + [v]) == Kept(visits) + if v.shrunk then [] else [v.example]
    ensures Dropped(visits + [v]) == (if v.shrunk then [v.example] else []) + Dropped(visits)
    ensures Largest(visits + [v]) == if v.shrunk then Largest(visits) else Max(Largest(visits), v.pg)
    ensures Smallest(visits + [v]) == if v.shrunk then Smallest(visits) else Min(Smallest(visits), v.pg)
  {
    assert (visits + [v])[..|visits|] == visits;
  }

  // The active part of index in the middle of a pass: what was kept, what is to come, what was dropped
  ghost predicate Sorted(index: seq<int>, visits: seq<Visited>, s: nat, active': nat, active: nat) {
    && s <= active' <= active <= |index| && |visits| == s + (active - active')
    && index[..s] == Kept(visits) && index[active'..active] == Dropped(visits)
  }

  lemma SortedKept(index: seq<int>, visits: seq<Visited>, v: Visited, s: nat, active': nat, active: nat)
    requires Sorted(index, visits, s, active', active) && s < active' && !v.shrunk && v.example == index[s]
    ensures Sorted(index, visits + [v], s + 1, active', active)
  {
    VisitedMore(visits, v);
    assert index[..s + 1] == index[..s] + [index[s]];
  }

  lemma SortedDropped(index: seq<int>, visits: seq<Visited>, v: Visited, s: nat, active': nat, active: nat)
    requires Sorted(index, visits, s, active', active) && s < active' && v.shrunk && v.example == index[s]
    ensures Sorted(index[s := index[active' - 1]][active' - 1 := index[s]], visits + [v], s, active' - 1, active)
  {
    VisitedMore(visits, v);
    var k := active' - 1;
    var next := index[s := index[k]][k := index[s]];
    assert next[..s] == index[..s] && next[k..active] == [index[s]] + index[active'..active];
  }

  lemma VisitDescends(p: Problem, v: Visited, alpha': Vector, maxOld: Extended, minOld: Extended)
    requires ProblemOK(p) && VisitOK(p, v, alpha', maxOld, minOld)
    ensures Feasible(p, v.before) && Feasible(p, alpha') && Dual(p, alpha') <= Dual(p, v.before)
    ensures !v.shrunk && Abs(v.pg) > TINY ==> Dual(p, alpha') < Dual(p, v.before)
  {
  }

  // The objective over the visits
  lemma {:induction false} Descends(p: Problem, visits: seq<Visited>, alpha: Vector, maxOld: Extended,
                                    minOld: Extended, k: nat)
    requires ProblemOK(p) && Feasible(p, alpha) && Chained(p, visits, alpha, maxOld, minOld) && k <= |visits|
    ensures Feasible(p, AlphaAt(visits, k, alpha)) && Dual(p, alpha) <= Dual(p, AlphaAt(visits, k, alpha))
    decreases |visits| - k
  {
    if k < |visits| {
      assert VisitAt(p, visits, alpha, maxOld, minOld, k);
      VisitDescends(p, visits[k], AlphaAt(visits, k + 1, alpha), maxOld, minOld);
      Descends(p, visits, alpha, maxOld, minOld, k + 1);
    }
  }

  // A visit and its record
  method Turn(p: Problem, i: nat, q: real, alpha: array<real>, w: array<real>, maxOld: Extended, minOld: Extended,
              ghost visits: seq<Visited>)
    returns (shrunk: bool, pg: real, ghost v: Visited)
    requires ProblemOK(p) && i < |p.rows| && alpha != w && Consistent(p, alpha[..], w[..]) && q == Curvature(p, i)
    requires Chained(p, visits, alpha[..], maxOld, minOld)
    modifies alpha, w
    ensures Consistent(p, alpha[..], w[..]) == true && v == Visited(i, old(alpha[..]), shrunk, pg)
    ensures Chained(p, visits + [v], alpha[..], maxOld, minOld) == true
    ensures AlphaAt(visits + [v], 0, alpha[..]) == AlphaAt(visits, 0, old(alpha[..]))
  {
    ghost var a := alpha[..];
    shrunk, pg := Visit(p, i, q, alpha, w, maxOld, minOld);
    v := Visited(i, a, shrunk, pg);
    ChainedMore(p, visits, a, v, alpha[..], maxOld, minOld);
  }

  // A shrunk example goes behind the ones that stay active.
  method Park(index: array<int>, s: nat, last: nat, ghost was: seq<int>, ghost visits: seq<Visited>, ghost v: Visited,
              ghost active: nat)
    requires s <= last && Sorted(index[..], visits, s, last + 1, active) && Rearranged(was, index[..], active)
    requires v.shrunk && v.example == index[s]
    modifies index
    ensures Sorted(index[..], visits + [v], s, last, active) == true && Rearranged(was, index[..], active) == true
  {
    ghost var now := index[..];
    SortedDropped(now, visits, v, s, last + 1, active);
    SwapRearranges(was, now, active, s, last);
    Swap(index, s, last);
    assert index[..] == now[s := now[last]][last := now[s]];
  }

  /** One pass over the active examples, with a record of its visits: each active example is visited once, the ones
      shrunk away go behind the others, and the extremes are those of the projected gradients found. */
  method Pass(p: Problem, qd: seq<real>, alpha: array<real>, w: array<real>, index: array<int>, active: nat,
      maxOld: Extended, minOld: Extended)
    returns (active': nat, max: Extended, min: Extended, ghost visits: seq<Visited>)
    requires ProblemOK(p) && alpha != w && Consistent(p, alpha[..], w[..])
    requires |qd| == |p.rows| && forall i :: 0 <= i < |qd| ==> qd[i] == Curvature(p, i)
    requires index.Length == |p.rows| && active <= index.Length && Permutation(index[..], index.Length)
    modifies alpha, w, index
    ensures Consistent(p, alpha[..], w[..]) && Rearranged(old(index[..]), index[..], active)
    ensures Chained(p, visits, alpha[..], maxOld, minOld) && AlphaAt(visits, 0, alpha[..]) == old(alpha[..])
    ensures active' <= active && index[..active'] == Kept(visits) && index[active'..active] == Dropped(visits)
    ensures |visits| == active && max == Largest(visits) && min == Smallest(visits)
  {
    Shuffle(index, active);
    active', max, min, visits := active, NegInf, PosInf, [];
    var s := 0;
    while s < active'
      invariant Consistent(p, alpha[..], w[..]) == true && Rearranged(old(index[..]), index[..], active) == true
      invariant Chained(p, visits, alpha[..], maxOld, minOld) == true
      invariant AlphaAt(visits, 0, alpha[..]) == old(alpha[..])
      invariant Sorted(index[..], visits, s, active', active) == true
      invariant max == Largest(visits) && min == Smallest(visits)
      decreases active' - s
    {
      IndexRange(index[..], index.Length, s);
      var i := index[s];
      ghost var now := index[..];
      var shrunk, pg, v := Turn(p, i, qd[i], alpha, w, maxOld, minOld, visits);
      assert index[..] == now;
      VisitedMore(visits, v);
      if shrunk {
        active' := active' - 1;
        Park(index, s, active', old(index[..]), visits, v, active);
      } else {
        SortedKept(index[..], visits, v, s, active', active);
        max, min := Max(max, pg), Min(min, pg);
        s := s + 1;
      }
      visits := visits + [v];
    }
  }

  // ---------- what the solver records ----------

  /** A pass: the number of examples that were active, the limits for shrinking, the visits, and alpha at its end */
  datatype PassLog = PassLog(active: nat, maxOld: Extended, minOld: Extended, visits: seq<Visited>, alpha: Vector)

  ghost predicate PassOK(p: Problem, r: PassLog)
    requires ProblemOK(p)
  {
    && r.active <= |p.rows| && |r.visits| == r.active && Feasible(p, r.alpha)
    && Chained(p, r.visits, r.alpha, r.maxOld, r.minOld)
    && multiset(Examples(r.visits)) <= multiset(Everyone(|p.rows|))
    && (r.active == |p.rows| ==> multiset(Examples(r.visits)) == multiset(Everyone(|p.rows|)))
  }

  // Every projected gradient found is within eps, and so is their spread.
  predicate Converged(r: PassLog, eps: real) {
    var max, min := Largest(r.visits), Smallest(r.visits);
    max.Fin? && min.Fin? && max.value - min.value <= eps && Abs(max.value) <= eps && Abs(min.value) <= eps
  }

  /** The next pass: over all examples without shrinking once the active ones have converged, and otherwise over the
      examples that are left, with the extremes found as limits where they have the right sign. */
  ghost predicate Follows(p: Problem, eps: real, r: PassLog, t: PassLog) {
    && AlphaAt(t.visits, 0, t.alpha) == r.alpha
    && if Converged(r, eps) then
         |Kept(r.visits)| < |p.rows| && t.active == |p.rows| && t.maxOld == PosInf && t.minOld == NegInf
       else
         && multiset(Examples(t.visits)) == multiset(Kept(r.visits)) && t.active == |Kept(r.visits)|
         && t.maxOld == Above(Largest(r.visits)) && t.minOld == Below(Smallest(r.visits))
  }

  function Examples(visits: seq<Visited>): seq<int> {
    seq(|visits|, k requires 0 <= k < |visits| => visits[k].example)
  }

  function Above(max: Extended): Extended {
    if max.NegInf? || (max.Fin? && max.value <= 0.0) then PosInf else max
  }

  function Below(min: Extended): Extended {
    if min.PosInf? || (min.Fin? && min.value >= 0.0) then NegInf else min
  }

  // What the passes so far make of the next one, for which the examples `next` are active
  ghost predicate Ready(p: Problem, eps: real, log: seq<PassLog>, alpha: Vector, next: seq<int>, maxOld: Extended,
                        minOld: Extended)
  {
    if log == [] then
      alpha == Zero(|p.rows|) && |next| == |p.rows| && maxOld == PosInf && minOld == NegInf
    else
      var r := log[|log| - 1];
      && alpha == r.alpha
      && if Converged(r, eps) then
           |Kept(r.visits)| < |p.rows| == |next| && maxOld == PosInf && minOld == NegInf
         else
           next == Kept(r.visits) && maxOld == Above(Largest(r.visits)) && minOld == Below(Smallest(r.visits))
  }

  /** The passes of a run: the first one is over all examples without shrinking, from zero, and each one follows from
      the one before it. */
  ghost predicate Logged(p: Problem, eps: real, log: seq<PassLog>)
    requires ProblemOK(p)
  {
    && (forall k {:trigger PassOK(p, log[k])} :: 0 <= k < |log| ==> PassOK(p, log[k]))
    && (log != [] ==> Starts(p, log[0]))
    && (forall k {:trigger Follows(p, eps, log[k - 1], log[k])} :: 0 < k < |log| ==>
          Follows(p, eps, log[k - 1], log[k]))
  }

  ghost predicate Starts(p: Problem, r: PassLog) {
    && AlphaAt(r.visits, 0, r.alpha) == Zero(|p.rows|)
    && r.active == |p.rows| && r.maxOld == PosInf && r.minOld == NegInf
  }

  // All examples stayed active and have converged.
  predicate Finished(p: Problem, r: PassLog, eps: real) {
    r.active == |Kept(r.visits)| == |p.rows| && Converged(r, eps)
  }

  lemma LogMore(p: Problem, eps: real, log: seq<PassLog>, alpha: Vector, next: seq<int>, r: PassLog)
    requires ProblemOK(p) && Logged(p, eps, log) && PassOK(p, r) && AlphaAt(r.visits, 0, r.alpha) == alpha
    requires Ready(p, eps, log, alpha, next, r.maxOld, r.minOld)
    requires r.active == |next| && multiset(Examples(r.visits)) == multiset(next)
    ensures Logged(p, eps, log + [r])
  {
    var more := log + [r];
    forall k | 0 <= k < |more| ensures PassOK(p, more[k]) {
      if k < |log| { assert more[k] == log[k] && PassOK(p, log[k]); }
    }
    forall k | 0 < k < |more| ensures Follows(p, eps, more[k - 1], more[k]) {
      if k < |log| { assert more[k] == log[k] && more[k - 1] == log[k - 1] && Follows(p, eps, log[k - 1], log[k]); }
    }
  }

  lemma {:induction false} ExamplesSplit(visits: seq<Visited>)
    ensures multiset(Examples(visits)) == multiset(Kept(visits)) + multiset(Dropped(visits))
    ensures |visits| == |Kept(visits)| + |Dropped(visits)|
  {
    if visits != [] {
      var k := |visits| - 1;
      ExamplesSplit(visits[..k]);
      assert Examples(visits) == Examples(visits[..k]) + [visits[k].example];
    }
  }

  lemma FrontSame(was: seq<int>, now: seq<int>, active: nat)
    requires Rearranged(was, now, active)
    ensures multiset(now[..active]) == multiset(was[..active])
  {
    assert now == now[..active] + now[active..] && was == was[..active] + was[active..];
    assert multiset(now[..active]) == multiset(now) - multiset(now[active..]);
    assert multiset(was[..active]) == multiset(was) - multiset(was[active..]);
  }

  lemma PassLogged(p: Problem, r: PassLog, was: seq<int>, now: seq<int>, active': nat)
    requires ProblemOK(p) && Feasible(p, r.alpha) && Chained(p, r.visits, r.alpha, r.maxOld, r.minOld)
    requires Rearranged(was, now, r.active) && Permutation(was, |p.rows|) && |r.visits| == r.active
    requires active' <= r.active && now[..active'] == Kept(r.visits) && now[active'..r.active] == Dropped(r.visits)
    ensures PassOK(p, r) && multiset(Examples(r.visits)) == multiset(was[..r.active])
  {
    ExamplesSplit(r.visits);
    CutAt(now, active', r.active);
    FrontSame(was, now, r.active);
    CutAt(was, r.active, |was|);
  }

  lemma CutAt(s: seq<int>, a: nat, b: nat)
    requires a <= b <= |s|
    ensures s[..b] == s[..a] + s[a..b] && (b == |s| ==> s[..b] == s && s == s[..a] + s[a..])
  {
  }

  // The first visit of all improves alpha, and no later one makes it worse.
  lemma PassDescends(p: Problem, eps: real, log: seq<PassLog>, alpha: Vector, next: seq<int>, r: PassLog)
    requires ProblemOK(p) && PassOK(p, r) && AlphaAt(r.visits, 0, r.alpha) == alpha
    requires Ready(p, eps, log, alpha, next, r.maxOld, r.minOld) && r.active == |next|
    ensures Feasible(p, alpha) && Dual(p, r.alpha) <= Dual(p, alpha)
    ensures log == [] && |p.rows| > 0 ==> Dual(p, r.alpha) < Dual(p, alpha)
  {
    Descends(p, r.visits, r.alpha, r.maxOld, r.minOld, 0);
    if log == [] && |p.rows| > 0 {
      var v, after := r.visits[0], AlphaAt(r.visits, 1, r.alpha);
      assert VisitAt(p, r.visits, r.alpha, r.maxOld, r.minOld, 0);
      GradientAtZero(p, v.example);
      Descends(p, r.visits, r.alpha, r.maxOld, r.minOld, 1);
      VisitDescends(p, v, after, r.maxOld, r.minOld);
    }
  }

  lemma GradientAtZero(p: Problem, i: nat)
    requires ProblemOK(p) && i < |p.rows|
    ensures Gradient(p, Zero(|p.rows|), i) == -1.0
  {
    ZeroWeights(p, |p.rows|);
    InnerZero(p.n, Dense(p.rows[i], p.n));
    ProductZero(Label(p, i));
    ProductZero(Diag(p, i));
    assert Product(0.0, Diag(p, i)) == 0.0;
  }

  // The passes so far, and the objective after them
  ghost predicate Running(p: Problem, eps: real, log: seq<PassLog>, alpha: Vector)
    requires ProblemOK(p)
  {
    && Logged(p, eps, log) && Feasible(p, alpha) && Dual(p, alpha) <= 0.0
    && (log != [] && |p.rows| > 0 ==> Dual(p, alpha) < 0.0)
  }

  lemma RunningMore(p: Problem, eps: real, log: seq<PassLog>, alpha: Vector, next: seq<int>, r: PassLog)
    requires ProblemOK(p) && Running(p, eps, log, alpha)
    requires PassOK(p, r) && AlphaAt(r.visits, 0, r.alpha) == alpha
    requires Ready(p, eps, log, alpha, next, r.maxOld, r.minOld)
    requires r.active == |next| && multiset(Examples(r.visits)) == multiset(next)
    ensures Running(p, eps, log + [r], r.alpha)
  {
    LogMore(p, eps, log, alpha, next, r);
    PassDescends(p, eps, log, alpha, next, r);
  }

  // A pass and its record
  method Round(p: Problem, eps: real, qd: seq<real>, alpha: array<real>, w: array<real>, index: array<int>, active: nat,
      maxOld: Extended, minOld: Extended, ghost log: seq<PassLog>)
    returns (active': nat, max: Extended, min: Extended, ghost r: PassLog)
    requires ProblemOK(p) && alpha != w && Consistent(p, alpha[..], w[..])
    requires |qd| == |p.rows| && forall i :: 0 <= i < |qd| ==> qd[i] == Curvature(p, i)
    requires index.Length == |p.rows| && active <= index.Length && Permutation(index[..], index.Length)
    requires Running(p, eps, log, alpha[..])
    requires Ready(p, eps, log, alpha[..], index[..active], maxOld, minOld)
    modifies alpha, w, index
    ensures Consistent(p, alpha[..], w[..]) == true && Permutation(index[..], index.Length) == true
    ensures Running(p, eps, log + [r], alpha[..]) == true && r.alpha == alpha[..] && r.active == active
    ensures active' <= active && index[..active'] == Kept(r.visits)
    ensures max == Largest(r.visits) && min == Smallest(r.visits)
  {
    ghost var visits;
    ghost var a, was := alpha[..], index[..];
    active', max, min, visits := Pass(p, qd, alpha, w, index, active, maxOld, minOld);
    r := PassLog(active, maxOld, minOld, visits, alpha[..]);
    PassLogged(p, r, was, index[..], active');
    RunningMore(p, eps, log, a, was[..active], r);
  }

  // The next pass is over all examples.
  lemma ReadyAll(p: Problem, eps: real, log: seq<PassLog>, r: PassLog, next: seq<int>)
    requires Converged(r, eps) && |Kept(r.visits)| < |p.rows| == |next|
    ensures Ready(p, eps, log + [r], r.alpha, next, PosInf, NegInf)
  {
  }

  // The next pass is over the examples that are left.
  lemma ReadyRest(p: Problem, eps: real, log: seq<PassLog>, r: PassLog)
    requires !Converged(r, eps)
    ensures Ready(p, eps, log + [r], r.alpha, Kept(r.visits), Above(Largest(r.visits)), Below(Smallest(r.visits)))
  {
  }

  // The passes of the solver, from zero
  method Passes(p: Problem, eps: real, maxIter: nat, qd: seq<real>, alpha: array<real>, w: array<real>,
                index: array<int>)
    returns (iter: nat, ghost log: seq<PassLog>)
    requires ProblemOK(p) && alpha != w && Consistent(p, alpha[..], w[..])
    requires |qd| == |p.rows| && forall i :: 0 <= i < |qd| ==> qd[i] == Curvature(p, i)
    requires index.Length == |p.rows| && Permutation(index[..], index.Length)
    requires alpha[..] == Zero(|p.rows|) && Dual(p, alpha[..]) == 0.0
    modifies alpha, w, index
    ensures Consistent(p, alpha[..], w[..]) == true && Running(p, eps, log, alpha[..]) == true
    ensures iter == |log| <= maxIter && (maxIter > 0 ==> iter > 0)
    ensures alpha[..] == if log == [] then Zero(|p.rows|) else log[iter - 1].alpha
    ensures iter < maxIter ==> iter > 0 && Finished(p, log[iter - 1], eps)
  {
    var l := |p.rows|;
    var active: nat := l;
    var maxOld, minOld := PosInf, NegInf;
    iter, log := 0, [];
    while iter < maxIter
      invariant 0 <= iter == |log| <= maxIter && active <= l
      invariant Consistent(p, alpha[..], w[..]) == true && Permutation(index[..], l) == true
      invariant Running(p, eps, log, alpha[..]) == true
      invariant Ready(p, eps, log, alpha[..], index[..active], maxOld, minOld) == true
    {
      var max, min;
      ghost var r;
      active, max, min, r := Round(p, eps, qd, alpha, w, index, active, maxOld, minOld, log);
      ghost var before := log;
      iter, log := iter + 1, log + [r];
      if max.Fin? && min.Fin? && max.value - min.value <= eps && Abs(max.value) <= eps && Abs(min.value) <= eps {
        if active == l { break; }
        active, maxOld, minOld := l, PosInf, NegInf;
        ReadyAll(p, eps, before, r, index[..l]);
      } else {
        maxOld := if max.NegInf? || (max.Fin? && max.value <= 0.0) then PosInf else max;
        minOld := if min.PosInf? || (min.Fin? && min.value >= 0.0) then NegInf else min;
        ReadyRest(p, eps, before, r);
      }
    }
  }

  /** solve_l2r_l1l2_svc: at most maxIter passes. Whatever the random choices, w is always the sum of
      alpha[i] y[i] x[i] with alpha in its box, and the dual objective falls below its start value 0. The solver ends
      before the last pass only if a pass over all examples finds every projected gradient within eps. */
  method Solve(p: Problem, eps: real, maxIter: nat)
      returns (w: array<real>, alpha: array<real>, objective: real, iter: nat, ghost log: seq<PassLog>)
    requires ProblemOK(p)
    ensures Consistent(p, alpha[..], w[..])
    ensures objective == Dual(p, alpha[..]) <= 0.0 && (|p.rows| > 0 && maxIter > 0 ==> objective < 0.0)
    ensures iter == |log| <= maxIter && Logged(p, eps, log)
    ensures alpha[..] == if iter == 0 then Zero(|p.rows|) else log[iter - 1].alpha
    ensures iter < maxIter ==> iter > 0 && Finished(p, log[iter - 1], eps)
  {
    var l := |p.rows|;
    alpha, w := new real[l](_ => 0.0), new real[p.n](_ => 0.0);
    var index := new int[l](i => i);
    var qd := Curvatures(p);
    ZeroWeights(p, l);
    assert alpha[..] == Zero(l) && w[..] == Zero(p.n) && index[..] == Everyone(l);
    iter, log := Passes(p, eps, maxIter, qd, alpha, w, index);
    objective := Objective(p, alpha, w);
  }

  method Curvatures(p: Problem) returns (qd: seq<real>)
    requires ProblemOK(p)
    ensures |qd| == |p.rows| && forall i :: 0 <= i < |qd| ==> qd[i] == Curvature(p, i)
  {
    qd := [];
    var i := 0;
    while i < |p.rows|
      invariant 0 <= i <= |p.rows| && |qd| == i && forall k :: 0 <= k < i ==> qd[k] == Curvature(p, k)
    {
      var norm := Nrm2Sq(p.rows[i]);
      qd := qd + [Diag(p, i) + norm];
      i := i + 1;
    }
  }

  lemma {:induction false} ZeroWeights(p: Problem, k: nat)
    requires ProblemOK(p) && k <= |p.rows|
    ensures Weights(p, Zero(|p.rows|), k) == Zero(p.n) && Separable(p, Zero(|p.rows|), k) == 0.0
    ensures k == |p.rows| ==> Dual(p, Zero(|p.rows|)) == 0.0
  {
    if k > 0 {
      ZeroWeights(p, k - 1);
      ProductZero(Label(p, k - 1));
      ProductZero(Diag(p, k - 1) / 2.0);
      assert forall x :: Product(0.0, x) == 0.0;
    }
    InnerZero(p.n, Zero(p.n));
  }

  lemma TermDoubled(d: real, a: real)
    ensures Product(a, Product(a, d) - 2.0) == 2.0 * Term(d, a)
  {
  }

  // The value reported at the end
  method Objective(p: Problem, alpha: array<real>, w: array<real>) returns (objective: real)
    requires ProblemOK(p) && Consistent(p, alpha[..], w[..])
    ensures objective == Dual(p, alpha[..])
  {
    var v, i := 0.0, 0;
    while i < w.Length
      invariant 0 <= i <= w.Length && v == Inner(w[..i], w[..i])
    {
      assert w[..i + 1][..i] == w[..i];
      v := v + Product(w[i], w[i]);
      i := i + 1;
    }
    assert w[..i] == w[..];
    ghost var norm := v;
    i := 0;
    while i < alpha.Length
      invariant 0 <= i <= alpha.Length && v == norm + 2.0 * Separable(p, alpha[..], i)
    {
      TermDoubled(Diag(p, i), alpha[i]);
      v := v + Product(alpha[i], Product(alpha[i], Diag(p, i)) - 2.0);
      i := i + 1;
    }
    objective := v / 2.0;
  }

  // ---------- what the record means ----------

  // An example shrunk away violates nothing: its projected gradient is zero.
  lemma ShrunkIsStationary(p: Problem, eps: real, log: seq<PassLog>, n: nat, k: nat)
    requires ProblemOK(p) && Logged(p, eps, log) && n < |log| && k < |log[n].visits| && log[n].visits[k].shrunk
    ensures
      var v := log[n].visits[k];
      && v.example < |p.rows| && Feasible(p, v.before)
      && Projected(v.before[v.example], Gradient(p, v.before, v.example), Upper(p, v.example)) == 0.0
  {
    var r := log[n];
    assert PassOK(p, r) && VisitAt(p, r.visits, r.alpha, r.maxOld, r.minOld, k);
    assert n > 0 ==> Follows(p, eps, log[n - 1], r);
    assert !r.maxOld.NegInf? && (r.maxOld.Fin? ==> r.maxOld.value > 0.0);
    assert !r.minOld.PosInf? && (r.minOld.Fin? ==> r.minOld.value < 0.0);
  }

  // The extremes bound every projected gradient found.
  lemma {:induction false} Extremes(visits: seq<Visited>, k: nat, max: real, min: real)
    requires k < |visits| && !visits[k].shrunk && Largest(visits) == Fin(max) && Smallest(visits) == Fin(min)
    ensures min <= visits[k].pg <= max
  {
    var n := |visits| - 1;
    if k < n {
      assert visits[..n][k] == visits[k];
      NotEmpty(visits[..n], k);
      var more, less := Largest(visits[..n]).value, Smallest(visits[..n]).value;
      Extremes(visits[..n], k, more, less);
    } else {
      LargestProper(visits[..n]);
    }
  }

  lemma {:induction false} NotEmpty(visits: seq<Visited>, k: nat)
    requires k < |visits| && !visits[k].shrunk
    ensures Largest(visits).Fin? && Smallest(visits).Fin?
  {
    var n := |visits| - 1;
    LargestProper(visits[..n]);
    if k < n {
      assert visits[..n][k] == visits[k];
      NotEmpty(visits[..n], k);
    }
  }

  lemma {:induction false} LargestProper(visits: seq<Visited>)
    ensures !Largest(visits).PosInf? && !Smallest(visits).NegInf?
  {
    if visits != [] { LargestProper(visits[..|visits| - 1]); }
  }

  lemma {:induction false} NoneShrunk(visits: seq<Visited>, k: nat)
    requires |Kept(visits)| == |visits| && k < |visits|
    ensures !visits[k].shrunk
  {
    var n := |visits| - 1;
    KeptFewer(visits[..n]);
    if k < n {
      assert visits[..n][k] == visits[k];
      NoneShrunk(visits[..n], k);
    }
  }

  lemma {:induction false} KeptFewer(visits: seq<Visited>)
    ensures |Kept(visits)| <= |visits|
  {
    if visits != [] { KeptFewer(visits[..|visits| - 1]); }
  }

  /** The pass after which the solver stops has visited every example and found every projected gradient within
      eps. */
  lemma FinishedFound(p: Problem, r: PassLog, eps: real, i: nat) returns (k: nat)
    requires ProblemOK(p) && PassOK(p, r) && Finished(p, r, eps) && i < |p.rows|
    ensures k < |r.visits| && r.visits[k].example == i && !r.visits[k].shrunk && Abs(r.visits[k].pg) <= eps
    ensures
      var v := r.visits[k];
      Feasible(p, v.before) && v.pg == Projected(v.before[i], Gradient(p, v.before, i), Upper(p, i))
  {
    assert Everyone(|p.rows|)[i] == i;
    assert i in multiset(Everyone(|p.rows|)) && i in Examples(r.visits);
    k :| 0 <= k < |r.visits| && r.visits[k].example == i;
    NoneShrunk(r.visits, k);
    Extremes(r.visits, k, Largest(r.visits).value, Smallest(r.visits).value);
    assert VisitAt(p, r.visits, r.alpha, r.maxOld, r.minOld, k);
  }

  // With a tolerance that updates nothing, the last pass leaves alpha alone.
  lemma {:induction false} FinishedSame(p: Problem, r: PassLog, eps: real, k: nat)
    requires ProblemOK(p) && PassOK(p, r) && Finished(p, r, eps) && eps <= TINY && k <= |r.visits|
    ensures AlphaAt(r.visits, k, r.alpha) == r.alpha
    decreases |r.visits| - k
  {
    if k < |r.visits| {
      FinishedSame(p, r, eps, k + 1);
      NoneShrunk(r.visits, k);
      Extremes(r.visits, k, Largest(r.visits).value, Smallest(r.visits).value);
      assert VisitAt(p, r.visits, r.alpha, r.maxOld, r.minOld, k);
    }
  }

  /** A solver that stops with a tolerance no larger than that for updates has all projected gradients of its result
      within the tolerance, and with tolerance zero its result is the global minimum. */
  lemma FinishedMinimum(p: Problem, r: PassLog, eps: real)
    requires ProblemOK(p) && PassOK(p, r) && Finished(p, r, eps) && eps <= TINY
    ensures forall i :: 0 <= i < |p.rows| ==>
      Abs(Projected(r.alpha[i], Gradient(p, r.alpha, i), Upper(p, i))) <= eps
    ensures eps == 0.0 ==> forall beta :: Feasible(p, beta) ==> Dual(p, r.alpha) <= Dual(p, beta)
  {
    forall i | 0 <= i < |p.rows|
      ensures Abs(Projected(r.alpha[i], Gradient(p, r.alpha, i), Upper(p, i))) <= eps
    {
      var k := FinishedFound(p, r, eps, i);
      FinishedSame(p, r, eps, k);
    }
    if eps == 0.0 {
      assert Stationary(p, r.alpha);
      Optimality(p, r.alpha);
    }
  }
}
