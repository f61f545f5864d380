/** The Kernel 2 validator of the Graph 500 benchmark (sources/graph500/verify.c), read sequentially.

    The input is an edge list and a parent array. The claim proved here is a theorem about graphs:
    the validator accepts exactly the breadth-first-search trees of the root's component, and then
    returns the number of input edges inside that component.
 */
module BfsVerify {

  datatype Edge = Edge(v0: int, v1: int)

  // ---------- graphs ----------

  // Edges with a negative endpoint are skipped by the validator.
  ghost predicate Adjacent(edges: seq<Edge>, u: int, v: int) {
    0 <= u && 0 <= v && (Edge(u, v) in edges || Edge(v, u) in edges)
  }

  // There is a walk of length d from root to v.
  ghost predicate Walk(edges: seq<Edge>, root: int, v: int, d: nat)
    decreases d
  {
    if d == 0 then v == root else exists u :: Adjacent(edges, u, v) && Walk(edges, root, u, d - 1)
  }

  ghost predicate Connected(edges: seq<Edge>, root: int, v: int) {
    exists d: nat :: Walk(edges, root, v, d)
  }

  ghost predicate Distance(edges: seq<Edge>, root: int, v: int, d: nat) {
    Walk(edges, root, v, d) && forall c: nat :: c < d ==> !Walk(edges, root, v, c)
  }

  ghost predicate OneFurther(edges: seq<Edge>, root: int, p: int, v: int) {
    exists d: nat :: Distance(edges, root, p, d) && Distance(edges, root, v, d + 1)
  }

  // The vertices with a parent are exactly root's component; every tree edge is an input edge
  // and leads one step away from the root.
  ghost predicate BfsTree(tree: seq<int>, root: int, edges: seq<Edge>) {
    && 0 <= root < |tree| && tree[root] == root
    && (forall v :: 0 <= v < |tree| ==> (tree[v] >= 0 <==> Connected(edges, root, v)))
    && (forall v :: v >= |tree| ==> !Connected(edges, root, v))
    && (forall v :: 0 <= v < |tree| && v != root && tree[v] >= 0 ==>
        Adjacent(edges, tree[v], v) && OneFurther(edges, root, tree[v], v))
  }

  // No edge joins a vertex within the parent array to one beyond it.
  predicate NoStraddle(n: nat, edges: seq<Edge>) {
    forall e :: e in edges && e.v0 >= 0 && e.v1 >= 0 ==> (e.v0 < n <==> e.v1 < n)
  }

  predicate Inside(tree: seq<int>, e: Edge) {
    0 <= e.v0 < |tree| && 0 <= e.v1 < |tree| && tree[e.v0] >= 0 && tree[e.v1] >= 0
  }

  function CountInside(tree: seq<int>, edges: seq<Edge>): nat {
    if edges == [] then 0
    else CountInside(tree, edges[..|edges| - 1]) + if Inside(tree, edges[|edges| - 1]) then 1 else 0
  }

  // ---------- levels ----------

  predicate InRange(tree: seq<int>) {
    forall v :: 0 <= v < |tree| ==> tree[v] < |tree|
  }

  // A vertex other than the root that has a level sits one below its parent.
  ghost predicate LevelStep(tree: seq<int>, level: seq<int>, v: int)
    requires InRange(tree) && |level| == |tree| && 0 <= v < |tree|
  {
    tree[v] >= 0 && level[tree[v]] >= 0 && level[v] == level[tree[v]] + 1
  }

  ghost predicate Levels(tree: seq<int>, root: int, level: seq<int>) {
    && InRange(tree) && |level| == |tree| && 0 <= root < |tree| && level[root] == 0
    && (forall v :: 0 <= v < |tree| ==> (tree[v] >= 0 <==> level[v] >= 0))
    && (forall v :: 0 <= v < |tree| && v != root && tree[v] >= 0 ==> LevelStep(tree, level, v))
  }

  // A path of parent steps; its last entry may lie outside the tree.
  ghost predicate Chain(tree: seq<int>, path: seq<int>) {
    |path| > 0 && forall t :: 0 <= t < |path| - 1 ==> 0 <= path[t] < |tree| && path[t + 1] == tree[path[t]]
  }

  // Climbing in a levelled tree lowers the level by one per step until the root is met.
  lemma {:induction false} Climb(tree: seq<int>, root: int, l: seq<int>, path: seq<int>, t: nat)
    requires Levels(tree, root, l) && Chain(tree, path) && t < |path|
    requires 0 <= path[0] < |tree| && tree[path[0]] >= 0 && root !in path[..t]
    ensures 0 <= path[t] < |tree| && tree[path[t]] >= 0 && l[path[t]] == l[path[0]] - t
  {
    if t > 0 {
      assert path[..t - 1] == path[..t][..t - 1] && path[t - 1] in path[..t];
      Climb(tree, root, l, path, t - 1);
      assert LevelStep(tree, l, path[t - 1]);
    }
  }

  // A chain that avoids the root is shorter than the vertex count and stays inside the tree.
  lemma ClimbEnds(tree: seq<int>, root: int, l: seq<int>, path: seq<int>)
    requires Levels(tree, root, l) && Chain(tree, path)
    requires 0 <= path[0] < |tree| && tree[path[0]] >= 0 && root !in path[..|path| - 1]
    ensures |path| <= |tree| && path[|path| - 1] >= 0
  {
    forall t | 0 <= t < |path| ensures 0 <= path[t] < |tree| && l[path[t]] == l[path[0]] - t {
      assert forall s :: 0 <= s < t ==> path[s] == path[..|path| - 1][s];
      Climb(tree, root, l, path, t);
    }
    assert forall i, j :: 0 <= i < j < |path| ==> l[path[i]] != l[path[j]];
    NoDuplicates(path, |tree|, {});
  }

  lemma {:induction false} NoDuplicates(path: seq<int>, n: nat, s: set<int>)
    requires forall i :: 0 <= i < |path| ==> 0 <= path[i] < n && path[i] !in s
    requires forall i, j :: 0 <= i < j < |path| ==> path[i] != path[j]
    requires forall v :: v in s ==> 0 <= v < n
    ensures |path| + |s| <= n
  {
    if path == [] {
      Initial(n, s);
    } else {
      NoDuplicates(path[1..], n, s + {path[0]});
    }
  }

  lemma {:induction false} Initial(n: nat, s: set<int>)
    requires forall v :: v in s ==> 0 <= v < n
    ensures |s| <= n
  {
    if n == 0 {
      assert forall v :: v !in s;
    } else {
      Initial(n - 1, s - {n - 1});
    }
  }

  // ---------- compute_levels ----------

  // What holds of the level array while it is being filled: levelled vertices form a tree above the root.
  ghost predicate Partial(tree: seq<int>, root: int, level: seq<int>) {
    && InRange(tree) && |level| == |tree| && 0 <= root < |tree| && level[root] == 0
    && (forall v :: 0 <= v < |tree| && v != root && level[v] >= 0 ==> LevelStep(tree, level, v))
  }

  /** Fills level; reports no error exactly when a consistent levelling of the tree exists. */
  method ComputeLevels(level: array<int>, tree: seq<int>, root: int) returns (err: int)
    requires level.Length == |tree| && 0 <= root < |tree| && tree[root] == root && InRange(tree)
    modifies level
    ensures err == 0 ==> Levels(tree, root, level[..])
    ensures err != 0 ==> err < 0 && forall l :: !Levels(tree, root, l)
  {
    var nv := |tree|;
    for k := 0 to nv
      invariant forall v :: 0 <= v < k ==> level[v] == if v == root then 0 else -1
    {
      level[k] := if k == root then 0 else -1;
    }
    err := 0;
    for k := 0 to nv
      invariant Partial(tree, root, level[..])
      invariant err == 0 ==> forall v :: 0 <= v < k && tree[v] >= 0 ==> level[v] >= 0
      invariant err != 0 ==> err < 0 && forall l :: !Levels(tree, root, l)
    {
      if level[k] < 0 {
        if err == 0 && tree[k] >= 0 && k != root {
          err := LevelOne(level, tree, root, k);
        }
      }
    }
  }

  // The loop body of compute_levels for one vertex that has no level yet.
  method LevelOne(level: array<int>, tree: seq<int>, root: int, k: int) returns (err: int)
    requires Partial(tree, root, level[..]) && tree[root] == root && 0 <= k < |tree| && level[k] < 0 && tree[k] >= 0
    modifies level
    ensures Partial(tree, root, level[..])
    ensures forall v :: 0 <= v < |tree| && old(level[v]) >= 0 ==> level[v] == old(level[v])
    ensures err == 0 ==> level[k] >= 0
    ensures err != 0 ==> err < 0 && forall l :: !Levels(tree, root, l)
  {
    var nv, parent, nhop := |tree|, k, 0;
    ghost var path := [k];
    while parent >= 0 && level[parent] < 0 && nhop < nv
      invariant 0 <= nhop <= nv && |path| == nhop + 1 && parent == path[nhop] < nv
      invariant Chain(tree, path) && path[0] == k
      invariant forall t :: 0 <= t < nhop ==> level[path[t]] < 0
      decreases nv - nhop
    {
      parent := tree[parent];
      nhop := nhop + 1;
      path := path + [parent];
    }
    err := 0;
    if nhop >= nv { err := -1; }
    if parent < 0 { err := -2; }
    if err == 0 {
      AssignLevels(level, tree, root, path, k, parent, nhop);
    } else {
      forall l ensures !Levels(tree, root, l) {
        if Levels(tree, root, l) { ClimbEnds(tree, root, l, path); }
      }
    }
  }

  // The vertices below the first levelled one are pairwise different.
  lemma {:induction false} ChainDistinct(tree: seq<int>, level: seq<int>, path: seq<int>, a: nat, b: nat)
    requires Chain(tree, path) && |level| == |tree| && a < b < |path| && 0 <= path[|path| - 1] < |tree|
    requires (forall t :: 0 <= t < |path| - 1 ==> level[path[t]] < 0) && level[path[|path| - 1]] >= 0
    ensures path[a] != path[b]
    decreases |path| - b
  {
    if b < |path| - 1 { ChainDistinct(tree, level, path, a + 1, b + 1); }
  }

  method AssignLevels(level: array<int>, tree: seq<int>, root: int, ghost path: seq<int>, k: int, top: int, hops: nat)
    requires Partial(tree, root, level[..]) && Chain(tree, path) && |path| == hops + 1 && hops > 0
    requires path[0] == k && path[hops] == top && 0 <= top < |tree| && level[top] >= 0
    requires forall t :: 0 <= t < hops ==> level[path[t]] < 0
    modifies level
    ensures Partial(tree, root, level[..]) && level[k] >= 0
    ensures forall v :: 0 <= v < |tree| && old(level[v]) >= 0 ==> level[v] == old(level[v])
  {
    ghost var l0 := level[..];
    var nhop, parent := hops + level[top], k;
    ghost var t := 0;
    while level[parent] < 0
      invariant t <= hops && parent == path[t] && nhop == hops - t + l0[top]
      invariant t > 0 ==> level[k] >= 0
      invariant forall v :: 0 <= v < |tree| && l0[v] >= 0 ==> level[v] == l0[v]
      invariant forall s :: t <= s < hops ==> level[path[s]] < 0
      invariant forall v :: 0 <= v < |tree| && v != root && level[v] >= 0 ==>
        LevelStep(tree, level[..], v) || (t > 0 && tree[v] == parent && level[v] == nhop + 1)
      decreases hops - t
    {
      assert t < hops;
      assert nhop > 0;
      forall s | t < s < hops ensures path[s] != parent { ChainDistinct(tree, l0, path, t, s); }
      ghost var l1 := level[..];
      level[parent] := nhop;
      assert level[..] == l1[parent := nhop];
      nhop := nhop - 1;
      parent := tree[parent];
      t := t + 1;
    }
    assert t == hops;
    assert nhop == level[parent];
  }

  // ---------- verify_bfs_tree ----------

  // What one edge must satisfy once levels are known.
  ghost predicate EdgeOK(tree: seq<int>, level: seq<int>, e: Edge)
    requires |level| == |tree|
  {
    e.v0 >= 0 && e.v1 >= 0 ==>
      && (e.v0 < |tree| <==> e.v1 < |tree|)
      && (e.v0 < |tree| ==>
          && (tree[e.v0] >= 0 <==> tree[e.v1] >= 0)
          && (tree[e.v0] >= 0 ==> -1 <= level[e.v0] - level[e.v1] <= 1))
  }

  ghost predicate TreeEdge(edges: seq<Edge>, tree: seq<int>, v: int)
    requires 0 <= v < |tree|
  {
    tree[v] != v && (Edge(v, tree[v]) in edges || Edge(tree[v], v) in edges)
  }

  // The validation rules: consistent levels, every edge fine, every tree edge among the edges.
  ghost predicate Rules(tree: seq<int>, root: int, level: seq<int>, edges: seq<Edge>) {
    && Levels(tree, root, level)
    && (forall e :: e in edges ==> EdgeOK(tree, level, e))
    && (forall v :: 0 <= v < |tree| && v != root && tree[v] >= 0 ==> TreeEdge(edges, tree, v))
  }

  method CheckRules(tree: seq<int>, maxVtx: int, root: int, edges: seq<Edge>) returns (r: int)
    requires maxVtx + 1 == |tree| && 0 <= root && InRange(tree)
    ensures r >= 0 <==> exists level :: root <= maxVtx && tree[root] == root && Rules(tree, root, level, edges)
    ensures r >= 0 ==> r == CountInside(tree, edges)
  {
    if root > maxVtx || tree[root] != root {
      return -999;
    }
    var nv := maxVtx + 1;
    var seen := new bool[nv];
    var level := new int[nv];
    var err := ComputeLevels(level, tree, root);
    if err != 0 {
      return err;
    }
    ghost var l := level[..];
    var traversed;
    err, traversed := CheckEdges(tree, level, seen, edges);
    if err == 0 {
      err := CheckTree(tree, root, seen);
    }
    if err != 0 {
      forall l' ensures !Rules(tree, root, l', edges) {
        if Levels(tree, root, l') { LevelsUnique(tree, root, l, l'); }
      }
      return err;
    }
    assert Rules(tree, root, l, edges);
    return traversed;
  }

  lemma {:induction false} LevelsUniqueAt(tree: seq<int>, root: int, l: seq<int>, m: seq<int>, v: int)
    requires Levels(tree, root, l) && Levels(tree, root, m) && 0 <= v < |tree| && tree[v] >= 0
    ensures l[v] == m[v]
    decreases l[v]
  {
    if v != root {
      assert LevelStep(tree, l, v) && LevelStep(tree, m, v);
      LevelsUniqueAt(tree, root, l, m, tree[v]);
    }
  }

  lemma LevelsUnique(tree: seq<int>, root: int, l: seq<int>, m: seq<int>)
    requires Levels(tree, root, l) && Levels(tree, root, m)
    ensures forall v :: 0 <= v < |tree| && tree[v] >= 0 ==> l[v] == m[v]
  {
    forall v | 0 <= v < |tree| && tree[v] >= 0 ensures l[v] == m[v] { LevelsUniqueAt(tree, root, l, m, v); }
  }

  ghost predicate Seen(tree: seq<int>, edges: seq<Edge>, v: int)
    requires 0 <= v < |tree|
  {
    tree[v] != v && tree[v] >= 0 && (Edge(v, tree[v]) in edges || Edge(tree[v], v) in edges)
  }

  // The loop over the edge list.
  method CheckEdges(tree: seq<int>, level: array<int>, seen: array<bool>, edges: seq<Edge>)
      returns (err: int, traversed: nat)
    requires level.Length == seen.Length == |tree| && InRange(tree)
    modifies seen
    ensures err <= 0
    ensures err == 0 <==> forall e :: e in edges ==> EdgeOK(tree, level[..], e)
    ensures err == 0 ==> traversed == CountInside(tree, edges)
    ensures err == 0 ==> forall v :: 0 <= v < |tree| ==> (seen[v] <==> Seen(tree, edges, v))
  {
    var nv := |tree|;
    for k := 0 to nv
      invariant forall v :: 0 <= v < k ==> !seen[v]
    {
      seen[k] := false;
    }
    err, traversed := 0, 0;
    for k := 0 to |edges|
      invariant err <= 0
      invariant err == 0 <==> forall e :: e in edges[..k] ==> EdgeOK(tree, level[..], e)
      invariant err == 0 ==> traversed == CountInside(tree, edges[..k])
      invariant err == 0 ==> forall v :: 0 <= v < nv ==> (seen[v] <==> Seen(tree, edges[..k], v))
    {
      var i, j := edges[k].v0, edges[k].v1;
      assert edges[..k + 1] == edges[..k] + [edges[k]];
      assert forall e :: e in edges[..k + 1] <==> e in edges[..k] || e == edges[k];
      ghost var fine := err == 0 && EdgeOK(tree, level[..], edges[k]);
      var terr := err;
      if !(i < 0 || j < 0) {
        if i >= nv && j < nv { terr := -10; }
        if j >= nv && i < nv { terr := -11; }
        if terr != 0 { err := terr; }
        if !(terr != 0 || i >= nv) {
          if tree[i] >= 0 && tree[j] < 0 { terr := -12; }
          if tree[j] >= 0 && tree[i] < 0 { terr := -13; }
          if terr != 0 { err := terr; }
          if !(terr != 0 || tree[i] < 0) {
            traversed := traversed + 1;
            if i != j {
              if tree[i] == j { seen[i] := true; }
              if tree[j] == i { seen[j] := true; }
            }
            var diff := level[i] - level[j];
            if diff > 1 || diff < -1 { terr := -14; }
            if terr != 0 { err := terr; }
          }
        }
      }
      assert err == 0 <==> fine;
    }
    assert edges[..|edges|] == edges;
  }

  // The last loop: every tree edge was seen and there is only one root.
  method CheckTree(tree: seq<int>, root: int, seen: array<bool>) returns (err: int)
    requires seen.Length == |tree|
    ensures err <= 0
    ensures err == 0 <==> forall v :: 0 <= v < |tree| && v != root ==> (tree[v] >= 0 ==> seen[v]) && tree[v] != v
  {
    err := 0;
    for k := 0 to |tree|
      invariant err <= 0
      invariant err == 0 <==> forall v :: 0 <= v < k && v != root ==> (tree[v] >= 0 ==> seen[v]) && tree[v] != v
    {
      var terr := err;
      if terr == 0 && k != root {
        if tree[k] >= 0 && !seen[k] { terr := -15; }
        if tree[k] == k { terr := -16; }
        if terr != 0 { err := terr; }
      }
    }
  }

  // ---------- the theorem about graphs ----------

  // The parent of v lies in the tree, one level higher and over an edge.
  ghost predicate ParentStep(tree: seq<int>, level: seq<int>, edges: seq<Edge>, v: int)
    requires 0 <= v < |tree| == |level|
  {
    && 0 <= tree[v] < |tree| && tree[tree[v]] >= 0 && 0 <= level[tree[v]] == level[v] - 1
    && Adjacent(edges, tree[v], v)
  }

  ghost predicate ParentSteps(tree: seq<int>, root: int, level: seq<int>, edges: seq<Edge>) {
    && |level| == |tree| && 0 <= root < |tree| && level[root] == 0
    && forall v {:trigger ParentStep(tree, level, edges, v)} ::
      0 <= v < |tree| && v != root && tree[v] >= 0 ==> ParentStep(tree, level, edges, v)
  }

  lemma RulesStep(tree: seq<int>, root: int, level: seq<int>, edges: seq<Edge>)
    requires Rules(tree, root, level, edges)
    ensures ParentSteps(tree, root, level, edges)
  {
    forall v | 0 <= v < |tree| && v != root && tree[v] >= 0 ensures ParentStep(tree, level, edges, v) {
      assert LevelStep(tree, level, v) && TreeEdge(edges, tree, v);
    }
  }

  lemma {:induction false} TreeWalk(tree: seq<int>, root: int, level: seq<int>, edges: seq<Edge>, v: int, d: nat)
    requires ParentSteps(tree, root, level, edges) && 0 <= v < |tree| && tree[v] >= 0 && d == level[v]
    ensures Walk(edges, root, v, d)
    decreases d
  {
    if v == root {
      WalkStart(edges, root, d);
    } else {
      assert ParentStep(tree, level, edges, v);
      TreeWalk(tree, root, level, edges, tree[v], d - 1);
      WalkOn(edges, root, tree[v], v, d);
    }
  }

  lemma WalkStart(edges: seq<Edge>, root: int, d: nat)
    requires d == 0
    ensures Walk(edges, root, root, d)
  {
  }

  lemma WalkOn(edges: seq<Edge>, root: int, u: int, v: int, d: nat)
    requires d > 0 && Walk(edges, root, u, d - 1) && Adjacent(edges, u, v)
    ensures Walk(edges, root, v, d)
  {
  }

  lemma {:induction false} WalkBound(tree: seq<int>, root: int, level: seq<int>, edges: seq<Edge>, v: int, d: nat)
    requires Rules(tree, root, level, edges) && tree[root] == root && Walk(edges, root, v, d)
    ensures 0 <= v < |tree| && tree[v] >= 0 && level[v] <= d
    decreases d
  {
    if d > 0 {
      var u :| Adjacent(edges, u, v) && Walk(edges, root, u, d - 1);
      WalkBound(tree, root, level, edges, u, d - 1);
      var e := if Edge(u, v) in edges then Edge(u, v) else Edge(v, u);
      assert EdgeOK(tree, level, e);
    }
  }

  /** Soundness: what passes the rules is a breadth-first-search tree, and levels are distances. */
  lemma RulesSound(tree: seq<int>, root: int, level: seq<int>, edges: seq<Edge>)
    requires Rules(tree, root, level, edges) && tree[root] == root
    ensures BfsTree(tree, root, edges) && NoStraddle(|tree|, edges)
    ensures forall v :: 0 <= v < |tree| && tree[v] >= 0 ==> Distance(edges, root, v, level[v])
  {
    forall v | 0 <= v < |tree| && tree[v] >= 0 ensures Distance(edges, root, v, level[v]) {
      RulesStep(tree, root, level, edges);
      TreeWalk(tree, root, level, edges, v, level[v]);
      forall c: nat | c < level[v] ensures !Walk(edges, root, v, c) {
        if Walk(edges, root, v, c) { WalkBound(tree, root, level, edges, v, c); }
      }
    }
    forall v | Connected(edges, root, v) ensures 0 <= v < |tree| && tree[v] >= 0 {
      var d: nat :| Walk(edges, root, v, d);
      WalkBound(tree, root, level, edges, v, d);
    }
    forall v | 0 <= v < |tree| && v != root && tree[v] >= 0
      ensures Adjacent(edges, tree[v], v) && OneFurther(edges, root, tree[v], v)
    {
      assert LevelStep(tree, level, v) && TreeEdge(edges, tree, v);
      assert Distance(edges, root, tree[v], level[tree[v]]) && Distance(edges, root, v, level[tree[v]] + 1);
    }
    forall e | e in edges && e.v0 >= 0 && e.v1 >= 0 ensures e.v0 < |tree| <==> e.v1 < |tree| {
      assert EdgeOK(tree, level, e);
    }
  }

  lemma {:induction false} LeastWalk(edges: seq<Edge>, root: int, v: int, d: nat) returns (m: nat)
    requires Walk(edges, root, v, d)
    ensures Distance(edges, root, v, m)
  {
    if c: nat :| c < d && Walk(edges, root, v, c) {
      m := LeastWalk(edges, root, v, c);
    } else {
      m := d;
    }
  }

  lemma DistanceUnique(edges: seq<Edge>, root: int, v: int, c: nat, d: nat)
    requires Distance(edges, root, v, c) && Distance(edges, root, v, d)
    ensures c == d
  {
  }

  ghost predicate IsLevel(tree: seq<int>, root: int, edges: seq<Edge>, v: int, d: int)
    requires 0 <= v < |tree|
  {
    if tree[v] >= 0 then d >= 0 && Distance(edges, root, v, d) else d == -1
  }

  lemma {:induction false} DistanceLevels(tree: seq<int>, root: int, edges: seq<Edge>, n: nat) returns (level: seq<int>)
    requires BfsTree(tree, root, edges) && n <= |tree|
    ensures |level| == n && forall v :: 0 <= v < n ==> IsLevel(tree, root, edges, v, level[v])
  {
    if n == 0 {
      level := [];
    } else {
      var l := DistanceLevels(tree, root, edges, n - 1);
      if tree[n - 1] >= 0 {
        var d: nat :| Walk(edges, root, n - 1, d);
        var m := LeastWalk(edges, root, n - 1, d);
        level := l + [m];
      } else {
        level := l + [-1];
      }
    }
  }

  // Neighbours are at most one step apart.
  lemma NeighbourLevel(edges: seq<Edge>, root: int, u: int, v: int, c: nat, d: nat)
    requires Adjacent(edges, u, v) && Distance(edges, root, u, c) && Distance(edges, root, v, d)
    ensures d <= c + 1
  {
    assert Walk(edges, root, v, c + 1);
  }

  /** Completeness: every breadth-first-search tree passes, unless an edge leaves the parent array. */
  lemma RulesComplete(tree: seq<int>, root: int, edges: seq<Edge>) returns (level: seq<int>)
    requires InRange(tree) && BfsTree(tree, root, edges) && NoStraddle(|tree|, edges)
    ensures Rules(tree, root, level, edges)
  {
    level := DistanceLevels(tree, root, edges, |tree|);
    assert Walk(edges, root, root, 0);
    assert IsLevel(tree, root, edges, root, level[root]);
    forall v | 0 <= v < |tree| && v != root && tree[v] >= 0 ensures LevelStep(tree, level, v) &&
        TreeEdge(edges, tree, v) {
      var d: nat :| Distance(edges, root, tree[v], d) && Distance(edges, root, v, d + 1);
      assert Connected(edges, root, tree[v]);
      assert IsLevel(tree, root, edges, v, level[v]) && IsLevel(tree, root, edges, tree[v], level[tree[v]]);
      DistanceUnique(edges, root, tree[v], d, level[tree[v]]);
      DistanceUnique(edges, root, v, d + 1, level[v]);
    }
    forall v | 0 <= v < |tree| ensures tree[v] >= 0 <==> level[v] >= 0 {
      assert IsLevel(tree, root, edges, v, level[v]);
    }
    forall e | e in edges ensures EdgeOK(tree, level, e) {
      if e.v0 >= 0 && e.v1 >= 0 && e.v0 < |tree| {
        var u, v := e.v0, e.v1;
        assert Adjacent(edges, u, v) && Adjacent(edges, v, u);
        assert IsLevel(tree, root, edges, u, level[u]) && IsLevel(tree, root, edges, v, level[v]);
        if tree[u] >= 0 {
          assert Walk(edges, root, v, level[u] + 1);
        }
        if tree[v] >= 0 {
          assert Walk(edges, root, u, level[v] + 1);
        }
        if tree[u] >= 0 && tree[v] >= 0 {
          NeighbourLevel(edges, root, u, v, level[u], level[v]);
          NeighbourLevel(edges, root, v, u, level[v], level[u]);
        }
      }
    }
  }

  /** The validator accepts exactly the breadth-first-search trees of the root's component (when no edge
      leaves the parent array), and returns the number of input edges inside the component. */
  method VerifyBfsTree(tree: seq<int>, maxVtx: int, root: int, edges: seq<Edge>) returns (r: int)
    requires maxVtx + 1 == |tree| && 0 <= root && InRange(tree)
    ensures r >= 0 <==> BfsTree(tree, root, edges) && NoStraddle(|tree|, edges)
    ensures r >= 0 ==> r == CountInside(tree, edges)
  {
    r := CheckRules(tree, maxVtx, root, edges);
    if r >= 0 {
      ghost var level :| root <= maxVtx && tree[root] == root && Rules(tree, root, level, edges);
      RulesSound(tree, root, level, edges);
    } else if BfsTree(tree, root, edges) && NoStraddle(|tree|, edges) {
      ghost var level := RulesComplete(tree, root, edges);
    }
  }
}
