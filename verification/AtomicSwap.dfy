/** The lock-free pointer cells of sources/canneal/AtomicPtr.h, for any number of threads that swap the
    contents of cells. Each atomic load, compare-and-set and store is one step. Cells are numbered in
    address order; a cell that is checked out holds no value (ATOMIC_NULL). */
module AtomicSwap {

  import opened Common

  type Loc = nat

  /** Where a thread is inside Swap or TrySwap. `first` is the lower of its two cells; `swapped` is what the call
      returns, or has returned last. */
  datatype Pc =
    | Idle(swapped: bool)
    | Load1(first: nat, last: nat, try: bool)                         // Get of the lower cell
    | Cas1(first: nat, last: nat, try: bool, seen: Loc)               // Checkout of the lower cell
    | Load2(first: nat, last: nat, try: bool, val: Loc)               // Get of the higher cell
    | Cas2(first: nat, last: nat, try: bool, val: Loc, seen: Loc)     // PrivateSet of the higher cell
    | Put(first: nat, val: Loc, swapped: bool)                        // Checkin of the lower cell

  datatype State = State(cells: seq<Option<Loc>>, threads: seq<Pc>)

  predicate Holding(pc: Pc) {
    pc.Load2? || pc.Cas2? || pc.Put?
  }

  // ---------- the steps ----------

  function Call(i: nat, j: nat, try: bool): Pc {
    if i < j then Load1(i, j, try) else Load1(j, i, try)
  }

  predicate InRange(s: State, pc: Pc) {
    && (!pc.Idle? ==> pc.first < |s.cells|)
    && (pc.Load1? || pc.Cas1? || pc.Load2? || pc.Cas2? ==> pc.first <= pc.last < |s.cells|)
  }

  // One step of thread t inside its call
  function Step(s: State, t: nat): State
    requires t < |s.threads| && InRange(s, s.threads[t])
  {
    var pc := s.threads[t];
    match pc
    case Idle(_) => s
    case Load1(f, l, try) =>
      if s.cells[f].Some? then Goto(s, t, Cas1(f, l, try, s.cells[f].value))
      else if try then Goto(s, t, Idle(false)) else s
    case Cas1(f, l, try, seen) =>
      if s.cells[f] == Some(seen) then State(s.cells[f := None], s.threads[t := Load2(f, l, try, seen)])
      else if try then Goto(s, t, Idle(false)) else Goto(s, t, Load1(f, l, try))
    case Load2(f, l, try, val) =>
      if s.cells[l].Some? then Goto(s, t, Cas2(f, l, try, val, s.cells[l].value))
      else if try then Goto(s, t, Put(f, val, false)) else s
    case Cas2(f, l, try, val, seen) =>
      if s.cells[l] == Some(seen) then State(s.cells[l := Some(val)], s.threads[t := Put(f, seen, true)])
      else if try then Goto(s, t, Put(f, val, false)) else Goto(s, t, Load2(f, l, try, val))
    case Put(f, val, swapped) => State(s.cells[f := Some(val)], s.threads[t := Idle(swapped)])
  }

  function Goto(s: State, t: nat, pc: Pc): State
    requires t < |s.threads|
  {
    s.(threads := s.threads[t := pc])
  }

  // The step at which a swap takes effect
  predicate Commits(s: State, t: nat)
    requires t < |s.threads| && InRange(s, s.threads[t])
  {
    s.threads[t].Cas2? && s.cells[s.threads[t].last] == Some(s.threads[t].seen)
  }

  // ---------- the invariant ----------

  ghost predicate ThreadOK(s: State, a: seq<Loc>, t: nat)
    requires |a| == |s.cells| && t < |s.threads|
  {
    var pc := s.threads[t];
    InRange(s, pc) && (Holding(pc) ==> s.cells[pc.first].None? && a[pc.first] == pc.val)
  }

  // a is what the cells hold once every swap that took effect is written back: a value of its own for each
  // cell, held by the thread that has checked the cell out if there is one.
  ghost predicate Inv(s: State, a: seq<Loc>) {
    && |a| == |s.cells|
    && (forall t: nat {:trigger ThreadOK(s, a, t)} :: t < |s.threads| ==> ThreadOK(s, a, t))
    && (forall c :: 0 <= c < |s.cells| && s.cells[c].Some? ==> s.cells[c].value == a[c])
    && (forall t: nat, u: nat ::
          t < |s.threads| && u < |s.threads| && t != u && Holding(s.threads[t]) && Holding(s.threads[u]) ==>
          s.threads[t].first != s.threads[u].first)
    && (forall c: nat {:trigger Owned(s, c)} :: c < |s.cells| && s.cells[c].None? ==> Owned(s, c))
  }

  ghost predicate Owned(s: State, c: nat) {
    exists t :: 0 <= t < |s.threads| && Holding(s.threads[t]) && s.threads[t].first == c
  }

  function Transposed(a: seq<Loc>, i: nat, j: nat): seq<Loc>
    requires i < |a| && j < |a|
  {
    a[i := a[j]][j := a[i]]
  }

  // The cells' abstract contents change only at the step that commits, by one transposition.
  ghost function Effect(s: State, a: seq<Loc>, t: nat): seq<Loc>
    requires Inv(s, a) && t < |s.threads|
  {
    assert ThreadOK(s, a, t);
    if Commits(s, t) then Transposed(a, s.threads[t].first, s.threads[t].last) else a
  }

  lemma OwnedStill(s: State, c: nat, t: nat, s': State)
    requires Owned(s, c) && t < |s.threads| && |s'.threads| == |s.threads| && forall u ::
        0 <= u < |s.threads| && u != t ==> s'.threads[u] == s.threads[u]
    requires Holding(s.threads[t]) && s.threads[t].first == c ==> Holding(s'.threads[t]) && s'.threads[t].first == c
    ensures Owned(s', c)
  {
    var u :| 0 <= u < |s.threads| && Holding(s.threads[u]) && s.threads[u].first == c;
    assert Holding(s'.threads[u]) && s'.threads[u].first == c;
  }

  // Moving within the call without touching a cell
  lemma GotoOK(s: State, a: seq<Loc>, t: nat, pc: Pc)
    requires Inv(s, a) && t < |s.threads| && InRange(s, pc) && Holding(pc) == Holding(s.threads[t])
    requires Holding(pc) ==> pc.first == s.threads[t].first && pc.val == s.threads[t].val
    ensures Inv(Goto(s, t, pc), a)
  {
    var s' := Goto(s, t, pc);
    forall u: nat | u < |s'.threads| ensures ThreadOK(s', a, u) {
      assert ThreadOK(s, a, u);
    }
    forall c: nat | c < |s'.cells| && s'.cells[c].None? ensures Owned(s', c) {
      OwnedStill(s, c, t, s');
    }
  }

  lemma CheckoutOK(s: State, a: seq<Loc>, t: nat)
    requires Inv(s, a) && t < |s.threads| && s.threads[t].Cas1? && InRange(s, s.threads[t])
    requires s.cells[s.threads[t].first] == Some(s.threads[t].seen)
    ensures Inv(Step(s, t), a)
  {
    var s' := Step(s, t);
    forall u: nat | u < |s'.threads| ensures ThreadOK(s', a, u) {
      assert ThreadOK(s, a, u);
    }
    forall u: nat | u < |s.threads| && Holding(s.threads[u]) ensures s.threads[u].first != s.threads[t].first {
      assert ThreadOK(s, a, u);
    }
    forall c: nat | c < |s'.cells| && s'.cells[c].None? ensures Owned(s', c) {
      if c == s.threads[t].first {
        assert Holding(s'.threads[t]);
      } else {
        OwnedStill(s, c, t, s');
      }
    }
  }

  /** PrivateSet on the higher cell swaps the contents of the two cells. */
  lemma CommitOK(s: State, a: seq<Loc>, t: nat)
    requires Inv(s, a) && t < |s.threads| && InRange(s, s.threads[t]) && Commits(s, t)
    ensures Inv(Step(s, t), Transposed(a, s.threads[t].first, s.threads[t].last))
  {
    var s', a' := Step(s, t), Transposed(a, s.threads[t].first, s.threads[t].last);
    assert ThreadOK(s, a, t);
    forall u: nat | u < |s'.threads| ensures ThreadOK(s', a', u) {
      assert ThreadOK(s, a, u);
    }
    forall c: nat | c < |s'.cells| && s'.cells[c].None? ensures Owned(s', c) {
      OwnedStill(s, c, t, s');
    }
  }

  lemma CheckinOK(s: State, a: seq<Loc>, t: nat)
    requires Inv(s, a) && t < |s.threads| && InRange(s, s.threads[t]) && s.threads[t].Put?
    ensures Inv(Step(s, t), a)
  {
    var s' := Step(s, t);
    assert ThreadOK(s, a, t);
    forall u: nat | u < |s'.threads| ensures ThreadOK(s', a, u) {
      assert ThreadOK(s, a, u);
    }
    forall c: nat | c < |s'.cells| && s'.cells[c].None? ensures Owned(s', c) {
      OwnedStill(s, c, t, s');
    }
  }

  /** Every step keeps the invariant, and a swap takes effect at exactly one step, as a transposition. */
  lemma StepOK(s: State, a: seq<Loc>, t: nat)
    requires Inv(s, a) && t < |s.threads|
    ensures InRange(s, s.threads[t]) && Inv(Step(s, t), Effect(s, a, t))
  {
    assert ThreadOK(s, a, t);
    var pc := s.threads[t];
    match pc
    case Idle(_) =>
    case Load1(f, l, try) =>
      if s.cells[f].Some? {
        GotoOK(s, a, t, Cas1(f, l, try, s.cells[f].value));
      } else if try {
        GotoOK(s, a, t, Idle(false));
      }
    case Cas1(f, l, try, seen) =>
      if s.cells[f] == Some(seen) {
        CheckoutOK(s, a, t);
      } else {
        GotoOK(s, a, t, if try then Idle(false) else Load1(f, l, try));
      }
    case Load2(f, l, try, val) =>
      if s.cells[l].Some? {
        GotoOK(s, a, t, Cas2(f, l, try, val, s.cells[l].value));
      } else if try {
        GotoOK(s, a, t, Put(f, val, false));
      }
    case Cas2(f, l, try, val, seen) =>
      if s.cells[l] == Some(seen) {
        CommitOK(s, a, t);
      } else {
        GotoOK(s, a, t, if try then Put(f, val, false) else Load2(f, l, try, val));
      }
    case Put(_, _, _) => CheckinOK(s, a, t);
  }

  // ---------- runs ----------

  datatype Action = Begin(thread: nat, i: nat, j: nat, try: bool) | Go(thread: nat)

  ghost predicate Enabled(s: State, x: Action) {
    match x
    case Begin(t, i, j, _) => t < |s.threads| && s.threads[t].Idle? && i < |s.cells| && j < |s.cells|
    case Go(t) => t < |s.threads|
  }

  ghost function Next(s: State, a: seq<Loc>, x: Action): (r: (State, seq<Loc>))
    requires Inv(s, a) && Enabled(s, x)
    ensures Inv(r.0, r.1) && |r.0.threads| == |s.threads| && |r.0.cells| == |s.cells|
  {
    match x
    case Begin(t, i, j, try) =>
      GotoOK(s, a, t, Call(i, j, try));
      (Goto(s, t, Call(i, j, try)), a)
    case Go(t) =>
      StepOK(s, a, t);
      (Step(s, t), Effect(s, a, t))
  }

  // The state after a run, and the contents the swaps that took effect lead to, one after the other
  ghost function Exec(s: State, a: seq<Loc>, run: seq<Action>): (r: Option<(State, seq<Loc>)>)
    requires Inv(s, a)
    ensures r.Some? ==> Inv(r.value.0, r.value.1)
    decreases |run|
  {
    if run == [] then Some((s, a))
    else if !Enabled(s, run[0]) then None
    else
      var n := Next(s, a, run[0]);
      Exec(n.0, n.1, run[1..])
  }

  // ---------- linearisation ----------

  // Before the step at which a call takes effect
  predicate Before(pc: Pc) {
    pc.Load1? || pc.Cas1? || pc.Load2? || pc.Cas2?
  }

  // How often thread t commits during the run
  ghost function CommitsOf(s: State, a: seq<Loc>, run: seq<Action>, t: nat): nat
    requires Inv(s, a) && Exec(s, a, run).Some?
    decreases |run|
  {
    if run == [] then 0
    else
      var n := Next(s, a, run[0]);
      CommitsOf(n.0, n.1, run[1..], t) + if CommitsNow(s, a, run[0], t) then 1 else 0
  }

  ghost predicate CommitsNow(s: State, a: seq<Loc>, x: Action, t: nat)
    requires Inv(s, a)
  {
    x == Go(t) && t < |s.threads| && (assert ThreadOK(s, a, t); Commits(s, t))
  }

  // The call has taken effect, and returns or has returned true.
  predicate Done(pc: Pc) {
    !Before(pc) && pc.swapped
  }

  // From pc to e within one call: the cells are the same, a Swap does not end without having taken effect, and
  // what the call returns does not change any more.
  predicate Continues(pc: Pc, e: Pc) {
    && (Before(pc) && !Before(e) && !pc.try ==> Done(e))
    && (!Before(pc) ==> !Before(e) && e.swapped == pc.swapped)
    && (Before(e) ==> Before(pc) && e.first == pc.first && e.last == pc.last && e.try == pc.try)
  }

  lemma CommitStep(s: State, a: seq<Loc>, x: Action, t: nat)
    requires Inv(s, a) && Enabled(s, x) && t < |s.threads| && (x.Begin? ==> x.thread != t)
    ensures Continues(s.threads[t], Next(s, a, x).0.threads[t])
    ensures CommitsNow(s, a, x, t) <==> !Done(s.threads[t]) && Done(Next(s, a, x).0.threads[t])
  {
    assert ThreadOK(s, a, t);
  }

  /** A call takes effect at most once, between its call and its return, and as the transposition of its own two
      cells. It returns true if and only if it took effect, and a Swap always does. */
  lemma {:induction false} CommitsOnce(s: State, a: seq<Loc>, run: seq<Action>, t: nat)
    requires Inv(s, a) && Exec(s, a, run).Some? && t < |s.threads|
    requires forall k :: 0 <= k < |run| && run[k].Begin? ==> run[k].thread != t
    ensures var pc, e := s.threads[t], Exec(s, a, run).value.0;
      && t < |e.threads| && Continues(pc, e.threads[t])
      && CommitsOf(s, a, run, t) == if Done(e.threads[t]) && !Done(pc) then 1 else 0
    decreases |run|
  {
    if run != [] {
      var n := Next(s, a, run[0]);
      CommitStep(s, a, run[0], t);
      CommitsOnce(n.0, n.1, run[1..], t);
    }
  }

  // ---------- when TrySwap fails ----------

  // The cell a thread is about to load or to compare
  function Target(pc: Pc): nat
    requires Before(pc)
  {
    if pc.Load1? || pc.Cas1? then pc.first else pc.last
  }

  // At its next step thread t finds the cell without a value, or with another one than it has loaded.
  ghost predicate Obstructed(s: State, t: nat, loaded: Option<Loc>) {
    && t < |s.threads| && Before(s.threads[t]) && Target(s.threads[t]) < |s.cells|
    && var pc, cell := s.threads[t], s.cells[Target(s.threads[t])];
    if pc.Load1? || pc.Load2? then cell.None? else cell != loaded
  }

  // What thread t has seen last, when it had seen `loaded` before
  ghost function Seen(s: State, t: nat, loaded: Option<Loc>): Option<Loc> {
    if t < |s.threads| && Before(s.threads[t]) && Target(s.threads[t]) < |s.cells| then s.cells[Target(s.threads[t])]
    else loaded
  }

  /** At one of its own steps of the run thread t is obstructed. */
  ghost predicate Hindered(s: State, a: seq<Loc>, run: seq<Action>, t: nat, loaded: Option<Loc>)
    requires Inv(s, a) && Exec(s, a, run).Some?
    decreases |run|
  {
    && run != []
    && var n := Next(s, a, run[0]);
    if run[0] == Go(t) then Obstructed(s, t, loaded) || Hindered(n.0, n.1, run[1..], t, Seen(s, t, loaded))
    else Hindered(n.0, n.1, run[1..], t, loaded)
  }

  lemma {:induction false} NotHindered(s: State, a: seq<Loc>, run: seq<Action>, t: nat, loaded: Option<Loc>)
    requires Inv(s, a) && Exec(s, a, run).Some? && t < |s.threads| && !Before(s.threads[t])
    requires forall k :: 0 <= k < |run| && run[k].Begin? ==> run[k].thread != t
    ensures !Hindered(s, a, run, t, loaded)
    decreases |run|
  {
    if run != [] {
      var n := Next(s, a, run[0]);
      CommitStep(s, a, run[0], t);
      NotHindered(n.0, n.1, run[1..], t, loaded);
    }
  }

  // One step of a TrySwap: it gives up exactly if it is obstructed.
  lemma TryStep(s: State, a: seq<Loc>, t: nat, loaded: Option<Loc>)
    requires Inv(s, a) && t < |s.threads| && Before(s.threads[t]) && s.threads[t].try
    requires s.threads[t].Cas1? || s.threads[t].Cas2? ==> loaded == Some(s.threads[t].seen)
    ensures InRange(s, s.threads[t])
    ensures var e := Step(s, t).threads[t];
      && (Obstructed(s, t, loaded) <==> !Before(e) && !e.swapped)
      && (Before(e) ==> e.try && (e.Cas1? || e.Cas2? ==> Seen(s, t, loaded) == Some(e.seen)))
  {
    assert ThreadOK(s, a, t);
  }

  /** In every run a TrySwap gives up if and only if it is obstructed at one of its own steps. */
  lemma {:induction false} FailsIff(s: State, a: seq<Loc>, run: seq<Action>, t: nat, loaded: Option<Loc>)
    requires Inv(s, a) && Exec(s, a, run).Some? && t < |s.threads| && Before(s.threads[t]) && s.threads[t].try
    requires s.threads[t].Cas1? || s.threads[t].Cas2? ==> loaded == Some(s.threads[t].seen)
    requires forall k :: 0 <= k < |run| && run[k].Begin? ==> run[k].thread != t
    ensures var e := Exec(s, a, run).value.0;
      && t < |e.threads|
      && (Hindered(s, a, run, t, loaded) <==> !Before(e.threads[t]) && !e.threads[t].swapped)
    decreases |run|
  {
    if run != [] {
      var n := Next(s, a, run[0]);
      var loaded' := if run[0] == Go(t) then Seen(s, t, loaded) else loaded;
      assert ThreadOK(s, a, t);
      if run[0] == Go(t) {
        TryStep(s, a, t, loaded);
      }
      if Before(n.0.threads[t]) {
        FailsIff(n.0, n.1, run[1..], t, loaded');
      } else {
        NotHindered(n.0, n.1, run[1..], t, loaded');
        CommitsOnce(n.0, n.1, run[1..], t);
      }
    }
  }

  /** TrySwap from its call to its return: true means that it took effect exactly once, false that it did not. It is
      false if and only if at one of its own steps a cell had no value, or another one than it had loaded. */
  lemma TrySwapReturns(s: State, a: seq<Loc>, t: nat, i: nat, j: nat, run: seq<Action>)
    requires Inv(s, a) && t < |s.threads| && Enabled(s, Begin(t, i, j, true))
    requires var n := Next(s, a, Begin(t, i, j, true)); Exec(n.0, n.1, run).Some?
    requires forall k :: 0 <= k < |run| && run[k].Begin? ==> run[k].thread != t
    ensures var n := Next(s, a, Begin(t, i, j, true));
      var e := Exec(n.0, n.1, run).value.0;
      && t < |e.threads|
      && (e.threads[t].Idle? ==> CommitsOf(n.0, n.1, run, t) == if e.threads[t].swapped then 1 else 0)
      && (e.threads[t].Idle? ==> (!e.threads[t].swapped <==> Hindered(n.0, n.1, run, t, None)))
  {
    var n := Next(s, a, Begin(t, i, j, true));
    CommitsOnce(n.0, n.1, run, t);
    FailsIff(n.0, n.1, run, t, None);
  }

  // ---------- conservation ----------

  function Is(c: Option<Loc>, x: Loc): nat {
    if c == Some(x) then 1 else 0
  }

  function Holds(pc: Pc, x: Loc): nat {
    if Holding(pc) && pc.val == x then 1 else 0
  }

  function InCells(cells: seq<Option<Loc>>, x: Loc): nat {
    if cells == [] then 0 else InCells(cells[..|cells| - 1], x) + Is(cells[|cells| - 1], x)
  }

  function InThreads(threads: seq<Pc>, x: Loc): nat {
    if threads == [] then 0 else InThreads(threads[..|threads| - 1], x) + Holds(threads[|threads| - 1], x)
  }

  // How many cells and threads have the location x
  function Copies(s: State, x: Loc): nat {
    InCells(s.cells, x) + InThreads(s.threads, x)
  }

  lemma {:induction false} CellUpdate(cells: seq<Option<Loc>>, c: nat, v: Option<Loc>, x: Loc)
    requires c < |cells|
    ensures InCells(cells[c := v], x) == InCells(cells, x) - Is(cells[c], x) + Is(v, x)
  {
    var k := |cells| - 1;
    if c == k {
      assert cells[c := v][..k] == cells[..k];
    } else {
      CellUpdate(cells[..k], c, v, x);
      assert cells[c := v][..k] == cells[..k][c := v];
    }
  }

  lemma {:induction false} ThreadUpdate(threads: seq<Pc>, t: nat, pc: Pc, x: Loc)
    requires t < |threads|
    ensures InThreads(threads[t := pc], x) == InThreads(threads, x) - Holds(threads[t], x) + Holds(pc, x)
  {
    var k := |threads| - 1;
    if t == k {
      assert threads[t := pc][..k] == threads[..k];
    } else {
      ThreadUpdate(threads[..k], t, pc, x);
      assert threads[t := pc][..k] == threads[..k][t := pc];
    }
  }

  /** No step loses or duplicates a location. */
  lemma StepConserves(s: State, a: seq<Loc>, t: nat, x: Loc)
    requires Inv(s, a) && t < |s.threads| && InRange(s, s.threads[t])
    ensures Copies(Step(s, t), x) == Copies(s, x)
  {
    var s', pc := Step(s, t), s.threads[t];
    ThreadUpdate(s.threads, t, s'.threads[t], x);
    assert s'.threads == s.threads[t := s'.threads[t]];
    assert ThreadOK(s, a, t);
    if pc.Cas1? || pc.Put? {
      CellUpdate(s.cells, pc.first, s'.cells[pc.first], x);
      assert s'.cells == s.cells[pc.first := s'.cells[pc.first]];
    } else if pc.Cas2? {
      CellUpdate(s.cells, pc.last, s'.cells[pc.last], x);
      assert s'.cells == s.cells[pc.last := s'.cells[pc.last]];
    }
  }

  /** Over a whole run locations are neither lost nor duplicated, and the abstract contents are a permutation
      of the first ones. */
  lemma {:induction false} RunConserves(s: State, a: seq<Loc>, run: seq<Action>, x: Loc)
    requires Inv(s, a) && Exec(s, a, run).Some?
    ensures Copies(Exec(s, a, run).value.0, x) == Copies(s, x)
    ensures multiset(Exec(s, a, run).value.1) == multiset(a)
    decreases |run|
  {
    if run != [] {
      NextConserves(s, a, run[0], x);
      var n := Next(s, a, run[0]);
      RunConserves(n.0, n.1, run[1..], x);
    }
  }

  lemma NextConserves(s: State, a: seq<Loc>, action: Action, x: Loc)
    requires Inv(s, a) && Enabled(s, action)
    ensures Copies(Next(s, a, action).0, x) == Copies(s, x)
    ensures multiset(Next(s, a, action).1) == multiset(a)
  {
    match action
    case Begin(t, i, j, try) => ThreadUpdate(s.threads, t, Call(i, j, try), x);
    case Go(t) =>
      StepOK(s, a, t);
      StepConserves(s, a, t, x);
  }

  /** With no call in progress the cells hold exactly the contents the swaps lead to. */
  lemma Quiescent(s: State, a: seq<Loc>)
    requires Inv(s, a) && forall t :: 0 <= t < |s.threads| ==> s.threads[t].Idle?
    ensures s.cells == seq(|a|, c requires 0 <= c < |a| => Some(a[c]))
  {
    forall c: nat | c < |s.cells| ensures s.cells[c].Some? {
      assert s.cells[c].None? ==> Owned(s, c);
    }
  }

  // ---------- progress ----------

  // Thread t running alone for n steps
  function Alone(s: State, t: nat, n: nat): (r: State)
    requires t < |s.threads| && InRange(s, s.threads[t])
    ensures |r.threads| == |s.threads|
    decreases n
  {
    if n == 0 then s else Alone(Step(s, t), t, n - 1)
  }

  // The holder of the highest checked-out cell
  ghost predicate Top(s: State, t: nat) {
    && t < |s.threads| && Holding(s.threads[t])
    && forall u :: 0 <= u < |s.threads| && Holding(s.threads[u]) ==> s.threads[u].first <= s.threads[t].first
  }

  lemma {:induction false} TopExists(s: State, k: nat, b: nat)
    requires k <= |s.threads| && b < |s.threads| && Holding(s.threads[b])
    requires forall u :: k <= u < |s.threads| && Holding(s.threads[u]) ==> s.threads[u].first <= s.threads[b].first
    ensures exists t: nat :: Top(s, t)
  {
    if k == 0 {
      assert Top(s, b);
    } else if Holding(s.threads[k - 1]) && s.threads[k - 1].first > s.threads[b].first {
      TopExists(s, k - 1, k - 1);
    } else {
      TopExists(s, k - 1, b);
    }
  }

  // The higher cell of the top holder is not checked out.
  lemma TopFree(s: State, a: seq<Loc>, t: nat)
    requires Inv(s, a) && Top(s, t) && (s.threads[t].Load2? || s.threads[t].Cas2?)
    requires s.threads[t].first < s.threads[t].last
    ensures s.threads[t].last < |s.cells| && s.cells[s.threads[t].last].Some?
  {
    assert ThreadOK(s, a, t);
    var l := s.threads[t].last;
    assert s.cells[l].None? ==> Owned(s, l);
  }

  // Each call under way is for two different cells.
  ghost predicate Distinct(s: State) {
    forall t :: 0 <= t < |s.threads| && !s.threads[t].Idle? && !s.threads[t].Put? ==>
        s.threads[t].first < s.threads[t].last
  }

  // A thread finishes on its own from its second half, if its higher cell is there to take.
  lemma FinishLast(s: State, t: nat)
    requires t < |s.threads| && InRange(s, s.threads[t]) && Holding(s.threads[t])
    requires s.threads[t].Put? || s.cells[s.threads[t].last].Some?
    ensures Finishes(s, t, 4)
  {
    var s1 := Step(s, t);
    var s2 := Step(s1, t);
    var s3 := Step(s2, t);
    assert Alone(s, t, 1) == s1 && Alone(s, t, 2) == s2 && Alone(s, t, 3) == s3 && Alone(s, t, 4) == Step(s3, t);
  }

  // The state with thread t at pc and the given cells
  function With(s: State, t: nat, cells: seq<Option<Loc>>, pc: Pc): State
    requires t < |s.threads|
  {
    State(cells, s.threads[t := pc])
  }

  lemma StepWith(s: State, t: nat, cells: seq<Option<Loc>>, pc: Pc, cells': seq<Option<Loc>>, pc': Pc, n: nat)
    requires t < |s.threads| && InRange(With(s, t, cells, pc), pc)
    requires Step(With(s, t, cells, pc), t).cells == cells' && Step(With(s, t, cells, pc), t).threads[t] == pc'
    ensures Alone(With(s, t, cells, pc), t, n + 1) == Alone(With(s, t, cells', pc'), t, n)
  {
    var w := With(s, t, cells, pc);
    assert Step(w, t).threads == w.threads[t := pc'] == s.threads[t := pc'];
  }

  /** A call on two different cells that have their values, while no other thread steps: it returns true after five
      steps, and the two cells are swapped. */
  lemma AloneSwaps(s: State, t: nat, i: nat, j: nat, try: bool)
    requires t < |s.threads| && i < |s.cells| && j < |s.cells| && i != j && s.cells[i].Some? && s.cells[j].Some?
    ensures Alone(Goto(s, t, Call(i, j, try)), t, 5) ==
            State(s.cells[i := s.cells[j]][j := s.cells[i]], s.threads[t := Idle(true)])
  {
    var f, l := if i < j then i else j, if i < j then j else i;
    var v, w := s.cells[f].value, s.cells[l].value;
    var c := s.cells[f := None];
    var d := c[l := Some(v)];
    StepWith(s, t, s.cells, Load1(f, l, try), s.cells, Cas1(f, l, try, v), 4);
    StepWith(s, t, s.cells, Cas1(f, l, try, v), c, Load2(f, l, try, v), 3);
    StepWith(s, t, c, Load2(f, l, try, v), c, Cas2(f, l, try, v, w), 2);
    StepWith(s, t, c, Cas2(f, l, try, v, w), d, Put(f, w, true), 1);
    StepWith(s, t, d, Put(f, w, true), d[f := Some(w)], Idle(true), 0);
    assert d[f := Some(w)] == s.cells[i := s.cells[j]][j := s.cells[i]];
  }

  ghost predicate Finishes(s: State, t: nat, n: nat)
    requires t < |s.threads| && InRange(s, s.threads[t])
  {
    Alone(s, t, n).threads[t].Idle?
  }

  lemma FinishLater(s: State, t: nat, n: nat)
    requires t < |s.threads| && InRange(s, s.threads[t]) && Finishes(Step(s, t), t, n)
    ensures Finishes(s, t, n + 1)
  {
  }

  // With nothing checked out, any thread finishes on its own.
  lemma FinishFirst(s: State, t: nat)
    requires t < |s.threads| && InRange(s, s.threads[t]) && s.threads[t].Load1?
    requires s.threads[t].first < s.threads[t].last
    requires forall c :: 0 <= c < |s.cells| ==> s.cells[c].Some?
    ensures Finishes(s, t, 6)
  {
    var s1 := Step(s, t);
    var s2 := Step(s1, t);
    FinishLast(s2, t);
    FinishLater(s1, t, 4);
    FinishLater(s, t, 5);
  }

  lemma IdleStays(s: State, t: nat, n: nat)
    requires t < |s.threads| && s.threads[t].Idle?
    ensures Finishes(s, t, n)
    decreases n
  {
    if n > 0 { IdleStays(s, t, n - 1); }
  }

  /** Address order rules out deadlock: while calls are under way, each for two different cells, some thread
      would complete its call within seven steps of its own if it were left to run. */
  lemma Progress(s: State, a: seq<Loc>, p: nat)
    requires Inv(s, a) && Distinct(s) && p < |s.threads| && !s.threads[p].Idle?
    ensures exists t: nat :: t < |s.threads| && InRange(s, s.threads[t]) && !s.threads[t].Idle? && Finishes(s, t, 7)
  {
    if exists b :: 0 <= b < |s.threads| && Holding(s.threads[b]) {
      var b :| 0 <= b < |s.threads| && Holding(s.threads[b]);
      TopExists(s, |s.threads|, b);
      var t: nat :| Top(s, t);
      assert ThreadOK(s, a, t);
      if !s.threads[t].Put? { TopFree(s, a, t); }
      FinishLast(s, t);
      StillIdle(s, t, 4, 3);
    } else {
      forall c: nat | c < |s.cells| ensures s.cells[c].Some? {
        assert s.cells[c].None? ==> Owned(s, c);
      }
      assert ThreadOK(s, a, p);
      if s.threads[p].Load1? {
        FinishFirst(s, p);
        StillIdle(s, p, 6, 1);
      } else {
        FinishCas1(s, p);
      }
    }
  }

  lemma FinishCas1(s: State, t: nat)
    requires t < |s.threads| && InRange(s, s.threads[t]) && s.threads[t].Cas1? && s.threads[t].first < s.threads[t].last
    requires forall c :: 0 <= c < |s.cells| ==> s.cells[c].Some?
    ensures Finishes(s, t, 7)
  {
    var s1 := Step(s, t);
    var pc := s1.threads[t];
    if pc.Idle? {
      IdleStays(s1, t, 6);
    } else if pc.Load1? {
      FinishFirst(s1, t);
    } else {
      FinishLast(s1, t);
      StillIdle(s1, t, 4, 2);
    }
    FinishLater(s, t, 6);
  }

  lemma {:induction false} StillIdle(s: State, t: nat, n: nat, k: nat)
    requires t < |s.threads| && InRange(s, s.threads[t]) && Finishes(s, t, n)
    ensures Finishes(s, t, n + k)
    decreases n
  {
    if n == 0 {
      IdleStays(s, t, k);
    } else {
      StillIdle(Step(s, t), t, n - 1, k);
    }
  }

  /** A Swap of a cell with itself never returns: from the call on, in every run, its thread stays before the step
      at which a swap takes effect, and once it has checked the cell out it waits there for good. */
  lemma {:induction false} SelfSwapStuck(s: State, a: seq<Loc>, t: nat, run: seq<Action>)
    requires Inv(s, a) && t < |s.threads| && Before(s.threads[t]) && !s.threads[t].try
    requires s.threads[t].first == s.threads[t].last
    requires Exec(s, a, run).Some?
    ensures
      var pc := s.threads[t];
      var e := Exec(s, a, run).value.0;
      && t < |e.threads| && Before(e.threads[t]) && !e.threads[t].try
      && e.threads[t].first == e.threads[t].last == pc.first
      && CommitsOf(s, a, run, t) == 0
      && (pc.Load2? ==> e.threads[t] == pc)
    decreases |run|
  {
    if run != [] {
      assert ThreadOK(s, a, t);
      var n := Next(s, a, run[0]);
      SelfSwapStuck(n.0, n.1, t, run[1..]);
    }
  }

  /** The start: every cell has a value and no call is under way. */
  ghost predicate Initial(s: State, a: seq<Loc>) {
    && s.cells == seq(|a|, c requires 0 <= c < |a| => Some(a[c]))
    && forall t :: 0 <= t < |s.threads| ==> s.threads[t].Idle?
  }

  lemma InitialOK(s: State, a: seq<Loc>)
    requires Initial(s, a)
    ensures Inv(s, a) && Distinct(s)
  {
  }

  /** In every run of swaps of different cells, whatever the interleaving, some thread with a call under way
      can always complete it. */
  lemma {:induction false} NoDeadlock(s: State, a: seq<Loc>, run: seq<Action>, p: nat)
    requires Inv(s, a) && Distinct(s) && Exec(s, a, run).Some?
    requires forall k :: 0 <= k < |run| && run[k].Begin? ==> run[k].i != run[k].j
    requires var e := Exec(s, a, run).value.0; p < |e.threads| && !e.threads[p].Idle?
    ensures var e := Exec(s, a, run).value.0;
      exists t: nat :: t < |e.threads| && InRange(e, e.threads[t]) && !e.threads[t].Idle? && Finishes(e, t, 7)
    decreases |run|
  {
    if run == [] {
      Progress(s, a, p);
    } else {
      var n := Next(s, a, run[0]);
      assert Distinct(n.0);
      NoDeadlock(n.0, n.1, run[1..], p);
    }
  }
}
