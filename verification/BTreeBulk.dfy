/** bulk_load of sources/btree/btree.c: a B+ tree built bottom-up from sorted input.

    While a level is being built its nodes have no parent yet: they are the children of the sentinel. A
    finished level is thus a well-formed tree whose sentinel has many children, and each further level
    groups these under new nodes. */
module BTreeBulk {
  import opened Common
  import opened Division
  import opened BTreeNode
  import opened BTreeShape
  import opened BTreeStuck
  import opened BTree

  // ---------- grouping ----------

  // 0 = cuts[0] < cuts[1] < ... = n: group i is cuts[i]..cuts[i + 1].
  ghost predicate Cuts(cuts: seq<nat>, n: nat) {
    && |cuts| >= 2 && cuts[0] == 0 && cuts[|cuts| - 1] == n
    && forall i, j :: 0 <= i < j < |cuts| ==> cuts[i] < cuts[j]
  }

  ghost predicate InGroup(cuts: seq<nat>, i: nat, j: nat) {
    i + 1 < |cuts| && cuts[i] <= j < cuts[i + 1]
  }

  lemma {:induction false} GroupOf(cuts: seq<nat>, j: nat, k: nat) returns (i: nat)
    requires k < |cuts| && cuts[0] == 0 && j < cuts[k]
    ensures InGroup(cuts, i, j)
    decreases k
  {
    if cuts[k - 1] <= j {
      i := k - 1;
    } else {
      i := GroupOf(cuts, j, k - 1);
    }
  }

  // ---------- the leaves ----------

  ghost predicate Increasing(keys: seq<nat>) {
    && (forall i :: 0 <= i < |keys| ==> keys[i] < KEY_LIMIT)
    && (forall i, j :: 0 <= i < j < |keys| ==> keys[i] < keys[j])
  }

  // The map the input stands for
  ghost predicate Pairs(recs: Recs, keys: seq<nat>, rs: seq<Record>) {
    && |keys| == |rs|
    && (forall k :: k in recs ==> k in keys)
    && (forall j :: 0 <= j < |keys| ==> keys[j] in recs && recs[keys[j]] == rs[j])
  }

  ghost function LeafVal(keys: seq<nat>, rs: seq<Record>, leaves: seq<Node>, cuts: seq<nat>, i: nat): NodeVal
    requires |keys| == |rs| && Cuts(cuts, |keys|) && |cuts| == |leaves| + 1 && i < |leaves|
  {
    var a, b := cuts[i], cuts[i + 1];
    NodeVal(true, keys[a..b], Slots(rs)[a..b], if i + 1 < |leaves| then Child(leaves[i + 1]) else Nil, null,
            if a == 0 then 0 else keys[a], if b == |keys| then KEY_LIMIT else keys[b], 0)
  }

  ghost function AsChildren(nodes: seq<Node>): (p: seq<Ptr>)
    ensures |p| == |nodes|
  {
    seq(|nodes|, i requires 0 <= i < |nodes| => Child(nodes[i]))
  }

  // The separators between groups: the first key of each group but the first
  ghost function Firsts(keys: seq<nat>, cuts: seq<nat>): (r: seq<nat>)
    requires Cuts(cuts, |keys|)
    ensures |r| == |cuts| - 2
  {
    seq(|cuts| - 2, i requires 0 <= i < |cuts| - 2 => keys[cuts[i + 1]])
  }

  ghost predicate Distinct(nodes: seq<Node>) {
    forall i, j :: 0 <= i < j < |nodes| ==> nodes[i] != nodes[j]
  }

  ghost predicate LeafAt(h: Heap, keys: seq<nat>, rs: seq<Record>, leaves: seq<Node>, cuts: seq<nat>, i: nat)
    requires |keys| == |rs| && Cuts(cuts, |keys|) && |cuts| == |leaves| + 1 && i < |leaves|
  {
    leaves[i] in h && h[leaves[i]] == LeafVal(keys, rs, leaves, cuts, i)
  }

  // The heap of a row of leaves under the sentinel
  ghost predicate LeafRow(h: Heap, keys: seq<nat>, rs: seq<Record>, leaves: seq<Node>, cuts: seq<nat>) {
    && |keys| == |rs| && Cuts(cuts, |keys|) && |cuts| == |leaves| + 1 && Distinct(leaves)
    && h.Keys == (set x | x in leaves) + {null}
    && h[null] == NodeVal(false, Firsts(keys, cuts), AsChildren(leaves), Nil, null, 0, KEY_LIMIT, 1)
    && forall i: nat {:trigger LeafAt(h, keys, rs, leaves, cuts, i)} :: i < |leaves| ==>
        LeafAt(h, keys, rs, leaves, cuts, i)
  }

  lemma FirstsFacts(keys: seq<nat>, cuts: seq<nat>)
    requires Increasing(keys) && Cuts(cuts, |keys|)
    ensures var s := Firsts(keys, cuts);
      (forall i :: 0 <= i < |s| ==> 0 < s[i] < KEY_LIMIT) && (forall i, j :: 0 <= i < j < |s| ==> s[i] < s[j])
  {
    var s := Firsts(keys, cuts);
    forall i | 0 <= i < |s| ensures 0 < s[i] < KEY_LIMIT {
      assert cuts[0] < cuts[i + 1] < cuts[|cuts| - 1];
      assert keys[0] < keys[cuts[i + 1]];
    }
    forall i, j | 0 <= i < j < |s| ensures s[i] < s[j] {
      assert cuts[i + 1] < cuts[j + 1] < cuts[|cuts| - 1];
    }
  }

  lemma LeafRowEdge(h: Heap, keys: seq<nat>, rs: seq<Record>, leaves: seq<Node>, cuts: seq<nat>, i: nat)
    requires LeafRow(h, keys, rs, leaves, cuts) && i < |leaves|
    ensures Edge(h, null, i)
  {
    assert LeafAt(h, keys, rs, leaves, cuts, i);
    assert cuts[i] < cuts[i + 1] <= cuts[|cuts| - 1];
    assert h[null].keys == Firsts(keys, cuts) && h[null].ptrs[i] == Child(leaves[i]);
  }

  lemma LeafRowEdges(h: Heap, keys: seq<nat>, rs: seq<Record>, leaves: seq<Node>, cuts: seq<nat>)
    requires LeafRow(h, keys, rs, leaves, cuts) && Increasing(keys)
    ensures Local(h[null]) && Linked(h, null)
  {
    FirstsFacts(keys, cuts);
    forall i: nat | i < |h[null].ptrs| ensures Edge(h, null, i) {
      LeafRowEdge(h, keys, rs, leaves, cuts, i);
    }
  }

  lemma LeafRowLeaf(h: Heap, recs: Recs, keys: seq<nat>, rs: seq<Record>, leaves: seq<Node>, cuts: seq<nat>, i: nat)
    requires LeafRow(h, keys, rs, leaves, cuts) && Increasing(keys) && Pairs(recs, keys, rs) && i < |leaves|
    ensures h[leaves[i]] == LeafVal(keys, rs, leaves, cuts, i)
    ensures Local(h[leaves[i]]) && Holds(recs, h[leaves[i]])
  {
    var v, a, b := h[leaves[i]], cuts[i], cuts[i + 1];
    assert LeafAt(h, keys, rs, leaves, cuts, i);
    assert cuts[0] <= a < b <= cuts[|cuts| - 1];
    SliceLocal(v, keys, rs, a, b);
    SliceHolds(v, keys, rs, a, b, recs);
  }

  ghost predicate IsSlice(v: NodeVal, keys: seq<nat>, rs: seq<Record>, a: nat, b: nat)
    requires |keys| == |rs|
  {
    && a < b <= |keys| && v.isLeaf && v.height == 0
    && v.keys == keys[a..b] && v.ptrs == Slots(rs)[a..b]
    && v.lo == (if a == 0 then 0 else keys[a]) && v.hi == if b == |keys| then KEY_LIMIT else keys[b]
  }

  lemma SliceLocal(v: NodeVal, keys: seq<nat>, rs: seq<Record>, a: nat, b: nat)
    requires |keys| == |rs| && Increasing(keys) && IsSlice(v, keys, rs, a, b)
    ensures Local(v)
  {
    forall j | 0 <= j < |v.keys| ensures v.lo <= v.keys[j] < v.hi {
      assert v.keys[j] == keys[a + j];
    }
    assert v.lo <= v.keys[0] < v.hi <= KEY_LIMIT;
  }

  lemma SliceHas(v: NodeVal, keys: seq<nat>, rs: seq<Record>, a: nat, b: nat, k: nat)
    requires |keys| == |rs| && Increasing(keys) && IsSlice(v, keys, rs, a, b) && v.lo <= k < v.hi && k in keys
    ensures k in v.keys
  {
    var j :| 0 <= j < |keys| && keys[j] == k;
    assert a <= j < b;
    assert v.keys[j - a] == k;
  }

  lemma SliceHolds(v: NodeVal, keys: seq<nat>, rs: seq<Record>, a: nat, b: nat, recs: Recs)
    requires Pairs(recs, keys, rs) && Increasing(keys) && IsSlice(v, keys, rs, a, b)
    ensures Holds(recs, v)
  {
    forall k | v.lo <= k < v.hi && k in recs ensures k in v.keys {
      SliceHas(v, keys, rs, a, b, k);
    }
    forall j | 0 <= j < |v.keys| ensures v.keys[j] in recs && v.ptrs[j] == Rec(recs[v.keys[j]]) {
      assert v.keys[j] == keys[a + j] && v.ptrs[j] == Rec(rs[a + j]);
    }
  }

  lemma LeafRowChained(h: Heap, keys: seq<nat>, rs: seq<Record>, leaves: seq<Node>, cuts: seq<nat>, i: nat)
    requires LeafRow(h, keys, rs, leaves, cuts) && Increasing(keys) && i < |leaves|
    ensures Chained(h, leaves[i]) && Hangs(h, leaves[i])
  {
    assert LeafAt(h, keys, rs, leaves, cuts, i);
    assert h[null].ptrs[i] == Child(leaves[i]);
    if i + 1 < |leaves| {
      assert LeafAt(h, keys, rs, leaves, cuts, i + 1);
      assert cuts[i + 1] < cuts[|cuts| - 1];
    }
  }

  lemma LeafRowOK(h: Heap, recs: Recs, keys: seq<nat>, rs: seq<Record>, leaves: seq<Node>, cuts: seq<nat>)
    requires LeafRow(h, keys, rs, leaves, cuts) && Increasing(keys) && Pairs(recs, keys, rs)
    ensures WellFormed(h, recs) && Tight(h)
  {
    LeafRowEdges(h, keys, rs, leaves, cuts);
    forall n | n in h ensures Good(h, recs, n) && FirstKey(h, n) {
      if n == null {
      } else {
        var i :| 0 <= i < |leaves| && leaves[i] == n;
        LeafRowLeaf(h, recs, keys, rs, leaves, cuts, i);
        LeafRowChained(h, keys, rs, leaves, cuts, i);
      }
    }
  }

  ghost function LeafOf(keys: seq<nat>, rs: seq<Record>, lo: nat, hi: nat): NodeVal {
    NodeVal(true, keys, Slots(rs), Nil, null, lo, hi, 0)
  }

  ghost function Sentinel(keys: seq<nat>, nodes: seq<Node>, height: nat): NodeVal {
    NodeVal(false, keys, AsChildren(nodes), Nil, null, 0, KEY_LIMIT, height)
  }

  lemma LeafRowFirst(h: Heap, keys: seq<nat>, rs: seq<Record>, leaf: Node)
    requires |keys| == |rs| > 0
    requires h == map[leaf := LeafOf(keys, rs, 0, KEY_LIMIT), null := Sentinel([], [leaf], 1)]
    ensures LeafRow(h, keys, rs, [leaf], [0, |keys|])
  {
    assert LeafAt(h, keys, rs, [leaf], [0, |keys|], 0);
    assert Firsts(keys, [0, |keys|]) == [];
  }

  // The row after one more leaf, for the part of the input behind n, was linked to the last one
  ghost function WithLeaf(h: Heap, keys: seq<nat>, rs: seq<Record>, n: nat, leaves: seq<Node>, cuts: seq<nat>,
      leaf: Node): Heap
    requires 0 < n < |keys| == |rs| && LeafRow(h, keys[..n], rs[..n], leaves, cuts)
  {
    var last := leaves[|leaves| - 1];
    assert LeafAt(h, keys[..n], rs[..n], leaves, cuts, |leaves| - 1);
    h[last := h[last].(next := Child(leaf), hi := keys[n])]
     [leaf := LeafOf(keys[n..], rs[n..], keys[n], KEY_LIMIT)]
     [null := Sentinel(h[null].keys + [keys[n]], leaves + [leaf], 1)]
  }

  lemma LeafRowMore(h: Heap, keys: seq<nat>, rs: seq<Record>, n: nat, leaves: seq<Node>, cuts: seq<nat>, leaf: Node)
    requires 0 < n < |keys| == |rs| && LeafRow(h, keys[..n], rs[..n], leaves, cuts) && leaf !in h
    ensures LeafRow(WithLeaf(h, keys, rs, n, leaves, cuts, leaf), keys, rs, leaves + [leaf], cuts + [|keys|])
  {
    var h', leaves', cuts' := WithLeaf(h, keys, rs, n, leaves, cuts, leaf), leaves + [leaf], cuts + [|keys|];
    assert Cuts(cuts', |keys|);
    forall i | 0 <= i < |leaves| ensures leaves[i] in h && leaves[i] != leaf {
      assert LeafAt(h, keys[..n], rs[..n], leaves, cuts, i);
    }
    forall i | 0 <= i < |cuts| - 2 ensures Firsts(keys[..n], cuts)[i] == Firsts(keys, cuts')[i] {
      assert cuts[i + 1] < cuts[|cuts| - 1];
    }
    assert h[null].keys + [keys[n]] == Firsts(keys, cuts');
    forall i: nat | i < |leaves'| ensures LeafAt(h', keys, rs, leaves', cuts', i) {
      LeafRowMoreAt(h, keys, rs, n, leaves, cuts, leaf, i);
    }
  }

  lemma LeafRowMoreAt(h: Heap, keys: seq<nat>, rs: seq<Record>, n: nat, leaves: seq<Node>, cuts: seq<nat>, leaf: Node,
      i: nat)
    requires 0 < n < |keys| == |rs| && LeafRow(h, keys[..n], rs[..n], leaves, cuts) && leaf !in h && i <= |leaves|
    requires Cuts(cuts + [|keys|], |keys|)
    ensures LeafAt(WithLeaf(h, keys, rs, n, leaves, cuts, leaf), keys, rs, leaves + [leaf], cuts + [|keys|], i)
  {
    var leaves', cuts' := leaves + [leaf], cuts + [|keys|];
    if i < |leaves| {
      assert LeafAt(h, keys[..n], rs[..n], leaves, cuts, i);
      var a, b := cuts[i], cuts[i + 1];
      assert a < b <= cuts[|cuts| - 1];
      assert keys[..n][a..b] == keys[a..b] && Slots(rs[..n])[a..b] == Slots(rs)[a..b];
      assert i < |leaves| - 1 ==> leaves[i] != leaves[|leaves| - 1];
    } else {
      assert Slots(rs)[n..] == Slots(rs[n..]);
      assert keys[n..|keys|] == keys[n..] && Slots(rs)[n..|rs|] == Slots(rs)[n..];
    }
  }

  // The range of a leaf starts at its first key, except for the first leaf.
  ghost predicate FirstKey(h: Heap, n: Node?)
    requires n in h
  {
    h[n].isLeaf && h[n].lo > 0 ==> h[n].keys != [] && h[n].keys[0] == h[n].lo
  }

  ghost predicate Tight(h: Heap) {
    forall n {:trigger FirstKey(h, n)} :: n in h ==> FirstKey(h, n)
  }

  // ---------- one level more ----------

  // A new node over children a..b of the sentinel value v
  ghost function ParentOf(v: NodeVal, a: nat, b: nat): NodeVal
    requires |v.ptrs| == |v.keys| + 1 && a < b <= |v.ptrs|
  {
    NodeVal(false, v.keys[a..b - 1], v.ptrs[a..b], Nil, null, Lo(v, a), Hi(v, b - 1), v.height)
  }

  ghost function ParentVal(v: NodeVal, cuts: seq<nat>, i: nat): NodeVal
    requires |v.ptrs| == |v.keys| + 1 && Cuts(cuts, |v.ptrs|) && i + 1 < |cuts|
  {
    ParentOf(v, cuts[i], cuts[i + 1])
  }

  // The separators that move up to the sentinel
  ghost function Between(v: NodeVal, cuts: seq<nat>): (r: seq<nat>)
    requires |v.ptrs| == |v.keys| + 1 && Cuts(cuts, |v.ptrs|)
    ensures |r| == |cuts| - 2
  {
    seq(|cuts| - 2, i requires 0 <= i < |cuts| - 2 => v.keys[cuts[i + 1] - 1])
  }

  // Child j of the sentinel now belongs to the parent of its group.
  ghost predicate Adopted(h: Heap, h': Heap, parent: Node, j: nat)
    requires null in h
  {
    && j < |h[null].ptrs| && h[null].ptrs[j].Child?
    && var c := h[null].ptrs[j].node;
    && c in h && c in h' && h'[c] == h[c].(parent := parent)
  }

  // h' is h with the sentinel's children grouped under the new nodes `parents`.
  ghost predicate Levelled(h: Heap, h': Heap, parents: seq<Node>, cuts: seq<nat>) {
    && null in h && |h[null].ptrs| == |h[null].keys| + 1 && Cuts(cuts, |h[null].ptrs|)
    && |cuts| == |parents| + 1 && Distinct(parents) && (forall i :: 0 <= i < |parents| ==> parents[i] !in h)
    && h'.Keys == h.Keys + (set x | x in parents)
    && h'[null] == NodeVal(false, Between(h[null], cuts), AsChildren(parents), Nil, null, 0, KEY_LIMIT,
        h[null].height + 1)
    && (forall i: nat {:trigger parents[i]} :: i < |parents| ==> h'[parents[i]] == ParentVal(h[null], cuts, i))
    && (forall i: nat, j: nat {:trigger InGroup(cuts, i, j)} :: InGroup(cuts, i, j) ==> Adopted(h, h', parents[i], j))
    && (forall x: Node :: x in h && h[x].parent != null ==> h'[x] == h[x])
  }

  lemma ParentLocal(v: NodeVal, cuts: seq<nat>, i: nat)
    requires Local(v) && !v.isLeaf && Cuts(cuts, |v.ptrs|) && i + 1 < |cuts|
    ensures Local(ParentVal(v, cuts, i))
  {
    assert cuts[0] <= cuts[i] < cuts[i + 1] <= cuts[|cuts| - 1];
  }

  lemma SentinelLocal(v: NodeVal, cuts: seq<nat>, ptrs: seq<Ptr>)
    requires Local(v) && !v.isLeaf && v.lo == 0 && v.hi == KEY_LIMIT && Cuts(cuts, |v.ptrs|) && |ptrs| == |cuts| - 1
    ensures Local(NodeVal(false, Between(v, cuts), ptrs, Nil, null, 0, KEY_LIMIT, v.height + 1))
  {
    var s := Between(v, cuts);
    forall i | 0 <= i < |s| ensures 0 < s[i] < KEY_LIMIT {
      assert cuts[0] < cuts[i + 1] < cuts[|cuts| - 1];
    }
    forall i, j | 0 <= i < j < |s| ensures s[i] < s[j] {
      assert cuts[i + 1] < cuts[j + 1] < cuts[|cuts| - 1] && cuts[0] < cuts[i + 1];
    }
  }

  // The nodes keep everything but their parent.
  lemma Unchanged(h: Heap, h': Heap, recs: Recs, parents: seq<Node>, cuts: seq<nat>, x: Node)
    requires WellFormed(h, recs) && Levelled(h, h', parents, cuts) && x in h
    ensures x in h' && h'[x] == h[x].(parent := h'[x].parent) && (h[x].parent != null ==> h'[x] == h[x])
    ensures h[x].parent == null ==> Hangs(h', x)
  {
    if h[x].parent == null {
      var j := FindSlot(h, recs, x);
      var i := GroupOf(cuts, j, |cuts| - 1);
      assert Adopted(h, h', parents[i], j);
      assert h'[parents[i]] == ParentVal(h[null], cuts, i);
      assert h'[parents[i]].ptrs[j - cuts[i]] == Child(x);
    }
  }

  lemma LevelledNull(h: Heap, h': Heap, recs: Recs, parents: seq<Node>, cuts: seq<nat>)
    requires WellFormed(h, recs) && Levelled(h, h', parents, cuts)
    ensures Good(h', recs, null)
  {
    var v := h[null];
    assert Good(h, recs, null);
    SentinelLocal(v, cuts, AsChildren(parents));
    forall i: nat | i < |h'[null].ptrs| ensures Edge(h', null, i) {
      assert h'[parents[i]] == ParentVal(v, cuts, i);
      assert cuts[0] <= cuts[i] < cuts[i + 1] <= cuts[|cuts| - 1];
    }
  }

  lemma LevelledParent(h: Heap, h': Heap, recs: Recs, parents: seq<Node>, cuts: seq<nat>, i: nat)
    requires WellFormed(h, recs) && Levelled(h, h', parents, cuts) && i < |parents|
    ensures Good(h', recs, parents[i])
  {
    var v, p := h[null], parents[i];
    assert Good(h, recs, null);
    assert h'[p] == ParentVal(v, cuts, i);
    ParentLocal(v, cuts, i);
    assert h'[null].ptrs[i] == Child(p);
    forall j: nat | j < |h'[p].ptrs| ensures Edge(h', p, j) {
      LevelledEdge(h, h', recs, parents, cuts, i, j);
    }
  }

  lemma LevelledEdge(h: Heap, h': Heap, recs: Recs, parents: seq<Node>, cuts: seq<nat>, i: nat, j: nat)
    requires WellFormed(h, recs) && Levelled(h, h', parents, cuts) && i < |parents| && j < cuts[i + 1] - cuts[i]
    ensures Edge(h', parents[i], j)
  {
    var v, p, a := h[null], parents[i], cuts[i];
    assert h'[p] == ParentVal(v, cuts, i);
    assert cuts[0] <= a < cuts[i + 1] <= cuts[|cuts| - 1];
    assert Good(h, recs, null) && Edge(h, null, a + j);
    assert InGroup(cuts, i, a + j) && Adopted(h, h', p, a + j);
    ParentEdge(h, h', p, a, cuts[i + 1], j);
  }

  // Child a + j of the sentinel as child j of its new parent
  lemma ParentEdge(h: Heap, h': Heap, p: Node, a: nat, b: nat, j: nat)
    requires null in h && |h[null].ptrs| == |h[null].keys| + 1 && a < b <= |h[null].ptrs| && j < b - a
    requires !h[null].isLeaf
    requires p in h' && h'[p] == ParentOf(h[null], a, b) && Edge(h, null, a + j) && Adopted(h, h', p, a + j)
    ensures Edge(h', p, j)
  {
  }

  lemma LevelledOld(h: Heap, h': Heap, recs: Recs, parents: seq<Node>, cuts: seq<nat>, x: Node)
    requires WellFormed(h, recs) && Levelled(h, h', parents, cuts) && x in h
    ensures Good(h', recs, x)
  {
    assert Good(h, recs, x) && Good(h, recs, null);
    Unchanged(h, h', recs, parents, cuts, x);
    if !h[x].isLeaf {
      forall j: nat | j < |h'[x].ptrs| ensures Edge(h', x, j) {
        assert Edge(h, x, j);
        Unchanged(h, h', recs, parents, cuts, h[x].ptrs[j].node);
      }
    } else if h[x].next.Child? {
      Unchanged(h, h', recs, parents, cuts, h[x].next.node);
    }
    if h[x].parent != null { Unchanged(h, h', recs, parents, cuts, h[x].parent); }
  }

  /** Grouping the nodes of a level under new parents gives a well-formed tree again. */
  lemma LevelledOK(h: Heap, h': Heap, recs: Recs, parents: seq<Node>, cuts: seq<nat>)
    requires WellFormed(h, recs) && Tight(h) && Levelled(h, h', parents, cuts)
    ensures WellFormed(h', recs) && Tight(h')
  {
    LevelledNull(h, h', recs, parents, cuts);
    forall x | x in h' ensures Good(h', recs, x) && FirstKey(h', x) {
      if x in parents {
        var i :| 0 <= i < |parents| && parents[i] == x;
        LevelledParent(h, h', recs, parents, cuts, i);
        assert h'[parents[i]] == ParentVal(h[null], cuts, i);
      } else if x != null {
        LevelledOld(h, h', recs, parents, cuts, x);
        Unchanged(h, h', recs, parents, cuts, x);
        assert FirstKey(h, x);
      }
    }
  }

  // ---------- in memory ----------

  method FillNew(t: Tree, leaf: Node, input: array<nat>, records: array<Record>, from: nat, upto: nat, ghost lo: nat,
      ghost hi: nat)
    requires t.Nodes() && leaf in t.heap && t.heap[leaf].isLeaf && t.heap[leaf].parent == null
    requires t.heap[leaf].next == Nil
    requires from <= upto <= input.Length == records.Length && upto - from <= t.order - 1 && input != leaf.keys
    modifies t`heap, leaf, leaf.keys, leaf.pointers
    ensures t.Nodes() && t.heap == old(t.heap)[leaf := LeafOf(input[from..upto], records[from..upto], lo, hi)]
  {
    assert t.Mirrors(leaf);
    leaf.FillLeaf(input, records, from, upto, lo, hi);
    t.heap := t.heap[leaf := leaf.View()];
    forall n: Node | n in t.heap ensures t.Mirrors(n) {
      if n != leaf { assert old(t.Mirrors(n)) && n.Apart(leaf); }
    }
  }

  method NewLeaf(t: Tree, input: array<nat>, records: array<Record>, from: nat, upto: nat, ghost lo: nat,
      ghost hi: nat) returns (leaf: Node)
    requires t.Nodes() && from <= upto <= input.Length == records.Length && upto - from <= t.order - 1
    modifies t`heap, t`mem
    ensures t.Nodes() && leaf !in old(t.heap) && fresh(t.mem - old(t.mem)) && old(t.mem) <= t.mem
    ensures t.heap == old(t.heap)[leaf := LeafOf(input[from..upto], records[from..upto], lo, hi)]
  {
    leaf := t.NewNode(true);
    assert t.Mirrors(leaf);
    FillNew(t, leaf, input, records, from, upto, lo, hi);
  }

  method LinkLeaf(t: Tree, last: Node, leaf: Node, ghost hi: nat)
    requires t.Nodes() && last in t.heap && t.heap[last].isLeaf
    modifies t`heap, last, last.pointers
    ensures t.Nodes() && t.heap == old(t.heap)[last := old(t.heap[last]).(next := Child(leaf), hi := hi)]
  {
    assert t.Mirrors(last);
    last.SetNext(Child(leaf), hi);
    t.heap := t.heap[last := last.View()];
    forall n: Node | n in t.heap ensures t.Mirrors(n) {
      if n != last { assert old(t.Mirrors(n)) && n.Apart(last); }
    }
  }

  function Least(a: nat, b: nat): nat {
    if a <= b then a else b
  }

  method PutLeaf(t: Tree, last: Node, input: array<nat>, records: array<Record>, from: nat, upto: nat)
      returns (leaf: Node)
    requires t.Nodes() && from < upto <= input.Length == records.Length && upto - from <= t.order - 1
    requires last in t.heap && t.heap[last].isLeaf
    modifies t`heap, t`mem, last, last.pointers
    ensures t.Nodes() && leaf !in old(t.heap) && fresh(t.mem - old(t.mem)) && old(t.mem) <= t.mem
    ensures t.heap == old(t.heap)[last := old(t.heap[last]).(next := Child(leaf), hi := old(input[from]))]
      [leaf := LeafOf(old(input[from..upto]), old(records[from..upto]), old(input[from]), KEY_LIMIT)]
  {
    ghost var h := t.heap;
    leaf := NewLeaf(t, input, records, from, upto, input[from], KEY_LIMIT);
    LinkLeaf(t, last, leaf, input[from]);
  }

  // One more leaf for the entries from `from` on
  method AppendLeaf(t: Tree, input: array<nat>, records: array<Record>, from: nat, upto: nat, leaves: seq<Node>,
      ghost cuts: seq<nat>)
    returns (leaf: Node)
    requires t.Nodes() == true && 0 < from < upto <= input.Length == records.Length && upto - from <= t.order - 1
    requires LeafRow(t.heap, input[..from], records[..from], leaves, cuts) == true
    modifies t`heap, t`mem, t.mem
    ensures t.Nodes() && fresh(t.mem - old(t.mem)) && old(t.mem) <= t.mem
    ensures LeafRow(t.heap, old(input[..upto]), old(records[..upto]), leaves + [leaf], cuts + [upto]) == true
  {
    ghost var h, keys, rs := t.heap, input[..upto], records[..upto];
    assert keys[..from] == input[..from] && rs[..from] == records[..from];
    assert keys[from..] == input[from..upto] && rs[from..] == records[from..upto];
    var last := leaves[|leaves| - 1];
    assert LeafAt(h, keys[..from], rs[..from], leaves, cuts, |leaves| - 1);
    assert t.Mirrors(last);
    leaf := PutLeaf(t, last, input, records, from, upto);
    t.Rebase(WithLeaf(h, keys, rs, from, leaves, cuts, leaf));
    LeafRowMore(h, keys, rs, from, leaves, cuts, leaf);
  }

  // The number of groups of k that n elements take
  lemma GroupCount(n: nat, k: nat, g: nat, i: nat)
    requires n > 0 && k > 0 && g == (n + k - 1) / k
    ensures g >= 1 && g * k >= n && (i < g ==> i * k < n)
    ensures k > 1 && n > 1 ==> g < n
  {
    Factor(n + k - 1, k);
    Products(g - 1 - i, k);
    assert (g - 1 - i) * k == g * k - k - i * k;
    Products(g - n, k);
    assert (g - n) * k == g * k - n * k;
    if k > 1 && n > 1 {
      Products(n - 2, k - 1);
      assert (n - 2) * (k - 1) == n * k - n - 2 * k + 2;
    }
  }

  function Groups(n: nat, k: nat): nat
    requires k > 0
  {
    (n + k - 1) / k
  }

  /** No node above the leaves gets a single child: no level has one node left over. */
  predicate Branches(order: nat, m: nat)
    requires order >= 3
    decreases m
  {
    m <= 1 || (m % order != 1 && (GroupCount(m, order, Groups(m, order), 0); Branches(order, Groups(m, order))))
  }

  // Every k of the n elements form a group.
  function Boundary(i: nat, k: nat, n: nat): nat {
    Least(i * k, n)
  }

  ghost predicate Even(cuts: seq<nat>, k: nat, n: nat) {
    forall i: nat {:trigger cuts[i]} :: i < |cuts| ==> cuts[i] == Boundary(i, k, n)
  }

  // The next group ends at the next boundary.
  lemma NextBoundary(cuts: seq<nat>, k: nat, n: nat, i: nat, g: nat)
    requires k > 0 && n > 0 && g == Groups(n, k) && i < g && |cuts| == i + 1 && Even(cuts, k, n)
    ensures var upto := Boundary(i + 1, k, n);
      && cuts[i] < upto <= n && upto == Least(cuts[i] + k, n) && upto - cuts[i] <= k && (i + 1 == g ==> upto == n)
      && Even(cuts + [upto], k, n)
  {
    GroupCount(n, k, g, i);
    assert (i + 1) * k == i * k + k;
    assert cuts[i] == Boundary(i, k, n);
  }

  // A group of one is the last one, and is there exactly if one element is left over.
  lemma GroupSize(i: nat, k: nat, n: nat)
    requires k >= 2 && Boundary(i, k, n) < Boundary(i + 1, k, n)
    ensures var size := Boundary(i + 1, k, n) - Boundary(i, k, n); size <= k && (size == 1 ==> n % k == 1)
  {
    assert (i + 1) * k == i * k + k;
    if Boundary(i + 1, k, n) - Boundary(i, k, n) == 1 {
      assert n == i * k + 1;
      Unique(n, i, 1, k);
    }
  }

  lemma LastGroup(k: nat, n: nat, g: nat)
    requires k >= 2 && n > 1 && n % k == 1 && g == (n + k - 1) / k
    ensures g >= 2 && Boundary(g - 1, k, n) == n - 1 && Boundary(g, k, n) == n
  {
    Factor(n, k);
    var q := n / k;
    assert n + k - 1 == (q + 1) * k + 0;
    Unique(n + k - 1, q + 1, 0, k);
  }

  // A row of leaves, each with 1 to order - 1 entries
  lemma LeafRowSized(h: Heap, keys: seq<nat>, rs: seq<Record>, leaves: seq<Node>, cuts: seq<nat>, order: nat,
      fill: Fill)
    requires order >= 3 && LeafRow(h, keys, rs, leaves, cuts) && Even(cuts, order - 1, |keys|) && !fill.HalfFull?
    ensures null in h && Sized(h, order, fill, null)
  {
    forall x: Node | x in h ensures Fits(h, order, fill, x) {
      var i: nat :| i < |leaves| && leaves[i] == x;
      assert LeafAt(h, keys, rs, leaves, cuts, i);
      assert cuts[i] < cuts[i + 1] <= cuts[|cuts| - 1];
      GroupSize(i, order - 1, |keys|);
    }
  }

  /** The row of leaves: each takes the next order - 1 entries and is chained to the one before. */
  method BuildLeaves(t: Tree, input: array<nat>, records: array<Record>, n: nat)
    returns (leaves: seq<Node>, ghost cuts: seq<nat>)
    requires t.Nodes() && t.heap == map[] && 0 < n <= input.Length == records.Length
    requires input !in t.mem && records !in t.mem
    modifies t`heap, t`mem, t.mem
    ensures t.Nodes() && fresh(t.mem - old(t.mem)) && old(t.mem) <= t.mem
    ensures LeafRow(t.heap, input[..n], records[..n], leaves, cuts)
    ensures Even(cuts, t.order - 1, n) && |leaves| == Groups(n, t.order - 1)
  {
    var k := t.order - 1;
    var numLeaves := (n + k - 1) / k;
    GroupCount(n, k, numLeaves, 0);
    var first, idx := FirstLeaf(t, input, records, n);
    leaves, cuts := [first], [0] + [idx];
    NextBoundary([0], k, n, 0, numLeaves);
    assert cuts == [0, idx];
    var i := 1;
    while i < numLeaves
      invariant 1 <= i == |leaves| <= numLeaves && (i == numLeaves ==> idx == n)
      invariant RowTo(t, input, records, n, leaves, cuts, idx) == true
      invariant fresh(t.mem - old(t.mem)) && old(t.mem) <= t.mem
    {
      leaves, idx, cuts := NextLeaf(t, input, records, n, leaves, idx, cuts, numLeaves);
      i := i + 1;
    }
  }

  // The first idx entries are in leaves.
  ghost predicate RowTo(t: Tree, input: array<nat>, records: array<Record>, n: nat, leaves: seq<Node>, cuts: seq<nat>,
                        idx: nat)
    reads t, t.mem, input, records
  {
    && t.Nodes() && 0 < idx <= n <= input.Length == records.Length && input !in t.mem && records !in t.mem
    && LeafRow(t.heap, input[..idx], records[..idx], leaves, cuts) && Even(cuts, t.order - 1, n)
  }

  method NextLeaf(t: Tree, input: array<nat>, records: array<Record>, n: nat, leaves: seq<Node>, idx: nat,
                  ghost cuts: seq<nat>, ghost numLeaves: nat)
    returns (leaves': seq<Node>, upto: nat, ghost cuts': seq<nat>)
    requires RowTo(t, input, records, n, leaves, cuts, idx) == true
    requires t.order >= 3 && numLeaves == Groups(n, t.order - 1) && 0 < |leaves| < numLeaves
    modifies t`heap, t`mem, t.mem
    ensures RowTo(t, input, records, n, leaves', cuts', upto) == true && fresh(t.mem - old(t.mem))
    ensures old(t.mem) <= t.mem
    ensures |leaves'| == |leaves| + 1 && (|leaves'| == numLeaves ==> upto == n)
  {
    NextBoundary(cuts, t.order - 1, n, |leaves|, numLeaves);
    upto := Least(idx + t.order - 1, n);
    var leaf := AppendLeaf(t, input, records, idx, upto, leaves, cuts);
    leaves', cuts' := leaves + [leaf], cuts + [upto];
  }

  method FirstLeaf(t: Tree, input: array<nat>, records: array<Record>, n: nat) returns (first: Node, idx: nat)
    requires t.Nodes() && t.heap == map[] && 0 < n <= input.Length == records.Length
    requires input !in t.mem && records !in t.mem
    modifies t`heap, t`mem, t.mem
    ensures t.Nodes() && fresh(t.mem - old(t.mem)) && old(t.mem) <= t.mem && idx == Least(t.order - 1, n)
    ensures LeafRow(t.heap, input[..idx], records[..idx], [first], [0, idx])
  {
    idx := Least(t.order - 1, n);
    first := NewLeaf(t, input, records, 0, idx, 0, KEY_LIMIT);
    t.Rebase(t.heap[null := Sentinel([], [first], 1)]);
    LeafRowFirst(t.heap, input[..idx], records[..idx], first);
  }

  // ---------- building a level in memory ----------

  ghost predicate ParentAt(h: Heap, g: Heap, parents: seq<Node>, cuts: seq<nat>, i: nat)
    requires null in h && |h[null].ptrs| == |h[null].keys| + 1 && |cuts| == |parents| + 1 && i < |parents|
  {
    && parents[i] !in h && parents[i] in g && cuts[i] < cuts[i + 1] <= |h[null].ptrs|
    && g[parents[i]] == ParentOf(h[null], cuts[i], cuts[i + 1])
  }

  ghost predicate Waits(h: Heap, g: Heap, j: nat)
    requires null in h && j < |h[null].ptrs|
  {
    h[null].ptrs[j].Child? && h[null].ptrs[j].node in h && h[null].ptrs[j].node in g &&
        g[h[null].ptrs[j].node] == h[h[null].ptrs[j].node]
  }

  // The first `done` children of the sentinel are grouped under `parents`; the others still have no parent.
  ghost predicate Part(h: Heap, g: Heap, parents: seq<Node>, cuts: seq<nat>, done: nat) {
    && null in h && null in g && |h[null].ptrs| == |h[null].keys| + 1 && g[null] == h[null]
    && |cuts| == |parents| + 1 && cuts[0] == 0 && cuts[|parents|] == done <= |h[null].ptrs|
    && (forall i, j :: 0 <= i < j < |cuts| ==> cuts[i] < cuts[j])
    && Distinct(parents)
    && g.Keys == h.Keys + (set x | x in parents)
    && (forall i: nat {:trigger ParentAt(h, g, parents, cuts, i)} :: i < |parents| ==> ParentAt(h, g, parents, cuts, i))
    && (forall i: nat, j: nat {:trigger InGroup(cuts, i, j)} :: InGroup(cuts, i, j) ==> Adopted(h, g, parents[i], j))
    && (forall j: nat {:trigger Waits(h, g, j)} :: done <= j < |h[null].ptrs| ==> Waits(h, g, j))
    && (forall x: Node :: x in h && h[x].parent != null ==> g[x] == h[x])
  }

  lemma PartStart(h: Heap, recs: Recs)
    requires WellFormed(h, recs)
    ensures Part(h, h, [], [0], 0)
  {
    BTreeShape.Children(h, recs, null);
    assert Good(h, recs, null);
  }

  // The heap after children a..b of the sentinel got the new parent p
  ghost function Grouped(h: Heap, g: Heap, p: Node, a: nat, b: nat): Heap
    requires null in h && |h[null].ptrs| == |h[null].keys| + 1 && a < b <= |h[null].ptrs|
  {
    Adopt(g, h[null].ptrs[a..b], p)[p := ParentOf(h[null], a, b)]
  }

  lemma PartStep(h: Heap, g: Heap, recs: Recs, parents: seq<Node>, cuts: seq<nat>, p: Node, a: nat, b: nat)
    requires WellFormed(h, recs) && Part(h, g, parents, cuts, a) && p !in g && a < b <= |h[null].ptrs|
    ensures Part(h, Grouped(h, g, p, a, b), parents + [p], cuts + [b], b)
  {
    var v, g', parents', cuts' := h[null], Grouped(h, g, p, a, b), parents + [p], cuts + [b];
    BTreeShape.Children(h, recs, null);
    forall i: nat | i < |parents'| ensures ParentAt(h, g', parents', cuts', i) {
      if i < |parents| {
        assert ParentAt(h, g, parents, cuts, i);
        assert Child(parents[i]) !in v.ptrs[a..b];
      }
    }
    forall i: nat, j: nat | InGroup(cuts', i, j) ensures Adopted(h, g', parents'[i], j) {
      PartAdopted(h, g, recs, parents, cuts, p, a, b, i, j);
    }
    forall j: nat | b <= j < |v.ptrs| ensures Waits(h, g', j) {
      assert Waits(h, g, j);
      PartApart(h, recs, a, b, j);
    }
    forall x: Node | x in h && h[x].parent != null ensures g'[x] == h[x] {
      assert Child(x) !in v.ptrs[a..b];
    }
    assert forall x: Node :: x in parents' <==> x in parents || x == p;
  }

  lemma PartAdopted(h: Heap, g: Heap, recs: Recs, parents: seq<Node>, cuts: seq<nat>, p: Node, a: nat, b: nat, i: nat,
      j: nat)
    requires WellFormed(h, recs) && Part(h, g, parents, cuts, a) && p !in g && a < b <= |h[null].ptrs|
    requires InGroup(cuts + [b], i, j)
    ensures Adopted(h, Grouped(h, g, p, a, b), (parents + [p])[i], j)
  {
    var v := h[null];
    BTreeShape.Children(h, recs, null);
    if i < |parents| {
      assert InGroup(cuts, i, j) && Adopted(h, g, parents[i], j);
      assert cuts[i + 1] <= cuts[|cuts| - 1];
      PartApart(h, recs, a, b, j);
    } else {
      assert v.ptrs[a..b][j - a] == v.ptrs[j];
      assert Waits(h, g, j);
    }
  }

  // A child outside a..b is not among the children a..b.
  lemma PartApart(h: Heap, recs: Recs, a: nat, b: nat, j: nat)
    requires WellFormed(h, recs) && a < b <= |h[null].ptrs| && j < |h[null].ptrs| && !(a <= j < b)
    ensures h[null].ptrs[j] !in h[null].ptrs[a..b]
  {
    var v := h[null];
    if v.ptrs[j] in v.ptrs[a..b] {
      var i :| 0 <= i < b - a && v.ptrs[a..b][i] == v.ptrs[j];
      SlotUnique(h, recs, null, a + i, j);
    }
  }

  lemma PartDone(h: Heap, g: Heap, recs: Recs, parents: seq<Node>, cuts: seq<nat>)
    requires WellFormed(h, recs) && Part(h, g, parents, cuts, |h[null].ptrs|)
    ensures Cuts(cuts, |h[null].ptrs|)
    ensures Levelled(h, g[null := Sentinel(Between(h[null], cuts), parents, h[null].height + 1)], parents, cuts)
  {
    assert Good(h, recs, null);
    assert Cuts(cuts, |h[null].ptrs|);
    var h' := g[null := Sentinel(Between(h[null], cuts), parents, h[null].height + 1)];
    forall i: nat | i < |parents| ensures parents[i] !in h && h'[parents[i]] == ParentVal(h[null], cuts, i) {
      assert ParentAt(h, g, parents, cuts, i);
    }
    forall i: nat, j: nat | InGroup(cuts, i, j) ensures Adopted(h, h', parents[i], j) {
      assert Adopted(h, g, parents[i], j);
    }
  }

  // The nodes of h are in memory as they were, except for their parents.
  ghost predicate SameButParent(h: Heap, g: Heap) {
    forall x: Node {:trigger h[x]} {:trigger g[x]} :: x in h ==> x in g && g[x] == h[x].(parent := g[x].parent)
  }

  // The first key below a node: the separator to its left
  method FirstKeyBelow(t: Tree, c: Node, ghost h: Heap, ghost recs: Recs) returns (key: nat)
    requires t.Nodes() && WellFormed(h, recs) && Tight(h) && SameButParent(h, t.heap) && c in h && h[c].lo > 0
    ensures key == h[c].lo
  {
    var temp := c;
    assert t.heap[temp] == h[temp].(parent := t.heap[temp].parent) && t.Mirrors(temp);
    while !temp.isLeaf
      invariant temp in h && h[temp].lo == h[c].lo && h[temp].isLeaf == temp.isLeaf && t.Mirrors(temp)
      decreases h[temp].height
    {
      assert Good(h, recs, temp) && Edge(h, temp, 0);
      assert t.heap[temp] == h[temp].(parent := t.heap[temp].parent);
      temp := temp.pointers[0].node;
      assert t.heap[temp] == h[temp].(parent := t.heap[temp].parent) && t.Mirrors(temp);
    }
    assert t.heap[temp] == h[temp].(parent := t.heap[temp].parent);
    assert FirstKey(h, temp);
    key := temp.keys[0];
  }

  method StartParent(t: Tree, p: Node, c: Node, ghost lo: nat, ghost hi: nat, ghost height: nat)
    requires t.Nodes() && p in t.heap && !t.heap[p].isLeaf && t.heap[p].keys == []
    modifies t`heap, p, p.pointers
    ensures t.Nodes()
    ensures t.heap == old(t.heap)[p := NodeVal(false, [], [Child(c)], Nil, old(t.heap[p].parent), lo, hi, height)]
  {
    assert t.Mirrors(p);
    assert p.keys[..p.numKeys] == [];
    p.FirstChild(Child(c), lo, hi, height);
    t.heap := t.heap[p := p.View()];
    forall n: Node | n in t.heap ensures t.Mirrors(n) {
      if n != p { assert old(t.Mirrors(n)) && n.Apart(p); }
    }
  }

  method ExtendParent(t: Tree, p: Node, sep: nat, c: Node, ghost hi: nat)
    requires t.Nodes() && p in t.heap && !t.heap[p].isLeaf && |t.heap[p].keys| < t.order - 1
    modifies t`heap, p, p.keys, p.pointers
    ensures t.Nodes() && var v := old(t.heap[p]);
        t.heap == old(t.heap)[p := v.(keys := v.keys + [sep], ptrs := v.ptrs + [Child(c)], hi := hi)]
  {
    assert t.Mirrors(p);
    p.AppendChild(sep, Child(c), hi);
    t.heap := t.heap[p := p.View()];
    forall n: Node | n in t.heap ensures t.Mirrors(n) {
      if n != p { assert old(t.Mirrors(n)) && n.Apart(p); }
    }
  }

  lemma PartSame(h: Heap, g: Heap, recs: Recs, parents: seq<Node>, cuts: seq<nat>, done: nat)
    requires WellFormed(h, recs) && Part(h, g, parents, cuts, done)
    ensures SameButParent(h, g)
  {
    forall x: Node | x in h ensures x in g && g[x] == h[x].(parent := g[x].parent) {
      if h[x].parent == null {
        var j := FindSlot(h, recs, x);
        if j < done {
          var i := GroupOf(cuts, j, |cuts| - 1);
          assert Adopted(h, g, parents[i], j);
        } else {
          assert Waits(h, g, j);
        }
      }
    }
  }

  lemma GroupedSame(h: Heap, g: Heap, p: Node, a: nat, b: nat)
    requires null in h && |h[null].ptrs| == |h[null].keys| + 1 && a < b <= |h[null].ptrs| && SameButParent(h, g)
    requires p !in g
    ensures SameButParent(h, Grouped(h, g, p, a, b))
  {
  }

  lemma GroupedFirst(h: Heap, g: Heap, recs: Recs, p: Node, a: nat, x: NodeVal)
    requires WellFormed(h, recs) && |h[null].ptrs| == |h[null].keys| + 1 && a < |h[null].ptrs| && SameButParent(h, g)
    requires p !in g
    requires h[null].ptrs[a].Child? && h[null].ptrs[a].node in h
    ensures var v := h[null]; var c := v.ptrs[a].node;
      g[p := x][p := ParentOf(v, a, a + 1)][c := g[c].(parent := p)] == Grouped(h, g, p, a, a + 1)
  {
    var v := h[null];
    var c := v.ptrs[a].node;
    assert g[c] == h[c].(parent := g[c].parent);
    assert v.ptrs[a..a + 1] == [Child(c)];
  }

  lemma ParentMore(v: NodeVal, a: nat, c: nat)
    requires |v.ptrs| == |v.keys| + 1 && a < c < |v.ptrs|
    ensures var w := ParentOf(v, a, c);
      w.(keys := w.keys + [v.keys[c - 1]], ptrs := w.ptrs + [v.ptrs[c]], hi := Hi(v, c)) == ParentOf(v, a, c + 1)
  {
    assert v.ptrs[a..c + 1] == v.ptrs[a..c] + [v.ptrs[c]];
    assert v.keys[a..c] == v.keys[a..c - 1] + [v.keys[c - 1]];
  }

  lemma AdoptMore(g: Heap, ptrs: seq<Ptr>, p: Node, a: nat, c: nat, k: Node)
    requires a <= c < |ptrs| && ptrs[c] == Child(k) && k in g
    ensures Adopt(g, ptrs[a..c + 1], p) == Adopt(g, ptrs[a..c], p)[k := Adopt(g, ptrs[a..c], p)[k].(parent := p)]
  {
    assert ptrs[a..c + 1] == ptrs[a..c] + [ptrs[c]];
  }

  lemma GroupedMore(h: Heap, g: Heap, p: Node, a: nat, c: nat)
    requires null in h && |h[null].ptrs| == |h[null].keys| + 1 && a < c < |h[null].ptrs| && p !in g
    requires h[null].ptrs[c].Child? && h[null].ptrs[c].node in g
    ensures var v, q := h[null], Grouped(h, g, p, a, c);
      var k, w := v.ptrs[c].node, ParentOf(v, a, c);
      && k in q && k != p
      && w.(keys := w.keys + [v.keys[c - 1]], ptrs := w.ptrs + [v.ptrs[c]], hi := Hi(v, c)) == ParentOf(v, a, c + 1)
      && q[p := ParentOf(v, a, c + 1)][k := q[k].(parent := p)] == Grouped(h, g, p, a, c + 1)
  {
    ParentMore(h[null], a, c);
    AdoptMore(g, h[null].ptrs, p, a, c, h[null].ptrs[c].node);
  }

  /** One parent: the next children of the level, with the first key below each but the first as separator */
  method MakeParent(t: Tree, level: seq<Node>, a: nat, b: nat, ghost h: Heap, ghost recs: Recs) returns (p: Node)
    requires t.Nodes() && WellFormed(h, recs) && Tight(h) && SameButParent(h, t.heap)
    requires forall x: Node :: x in h ==> x in t.heap
    requires h[null].ptrs == AsChildren(level) && a < b <= |level| && b - a <= t.order
    modifies t`heap, t`mem, t.mem
    ensures |h[null].ptrs| == |h[null].keys| + 1
    ensures t.Nodes() && p !in old(t.heap) && fresh(t.mem - old(t.mem)) && old(t.mem) <= t.mem
    ensures t.heap == Grouped(h, old(t.heap), p, a, b)
  {
    ghost var g := t.heap;
    p := NewParent(t, level, a, h, recs);
    var c := a + 1;
    while c < b
      invariant a < c <= b && t.Nodes() && fresh(t.mem - old(t.mem)) && old(t.mem) <= t.mem && p in t.mem
      invariant p.keys in t.mem && p.pointers in t.mem
      invariant t.heap == Grouped(h, g, p, a, c)
    {
      AddChild(t, p, level, a, c, h, g, recs);
      c := c + 1;
    }
  }

  method NewParent(t: Tree, level: seq<Node>, a: nat, ghost h: Heap, ghost recs: Recs) returns (p: Node)
    requires t.Nodes() && WellFormed(h, recs) && SameButParent(h, t.heap) && h[null].ptrs == AsChildren(level)
    requires a < |level|
    modifies t`heap, t`mem, t.mem
    ensures |h[null].ptrs| == |h[null].keys| + 1
    ensures t.Nodes() && p !in old(t.heap) && fresh(t.mem - old(t.mem)) && old(t.mem) <= t.mem
    ensures p in t.mem && p.keys in t.mem && p.pointers in t.mem
    ensures t.heap == Grouped(h, old(t.heap), p, a, a + 1)
  {
    ghost var g, v := t.heap, h[null];
    assert Good(h, recs, null);
    BTreeShape.Children(h, recs, null);
    p := t.NewNode(false);
    assert t.Mirrors(p);
    ghost var x := t.heap[p];
    GroupedFirst(h, g, recs, p, a, x);
    StartParent(t, p, level[a], Lo(v, a), Hi(v, a), v.height);
    assert v.ptrs[a].node == level[a] && t.Mirrors(level[a]);
    assert v.keys[a..a] == [] && v.ptrs[a..a + 1] == [Child(level[a])];
    t.SetParent(level[a], p);
    assert t.Mirrors(p);
  }

  method AddChild(t: Tree, p: Node, level: seq<Node>, a: nat, c: nat, ghost h: Heap, ghost g: Heap, ghost recs: Recs)
    requires t.Nodes() && WellFormed(h, recs) && Tight(h) && SameButParent(h, g)
    requires (forall x: Node :: x in h ==> x in g) && p !in g
    requires h[null].ptrs == AsChildren(level) && a < c < |level| && c - a < t.order
    requires |h[null].ptrs| == |h[null].keys| + 1
    requires t.heap == Grouped(h, g, p, a, c) && p in t.mem && p.keys in t.mem && p.pointers in t.mem
    modifies t`heap, t.mem
    ensures t.Nodes() && t.heap == Grouped(h, g, p, a, c + 1)
  {
    ghost var v := h[null];
    BTreeShape.Children(h, recs, null);
    assert Good(h, recs, null) && Edge(h, null, c) && v.ptrs[c].node == level[c];
    GroupedSame(h, g, p, a, c);
    GroupedMore(h, g, p, a, c);
    var sep := FirstKeyBelow(t, level[c], h, recs);
    ExtendParent(t, p, sep, level[c], Hi(v, c));
    assert t.Mirrors(level[c]);
    t.SetParent(level[c], p);
  }

  // Grouping a level whose groups have at most `order` children, and two unless nodes may be empty
  lemma LevelledSized(h: Heap, h': Heap, recs: Recs, parents: seq<Node>, cuts: seq<nat>, order: nat, fill: Fill)
    requires order >= 3 && WellFormed(h, recs) && Levelled(h, h', parents, cuts) && !fill.HalfFull?
    requires Sized(h, order, fill, null)
    requires Even(cuts, order, |h[null].ptrs|) && (!fill.AtMost? ==> |h[null].ptrs| % order != 1)
    ensures null in h' && Sized(h', order, fill, null)
  {
    forall x: Node | x in h' ensures Fits(h', order, fill, x) {
      if x in parents {
        var i: nat :| i < |parents| && parents[i] == x;
        assert h'[parents[i]] == ParentVal(h[null], cuts, i);
        assert cuts[i] < cuts[i + 1] <= cuts[|cuts| - 1];
        GroupSize(i, order, |h[null].ptrs|);
      } else {
        assert Fits(h, order, fill, x);
        LevelledKeys(h, h', recs, parents, cuts, x);
      }
    }
  }

  lemma LevelledKeys(h: Heap, h': Heap, recs: Recs, parents: seq<Node>, cuts: seq<nat>, x: Node)
    requires WellFormed(h, recs) && Levelled(h, h', parents, cuts) && x in h
    ensures x in h' && h'[x] == h[x].(parent := h'[x].parent) && h'[x].parent != null
  {
    if h[x].parent == null {
      var j := FindSlot(h, recs, x);
      var i := GroupOf(cuts, j, |cuts| - 1);
      assert Adopted(h, h', parents[i], j);
    }
  }

  // Where the last child of the sentinel starts
  ghost function LastStart(h: Heap): nat
    requires null in h
  {
    if h[null].keys == [] then 0 else h[null].keys[|h[null].keys| - 1]
  }

  // x, if any, is a node without keys at the end of its level, and not the only node of it.
  ghost predicate Runt(h: Heap, x: Option<Node>) {
    null in h && (x.Some? ==>
      && x.value in h && !h[x.value].isLeaf && h[x.value].keys == [] && h[x.value].hi == KEY_LIMIT
      && (h[x.value].parent != null || |h[null].ptrs| > 1))
  }

  // The node left over on a level becomes the only child of a node without keys.
  lemma LevelledRunt(h: Heap, h': Heap, recs: Recs, parents: seq<Node>, cuts: seq<nat>, order: nat) returns (x: Node)
    requires order >= 3 && WellFormed(h, recs) && Levelled(h, h', parents, cuts) && Even(cuts, order, |h[null].ptrs|)
    requires |h[null].ptrs| > 1 && |h[null].ptrs| % order == 1 && |parents| == Groups(|h[null].ptrs|, order)
    ensures Runt(h', Some(x)) && h'[x].lo == LastStart(h)
  {
    var g := |parents|;
    LastGroup(order, |h[null].ptrs|, g);
    x := parents[g - 1];
    assert h'[parents[g - 1]] == ParentVal(h[null], cuts, g - 1);
    assert cuts[g - 1] == |h[null].ptrs| - 1 && cuts[g] == |h[null].ptrs|;
    assert Good(h, recs, null);
  }

  // The sentinel over the nodes of a finished level
  ghost predicate Over(h: Heap, level: seq<Node>) {
    null in h && h[null].ptrs == AsChildren(level) && h[null].next == Nil
  }

  /** One level more: every `order` nodes get a parent, and fewer nodes remain. */
  method BuildLevel(t: Tree, level: seq<Node>, ghost recs: Recs, ghost runt: Option<Node>)
    returns (parents: seq<Node>, ghost runt': Option<Node>)
    requires t.Nodes() && WellFormed(t.heap, recs) && Tight(t.heap) && Over(t.heap, level) && |level| > 1
    requires Filled(t.heap, t.order, t.fill, runt) && (!t.fill.AtMost? ==> |level| % t.order != 1)
    modifies t`heap, t`mem, t.mem
    ensures t.Nodes() && fresh(t.mem - old(t.mem)) && old(t.mem) <= t.mem
    ensures WellFormed(t.heap, recs) && Tight(t.heap) && Over(t.heap, parents) && 1 <= |parents| < |level|
    ensures |parents| == Groups(|level|, t.order) && Filled(t.heap, t.order, t.fill, runt')
    ensures runt'.Some? <==> |level| % t.order == 1 || runt.Some?
    ensures Passes(old(t.heap), t.heap, runt, runt')
  {
    ghost var h, cuts := t.heap, [0];
    PartStart(h, recs);
    var m, idx, i := |level|, 0, 0;
    var numParents := (m + t.order - 1) / t.order;
    GroupCount(m, t.order, numParents, 0);
    parents := [];
    while i < numParents
      invariant 0 <= i <= numParents && idx == Least(i * t.order, m) && |parents| == i
      invariant t.Nodes() && fresh(t.mem - old(t.mem)) && old(t.mem) <= t.mem
      invariant Part(h, t.heap, parents, cuts, idx) && Even(cuts, t.order, m)
    {
      GroupCount(m, t.order, numParents, i);
      assert (i + 1) * t.order == i * t.order + t.order;
      PartSame(h, t.heap, recs, parents, cuts, idx);
      ghost var g := t.heap;
      var upto := Least(idx + t.order, m);
      var p := MakeParent(t, level, idx, upto, h, recs);
      PartStep(h, g, recs, parents, cuts, p, idx, upto);
      parents, cuts, idx, i := parents + [p], cuts + [upto], upto, i + 1;
    }
    runt' := FinishLevel(t, parents, h, cuts, recs, runt);
  }

  // The nodes have legal numbers of keys, and x, if any, has none.
  ghost predicate Filled(h: Heap, order: nat, fill: Fill, x: Option<Node>) {
    order >= 3 && null in h && !fill.HalfFull? && Sized(h, order, fill, null) && Runt(h, x)
  }

  // A node without keys stays; a new one stands over the last node of the level below.
  ghost predicate Passes(h: Heap, h': Heap, x: Option<Node>, x': Option<Node>) {
    && null in h && (x.Some? ==> x' == x && x.value in h && x.value in h' && h'[x.value].lo == h[x.value].lo)
    && (x.None? && x'.Some? ==> x'.value in h' && h'[x'.value].lo == LastStart(h))
  }

  ghost method FinishLevel(t: Tree, parents: seq<Node>, h: Heap, cuts: seq<nat>, recs: Recs, runt: Option<Node>)
    returns (runt': Option<Node>)
    requires t.Nodes() && WellFormed(h, recs) && Tight(h) && Part(h, t.heap, parents, cuts, |h[null].ptrs|)
    requires Filled(h, t.order, t.fill, runt) && Even(cuts, t.order, |h[null].ptrs|) && |h[null].ptrs| > 1
    requires !t.fill.AtMost? ==> |h[null].ptrs| % t.order != 1
    requires |parents| == Groups(|h[null].ptrs|, t.order)
    modifies t`heap
    ensures t.Nodes() && WellFormed(t.heap, recs) && Tight(t.heap) && Over(t.heap, parents)
    ensures Filled(t.heap, t.order, t.fill, runt')
    ensures runt'.Some? <==> |h[null].ptrs| % t.order == 1 || runt.Some?
    ensures Passes(h, t.heap, runt, runt')
  {
    PartDone(h, t.heap, recs, parents, cuts);
    var h' := t.heap[null := Sentinel(Between(h[null], cuts), parents, h[null].height + 1)];
    t.Rebase(h');
    LevelledOK(h, h', recs, parents, cuts);
    LevelledSized(h, h', recs, parents, cuts, t.order, t.fill);
    runt' := runt;
    if runt.Some? {
      LevelledKeys(h, h', recs, parents, cuts, runt.value);
    } else if |h[null].ptrs| % t.order == 1 {
      var x := LevelledRunt(h, h', recs, parents, cuts, t.order);
      runt' := Some(x);
    }
  }

  ghost function Loaded(keys: seq<nat>, rs: seq<Record>): (recs: Recs)
    requires |keys| == |rs| && Increasing(keys)
    ensures Pairs(recs, keys, rs)
  {
    map j | 0 <= j < |keys| :: keys[j] := rs[j]
  }

  /** bulk_load: the tree stands for the map given by the input, also where the last node of a level has a single
      child. It has a node without keys exactly if some level has one node left over; `runt` is then one, at the end of
      its level, and stands over the last leaf if that is the node left over. */
  method BulkLoad(order: nat, input: array<nat>, records: array<Record>, n: nat)
    returns (t: Tree, ghost runt: Option<Node>)
    requires order >= 3 && n <= input.Length == records.Length && Increasing(input[..n])
    ensures fresh(t) && fresh(t.mem) && t.Inv() == true && t.order == order
    ensures Pairs(t.recs, input[..n], records[..n]) == true && (t.root == null <==> n == 0)
    ensures var even := Branches(order, Groups(n, order - 1));
      && t.fill == (if even then NonEmpty else AtMost)
      && (n > 0 ==> null in t.heap && (Sized(t.heap, order, NonEmpty, null) <==> even))
    ensures LeftOver(t.heap, order, input[..n], runt) == true
  {
    ghost var even := Branches(order, Groups(n, order - 1));
    runt := None;
    t := new Tree(order, if even then NonEmpty else AtMost);
    if n == 0 {
      NoLeaves(order - 1);
    } else {
      runt := LoadSome(t, input, records, n);
    }
  }

  lemma NoLeaves(k: nat)
    requires k > 0
    ensures Groups(0, k) == 0
  {
    Unique(k - 1, 0, k - 1, k);
  }

  method LoadSome(t: Tree, input: array<nat>, records: array<Record>, n: nat) returns (ghost runt: Option<Node>)
    requires t.Nodes() && t.heap == map[] && t.mem == {} && 0 < n <= input.Length == records.Length
    requires Increasing(input[..n])
    requires t.fill == if Branches(t.order, Groups(n, t.order - 1)) then NonEmpty else AtMost
    modifies t, t.mem
    ensures fresh(t.mem) && t.Inv() == true && t.root != null
    ensures Pairs(t.recs, input[..n], records[..n]) == true && null in t.heap
    ensures Sized(t.heap, t.order, NonEmpty, null) <==> Branches(t.order, Groups(n, t.order - 1))
    ensures LeftOver(t.heap, t.order, input[..n], runt) == true
  {
    ghost var recs := Loaded(input[..n], records[..n]);
    var level := LeafLevel(t, input, records, n, recs);
    var root;
    root, runt := BuildLevels(t, level, recs);
    t.root, t.recs := root, recs;
  }

  // The leaves as a level of their own
  method LeafLevel(t: Tree, input: array<nat>, records: array<Record>, n: nat, ghost recs: Recs)
    returns (level: seq<Node>)
    requires t.Nodes() && t.heap == map[] && t.mem == {} && 0 < n <= input.Length == records.Length
    requires Increasing(input[..n]) && Pairs(recs, input[..n], records[..n]) && !t.fill.HalfFull?
    modifies t`heap, t`mem, t.mem
    ensures t.Nodes() == true && fresh(t.mem) && |level| == Groups(n, t.order - 1)
    ensures WellFormed(t.heap, recs) == true && Tight(t.heap) && Over(t.heap, level)
    ensures Filled(t.heap, t.order, t.fill, None)
    ensures LastAlone(t.order, n) ==> LastStart(t.heap) == input[LastLeaf(t.order, n)]
  {
    ghost var keys, rs := input[..n], records[..n];
    ghost var cuts;
    level, cuts := BuildLeaves(t, input, records, n);
    LeafRowOK(t.heap, recs, keys, rs, level, cuts);
    LeafRowSized(t.heap, keys, rs, level, cuts, t.order, t.fill);
    if LastAlone(t.order, n) { LastLeafStart(t.heap, keys, rs, level, cuts, t.order); }
  }

  /** There is a node without keys exactly if some level has a node left over; runt is then one, below the root and at
      the end of its level. If the last leaf is left over, runt stands over it. */
  ghost predicate LeftOver(h: Heap, order: nat, keys: seq<nat>, runt: Option<Node>)
    requires order >= 3
  {
    && (runt.None? <==> Branches(order, Groups(|keys|, order - 1)))
    && (runt.Some? ==> Keyless(h, runt.value) && h[runt.value].hi == KEY_LIMIT)
    && (LastAlone(order, |keys|) ==> runt.Some? && keys != [] && h[runt.value].lo == keys[LastLeaf(order, |keys|)])
  }

  // The position of the first entry of the last leaf
  function LastLeaf(order: nat, n: nat): (i: nat)
    requires order >= 3 && n > 0
    ensures i < n
  {
    GroupCount(n, order - 1, Groups(n, order - 1), Groups(n, order - 1) - 1);
    (Groups(n, order - 1) - 1) * (order - 1)
  }

  // The last leaf is the only child of its parent.
  predicate LastAlone(order: nat, n: nat)
    requires order >= 3
  {
    Groups(n, order - 1) > 1 && Groups(n, order - 1) % order == 1
  }

  lemma LastLeafStart(h: Heap, keys: seq<nat>, rs: seq<Record>, leaves: seq<Node>, cuts: seq<nat>, order: nat)
    requires order >= 3 && LeafRow(h, keys, rs, leaves, cuts) && Even(cuts, order - 1, |keys|)
    requires LastAlone(order, |keys|) && |leaves| == Groups(|keys|, order - 1)
    ensures |keys| > 0 && LastStart(h) == keys[LastLeaf(order, |keys|)]
  {
    var m := |leaves|;
    assert |keys| > 0 by { assert cuts[0] < cuts[|cuts| - 1]; }
    GroupCount(|keys|, order - 1, m, m - 1);
    assert cuts[m - 1] == Boundary(m - 1, order - 1, |keys|);
  }

  // Levels are put on top of each other until a single node is left, the root.
  method BuildLevels(t: Tree, leaves: seq<Node>, ghost recs: Recs) returns (root: Node, ghost runt: Option<Node>)
    requires t.Nodes() == true && leaves != [] && WellFormed(t.heap, recs) == true
    requires Tight(t.heap) && Over(t.heap, leaves)
    requires Filled(t.heap, t.order, t.fill, None)
    requires t.fill == if Branches(t.order, |leaves|) then NonEmpty else AtMost
    modifies t`heap, t`mem, t.mem
    ensures t.Nodes() && fresh(t.mem - old(t.mem)) && old(t.mem) <= t.mem && WellFormed(t.heap, recs)
    ensures root in t.heap
    ensures t.heap[null] == NodeVal(false, [], [Child(root)], Nil, null, 0, KEY_LIMIT, t.heap[root].height + 1)
    ensures Sized(t.heap, t.order, t.fill, null)
    ensures Sized(t.heap, t.order, NonEmpty, null) <==> Branches(t.order, |leaves|)
    ensures runt.None? <==> Branches(t.order, |leaves|)
    ensures runt.Some? ==> Keyless(t.heap, runt.value) && t.heap[runt.value].hi == KEY_LIMIT
    ensures |leaves| > 1 && |leaves| % t.order == 1 ==> runt.Some? && t.heap[runt.value].lo == LastStart(old(t.heap))
  {
    runt := None;
    var level := leaves;
    while |level| > 1
      invariant 1 <= |level| <= |leaves| && t.Nodes() && fresh(t.mem - old(t.mem)) && old(t.mem) <= t.mem
      invariant WellFormed(t.heap, recs) && Tight(t.heap) && Over(t.heap, level)
      invariant Filled(t.heap, t.order, t.fill, runt)
      invariant Branches(t.order, |leaves|) <==> runt.None? && Branches(t.order, |level|)
      invariant |level| == |leaves| ==> t.heap == old(t.heap) && runt.None?
      invariant |level| < |leaves| && |leaves| % t.order == 1 ==>
        runt.Some? && t.heap[runt.value].lo == LastStart(old(t.heap))
      decreases |level|
    {
      level, runt := BuildLevel(t, level, recs, runt);
    }
    Single(t.heap, recs, level);
    root := level[0];
    RuntEmpty(t.heap, t.order, runt);
  }

  lemma RuntEmpty(h: Heap, order: nat, x: Option<Node>)
    requires order >= 3 && null in h && (x.Some? ==> x.value in h && h[x.value].keys == [])
    ensures x.Some? ==> !Sized(h, order, NonEmpty, null)
  {
    if x.Some? { assert Sized(h, order, NonEmpty, null) ==> Fits(h, order, NonEmpty, x.value); }
  }

  lemma Single(h: Heap, recs: Recs, level: seq<Node>)
    requires WellFormed(h, recs) && Over(h, level) && |level| == 1
    ensures level[0] in h
    ensures h[null] == NodeVal(false, [], [Child(level[0])], Nil, null, 0, KEY_LIMIT, h[level[0]].height + 1)
  {
    assert Good(h, recs, null) && Edge(h, null, 0);
  }

  lemma {:induction false} SameSorted(a: seq<nat>, b: seq<nat>)
    requires forall i, j :: 0 <= i < j < |a| ==> a[i] < a[j]
    requires forall i, j :: 0 <= i < j < |b| ==> b[i] < b[j]
    requires forall k :: k in a <==> k in b
    ensures a == b
  {
    assert (a != [] ==> a[0] in a) && (b != [] ==> b[0] in b);
    if a != [] && b != [] {
      assert a[0] in b && b[0] in a && a[0] == b[0];
      assert a == [a[0]] + a[1..] && b == [b[0]] + b[1..];
      assert a[0] !in a[1..] && b[0] !in b[1..];
      forall k: nat ensures k in a[1..] <==> k in b[1..] {
        assert k in a <==> k == a[0] || k in a[1..];
        assert k in b <==> k == b[0] || k in b[1..];
      }
      SameSorted(a[1..], b[1..]);
    }
  }

  /** On a bulk-loaded tree find agrees with looking the key up in the input, and the leaf chain is the input
      in order. */
  method LoadAndQuery(order: nat, input: array<nat>, records: array<Record>, n: nat, key: nat)
      returns (r: Record?, chain: seq<nat>)
    requires order >= 3 && n <= input.Length == records.Length && Increasing(input[..n]) && key < KEY_LIMIT
    ensures forall j :: 0 <= j < n && input[j] == key ==> r == records[j]
    ensures (forall j :: 0 <= j < n ==> input[j] != key) ==> r == null
    ensures chain == input[..n]
  {
    var t, runt := BulkLoad(order, input, records, n);
    ghost var keys := input[..n];
    assert forall j :: 0 <= j < n ==> keys[j] == input[j];
    var leaf;
    r, leaf := t.Find(key);
    chain := t.Leaves();
    SameSorted(chain, keys);
  }

  // ---------- working on a loaded tree ----------

  // The map the input stands for, with the values the records have
  ghost predicate Describes(m: map<nat, nat>, keys: seq<nat>, rs: seq<Record>)
    reads set r | r in rs
  {
    && |keys| == |rs| && (forall k :: k in m ==> k in keys)
    && (forall j {:trigger rs[j]} :: 0 <= j < |keys| ==> keys[j] in m && rs[j] in rs && m[keys[j]] == rs[j].value)
  }

  ghost predicate NoTwice(rs: seq<Record>) {
    forall i, j :: 0 <= i < j < |rs| ==> rs[i] != rs[j]
  }

  lemma PairsIn(recs: Recs, keys: seq<nat>, rs: seq<Record>)
    requires Increasing(keys) && Pairs(recs, keys, rs)
    ensures forall k :: k in recs ==> k < KEY_LIMIT && recs[k] in rs
  {
    forall k | k in recs ensures k < KEY_LIMIT && recs[k] in rs {
      var j :| 0 <= j < |keys| && keys[j] == k;
    }
  }

  lemma PairsApart(recs: Recs, keys: seq<nat>, rs: seq<Record>)
    requires Increasing(keys) && Pairs(recs, keys, rs) && NoTwice(rs)
    ensures forall j, k :: j in recs && k in recs && j != k ==> recs[j] != recs[k]
  {
    forall j, k | j in recs && k in recs && j != k ensures recs[j] != recs[k] {
      var a :| 0 <= a < |keys| && keys[a] == j;
      var b :| 0 <= b < |keys| && keys[b] == k;
      assert recs[j] == rs[a] && recs[k] == rs[b];
    }
  }

  lemma ContentsAre(t: Tree, keys: seq<nat>, rs: seq<Record>, m: map<nat, nat>)
    requires Pairs(t.recs, keys, rs) && Describes(m, keys, rs)
    ensures t.Contents() == m
  {
    var c := t.Contents();
    forall k | k in c ensures k in m && m[k] == c[k] {
      var j :| 0 <= j < |keys| && keys[j] == k;
      assert rs[j] == t.recs[k];
    }
  }

  method LoadValid(order: nat, input: array<nat>, records: array<Record>, n: nat, ghost m: map<nat, nat>)
    returns (t: Tree, ghost runt: Option<Node>)
    requires order >= 3 && n <= input.Length == records.Length && Increasing(input[..n]) && NoTwice(records[..n])
    requires Describes(m, input[..n], records[..n])
    ensures t.Valid() == true && t.order == order && fresh(t.Repr() - set r | r in records[..n]) && t.Contents() == m
    ensures t.fill == (if Branches(order, Groups(n, order - 1)) then NonEmpty else AtMost)
    ensures LeftOver(t.heap, order, input[..n], runt) == true
  {
    t, runt := BulkLoad(order, input, records, n);
    PairsIn(t.recs, input[..n], records[..n]);
    PairsApart(t.recs, input[..n], records[..n]);
    ContentsAre(t, input[..n], records[..n], m);
  }

  /** Insertions, lookups and deletions on a bulk-loaded tree, in any order, answer as the plain finite map does, up to
      the first deletion that cannot be completed. There is none if no node was loaded with a single child. */
  method LoadAndRun(order: nat, input: array<nat>, records: array<Record>, n: nat, ghost m: map<nat, nat>, ops: seq<Op>)
    returns (answers: seq<Answer>, done: bool)
    requires order >= 3 && n <= input.Length == records.Length && Increasing(input[..n]) && NoTwice(records[..n])
    requires Describes(m, input[..n], records[..n]) && AllAllowed(m, ops)
    modifies set r | r in records[..n]
    ensures answers <= Answers(m, ops) && (done ==> answers == Answers(m, ops))
    ensures !done ==> |answers| < |ops| && ops[|answers|].Remove?
    ensures Branches(order, Groups(n, order - 1)) || NoRemoval(ops) ==> done
  {
    var t, runt := LoadValid(order, input, records, n, m);
    answers, done := RunOn(t, ops);
  }

  // The keys of the map are the first i of the input.
  ghost predicate Left(t: Tree, keys: seq<nat>, i: nat)
    reads t
  {
    i <= |keys| && forall k :: k in t.recs <==> k in keys[..i]
  }

  lemma LoadedLeft(t: Tree, keys: seq<nat>, rs: seq<Record>, m: map<nat, nat>)
    requires t.Contents() == m && Describes(m, keys, rs)
    ensures Left(t, keys, |keys|)
  {
    assert t.recs.Keys == m.Keys && keys[..|keys|] == keys;
    forall k | k in keys ensures k in m {
      var j :| 0 <= j < |keys| && keys[j] == k;
      assert rs[j] in rs;
    }
  }

  // The node without keys is responsible for the largest key.
  lemma LastOwned(t: Tree, keys: seq<nat>, i: nat, w: Node)
    requires t.Inv() && Increasing(keys) && Left(t, keys, i) && Keyless(t.heap, w) && t.heap[w].hi == KEY_LIMIT
    ensures i > 0 && Owns(t.heap[w], keys[i - 1])
  {
    var k := HasKey(t.heap, t.recs, t.order, t.fill, w);
    var j :| 0 <= j < i && keys[j] == k;
  }

  lemma LeftLess(t: Tree, recs: Recs, keys: seq<nat>, i: nat)
    requires Increasing(keys) && 0 < i <= |keys| && (forall k :: k in recs <==> k in keys[..i])
    requires t.recs.Keys == recs.Keys - {keys[i - 1]}
    ensures Left(t, keys, i - 1)
  {
    assert keys[..i] == keys[..i - 1] + [keys[i - 1]];
  }

  /** Deleting the keys of a bulk-loaded tree from the last one to the first gets through if and only if no level has a
      node left over. */
  method LoadAndClear(order: nat, input: array<nat>, records: array<Record>, n: nat, ghost m: map<nat, nat>)
    returns (ok: bool)
    requires order >= 3 && n <= input.Length == records.Length && Increasing(input[..n]) && NoTwice(records[..n])
    requires Describes(m, input[..n], records[..n])
    modifies set r | r in records[..n]
    ensures ok <==> Branches(order, Groups(n, order - 1))
  {
    var t, runt := LoadValid(order, input, records, n, m);
    LoadedLeft(t, input[..n], records[..n], m);
    ok := Clear(t, input[..n], if runt.Some? then runt.value else null);
  }

  // The deletions, while w, if any, is a node without keys at the end of its level
  method Clear(t: Tree, keys: seq<nat>, ghost w: Node?) returns (ok: bool)
    requires t.Valid() == true && Increasing(keys) && Left(t, keys, |keys|)
    requires if w == null then !t.fill.AtMost? else Keyless(t.heap, w) && t.heap[w].hi == KEY_LIMIT
    modifies t.Repr()
    ensures ok <==> w == null
  {
    var i := |keys|;
    while i > 0
      invariant 0 <= i <= |keys| && t.Valid() == true && t.Repr() <= old(t.Repr()) && Left(t, keys, i)
      invariant w != null ==> Keyless(t.heap, w) && t.heap[w].hi == KEY_LIMIT
    {
      i := i - 1;
      ok := DeleteLast(t, keys, i, w);
      if !ok {
        return;
      }
    }
    if w != null { LastOwned(t, keys, 0, w); }
    ok := true;
  }

  method DeleteLast(t: Tree, keys: seq<nat>, i: nat, ghost w: Node?) returns (ok: bool)
    requires t.Valid() == true && Increasing(keys) && i < |keys| && Left(t, keys, i + 1)
    requires if w == null then !t.fill.AtMost? else Keyless(t.heap, w) && t.heap[w].hi == KEY_LIMIT
    modifies t.Repr()
    ensures !t.fill.AtMost? ==> ok
    ensures ok ==> t.Valid() == true && t.Repr() <= old(t.Repr()) && Left(t, keys, i)
    ensures ok && w != null ==> w in t.heap && w in old(t.heap) && t.heap[w] == old(t.heap)[w]
  {
    if w != null { LastOwned(t, keys, i + 1, w); }
    ghost var recs := t.recs;
    assert recs.Keys == t.Contents().Keys;
    ok := t.Delete(keys[i], w);
    if ok {
      assert t.recs.Keys == t.Contents().Keys;
      LeftLess(t, recs, keys, i + 1);
    }
  }

  /** delete_entry finds a neighbour for an underfull node exactly if the node's parent has a key. The parent of an only
      child has none, and `pointers[1]` is not one of its children. */
  lemma NeighbourIff(h: Heap, recs: Recs, c: Node)
    requires WellFormed(h, recs) && c in h && h[c].parent != null
    ensures h[c].parent in h
    ensures var p := h[h[c].parent]; (exists d: Node :: d != c && Child(d) in p.ptrs) <==> p.keys != []
  {
    var i := FindSlot(h, recs, c);
    var p := h[c].parent;
    Shape(h, recs, p);
    BTreeShape.Children(h, recs, p);
    if h[p].keys != [] {
      var j := if i == 0 then 1 else 0;
      var d := h[p].ptrs[j].node;
      if d == c { SlotUnique(h, recs, p, i, j); }
      assert h[p].ptrs[j] in h[p].ptrs;
    }
  }

  /** If the last leaf is an only child with a single entry, deleting the last key of the loaded tree cannot be
      completed. */
  method LoadAndDeleteLast(order: nat, input: array<nat>, records: array<Record>, n: nat, ghost m: map<nat, nat>)
    returns (ok: bool)
    requires order >= 3 && n <= input.Length == records.Length && Increasing(input[..n]) && NoTwice(records[..n])
    requires Describes(m, input[..n], records[..n]) && LastAlone(order, n) && LastLeaf(order, n) == n - 1
    modifies set r | r in records[..n]
    ensures !ok
  {
    ghost var keys := input[..n];
    var t, runt := LoadValid(order, input, records, n, m);
    LoadedLeft(t, keys, records[..n], m);
    ok := DeleteLast(t, input[..n], n - 1, runt.value);
    if ok { LastOwned(t, keys, n - 1, runt.value); }
  }

  /** So it is with seven keys in a tree of order 3: they take four leaves, three under one parent and the last one
      under another. */
  method LoadSevenDeleteLast(input: array<nat>, records: array<Record>, ghost m: map<nat, nat>) returns (ok: bool)
    requires input.Length == records.Length == 7 && Increasing(input[..7]) && NoTwice(records[..7])
    requires Describes(m, input[..7], records[..7])
    modifies set r | r in records[..7]
    ensures !ok
  {
    SevenKeys();
    ok := LoadAndDeleteLast(3, input, records, 7, m);
  }

  lemma SevenKeys()
    ensures Groups(7, 2) == 4 && LastAlone(3, 7) && LastLeaf(3, 7) == 6 && !Branches(3, Groups(7, 2))
  {
  }
}
