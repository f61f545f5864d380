/** What a well-formed B+ tree is, and the pure effect of each structural change.

    A heap maps node references to node values. The reference `null` is used as a sentinel
    above the root: its children are the nodes whose parent pointer is NULL. Well-formedness is
    a conjunction of facts local to one node: because every node carries its key range, the
    separator order, the leaf chain and the agreement with the represented map never mention
    anything beyond a node and its direct neighbours.
 */
module BTreeShape {
  import opened Common
  import opened BTreeNode

  type Heap = map<Node?, NodeVal>
  type Recs = map<nat, Record>

  // Bounds of child i of an internal node.
  function Lo(v: NodeVal, i: nat): nat
    requires i <= |v.keys|
  {
    if i == 0 then v.lo else v.keys[i - 1]
  }

  function Hi(v: NodeVal, i: nat): nat
    requires i <= |v.keys|
  {
    if i == |v.keys| then v.hi else v.keys[i]
  }

  predicate Local(v: NodeVal) {
    && v.lo < v.hi <= KEY_LIMIT
    && (forall i :: 0 <= i < |v.keys| ==> v.lo <= v.keys[i] < v.hi && (!v.isLeaf ==> v.lo < v.keys[i]))
    && (forall i, j :: 0 <= i < j < |v.keys| ==> v.keys[i] < v.keys[j])
    && (if v.isLeaf then |v.ptrs| == |v.keys| && v.height == 0
        else |v.ptrs| == |v.keys| + 1 && v.height > 0 && v.next == Nil)
  }

  // Slot i of internal node n holds a child that points back to n, sits one level below and
  // is responsible for exactly the keys between the two separators around the slot.
  ghost predicate Edge(h: Heap, n: Node?, i: nat)
    requires n in h
  {
    var v := h[n];
    && i < |v.ptrs| == |v.keys| + 1
    && v.ptrs[i].Child?
    && var c := v.ptrs[i].node;
    && c in h
    && h[c].parent == n
    && h[c].height + 1 == v.height
    && h[c].lo == Lo(v, i)
    && h[c].hi == Hi(v, i)
  }

  ghost predicate Linked(h: Heap, n: Node?)
    requires n in h
  {
    !h[n].isLeaf ==> forall i: nat :: i < |h[n].ptrs| ==> Edge(h, n, i)
  }

  ghost predicate Hangs(h: Heap, n: Node?)
    requires n in h
  {
    n != null ==>
      h[n].parent in h && !h[h[n].parent].isLeaf && Child(n) in h[h[n].parent].ptrs
  }

  // The chain pointer of a leaf leads to the leaf whose range starts where this one ends.
  ghost predicate Chained(h: Heap, n: Node?)
    requires n in h
  {
    var v := h[n];
    v.isLeaf ==>
      if v.hi == KEY_LIMIT then v.next == Nil
      else v.next.Child? && v.next.node in h && h[v.next.node].isLeaf && h[v.next.node].lo == v.hi
  }

  // A leaf holds exactly the entries of the represented map that fall in its range.
  ghost predicate Holds(recs: Recs, v: NodeVal) {
    v.isLeaf ==>
      && |v.ptrs| == |v.keys|
      && (forall k :: v.lo <= k < v.hi && k in recs ==> k in v.keys)
      && (forall i :: 0 <= i < |v.keys| ==> v.keys[i] in recs && v.ptrs[i] == Rec(recs[v.keys[i]]))
  }

  ghost predicate Good(h: Heap, recs: Recs, n: Node?)
    requires n in h && null in h
  {
    && Local(h[n])
    && Linked(h, n)
    && Hangs(h, n)
    && Chained(h, n)
    && Holds(recs, h[n])
    && h[n].height <= h[null].height
  }

  ghost predicate WellFormed(h: Heap, recs: Recs) {
    && null in h
    && !h[null].isLeaf && h[null].lo == 0 && h[null].hi == KEY_LIMIT && h[null].parent == null
    && forall n {:trigger Good(h, recs, n)} :: n in h ==> Good(h, recs, n)
  }

  // ---------- occupancy ----------

  function MinKeys(order: nat, isLeaf: bool): int
    requires order >= 3
  {
    if isLeaf then Cut(order - 1) else Cut(order) - 1
  }

  // How full the nodes are: half full below the root, as insertion and deletion keep them, or not empty, or, as
  // bulk_load may leave them, not overfull and with a key at least in every leaf
  datatype Fill = AtMost | NonEmpty | HalfFull

  ghost predicate Fits(h: Heap, order: nat, fill: Fill, n: Node?)
    requires order >= 3 && n in h && null in h
  {
    && |h[n].keys| <= order - 1 && (!fill.AtMost? || h[n].isLeaf ==> |h[n].keys| >= 1)
    && (fill.HalfFull? && (h[n].parent != null || h[null].keys != []) ==> MinKeys(order, h[n].isLeaf) <= |h[n].keys|)
  }

  // One key too few
  predicate Short(order: nat, fill: Fill, v: NodeVal)
    requires order >= 3
  {
    |v.keys| < MinKeys(order, v.isLeaf) && (fill.HalfFull? ==> |v.keys| == MinKeys(order, v.isLeaf) - 1)
  }

  // Every node except the sentinel and possibly x has a legal number of keys.
  ghost predicate Sized(h: Heap, order: nat, fill: Fill, x: Node?)
    requires order >= 3 && null in h
  {
    forall n {:trigger Fits(h, order, fill, n)} :: n in h && n != null && n != x ==> Fits(h, order, fill, n)
  }

  // ---------- position of a node in its parent ----------

  ghost predicate SlotOf(h: Heap, n: Node, i: nat) {
    && n in h && h[n].parent in h
    && i < |h[h[n].parent].ptrs|
    && h[h[n].parent].ptrs[i] == Child(n)
  }

  lemma Shape(h: Heap, recs: Recs, n: Node?)
    requires WellFormed(h, recs) && n in h
    ensures |h[n].ptrs| == |h[n].keys| + if h[n].isLeaf then 0 else 1
    ensures h[n].isLeaf ==> forall j :: 0 <= j < |h[n].ptrs| ==> h[n].ptrs[j].Rec?
  {
    assert Good(h, recs, n);
  }

  lemma FindSlot(h: Heap, recs: Recs, n: Node) returns (i: nat)
    requires WellFormed(h, recs) && n in h
    ensures SlotOf(h, n, i) && h[n].parent in h && !h[h[n].parent].isLeaf && Edge(h, h[n].parent, i)
    ensures h[n].height < h[null].height
  {
    assert Good(h, recs, n) && Good(h, recs, h[n].parent);
    i :| i < |h[h[n].parent].ptrs| && h[h[n].parent].ptrs[i] == Child(n);
    assert Edge(h, h[n].parent, i);
  }

  lemma SlotUnique(h: Heap, recs: Recs, p: Node?, i: nat, j: nat)
    requires WellFormed(h, recs) && p in h && !h[p].isLeaf
    requires i < |h[p].ptrs| && j < |h[p].ptrs| && h[p].ptrs[i] == h[p].ptrs[j]
    ensures i == j
  {
    assert Good(h, recs, p);
    assert Edge(h, p, i) && Edge(h, p, j);
  }

  /** Key ranges of nodes at one height are disjoint: at most one node per level owns a key. */
  lemma {:induction false} OwnerUnique(h: Heap, recs: Recs, a: Node?, b: Node?, k: nat)
    requires WellFormed(h, recs) && a in h && b in h
    requires h[a].height == h[b].height
    requires h[a].lo <= k < h[a].hi && h[b].lo <= k < h[b].hi
    ensures a == b
    decreases h[null].height - h[a].height
  {
    if a != null {
      var i := FindSlot(h, recs, a);
      if b != null {
        var j := FindSlot(h, recs, b);
        var p := h[a].parent;
        assert Good(h, recs, p) && Good(h, recs, h[b].parent);
        OwnerUnique(h, recs, p, h[b].parent, k);
      }
    } else if b != null {
      var j := FindSlot(h, recs, b);
    }
  }

  // ---------- splitting a node ----------

  // The children of n that a split at key position s hands to the new sibling.
  predicate Moves(v: NodeVal, n: Node, s: nat, c: NodeVal)
    requires s < |v.keys|
  {
    !v.isLeaf && c.parent == n && v.keys[s] <= c.lo
  }

  // What a split does to a node x other than n and its parent.
  ghost predicate SplitKeeps(h: Heap, h': Heap, n: Node, r: Node, s: nat, x: Node?)
    requires n in h && s < |h[n].keys|
  {
    x in h && x in h' && h'[x] == if Moves(h[n], n, s, h[x]) then h[x].(parent := r) else h[x]
  }

  // h' is h after node n, child i of its parent p, became n and r; the separator moved up to p.
  ghost predicate IsSplit(h: Heap, h': Heap, n: Node, r: Node, s: nat, p: Node?, i: nat) {
    && n in h && p in h && r !in h && p != n && h[n].parent == p
    && Local(h[n]) && s < |h[n].keys| && (h[n].isLeaf ==> 0 < s)
    && !h[p].isLeaf && i < |h[p].ptrs| == |h[p].keys| + 1 && h[p].ptrs[i] == Child(n)
    && h'.Keys == h.Keys + {r}
    && h'[n] == LeftHalf(h[n], s, r)
    && h'[r] == RightHalf(h[n], s)
    && h'[p] == AddEntry(h[p], i, h[n].keys[s], r)
    && (forall x {:trigger SplitKeeps(h, h', n, r, s, x)} :: x in h && x != n && x != p ==>
        SplitKeeps(h, h', n, r, s, x))
  }

  lemma SplitPreserves(h: Heap, h': Heap, recs: Recs, n: Node, r: Node, s: nat, p: Node?, i: nat)
    requires WellFormed(h, recs) && IsSplit(h, h', n, r, s, p, i)
    ensures WellFormed(h', recs)
  {
    if null != p { assert SplitKeeps(h, h', n, r, s, null); }
    forall x | x in h' ensures Good(h', recs, x) {
      SplitLocal(h, h', recs, n, r, s, p, i, x);
      SplitChained(h, h', recs, n, r, s, p, i, x);
      SplitHangs(h, h', recs, n, r, s, p, i, x);
      SplitLinked(h, h', recs, n, r, s, p, i, x);
    }
  }

  lemma AddEntryLocal(v: NodeVal, i: nat, key: nat, r: Node)
    requires Local(v) && !v.isLeaf && i <= |v.keys| && Lo(v, i) < key < Hi(v, i)
    ensures Local(AddEntry(v, i, key, r))
  {
    InsertedSorted(v.keys, i, key);
  }

  lemma HalvesLocal(v: NodeVal, s: nat, r: Node)
    requires Local(v) && s < |v.keys| && (v.isLeaf ==> 0 < s)
    ensures v.lo < v.keys[s] < v.hi
    ensures Local(LeftHalf(v, s, r)) && Local(RightHalf(v, s))
  {
    assert v.lo <= v.keys[0];
  }

  lemma HalvesHold(v: NodeVal, s: nat, r: Node, recs: Recs)
    requires Local(v) && s < |v.keys| && Holds(recs, v)
    ensures Holds(recs, LeftHalf(v, s, r)) && Holds(recs, RightHalf(v, s))
  {
    if v.isLeaf {
      LeftHolds(v, s, recs);
      RightHolds(v, s, recs);
    }
  }

  lemma LeftHolds(v: NodeVal, s: nat, recs: Recs)
    requires Local(v) && v.isLeaf && s < |v.keys| && Holds(recs, v)
    ensures forall k :: v.lo <= k < v.keys[s] && k in recs ==> k in v.keys[..s]
  {
    forall k | v.lo <= k < v.keys[s] && k in recs ensures k in v.keys[..s] {
      var j :| 0 <= j < |v.keys| && v.keys[j] == k;
      assert v.keys[..s][j] == k;
    }
  }

  lemma RightHolds(v: NodeVal, s: nat, recs: Recs)
    requires Local(v) && v.isLeaf && s < |v.keys| && Holds(recs, v)
    ensures forall k :: v.keys[s] <= k < v.hi && k in recs ==> k in v.keys[s..]
  {
    forall k | v.keys[s] <= k < v.hi && k in recs ensures k in v.keys[s..] {
      var j :| 0 <= j < |v.keys| && v.keys[j] == k;
      assert v.keys[s..][j - s] == k;
    }
  }

  lemma SplitLocal(h: Heap, h': Heap, recs: Recs, n: Node, r: Node, s: nat, p: Node?, i: nat, x: Node?)
    requires WellFormed(h, recs) && IsSplit(h, h', n, r, s, p, i) && x in h'
    ensures Local(h'[x]) && Holds(recs, h'[x])
  {
    assert Good(h, recs, n);
    if x == p {
      assert Good(h, recs, p) && Edge(h, p, i);
      HalvesLocal(h[n], s, r);
      AddEntryLocal(h[x], i, h[n].keys[s], r);
    } else if x == n || x == r {
      HalvesLocal(h[n], s, r);
      HalvesHold(h[n], s, r, recs);
    } else {
      assert Good(h, recs, x) && SplitKeeps(h, h', n, r, s, x);
    }
  }

  lemma SplitChained(h: Heap, h': Heap, recs: Recs, n: Node, r: Node, s: nat, p: Node?, i: nat, x: Node?)
    requires WellFormed(h, recs) && IsSplit(h, h', n, r, s, p, i) && x in h'
    ensures null in h' && h'[x].height <= h'[null].height && Chained(h', x)
  {
    var o := if x == r then n else x;
    assert Good(h, recs, o);
    assert h[null].height == h'[null].height by {
      if null != p { assert SplitKeeps(h, h', n, r, s, null); }
    }
    if x != n && x != r && x != p { assert SplitKeeps(h, h', n, r, s, x); }
    if h[o].isLeaf && h[o].next.Child? && h[o].next.node != n {
      assert SplitKeeps(h, h', n, r, s, h[o].next.node);
    }
  }

  lemma SplitLinked(h: Heap, h': Heap, recs: Recs, n: Node, r: Node, s: nat, p: Node?, i: nat, x: Node?)
    requires WellFormed(h, recs) && IsSplit(h, h', n, r, s, p, i) && x in h'
    ensures Linked(h', x)
  {
    if !h'[x].isLeaf {
      forall j: nat | j < |h'[x].ptrs| ensures Edge(h', x, j) {
        if x == r {
          SplitEdge(h, h', recs, n, r, s, p, i, n, s + 1 + j);
        } else if x == p {
          SplitParentEdge(h, h', recs, n, r, s, p, i, j);
        } else {
          if x != n { assert SplitKeeps(h, h', n, r, s, x); }
          SplitEdge(h, h', recs, n, r, s, p, i, x, j);
        }
      }
    }
  }

  lemma SplitParentEdge(h: Heap, h': Heap, recs: Recs, n: Node, r: Node, s: nat, p: Node?, i: nat, j: nat)
    requires WellFormed(h, recs) && IsSplit(h, h', n, r, s, p, i) && j < |h'[p].ptrs|
    ensures Edge(h', p, j)
  {
    if j != i + 1 {
      SplitEdge(h, h', recs, n, r, s, p, i, p, if j <= i then j else j - 1);
    } else {
      assert Good(h, recs, p) && Edge(h, p, i);
    }
  }

  // Every old edge survives a split, in the slot where the split puts it.
  lemma SplitEdge(h: Heap, h': Heap, recs: Recs, n: Node, r: Node, s: nat, p: Node?, i: nat, x: Node?, j: nat)
    requires WellFormed(h, recs) && IsSplit(h, h', n, r, s, p, i) && x in h && !h[x].isLeaf && j < |h[x].ptrs|
    ensures if x == n && j > s then Edge(h', r, j - s - 1)
            else if x == p && j > i then Edge(h', x, j + 1)
            else Edge(h', x, j)
  {
    assert Good(h, recs, x) && Edge(h, x, j);
    var c := h[x].ptrs[j].node;
    if x == n {
      SplitEdgeOfNode(h, h', recs, n, r, s, p, i, j);
    } else if x == p {
      SplitEdgeOfParent(h, h', recs, n, r, s, p, i, j);
    } else {
      assert SplitKeeps(h, h', n, r, s, x);
      if c != p { assert SplitKeeps(h, h', n, r, s, c); }
    }
  }

  lemma SplitEdgeOfParent(h: Heap, h': Heap, recs: Recs, n: Node, r: Node, s: nat, p: Node?, i: nat, j: nat)
    requires WellFormed(h, recs) && IsSplit(h, h', n, r, s, p, i) && j < |h[p].ptrs|
    ensures if j > i then Edge(h', p, j + 1) else Edge(h', p, j)
  {
    assert Good(h, recs, p) && Edge(h, p, j);
    if h[p].ptrs[j].node == n {
      SlotUnique(h, recs, p, i, j);
    } else {
      assert SplitKeeps(h, h', n, r, s, h[p].ptrs[j].node);
    }
  }

  lemma SplitEdgeOfNode(h: Heap, h': Heap, recs: Recs, n: Node, r: Node, s: nat, p: Node?, i: nat, j: nat)
    requires WellFormed(h, recs) && IsSplit(h, h', n, r, s, p, i) && !h[n].isLeaf && j < |h[n].ptrs|
    ensures if j > s then Edge(h', r, j - s - 1) else Edge(h', n, j)
  {
    assert Good(h, recs, n) && Edge(h, n, j);
    var c := h[n].ptrs[j].node;
    assert c != p by { assert Good(h, recs, p) && Edge(h, p, i); }
    assert SplitKeeps(h, h', n, r, s, c);
    assert Moves(h[n], n, s, h[c]) <==> j > s;
  }

  lemma SplitHangs(h: Heap, h': Heap, recs: Recs, n: Node, r: Node, s: nat, p: Node?, i: nat, x: Node?)
    requires WellFormed(h, recs) && IsSplit(h, h', n, r, s, p, i) && x in h'
    ensures Hangs(h', x)
  {
    assert h'[p].ptrs[i] == Child(n) && h'[p].ptrs[i + 1] == Child(r);
    if x != null && x != r && x != n {
      var j := FindSlot(h, recs, x);
      var q := h[x].parent;
      SplitEdge(h, h', recs, n, r, s, p, i, q, j);
      if q == n && j > s {
        assert h'[r].ptrs[j - s - 1] == Child(x);
      } else if q == p && j > i {
        assert h'[p].ptrs[j + 1] == Child(x);
      } else {
        if q != n && q != p { assert SplitKeeps(h, h', n, r, s, q); }
        assert h'[q].ptrs[j] == Child(x);
      }
    }
  }

  // ---------- merging two neighbours: the inverse of a split ----------

  ghost predicate MergeKeeps(h: Heap, h': Heap, l: Node, r: Node, x: Node?) {
    x in h && x in h' && h'[x] == if h[x].parent == r then h[x].(parent := l) else h[x]
  }

  // h' is h after children i (l) and i + 1 (r) of p became one node l; p lost the entry between them.
  ghost predicate IsMerge(h: Heap, h': Heap, l: Node, r: Node, p: Node?, i: nat) {
    && l in h && r in h && p in h && l != r && p != l && p != r
    && h[l].isLeaf == h[r].isLeaf
    && !h[p].isLeaf && i < |h[p].keys| && |h[p].ptrs| == |h[p].keys| + 1
    && h[p].ptrs[i] == Child(l) && h[p].ptrs[i + 1] == Child(r)
    && h'.Keys == h.Keys - {r}
    && h'[l] == Joined(h[l], h[p].keys[i], h[r])
    && h'[p] == DropEntry(h[p], i)
    && (forall x {:trigger MergeKeeps(h, h', l, r, x)} :: x in h && x != l && x != r && x != p ==>
        MergeKeeps(h, h', l, r, x))
  }

  lemma MergePreserves(h: Heap, h': Heap, recs: Recs, l: Node, r: Node, p: Node?, i: nat)
    requires WellFormed(h, recs) && IsMerge(h, h', l, r, p, i)
    ensures WellFormed(h', recs)
  {
    if null != p { assert MergeKeeps(h, h', l, r, null); }
    forall x | x in h' ensures Good(h', recs, x) {
      MergeLocal(h, h', recs, l, r, p, i, x);
      MergeChained(h, h', recs, l, r, p, i, x);
      MergeHangs(h, h', recs, l, r, p, i, x);
      MergeLinked(h, h', recs, l, r, p, i, x);
    }
  }

  // The two neighbours meet at their separator.
  lemma Neighbours(h: Heap, recs: Recs, l: Node, r: Node, p: Node?, i: nat)
    requires WellFormed(h, recs) && p in h && !h[p].isLeaf
    requires i < |h[p].keys| && i + 1 < |h[p].ptrs| && h[p].ptrs[i] == Child(l) && h[p].ptrs[i + 1] == Child(r)
    ensures l in h && r in h && h[l].parent == h[r].parent == p
    ensures h[l].height == h[r].height && h[p].height == h[l].height + 1
    ensures h[l].hi == h[p].keys[i] == h[r].lo
    ensures Local(h[l]) && Local(h[r]) && Local(h[p]) && h[l].isLeaf == h[r].isLeaf
    ensures l != r && p != l && p != r
  {
    assert Good(h, recs, p) && Edge(h, p, i) && Edge(h, p, i + 1);
    assert Good(h, recs, l) && Good(h, recs, r);
  }

  lemma JoinedLocal(v: NodeVal, w: NodeVal)
    requires Local(v) && Local(w) && v.hi == w.lo && v.isLeaf == w.isLeaf
    ensures Local(Joined(v, v.hi, w))
  {
  }

  lemma JoinedHolds(v: NodeVal, w: NodeVal, recs: Recs)
    requires v.isLeaf && w.isLeaf && v.hi == w.lo && Holds(recs, v) && Holds(recs, w)
    ensures Holds(recs, Joined(v, v.hi, w))
  {
    var j := Joined(v, v.hi, w);
    forall k | j.lo <= k < j.hi && k in recs ensures k in j.keys {
      assert k in if k < v.hi then v.keys else w.keys;
    }
  }

  lemma DropEntryLocal(v: NodeVal, i: nat)
    requires Local(v) && !v.isLeaf && i < |v.keys|
    ensures Local(DropEntry(v, i))
  {
  }

  lemma MergeLocal(h: Heap, h': Heap, recs: Recs, l: Node, r: Node, p: Node?, i: nat, x: Node?)
    requires WellFormed(h, recs) && IsMerge(h, h', l, r, p, i) && x in h'
    ensures Local(h'[x]) && Holds(recs, h'[x])
  {
    Neighbours(h, recs, l, r, p, i);
    if x == p {
      DropEntryLocal(h[p], i);
    } else if x == l {
      JoinedLocal(h[l], h[r]);
      assert Good(h, recs, l) && Good(h, recs, r);
      if h[l].isLeaf { JoinedHolds(h[l], h[r], recs); }
    } else {
      assert Good(h, recs, x) && MergeKeeps(h, h', l, r, x);
    }
  }

  lemma MergeChained(h: Heap, h': Heap, recs: Recs, l: Node, r: Node, p: Node?, i: nat, x: Node?)
    requires WellFormed(h, recs) && IsMerge(h, h', l, r, p, i) && x in h'
    ensures null in h' && h'[x].height <= h'[null].height && Chained(h', x)
  {
    Neighbours(h, recs, l, r, p, i);
    assert h[null].height == h'[null].height by {
      if null != p { assert MergeKeeps(h, h', l, r, null); }
    }
    var o := if x == l && h[x].isLeaf then r else x;
    assert Good(h, recs, x) && Good(h, recs, o);
    if x != l && x != p { assert MergeKeeps(h, h', l, r, x); }
    if h[o].isLeaf && h[o].next.Child? {
      var y := h[o].next.node;
      assert Good(h, recs, y);
      if y == r {
        OwnerUnique(h, recs, o, l, h[o].hi - 1);
      } else if y != l {
        assert MergeKeeps(h, h', l, r, y);
      }
    }
  }

  // Every old edge but the one to r survives a merge.
  lemma MergeEdge(h: Heap, h': Heap, recs: Recs, l: Node, r: Node, p: Node?, i: nat, x: Node?, j: nat)
    requires WellFormed(h, recs) && IsMerge(h, h', l, r, p, i)
    requires x in h && !h[x].isLeaf && j < |h[x].ptrs| && h[x].ptrs[j] != Child(r)
    ensures if x == r then Edge(h', l, |h[l].ptrs| + j)
            else if x == p && j > i then Edge(h', x, j - 1)
            else Edge(h', x, j)
  {
    Neighbours(h, recs, l, r, p, i);
    assert Good(h, recs, x) && Edge(h, x, j);
    var c := h[x].ptrs[j].node;
    if x == l || x == r {
      MergeEdgeOfPart(h, h', recs, l, r, p, i, x, j);
    } else if x == p {
      MergeEdgeOfParent(h, h', recs, l, r, p, i, j);
    } else {
      assert MergeKeeps(h, h', l, r, x);
      if c != p { assert MergeKeeps(h, h', l, r, c); }
    }
  }

  lemma MergeEdgeOfPart(h: Heap, h': Heap, recs: Recs, l: Node, r: Node, p: Node?, i: nat, x: Node, j: nat)
    requires WellFormed(h, recs) && IsMerge(h, h', l, r, p, i)
    requires (x == l || x == r) && !h[x].isLeaf && j < |h[x].ptrs|
    ensures Edge(h', l, if x == r then |h[l].ptrs| + j else j)
  {
    Neighbours(h, recs, l, r, p, i);
    assert Good(h, recs, x) && Edge(h, x, j);
    assert MergeKeeps(h, h', l, r, h[x].ptrs[j].node);
  }

  lemma MergeEdgeOfParent(h: Heap, h': Heap, recs: Recs, l: Node, r: Node, p: Node?, i: nat, j: nat)
    requires WellFormed(h, recs) && IsMerge(h, h', l, r, p, i) && j < |h[p].ptrs| && h[p].ptrs[j] != Child(r)
    ensures if j > i then Edge(h', p, j - 1) else Edge(h', p, j)
  {
    Neighbours(h, recs, l, r, p, i);
    assert Good(h, recs, p) && Edge(h, p, j);
    if h[p].ptrs[j].node == l {
      SlotUnique(h, recs, p, i, j);
      assert Edge(h, p, i + 1);
    } else {
      assert MergeKeeps(h, h', l, r, h[p].ptrs[j].node);
    }
  }

  lemma MergeLinked(h: Heap, h': Heap, recs: Recs, l: Node, r: Node, p: Node?, i: nat, x: Node?)
    requires WellFormed(h, recs) && IsMerge(h, h', l, r, p, i) && x in h'
    ensures Linked(h', x)
  {
    Neighbours(h, recs, l, r, p, i);
    if !h'[x].isLeaf {
      forall j: nat | j < |h'[x].ptrs| ensures Edge(h', x, j) {
        if x != l && x != p { assert MergeKeeps(h, h', l, r, x); }
        var o, j' := if x == l && j >= |h[l].ptrs| then r else x,
                     if x == l && j >= |h[l].ptrs| then j - |h[l].ptrs| else if x == p && j > i then j + 1 else j;
        if h[o].ptrs[j'] == Child(r) {
          assert Good(h, recs, o) && Edge(h, o, j');
          SlotUnique(h, recs, p, i + 1, j');
        }
        MergeEdge(h, h', recs, l, r, p, i, o, j');
      }
    }
  }

  lemma MergeHangs(h: Heap, h': Heap, recs: Recs, l: Node, r: Node, p: Node?, i: nat, x: Node?)
    requires WellFormed(h, recs) && IsMerge(h, h', l, r, p, i) && x in h'
    ensures Hangs(h', x)
  {
    Neighbours(h, recs, l, r, p, i);
    assert h'[p].ptrs[i] == Child(l);
    if x != null && x != l {
      var j := FindSlot(h, recs, x);
      var q := h[x].parent;
      MergeEdge(h, h', recs, l, r, p, i, q, j);
      if q == r {
        assert h'[l].ptrs[|h[l].ptrs| + j] == Child(x);
      } else if q == p && j > i {
        assert h'[p].ptrs[j - 1] == Child(x);
      } else {
        if q != l && q != p { assert MergeKeeps(h, h', l, r, q); }
        assert h'[q].ptrs[j] == Child(x);
      }
    }
  }

  // ---------- changing the root ----------

  ghost predicate Rehung(h: Heap, h': Heap, p: Node?, q: Node?, x: Node?) {
    x in h && x in h' && h'[x] == if h[x].parent == p then h[x].(parent := q) else h[x]
  }

  // A new root takes over the sentinel's children and becomes its only child.
  ghost predicate IsGrow(h: Heap, h': Heap, root: Node) {
    && null in h && root !in h && h'.Keys == h.Keys + {root}
    && h'[root] == h[null]
    && h'[null] == h[null].(keys := [], ptrs := [Child(root)], height := h[null].height + 1)
    && (forall x {:trigger Rehung(h, h', null, root, x)} :: x in h && x != null ==> Rehung(h, h', null, root, x))
  }

  lemma GrowPreserves(h: Heap, h': Heap, recs: Recs, root: Node)
    requires WellFormed(h, recs) && IsGrow(h, h', root)
    ensures WellFormed(h', recs)
  {
    forall x | x in h' ensures Good(h', recs, x) {
      var o := if x == root then null else x;
      assert Good(h, recs, o) && Good(h, recs, null);
      if x != null && x != root { assert Rehung(h, h', null, root, x); }
      if x == null {
        assert Edge(h', x, 0);
      } else if !h'[x].isLeaf {
        forall j: nat | j < |h'[x].ptrs| ensures Edge(h', x, j) {
          assert Edge(h, o, j);
          assert Rehung(h, h', null, root, h[o].ptrs[j].node);
        }
      } else if h[x].next.Child? {
        assert Rehung(h, h', null, root, h[x].next.node);
      }
      if x == root {
        assert h'[null].ptrs[0] == Child(root);
      } else if x != null {
        var j := FindSlot(h, recs, x);
        if h[x].parent != null { assert Rehung(h, h', null, root, h[x].parent); }
      }
    }
  }

  // The only child of the sentinel is dropped and its children hang from the sentinel instead.
  ghost predicate IsShrink(h: Heap, h': Heap, root: Node) {
    && null in h && root in h && !h[root].isLeaf && h[null].ptrs == [Child(root)] && h[null].keys == []
    && h'.Keys == h.Keys - {root}
    && h'[null] == h[root]
    && (forall x {:trigger Rehung(h, h', root, null, x)} :: x in h && x != null && x != root ==>
        Rehung(h, h', root, null, x))
  }

  lemma ShrinkPreserves(h: Heap, h': Heap, recs: Recs, root: Node)
    requires WellFormed(h, recs) && IsShrink(h, h', root)
    ensures WellFormed(h', recs)
  {
    assert Good(h, recs, null) && Good(h, recs, root) && Edge(h, null, 0);
    forall x | x in h' ensures Good(h', recs, x) {
      var o := if x == null then root else x;
      assert Good(h, recs, o);
      if x != null { assert Rehung(h, h', root, null, x); }
      if !h'[x].isLeaf {
        forall j: nat | j < |h'[x].ptrs| ensures Edge(h', x, j) {
          assert Edge(h, o, j);
          assert Rehung(h, h', root, null, h[o].ptrs[j].node);
        }
      } else if h[x].next.Child? {
        assert Rehung(h, h', root, null, h[x].next.node);
      }
      if x != null {
        var j := FindSlot(h, recs, x);
        var q := h[x].parent;
        assert q != null;
        var _ := FindSlot(h, recs, q);
        if q != root { assert Rehung(h, h', root, null, q); }
      }
    }
  }

  // ---------- changing the entries of one leaf ----------

  predicate Owns(v: NodeVal, k: nat) {
    v.lo <= k < v.hi
  }

  ghost predicate SameOutside(v: NodeVal, recs: Recs, recs': Recs) {
    forall k :: !Owns(v, k) ==> (k in recs <==> k in recs') && (k in recs ==> recs[k] == recs'[k])
  }

  // Leaf n changes its entries, and the represented map changes only inside its range.
  lemma LeafPreserves(h: Heap, recs: Recs, recs': Recs, n: Node, v: NodeVal)
    requires WellFormed(h, recs) && n in h && h[n].isLeaf
    requires v == h[n].(keys := v.keys, ptrs := v.ptrs)
    requires Local(v) && Holds(recs', v) && SameOutside(v, recs, recs')
    ensures WellFormed(h[n := v], recs')
  {
    var h' := h[n := v];
    forall x | x in h' ensures Good(h', recs', x) {
      assert Good(h, recs, x) && Good(h, recs, n);
      if !h'[x].isLeaf {
        forall j: nat | j < |h'[x].ptrs| ensures Edge(h', x, j) {
          assert Edge(h, x, j);
        }
      } else if x != n {
        LeafElsewhere(h, recs, recs', n, x);
      }
    }
  }

  lemma LeafElsewhere(h: Heap, recs: Recs, recs': Recs, n: Node, x: Node?)
    requires WellFormed(h, recs) && n in h && x in h && x != n && h[n].isLeaf && h[x].isLeaf
    requires SameOutside(h[n], recs, recs')
    ensures Holds(recs', h[x])
  {
    assert Good(h, recs, x) && Good(h, recs, n);
    forall k | Owns(h[x], k) ensures !Owns(h[n], k) {
      if Owns(h[n], k) { OwnerUnique(h, recs, n, x, k); }
    }
    forall k | h[x].lo <= k < h[x].hi && k in recs' ensures k in h[x].keys {
      assert Owns(h[x], k);
    }
    forall i | 0 <= i < |h[x].keys| ensures h[x].keys[i] in recs' && h[x].ptrs[i] == Rec(recs'[h[x].keys[i]]) {
      assert Owns(h[x], h[x].keys[i]);
    }
  }

  lemma InsertPreserves(h: Heap, recs: Recs, n: Node, key: nat, rec: Record)
    requires WellFormed(h, recs) && n in h && h[n].isLeaf && |h[n].ptrs| == |h[n].keys| && Owns(h[n], key)
    requires key !in recs
    ensures var v := WithEntry(h[n], key, Rec(rec)); Local(v) && WellFormed(h[n := v], recs[key := rec])
  {
    assert Good(h, recs, n);
    InsertedLocal(h[n], recs, key, rec);
    InsertedHolds(h[n], recs, key, rec);
    LeafPreserves(h, recs, recs[key := rec], n, WithEntry(h[n], key, Rec(rec)));
  }

  lemma InsertedLocal(v: NodeVal, recs: Recs, key: nat, rec: Record)
    requires Local(v) && v.isLeaf && Holds(recs, v) && Owns(v, key) && key !in recs
    ensures Local(WithEntry(v, key, Rec(rec)))
  {
    var i := LowerBound(v.keys, key);
    assert i < |v.keys| ==> v.keys[i] in recs;
    InsertedSorted(v.keys, i, key);
  }

  lemma InsertedSorted(s: seq<nat>, i: nat, key: nat)
    requires i <= |s| && (forall a, b :: 0 <= a < b < |s| ==> s[a] < s[b])
    requires (forall j :: 0 <= j < i ==> s[j] < key) && (i < |s| ==> key < s[i])
    ensures forall a, b :: 0 <= a < b <= |s| ==> InsertAt(s, i, key)[a] < InsertAt(s, i, key)[b]
  {
    var t := InsertAt(s, i, key);
    forall a, b | 0 <= a < b < |t| ensures t[a] < t[b] {
      assert b > i ==> t[b] == s[b - 1] && s[i] <= s[b - 1];
    }
  }

  lemma InsertedHolds(v: NodeVal, recs: Recs, key: nat, rec: Record)
    requires Local(v) && v.isLeaf && Holds(recs, v) && key !in recs
    ensures Holds(recs[key := rec], WithEntry(v, key, Rec(rec)))
  {
    var i, recs' := LowerBound(v.keys, key), recs[key := rec];
    var ks, ps := InsertAt(v.keys, i, key), InsertAt(v.ptrs, i, Rec(rec));
    forall k | v.lo <= k < v.hi && k in recs' ensures k in ks { InsertAtHas(v.keys, i, key, k); }
    forall j | 0 <= j < |ks| ensures ks[j] in recs' && ps[j] == Rec(recs'[ks[j]]) {
      var j' := if j < i then j else j - 1;
      assert j != i ==> ks[j] == v.keys[j'] && ps[j] == v.ptrs[j'];
    }
  }

  lemma RemovePreserves(h: Heap, recs: Recs, n: Node, i: nat)
    requires WellFormed(h, recs) && n in h && h[n].isLeaf && i < |h[n].keys| == |h[n].ptrs|
    ensures WellFormed(h[n := WithoutEntry(h[n], i)], recs - {h[n].keys[i]})
  {
    assert Good(h, recs, n);
    RemovedLocal(h[n], i);
    RemovedHolds(h[n], recs, i);
    LeafPreserves(h, recs, recs - {h[n].keys[i]}, n, WithoutEntry(h[n], i));
  }

  lemma RemovedLocal(v: NodeVal, i: nat)
    requires Local(v) && v.isLeaf && i < |v.keys|
    ensures Local(WithoutEntry(v, i))
  {
  }

  lemma RemovedHolds(v: NodeVal, recs: Recs, i: nat)
    requires Local(v) && v.isLeaf && Holds(recs, v) && i < |v.keys|
    ensures Holds(recs - {v.keys[i]}, WithoutEntry(v, i))
  {
    var recs' := recs - {v.keys[i]};
    var ks, ps := RemoveAt(v.keys, i), RemoveAt(v.ptrs, i);
    forall k | v.lo <= k < v.hi && k in recs' ensures k in ks { RemoveAtHas(v.keys, i, k); }
    forall j | 0 <= j < |ks| ensures ks[j] in recs' && ps[j] == Rec(recs'[ks[j]]) {
      var j' := if j < i then j else j + 1;
      assert ks[j] == v.keys[j'] && ps[j] == v.ptrs[j'] && v.keys[j'] != v.keys[i];
    }
  }

  // ---------- occupancy of the results ----------

  lemma HalvesSized(v: NodeVal, order: nat, s: nat, r: Node)
    requires order >= 3 && Local(v) && |v.keys| == order
    requires s == if v.isLeaf then Cut(order - 1) else Cut(order) - 1
    ensures 1 <= MinKeys(order, v.isLeaf) <= |LeftHalf(v, s, r).keys| <= order - 1
    ensures MinKeys(order, v.isLeaf) <= |RightHalf(v, s).keys| <= order - 1
  {
  }

  lemma SplitSized(h: Heap, h': Heap, recs: Recs, order: nat, fill: Fill, n: Node, r: Node, s: nat, p: Node?, i: nat)
    requires order >= 3 && WellFormed(h, recs) && IsSplit(h, h', n, r, s, p, i) && null in h'
    requires Sized(h, order, fill, n) && |h[n].keys| == order
    requires s == if h[n].isLeaf then Cut(order - 1) else Cut(order) - 1
    ensures Sized(h', order, fill, p)
  {
    forall x | x in h' && x != null && x != p ensures Fits(h', order, fill, x) {
      if x == n || x == r {
        HalvesSized(h[n], order, s, r);
      } else {
        SplitSizedOther(h, h', recs, order, fill, n, r, s, p, i, x);
      }
    }
  }

  lemma SplitSizedOther(h: Heap, h': Heap, recs: Recs, order: nat, fill: Fill, n: Node, r: Node, s: nat, p: Node?,
      i: nat, x: Node)
    requires order >= 3 && WellFormed(h, recs) && IsSplit(h, h', n, r, s, p, i) && null in h'
    requires Sized(h, order, fill, n) && x in h && x != p && x != n
    ensures Fits(h', order, fill, x)
  {
    assert SplitKeeps(h, h', n, r, s, x) && Fits(h, order, fill, x);
    if p == null {
      if h[x].parent == null { TwoTops(h, recs, n, x); }
    } else {
      assert SplitKeeps(h, h', n, r, s, null);
    }
    assert h'[x].parent != null || h'[null].keys != [] ==> h[x].parent != null || h[null].keys != [];
  }

  lemma TwoTops(h: Heap, recs: Recs, a: Node, b: Node)
    requires WellFormed(h, recs) && a in h && b in h && a != b && h[a].parent == null && h[b].parent == null
    ensures h[null].keys != []
  {
    var i := FindSlot(h, recs, a);
    var j := FindSlot(h, recs, b);
  }

  lemma GrowSized(h: Heap, h': Heap, order: nat, fill: Fill, root: Node)
    requires order >= 3 && null in h && IsGrow(h, h', root) && Sized(h, order, fill, null)
    requires 1 <= |h[null].keys| <= order - 1
    requires h[null].parent == null
    ensures null in h' && Sized(h', order, fill, null)
  {
    assert h[null].keys != [];
    forall x | x in h' && x != null ensures Fits(h', order, fill, x) {
      if x != root {
        assert Rehung(h, h', null, root, x) && Fits(h, order, fill, x);
      }
    }
  }

  lemma MergeSized(h: Heap, h': Heap, order: nat, fill: Fill, l: Node, r: Node, p: Node?, i: nat, x: Node)
    requires order >= 3 && null in h && IsMerge(h, h', l, r, p, i) && null in h'
    requires p != null && (x == l || x == r) && Sized(h, order, fill, x) && h[l].parent == h[r].parent == p
    requires |h'[l].keys| <= order - 1
    ensures Sized(h', order, fill, p)
  {
    assert MergeKeeps(h, h', l, r, null);
    forall y | y in h' && y != null && y != p ensures Fits(h', order, fill, y) {
      if y != l {
        assert MergeKeeps(h, h', l, r, y) && Fits(h, order, fill, y);
      } else {
        assert Fits(h, order, fill, if x == l then r else l);
      }
    }
  }

  lemma ShrinkSized(h: Heap, h': Heap, recs: Recs, order: nat, fill: Fill, root: Node)
    requires order >= 3 && WellFormed(h, recs) && IsShrink(h, h', root) && Sized(h, order, fill, root)
    requires h[root].keys == []
    ensures null in h' && Sized(h', order, fill, null)
  {
    forall x | x in h' && x != null ensures Fits(h', order, fill, x) {
      assert Rehung(h, h', root, null, x) && Fits(h, order, fill, x);
      assert Good(h, recs, x);
    }
  }

  // ---------- between a split and the update of the parent ----------

  // Node `left` was split and `right` is not yet known to the parent: the heap is well formed
  // once entry (key, right) is added after slot i of the parent.
  ghost predicate Pending(h: Heap, recs: Recs, order: nat, fill: Fill, left: Node, key: nat, right: Node, i: nat)
    requires order >= 3
  {
    && left in h && right in h && left != right && h[left].parent == h[right].parent
    && var p := h[left].parent;
    && p in h && null in h && (p == null ==> h[p].keys == []) && (p != null ==> Fits(h, order, fill, p))
    && i < |h[p].ptrs| == |h[p].keys| + 1 && h[p].ptrs[i] == Child(left)
    && var h' := h[p := AddEntry(h[p], i, key, right)];
    && WellFormed(h', recs) && Sized(h', order, fill, p)
  }

  lemma LeafSplitPending(h: Heap, hs: Heap, recs: Recs, order: nat, fill: Fill, leaf: Node, key: nat, rec: Record,
      right: Node)
    returns (i: nat)
    requires order >= 3 && WellFormed(h, recs) && Sized(h, order, fill, null) && h[null].keys == []
    requires leaf in h && h[leaf].isLeaf && |h[leaf].keys| == |h[leaf].ptrs| == order - 1 && Owns(h[leaf], key)
    requires key !in recs
    requires right !in h
    requires var v := WithEntry(h[leaf], key, Rec(rec)); var s := Cut(order - 1);
      hs == h[leaf := LeftHalf(v, s, right)][right := RightHalf(v, s)]
    ensures Pending(hs, recs[key := rec], order, fill, leaf, hs[leaf].hi, right, i)
    ensures |hs[right].keys| > 0 && hs[right].keys[0] == hs[leaf].hi
  {
    var v, s, p := WithEntry(h[leaf], key, Rec(rec)), Cut(order - 1), h[leaf].parent;
    InsertPreserves(h, recs, leaf, key, rec);
    i := FindSlot(h, recs, leaf);
    if p != null { assert Fits(h, order, fill, p); }
    var g := h[leaf := v];
    var h' := hs[p := AddEntry(hs[p], i, v.keys[s], right)];
    assert p != leaf;
    forall x | x in g && x != leaf && x != p ensures SplitKeeps(g, h', leaf, right, s, x) {
    }
    SplitPreserves(g, h', recs[key := rec], leaf, right, s, p, i);
    forall x | x in g && x != null && x != leaf ensures Fits(g, order, fill, x) {
      assert Fits(h, order, fill, x);
    }
    SplitSized(g, h', recs[key := rec], order, fill, leaf, right, s, p, i);
  }

  lemma PendingSlot(h: Heap, recs: Recs, order: nat, fill: Fill, left: Node, key: nat, right: Node, i: nat)
    requires order >= 3 && Pending(h, recs, order, fill, left, key, right, i)
    ensures !h[h[left].parent].isLeaf && h[left].height < h[null].height
    ensures forall j :: 0 <= j < |h[h[left].parent].ptrs| && h[h[left].parent].ptrs[j] == Child(left) ==> j == i
  {
    var p := h[left].parent;
    var h' := h[p := AddEntry(h[p], i, key, right)];
    assert Good(h', recs, p);
    var _ := FindSlot(h', recs, left);
    forall j | 0 <= j < |h[p].ptrs| && h[p].ptrs[j] == Child(left) ensures j == i {
      SlotUnique(h', recs, p, i, if j <= i then j else j + 1);
    }
  }

  lemma PendingChildren(h: Heap, recs: Recs, order: nat, fill: Fill, left: Node, key: nat, right: Node, i: nat)
    requires order >= 3 && Pending(h, recs, order, fill, left, key, right, i)
    ensures forall c :: c in AddEntry(h[h[left].parent], i, key, right).ptrs ==> c.Child? && c.node in h
    ensures var ptrs := AddEntry(h[h[left].parent], i, key, right).ptrs;
      forall s: nat, c :: s < |ptrs| && c in ptrs[s..] ==> c.Child? && c.node in h
  {
    var p := h[left].parent;
    var h' := h[p := AddEntry(h[p], i, key, right)];
    PendingSlot(h, recs, order, fill, left, key, right, i);
    Children(h', recs, p);
  }

  lemma PendingRoom(h: Heap, recs: Recs, order: nat, fill: Fill, left: Node, key: nat, right: Node, i: nat)
    requires order >= 3 && Pending(h, recs, order, fill, left, key, right, i) && h[left].parent != null
    requires |h[h[left].parent].keys| < order - 1
    ensures var p := h[left].parent; !h[p].isLeaf && Sized(h[p := AddEntry(h[p], i, key, right)], order, fill, null)
  {
    var p := h[left].parent;
    var h' := h[p := AddEntry(h[p], i, key, right)];
    assert Good(h', recs, p) && Fits(h, order, fill, p);
    forall x | x in h' && x != null ensures Fits(h', order, fill, x) {
    }
  }

  // insert_into_new_root
  ghost function RootOver(h: Heap, left: Node, key: nat, right: Node, r: Node): Heap
    requires null in h && left in h && right in h
  {
    h[r := NodeVal(false, [key], [Child(left), Child(right)], Nil, null, 0, KEY_LIMIT, h[null].height)]
     [left := h[left].(parent := r)][right := h[right].(parent := r)]
     [null := NodeVal(false, [], [Child(r)], Nil, null, 0, KEY_LIMIT, h[null].height + 1)]
  }

  lemma PendingRoot(h: Heap, hs: Heap, recs: Recs, order: nat, fill: Fill, left: Node, key: nat, right: Node, i: nat,
      r: Node)
    requires order >= 3 && Pending(h, recs, order, fill, left, key, right, i) && h[left].parent == null && r !in h
    requires hs == RootOver(h, left, key, right, r)
    ensures WellFormed(hs, recs) && Sized(hs, order, fill, null)
    ensures r in hs && hs[null] == NodeVal(false, [], [Child(r)], Nil, null, 0, KEY_LIMIT, hs[r].height + 1)
  {
    var h' := h[null := AddEntry(h[null], i, key, right)];
    assert Good(h', recs, null);
    assert h'[null].keys == [key] && h'[null].ptrs == [Child(left), Child(right)];
    forall x | x in h' && x != null ensures Rehung(h', hs, null, r, x) {
      if h'[x].parent == null { var _ := FindSlot(h', recs, x); }
    }
    GrowPreserves(h', hs, recs, r);
    GrowSized(h', hs, order, fill, r);
  }

  // Setting the parent pointer of every node in kids.
  ghost function Adopt(h: Heap, kids: seq<Ptr>, q: Node): (r: Heap) {
    map x | x in h :: if x != null && Child(x) in kids then h[x].(parent := q) else h[x]
  }

  lemma AdoptOne(h: Heap, kids: seq<Ptr>, i: nat, q: Node)
    requires i < |kids| && kids[i].Child? && kids[i].node in h
    ensures var g := Adopt(h, kids[..i], q); var c := kids[i].node;
      Adopt(h, kids[..i + 1], q) == g[c := g[c].(parent := q)]
  {
    assert kids[..i + 1] == kids[..i] + [kids[i]];
  }

  lemma Children(h: Heap, recs: Recs, n: Node?)
    requires WellFormed(h, recs) && n in h && !h[n].isLeaf
    ensures forall j :: 0 <= j < |h[n].ptrs| ==>
      h[n].ptrs[j].Child? && h[n].ptrs[j].node in h && h[h[n].ptrs[j].node].parent == n && h[n].ptrs[j].node != n
  {
    assert Good(h, recs, n);
    forall j: nat | j < |h[n].ptrs| ensures Edge(h, n, j) && h[n].ptrs[j].node != n {
      assert Edge(h, n, j);
    }
  }

  // The children behind position s are exactly the ones a split at s moves.
  lemma MovesIff(h: Heap, recs: Recs, n: Node, s: nat, x: Node)
    requires WellFormed(h, recs) && n in h && x in h && !h[n].isLeaf && s < |h[n].keys|
    requires |h[n].ptrs| == |h[n].keys| + 1
    ensures Child(x) in h[n].ptrs[s + 1..] <==> Moves(h[n], n, s, h[x])
  {
    assert Good(h, recs, n);
    if Child(x) in h[n].ptrs[s + 1..] {
      var j :| s + 1 <= j < |h[n].ptrs| && h[n].ptrs[j] == Child(x);
      assert Edge(h, n, j);
    }
    if Moves(h[n], n, s, h[x]) {
      var j := FindSlot(h, recs, x);
      assert h[n].ptrs[s + 1..][j - s - 1] == Child(x);
    }
  }

  // An internal node p, overfull with value v, is split between itself and r; the new separator is pending.
  lemma InnerSplitPending(h: Heap, hs: Heap, recs: Recs, order: nat, fill: Fill, p: Node, v: NodeVal, r: Node)
      returns (j: nat)
    requires order >= 3 && null in h && p in h && WellFormed(h[p := v], recs) && Sized(h[p := v], order, fill, p)
    requires h[null].keys == [] && r !in h
    requires !v.isLeaf && |v.keys| == order && |v.ptrs| == order + 1
    requires var s := Cut(order) - 1; hs == Adopt(h[p := LeftHalf(v, s, r)][r := RightHalf(v, s)],
        RightHalf(v, s).ptrs, r)
    ensures null in hs && p in hs && Pending(hs, recs, order, fill, p, hs[p].hi, r, j)
    ensures hs[null] == h[null] && hs[p].height == v.height
  {
    var s := Cut(order) - 1;
    Overwritten(h, p, v, LeftHalf(v, s, r), r, RightHalf(v, s));
    j := InnerSplitFrom(h[p := v], hs, recs, order, fill, p, r);
  }

  lemma AdoptHeights(h: Heap, p: Node, a: NodeVal, r: Node, b: NodeVal, kids: seq<Ptr>, x: Node)
    requires p in h && a.height == h[p].height && r !in h && x in h
    ensures var hs := Adopt(h[p := a][r := b], kids, r); x in hs && hs[x].height == h[x].height
  {
  }

  // Everything a split of the full parent of a pending entry needs
  lemma CutReady(h: Heap, recs: Recs, order: nat, fill: Fill, left: Node, key: nat, right: Node, i: nat, p: Node)
      returns (v: NodeVal)
    requires order >= 3 && Pending(h, recs, order, fill, left, key, right, i) && h[left].parent == p
    requires |h[p].keys| == order - 1
    ensures p in h && !h[p].isLeaf && |h[p].ptrs| == order && i <= order - 1 && v == AddEntry(h[p], i, key, right)
    ensures WellFormed(h[p := v], recs) && Sized(h[p := v], order, fill, p)
    ensures !v.isLeaf && |v.keys| == order && |v.ptrs| == order + 1 && v.height == h[p].height == h[left].height + 1
    ensures forall c :: c in RightHalf(v, Cut(order) - 1).ptrs ==> c.Child? && c.node in h
  {
    PendingSlot(h, recs, order, fill, left, key, right, i);
    PendingChildren(h, recs, order, fill, left, key, right, i);
    PendingFull(h, recs, order, fill, left, key, right, i);
    v := AddEntry(h[p], i, key, right);
  }

  lemma Overwritten(h: Heap, p: Node?, v: NodeVal, a: NodeVal, r: Node, b: NodeVal)
    ensures h[p := v][p := a][r := b] == h[p := a][r := b]
  {
  }

  // The parent of a pending entry, with the entry put in
  lemma PendingFull(h: Heap, recs: Recs, order: nat, fill: Fill, left: Node, key: nat, right: Node, i: nat)
    requires order >= 3 && Pending(h, recs, order, fill, left, key, right, i) && h[left].parent != null
    ensures var p := h[left].parent;
      && i <= |h[p].keys| && i < |h[p].ptrs|
      && var g := h[p := AddEntry(h[p], i, key, right)];
      && WellFormed(g, recs) && Sized(g, order, fill, p) && g[null] == h[null]
      && !g[p].isLeaf && |g[p].ptrs| == |g[p].keys| + 1 && g[p].height == h[left].height + 1
  {
    var p := h[left].parent;
    var g := h[p := AddEntry(h[p], i, key, right)];
    var c := FindSlot(g, recs, left);
    Shape(g, recs, p);
  }

  lemma InnerSplitFrom(g: Heap, hs: Heap, recs: Recs, order: nat, fill: Fill, p: Node, r: Node) returns (j: nat)
    requires order >= 3 && WellFormed(g, recs) && Sized(g, order, fill, p) && g[null].keys == [] && r !in g
    requires p in g && !g[p].isLeaf && |g[p].keys| == order && |g[p].ptrs| == order + 1
    requires var s := Cut(order) - 1; hs == Adopt(g[p := LeftHalf(g[p], s, r)][r := RightHalf(g[p], s)],
        RightHalf(g[p], s).ptrs, r)
    ensures null in hs && p in hs && Pending(hs, recs, order, fill, p, hs[p].hi, r, j)
    ensures hs[null] == g[null] && hs[p].height == g[p].height
  {
    var s := Cut(order) - 1;
    j := FindSlot(g, recs, p);
    InnerSplitIs(g, hs, recs, p, s, j, r);
    InnerSplitSized(g, hs, recs, order, fill, p, s, j, r);
  }

  lemma InnerSplitSized(g: Heap, hs: Heap, recs: Recs, order: nat, fill: Fill, p: Node, s: nat, j: nat, r: Node)
    requires order >= 3 && WellFormed(g, recs) && Sized(g, order, fill, p) && g[null].keys == [] && p in g
    requires !g[p].isLeaf
    requires |g[p].keys| == order && s == Cut(order) - 1 && |g[p].ptrs| == order + 1 && SlotOf(g, p, j) && r !in g
    requires g[p].parent in hs && p in hs && r in hs && hs[g[p].parent] == g[g[p].parent]
    requires hs[p] == LeftHalf(g[p], s, r) && hs[r] == RightHalf(g[p], s)
    requires null in hs && hs[null] == g[null] && |g[g[p].parent].ptrs| == |g[g[p].parent].keys| + 1
    requires IsSplit(g, hs[g[p].parent := AddEntry(g[g[p].parent], j, g[p].keys[s], r)], p, r, s, g[p].parent, j)
    ensures Pending(hs, recs, order, fill, p, hs[p].hi, r, j)
  {
    var gp := g[p].parent;
    if gp != null { assert Fits(g, order, fill, gp) && Fits(hs, order, fill, gp); }
    var h' := hs[gp := AddEntry(hs[gp], j, g[p].keys[s], r)];
    SplitPreserves(g, h', recs, p, r, s, gp, j);
    SplitSized(g, h', recs, order, fill, p, r, s, gp, j);
  }

  lemma InnerSplitIs(g: Heap, hs: Heap, recs: Recs, p: Node, s: nat, j: nat, r: Node)
    requires WellFormed(g, recs) && p in g && !g[p].isLeaf && s < |g[p].keys| && |g[p].ptrs| == |g[p].keys| + 1
    requires SlotOf(g, p, j) && r !in g
    requires hs == Adopt(g[p := LeftHalf(g[p], s, r)][r := RightHalf(g[p], s)], RightHalf(g[p], s).ptrs, r)
    ensures g[p].parent in hs && p in hs && r in hs && hs[g[p].parent] == g[g[p].parent]
    ensures hs[p] == LeftHalf(g[p], s, r) && hs[r] == RightHalf(g[p], s)
    ensures |g[g[p].parent].ptrs| == |g[g[p].parent].keys| + 1 && null in hs && hs[null] == g[null]
    ensures IsSplit(g, hs[g[p].parent := AddEntry(g[g[p].parent], j, g[p].keys[s], r)], p, r, s, g[p].parent, j)
  {
    var gp := g[p].parent;
    var _ := FindSlot(g, recs, p);
    Shape(g, recs, gp);
    assert Good(g, recs, p);
    Children(g, recs, p);
    MovesIff(g, recs, p, s, p);
    if gp != null {
      var _ := FindSlot(g, recs, gp);
      MovesIff(g, recs, p, s, gp);
    }
    var h' := hs[gp := AddEntry(g[gp], j, g[p].keys[s], r)];
    forall x: Node? | x in g && x != p && x != gp ensures SplitKeeps(g, h', p, r, s, x) {
      if x != null { MovesIff(g, recs, p, s, x); }
    }
  }

  // ---------- between a merge and the update of the parent ----------

  // Node n must still lose entry i: the heap is well formed once it has.
  ghost predicate Doomed(h: Heap, recs: Recs, order: nat, fill: Fill, n: Node, i: nat)
    requires order >= 3
  {
    && n in h && null in h && h[null].keys == [] && Fits(h, order, fill, n)
    && i < |h[n].keys| && |h[n].ptrs| == |h[n].keys| + (if h[n].isLeaf then 0 else 1)
    && (forall j :: 0 <= j < i ==> h[n].keys[j] < h[n].keys[i])
    && (forall j :: 0 <= j < |h[n].ptrs| && h[n].ptrs[j] == h[n].ptrs[if h[n].isLeaf then i else i + 1] ==>
        j == if h[n].isLeaf then i else i + 1)
    && var h' := h[n := WithoutEntry(h[n], i)];
    && WellFormed(h', recs) && Sized(h', order, fill, n)
  }

  lemma LeafDoomed(h: Heap, recs: Recs, order: nat, fill: Fill, n: Node, i: nat)
    requires order >= 3 && WellFormed(h, recs) && Sized(h, order, fill, null) && h[null].keys == []
    requires n in h && h[n].isLeaf && i < |h[n].keys|
    requires forall j, k :: j in recs && k in recs && j != k ==> recs[j] != recs[k]
    ensures |h[n].ptrs| == |h[n].keys| && Doomed(h, recs - {h[n].keys[i]}, order, fill, n, i)
  {
    assert Good(h, recs, n) && Fits(h, order, fill, n);
    RemovePreserves(h, recs, n, i);
    var h' := h[n := WithoutEntry(h[n], i)];
    forall x | x in h' && x != null && x != n ensures Fits(h', order, fill, x) {
      assert Fits(h, order, fill, x);
    }
  }

  lemma MergeDoomed(h: Heap, hs: Heap, recs: Recs, order: nat, fill: Fill, l: Node, r: Node, p: Node, i: nat, x: Node)
    requires order >= 3 && WellFormed(h, recs) && h[null].keys == [] && (x == l || x == r) && Sized(h, order, fill, x)
    requires p in h && !h[p].isLeaf && i < |h[p].keys| && |h[p].ptrs| == |h[p].keys| + 1
    requires h[p].ptrs[i] == Child(l) && h[p].ptrs[i + 1] == Child(r)
    requires l in h && r in h && |h[l].keys| + |h[r].keys| + (if h[l].isLeaf then 0 else 1) <= order - 1
    requires var v := Joined(h[l], h[p].keys[i], h[r]);
      hs == (if h[l].isLeaf then h[l := v] else Adopt(h[l := v], v.ptrs, l)) - {r}
    ensures p in hs && Doomed(hs, recs, order, fill, p, i)
    ensures hs[p] == h[p] && null in hs && hs[null] == h[null] && h[r].parent == p
    ensures h[x].height < h[p].height < h[null].height
    ensures forall y :: y in h && y != r ==> y in hs && hs[y].height == h[y].height
  {
    Neighbours(h, recs, l, r, p, i);
    assert Good(h, recs, p) && Fits(h, order, fill, p);
    forall j | 0 <= j < |h[p].ptrs| && h[p].ptrs[j] == Child(r) ensures j == i + 1 {
      SlotUnique(h, recs, p, i + 1, j);
    }
    var h' := hs[p := DropEntry(h[p], i)];
    forall y: Node? | y in h && y != l ensures y != r ==> y in hs && hs[y] == if h[y].parent == r
        then h[y].(parent := l) else h[y] {
      if y != null { AdoptedIff(h, recs, l, r, p, i, y); }
    }
    AdoptedIff(h, recs, l, r, p, i, l);
    forall y: Node? | y in h && y != l && y != r && y != p ensures MergeKeeps(h, h', l, r, y) {
    }
    var _ := FindSlot(h, recs, p);
    assert h' == hs[p := WithoutEntry(hs[p], i)];
    MergePreserves(h, h', recs, l, r, p, i);
    MergeSized(h, h', order, fill, l, r, p, i, x);
  }

  lemma AdoptedIff(h: Heap, recs: Recs, l: Node, r: Node, p: Node, i: nat, y: Node)
    requires WellFormed(h, recs) && p in h && !h[p].isLeaf && i < |h[p].keys| && |h[p].ptrs| == |h[p].keys| + 1
    requires h[p].ptrs[i] == Child(l) && h[p].ptrs[i + 1] == Child(r) && y in h
    ensures l in h && r in h
    ensures !h[l].isLeaf ==> (Child(y) in h[l].ptrs + h[r].ptrs <==> h[y].parent == l || h[y].parent == r)
    ensures h[l].isLeaf ==> h[y].parent != l && h[y].parent != r
    ensures h[l].parent == p && p != l && p != r
  {
    Neighbours(h, recs, l, r, p, i);
    if !h[l].isLeaf {
      Children(h, recs, l);
      Children(h, recs, r);
    }
    assert Good(h, recs, y);
  }

  // ---------- redistribution: a merge followed by a split elsewhere ----------

  ghost predicate Redealt(h: Heap, h': Heap, l: Node, r: Node, sep: nat, x: Node?) {
    x in h && x in h' && h'[x] ==
      if h[x].parent == l || h[x].parent == r then h[x].(parent := if sep <= h[x].lo then r else l) else h[x]
  }

  // Children i (l) and i + 1 (r) of p are dealt out again around key position s of their union.
  ghost predicate IsRedistribution(h: Heap, h': Heap, l: Node, r: Node, p: Node, i: nat, s: nat) {
    && l in h && r in h && p in h && i < |h[p].keys| && |h[p].ptrs| == |h[p].keys| + 1 && !h[p].isLeaf
    && h[p].ptrs[i] == Child(l) && h[p].ptrs[i + 1] == Child(r) && h[l].parent == p
    && var v := Joined(h[l], h[p].keys[i], h[r]);
    && |v.ptrs| == |v.keys| + (if v.isLeaf then 0 else 1) && 0 < s < |v.keys|
    && h'.Keys == h.Keys
    && h'[l] == LeftHalf(v, s, r) && h'[r] == RightHalf(v, s)
    && h'[p] == h[p].(keys := h[p].keys[i := v.keys[s]])
    && (forall x {:trigger Redealt(h, h', l, r, v.keys[s], x)} ::
        x in h && x != l && x != r && x != p ==> Redealt(h, h', l, r, v.keys[s], x))
  }

  lemma RedistributionPreserves(h: Heap, h': Heap, recs: Recs, l: Node, r: Node, p: Node, i: nat, s: nat)
    requires WellFormed(h, recs) && IsRedistribution(h, h', l, r, p, i, s)
    ensures WellFormed(h', recs)
  {
    Neighbours(h, recs, l, r, p, i);
    var v := Joined(h[l], h[p].keys[i], h[r]);
    JoinedLocal(h[l], h[r]);
    var m := map x | x in h && x != r :: if x == l then v else if x == p then DropEntry(h[p], i)
      else if h[x].parent == r then h[x].(parent := l) else h[x];
    forall x | x in h && x != l && x != r && x != p ensures MergeKeeps(h, m, l, r, x) {
    }
    assert IsMerge(h, m, l, r, p, i);
    MergePreserves(h, m, recs, l, r, p, i);
    forall x | x in m && x != l && x != p ensures SplitKeeps(m, h', l, r, s, x) {
      assert Redealt(h, h', l, r, v.keys[s], x);
      if v.isLeaf { assert Good(h, recs, x); }
    }
    assert h'[p].keys == InsertAt(m[p].keys, i, v.keys[s]);
    assert h'[p].ptrs == InsertAt(m[p].ptrs, i + 1, Child(r));
    assert IsSplit(m, h', l, r, s, p, i);
    SplitPreserves(m, h', recs, l, r, s, p, i);
  }

  lemma RedistributionSized(h: Heap, h': Heap, recs: Recs, order: nat, fill: Fill, l: Node, r: Node, p: Node, i: nat,
      s: nat, x: Node)
    requires order >= 3 && WellFormed(h, recs) && IsRedistribution(h, h', l, r, p, i, s)
    requires (x == l || x == r) && Sized(h, order, fill, x) && h[null].keys == []
    requires 1 <= |h'[l].keys| <= order - 1 && 1 <= |h'[r].keys| <= order - 1
    requires fill.HalfFull? ==>
      MinKeys(order, h[l].isLeaf) <= |h'[l].keys| && MinKeys(order, h[l].isLeaf) <= |h'[r].keys|
    ensures null in h' && Sized(h', order, fill, null)
  {
    Neighbours(h, recs, l, r, p, i);
    var sep := Joined(h[l], h[p].keys[i], h[r]).keys[s];
    assert Redealt(h, h', l, r, sep, null);
    forall y | y in h' && y != null ensures Fits(h', order, fill, y) {
      if y == p {
        assert Fits(h, order, fill, p);
      } else if y != l && y != r {
        assert Fits(h, order, fill, y) && Redealt(h, h', l, r, sep, y);
      }
    }
  }

  // Slot c changes hands: if it is a child, its parent pointer is redirected.
  ghost function Handed(h: Heap, c: Ptr, q: Node): Heap {
    if c.Child? && c.node in h then h[c.node := h[c.node].(parent := q)] else h
  }

  // Moving one slot across the separator, in either direction, is a redistribution.
  lemma BorrowIs(h: Heap, hs: Heap, recs: Recs, l: Node, r: Node, p: Node, i: nat, fromLeft: bool)
    requires WellFormed(h, recs) && p in h && !h[p].isLeaf && i < |h[p].keys| && |h[p].ptrs| == |h[p].keys| + 1
    requires h[p].ptrs[i] == Child(l) && h[p].ptrs[i + 1] == Child(r) && l in h && r in h
    requires |(if fromLeft then h[l] else h[r]).keys| >= 2
    requires |h[l].ptrs| == |h[l].keys| + (if h[l].isLeaf then 0 else 1)
    requires |h[r].ptrs| == |h[r].keys| + (if h[l].isLeaf then 0 else 1)
    requires hs == Borrowed(h, l, r, p, i, fromLeft)
    ensures IsRedistribution(h, hs, l, r, p, i, if fromLeft then |h[l].keys| - 1 else |h[l].keys| + 1)
  {
    Neighbours(h, recs, l, r, p, i);
    var v, s := Joined(h[l], h[p].keys[i], h[r]), if fromLeft then |h[l].keys| - 1 else |h[l].keys| + 1;
    var _ := FindSlot(h, recs, p);
    if h[l].isLeaf {
      assert Good(h, recs, l) && Good(h, recs, r);
    } else {
      Children(h, recs, l);
      Children(h, recs, r);
    }
    forall x: Node? | x in h && x != l && x != r && x != p ensures Redealt(h, hs, l, r, v.keys[s], x) {
      BorrowKeeps(h, hs, recs, l, r, p, i, fromLeft, x);
    }
  }

  lemma BorrowKeeps(h: Heap, hs: Heap, recs: Recs, l: Node, r: Node, p: Node, i: nat, fromLeft: bool, x: Node?)
    requires WellFormed(h, recs) && p in h && !h[p].isLeaf && i < |h[p].keys| && |h[p].ptrs| == |h[p].keys| + 1
    requires h[p].ptrs[i] == Child(l) && h[p].ptrs[i + 1] == Child(r) && l in h && r in h && h[l].isLeaf == h[r].isLeaf
    requires |(if fromLeft then h[l] else h[r]).keys| >= 2
    requires |h[l].ptrs| == |h[l].keys| + (if h[l].isLeaf then 0 else 1)
    requires |h[r].ptrs| == |h[r].keys| + (if h[l].isLeaf then 0 else 1)
    requires hs == Borrowed(h, l, r, p, i, fromLeft) && x in h && x != l && x != r && x != p
    ensures var v, s := Joined(h[l], h[p].keys[i], h[r]), if fromLeft then |h[l].keys| - 1 else |h[l].keys| + 1;
      s < |v.keys| && Redealt(h, hs, l, r, v.keys[s], x)
  {
    var v, s := Joined(h[l], h[p].keys[i], h[r]), if fromLeft then |h[l].keys| - 1 else |h[l].keys| + 1;
    Neighbours(h, recs, l, r, p, i);
    if x != null {
      ChildInside(h, recs, x);
      if h[l].isLeaf {
        assert Good(h, recs, l) && Good(h, recs, r);
      } else {
        Children(h, recs, l);
        Children(h, recs, r);
        assert v.keys[s] == if fromLeft then h[l].keys[s] else h[r].keys[0];
        if fromLeft {
          assert h[l].ptrs[s + 1..] == [h[l].ptrs[s + 1]];
          MovesIff(h, recs, l, s, x);
        } else {
          FirstChildIff(h, recs, r, x);
        }
      }
    }
  }

  lemma FirstChildIff(h: Heap, recs: Recs, n: Node, x: Node)
    requires WellFormed(h, recs) && n in h && x in h && !h[n].isLeaf && |h[n].keys| > 0
    requires |h[n].ptrs| == |h[n].keys| + 1
    ensures h[n].ptrs[0] == Child(x) ==> h[x].parent == n
    ensures h[x].parent == n ==> (h[n].ptrs[0] == Child(x) <==> h[x].lo < h[n].keys[0])
  {
    assert Good(h, recs, n) && Edge(h, n, 0);
    if h[x].parent == n {
      var j := FindSlot(h, recs, x);
    }
  }

  lemma ChildInside(h: Heap, recs: Recs, x: Node)
    requires WellFormed(h, recs) && x in h
    ensures h[x].parent in h && !h[h[x].parent].isLeaf && h[h[x].parent].lo <= h[x].lo < h[h[x].parent].hi
  {
    var j := FindSlot(h, recs, x);
    assert Good(h, recs, h[x].parent);
  }

  // Adjacent leaves under one parent are adjacent in the chain.
  lemma ChainNext(h: Heap, recs: Recs, l: Node, r: Node, p: Node?, i: nat)
    requires WellFormed(h, recs) && p in h && !h[p].isLeaf
    requires i < |h[p].keys| && i + 1 < |h[p].ptrs| && h[p].ptrs[i] == Child(l) && h[p].ptrs[i + 1] == Child(r)
    requires l in h && h[l].isLeaf
    ensures h[l].next == Child(r)
  {
    Neighbours(h, recs, l, r, p, i);
    assert Good(h, recs, l);
    assert Good(h, recs, h[l].next.node);
    OwnerUnique(h, recs, h[l].next.node, r, h[r].lo);
  }

  lemma RootHangs(h: Heap, recs: Recs, root: Node)
    requires WellFormed(h, recs) && h[null].ptrs == [Child(root)]
    ensures root in h && h[root].parent == null
  {
    assert Good(h, recs, null) && Edge(h, null, 0);
  }

  lemma OnlyRoot(h: Heap, recs: Recs, root: Node, n: Node)
    requires WellFormed(h, recs) && h[null].ptrs == [Child(root)] && n in h && n != root
    ensures h[n].parent != null
  {
    var _ := FindSlot(h, recs, n);
  }

  lemma StillSized(h: Heap, order: nat, fill: Fill, n: Node)
    requires order >= 3 && null in h && n in h && Sized(h, order, fill, n) && Fits(h, order, fill, n)
    ensures Sized(h, order, fill, null)
  {
    forall x | x in h && x != null ensures Fits(h, order, fill, x) {
    }
  }

  lemma ShrinkRoot(h: Heap, recs: Recs, order: nat, fill: Fill, root: Node)
    requires order >= 3 && WellFormed(h, recs) && root in h && !h[root].isLeaf && h[root].keys == []
    requires Sized(h, order, fill, root)
    requires h[null] == NodeVal(false, [], [Child(root)], Nil, null, 0, KEY_LIMIT, h[root].height + 1)
    ensures |h[root].ptrs| == 1 && h[root].ptrs[0].Child? && h[root].ptrs[0].node in h && h[root].ptrs[0].node != root
    ensures var c := h[root].ptrs[0].node; var h' := (h[c := h[c].(parent := null)] - {root})[null := h[root]];
      && WellFormed(h', recs) && Sized(h', order, fill, null)
      && h'[null] == NodeVal(false, [], [Child(c)], Nil, null, 0, KEY_LIMIT, h'[c].height + 1)
  {
    assert Good(h, recs, null) && Edge(h, null, 0) && Good(h, recs, root) && Edge(h, root, 0);
    var c := h[root].ptrs[0].node;
    var h' := (h[c := h[c].(parent := null)] - {root})[null := h[root]];
    forall x: Node? | x in h && x != null && x != root ensures Rehung(h, h', root, null, x) {
      if h[x].parent == root { var _ := FindSlot(h, recs, x); }
    }
    ShrinkPreserves(h, h', recs, root);
    ShrinkSized(h, h', recs, order, fill, root);
  }

  lemma EmptyRoot(h: Heap, recs: Recs, root: Node)
    requires WellFormed(h, recs) && root in h && h[root].isLeaf && h[root].keys == [] && h[null].ptrs == [Child(root)]
    requires h[null].keys == []
    requires forall k :: k in recs ==> k < KEY_LIMIT
    ensures recs == map[]
  {
    assert Good(h, recs, null) && Edge(h, null, 0) && Good(h, recs, root);
    var keys := h[root].keys;
    assert forall k :: k in recs ==> k in keys;
  }

  lemma NeighbourOf(h: Heap, recs: Recs, order: nat, fill: Fill, n: Node, slot: nat)
    requires order >= 3 && WellFormed(h, recs) && Sized(h, order, fill, n) && SlotOf(h, n, slot) && h[n].parent != null
    requires h[n].parent in h ==> h[h[n].parent].keys != []
    ensures var p := h[n].parent;
      && p in h && p != n && !h[p].isLeaf && |h[p].ptrs| == |h[p].keys| + 1 && 1 <= |h[p].keys| <= order - 1
      && var i := if slot == 0 then 0 else slot - 1;
      && h[p].ptrs[i].Child? && h[p].ptrs[i].node in h && h[p].ptrs[i + 1].Child? && h[p].ptrs[i + 1].node in h
      && var l, r := h[p].ptrs[i].node, h[p].ptrs[i + 1].node;
      && l != r && (n == l || n == r) && h[l].isLeaf == h[r].isLeaf && h[l].height == h[r].height
      && Fits(h, order, fill, if n == l then r else l)
    ensures h[n].height < h[null].height
  {
    var _ := FindSlot(h, recs, n);
    var p := h[n].parent;
    assert Fits(h, order, fill, p);
    Children(h, recs, p);
    Shape(h, recs, p);
    var i := if slot == 0 then 0 else slot - 1;
    Neighbours(h, recs, h[p].ptrs[i].node, h[p].ptrs[i + 1].node, p, i);
  }

  // The heap after one slot crossed the separator between l and r, children i and i + 1 of p.
  ghost function Borrowed(h: Heap, l: Node, r: Node, p: Node, i: nat, fromLeft: bool): Heap
    requires l in h && r in h && p in h && i < |h[p].keys| && |(if fromLeft then h[l] else h[r]).keys| >= 2
    requires |h[l].ptrs| == |h[l].keys| + (if h[l].isLeaf then 0 else 1)
    requires |h[r].ptrs| == |h[r].keys| + (if h[l].isLeaf then 0 else 1)
  {
    var v := Joined(h[l], h[p].keys[i], h[r]);
    var s := if fromLeft then |h[l].keys| - 1 else |h[l].keys| + 1;
    var c := if fromLeft then h[l].ptrs[|h[l].ptrs| - 1] else h[r].ptrs[0];
    Handed(h[l := LeftHalf(v, s, r)][r := RightHalf(v, s)][p := h[p].(keys := h[p].keys[i := v.keys[s]])],
           c, if fromLeft then r else l)
  }

  lemma BorrowedOK(h: Heap, recs: Recs, order: nat, fill: Fill, l: Node, r: Node, p: Node, i: nat, fromLeft: bool)
    requires order >= 3 && WellFormed(h, recs) && p in h && !h[p].isLeaf && i < |h[p].keys|
    requires |h[p].ptrs| == |h[p].keys| + 1
    requires h[p].ptrs[i] == Child(l) && h[p].ptrs[i + 1] == Child(r) && l in h && r in h
    requires |h[l].ptrs| == |h[l].keys| + (if h[l].isLeaf then 0 else 1)
    requires |h[r].ptrs| == |h[r].keys| + (if h[l].isLeaf then 0 else 1)
    requires h[null].keys == [] && Sized(h, order, fill, if fromLeft then r else l)
    requires var n := if fromLeft then h[r] else h[l]; var m := if fromLeft then h[l] else h[r];
      && Short(order, fill, n) && 2 <= |m.keys| <= order - 1
      && |n.keys| + |m.keys| >= if n.isLeaf then order else order - 1
    ensures var hs := Borrowed(h, l, r, p, i, fromLeft);
      && WellFormed(hs, recs) && Sized(hs, order, fill, null) && hs[null] == h[null]
      && forall x :: x in h ==> x in hs && hs[x].height == h[x].height
  {
    var hs, s := Borrowed(h, l, r, p, i, fromLeft), if fromLeft then |h[l].keys| - 1 else |h[l].keys| + 1;
    Neighbours(h, recs, l, r, p, i);
    BorrowIs(h, hs, recs, l, r, p, i, fromLeft);
    RedistributionPreserves(h, hs, recs, l, r, p, i, s);
    RedistributionSized(h, hs, recs, order, fill, l, r, p, i, s, if fromLeft then r else l);
  }

  lemma InsertOK(h: Heap, recs: Recs, order: nat, fill: Fill, n: Node, key: nat, rec: Record)
    requires order >= 3 && WellFormed(h, recs) && Sized(h, order, fill, null)
    requires n in h && h[n].isLeaf && |h[n].keys| < order - 1 && Owns(h[n], key) && key !in recs
    ensures |h[n].ptrs| == |h[n].keys|
    ensures var v := WithEntry(h[n], key, Rec(rec)); var h' := h[n := v];
      WellFormed(h', recs[key := rec]) && Sized(h', order, fill, null) && v.height == h[n].height
  {
    Shape(h, recs, n);
    InsertPreserves(h, recs, n, key, rec);
    var h' := h[n := WithEntry(h[n], key, Rec(rec))];
    forall x | x in h' && x != null ensures Fits(h', order, fill, x) {
      assert Fits(h, order, fill, x);
    }
  }

  lemma SingletonOK(h: Heap, recs: Recs, order: nat, fill: Fill, r: Node, key: nat, rec: Record)
    requires order >= 3 && key < KEY_LIMIT && recs == map[key := rec]
    requires h == map[r := NodeVal(true, [key], [Rec(rec)], Nil, null, 0, KEY_LIMIT, 0),
                      null := NodeVal(false, [], [Child(r)], Nil, null, 0, KEY_LIMIT, 1)]
    ensures WellFormed(h, recs) && Sized(h, order, fill, null)
  {
    assert Edge(h, null, 0);
    assert h[null].ptrs[0] == Child(r);
    assert Good(h, recs, null) && Good(h, recs, r);
    assert Fits(h, order, fill, r);
  }

  lemma LeafSorted(h: Heap, recs: Recs, n: Node)
    requires WellFormed(h, recs) && n in h
    ensures forall i, j :: 0 <= i < j < |h[n].keys| ==> h[n].keys[i] < h[n].keys[j]
  {
    assert Good(h, recs, n);
  }

  lemma EntryOf(h: Heap, recs: Recs, n: Node, key: nat) returns (i: nat)
    requires WellFormed(h, recs) && n in h && h[n].isLeaf && Owns(h[n], key) && key in recs
    ensures i < |h[n].keys| == |h[n].ptrs| && h[n].keys[i] == key && h[n].ptrs[i] == Rec(recs[key])
  {
    assert Good(h, recs, n);
    i :| i < |h[n].keys| && h[n].keys[i] == key;
  }

  // ---------- the leaf chain ----------

  // keys lists the keys of the map below bound, in increasing order.
  ghost predicate Listed(recs: Recs, keys: seq<nat>, bound: nat) {
    && (forall k :: k in keys <==> k in recs && k < bound)
    && (forall i, j :: 0 <= i < j < |keys| ==> keys[i] < keys[j])
  }

  lemma ListedMore(h: Heap, recs: Recs, keys: seq<nat>, n: Node)
    requires WellFormed(h, recs) && n in h && h[n].isLeaf && Listed(recs, keys, h[n].lo)
    ensures Listed(recs, keys + h[n].keys, h[n].hi) && h[n].lo < h[n].hi <= KEY_LIMIT
    ensures if h[n].next == Nil then h[n].hi == KEY_LIMIT
            else h[n].next.Child? && h[n].next.node in h && h[h[n].next.node].isLeaf && h[h[n].next.node].lo == h[n].hi
  {
    assert Good(h, recs, n);
    var v, all := h[n], keys + h[n].keys;
    forall k ensures k in all <==> k in recs && k < v.hi {
      assert k in all <==> k in keys || k in v.keys;
      if k in recs && v.lo <= k < v.hi { assert k in v.keys; }
    }
    forall i, j | 0 <= i < j < |all| ensures all[i] < all[j] {
      if i < |keys| <= j { assert all[i] in keys; }
    }
  }
}
