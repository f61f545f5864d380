/** Deletions of sources/btree/btree.c that cannot be completed. In a tree whose nodes may have a single child, as
    bulk_load can leave them, delete_entry may come to an underfull node that has no neighbour: the source then reads
    the first key and the second pointer of a parent that has neither. */
module BTreeStuck {
  import opened BTreeNode
  import opened BTreeShape

  // ---------- when a deletion gets stuck ----------

  // With k keys left, node n in slot i of its parent is merged with its neighbour.
  ghost predicate Merges(h: Heap, order: nat, n: Node, k: int, i: nat)
    requires order >= 3 && n in h
  {
    && SlotOf(h, n, i)
    && var ptrs, j := h[h[n].parent].ptrs, if i == 0 then 1 else i - 1;
    && j < |ptrs| && ptrs[j].Child? && ptrs[j].node in h && h[ptrs[j].node].height == h[n].height
    && |h[ptrs[j].node].keys| + k < if h[n].isLeaf then order else order - 1
  }

  // The levels above n
  ghost function Levels(h: Heap, n: Node): nat
    requires n in h
  {
    if null in h && h[n].height < h[null].height then h[null].height - h[n].height else 0
  }

  /** Leaving node n with k keys leads to a node without neighbour: n underflows and is an only child, or it is merged
      and the loss of the separator leads its parent there. */
  ghost predicate Stuck(h: Heap, order: nat, n: Node, k: int)
    requires order >= 3 && n in h
    decreases Levels(h, n)
  {
    var p := h[n].parent;
    && null in h && p != null && p in h && h[n].height < h[p].height <= h[null].height
    && k < MinKeys(order, h[n].isLeaf)
    && (h[p].keys == [] || ((exists i: nat :: Merges(h, order, n, k, i)) && Stuck(h, order, p, |h[p].keys| - 1)))
  }

  /** The deletion of key cannot be completed. */
  ghost predicate StuckOn(h: Heap, order: nat, key: nat)
    requires order >= 3
  {
    exists n: Node :: n in h && h[n].isLeaf && key in h[n].keys && Stuck(h, order, n, |h[n].keys| - 1)
  }

  // The parent of a node lies one level above it.
  lemma Upwards(h: Heap, recs: Recs, n: Node)
    requires WellFormed(h, recs) && n in h
    ensures var p := h[n].parent; p in h && h[n].height + 1 == h[p].height <= h[null].height && !h[p].isLeaf
  {
    var i := FindSlot(h, recs, n);
    assert Good(h, recs, h[n].parent);
  }

  lemma MergesAt(h: Heap, recs: Recs, order: nat, n: Node, k: int, slot: nat)
    requires order >= 3 && WellFormed(h, recs) && n in h && SlotOf(h, n, slot)
    ensures (exists i: nat :: Merges(h, order, n, k, i)) <==> Merges(h, order, n, k, slot)
  {
    var _ := FindSlot(h, recs, n);
    forall i: nat | Merges(h, order, n, k, i) ensures i == slot {
      SlotUnique(h, recs, h[n].parent, i, slot);
    }
  }

  lemma StuckStep(h: Heap, recs: Recs, order: nat, n: Node, k: int, slot: nat)
    requires order >= 3 && WellFormed(h, recs) && n in h && SlotOf(h, n, slot) && h[n].parent != null
    ensures var p := h[n].parent;
      && p in h
      && (Stuck(h, order, n, k) <==>
          && k < MinKeys(order, h[n].isLeaf)
          && (h[p].keys == [] || (Merges(h, order, n, k, slot) && Stuck(h, order, p, |h[p].keys| - 1))))
  {
    Upwards(h, recs, n);
    MergesAt(h, recs, order, n, k, slot);
  }

  // h' is h, except for what lies below n and what n itself holds.
  ghost predicate SameAbove(h: Heap, h': Heap, n: Node) {
    && n in h && n in h' && null in h && null in h'
    && h'[n].parent == h[n].parent && h'[n].isLeaf == h[n].isLeaf && h'[n].height == h[n].height
    && forall x: Node? {:trigger h[x]} :: x in h && x != n && h[x].height >= h[n].height ==> x in h' && h'[x] == h[x]
  }

  lemma SameMerges(h: Heap, recs: Recs, h': Heap, order: nat, n: Node, k: int, i: nat)
    requires order >= 3 && WellFormed(h, recs) && SameAbove(h, h', n)
    ensures Merges(h', order, n, k, i) <==> Merges(h, order, n, k, i)
  {
    Upwards(h, recs, n);
    var p := h[n].parent;
    assert h'[p] == h[p];
    Children(h, recs, p);
    var j := if i == 0 then 1 else i - 1;
    if SlotOf(h, n, i) && j < |h[p].ptrs| {
      assert Good(h, recs, p) && Edge(h, p, j);
      if h[p].ptrs[j].node == n { SlotUnique(h, recs, p, i, j); }
    }
  }

  lemma {:induction false} SameStuck(h: Heap, recs: Recs, h': Heap, order: nat, n: Node, k: int)
    requires order >= 3 && WellFormed(h, recs) && SameAbove(h, h', n)
    ensures Stuck(h', order, n, k) <==> Stuck(h, order, n, k)
    decreases Levels(h, n)
  {
    Upwards(h, recs, n);
    var p := h[n].parent;
    assert h'[p] == h[p] && h'[null] == h[null];
    if p != null {
      forall i: nat ensures Merges(h', order, n, k, i) <==> Merges(h, order, n, k, i) {
        SameMerges(h, recs, h', order, n, k, i);
      }
      SameStuck(h, recs, h', order, p, |h[p].keys| - 1);
    }
  }

  // Where no node is empty, every node has a neighbour.
  lemma {:induction false} NeverStuck(h: Heap, recs: Recs, order: nat, fill: Fill, n: Node, k: int)
    requires order >= 3 && WellFormed(h, recs) && Sized(h, order, fill, null) && !fill.AtMost? && n in h
    ensures !Stuck(h, order, n, k)
    decreases Levels(h, n)
  {
    Upwards(h, recs, n);
    var p := h[n].parent;
    if p != null {
      assert Fits(h, order, fill, p);
      NeverStuck(h, recs, order, fill, p, |h[p].keys| - 1);
    }
  }

  // The leaf that decides whether the deletion of key gets stuck is the one responsible for key.
  lemma StuckOnLeaf(h: Heap, recs: Recs, order: nat, leaf: Node, key: nat)
    requires order >= 3 && WellFormed(h, recs) && leaf in h && h[leaf].isLeaf && Owns(h[leaf], key) && key in recs
    ensures StuckOn(h, order, key) <==> Stuck(h, order, leaf, |h[leaf].keys| - 1)
  {
    assert Good(h, recs, leaf) && key in h[leaf].keys;
    forall n: Node | n in h && h[n].isLeaf && key in h[n].keys ensures n == leaf {
      assert Good(h, recs, n);
      OwnerUnique(h, recs, n, leaf, key);
    }
  }

  // A key that is not there is not deleted.
  lemma NotStuckAbsent(h: Heap, recs: Recs, order: nat, key: nat)
    requires order >= 3 && WellFormed(h, recs) && key !in recs
    ensures !StuckOn(h, order, key)
  {
    forall n: Node | n in h && h[n].isLeaf ensures key !in h[n].keys {
      assert Good(h, recs, n);
    }
  }

  // ---------- a node without keys ----------

  // An internal node with a single child, below the root
  ghost predicate Keyless(h: Heap, w: Node) {
    w in h && !h[w].isLeaf && h[w].keys == [] && h[w].parent != null
  }

  // Such a node above n, both responsible for key
  ghost predicate Watched(h: Heap, w: Node?, key: nat, n: Node) {
    w != null ==> Keyless(h, w) && Owns(h[w], key) && n in h && Owns(h[n], key) && h[n].height < h[w].height
  }

  ghost predicate Kept(h: Heap, h': Heap, w: Node?) {
    w != null ==> w in h && w in h' && h'[w] == h[w]
  }

  lemma LeafBelowKeyless(h: Heap, recs: Recs, w: Node?, key: nat, leaf: Node)
    requires WellFormed(h, recs) && leaf in h && h[leaf].isLeaf && Owns(h[leaf], key)
    requires w != null ==> Keyless(h, w) && Owns(h[w], key)
    ensures Watched(h, w, key, leaf)
  {
    assert Good(h, recs, leaf);
    if w != null { assert Good(h, recs, w); }
  }

  lemma WatchUp(h: Heap, recs: Recs, w: Node?, key: nat, n: Node)
    requires WellFormed(h, recs) && n in h && Watched(h, w, key, n) && h[n].parent != null
    ensures var p := h[n].parent; p in h && (h[p].keys != [] ==> Watched(h, w, key, p))
  {
    Upwards(h, recs, n);
    var p := h[n].parent;
    if w != null && h[p].keys != [] {
      var i := FindSlot(h, recs, n);
      assert Good(h, recs, p);
      if h[p].height == h[w].height { OwnerUnique(h, recs, p, w, key); }
    }
  }

  // Nothing is watched above the root.
  lemma WatchTop(h: Heap, recs: Recs, w: Node?, key: nat, root: Node)
    requires WellFormed(h, recs) && root in h && h[root].parent == null && Watched(h, w, key, root)
    ensures w == null
  {
    Upwards(h, recs, root);
    if w != null { Upwards(h, recs, w); }
  }

  // Below every node there is a leaf, and it lies within the node's range.
  lemma {:induction false} LeafBelow(h: Heap, recs: Recs, n: Node) returns (leaf: Node)
    requires WellFormed(h, recs) && n in h
    ensures leaf in h && h[leaf].isLeaf && h[n].lo <= h[leaf].lo && h[leaf].hi <= h[n].hi
    decreases h[n].height
  {
    assert Good(h, recs, n);
    if h[n].isLeaf {
      leaf := n;
    } else {
      assert Edge(h, n, 0);
      leaf := LeafBelow(h, recs, h[n].ptrs[0].node);
    }
  }

  // A node without keys still has a key of the map in its range.
  lemma HasKey(h: Heap, recs: Recs, order: nat, fill: Fill, w: Node) returns (k: nat)
    requires order >= 3 && WellFormed(h, recs) && Sized(h, order, fill, null) && w in h
    ensures k in recs && Owns(h[w], k)
  {
    var leaf := LeafBelow(h, recs, w);
    assert Fits(h, order, fill, leaf) && Good(h, recs, leaf);
    k := h[leaf].keys[0];
  }

  // ---------- what a merge and a redistribution leave alone ----------

  lemma MergeAbove(h: Heap, hs: Heap, recs: Recs, l: Node, r: Node, p: Node, i: nat, v: NodeVal)
    requires WellFormed(h, recs) && p in h && !h[p].isLeaf && i < |h[p].keys| && |h[p].ptrs| == |h[p].keys| + 1
    requires h[p].ptrs[i] == Child(l) && h[p].ptrs[i + 1] == Child(r) && l in h && r in h
    requires v == Joined(h[l], h[p].keys[i], h[r])
    requires hs == (if h[l].isLeaf then h[l := v] else Adopt(h[l := v], v.ptrs, l)) - {r}
    ensures forall x: Node? {:trigger h[x]} :: x in h && h[x].height > h[l].height ==> x in hs && hs[x] == h[x]
    ensures h[l].height < h[p].height && h[r].height == h[l].height
  {
    Neighbours(h, recs, l, r, p, i);
    Upwards(h, recs, l);
    Upwards(h, recs, r);
    if !h[l].isLeaf {
      assert Good(h, recs, l) && Good(h, recs, r);
      forall x: Node | x in h && Child(x) in v.ptrs ensures h[x].height < h[l].height {
        KidBelow(h, recs, l, r, x);
      }
    }
  }

  // Everything the cascade needs after a merge: the separator is doomed, and above nothing has changed.
  lemma MergeWatched(h: Heap, hs: Heap, recs: Recs, order: nat, fill: Fill, l: Node, r: Node, p: Node, i: nat, x: Node,
                     lost: nat, w: Node?)
    requires order >= 3 && WellFormed(h, recs) && h[null].keys == [] && (x == l || x == r) && Sized(h, order, fill, x)
    requires p in h && !h[p].isLeaf && i < |h[p].keys| && |h[p].ptrs| == |h[p].keys| + 1
    requires h[p].ptrs[i] == Child(l) && h[p].ptrs[i + 1] == Child(r)
    requires l in h && r in h && |h[l].keys| + |h[r].keys| + (if h[l].isLeaf then 0 else 1) <= order - 1
    requires var v := Joined(h[l], h[p].keys[i], h[r]);
      hs == (if h[l].isLeaf then h[l := v] else Adopt(h[l := v], v.ptrs, l)) - {r}
    requires Watched(h, w, lost, x)
    ensures p in hs && Doomed(hs, recs, order, fill, p, i) && hs[p] == h[p] && null in hs && hs[null] == h[null]
    ensures h[x].height < h[p].height < h[null].height && h[r].parent == p
    ensures forall y :: y in h && y != r ==> y in hs && hs[y].height == h[y].height
    ensures Watched(hs, w, lost, p) && Kept(h, hs, w)
    ensures Stuck(hs, order, p, |h[p].keys| - 1) <==> Stuck(h, order, p, |h[p].keys| - 1)
  {
    MergeDoomed(h, hs, recs, order, fill, l, r, p, i, x);
    MergeAbove(h, hs, recs, l, r, p, i, Joined(h[l], h[p].keys[i], h[r]));
    Neighbours(h, recs, l, r, p, i);
    WatchUp(h, recs, w, lost, x);
    SameStuck(h, recs, hs, order, p, |h[p].keys| - 1);
  }

  lemma KidBelow(h: Heap, recs: Recs, l: Node, r: Node, x: Node)
    requires WellFormed(h, recs) && l in h && r in h && !h[l].isLeaf && !h[r].isLeaf && h[l].height == h[r].height
    requires Child(x) in h[l].ptrs + h[r].ptrs
    ensures x in h && h[x].height < h[l].height
  {
    assert Good(h, recs, l) && Good(h, recs, r);
    var n := if Child(x) in h[l].ptrs then l else r;
    var j :| 0 <= j < |h[n].ptrs| && h[n].ptrs[j] == Child(x);
    assert Edge(h, n, j);
  }

  lemma BorrowAbove(h: Heap, recs: Recs, l: Node, r: Node, p: Node, i: nat, fromLeft: bool)
    requires WellFormed(h, recs) && p in h && !h[p].isLeaf && i < |h[p].keys| && |h[p].ptrs| == |h[p].keys| + 1
    requires h[p].ptrs[i] == Child(l) && h[p].ptrs[i + 1] == Child(r) && l in h && r in h
    requires |(if fromLeft then h[l] else h[r]).keys| >= 2
    requires |h[l].ptrs| == |h[l].keys| + (if h[l].isLeaf then 0 else 1)
    requires |h[r].ptrs| == |h[r].keys| + (if h[l].isLeaf then 0 else 1)
    ensures var hs := Borrowed(h, l, r, p, i, fromLeft);
      forall x: Node? {:trigger h[x]} :: x in h && x != p && h[x].height > h[l].height ==> x in hs && hs[x] == h[x]
  {
    Neighbours(h, recs, l, r, p, i);
    Upwards(h, recs, l);
    Upwards(h, recs, r);
    var c := if fromLeft then h[l].ptrs[|h[l].ptrs| - 1] else h[r].ptrs[0];
    if h[l].isLeaf {
      Shape(h, recs, l);
      Shape(h, recs, r);
    } else {
      assert Good(h, recs, l) && Good(h, recs, r);
      assert c in h[l].ptrs + h[r].ptrs;
      Children(h, recs, if fromLeft then l else r);
      KidBelow(h, recs, l, r, c.node);
    }
  }

  lemma BorrowWatched(h: Heap, recs: Recs, order: nat, fill: Fill, l: Node, r: Node, p: Node, i: nat, fromLeft: bool,
                      w: Node?)
    requires order >= 3 && WellFormed(h, recs) && p in h && !h[p].isLeaf && i < |h[p].keys|
    requires |h[p].ptrs| == |h[p].keys| + 1
    requires h[p].ptrs[i] == Child(l) && h[p].ptrs[i + 1] == Child(r) && l in h && r in h
    requires |h[l].ptrs| == |h[l].keys| + (if h[l].isLeaf then 0 else 1)
    requires |h[r].ptrs| == |h[r].keys| + (if h[l].isLeaf then 0 else 1)
    requires h[null].keys == [] && Sized(h, order, fill, if fromLeft then r else l)
    requires var n := if fromLeft then h[r] else h[l]; var m := if fromLeft then h[l] else h[r];
      && Short(order, fill, n) && 2 <= |m.keys| <= order - 1
      && |n.keys| + |m.keys| >= if n.isLeaf then order else order - 1
    requires w != null ==> Keyless(h, w) && h[w].height > h[l].height
    ensures var hs := Borrowed(h, l, r, p, i, fromLeft);
      && WellFormed(hs, recs) && Sized(hs, order, fill, null) && hs[null] == h[null] && Kept(h, hs, w)
      && forall x :: x in h ==> x in hs && hs[x].height == h[x].height
  {
    BorrowedOK(h, recs, order, fill, l, r, p, i, fromLeft);
    BorrowAbove(h, recs, l, r, p, i, fromLeft);
  }
}
