/** The B+ tree of sources/btree/btree.c: search, insertion with splits, deletion with
    coalescing and redistribution, and the walk along the leaf chain.
 */
module BTree {
  import opened BTreeNode
  import opened BTreeShape
  import opened BTreeStuck

  class Tree {
    const order: nat
    ghost const fill: Fill       // how full the nodes are kept
    var root: Node?
    ghost var heap: Heap         // the value of every node of the tree, and the sentinel above the root
    ghost var mem: set<object>   // the nodes and their buffers
    ghost var recs: Recs         // the record stored under each key

    constructor (order: nat, ghost fill: Fill := HalfFull)
      requires order >= 3
      ensures Valid() && this.order == order && this.fill == fill && Contents() == map[] && fresh(Repr())
      ensures root == null && mem == {}
    {
      this.order, this.fill := order, fill;
      root := null;
      heap, mem, recs := map[], {}, map[];
    }

    // ---------- representation ----------

    ghost function Repr(): set<object>
      reads this
    {
      {this} + mem + set k | k in recs :: recs[k] as object
    }

    // Node n lies in the tree's memory and has the value recorded in the heap.
    ghost predicate Mirrors(n: Node)
      requires n in heap
      reads this`heap, this`mem, mem
    {
      && n in mem && n.keys in mem && n.pointers in mem
      && n.Valid() && n.keys.Length == order - 1 && heap[n] == n.View()
    }

    ghost predicate Nodes()
      reads this`heap, this`mem, mem
    {
      && order >= 3 && this !in mem
      && (forall n: Node {:trigger Mirrors(n)} :: n in heap ==> Mirrors(n))
      && (forall m: Node, n: Node {:trigger m.Apart(n)} :: m in heap && n in heap && m != n ==> m.Apart(n))
    }

    // The same, except for what a and b hold at the moment
    ghost predicate NodesBut(a: Node, b: Node)
      reads this`heap, this`mem, mem
    {
      && order >= 3 && this !in mem && a in heap && b in heap
      && Placed(a) && Placed(b)
      && (forall n: Node {:trigger Mirrors(n)} :: n in heap && n != a && n != b ==> Mirrors(n))
      && (forall m: Node, n: Node {:trigger m.Apart(n)} :: m in heap && n in heap && m != n ==> m.Apart(n))
    }

    ghost predicate Placed(n: Node)
      reads this`mem, mem
    {
      n in mem && n.keys in mem && n.pointers in mem && n.Valid() && n.keys.Length == order - 1
    }

    ghost predicate Store()
      reads this`root, this`heap, this`mem, mem
    {
      && Nodes()
      && (root != null ==>
          && root in heap && null in heap
          && heap[null] == NodeVal(false, [], [Child(root)], Nil, null, 0, KEY_LIMIT, heap[root].height + 1))
    }

    // A search tree for the represented map
    ghost predicate Sound()
      reads this, mem
    {
      && Store()
      && (root == null ==> heap == map[] && recs == map[])
      && (root != null ==> WellFormed(heap, recs))
    }

    // ... whose nodes are filled as insertion and deletion keep them
    ghost predicate Inv()
      reads this, mem
    {
      Sound() && (root != null ==> Sized(heap, order, fill, null))
    }

    ghost predicate RecsOK()
      reads this`recs, this`mem
    {
      && (forall k :: k in recs ==> k < KEY_LIMIT && recs[k] !in mem)
      && (forall j, k :: j in recs && k in recs && j != k ==> recs[j] != recs[k])
    }

    ghost predicate Valid()
      reads this, Repr()
    {
      Inv() && RecsOK()
    }

    // The finite map the tree stands for.
    ghost function Contents(): map<nat, nat>
      reads this, Repr()
    {
      map k | k in recs :: recs[k].value
    }

    // ---------- search ----------

    method FindLeaf(key: nat) returns (c: Node)
      requires Sound() && root != null && key < KEY_LIMIT
      ensures c in heap && c.isLeaf && heap[c].isLeaf && Owns(heap[c], key)
    {
      c := root;
      assert Good(heap, recs, null) && Edge(heap, null, 0);
      assert Mirrors(c);
      while !c.isLeaf
        invariant c in heap && Mirrors(c) && Owns(heap[c], key)
        decreases c.height
      {
        assert Good(heap, recs, c);
        var i := 0;
        while i < c.numKeys && key >= c.keys[i]
          invariant i <= c.numKeys && Lo(heap[c], i) <= key
        {
          i := i + 1;
        }
        assert Edge(heap, c, i);
        c := c.pointers[i].node;
        assert Mirrors(c);
      }
    }

    method Find(key: nat) returns (r: Record?, leaf: Node?)
      requires Sound() && key < KEY_LIMIT
      ensures r == if key in recs then recs[key] else null
      ensures root == null <==> leaf == null
      ensures leaf != null ==> leaf in heap && heap[leaf].isLeaf && Owns(heap[leaf], key)
    {
      if root == null {
        return null, null;
      }
      leaf := FindLeaf(key);
      assert Mirrors(leaf) && Good(heap, recs, leaf);
      var i := leaf.IndexOf(key);
      if i == leaf.numKeys {
        r := null;
      } else {
        assert heap[leaf].keys[i] == key;
        r := leaf.pointers[i].record;
      }
    }

    // make_node and make_leaf: the fresh node joins the store, not yet the tree.
    method NewNode(isLeaf: bool) returns (n: Node)
      requires Nodes()
      modifies this`heap, this`mem
      ensures Nodes() && n !in old(heap) && fresh(mem - old(mem)) && old(mem) <= mem && fresh(n)
      ensures n in heap && heap == old(heap)[n := heap[n]] && n.pointers.Length == n.keys.Length + 1
      ensures n.isLeaf == isLeaf && n.numKeys == 0 && n.parent == null && (isLeaf ==> n.pointers[n.keys.Length] == Nil)
      ensures fresh(n.keys) && fresh(n.pointers)
    {
      n := new Node(order, isLeaf);
      assert n !in heap;
      forall m: Node | m in heap ensures n.Apart(m) && m.Apart(n) { assert Mirrors(m); }
      heap := heap[n := n.View()];
      mem := mem + {n, n.keys, n.pointers};
      forall m: Node | m in heap ensures Mirrors(m) {
        if m != n { assert old(Mirrors(m)); }
      }
    }

    method SetParent(c: Node, q: Node?)
      requires Nodes() && c in heap
      modifies this`heap, c`parent
      ensures Nodes() && heap == old(heap)[c := old(heap[c]).(parent := q)]
    {
      assert Mirrors(c);
      c.parent := q;
      heap := heap[c := c.View()];
      forall n: Node | n in heap ensures Mirrors(n) {
        if n != c { assert old(Mirrors(n)); }
      }
    }

    // Nodes leave the tree, or the sentinel changes; nothing in memory does.
    ghost method Rebase(h: Heap)
      requires Nodes() && (forall x: Node :: x in h ==> x in heap && h[x] == heap[x])
      modifies this`heap
      ensures Nodes() && heap == h
    {
      heap := h;
      forall n: Node | n in heap ensures Mirrors(n) { assert old(Mirrors(n)); }
    }

    // The new values of a and b are recorded. Invariants are compared with true where they are to be passed on as a
    // whole.
    ghost method Update(a: Node, va: NodeVal, b: Node, vb: NodeVal)
      requires NodesBut(a, b) == true && a != b && a.View() == va && b.View() == vb
      modifies this`heap
      ensures Nodes() == true && heap == old(heap)[a := va][b := vb]
    {
      heap := heap[a := va][b := vb];
      forall n: Node | n in heap ensures Mirrors(n) == true {
        if n != a && n != b { assert old(Mirrors(n)); }
      }
    }

    // The loops that point every child of q back to q.
    method AdoptChildren(q: Node)
      requires Nodes() && q in heap && !heap[q].isLeaf
      requires forall c :: c in heap[q].ptrs ==> c.Child? && c.node in heap && c.node != q
      modifies this`heap, mem
      ensures Nodes() && heap == Adopt(old(heap), old(heap[q].ptrs), q) && mem == old(mem)
    {
      assert Mirrors(q);
      ghost var h := heap;
      var kids := q.pointers[..q.numKeys + 1];
      assert heap == Adopt(h, kids[..0], q);
      for i := 0 to |kids|
        invariant Nodes() && mem == old(mem) && heap == Adopt(h, kids[..i], q)
      {
        assert kids[i] in kids;
        AdoptKid(kids, i, q, h);
      }
      assert kids[..|kids|] == kids;
    }

    method AdoptKid(kids: seq<Ptr>, i: nat, q: Node, ghost h: Heap)
      requires Nodes() && i < |kids| && kids[i].Child? && kids[i].node in h && heap == Adopt(h, kids[..i], q)
      modifies this`heap, mem
      ensures Nodes() && heap == Adopt(h, kids[..i + 1], q) && mem == old(mem)
    {
      AdoptOne(h, kids, i, q);
      assert Mirrors(kids[i].node);
      SetParent(kids[i].node, q);
    }

    // ---------- insertion ----------

    // The memory effect of splitting a leaf, without the tree around it.
    method SplitLeafNode(leaf: Node, key: nat, rec: Record, right: Node) returns (newKey: nat)
      requires Nodes() && leaf in heap && right in heap && right != leaf && right.isLeaf
      requires heap[leaf].isLeaf && |heap[leaf].keys| == |heap[leaf].ptrs| == order - 1
      modifies this`heap, leaf, leaf.keys, leaf.pointers, right, right.keys, right.pointers
      ensures Nodes()
      ensures var v := WithEntry(old(heap[leaf]), key, Rec(rec)); var s := Cut(order - 1);
        heap == old(heap)[leaf := LeftHalf(v, s, right)][right := RightHalf(v, s)] && newKey == v.keys[s]
    {
      assert Mirrors(leaf) && Mirrors(right) && leaf.Apart(right);
      ghost var v := WithEntry(heap[leaf], key, Rec(rec));
      leaf.SplitLeaf(key, Rec(rec), right);
      assert leaf.View() == LeftHalf(v, Cut(order - 1), right) && right.View() == RightHalf(v, Cut(order - 1));
      newKey := right.keys[0];
      assert newKey == right.View().keys[0];
      forall n: Node | n in heap && n != leaf && n != right ensures Mirrors(n) == true {
        assert old(Mirrors(n)) && n.Apart(leaf) && n.Apart(right);
      }
      Update(leaf, LeftHalf(v, Cut(order - 1), right), right, RightHalf(v, Cut(order - 1)));
    }

    method SplitOffLeaf(leaf: Node, key: nat, rec: Record) returns (right: Node, newKey: nat)
      requires Nodes() && leaf in heap && heap[leaf].isLeaf && |heap[leaf].keys| == |heap[leaf].ptrs| == order - 1
      modifies this`heap, this`mem, leaf, leaf.keys, leaf.pointers
      ensures Nodes() && fresh(mem - old(mem)) && old(mem) <= mem && right !in old(heap)
      ensures var v := WithEntry(old(heap[leaf]), key, Rec(rec)); var s := Cut(order - 1);
        heap == old(heap)[leaf := LeftHalf(v, s, right)][right := RightHalf(v, s)] && newKey == v.keys[s]
    {
      right := NewNode(true);
      newKey := SplitLeafNode(leaf, key, rec, right);
    }

    method CutLeaf(leaf: Node, key: nat, rec: Record) returns (right: Node, newKey: nat, ghost i: nat)
      requires Inv() && root != null && leaf in heap && heap[leaf].isLeaf && |heap[leaf].keys| == order - 1
      requires Owns(heap[leaf], key) && key !in recs
      modifies this`heap, this`mem, this`recs, leaf, leaf.keys, leaf.pointers
      ensures Store() && root != null && recs == old(recs)[key := rec] && fresh(mem - old(mem)) && old(mem) <= mem
      ensures Pending(heap, recs, order, fill, leaf, newKey, right, i)
    {
      ghost var h, rs := heap, recs;
      Shape(h, rs, leaf);
      right, newKey := SplitOffLeaf(leaf, key, rec);
      i := LeafSplitPending(h, heap, rs, order, fill, leaf, key, rec, right);
      recs := rs[key := rec];
    }

    method InsertIntoLeafAfterSplitting(leaf: Node, key: nat, rec: Record)
      requires Inv() && root != null && leaf in heap && heap[leaf].isLeaf && |heap[leaf].keys| == order - 1
      requires Owns(heap[leaf], key) && key !in recs
      modifies this`root, this`heap, this`mem, this`recs, mem
      ensures Inv() && root != null && recs == old(recs)[key := rec] && fresh(mem - old(mem))
    {
      assert Mirrors(leaf);
      var right, newKey, i := CutLeaf(leaf, key, rec);
      InsertIntoParent(leaf, newKey, right, i);
    }

    method InsertIntoParent(left: Node, key: nat, right: Node, ghost i: nat)
      requires Store() && root != null && Pending(heap, recs, order, fill, left, key, right, i)
      modifies this`root, this`heap, this`mem, mem
      ensures Inv() && root != null && fresh(mem - old(mem))
      decreases heap[null].height - heap[left].height
    {
      assert Mirrors(left) && Mirrors(right);
      var parent := left.parent;
      if parent == null {
        InsertIntoNewRoot(left, key, right, i);
      } else {
        assert Mirrors(parent);
        var leftIndex := LeftIndex(parent, left, key, right, i);
        if parent.numKeys < order - 1 {
          InsertIntoNode(parent, leftIndex, left, key, right);
        } else {
          InsertIntoNodeAfterSplitting(parent, leftIndex, left, key, right);
        }
      }
    }

    // get_left_index
    method LeftIndex(parent: Node, left: Node, ghost key: nat, ghost right: Node, ghost i: nat) returns (leftIndex: nat)
      requires Store() && Pending(heap, recs, order, fill, left, key, right, i) && parent == heap[left].parent
      ensures leftIndex == i
    {
      assert Mirrors(parent);
      PendingSlot(heap, recs, order, fill, left, key, right, i);
      leftIndex := 0;
      while leftIndex <= parent.numKeys && parent.pointers[leftIndex] != Child(left)
        invariant leftIndex <= i
      {
        assert heap[parent].ptrs[leftIndex] == parent.pointers[leftIndex];
        leftIndex := leftIndex + 1;
      }
    }

    method InsertIntoNode(parent: Node, leftIndex: nat, left: Node, key: nat, right: Node)
      requires Store() && root != null && Pending(heap, recs, order, fill, left, key, right, leftIndex)
      requires parent == heap[left].parent && |heap[parent].keys| < order - 1
      modifies this`heap, parent, parent.keys, parent.pointers
      ensures Inv() && root != null
    {
      PendingRoom(heap, recs, order, fill, left, key, right, leftIndex);
      assert Mirrors(parent);
      parent.InsertIntoNode(leftIndex, key, right);
      heap := heap[parent := parent.View()];
      forall n: Node | n in heap ensures Mirrors(n) {
        if n != parent { assert old(Mirrors(n)) && n.Apart(parent); }
      }
    }

    method InsertIntoNewRoot(left: Node, key: nat, right: Node, ghost i: nat)
      requires Store() && root != null && Pending(heap, recs, order, fill, left, key, right, i)
      requires heap[left].parent == null
      modifies this`root, this`heap, this`mem, left`parent, right`parent
      ensures Inv() && root != null && fresh(mem - old(mem))
    {
      ghost var h, rs := heap, recs;
      var r := RaiseRoot(left, key, right);
      PendingRoot(h, heap, rs, order, fill, left, key, right, i, r);
      Crown(r);
    }

    method Crown(r: Node)
      requires Nodes() && WellFormed(heap, recs) && Sized(heap, order, fill, null)
      requires r in heap && heap[null] == NodeVal(false, [], [Child(r)], Nil, null, 0, KEY_LIMIT, heap[r].height + 1)
      modifies this`root
      ensures Inv() && root == r
    {
      root := r;
    }

    method RaiseRoot(left: Node, key: nat, right: Node) returns (r: Node)
      requires Nodes() && left in heap && right in heap && left != right && null in heap
      modifies this`heap, this`mem, left`parent, right`parent
      ensures Nodes() && fresh(mem - old(mem)) && r !in old(heap)
      ensures heap == RootOver(old(heap), left, key, right, r)
    {
      ghost var top := heap[null].height;
      r := NewNode(false);
      FillRoot(r, left, key, right, top);
      ghost var h := old(heap)[r := NodeVal(false, [key], [Child(left), Child(right)], Nil, null, 0, KEY_LIMIT, top)];
      assert heap == h;
      SetParent(left, r);
      SetParent(right, r);
      assert heap == h[left := h[left].(parent := r)][right := h[right].(parent := r)];
      Rebase(heap[null := NodeVal(false, [], [Child(r)], Nil, null, 0, KEY_LIMIT, top + 1)]);
    }

    method FillRoot(r: Node, left: Node, key: nat, right: Node, ghost height: nat)
      requires Nodes() && r in heap && !r.isLeaf && r.parent == null
      modifies this`heap, r, r.keys, r.pointers
      ensures Nodes()
      ensures heap == old(heap)[r := NodeVal(false, [key], [Child(left), Child(right)], Nil, null, 0, KEY_LIMIT,
          height)]
    {
      assert Mirrors(r);
      r.InitRoot(left, key, right, height);
      heap := heap[r := r.View()];
      forall n: Node | n in heap ensures Mirrors(n) {
        if n != r { assert old(Mirrors(n)) && n.Apart(r); }
      }
    }

    // The memory effect of splitting an internal node, before its children are re-parented; v is the overfull node.
    method SplitInnerNode(p: Node, at: nat, key: nat, child: Node, right: Node, ghost v: NodeVal) returns (kPrime: nat)
      requires Nodes() && p in heap && right in heap && right != p && !right.isLeaf
      requires !heap[p].isLeaf && |heap[p].keys| == order - 1 && |heap[p].ptrs| == order && at <= order - 1
      requires v == AddEntry(heap[p], at, key, child)
      modifies this`heap, p, p.keys, p.pointers, right, right.keys, right.pointers
      ensures Nodes()
      ensures heap == old(heap)[p := LeftHalf(v, Cut(order) - 1, right)][right := RightHalf(v, Cut(order) - 1)]
      ensures kPrime == v.keys[Cut(order) - 1]
    {
      assert Mirrors(p) && Mirrors(right) && p.Apart(right);
      kPrime := p.SplitInner(at, key, child, right, v, Cut(order) - 1);
      forall n: Node | n in heap && n != p && n != right ensures Mirrors(n) == true {
        assert old(Mirrors(n)) == true && n.Apart(p) == true && n.Apart(right) == true;
      }
      Update(p, p.View(), right, right.View());
    }

    method InsertIntoNodeAfterSplitting(parent: Node, leftIndex: nat, left: Node, key: nat, right: Node)
      requires Store() && root != null && Pending(heap, recs, order, fill, left, key, right, leftIndex)
      requires parent == heap[left].parent && |heap[parent].keys| == order - 1
      modifies this`root, this`heap, this`mem, mem
      ensures Inv() && root != null && fresh(mem - old(mem))
      decreases heap[null].height - heap[left].height, 0
    {
      PendingSlot(heap, recs, order, fill, left, key, right, leftIndex);
      var r, kPrime, i := CutInner(parent, leftIndex, left, key, right);
      InsertIntoParent(parent, kPrime, r, i);
    }

    method CutInner(parent: Node, at: nat, left: Node, key: nat, right: Node)
      returns (r: Node, kPrime: nat, ghost i: nat)
      requires Store() && root != null && Pending(heap, recs, order, fill, left, key, right, at)
      requires parent == heap[left].parent && |heap[parent].keys| == order - 1
      modifies this`heap, this`mem, mem
      ensures Store() && fresh(mem - old(mem)) && r in heap
      ensures Pending(heap, recs, order, fill, parent, kPrime, r, i)
      ensures heap[null].height == old(heap[null].height) && heap[parent].height == old(heap[left].height) + 1
    {
      ghost var h, rs := heap, recs;
      ghost var v := CutReady(h, rs, order, fill, left, key, right, at, parent);
      r, kPrime := SplitAndAdopt(parent, at, key, right, v);
      i := InnerSplitPending(h, heap, rs, order, fill, parent, v, r);
      AdoptHeights(h, parent, LeftHalf(v, Cut(order) - 1, r), r, RightHalf(v, Cut(order) - 1),
          RightHalf(v, Cut(order) - 1).ptrs, root);
    }

    method SplitOff(p: Node, at: nat, key: nat, child: Node, ghost v: NodeVal) returns (r: Node, kPrime: nat)
      requires Nodes() && p in heap && !heap[p].isLeaf && |heap[p].keys| == order - 1 && |heap[p].ptrs| == order
      requires at <= order - 1
      requires v == AddEntry(heap[p], at, key, child)
      modifies this`heap, this`mem, mem
      ensures Nodes() && fresh(mem - old(mem)) && r !in old(heap)
      ensures heap == old(heap)[p := LeftHalf(v, Cut(order) - 1, r)][r := RightHalf(v, Cut(order) - 1)]
      ensures kPrime == v.keys[Cut(order) - 1]
    {
      assert Mirrors(p);
      r := NewNode(false);
      kPrime := SplitInnerNode(p, at, key, child, r, v);
    }

    method SplitAndAdopt(p: Node, at: nat, key: nat, child: Node, ghost v: NodeVal) returns (r: Node, kPrime: nat)
      requires Nodes() && p in heap && !heap[p].isLeaf && |heap[p].keys| == order - 1 && |heap[p].ptrs| == order
      requires at <= order - 1
      requires v == AddEntry(heap[p], at, key, child)
      requires forall c :: c in RightHalf(v, Cut(order) - 1).ptrs ==> c.Child? && c.node in heap
      modifies this`heap, this`mem, mem
      ensures Nodes() && fresh(mem - old(mem)) && r !in old(heap)
      ensures var s := Cut(order) - 1;
        heap == Adopt(old(heap)[p := LeftHalf(v, s, r)][r := RightHalf(v, s)], RightHalf(v, s).ptrs, r) &&
            kPrime == v.keys[s]
    {
      r, kPrime := SplitOff(p, at, key, child, v);
      AdoptChildren(r);
    }

    // ---------- deletion ----------

    /** delete_entry, for an entry of a node responsible for `lost`: it completes, with the tree well formed again, if
        and only if no node without neighbour underflows on the way up. A node w without keys above n is not touched. */
    method DeleteEntry(n: Node, key: nat, pointer: Ptr, ghost at: nat, ghost lost: nat, ghost w: Node?)
      returns (ok: bool)
      requires Store() && RecsOK() && root != null && Doomed(heap, recs, order, fill, n, at)
      requires heap[n].keys[at] == key && heap[n].ptrs[if heap[n].isLeaf then at else at + 1] == pointer
      requires Watched(heap, w, lost, n)
      modifies this`root, this`heap, mem
      ensures mem == old(mem) && (ok <==> !Stuck(old(heap), order, n, |old(heap)[n].keys| - 1))
      ensures ok ==> Inv() && Kept(old(heap), heap, w)
      decreases heap[null].height - heap[n].height, 4
    {
      ghost var h := heap;
      assert Mirrors(n);
      RemoveEntryFromNode(n, key, pointer, at);
      SameStuck(heap, recs, h, order, n, |h[n].keys| - 1);
      ok := Repair(n, lost, w);
    }

    // delete_entry once the entry is gone
    method Repair(n: Node, ghost lost: nat, ghost w: Node?) returns (ok: bool)
      requires Store() && RecsOK() && root != null && WellFormed(heap, recs) && n in heap
      requires Sized(heap, order, fill, n) && |heap[n].keys| <= order - 1 && Watched(heap, w, lost, n)
      requires fill.HalfFull? && heap[n].parent != null ==> |heap[n].keys| >= MinKeys(order, heap[n].isLeaf) - 1
      modifies this`root, this`heap, mem
      ensures mem == old(mem) && (ok <==> !Stuck(old(heap), order, n, |old(heap)[n].keys|))
      ensures ok ==> Inv() && Kept(old(heap), heap, w)
      decreases heap[null].height - heap[n].height, 3
    {
      if n == root {
        RootHangs(heap, recs, root);
        WatchTop(heap, recs, w, lost, root);
        AdjustRoot();
        return true;
      }
      assert Mirrors(n);
      OnlyRoot(heap, recs, root, n);
      var minKeys := if n.isLeaf then Cut(order - 1) else Cut(order) - 1;
      if n.numKeys >= minKeys {
        StillSized(heap, order, fill, n);
        return true;
      }
      ok := FixUnderflow(n, lost, w);
    }

    method RemoveEntryFromNode(n: Node, key: nat, pointer: Ptr, ghost at: nat)
      requires Nodes() && Doomed(heap, recs, order, fill, n, at)
      requires heap[n].keys[at] == key && heap[n].ptrs[if heap[n].isLeaf then at else at + 1] == pointer
      modifies this`heap, n, n.keys, n.pointers
      ensures Nodes() && heap == old(heap)[n := WithoutEntry(old(heap[n]), at)]
    {
      assert Mirrors(n);
      assert n.keys[..at] == heap[n].keys[..at];
      n.RemoveEntry(key, pointer, at);
      heap := heap[n := n.View()];
      forall m: Node | m in heap ensures Mirrors(m) {
        if m != n { assert old(Mirrors(m)) && m.Apart(n); }
      }
    }

    method AdjustRoot()
      requires Store() && RecsOK() && root != null && WellFormed(heap, recs) && Sized(heap, order, fill, root)
      requires |heap[root].keys| <= order - 1
      modifies this`root, this`heap, mem
      ensures Inv() && mem == old(mem)
    {
      assert Mirrors(root);
      if root.numKeys > 0 {
        RootHangs(heap, recs, root);
        StillSized(heap, order, fill, root);
      } else if !root.isLeaf {
        ShrinkRoot(heap, recs, order, fill, root);
        var newRoot := root.pointers[0].node;
        assert Mirrors(newRoot);
        SetParent(newRoot, null);
        Rebase((heap - {root})[null := heap[root]]);
        root := newRoot;
      } else {
        EmptyRoot(heap, recs, root);
        heap := map[];
        root := null;
      }
    }

    // get_neighbor_index: the slot of n in its parent, less one (-1 when n is the leftmost child)
    method NeighborIndex(n: Node) returns (k: int)
      requires Store() && root != null && WellFormed(heap, recs) && n in heap && heap[n].parent != null
      ensures -1 <= k && SlotOf(heap, n, k + 1)
    {
      ghost var at := FindSlot(heap, recs, n);
      assert Mirrors(n) && Mirrors(n.parent);
      var i := 0;
      while n.parent.pointers[i] != Child(n)
        invariant i <= at
        decreases at - i
      {
        i := i + 1;
      }
      k := i - 1;
    }

    // The second half of delete_entry. Where the parent has a single child the source reads a key and a pointer that
    // were never set.
    method FixUnderflow(n: Node, ghost lost: nat, ghost w: Node?) returns (ok: bool)
      requires Store() && RecsOK() && root != null && WellFormed(heap, recs) && n in heap
      requires Sized(heap, order, fill, n) && heap[n].parent != null
      requires Short(order, fill, heap[n]) && Watched(heap, w, lost, n)
      modifies this`root, this`heap, mem
      ensures mem == old(mem) && (ok <==> !Stuck(old(heap), order, n, |old(heap)[n].keys|))
      ensures ok ==> Inv() && Kept(old(heap), heap, w)
      decreases heap[null].height - heap[n].height, 2
    {
      var neighborIndex := NeighborIndex(n);
      assert Mirrors(n) && Mirrors(n.parent);
      StuckStep(heap, recs, order, n, n.numKeys, neighborIndex + 1);
      if n.parent.numKeys == 0 {
        return false;
      }
      ok := UseNeighbor(n, neighborIndex, lost, w);
    }

    method UseNeighbor(n: Node, neighborIndex: int, ghost lost: nat, ghost w: Node?) returns (ok: bool)
      requires Store() && RecsOK() && root != null && WellFormed(heap, recs) && n in heap
      requires Sized(heap, order, fill, n) && heap[n].parent != null
      requires Short(order, fill, heap[n]) && Watched(heap, w, lost, n)
      requires -1 <= neighborIndex && SlotOf(heap, n, neighborIndex + 1) && heap[heap[n].parent].keys != []
      modifies this`root, this`heap, mem
      ensures mem == old(mem)
      ensures ok <==> !(Merges(old(heap), order, n, |old(heap)[n].keys|, neighborIndex + 1) &&
                        Stuck(old(heap), order, old(heap)[n].parent, |old(heap)[old(heap)[n].parent].keys| - 1))
      ensures ok ==> Inv() && Kept(old(heap), heap, w)
      decreases heap[null].height - heap[n].height, 1
    {
      NeighbourOf(heap, recs, order, fill, n, neighborIndex + 1);
      assert Mirrors(n) && Mirrors(n.parent);
      var parent := n.parent;
      var kPrimeIndex := if neighborIndex == -1 then 0 else neighborIndex;
      var kPrime := parent.keys[kPrimeIndex];
      assert parent.pointers[kPrimeIndex] == heap[parent].ptrs[kPrimeIndex];
      assert parent.pointers[kPrimeIndex + 1] == heap[parent].ptrs[kPrimeIndex + 1];
      var neighbor := if neighborIndex == -1 then parent.pointers[1].node else parent.pointers[neighborIndex].node;
      assert Mirrors(neighbor);
      var capacity := if n.isLeaf then order else order - 1;
      var left, right := if neighborIndex == -1 then n else neighbor, if neighborIndex == -1 then neighbor else n;
      if neighbor.numKeys + n.numKeys < capacity {
        ok := CoalesceNodes(left, right, parent, kPrimeIndex, kPrime, n, lost, w);
      } else {
        RedistributeNodes(left, right, parent, kPrimeIndex, kPrime, neighborIndex != -1, w);
        ok := true;
      }
    }

    ghost predicate Siblings(left: Node, right: Node, parent: Node, i: nat)
      reads this`heap
    {
      && left in heap && right in heap && parent in heap && !heap[parent].isLeaf
      && i < |heap[parent].keys| && |heap[parent].ptrs| == |heap[parent].keys| + 1
      && heap[parent].ptrs[i] == Child(left) && heap[parent].ptrs[i + 1] == Child(right)
    }

    method CoalesceNodes(left: Node, right: Node, parent: Node, i: nat, kPrime: nat, ghost n: Node, ghost lost: nat,
                         ghost w: Node?) returns (ok: bool)
      requires Store() && RecsOK() && root != null && WellFormed(heap, recs) && Watched(heap, w, lost, n)
      requires (n == left || n == right) && Sized(heap, order, fill, n) && Siblings(left, right, parent, i)
      requires heap[parent].keys[i] == kPrime
      requires |heap[left].keys| + |heap[right].keys| + (if heap[left].isLeaf then 0 else 1) <= order - 1
      modifies this`root, this`heap, mem
      ensures mem == old(mem) && (ok <==> !Stuck(old(heap), order, parent, |old(heap)[parent].keys| - 1))
      ensures ok ==> Inv() && Kept(old(heap), heap, w)
      decreases heap[null].height - heap[n].height, 0
    {
      MergeNodes(left, right, parent, i, kPrime, n, lost, w);
      ok := DeleteEntry(parent, kPrime, Child(right), i, lost, w);
    }

    method MergeNodes(left: Node, right: Node, parent: Node, i: nat, kPrime: nat, ghost n: Node, ghost lost: nat,
                      ghost w: Node?)
      requires Store() && root != null && WellFormed(heap, recs) && Watched(heap, w, lost, n)
      requires (n == left || n == right) && Sized(heap, order, fill, n) && Siblings(left, right, parent, i)
      requires heap[parent].keys[i] == kPrime
      requires |heap[left].keys| + |heap[right].keys| + (if heap[left].isLeaf then 0 else 1) <= order - 1
      modifies this`heap, mem
      ensures Store() && mem == old(mem) && Doomed(heap, recs, order, fill, parent, i) == true
      ensures heap[parent] == old(heap)[parent] && heap[null].height == old(heap[null].height)
      ensures heap[parent].ptrs[i + 1] == Child(right)
      ensures old(heap)[n].height < heap[parent].height < heap[null].height
      ensures Watched(heap, w, lost, parent) && Kept(old(heap), heap, w)
      ensures var k := |heap[parent].keys| - 1; Stuck(heap, order, parent, k) <==> Stuck(old(heap), order, parent, k)
    {
      ghost var h, rs := heap, recs;
      Neighbours(h, rs, left, right, parent, i);
      if !h[left].isLeaf {
        Children(h, rs, left);
        Children(h, rs, right);
      }
      RootHangs(h, rs, root);
      AbsorbWhole(left, right, kPrime);
      MergeWatched(h, heap, rs, order, fill, left, right, parent, i, n, lost, w);
    }

    method AbsorbWhole(left: Node, right: Node, kPrime: nat)
      requires Nodes() == true && left in heap && right in heap && left != right
      requires heap[left].isLeaf == heap[right].isLeaf
      requires |heap[left].keys| + |heap[right].keys| + (if heap[left].isLeaf then 0 else 1) <= order - 1
      requires !heap[left].isLeaf ==>
        forall c :: c in heap[left].ptrs + heap[right].ptrs ==> c.Child? && c.node in heap && c.node != left
      modifies this`heap, mem
      ensures Nodes() == true && mem == old(mem)
      ensures var v := Joined(old(heap[left]), kPrime, old(heap[right]));
        heap == (if v.isLeaf then old(heap)[left := v] else Adopt(old(heap)[left := v], v.ptrs, left)) - {right}
    {
      Absorb(left, right, kPrime);
      Rebase(heap - {right});
    }

    // coalesce_nodes up to the call of delete_entry
    method Absorb(left: Node, right: Node, kPrime: nat)
      requires Nodes() && left in heap && right in heap && left != right && heap[left].isLeaf == heap[right].isLeaf
      requires |heap[left].keys| + |heap[right].keys| + (if heap[left].isLeaf then 0 else 1) <= order - 1
      requires !heap[left].isLeaf ==> forall c :: c in heap[left].ptrs + heap[right].ptrs ==>
          c.Child? && c.node in heap && c.node != left
      modifies this`heap, mem
      ensures Nodes() && mem == old(mem)
      ensures var v := Joined(old(heap[left]), kPrime, old(heap[right]));
        heap == if v.isLeaf then old(heap)[left := v] else Adopt(old(heap)[left := v], v.ptrs, left)
    {
      AbsorbNode(left, right, kPrime);
      assert Mirrors(left);
      if !left.isLeaf {
        AdoptChildren(left);
      }
    }

    method AbsorbNode(left: Node, right: Node, kPrime: nat)
      requires Nodes() && left in heap && right in heap && left != right && heap[left].isLeaf == heap[right].isLeaf
      requires |heap[left].keys| + |heap[right].keys| + (if heap[left].isLeaf then 0 else 1) <= order - 1
      modifies this`heap, mem
      ensures Nodes() && heap == old(heap)[left := Joined(old(heap[left]), kPrime, old(heap[right]))] && mem == old(mem)
    {
      assert Mirrors(left) && Mirrors(right) && left.Apart(right);
      left.Absorb(kPrime, right);
      heap := heap[left := left.View()];
      forall m: Node | m in heap ensures Mirrors(m) {
        if m != left { assert old(Mirrors(m)) && m.Apart(left); }
      }
    }

    method RedistributeNodes(left: Node, right: Node, parent: Node, i: nat, kPrime: nat, fromLeft: bool, ghost w: Node?)
      requires Store() && RecsOK() && root != null && WellFormed(heap, recs)
      requires Siblings(left, right, parent, i) && heap[parent].keys[i] == kPrime
      requires Sized(heap, order, fill, if fromLeft then right else left)
      requires var n := if fromLeft then heap[right] else heap[left];
        var m := if fromLeft then heap[left] else heap[right];
        && Short(order, fill, n)
        && |n.keys| + |m.keys| >= if n.isLeaf then order else order - 1
      requires w != null ==> Keyless(heap, w) && heap[w].height > heap[left].height
      modifies this`heap, mem
      ensures Inv() && mem == old(mem) && Kept(old(heap), heap, w)
    {
      Neighbours(heap, recs, left, right, parent, i);
      Shape(heap, recs, left);
      Shape(heap, recs, right);
      if heap[left].isLeaf {
        ChainNext(heap, recs, left, right, parent, i);
      } else {
        Children(heap, recs, if fromLeft then left else right);
      }
      assert Fits(heap, order, fill, if fromLeft then left else right);
      BorrowWatched(heap, recs, order, fill, left, right, parent, i, fromLeft, w);
      MoveSlot(left, right, parent, i, kPrime, fromLeft);
    }

    method MoveSlot(left: Node, right: Node, parent: Node, i: nat, kPrime: nat, fromLeft: bool)
      requires Nodes() && Siblings(left, right, parent, i) && left != right && parent != left && parent != right
      requires kPrime == heap[parent].keys[i]
      requires var l, r := heap[left], heap[right];
        && l.isLeaf == r.isLeaf && (l.isLeaf ==> l.next == Child(right)) && l.hi == r.lo && l.parent == r.parent
        && l.height == r.height
        && (if fromLeft then |l.keys| >= 2 && |r.keys| < order - 1 else |r.keys| >= 2 && |l.keys| < order - 1)
        && |l.ptrs| == |l.keys| + (if l.isLeaf then 0 else 1) && |r.ptrs| == |r.keys| + (if r.isLeaf then 0 else 1)
        && var c := if fromLeft then l.ptrs[|l.ptrs| - 1] else r.ptrs[0];
           if l.isLeaf then !c.Child? else c.Child? && c.node in heap
      modifies this`heap, mem
      ensures Nodes() && mem == old(mem) && heap == Borrowed(old(heap), left, right, parent, i, fromLeft)
    {
      assert Mirrors(left) && Mirrors(right) && Mirrors(parent);
      var moved := if left.isLeaf then Nil else if fromLeft then left.pointers[left.numKeys] else right.pointers[0];
      var sep: nat;
      ghost var v := Joined(heap[left], kPrime, heap[right]);
      if fromLeft {
        sep := BorrowFromLeft(left, right, kPrime, v);
      } else {
        sep := BorrowFromRight(left, right, kPrime, v);
      }
      assert Mirrors(parent);
      SetKey(parent, i, sep);
      if !left.isLeaf {
        assert Mirrors(moved.node);
        SetParent(moved.node, if fromLeft then right else left);
      }
    }

    method SetKey(p: Node, i: nat, key: nat)
      requires Nodes() && p in heap && i < |heap[p].keys|
      modifies this`heap, p.keys
      ensures Nodes() && heap == old(heap)[p := old(heap[p]).(keys := old(heap[p]).keys[i := key])]
    {
      assert Mirrors(p);
      p.keys[i] := key;
      heap := heap[p := p.View()];
      forall m: Node | m in heap ensures Mirrors(m) {
        if m != p { assert old(Mirrors(m)) && m.Apart(p); }
      }
    }

    // Neighbours under one parent
    ghost predicate Adjoin(left: Node, right: Node)
      reads this`heap
    {
      && left in heap && right in heap && left != right
      && var l, r := heap[left], heap[right];
      && l.isLeaf == r.isLeaf && (l.isLeaf ==> l.next == Child(right)) && l.hi == r.lo && l.parent == r.parent
      && l.height == r.height
    }

    // The last slot of left crosses the separator.
    method BorrowFromLeft(left: Node, right: Node, kPrime: nat, ghost v: NodeVal) returns (sep: nat)
      requires Nodes() && Adjoin(left, right) && |heap[left].keys| >= 2 && |heap[right].keys| < order - 1
      requires v == Joined(heap[left], kPrime, heap[right])
      modifies this`heap, mem
      ensures Nodes() && mem == old(mem)
      ensures var s := |old(heap[left]).keys| - 1;
        && s < |v.keys| && |v.ptrs| == |v.keys| + (if v.isLeaf then 0 else 1)
        && heap == old(heap)[left := LeftHalf(v, s, right)][right := RightHalf(v, s)] && sep == v.keys[s]
    {
      ghost var s := |heap[left].keys| - 1;
      assert Mirrors(left) && Mirrors(right);
      sep := SlotFromLeft(left, right, kPrime, v);
      Update(left, LeftHalf(v, s, right), right, RightHalf(v, s));
    }

    method SlotFromLeft(left: Node, right: Node, kPrime: nat, ghost v: NodeVal) returns (sep: nat)
      requires Nodes() == true && Adjoin(left, right) && |heap[left].keys| >= 2 && |heap[right].keys| < order - 1
      requires v == Joined(heap[left], kPrime, heap[right])
      modifies left, left.keys, left.pointers, right, right.keys, right.pointers
      ensures NodesBut(left, right) == true
      ensures var s := |heap[left].keys| - 1;
        && s < |v.keys| && |v.ptrs| == |v.keys| + (if v.isLeaf then 0 else 1)
        && left.View() == LeftHalf(v, s, right) && right.View() == RightHalf(v, s) && sep == v.keys[s]
    {
      assert Mirrors(left) && Mirrors(right) && left.Apart(right) && right.Apart(left);
      sep := right.BorrowLeft(left, kPrime, v);
      assert Placed(left) == true && Placed(right) == true;
      forall m: Node | m in heap && m != left && m != right ensures Mirrors(m) == true {
        assert old(Mirrors(m)) == true && m.Apart(left) && m.Apart(right);
      }
    }

    // The first slot of right crosses the separator.
    method BorrowFromRight(left: Node, right: Node, kPrime: nat, ghost v: NodeVal) returns (sep: nat)
      requires Nodes() && Adjoin(left, right) && |heap[right].keys| >= 2 && |heap[left].keys| < order - 1
      requires v == Joined(heap[left], kPrime, heap[right])
      modifies this`heap, mem
      ensures Nodes() && mem == old(mem)
      ensures var s := |old(heap[left]).keys| + 1;
        && s < |v.keys| && |v.ptrs| == |v.keys| + (if v.isLeaf then 0 else 1)
        && heap == old(heap)[left := LeftHalf(v, s, right)][right := RightHalf(v, s)] && sep == v.keys[s]
    {
      ghost var s := |heap[left].keys| + 1;
      assert Mirrors(left) && Mirrors(right);
      sep := SlotFromRight(left, right, kPrime, v);
      Update(left, LeftHalf(v, s, right), right, RightHalf(v, s));
    }

    method SlotFromRight(left: Node, right: Node, kPrime: nat, ghost v: NodeVal) returns (sep: nat)
      requires Nodes() == true && Adjoin(left, right) && |heap[right].keys| >= 2 && |heap[left].keys| < order - 1
      requires v == Joined(heap[left], kPrime, heap[right])
      modifies left, left.keys, left.pointers, right, right.keys, right.pointers
      ensures NodesBut(left, right) == true
      ensures var s := |heap[left].keys| + 1;
        && s < |v.keys| && |v.ptrs| == |v.keys| + (if v.isLeaf then 0 else 1)
        && left.View() == LeftHalf(v, s, right) && right.View() == RightHalf(v, s) && sep == v.keys[s]
    {
      assert Mirrors(left) && Mirrors(right) && left.Apart(right) && right.Apart(left);
      sep := left.BorrowRight(right, kPrime, v);
      assert Placed(left) == true && Placed(right) == true;
      forall m: Node | m in heap && m != left && m != right ensures Mirrors(m) == true {
        assert old(Mirrors(m)) == true && m.Apart(left) && m.Apart(right);
      }
    }

    // ---------- the operations on the map ----------

    method StartNewTree(key: nat, rec: Record)
      requires Inv() && root == null && key < KEY_LIMIT
      modifies this`root, this`heap, this`mem, this`recs
      ensures Inv() && root != null && recs == map[key := rec] && fresh(mem - old(mem))
    {
      var r := NewNode(true);
      FillLeaf(r, key, rec);
      Rebase(heap[null := NodeVal(false, [], [Child(r)], Nil, null, 0, KEY_LIMIT, 1)]);
      root, recs := r, map[key := rec];
      SingletonOK(heap, recs, order, fill, r, key, rec);
    }

    method FillLeaf(r: Node, key: nat, rec: Record)
      requires Nodes() && r in heap && r.isLeaf && r.parent == null && r.pointers.Length == r.keys.Length + 1
      requires r.pointers[r.keys.Length] == Nil
      modifies this`heap, r, r.keys, r.pointers
      ensures Nodes() && heap == old(heap)[r := NodeVal(true, [key], [Rec(rec)], Nil, null, 0, KEY_LIMIT, 0)]
    {
      assert Mirrors(r);
      r.InitLeaf(key, Rec(rec));
      heap := heap[r := r.View()];
      forall n: Node | n in heap ensures Mirrors(n) {
        if n != r { assert old(Mirrors(n)) && n.Apart(r); }
      }
    }

    // insert_into_leaf, and the append of insert_unique, when the leaf has room
    method PutInLeaf(leaf: Node, key: nat, rec: Record, append: bool)
      requires Inv() && root != null && leaf in heap && heap[leaf].isLeaf && |heap[leaf].keys| < order - 1
      requires Owns(heap[leaf], key) && key !in recs
      requires append ==> forall j :: 0 <= j < |heap[leaf].keys| ==> heap[leaf].keys[j] < key
      modifies this`heap, this`recs, leaf, leaf.keys, leaf.pointers
      ensures Inv() && recs == old(recs)[key := rec]
    {
      InsertOK(heap, recs, order, fill, leaf, key, rec);
      WriteLeaf(leaf, key, rec, append);
      recs := recs[key := rec];
    }

    method WriteLeaf(leaf: Node, key: nat, rec: Record, append: bool)
      requires Nodes() && leaf in heap && heap[leaf].isLeaf && |heap[leaf].ptrs| == |heap[leaf].keys| < order - 1
      requires append ==> forall j :: 0 <= j < |heap[leaf].keys| ==> heap[leaf].keys[j] < key
      modifies this`heap, leaf, leaf.keys, leaf.pointers
      ensures Nodes() && heap == old(heap)[leaf := WithEntry(old(heap[leaf]), key, Rec(rec))]
    {
      assert Mirrors(leaf);
      if append {
        assert forall j :: 0 <= j < leaf.numKeys ==> leaf.keys[j] == heap[leaf].keys[j];
        leaf.AppendToLeaf(key, Rec(rec));
      } else {
        leaf.InsertIntoLeaf(key, Rec(rec));
      }
      heap := heap[leaf := leaf.View()];
      forall n: Node | n in heap ensures Mirrors(n) {
        if n != leaf { assert old(Mirrors(n)) && n.Apart(leaf); }
      }
    }

    // The part insert and insert_unique share; only insert_unique tries to append first.
    method AddRecord(key: nat, rec: Record, unique: bool)
      requires Inv() && key < KEY_LIMIT && key !in recs
      modifies this`root, this`heap, this`mem, this`recs, mem
      ensures Inv() && recs == old(recs)[key := rec] && fresh(mem - old(mem))
    {
      if root == null {
        StartNewTree(key, rec);
        return;
      }
      var leaf := FindLeaf(key);
      assert Mirrors(leaf);
      if leaf.numKeys < order - 1 {
        var append := unique && (leaf.numKeys == 0 || key > leaf.keys[leaf.numKeys - 1]);
        if append { LeafSorted(heap, recs, leaf); }
        PutInLeaf(leaf, key, rec, append);
      } else {
        InsertIntoLeafAfterSplitting(leaf, key, rec);
      }
    }

    /** insert: afterwards the map has the new value under key and is otherwise the same. */
    method Insert(key: nat, value: nat)
      requires Valid() == true && key < KEY_LIMIT
      modifies Repr()
      ensures Valid() == true && fresh(Repr() - old(Repr()))
      ensures Contents() == old(Contents())[key := value]
    {
      ghost var m := Contents();
      var r := RecordOf(key);
      assert Valid() == true && Repr() == old(Repr()) && Contents() == m;
      if r != null {
        Overwrite(key, r, value);
      } else {
        PutNew(this, key, value, false);
      }
      assert Contents() == m[key := value];
    }

    method RecordOf(key: nat) returns (r: Record?)
      requires Valid() == true && key < KEY_LIMIT
      ensures r == if key in recs then recs[key] else null
    {
      var leaf;
      r, leaf := Find(key);
    }

    method Overwrite(key: nat, r: Record, value: nat)
      requires Valid() == true && key in recs && r == recs[key]
      modifies r
      ensures Valid() == true && Repr() == old(Repr()) && Contents() == old(Contents())[key := value]
    {
      ghost var rs := recs;
      r.value := value;
      assert Inv();
      assert forall k :: k in rs && k != key ==> rs[k] != r;
    }

    method PutRecord(key: nat, rec: Record, unique: bool)
      requires Valid() == true && key < KEY_LIMIT && key !in recs && rec !in Repr()
      modifies Repr()
      ensures Valid() && fresh(Repr() - old(Repr()) - {rec})
      ensures recs == old(recs)[key := rec] && Contents() == old(Contents())[key := rec.value]
    {
      AddRecord(key, rec, unique);
    }

    /** insert_unique: the caller supplies a record that is not in the tree, for a key that is not. */
    method InsertUnique(key: nat, rec: Record)
      requires Valid() && key < KEY_LIMIT && key !in recs && rec !in Repr()
      modifies Repr()
      ensures Valid() && fresh(Repr() - old(Repr()) - {rec})
      ensures recs == old(recs)[key := rec] && Contents() == old(Contents())[key := rec.value]
    {
      PutRecord(key, rec, true);
    }

    /** delete: afterwards the map lacks key and is otherwise the same. It cannot be completed exactly if an only child
        underflows on the way up, which does not happen where every node has a key. A node w without keys that is
        responsible for the key stays as it is if the deletion is completed. */
    method Delete(key: nat, ghost w: Node? := null) returns (ok: bool)
      requires Valid() && key < KEY_LIMIT && (w != null ==> Keyless(heap, w) && Owns(heap[w], key))
      modifies Repr()
      ensures ok <==> !StuckOn(old(heap), order, key)
      ensures !fill.AtMost? ==> ok
      ensures ok ==> Valid() && Repr() <= old(Repr()) && Contents() == old(Contents()) - {key}
      ensures ok ==> Kept(old(heap), heap, w)
    {
      var r, leaf := Find(key);
      ok := true;
      if r != null && leaf != null {
        ok := RemoveRecord(leaf, key, r, w);
      } else if root != null {
        NotStuckAbsent(heap, recs, order, key);
      }
    }

    method RemoveRecord(leaf: Node, key: nat, r: Record, ghost w: Node?) returns (ok: bool)
      requires Valid() && root != null && key in recs && r == recs[key]
      requires leaf in heap && heap[leaf].isLeaf && Owns(heap[leaf], key)
      requires w != null ==> Keyless(heap, w) && Owns(heap[w], key)
      modifies this`root, this`heap, this`recs, mem
      ensures mem == old(mem) && (ok <==> !StuckOn(old(heap), order, key)) && (!fill.AtMost? ==> ok)
      ensures recs == old(recs) - {key} && (ok ==> Inv() && Kept(old(heap), heap, w))
    {
      ghost var at := EntryOf(heap, recs, leaf, key);
      StuckOnLeaf(heap, recs, order, leaf, key);
      if !fill.AtMost? { NeverStuck(heap, recs, order, fill, leaf, |heap[leaf].keys| - 1); }
      LeafBelowKeyless(heap, recs, w, key, leaf);
      LeafDoomed(heap, recs, order, fill, leaf, at);
      recs := recs - {key};
      ok := DeleteEntry(leaf, key, Rec(r), at, key, w);
    }

    /** find: the record of key, exactly when the map has key. */
    method Lookup(key: nat) returns (found: bool, value: nat)
      requires Valid() && key < KEY_LIMIT
      ensures found <==> key in Contents()
      ensures found ==> value == Contents()[key]
    {
      var r, leaf := Find(key);
      if r == null {
        return false, 0;
      }
      return true, r.value;
    }

    /** The leaf chain, walked as print_leaves does, lists exactly the keys of the map in increasing order. */
    method Leaves() returns (keys: seq<nat>)
      requires Sound() && (forall k :: k in recs ==> k < KEY_LIMIT)
      ensures forall k :: k in keys <==> k in Contents()
      ensures forall i, j :: 0 <= i < j < |keys| ==> keys[i] < keys[j]
    {
      if root == null {
        return [];
      }
      var c := FirstLeaf();
      keys := [];
      var done := false;
      while !done
        invariant c in heap && heap[c].isLeaf
        invariant !done ==> Listed(recs, keys, heap[c].lo)
        invariant done ==> Listed(recs, keys, KEY_LIMIT)
        decreases !done, KEY_LIMIT - heap[c].lo
      {
        assert Mirrors(c);
        ListedMore(heap, recs, keys, c);
        keys := keys + c.keys[..c.numKeys];
        if c.pointers[order - 1] != Nil {
          c := c.pointers[order - 1].node;
        } else {
          done := true;
        }
      }
    }

    method FirstLeaf() returns (c: Node)
      requires Sound() && root != null
      ensures c in heap && heap[c].isLeaf && heap[c].lo == 0
    {
      c := root;
      assert Good(heap, recs, null) && Edge(heap, null, 0);
      assert Mirrors(c);
      while !c.isLeaf
        invariant c in heap && Mirrors(c) && heap[c].lo == 0
        decreases c.height
      {
        assert Good(heap, recs, c) && Edge(heap, c, 0);
        c := c.pointers[0].node;
        assert Mirrors(c);
      }
    }
  }

  // ---------- every run ----------

  datatype Op = Put(key: nat, value: nat) | PutUnique(key: nat, value: nat) | Remove(key: nat) | Get(key: nat)
  datatype Answer = Absent | Present(value: nat)

  // insert_unique demands an absent key; every key is a uint64_t.
  predicate Allowed(m: map<nat, nat>, op: Op) {
    op.key < KEY_LIMIT && (op.PutUnique? ==> op.key !in m)
  }

  function Apply(m: map<nat, nat>, op: Op): map<nat, nat> {
    match op
    case Put(k, v) => m[k := v]
    case PutUnique(k, v) => m[k := v]
    case Remove(k) => m - {k}
    case Get(k) => m
  }

  function AnswerOf(m: map<nat, nat>, op: Op): Answer {
    if op.Get? && op.key in m then Present(m[op.key]) else Absent
  }

  // Every operation of the run is allowed when its turn comes.
  predicate AllAllowed(m: map<nat, nat>, ops: seq<Op>)
    decreases |ops|
  {
    ops == [] || (Allowed(m, ops[0]) && AllAllowed(Apply(m, ops[0]), ops[1..]))
  }

  // What a plain finite map answers
  function Answers(m: map<nat, nat>, ops: seq<Op>): seq<Answer>
    decreases |ops|
  {
    if ops == [] then [] else [AnswerOf(m, ops[0])] + Answers(Apply(m, ops[0]), ops[1..])
  }

  /** A run of operations on an empty tree answers every lookup as the plain finite map does. */
  method Run(order: nat, ops: seq<Op>) returns (answers: seq<Answer>)
    requires order >= 3 && AllAllowed(map[], ops)
    ensures answers == Answers(map[], ops)
  {
    var t := new Tree(order);
    var done;
    answers, done := RunOn(t, ops);
  }

  predicate NoRemoval(ops: seq<Op>) {
    forall i :: 0 <= i < |ops| ==> !ops[i].Remove?
  }

  /** The same on any tree, up to the first deletion that cannot be completed; there is none if no node is empty. */
  method RunOn(t: Tree, ops: seq<Op>) returns (answers: seq<Answer>, done: bool)
    requires t.Valid() == true && AllAllowed(t.Contents(), ops)
    modifies t.Repr()
    ensures answers <= Answers(old(t.Contents()), ops)
    ensures done ==> answers == Answers(old(t.Contents()), ops)
    ensures !done ==> |answers| < |ops| && ops[|answers|].Remove?
    ensures !t.fill.AtMost? || NoRemoval(ops) ==> done
  {
    answers, done := [], true;
    ghost var m := t.Contents();
    ghost var all := Answers(m, ops);
    assert ops[0..] == ops;
    for n := 0 to |ops|
      invariant t.Valid() == true && fresh(t.Repr() - old(t.Repr())) && t.Contents() == m && AllAllowed(m, ops[n..])
      invariant done && |answers| == n && answers + Answers(m, ops[n..]) == all
    {
      RunStep(m, ops, n);
      var a;
      a, done := Step(t, ops[n]);
      if !done {
        return;
      }
      RunMore(answers, a, Answers(Apply(m, ops[n]), ops[n + 1..]), all);
      m := Apply(m, ops[n]);
      answers := answers + [a];
    }
  }

  lemma RunMore(answers: seq<Answer>, a: Answer, rest: seq<Answer>, all: seq<Answer>)
    requires answers + ([a] + rest) == all
    ensures (answers + [a]) + rest == all
  {
  }

  lemma RunStep(m: map<nat, nat>, ops: seq<Op>, n: nat)
    requires n < |ops| && AllAllowed(m, ops[n..])
    ensures Allowed(m, ops[n]) && AllAllowed(Apply(m, ops[n]), ops[n + 1..])
    ensures Answers(m, ops[n..]) == [AnswerOf(m, ops[n])] + Answers(Apply(m, ops[n]), ops[n + 1..])
  {
    assert ops[n..][1..] == ops[n + 1..];
  }

  // A record of its own for a key that has none
  method PutNew(t: Tree, key: nat, value: nat, unique: bool)
    requires t.Valid() == true && key < KEY_LIMIT && key !in t.Contents()
    modifies t.Repr()
    ensures t.Valid() == true && fresh(t.Repr() - old(t.Repr()))
    ensures t.Contents() == old(t.Contents())[key := value]
  {
    var r := new Record(value);
    t.PutRecord(key, r, unique);
  }

  // One operation; only a deletion can get stuck.
  method Step(t: Tree, op: Op) returns (a: Answer, ok: bool)
    requires t.Valid() == true && Allowed(t.Contents(), op)
    modifies t.Repr()
    ensures ok <==> !(op.Remove? && StuckOn(old(t.heap), t.order, op.key))
    ensures !t.fill.AtMost? ==> ok
    ensures ok ==> t.Valid() == true && fresh(t.Repr() - old(t.Repr()))
    ensures ok ==> t.Contents() == Apply(old(t.Contents()), op) && a == AnswerOf(old(t.Contents()), op)
  {
    a, ok := Absent, true;
    match op
    case Put(k, v) => t.Insert(k, v);
    case PutUnique(k, v) => PutNew(t, k, v, true);
    case Remove(k) =>
      ok := t.Delete(k);
    case Get(k) =>
      var found, v := t.Lookup(k);
      if found { a := Present(v); }
  }
}
