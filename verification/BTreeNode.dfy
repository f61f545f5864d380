/** Nodes of the B+ tree (sources/btree/btree.c) and the in-place array work done on one node.

    A node owns two fixed-size buffers, `keys` (order - 1 slots) and `pointers` (order slots).
    `View` is the value a node stands for: the slots in use, the leaf chain pointer, the parent
    pointer and three ghost annotations, namely the half-open key range [lo, hi) the node is
    responsible for and its height above the leaves. Every method below states its effect as an
    equation on `View`.
 */
module BTreeNode {
  import opened Common

  // Keys are uint64_t; KEY_LIMIT is one past the largest.
  const KEY_LIMIT: nat := 0x1_0000_0000_0000_0000

  class Record {
    var value: nat
    constructor (value: nat)
      ensures this.value == value
    {
      this.value := value;
    }
  }

  // A slot of a node's pointer buffer (`void *` in the source).
  datatype Ptr = Nil | Child(node: Node) | Rec(record: Record)

  datatype NodeVal = NodeVal(
    isLeaf: bool, keys: seq<nat>, ptrs: seq<Ptr>, next: Ptr, parent: Node?, lo: nat, hi: nat, height: nat)

  function Slots(rs: seq<Record>): (p: seq<Ptr>)
    ensures |p| == |rs|
  {
    seq(|rs|, j requires 0 <= j < |rs| => Rec(rs[j]))
  }

  function Cut(length: nat): (r: nat)
    ensures length <= 2 * r <= length + 1
  {
    if length % 2 == 0 then length / 2 else length / 2 + 1
  }

  function InsertAt<T>(s: seq<T>, i: nat, x: T): (r: seq<T>)
    requires i <= |s|
    ensures |r| == |s| + 1 && r[i] == x
    ensures forall k :: 0 <= k < i ==> r[k] == s[k]
    ensures forall k :: i < k <= |s| ==> r[k] == s[k - 1]
  {
    s[..i] + [x] + s[i..]
  }

  function LeftHalf(v: NodeVal, s: nat, r: Node): NodeVal
    requires s < |v.keys| && |v.keys| <= |v.ptrs| && (!v.isLeaf ==> |v.ptrs| == |v.keys| + 1)
  {
    if v.isLeaf then v.(keys := v.keys[..s], ptrs := v.ptrs[..s], next := Child(r), hi := v.keys[s])
    else v.(keys := v.keys[..s], ptrs := v.ptrs[..s + 1], hi := v.keys[s])
  }

  function RightHalf(v: NodeVal, s: nat): NodeVal
    requires s < |v.keys| && |v.keys| <= |v.ptrs| && (!v.isLeaf ==> |v.ptrs| == |v.keys| + 1)
  {
    if v.isLeaf then v.(keys := v.keys[s..], ptrs := v.ptrs[s..], lo := v.keys[s])
    else v.(keys := v.keys[s + 1..], ptrs := v.ptrs[s + 1..], lo := v.keys[s])
  }

  function AddEntry(v: NodeVal, i: nat, key: nat, r: Node): NodeVal
    requires i <= |v.keys| && i < |v.ptrs|
  {
    v.(keys := InsertAt(v.keys, i, key), ptrs := InsertAt(v.ptrs, i + 1, Child(r)))
  }

  function Joined(v: NodeVal, key: nat, w: NodeVal): NodeVal {
    if v.isLeaf then v.(keys := v.keys + w.keys, ptrs := v.ptrs + w.ptrs, next := w.next, hi := w.hi)
    else v.(keys := v.keys + [key] + w.keys, ptrs := v.ptrs + w.ptrs, hi := w.hi)
  }

  // The halves of two joined internal nodes after the first child of the right one changed sides.
  lemma CrossLeft(l: NodeVal, key: nat, r: NodeVal)
    requires !l.isLeaf && |l.ptrs| == |l.keys| + 1 && |r.keys| > 0 && |r.ptrs| == |r.keys| + 1
    ensures var v := Joined(l, key, r); var s := |l.keys| + 1;
      && v.keys[..s] == l.keys + [key] && v.ptrs[..s + 1] == l.ptrs + [r.ptrs[0]]
      && v.keys[s] == r.keys[0] && v.keys[s + 1..] == r.keys[1..] && v.ptrs[s + 1..] == r.ptrs[1..]
  {
  }

  // The halves of two joined leaves after the first entry of the right one changed sides.
  lemma LeafCrossLeft(l: NodeVal, key: nat, r: NodeVal)
    requires l.isLeaf && |l.ptrs| == |l.keys| && |r.keys| > 1 && |r.ptrs| == |r.keys|
    ensures var v := Joined(l, key, r); var s := |l.keys| + 1;
      && v.keys[..s] == l.keys + [r.keys[0]] && v.ptrs[..s] == l.ptrs + [r.ptrs[0]]
      && v.keys[s] == r.keys[1] && v.keys[s..] == r.keys[1..] && v.ptrs[s..] == r.ptrs[1..]
  {
  }

  // ... and after the last child of the left one did.
  lemma CrossRight(l: NodeVal, key: nat, r: NodeVal)
    requires !l.isLeaf && |l.keys| > 0 && |l.ptrs| == |l.keys| + 1 && |r.ptrs| == |r.keys| + 1
    ensures var v := Joined(l, key, r); var s := |l.keys| - 1;
      && v.keys[..s] == l.keys[..s] && v.ptrs[..s + 1] == l.ptrs[..s + 1]
      && v.keys[s] == l.keys[s] && v.keys[s + 1..] == [key] + r.keys && v.ptrs[s + 1..] == [l.ptrs[s + 1]] + r.ptrs
  {
  }

  lemma LeafCrossRight(l: NodeVal, key: nat, r: NodeVal)
    requires l.isLeaf && |l.keys| > 0 && |l.ptrs| == |l.keys| && |r.ptrs| == |r.keys|
    ensures var v := Joined(l, key, r); var s := |l.keys| - 1;
      && v.keys[..s] == l.keys[..s] && v.ptrs[..s] == l.ptrs[..s]
      && v.keys[s..] == [l.keys[s]] + r.keys && v.ptrs[s..] == [l.ptrs[s]] + r.ptrs
  {
  }

  function DropEntry(v: NodeVal, i: nat): NodeVal
    requires i < |v.keys| && i + 1 < |v.ptrs|
  {
    v.(keys := RemoveAt(v.keys, i), ptrs := RemoveAt(v.ptrs, i + 1))
  }

  lemma InsertAtHas<T>(s: seq<T>, i: nat, x: T, k: T)
    requires i <= |s| && (k == x || k in s)
    ensures k in InsertAt(s, i, x)
  {
    if k == x {
      assert InsertAt(s, i, x)[i] == k;
    } else {
      var j :| 0 <= j < |s| && s[j] == k;
      assert InsertAt(s, i, x)[if j < i then j else j + 1] == k;
    }
  }

  lemma RemoveAtHas<T>(s: seq<T>, i: nat, k: T)
    requires i < |s| && k in s && k != s[i]
    ensures k in RemoveAt(s, i)
  {
    var j :| 0 <= j < |s| && s[j] == k;
    assert RemoveAt(s, i)[if j < i then j else j - 1] == k;
  }

  // Position of the first key not below `key`.
  function LowerBound(s: seq<nat>, key: nat): (i: nat)
    ensures i <= |s| && (forall j :: 0 <= j < i ==> s[j] < key) && (i < |s| ==> key <= s[i])
  {
    if s == [] || key <= s[0] then 0 else 1 + LowerBound(s[1..], key)
  }

  lemma LowerBoundIs(s: seq<nat>, key: nat, i: nat)
    requires i <= |s| && (forall j :: 0 <= j < i ==> s[j] < key) && (i < |s| ==> key <= s[i])
    ensures i == LowerBound(s, key)
  {
  }

  function WithEntry(v: NodeVal, key: nat, p: Ptr): NodeVal
    requires |v.ptrs| == |v.keys|
  {
    var i := LowerBound(v.keys, key);
    v.(keys := InsertAt(v.keys, i, key), ptrs := InsertAt(v.ptrs, i, p))
  }

  function WithoutEntry(v: NodeVal, i: nat): NodeVal
    requires i < |v.keys| <= |v.ptrs| && (!v.isLeaf ==> i + 1 < |v.ptrs|)
  {
    if v.isLeaf then v.(keys := RemoveAt(v.keys, i), ptrs := RemoveAt(v.ptrs, i)) else DropEntry(v, i)
  }

  // ---------- the loops that move slots around ----------

  // Opens slot `at` among the first n by shifting the later ones right, and stores x there.
  method InsertSlot<T>(a: array<T>, n: nat, at: nat, x: T)
    requires at <= n < a.Length
    modifies a
    ensures a[..n + 1] == InsertAt(old(a[..n]), at, x)
    ensures forall k :: n < k < a.Length ==> a[k] == old(a[k])
  {
    var i := n;
    while i > at
      invariant at <= i <= n
      invariant forall k :: 0 <= k < a.Length && !(i < k <= n) ==> a[k] == old(a[k])
      invariant forall k :: i < k <= n ==> a[k] == old(a[k - 1])
    {
      a[i] := a[i - 1];
      i := i - 1;
    }
    a[at] := x;
  }

  // The position of the first x, which is known to be there.
  method Position<T(==)>(a: array<T>, x: T, ghost at: nat) returns (i: nat)
    requires at < a.Length && a[at] == x && x !in a[..at]
    ensures i == at
  {
    i := 0;
    while a[i] != x
      invariant i <= at
      decreases at - i
    {
      i := i + 1;
    }
  }

  // Closes slot `at` among the first n by shifting the later ones left.
  method RemoveSlot<T>(a: array<T>, n: nat, at: nat)
    requires at < n <= a.Length
    modifies a
    ensures a[..n - 1] == RemoveAt(old(a[..n]), at)
    ensures forall k :: n <= k < a.Length ==> a[k] == old(a[k])
  {
    var i := at + 1;
    while i < n
      invariant at < i <= n
      invariant forall k :: 0 <= k < a.Length && !(at <= k < i - 1) ==> a[k] == old(a[k])
      invariant forall k :: at <= k < i - 1 ==> a[k] == old(a[k + 1])
    {
      a[i - 1] := a[i];
      i := i + 1;
    }
  }

  // Copies count slots of src from position `from` to position `at` of dst.
  method CopySlots<T>(dst: array<T>, at: nat, src: array<T>, from: nat, count: nat)
    requires dst != src && at + count <= dst.Length && from + count <= src.Length
    modifies dst
    ensures dst[at..at + count] == src[from..from + count]
    ensures forall k :: 0 <= k < dst.Length && !(at <= k < at + count) ==> dst[k] == old(dst[k])
  {
    for i := 0 to count
      invariant dst[at..at + i] == src[from..from + i]
      invariant forall k :: 0 <= k < dst.Length && !(at <= k < at + i) ==> dst[k] == old(dst[k])
    {
      dst[at + i] := src[from + i];
    }
  }

  // A temporary copy of the first n slots with x put in at position gap.
  method CopyWithGap<T>(src: array<T>, n: nat, gap: nat, x: T) returns (tmp: array<T>)
    requires gap <= n <= src.Length
    ensures fresh(tmp) && tmp[..] == InsertAt(src[..n], gap, x)
  {
    tmp := new T[n + 1](_ => x);
    var j := 0;
    for i := 0 to n
      invariant j == if i <= gap then i else i + 1
      invariant forall k :: 0 <= k < i ==> tmp[if k < gap then k else k + 1] == src[k]
      invariant src[..] == old(src[..])
    {
      if j == gap { j := j + 1; }
      tmp[j] := src[i];
      j := j + 1;
    }
    tmp[gap] := x;
    assert forall k :: 0 <= k < n ==> tmp[if k < gap then k else k + 1] == src[k];
    forall k | 0 <= k <= n ensures tmp[k] == InsertAt(src[..n], gap, x)[k] {
      if k != gap {
        var k' := if k < gap then k else k - 1;
        assert tmp[if k' < gap then k' else k' + 1] == src[k'];
      }
    }
  }

  class Node {
    const isLeaf: bool
    const keys: array<nat>
    const pointers: array<Ptr>
    var numKeys: nat
    var parent: Node?
    ghost var lo: nat
    ghost var hi: nat
    ghost var height: nat

    ghost predicate Valid()
      reads this
    {
      && 2 <= keys.Length && pointers.Length == keys.Length + 1 && numKeys <= keys.Length
      && keys as object != pointers
    }

    ghost function View(): NodeVal
      requires Valid()
      reads this, keys, pointers
    {
      NodeVal(isLeaf, keys[..numKeys], pointers[..if isLeaf then numKeys else numKeys + 1],
              if isLeaf then pointers[keys.Length] else Nil, parent, lo, hi, height)
    }

    ghost predicate Apart(n: Node) {
      keys != n.keys && pointers != n.pointers && keys as object != n.pointers && pointers as object != n.keys
    }

    // make_node and make_leaf
    constructor (order: nat, isLeaf: bool)
      requires order >= 3
      ensures Valid() && keys.Length == order - 1 && this.isLeaf == isLeaf && numKeys == 0 && parent == null
      ensures isLeaf ==> pointers[keys.Length] == Nil
      ensures fresh(keys) && fresh(pointers)
    {
      this.isLeaf := isLeaf;
      keys := new nat[order - 1](_ => 0);
      pointers := new Ptr[order](_ => Nil);
      numKeys := 0;
      parent := null;
    }

    // The scan of a leaf done by find
    method IndexOf(key: nat) returns (i: nat)
      requires Valid()
      ensures i <= numKeys && (if i == numKeys then key !in keys[..numKeys] else keys[i] == key && key !in keys[..i])
    {
      i := 0;
      while i < numKeys && keys[i] != key
        invariant i <= numKeys && key !in keys[..i]
      {
        i := i + 1;
      }
    }

    method InsertIntoLeaf(key: nat, p: Ptr)
      requires Valid() && isLeaf && numKeys < keys.Length
      modifies this`numKeys, keys, pointers
      ensures Valid() && View() == WithEntry(old(View()), key, p)
    {
      ghost var v := View();
      var at := 0;
      while at < numKeys && keys[at] < key
        invariant at <= numKeys && forall j :: 0 <= j < at ==> keys[j] < key
      {
        at := at + 1;
      }
      LowerBoundIs(v.keys, key, at);
      InsertSlot(keys, numKeys, at, key);
      InsertSlot(pointers, numKeys, at, p);
      numKeys := numKeys + 1;
    }

    // insert_unique appends directly when the key exceeds the last one.
    method AppendToLeaf(key: nat, p: Ptr)
      requires Valid() && isLeaf && numKeys < keys.Length
      requires forall j :: 0 <= j < numKeys ==> keys[j] < key
      modifies this`numKeys, keys, pointers
      ensures Valid() && View() == WithEntry(old(View()), key, p)
    {
      ghost var v := View();
      LowerBoundIs(v.keys, key, numKeys);
      keys[numKeys] := key;
      pointers[numKeys] := p;
      numKeys := numKeys + 1;
      assert keys[..numKeys] == InsertAt(v.keys, numKeys - 1, key);
      assert pointers[..numKeys] == InsertAt(v.ptrs, numKeys - 1, p);
    }

    // Refills the node with count keys, and their pointers, of a temporary copy.
    method Load(tempKeys: array<nat>, tempPointers: array<Ptr>, from: nat, count: nat)
      requires Valid() && Foreign(tempKeys, tempPointers)
      requires count <= keys.Length && from + count <= tempKeys.Length
      requires from + count + (if isLeaf then 0 else 1) <= tempPointers.Length
      modifies this`numKeys, keys, pointers
      ensures Valid() && numKeys == count
      ensures keys[..count] == tempKeys[from..from + count]
      ensures isLeaf ==> pointers[..count] == tempPointers[from..from + count]
      ensures isLeaf ==> pointers[keys.Length] == old(pointers[keys.Length])
      ensures !isLeaf ==> pointers[..count + 1] == tempPointers[from..from + count + 1]
    {
      var used := if isLeaf then count else count + 1;
      CopySlots(keys, 0, tempKeys, from, count);
      CopySlots(pointers, 0, tempPointers, from, used);
      numKeys := count;
      FillNil(used, if isLeaf then keys.Length else pointers.Length);
      assert pointers[..used] == tempPointers[from..from + used];
    }

    // Both splitting routines: the overfull contents, held in temporary buffers, are dealt out
    // to this node and its new right sibling around key position s.
    method Deal(tempKeys: array<nat>, tempPointers: array<Ptr>, s: nat, right: Node)
      requires Valid() && right.Valid() && right != this && Apart(right)
      requires isLeaf == right.isLeaf && right.keys.Length == keys.Length
      requires tempKeys.Length == keys.Length + 1 && tempPointers.Length == tempKeys.Length + (if isLeaf then 0 else 1)
      requires 0 < s < keys.Length
      requires Foreign(tempKeys, tempPointers) && right.Foreign(tempKeys, tempPointers)
      modifies this, keys, pointers, right, right.keys, right.pointers
      ensures Valid() && right.Valid()
      ensures var v := old(View().(keys := tempKeys[..], ptrs := tempPointers[..]));
        View() == LeftHalf(v, s, right) && right.View() == RightHalf(v, s)
    {
      right.TakeRight(this, tempKeys, tempPointers, s);
      TakeLeft(tempKeys, tempPointers, s, right);
    }

    method TakeRight(left: Node, tempKeys: array<nat>, tempPointers: array<Ptr>, s: nat)
      requires Valid() && left.Valid() && left != this && Apart(left) && isLeaf == left.isLeaf
      requires left.keys.Length == keys.Length
      requires tempKeys.Length == keys.Length + 1 && tempPointers.Length == tempKeys.Length + (if isLeaf then 0 else 1)
      requires 0 < s < keys.Length && Foreign(tempKeys, tempPointers)
      modifies this, keys, pointers
      ensures Valid() && View() == RightHalf(left.View().(keys := tempKeys[..], ptrs := tempPointers[..]), s)
    {
      var from := if isLeaf then s else s + 1;
      Load(tempKeys, tempPointers, from, tempKeys.Length - from);
      if isLeaf { pointers[keys.Length] := left.pointers[keys.Length]; }
      parent := left.parent;
      lo, hi, height := tempKeys[s], left.hi, left.height;
      assert keys[..numKeys] == tempKeys[..][from..];
      assert pointers[..if isLeaf then numKeys else numKeys + 1] == tempPointers[..][from..];
    }

    method TakeLeft(tempKeys: array<nat>, tempPointers: array<Ptr>, s: nat, right: Node)
      requires Valid() && 0 < s < keys.Length && Foreign(tempKeys, tempPointers)
      requires tempKeys.Length == keys.Length + 1 && tempPointers.Length == tempKeys.Length + (if isLeaf then 0 else 1)
      modifies this, keys, pointers
      ensures Valid() && View() == LeftHalf(old(View().(keys := tempKeys[..], ptrs := tempPointers[..])), s, right)
    {
      Load(tempKeys, tempPointers, 0, s);
      if isLeaf { pointers[keys.Length] := Child(right); }
      hi := tempKeys[s];
      assert keys[..numKeys] == tempKeys[..][..s];
      assert pointers[..if isLeaf then numKeys else numKeys + 1] == tempPointers[..][..if isLeaf then s else s + 1];
    }

    ghost predicate Foreign(tempKeys: array<nat>, tempPointers: array<Ptr>) {
      && keys != tempKeys && pointers != tempPointers
      && keys as object != tempPointers && pointers as object != tempKeys
    }

    // insert_into_leaf_after_splitting, up to the call of insert_into_parent
    method SplitLeaf(key: nat, p: Ptr, right: Node)
      requires Valid() && isLeaf && numKeys == keys.Length
      requires right != this && right.Valid() && right.isLeaf && right.keys.Length == keys.Length && Apart(right)
      modifies this, keys, pointers, right, right.keys, right.pointers
      ensures Valid() && right.Valid()
      ensures var v := WithEntry(old(View()), key, p); var s := Cut(keys.Length);
        View() == LeftHalf(v, s, right) && right.View() == RightHalf(v, s)
    {
      var at := 0;
      while at < keys.Length && keys[at] < key
        invariant at <= numKeys && forall j :: 0 <= j < at ==> keys[j] < key
      {
        at := at + 1;
      }
      LowerBoundIs(keys[..numKeys], key, at);
      var tempKeys := CopyWithGap(keys, numKeys, at, key);
      var tempPointers := CopyWithGap(pointers, numKeys, at, p);
      Deal(tempKeys, tempPointers, Cut(keys.Length), right);
    }

    // insert_into_node
    method InsertIntoNode(at: nat, key: nat, right: Node)
      requires Valid() && !isLeaf && numKeys < keys.Length && at <= numKeys
      modifies this`numKeys, keys, pointers
      ensures Valid() && View() == AddEntry(old(View()), at, key, right)
    {
      InsertSlot(pointers, numKeys + 1, at + 1, Child(right));
      InsertSlot(keys, numKeys, at, key);
      numKeys := numKeys + 1;
    }

    // insert_into_node_after_splitting, up to the re-parenting of the children
    method SplitInner(at: nat, key: nat, child: Node, right: Node, ghost v: NodeVal, ghost s: nat) returns (kPrime: nat)
      requires Valid() && !isLeaf && numKeys == keys.Length && at <= numKeys
      requires right != this && right.Valid() && !right.isLeaf && right.keys.Length == keys.Length && Apart(right)
      requires v == AddEntry(View(), at, key, child) && s == Cut(pointers.Length) - 1
      modifies this, keys, pointers, right, right.keys, right.pointers
      ensures Valid() && right.Valid()
      ensures View() == LeftHalf(v, s, right) && right.View() == RightHalf(v, s) && kPrime == v.keys[s]
    {
      var tempPointers := CopyWithGap(pointers, numKeys + 1, at + 1, Child(child));
      var tempKeys := CopyWithGap(keys, numKeys, at, key);
      assert v == View().(keys := tempKeys[..], ptrs := tempPointers[..]);
      kPrime := tempKeys[Cut(pointers.Length) - 1];
      Deal(tempKeys, tempPointers, Cut(pointers.Length) - 1, right);
    }

    // insert_into_new_root, for the new root itself
    method InitRoot(left: Node, key: nat, right: Node, ghost height: nat)
      requires Valid() && !isLeaf && parent == null
      modifies this, keys, pointers
      ensures Valid() && View() == NodeVal(false, [key], [Child(left), Child(right)], Nil, null, 0, KEY_LIMIT, height)
    {
      keys[0] := key;
      pointers[0] := Child(left);
      pointers[1] := Child(right);
      numKeys := 1;
      lo, hi, this.height := 0, KEY_LIMIT, height;
      assert keys[..1] == [key] && pointers[..2] == [Child(left), Child(right)];
    }

    // start_new_tree
    method InitLeaf(key: nat, p: Ptr)
      requires Valid() && isLeaf && parent == null && pointers[keys.Length] == Nil
      modifies this, keys, pointers
      ensures Valid() && View() == NodeVal(true, [key], [p], Nil, null, 0, KEY_LIMIT, 0)
    {
      keys[0] := key;
      pointers[0] := p;
      numKeys := 1;
      lo, hi, height := 0, KEY_LIMIT, 0;
      assert keys[..1] == [key] && pointers[..1] == [p];
    }

    // remove_entry_from_node
    method RemoveEntry(key: nat, p: Ptr, ghost at: nat)
      requires Valid() && at < numKeys && keys[at] == key && key !in keys[..at]
      requires var j := if isLeaf then at else at + 1; pointers[j] == p && p !in pointers[..j]
      modifies this`numKeys, keys, pointers
      ensures Valid() && View() == WithoutEntry(old(View()), at)
    {
      var i := Position(keys, key, at);
      RemoveSlot(keys, numKeys, i);
      RemovePointer(p, if isLeaf then at else at + 1);
      numKeys := numKeys - 1;
    }

    method RemovePointer(p: Ptr, ghost at: nat)
      requires Valid() && at < (if isLeaf then numKeys else numKeys + 1) && pointers[at] == p && p !in pointers[..at]
      modifies pointers
      ensures var n := if isLeaf then numKeys else numKeys + 1; pointers[..n - 1] == RemoveAt(old(pointers[..n]), at)
      ensures isLeaf ==> pointers[keys.Length] == old(pointers[keys.Length])
    {
      var numPointers := if isLeaf then numKeys else numKeys + 1;
      var i := Position(pointers, p, at);
      RemoveSlot(pointers, numPointers, i);
      var to := if isLeaf then keys.Length else pointers.Length;
      FillNil(numPointers - 1, to);
      assert isLeaf ==> pointers[to..][0] == pointers[to];
    }

    // The copying done by coalesce_nodes; `key` is the separator between this node and right.
    method Absorb(key: nat, right: Node)
      requires Valid() && right.Valid() && right != this && Apart(right) && isLeaf == right.isLeaf
      requires right.keys.Length == keys.Length
      requires numKeys + right.numKeys + (if isLeaf then 0 else 1) <= keys.Length
      modifies this, keys, pointers
      ensures Valid() && View() == Joined(old(View()), key, old(right.View()))
    {
      if isLeaf { AbsorbLeaf(right); } else { AbsorbInner(key, right); }
    }

    method AbsorbLeaf(right: Node)
      requires Valid() && right.Valid() && right != this && Apart(right) && isLeaf && right.isLeaf
      requires right.keys.Length == keys.Length && numKeys + right.numKeys <= keys.Length
      modifies this, keys, pointers
      ensures Valid() && View() == Joined(old(View()), 0, old(right.View()))
    {
      CopySlots(keys, numKeys, right.keys, 0, right.numKeys);
      CopySlots(pointers, numKeys, right.pointers, 0, right.numKeys);
      numKeys := numKeys + right.numKeys;
      pointers[pointers.Length - 1] := right.pointers[pointers.Length - 1];
      hi := right.hi;
      assert keys[..numKeys] == old(keys[..numKeys]) + right.keys[..right.numKeys];
      assert pointers[..numKeys] == old(pointers[..numKeys]) + right.pointers[..right.numKeys];
    }

    method AbsorbInner(key: nat, right: Node)
      requires Valid() && right.Valid() && right != this && Apart(right) && !isLeaf && !right.isLeaf
      requires right.keys.Length == keys.Length && numKeys + 1 + right.numKeys <= keys.Length
      modifies this, keys, pointers
      ensures Valid() && View() == Joined(old(View()), key, old(right.View()))
    {
      keys[numKeys] := key;
      CopySlots(keys, numKeys + 1, right.keys, 0, right.numKeys);
      CopySlots(pointers, numKeys + 1, right.pointers, 0, right.numKeys + 1);
      numKeys := numKeys + 1 + right.numKeys;
      hi := right.hi;
      assert keys[..numKeys] == old(keys[..numKeys]) + [key] + right.keys[..right.numKeys];
      assert pointers[..numKeys + 1] == old(pointers[..numKeys + 1]) + right.pointers[..right.numKeys + 1];
    }

    // redistribute_nodes with a left neighbour
    method BorrowLeft(left: Node, key: nat, ghost v: NodeVal) returns (sep: nat)
      requires Valid() && left.Valid() && left != this && Apart(left) && left.keys.Length == keys.Length
      requires isLeaf == left.isLeaf && (isLeaf ==> left.pointers[keys.Length] == Child(this))
      requires left.hi == lo && parent == left.parent && height == left.height && numKeys < keys.Length
      requires left.numKeys >= 2
      requires v == Joined(left.View(), key, View())
      modifies this, keys, pointers, left, left.keys, left.pointers
      ensures Valid() && left.Valid()
      ensures var s := old(left.numKeys) - 1;
        s < |v.keys| && |v.ptrs| == |v.keys| + (if isLeaf then 0 else 1) && left.View() == LeftHalf(v, s, this) &&
            View() == RightHalf(v, s) && sep == v.keys[s]
    {
      if isLeaf { sep := BorrowLeftLeaf(left, key, v); } else { sep := BorrowLeftInner(left, key, v); }
    }

    // redistribute_nodes with a right neighbour
    method BorrowRight(right: Node, key: nat, ghost v: NodeVal) returns (sep: nat)
      requires Valid() && right.Valid() && right != this && Apart(right) && right.keys.Length == keys.Length
      requires isLeaf == right.isLeaf && (isLeaf ==> pointers[keys.Length] == Child(right))
      requires hi == right.lo && parent == right.parent && height == right.height && numKeys < keys.Length
      requires right.numKeys >= 2
      requires v == Joined(View(), key, right.View())
      modifies this, keys, pointers, right, right.keys, right.pointers
      ensures Valid() && right.Valid()
      ensures var s := old(numKeys) + 1;
        s < |v.keys| && |v.ptrs| == |v.keys| + (if isLeaf then 0 else 1) && View() == LeftHalf(v, s, right) &&
            right.View() == RightHalf(v, s) && sep == v.keys[s]
    {
      if isLeaf { sep := BorrowRightLeaf(right, key, v); } else { sep := BorrowRightInner(right, key, v); }
    }

    // redistribute_nodes, leaf taking the last entry of its left neighbour
    method BorrowLeftLeaf(left: Node, key: nat, ghost v: NodeVal) returns (sep: nat)
      requires Valid() && left.Valid() && left != this && Apart(left) && left.keys.Length == keys.Length
      requires isLeaf && left.isLeaf && left.pointers[keys.Length] == Child(this) && left.hi == lo
      requires parent == left.parent && height == left.height
      requires numKeys < keys.Length && left.numKeys >= 2
      requires v == Joined(left.View(), key, View())
      modifies this, keys, pointers, left, left.keys, left.pointers
      ensures Valid() && left.Valid()
      ensures var s := old(left.numKeys) - 1;
        s < |v.keys| && |v.ptrs| == |v.keys| + (if isLeaf then 0 else 1) && left.View() == LeftHalf(v, s, this) &&
            View() == RightHalf(v, s) && sep == v.keys[s]
    {
      LeafCrossRight(left.View(), key, View());
      var last := left.numKeys - 1;
      sep := left.keys[last];
      PrependEntry(sep, left.pointers[last], sep);
      left.DropLastEntry(sep);
    }

    method PrependEntry(key: nat, p: Ptr, ghost newLo: nat)
      requires Valid() && isLeaf && numKeys < keys.Length
      modifies this, keys, pointers
      ensures Valid() && var v := old(View()); View() == v.(keys := [key] + v.keys, ptrs := [p] + v.ptrs, lo := newLo)
    {
      InsertSlot(keys, numKeys, 0, key);
      InsertSlot(pointers, numKeys, 0, p);
      numKeys := numKeys + 1;
      lo := newLo;
      assert keys[..numKeys] == [key] + old(keys[..numKeys]);
      assert pointers[..numKeys] == [p] + old(pointers[..numKeys]);
    }

    method DropLastEntry(ghost newHi: nat)
      requires Valid() && isLeaf && numKeys > 0
      modifies this, pointers
      ensures Valid() && var v := old(View());
        View() == v.(keys := v.keys[..|v.keys| - 1], ptrs := v.ptrs[..|v.ptrs| - 1], hi := newHi)
    {
      pointers[numKeys - 1] := Nil;
      numKeys := numKeys - 1;
      hi := newHi;
      assert keys[..numKeys] == old(keys[..numKeys])[..numKeys];
      assert pointers[..numKeys] == old(pointers[..numKeys])[..numKeys];
    }

    // redistribute_nodes, internal node taking the last child of its left neighbour
    method BorrowLeftInner(left: Node, key: nat, ghost v: NodeVal) returns (sep: nat)
      requires Valid() && left.Valid() && left != this && Apart(left) && left.keys.Length == keys.Length
      requires !isLeaf && !left.isLeaf && left.hi == lo && parent == left.parent && height == left.height
      requires numKeys < keys.Length && left.numKeys >= 2
      requires v == Joined(left.View(), key, View())
      modifies this, keys, pointers, left, left.keys, left.pointers
      ensures Valid() && left.Valid()
      ensures var s := old(left.numKeys) - 1;
        s < |v.keys| && |v.ptrs| == |v.keys| + (if isLeaf then 0 else 1) && left.View() == LeftHalf(v, s, this) &&
            View() == RightHalf(v, s) && sep == v.keys[s]
    {
      CrossRight(left.View(), key, View());
      var last := left.numKeys - 1;
      sep := left.keys[last];
      PrependChild(key, left.pointers[last + 1], sep);
      left.DropLastChild(sep);
    }

    method PrependChild(key: nat, p: Ptr, ghost newLo: nat)
      requires Valid() && !isLeaf && numKeys < keys.Length
      modifies this, keys, pointers
      ensures Valid()
      ensures View() == old(View()).(keys := [key] + old(View()).keys, ptrs := [p] + old(View()).ptrs, lo := newLo)
    {
      InsertSlot(pointers, numKeys + 1, 0, p);
      InsertSlot(keys, numKeys, 0, key);
      numKeys := numKeys + 1;
      lo := newLo;
      assert keys[..numKeys] == [key] + old(keys[..numKeys]);
      assert pointers[..numKeys + 1] == [p] + old(pointers[..numKeys + 1]);
    }

    method DropLastChild(ghost newHi: nat)
      requires Valid() && !isLeaf && numKeys > 0
      modifies this, keys, pointers
      ensures Valid() && var v := old(View());
        View() == v.(keys := v.keys[..|v.keys| - 1], ptrs := v.ptrs[..|v.ptrs| - 1], hi := newHi)
    {
      pointers[numKeys] := Nil;
      numKeys := numKeys - 1;
      hi := newHi;
      assert keys[..numKeys] == old(keys[..numKeys])[..numKeys];
      assert pointers[..numKeys + 1] == old(pointers[..numKeys + 1])[..numKeys + 1];
    }

    // redistribute_nodes, leaf taking the first entry of its right neighbour
    method BorrowRightLeaf(right: Node, key: nat, ghost v: NodeVal) returns (sep: nat)
      requires Valid() && right.Valid() && right != this && Apart(right) && right.keys.Length == keys.Length
      requires isLeaf && right.isLeaf && pointers[keys.Length] == Child(right) && hi == right.lo
      requires parent == right.parent && height == right.height
      requires numKeys < keys.Length && right.numKeys >= 2
      requires v == Joined(View(), key, right.View())
      modifies this, keys, pointers, right, right.keys, right.pointers
      ensures Valid() && right.Valid()
      ensures var s := old(numKeys) + 1;
        s < |v.keys| && |v.ptrs| == |v.keys| + (if isLeaf then 0 else 1) && View() == LeftHalf(v, s, right) &&
            right.View() == RightHalf(v, s) && sep == v.keys[s]
    {
      LeafCrossLeft(View(), key, right.View());
      sep := right.keys[1];
      AppendEntry(right.keys[0], right.pointers[0], sep);
      right.DropFirstEntry(sep);
    }

    method AppendEntry(key: nat, p: Ptr, ghost newHi: nat)
      requires Valid() && isLeaf && numKeys < keys.Length
      modifies this, keys, pointers
      ensures Valid()
      ensures View() == old(View()).(keys := old(View()).keys + [key], ptrs := old(View()).ptrs + [p], hi := newHi)
    {
      keys[numKeys] := key;
      pointers[numKeys] := p;
      numKeys := numKeys + 1;
      hi := newHi;
    }

    method DropFirstEntry(ghost newLo: nat)
      requires Valid() && isLeaf && numKeys > 0
      modifies this, keys, pointers
      ensures Valid()
      ensures View() == old(View()).(keys := old(View()).keys[1..], ptrs := old(View()).ptrs[1..], lo := newLo)
    {
      RemoveSlot(keys, numKeys, 0);
      RemoveSlot(pointers, numKeys, 0);
      numKeys := numKeys - 1;
      lo := newLo;
      assert keys[..numKeys] == old(keys[..numKeys])[1..];
      assert pointers[..numKeys] == old(pointers[..numKeys])[1..];
    }

    // redistribute_nodes, internal node taking the first child of its right neighbour
    method BorrowRightInner(right: Node, key: nat, ghost v: NodeVal) returns (sep: nat)
      requires Valid() && right.Valid() && right != this && Apart(right) && right.keys.Length == keys.Length
      requires !isLeaf && !right.isLeaf && hi == right.lo && parent == right.parent && height == right.height
      requires numKeys < keys.Length && right.numKeys >= 2
      requires v == Joined(View(), key, right.View())
      modifies this, keys, pointers, right, right.keys, right.pointers
      ensures Valid() && right.Valid()
      ensures var s := old(numKeys) + 1;
        s < |v.keys| && |v.ptrs| == |v.keys| + (if isLeaf then 0 else 1) && View() == LeftHalf(v, s, right) &&
            right.View() == RightHalf(v, s) && sep == v.keys[s]
    {
      CrossLeft(View(), key, right.View());
      sep := right.keys[0];
      AppendChild(key, right.pointers[0], sep);
      right.DropFirstChild(sep);
    }

    method AppendChild(key: nat, p: Ptr, ghost newHi: nat)
      requires Valid() && !isLeaf && numKeys < keys.Length
      modifies this, keys, pointers
      ensures Valid()
      ensures View() == old(View()).(keys := old(View()).keys + [key], ptrs := old(View()).ptrs + [p], hi := newHi)
    {
      keys[numKeys] := key;
      pointers[numKeys + 1] := p;
      numKeys := numKeys + 1;
      hi := newHi;
    }

    method DropFirstChild(ghost newLo: nat)
      requires Valid() && !isLeaf && numKeys > 0
      modifies this, keys, pointers
      ensures Valid()
      ensures View() == old(View()).(keys := old(View()).keys[1..], ptrs := old(View()).ptrs[1..], lo := newLo)
    {
      RemoveSlot(keys, numKeys, 0);
      RemoveSlot(pointers, numKeys + 1, 0);
      numKeys := numKeys - 1;
      lo := newLo;
      assert keys[..numKeys] == old(keys[..numKeys])[1..];
      assert pointers[..numKeys + 1] == old(pointers[..numKeys + 1])[1..];
    }

    method FillNil(from: nat, to: nat)
      requires from <= to <= pointers.Length
      modifies pointers
      ensures pointers[..from] == old(pointers[..from]) && pointers[to..] == old(pointers[to..])
    {
      for i := from to to
        invariant pointers[..from] == old(pointers[..from]) && pointers[to..] == old(pointers[to..])
      {
        pointers[i] := Nil;
      }
    }

    // ---------- bulk loading ----------

    // A new leaf takes entries from..upto of the input.
    method FillLeaf(input: array<nat>, records: array<Record>, from: nat, upto: nat, ghost newLo: nat, ghost newHi: nat)
      requires Valid() && isLeaf && parent == null && pointers[keys.Length] == Nil && input != keys
      requires from <= upto <= input.Length == records.Length && upto - from <= keys.Length
      modifies this, keys, pointers
      ensures Valid()
      ensures View() == NodeVal(true, input[from..upto], Slots(records[from..upto]), Nil, null, newLo, newHi, 0)
    {
      var count := 0;
      while from + count < upto
        invariant from + count <= upto
        invariant forall j :: 0 <= j < count ==> keys[j] == input[from + j] && pointers[j] == Rec(records[from + j])
        invariant pointers[keys.Length] == Nil && input[..] == old(input[..]) && parent == null
      {
        keys[count] := input[from + count];
        pointers[count] := Rec(records[from + count]);
        count := count + 1;
      }
      numKeys := count;
      lo, hi, height := newLo, newHi, 0;
      assert keys[..count] == input[from..upto];
      assert pointers[..count] == Slots(records[from..upto]);
    }

    // The chain pointer of a leaf
    method SetNext(p: Ptr, ghost newHi: nat)
      requires Valid() && isLeaf && numKeys < pointers.Length
      modifies this`hi, pointers
      ensures Valid() && View() == old(View()).(next := p, hi := newHi)
    {
      pointers[keys.Length] := p;
      hi := newHi;
    }

    // A new internal node starts with one child.
    method FirstChild(p: Ptr, ghost newLo: nat, ghost newHi: nat, ghost newHeight: nat)
      requires Valid() && !isLeaf && numKeys == 0
      modifies this`lo, this`hi, this`height, pointers
      ensures Valid() && View() == NodeVal(false, [], [p], Nil, parent, newLo, newHi, newHeight)
    {
      pointers[0] := p;
      lo, hi, height := newLo, newHi, newHeight;
    }
  }
}
