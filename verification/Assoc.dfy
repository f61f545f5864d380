/** The incremental hash table of sources/memcached/assoc.c: chains of items linked by hnext, and a second,
    larger table into which one old bucket after another is migrated while the table stays in use. */
module Assoc {

  import opened Common
  import opened Bits
  import opened Division

  type Key = string

  class Item {
    const key: Key
    var hnext: Item?

    constructor (key: Key)
      ensures this.key == key && hnext == null
    {
      this.key := key;
      hnext := null;
    }
  }

  function At(c: seq<Item>, i: nat): Item? {
    if i < |c| then c[i] else null
  }

  // The list of items that starts at head and follows next is c.
  ghost predicate Chained(head: Item?, c: seq<Item>, next: map<Item, Item?>) {
    head == At(c, 0) && forall i :: 0 <= i < |c| ==> c[i] in next && next[c[i]] == At(c, i + 1)
  }

  // ---------- hash bits ----------

  lemma ModTwice(h: nat, m: nat, n: nat, k: nat)
    requires m > 0 && k > 0 && n > 0 && n == m * k
    ensures (h % n) % m == h % m
  {
    Cut(h, m, k, n);
  }

  /** Item locks are stripes over the low bits of the hash, no more of them than old buckets. A thread
      whose stripe differs from that of the bucket being migrated works on another bucket. */
  lemma StripeSeparates(h: nat, expandBucket: nat, lockPower: nat, oldPower: nat)
    requires lockPower <= oldPower && h % Pow2(lockPower) != expandBucket % Pow2(lockPower)
    ensures h % Pow2(oldPower) != expandBucket
  {
    Pow2Add(lockPower, oldPower - lockPower);
    ModTwice(h, Pow2(lockPower), Pow2(oldPower), Pow2(oldPower - lockPower));
  }

  // ---------- both tables as one map ----------

  function Low(h: nat, size: nat): (b: nat)
    requires size > 0
    ensures b < size
  {
    h % size
  }

  // The chains of the primary and of the old table, and the map they stand for
  datatype Tab = Tab(
    hash: Key -> nat, P: seq<seq<Item>>, O: seq<seq<Item>>, expanding: bool, eb: nat, m: map<Key, Item>)

  ghost predicate Shape(t: Tab) {
    && |t.P| > 0
    && (t.expanding ==> t.eb < |t.O| && |t.P| == 2 * |t.O|)
    && (!t.expanding ==> t.O == [])
  }

  ghost predicate Fits(t: Tab, it: Item, b: nat, size: nat)
    requires size > 0
  {
    it.key in t.m && t.m[it.key] == it && Low(t.hash(it.key), size) == b
  }

  ghost predicate NewOK(t: Tab, b: nat)
    requires Shape(t) && b < |t.P|
  {
    && NoDup(t.P[b])
    && forall it :: it in t.P[b] ==> Fits(t, it, b, |t.P|) && (t.expanding ==> Low(t.hash(it.key), |t.O|) < t.eb)
  }

  // The old table is empty below the next bucket to migrate.
  ghost predicate OldOK(t: Tab, b: nat)
    requires Shape(t) && b < |t.O|
  {
    && NoDup(t.O[b]) && (b < t.eb ==> t.O[b] == [])
    && forall it :: it in t.O[b] ==> Fits(t, it, b, |t.O|)
  }

  datatype Place = Old(bucket: nat) | New(bucket: nat)

  // The lookup rule: the old table until the hash's old bucket was migrated, then the primary one
  function PlaceOf(t: Tab, h: nat): Place
    requires |t.P| > 0 && (t.expanding ==> |t.O| > 0)
  {
    if t.expanding && Low(h, |t.O|) >= t.eb then Old(Low(h, |t.O|)) else New(Low(h, |t.P|))
  }

  ghost function ChainOf(t: Tab, h: nat): seq<Item>
    requires Shape(t)
  {
    if t.expanding && Low(h, |t.O|) >= t.eb then t.O[Low(h, |t.O|)] else t.P[Low(h, |t.P|)]
  }

  ghost predicate KeyOK(t: Tab, k: Key)
    requires Shape(t) && k in t.m
  {
    t.m[k].key == k && t.m[k] in ChainOf(t, t.hash(k))
  }

  /** Each item is in the one chain where it is looked up, and nowhere else. */
  ghost predicate TabOK(t: Tab) {
    && Shape(t)
    && (forall b: nat {:trigger NewOK(t, b)} :: b < |t.P| ==> NewOK(t, b))
    && (forall b: nat {:trigger OldOK(t, b)} :: b < |t.O| ==> OldOK(t, b))
    && (forall k {:trigger KeyOK(t, k)} :: k in t.m ==> KeyOK(t, k))
  }

  ghost function Inserted(t: Tab, it: Item): Tab
    requires Shape(t)
  {
    var h := t.hash(it.key);
    if t.expanding && Low(h, |t.O|) >= t.eb then
      t.(O := t.O[Low(h, |t.O|) := [it] + t.O[Low(h, |t.O|)]], m := t.m[it.key := it])
    else
      t.(P := t.P[Low(h, |t.P|) := [it] + t.P[Low(h, |t.P|)]], m := t.m[it.key := it])
  }

  lemma InsertedOK(t: Tab, it: Item)
    requires TabOK(t) && it.key !in t.m
    ensures TabOK(Inserted(t, it))
  {
    var t' := Inserted(t, it);
    forall b: nat | b < |t'.P| ensures NewOK(t', b) {
      assert NewOK(t, b);
      assert it !in t.P[b];
      forall x | x in t'.P[b] ensures x == it || x in t.P[b] {
      }
    }
    forall b: nat | b < |t'.O| ensures OldOK(t', b) {
      assert OldOK(t, b);
      assert it !in t.O[b];
      forall x | x in t'.O[b] ensures x == it || x in t.O[b] {
      }
    }
    forall k | k in t'.m ensures KeyOK(t', k) {
      if k != it.key { assert KeyOK(t, k); }
    }
  }

  // Item i of the chain of its key is unlinked.
  ghost function Deleted(t: Tab, key: Key, i: nat): Tab
    requires Shape(t) && i < |ChainOf(t, t.hash(key))|
  {
    var h := t.hash(key);
    if t.expanding && Low(h, |t.O|) >= t.eb then
      t.(O := t.O[Low(h, |t.O|) := RemoveAt(t.O[Low(h, |t.O|)], i)], m := t.m - {key})
    else
      t.(P := t.P[Low(h, |t.P|) := RemoveAt(t.P[Low(h, |t.P|)], i)], m := t.m - {key})
  }

  lemma WithoutFacts(c: seq<Item>, i: nat)
    requires i < |c| && NoDup(c)
    ensures NoDup(RemoveAt(c, i))
    ensures forall it :: it in RemoveAt(c, i) <==> it in c && it != c[i]
  {
    var d := RemoveAt(c, i);
    forall it | it in c && it != c[i] ensures it in d {
      var k :| 0 <= k < |c| && c[k] == it;
      assert d[if k < i then k else k - 1] == it;
    }
    assert forall k :: 0 <= k < |d| ==> d[k] == c[if k < i then k else k + 1];
  }

  lemma ChainFacts(t: Tab, h: nat)
    requires TabOK(t)
    ensures NoDup(ChainOf(t, h))
    ensures forall it :: it in ChainOf(t, h) ==> it.key in t.m && t.m[it.key] == it
  {
    if t.expanding && Low(h, |t.O|) >= t.eb {
      assert OldOK(t, Low(h, |t.O|));
    } else {
      assert NewOK(t, Low(h, |t.P|));
    }
  }

  lemma DeletedOK(t: Tab, key: Key, i: nat)
    requires TabOK(t) && i < |ChainOf(t, t.hash(key))| && ChainOf(t, t.hash(key))[i].key == key
    ensures TabOK(Deleted(t, key, i))
  {
    var t', c := Deleted(t, key, i), ChainOf(t, t.hash(key));
    ChainFacts(t, t.hash(key));
    WithoutFacts(c, i);
    forall b: nat | b < |t'.P| ensures NewOK(t', b) {
      assert NewOK(t, b);
      assert forall k :: 0 <= k < |t'.P[b]| ==> t'.P[b][k] in t.P[b];
    }
    forall b: nat | b < |t'.O| ensures OldOK(t', b) {
      assert OldOK(t, b);
      assert forall k :: 0 <= k < |t'.O[b]| ==> t'.O[b][k] in t.O[b];
    }
    forall k | k in t'.m ensures KeyOK(t', k) {
      assert KeyOK(t, k);
    }
  }

  // assoc_expand: the primary table becomes the old one beside an empty table of twice the size.
  ghost function Expanded(t: Tab): Tab {
    t.(P := seq(2 * |t.P|, _ => []), O := t.P, expanding := true, eb := 0)
  }

  lemma ExpandedOK(t: Tab)
    requires TabOK(t) && !t.expanding
    ensures TabOK(Expanded(t))
  {
    var t' := Expanded(t);
    forall b: nat | b < |t'.P| ensures NewOK(t', b) {
    }
    forall b: nat | b < |t'.O| ensures OldOK(t', b) {
      assert NewOK(t, b);
    }
    forall k | k in t'.m ensures KeyOK(t', k) {
      assert KeyOK(t, k);
    }
  }

  // The items of a chain pushed one by one onto their new chains
  ghost function Moved(hash: Key -> nat, P: seq<seq<Item>>, c: seq<Item>): (r: seq<seq<Item>>)
    requires |P| > 0
    ensures |r| == |P|
    decreases |c|
  {
    if c == [] then P
    else
      var b := Low(hash(c[0].key), |P|);
      Moved(hash, P[b := [c[0]] + P[b]], c[1..])
  }

  lemma {:induction false} MovedFacts(hash: Key -> nat, P: seq<seq<Item>>, c: seq<Item>, b: nat)
    requires b < |P| && NoDup(P[b]) && NoDup(c) && forall i :: 0 <= i < |c| ==> c[i] !in P[b]
    ensures NoDup(Moved(hash, P, c)[b])
    ensures forall it :: it in Moved(hash, P, c)[b] <==> it in P[b] || (it in c && Low(hash(it.key), |P|) == b)
    decreases |c|
  {
    if c != [] {
      var d := Low(hash(c[0].key), |P|);
      var P' := P[d := [c[0]] + P[d]];
      assert c == [c[0]] + c[1..];
      MovedFacts(hash, P', c[1..], b);
    }
  }

  // The maintenance thread has moved the items of the next old bucket.
  ghost function Migrated(t: Tab): Tab
    requires Shape(t) && t.expanding
  {
    var P' := Moved(t.hash, t.P, t.O[t.eb]);
    if t.eb + 1 == |t.O| then t.(P := P', O := [], expanding := false, eb := t.eb + 1)
    else t.(P := P', O := t.O[t.eb := []], eb := t.eb + 1)
  }

  lemma MigratedOK(t: Tab)
    requires TabOK(t) && t.expanding
    ensures TabOK(Migrated(t))
  {
    var t', c := Migrated(t), t.O[t.eb];
    assert OldOK(t, t.eb);
    forall b: nat | b < |t'.P| ensures NewOK(t', b) {
      MigratedNew(t, b);
    }
    forall b: nat | b < |t'.O| ensures OldOK(t', b) {
      assert OldOK(t, b);
    }
    forall k | k in t'.m ensures KeyOK(t', k) {
      assert KeyOK(t, k);
      MigratedNew(t, Low(t.hash(k), |t.P|));
    }
  }

  lemma MigratedNew(t: Tab, b: nat)
    requires TabOK(t) && t.expanding && b < |t.P| && Shape(Migrated(t))
    ensures NewOK(Migrated(t), b)
    ensures forall it ::
      it in Migrated(t).P[b] <==> it in t.P[b] || (it in t.O[t.eb] && Low(t.hash(it.key), |t.P|) == b)
  {
    var t', c := Migrated(t), t.O[t.eb];
    assert OldOK(t, t.eb) && NewOK(t, b);
    forall i | 0 <= i < |c| ensures c[i] !in t.P[b] {
      assert Fits(t, c[i], t.eb, |t.O|);
    }
    MovedFacts(t.hash, t.P, c, b);
    forall it | it in t'.P[b] ensures Fits(t', it, b, |t'.P|) &&
        (t'.expanding ==> Low(t'.hash(it.key), |t'.O|) < t'.eb) {
      if it in t.P[b] {
        assert Fits(t, it, b, |t.P|);
      } else {
        assert Fits(t, it, t.eb, |t.O|);
      }
    }
  }

  lemma {:induction false} MovedElsewhere(hash: Key -> nat, P: seq<seq<Item>>, c: seq<Item>, b: nat)
    requires b < |P| && forall i :: 0 <= i < |c| ==> Low(hash(c[i].key), |P|) != b
    ensures Moved(hash, P, c)[b] == P[b]
    decreases |c|
  {
    if c != [] {
      var d := Low(hash(c[0].key), |P|);
      MovedElsewhere(hash, P[d := [c[0]] + P[d]], c[1..], b);
    }
  }

  /** A migration changes the place where a hash is looked up exactly if the hash belongs to the migrated bucket;
      for any other hash the chain found there is untouched. */
  lemma Undisturbed(t: Tab, h: nat)
    requires TabOK(t) && t.expanding
    ensures Shape(Migrated(t)) && (PlaceOf(Migrated(t), h) == PlaceOf(t, h) <==> Low(h, |t.O|) != t.eb)
    ensures Low(h, |t.O|) != t.eb ==> ChainOf(Migrated(t), h) == ChainOf(t, h)
  {
    if Low(h, |t.O|) < t.eb {
      var c, b := t.O[t.eb], Low(h, |t.P|);
      assert OldOK(t, t.eb);
      forall i | 0 <= i < |c| ensures Low(t.hash(c[i].key), |t.P|) != b {
        assert Fits(t, c[i], t.eb, |t.O|);
        ModTwice(t.hash(c[i].key), |t.O|, |t.P|, 2);
        ModTwice(h, |t.O|, |t.P|, 2);
      }
      MovedElsewhere(t.hash, t.P, c, b);
    }
  }

  ghost function Rounds(t: Tab, n: nat): (r: Tab)
    requires TabOK(t)
    ensures TabOK(r) && r.m == t.m && r.hash == t.hash
    decreases n
  {
    if n == 0 || !t.expanding then t
    else
      MigratedOK(t);
      Rounds(Migrated(t), n - 1)
  }

  /** An expansion ends after one round per remaining old bucket, not earlier, with the old table empty. */
  lemma {:induction false} ExpansionEnds(t: Tab, n: nat)
    requires TabOK(t) && t.expanding
    ensures Rounds(t, n).expanding <==> n < |t.O| - t.eb
    ensures n >= |t.O| - t.eb ==> Rounds(t, n).O == [] && |Rounds(t, n).P| == |t.P|
    decreases n
  {
    if n > 0 {
      MigratedOK(t);
      if t.eb + 1 < |t.O| { ExpansionEnds(Migrated(t), n - 1); }
    }
  }

  // ---------- the tables in memory ----------

  // Bucket by bucket, the lists that start at heads are the chains c.
  ghost predicate Lists(heads: seq<Item?>, c: seq<seq<Item>>, next: map<Item, Item?>) {
    |heads| == |c| && forall b: nat {:trigger c[b]} :: b < |c| ==> Chained(heads[b], c[b], next)
  }

  lemma ListsFrame(heads: seq<Item?>, c: seq<seq<Item>>, next: map<Item, Item?>, next': map<Item, Item?>)
    requires Lists(heads, c, next)
    requires forall b: nat, x :: b < |c| && x in c[b] ==> x in next' && (x in next ==> next'[x] == next[x])
    ensures Lists(heads, c, next')
  {
    forall b: nat | b < |c| ensures Chained(heads[b], c[b], next') {
      assert Chained(heads[b], c[b], next);
      assert forall i :: 0 <= i < |c[b]| ==> c[b][i] in c[b];
    }
  }

  lemma PushLists(heads: seq<Item?>, c: seq<seq<Item>>, next: map<Item, Item?>, b: nat, it: Item)
    requires Lists(heads, c, next) && b < |c| && forall d: nat :: d < |c| ==> it !in c[d]
    ensures Lists(heads[b := it], c[b := [it] + c[b]], next[it := heads[b]])
  {
    var next' := next[it := heads[b]];
    ListsFrame(heads, c, next, next');
    assert Chained(heads[b], c[b], next');
  }

  // The links after item i is taken out of the list l, and what then stands at its head
  ghost function UnlinkNext(next: map<Item, Item?>, l: seq<Item>, i: nat): map<Item, Item?>
    requires i < |l| && l[i] in next
  {
    (if i == 0 then next else next[l[i - 1] := next[l[i]]]) - {l[i]}
  }

  ghost function UnlinkHead(head: Item?, next: map<Item, Item?>, l: seq<Item>, i: nat): Item?
    requires i < |l| && l[i] in next
  {
    if i == 0 then next[l[0]] else head
  }

  lemma UnlinkChain(head: Item?, l: seq<Item>, next: map<Item, Item?>, i: nat)
    requires Chained(head, l, next) && NoDup(l) && i < |l|
    ensures Chained(UnlinkHead(head, next, l, i), RemoveAt(l, i), UnlinkNext(next, l, i))
  {
    var l' := RemoveAt(l, i);
    assert forall k :: 0 <= k < |l'| ==> l'[k] == l[if k < i then k else k + 1];
  }

  lemma UnlinkOther(head: Item?, c: seq<Item>, next: map<Item, Item?>, l: seq<Item>, i: nat)
    requires Chained(head, c, next) && i < |l| && l[i] in next && forall x :: x in c ==> x !in l
    ensures Chained(head, c, UnlinkNext(next, l, i))
  {
    assert forall k :: 0 <= k < |c| ==> c[k] in c;
  }

  lemma UnlinkLists(heads: seq<Item?>, c: seq<seq<Item>>, next: map<Item, Item?>, b: nat, i: nat)
    requires Lists(heads, c, next) && b < |c| && NoDup(c[b]) && i < |c[b]| && c[b][i] in next
    requires forall d: nat, x :: d < |c| && d != b && x in c[d] ==> x !in c[b]
    ensures Lists(heads[b := UnlinkHead(heads[b], next, c[b], i)], c[b := RemoveAt(c[b], i)], UnlinkNext(next, c[b], i))
  {
    UnlinkChain(heads[b], c[b], next, i);
    forall d: nat | d < |c| && d != b ensures Chained(heads[d], c[d], UnlinkNext(next, c[b], i)) {
      UnlinkOther(heads[d], c[d], next, c[b], i);
    }
  }

  lemma UnlinkOthers(heads: seq<Item?>, c: seq<seq<Item>>, next: map<Item, Item?>, l: seq<Item>, i: nat)
    requires Lists(heads, c, next) && i < |l| && l[i] in next
    requires forall d: nat, x :: d < |c| && x in c[d] ==> x !in l
    ensures Lists(heads, c, UnlinkNext(next, l, i))
  {
    forall d: nat | d < |c| ensures Chained(heads[d], c[d], UnlinkNext(next, l, i)) {
      UnlinkOther(heads[d], c[d], next, l, i);
    }
  }

  // No item is in two chains.
  lemma Apart(t: Tab)
    requires TabOK(t)
    ensures forall b: nat, d: nat, it :: b < |t.P| && d < |t.P| && b != d && it in t.P[b] ==> it !in t.P[d]
    ensures forall b: nat, d: nat, it :: b < |t.O| && d < |t.O| && b != d && it in t.O[b] ==> it !in t.O[d]
    ensures forall b: nat, d: nat, it :: b < |t.P| && d < |t.O| && it in t.P[b] ==> it !in t.O[d]
  {
    forall b: nat, d: nat, it | b < |t.P| && d < |t.P| && b != d && it in t.P[b] ensures it !in t.P[d] {
      assert NewOK(t, b) && NewOK(t, d);
    }
    forall b: nat, d: nat, it | b < |t.O| && d < |t.O| && b != d && it in t.O[b] ensures it !in t.O[d] {
      assert OldOK(t, b) && OldOK(t, d);
    }
    forall b: nat, d: nat, it | b < |t.P| && d < |t.O| && it in t.P[b] ensures it !in t.O[d] {
      assert NewOK(t, b) && OldOK(t, d);
    }
  }

  lemma NotStored(t: Tab, it: Item)
    requires TabOK(t) && it.key !in t.m
    ensures forall b: nat :: b < |t.P| ==> it !in t.P[b]
    ensures forall b: nat :: b < |t.O| ==> it !in t.O[b]
  {
    forall b: nat | b < |t.P| ensures it !in t.P[b] {
      assert NewOK(t, b);
    }
    forall b: nat | b < |t.O| ensures it !in t.O[b] {
      assert OldOK(t, b);
    }
  }

  // The lists of both tables
  ghost predicate Stored(t: Tab, primary: seq<Item?>, former: seq<Item?>, next: map<Item, Item?>) {
    Lists(primary, t.P, next) && Lists(former, t.O, next)
  }

  lemma StoredInsert(t: Tab, primary: seq<Item?>, former: seq<Item?>, next: map<Item, Item?>, it: Item)
    requires TabOK(t) && it.key !in t.m && Stored(t, primary, former, next)
    ensures var h := t.hash(it.key);
      if t.expanding && Low(h, |t.O|) >= t.eb
      then Stored(Inserted(t, it), primary, former[Low(h, |t.O|) := it], next[it := former[Low(h, |t.O|)]])
      else Stored(Inserted(t, it), primary[Low(h, |t.P|) := it], former, next[it := primary[Low(h, |t.P|)]])
  {
    var h := t.hash(it.key);
    NotStored(t, it);
    if t.expanding && Low(h, |t.O|) >= t.eb {
      PushLists(former, t.O, next, Low(h, |t.O|), it);
      StoredFrame(primary, t.P, next, it, former[Low(h, |t.O|)]);
    } else {
      PushLists(primary, t.P, next, Low(h, |t.P|), it);
      StoredFrame(former, t.O, next, it, primary[Low(h, |t.P|)]);
    }
  }

  lemma StoredFrame(heads: seq<Item?>, c: seq<seq<Item>>, next: map<Item, Item?>, it: Item, to: Item?)
    requires Lists(heads, c, next) && forall b: nat :: b < |c| ==> it !in c[b]
    ensures Lists(heads, c, next[it := to])
  {
    forall b: nat | b < |c| ensures Chained(heads[b], c[b], next[it := to]) {
      assert Chained(heads[b], c[b], next);
      assert forall i :: 0 <= i < |c[b]| ==> c[b][i] in c[b];
    }
  }

  lemma StoredDelete(t: Tab, primary: seq<Item?>, former: seq<Item?>, next: map<Item, Item?>, key: Key, i: nat)
    requires TabOK(t) && Stored(t, primary, former, next)
    requires i < |ChainOf(t, t.hash(key))| && ChainOf(t, t.hash(key))[i] in next
    ensures var h, c := t.hash(key), ChainOf(t, t.hash(key));
      if t.expanding && Low(h, |t.O|) >= t.eb
      then Stored(Deleted(t, key, i), primary, former[Low(h, |t.O|) := UnlinkHead(former[Low(h, |t.O|)], next, c, i)],
          UnlinkNext(next, c, i))
      else Stored(Deleted(t, key, i), primary[Low(h, |t.P|) := UnlinkHead(primary[Low(h, |t.P|)], next, c, i)], former,
          UnlinkNext(next, c, i))
  {
    var h, c := t.hash(key), ChainOf(t, t.hash(key));
    ChainFacts(t, h);
    Apart(t);
    if t.expanding && Low(h, |t.O|) >= t.eb {
      UnlinkLists(former, t.O, next, Low(h, |t.O|), i);
      UnlinkOthers(primary, t.P, next, c, i);
    } else {
      UnlinkLists(primary, t.P, next, Low(h, |t.P|), i);
      UnlinkOthers(former, t.O, next, c, i);
    }
  }

  // The state while bucket t.eb is being migrated: the items in rest are still to be moved, the others of
  // its chain are in the new chains Q.
  ghost predicate Migrating(t: Tab, primary: seq<Item?>, former: seq<Item?>, next: map<Item, Item?>, Q: seq<seq<Item>>,
      rest: seq<Item>)
    requires Shape(t) && t.expanding
  {
    && |Q| == |t.P| && |former| == |t.O| && NoDup(rest)
    && Moved(t.hash, Q, rest) == Moved(t.hash, t.P, t.O[t.eb])
    && Lists(primary, Q, next) && Chained(At(rest, 0), rest, next)
    && (forall x :: x in rest ==> x in t.O[t.eb])
    && (forall b: nat, x :: b < |Q| && x in Q[b] ==> x !in rest)
    && (forall b: nat {:trigger t.O[b]} :: b < |t.O| && b != t.eb ==> Chained(former[b], t.O[b], next))
  }

  lemma MigratingStart(t: Tab, primary: seq<Item?>, former: seq<Item?>, next: map<Item, Item?>)
    requires TabOK(t) && t.expanding && Stored(t, primary, former, next)
    ensures Migrating(t, primary, former, next, t.P, t.O[t.eb])
  {
    assert OldOK(t, t.eb);
    assert Chained(former[t.eb], t.O[t.eb], next);
    Apart(t);
  }

  lemma MigratingStep(t: Tab, primary: seq<Item?>, former: seq<Item?>, next: map<Item, Item?>, Q: seq<seq<Item>>,
      rest: seq<Item>, b: nat)
    requires TabOK(t) && t.expanding && Migrating(t, primary, former, next, Q, rest) && rest != []
    requires b == Low(t.hash(rest[0].key), |Q|)
    ensures Migrating(t, primary[b := rest[0]], former, next[rest[0] := primary[b]], Q[b := [rest[0]] + Q[b]],
        rest[1..])
    ensures rest[0] in next && next[rest[0]] == At(rest[1..], 0)
  {
    var it, r := rest[0], rest[1..];
    var next', Q' := next[it := primary[b]], Q[b := [it] + Q[b]];
    SuffixFacts(rest);
    PushLists(primary, Q, next, b, it);
    assert Chained(At(r, 0), r, next');
    forall d: nat, x | d < |Q'| && x in Q'[d] ensures x !in r {
      if x != it { assert x in Q[d]; }
    }
    Apart(t);
    forall d: nat | d < |t.O| && d != t.eb ensures Chained(former[d], t.O[d], next') {
      assert Chained(former[d], t.O[d], next);
      assert forall i :: 0 <= i < |t.O[d]| ==> t.O[d][i] in t.O[d];
    }
  }

  lemma SuffixFacts(c: seq<Item>)
    requires c != [] && NoDup(c)
    ensures NoDup(c[1..]) && c[0] in c && c[0] !in c[1..] && forall x :: x in c[1..] ==> x in c
  {
    assert c == [c[0]] + c[1..];
  }

  lemma MigratingDone(t: Tab, primary: seq<Item?>, former: seq<Item?>, next: map<Item, Item?>, Q: seq<seq<Item>>)
    requires Shape(t) && t.expanding && Migrating(t, primary, former, next, Q, [])
    ensures Stored(Migrated(t), primary, if t.eb + 1 == |t.O| then [] else former[t.eb := null], next)
  {
    assert Q == Moved(t.hash, t.P, t.O[t.eb]);
  }

  class Table {
    const hash: Key -> nat
    var power: nat
    var primary: array<Item?>
    var former: array<Item?>
    var expanding: bool
    var expandBucket: nat
    ghost var t: Tab
    ghost var next: map<Item, Item?>

    ghost predicate Valid()
      reads this, primary, former, next.Keys
    {
      && primary != former && primary.Length == Pow2(power)
      && t.hash == hash && t.expanding == expanding && t.eb == expandBucket
      && TabOK(t) && Stored(t, primary[..], former[..], next)
      && (forall x :: x in next ==> x.hnext == next[x])
    }

    /** assoc_init */
    constructor (hash: Key -> nat, power: nat)
      ensures Valid() && t.m == map[] && !expanding && this.hash == hash && next == map[]
      ensures fresh(primary) && fresh(former)
    {
      this.hash, this.power, expanding, expandBucket := hash, power, false, 0;
      primary := new Item?[Pow2(power)](_ => null);
      former := new Item?[0](_ => null);
      t, next := Tab(hash, seq(Pow2(power), _ => []), [], false, 0, map[]), map[];
      new;
      forall b: nat | b < |t.P| ensures NewOK(t, b) {
      }
    }

    /** assoc_find */
    method Find(key: Key) returns (ret: Item?)
      requires Valid()
      ensures ret == if key in t.m then t.m[key] else null
    {
      var h := hash(key);
      ghost var c := ChainOf(t, h);
      ChainFacts(t, h);
      if key in t.m { assert KeyOK(t, key); }
      var it: Item?;
      if expanding && h % former.Length >= expandBucket {
        it := former[h % former.Length];
      } else {
        it := primary[h % primary.Length];
      }
      assert Chained(it, c, next);
      ghost var i := 0;
      while it != null
        invariant 0 <= i <= |c| && it == At(c, i)
        invariant forall k :: 0 <= k < i ==> c[k].key != key
        decreases |c| - i
      {
        if it.key == key {
          return it;
        }
        it := it.hnext;
        i := i + 1;
      }
      return null;
    }

    /** assoc_insert: the key must not exist yet. */
    method Insert(it: Item)
      requires Valid() && it.key !in t.m
      modifies this, primary, former, it
      ensures Valid() && t == Inserted(old(t), it) && next.Keys == old(next.Keys) + {it}
      ensures primary == old(primary) && former == old(former)
    {
      ghost var s := t;
      StoredInsert(s, primary[..], former[..], next, it);
      var h := hash(it.key);
      if expanding && h % former.Length >= expandBucket {
        it.hnext := former[h % former.Length];
        former[h % former.Length] := it;
      } else {
        it.hnext := primary[h % primary.Length];
        primary[h % primary.Length] := it;
      }
      t, next := Inserted(s, it), next[it := it.hnext];
      InsertedOK(s, it);
    }

    // _hashitem_before: the item that precedes the key's item in its list, null at the head
    method Before(head: Item?, key: Key, ghost c: seq<Item>) returns (before: Item?, it: Item?, ghost i: nat)
      requires Chained(head, c, next) && (forall x :: x in next ==> x.hnext == next[x])
      ensures i <= |c| && it == At(c, i) && before == (if i == 0 then null else c[i - 1])
      ensures forall k :: 0 <= k < i ==> c[k].key != key
      ensures i < |c| ==> c[i].key == key
    {
      before, it, i := null, head, 0;
      while it != null && it.key != key
        invariant 0 <= i <= |c| && it == At(c, i) && before == (if i == 0 then null else c[i - 1])
        invariant forall k :: 0 <= k < i ==> c[k].key != key
        decreases |c| - i
      {
        before := it;
        it := it.hnext;
        i := i + 1;
      }
    }

    /** assoc_delete: the key must exist. */
    method Delete(key: Key) returns (ghost i: nat)
      requires Valid() && key in t.m
      modifies this, primary, former, next.Keys
      ensures i < |ChainOf(old(t), hash(key))| && t == Deleted(old(t), key, i) && t.m == old(t.m) - {key}
      ensures Valid() == true && next.Keys == old(next.Keys) - {old(t.m[key])}
      ensures primary == old(primary) && former == old(former)
    {
      var h := hash(key);
      ghost var c := ChainOf(t, h);
      var inOld := expanding && h % former.Length >= expandBucket;
      var before, it;
      before, it, i := Locate(key, inOld);
      DeletedOK(t, key, i);
      StoredDelete(t, primary[..], former[..], next, key, i);
      if inOld {
        Remove(former, h % former.Length, key, before, it, c, i);
      } else {
        Remove(primary, h % primary.Length, key, before, it, c, i);
      }
    }

    // The item is taken out of its chain in one of the tables.
    method Remove(heads: array<Item?>, b: nat, key: Key, before: Item?, it: Item, ghost c: seq<Item>, ghost i: nat)
      requires Valid() && (heads == primary || heads == former) && b < heads.Length
      requires c == ChainOf(t, hash(key)) && i < |c| && it == c[i] && before == (if i == 0 then null else c[i - 1])
      requires NoDup(c) && Chained(heads[b], c, next) && it in next
      requires TabOK(Deleted(t, key, i))
      requires var hs := heads[..][b := UnlinkHead(heads[b], next, c, i)];
        Stored(Deleted(t, key, i), if heads == primary then hs else primary[..],
               if heads == former then hs else former[..], UnlinkNext(next, c, i))
      modifies this`t, this`next, heads, next.Keys
      ensures Valid() == true && t == Deleted(old(t), key, i) && next == UnlinkNext(old(next), c, i)
    {
      ghost var s, n := t, next;
      Splice(heads, b, before, it, c, i);
      t, next := Deleted(s, key, i), UnlinkNext(n, c, i);
    }

    method Locate(key: Key, inOld: bool) returns (before: Item?, it: Item, ghost i: nat)
      requires Valid() && key in t.m && inOld == (expanding && Low(hash(key), |t.O|) >= expandBucket)
      ensures var c := ChainOf(t, hash(key));
        && i < |c| && c[i] == it == t.m[key] && it.key == key && it in next && NoDup(c)
        && before == (if i == 0 then null else c[i - 1])
      ensures var h := hash(key);
        && (inOld ==> Low(h, |t.O|) < former.Length && Chained(former[Low(h, |t.O|)], ChainOf(t, h), next))
        && (!inOld ==> Low(h, |t.P|) < primary.Length && Chained(primary[Low(h, |t.P|)], ChainOf(t, h), next))
    {
      var h := hash(key);
      ghost var c := ChainOf(t, h);
      assert KeyOK(t, key);
      ChainFacts(t, h);
      var head := if inOld then former[h % former.Length] else primary[h % primary.Length];
      assert Chained(head, c, next);
      var x;
      before, x, i := Before(head, key, c);
      assert i < |c| by {
        var k :| 0 <= k < |c| && c[k] == t.m[key];
      }
      it := x;
    }

    // The item after `it` takes its place.
    method Splice(heads: array<Item?>, b: nat, before: Item?, it: Item, ghost c: seq<Item>, ghost i: nat)
      requires b < heads.Length && i < |c| && it == c[i] && before == (if i == 0 then null else c[i - 1]) && NoDup(c)
      requires Chained(heads[b], c, next) && (forall x :: x in next ==> x.hnext == next[x])
      modifies heads, next.Keys
      ensures heads[..] == old(heads[..])[b := UnlinkHead(old(heads[b]), next, c, i)]
      ensures forall x :: x in UnlinkNext(next, c, i) ==> x.hnext == UnlinkNext(next, c, i)[x]
    {
      var after := it.hnext;
      it.hnext := null;
      if before != null {
        before.hnext := after;
      } else {
        heads[b] := after;
      }
    }

    /** assoc_expand, where `ok` says whether the larger table could be allocated */
    method Expand(ok: bool)
      requires Valid() && !expanding
      modifies this
      ensures Valid() && t == if ok then Expanded(old(t)) else old(t)
      ensures if ok then expanding && expandBucket == 0 && primary.Length == 2 * old(primary.Length)
              else !expanding && primary == old(primary)
      ensures next == old(next) && t.m == old(t.m)
      ensures (primary == old(primary) || fresh(primary)) && (former == old(former) || former == old(primary))
    {
      if ok {
        ghost var s := t;
        former := primary;
        primary := new Item?[Pow2(power + 1)](_ => null);
        power := power + 1;
        expanding, expandBucket := true, 0;
        t := Expanded(s);
        ExpandedOK(s);
      }
    }

    /** One round of the maintenance thread, where `locked` says whether it got the item lock: the next old
        bucket is migrated, and after the last one the old table is given up. */
    method Migrate(locked: bool)
      requires Valid() && expanding
      modifies this, primary, former, next.Keys
      ensures Valid() && t == if locked then Migrated(old(t)) else old(t)
      ensures expandBucket == old(expandBucket) + (if locked then 1 else 0)
      ensures expanding <==> !locked || expandBucket < old(former.Length)
      ensures t.m == old(t.m) && next.Keys == old(next.Keys)
      ensures primary == old(primary) && (former == old(former) || fresh(former))
    {
      if !locked { return; }
      ghost var s := t;
      MigratingStart(s, primary[..], former[..], next);
      var it := former[expandBucket];
      MoveChain(it);
      MigratedOK(s);
      if expandBucket + 1 == former.Length {
        former := new Item?[0](_ => null);
        expanding := false;
      } else {
        former[expandBucket] := null;
      }
      expandBucket := expandBucket + 1;
      t := Migrated(s);
    }

    // The loop over the items of the bucket
    method MoveChain(head: Item?)
      requires primary != former && TabOK(t) && t.expanding && t.hash == hash && t.eb == expandBucket
      requires Migrating(t, primary[..], former[..], next, t.P, t.O[t.eb]) && head == At(t.O[t.eb], 0)
      requires forall x :: x in next ==> x.hnext == next[x]
      modifies this`next, primary, next.Keys
      ensures Stored(Migrated(t), primary[..], if t.eb + 1 == |t.O| then [] else former[..][t.eb := null], next)
      ensures next.Keys == old(next.Keys) && forall x :: x in next ==> x.hnext == next[x]
    {
      ghost var Q, rest, s, f, heads := t.P, t.O[t.eb], t, former[..], primary[..];
      var it := head;
      while it != null
        invariant it == At(rest, 0) && t == s && former[..] == f && primary[..] == heads
        invariant Migrating(s, heads, f, next, Q, rest)
        invariant next.Keys == old(next.Keys) && forall x :: x in next ==> x.hnext == next[x]
        decreases |rest|
      {
        ghost var n := next;
        var b := hash(it.key) % primary.Length;
        MigratingStep(s, heads, f, n, Q, rest, b);
        var after := it.hnext;
        it.hnext := primary[b];
        primary[b] := it;
        next, Q, heads, rest := n[it := heads[b]], Q[b := [rest[0]] + Q[b]], heads[b := it], rest[1..];
        it := after;
      }
      MigratingDone(s, heads, f, next, Q);
    }
  }

  // ---------- iteration ----------

  // The state of an iterator: its bucket, the item it will return next, and whether the bucket is locked
  datatype Cursor = Cursor(bucket: nat, next: Item?, locked: bool)

  // The iterator has returned the first k items of the bucket it has locked.
  ghost predicate CursorOK(t: Tab, c: Cursor, k: nat) {
    && |t.P| > 0 && !t.expanding && c.bucket <= |t.P|
    && (c.locked ==> c.bucket < |t.P| && k <= |t.P[c.bucket]| && c.next == At(t.P[c.bucket], k))
  }

  /** assoc_iterate: the next item, or none when it only moves on to another bucket; false at the end. An
      iterator is granted only while no expansion is under way, and blocks the next one. */
  method Iterate(tab: Table, c: Cursor, ghost k: nat) returns (more: bool, item: Item?, c': Cursor, ghost k': nat)
    requires tab.Valid() && CursorOK(tab.t, c, k)
    ensures CursorOK(tab.t, c', k') && c'.bucket >= c.bucket
    ensures more <==> c.locked || c.bucket < |tab.t.P|
    ensures !more ==> c' == c && item == null
    ensures more && item == null ==> c' == Cursor(c.bucket + 1, null, false)
    ensures more && item == null ==> if c.locked then k == |tab.t.P[c.bucket]| else tab.t.P[c.bucket] == []
    ensures item != null ==> c.bucket < |tab.t.P| && c'.bucket == c.bucket && c'.locked
    ensures item != null ==> var i := if c.locked then k else 0;
      i < |tab.t.P[c.bucket]| && item == tab.t.P[c.bucket][i] && k' == i + 1
  {
    k' := 0;
    if c.locked {
      more := true;
      ghost var chain := tab.t.P[c.bucket];
      assert Chained(tab.primary[..][c.bucket], chain, tab.next);
      if c.next != null {
        item, c', k' := c.next, c.(next := c.next.hnext), k + 1;
      } else {
        item, c' := null, Cursor(c.bucket + 1, null, false);
      }
    } else if c.bucket != tab.primary.Length {
      more := true;
      ghost var chain := tab.t.P[c.bucket];
      item := tab.primary[c.bucket];
      assert Chained(item, chain, tab.next);
      if item != null {
        c', k' := Cursor(c.bucket, item.hnext, true), 1;
      } else {
        c' := Cursor(c.bucket + 1, null, false);
      }
    } else {
      more, item, c' := false, null, c;
    }
  }

  function BucketOf(t: Tab, x: Item): nat
    requires |t.P| > 0
  {
    Low(t.hash(x.key), |t.P|)
  }

  // The place of x lies behind the cursor.
  ghost predicate Passed(t: Tab, c: Cursor, k: nat, x: Item)
    requires CursorOK(t, c, k)
  {
    BucketOf(t, x) < c.bucket || (c.locked && BucketOf(t, x) == c.bucket && x in t.P[c.bucket][..k])
  }

  // The item that was stored under q at the start is still there, and was returned if the cursor has passed it.
  ghost predicate Kept(t: Tab, m: map<Key, Item>, items: seq<Item>, c: Cursor, k: nat, q: Key)
    requires CursorOK(t, c, k) && q in m
  {
    q in t.m && t.m[q] == m[q] && (Passed(t, c, k, m[q]) ==> m[q] in items)
  }

  // What an iteration has returned: no item twice, and of the items of m that were not deleted all those passed
  ghost predicate Walked(t: Tab, m: map<Key, Item>, gone: set<Key>, items: seq<Item>, c: Cursor, k: nat) {
    && CursorOK(t, c, k) && NoDup(items)
    && (forall x {:trigger Passed(t, c, k, x)} :: x in items ==> Passed(t, c, k, x))
    && (forall q {:trigger Kept(t, m, items, c, k, q)} :: q in m && q !in gone ==> Kept(t, m, items, c, k, q))
  }

  lemma WalkedStart(t: Tab)
    requires TabOK(t) && !t.expanding
    ensures Walked(t, t.m, {}, [], Cursor(0, null, false), 0)
  {
  }

  lemma OneMore(items: seq<Item>, x: Item)
    requires NoDup(items) && x !in items
    ensures NoDup(items + [x])
  {
  }

  // An item is returned.
  lemma WalkedItem(t: Tab, m: map<Key, Item>, gone: set<Key>, items: seq<Item>, c: Cursor, k: nat, c': Cursor)
    requires TabOK(t) && Walked(t, m, gone, items, c, k) && c.bucket < |t.P|
    requires var i := if c.locked then k else 0; i < |t.P[c.bucket]| && CursorOK(t, c', i + 1)
    requires c'.bucket == c.bucket && c'.locked
    ensures var i := if c.locked then k else 0; Walked(t, m, gone, items + [t.P[c.bucket][i]], c', i + 1)
  {
    var i, chain := if c.locked then k else 0, t.P[c.bucket];
    var x := chain[i];
    assert NewOK(t, c.bucket) && Fits(t, x, c.bucket, |t.P|);
    assert chain[..i + 1] == chain[..i] + [x];
    forall y | y in items ensures y != x && Passed(t, c', i + 1, y) {
      assert Passed(t, c, k, y);
    }
    OneMore(items, x);
    forall q | q in m && q !in gone ensures Kept(t, m, items + [x], c', i + 1, q) {
      assert Kept(t, m, items, c, k, q);
    }
  }

  // The cursor moves on from a bucket it has finished.
  lemma WalkedBucket(t: Tab, m: map<Key, Item>, gone: set<Key>, items: seq<Item>, c: Cursor, k: nat)
    requires TabOK(t) && Walked(t, m, gone, items, c, k) && c.bucket < |t.P|
    requires if c.locked then k == |t.P[c.bucket]| else t.P[c.bucket] == []
    ensures Walked(t, m, gone, items, Cursor(c.bucket + 1, null, false), 0)
  {
    var c' := Cursor(c.bucket + 1, null, false);
    forall y | y in items ensures Passed(t, c', 0, y) {
      assert Passed(t, c, k, y);
    }
    forall q | q in m && q !in gone ensures Kept(t, m, items, c', 0, q) {
      assert Kept(t, m, items, c, k, q) && KeyOK(t, q);
      assert c.locked ==> t.P[c.bucket][..k] == t.P[c.bucket];
    }
  }

  // Another thread changes a bucket that is not locked, and only items under `less` may go.
  lemma WalkedOther(t: Tab, t': Tab, m: map<Key, Item>, gone: set<Key>, items: seq<Item>, c: Cursor, k: nat,
                    less: set<Key>)
    requires Walked(t, m, gone, items, c, k) && t'.hash == t.hash && |t'.P| == |t.P| && !t'.expanding
    requires c.locked ==> t'.P[c.bucket] == t.P[c.bucket]
    requires forall p :: p in t.m && p in m && p !in less ==> p in t'.m && t'.m[p] == t.m[p]
    ensures Walked(t', m, gone + less, items, c, k)
  {
    forall y | y in items ensures Passed(t', c, k, y) {
      assert Passed(t, c, k, y);
    }
    forall p | p in m && p !in gone + less ensures Kept(t', m, items, c, k, p) {
      assert Kept(t, m, items, c, k, p);
    }
  }

  lemma WalkedEnd(t: Tab, m: map<Key, Item>, gone: set<Key>, items: seq<Item>, c: Cursor, k: nat)
    requires Walked(t, m, gone, items, c, k) && c.bucket == |t.P|
    ensures NoDup(items) && forall q :: q in m && q !in gone ==> m[q] in items
  {
    forall q | q in m && q !in gone ensures m[q] in items {
      assert Kept(t, m, items, c, k, q) && Passed(t, c, k, m[q]);
    }
  }

  // One call of assoc_iterate within an iteration
  method Advance(tab: Table, c: Cursor, items: seq<Item>, ghost k: nat, ghost m: map<Key, Item>, ghost gone: set<Key>)
    returns (more: bool, items': seq<Item>, c': Cursor, ghost k': nat)
    requires tab.Valid() && Walked(tab.t, m, gone, items, c, k)
    ensures Walked(tab.t, m, gone, items', c', k') && (!more ==> c'.bucket == |tab.t.P|)
    ensures items <= items' && forall x :: x in items' ==> x in items || (x.key in tab.t.m && tab.t.m[x.key] == x)
    ensures more && c'.bucket <= c.bucket ==>
      && c'.bucket == c.bucket < |tab.t.P| && k' <= |tab.t.P[c.bucket]| && c'.locked && (c.locked ==> k' > k)
  {
    var item;
    more, item, c', k' := Iterate(tab, c, k);
    items' := items;
    if item != null {
      WalkedItem(tab.t, m, gone, items, c, k, c');
      assert NewOK(tab.t, c.bucket) && Fits(tab.t, item, c.bucket, |tab.t.P|);
      items' := items + [item];
    } else if more {
      WalkedBucket(tab.t, m, gone, items, c, k);
      k' := 0;
    } else {
      k' := k;
    }
  }

  /** A whole iteration of a table that nobody changes yields every item of the map exactly once. */
  method IterateAll(tab: Table) returns (items: seq<Item>)
    requires tab.Valid() && !tab.expanding
    ensures NoDup(items) && forall x :: x in items <==> x.key in tab.t.m && tab.t.m[x.key] == x
  {
    var c, more := Cursor(0, null, false), true;
    ghost var k := 0;
    items := [];
    WalkedStart(tab.t);
    while more
      invariant Walked(tab.t, tab.t.m, {}, items, c, k) && (!more ==> c.bucket == |tab.t.P|)
      invariant forall x :: x in items ==> x.key in tab.t.m && tab.t.m[x.key] == x
      decreases more, |tab.t.P| - c.bucket, !c.locked, if c.locked then |tab.t.P[c.bucket]| - k else 0
    {
      more, items, c, k := Advance(tab, c, items, k, tab.t.m, {});
    }
    WalkedEnd(tab.t, tab.t.m, {}, items, c, k);
  }

  // What happens while an iterator is open: it is advanced, or another thread inserts an item or deletes a
  // key. An item may be inserted again after its key was deleted.
  datatype Act = Next | Ins(item: Item) | Del(key: Key)

  ghost function InsertedBy(acts: seq<Act>): set<Item> {
    set a | a in acts && a.Ins? :: a.item
  }

  // The key belongs to the bucket the iterator has locked, so that its item lock cannot be had.
  predicate Waits(hash: Key -> nat, size: nat, c: Cursor, key: Key)
    requires size > 0
  {
    c.locked && Low(hash(key), size) == c.bucket
  }

  method InsertItem(tab: Table, item: Item, c: Cursor, items: seq<Item>, ghost k: nat, ghost m: map<Key, Item>,
                    ghost gone: set<Key>)
    requires tab.Valid() && Walked(tab.t, m, gone, items, c, k) && item.key !in tab.t.m
    requires !Waits(tab.hash, |tab.t.P|, c, item.key)
    modifies tab, tab.primary, tab.former, item
    ensures tab.Valid() == true && Walked(tab.t, m, gone, items, c, k)
    ensures tab.primary == old(tab.primary) && tab.former == old(tab.former)
    ensures tab.next.Keys == old(tab.next.Keys) + {item} && !tab.expanding
    ensures tab.t.m == old(tab.t.m)[item.key := item]
  {
    ghost var s := tab.t;
    tab.Insert(item);
    WalkedOther(s, tab.t, m, gone, items, c, k, {});
  }

  method DeleteKey(tab: Table, key: Key, c: Cursor, items: seq<Item>, ghost k: nat, ghost m: map<Key, Item>,
                   ghost gone: set<Key>)
    requires tab.Valid() && Walked(tab.t, m, gone, items, c, k) && key in tab.t.m
    requires !Waits(tab.hash, |tab.t.P|, c, key)
    modifies tab, tab.primary, tab.former, tab.next.Keys
    ensures tab.Valid() == true && Walked(tab.t, m, gone + {key}, items, c, k)
    ensures tab.primary == old(tab.primary) && tab.former == old(tab.former)
    ensures tab.next.Keys <= old(tab.next.Keys) && !tab.expanding && tab.t.m == old(tab.t.m) - {key}
  {
    ghost var s := tab.t;
    ghost var i := tab.Delete(key);
    WalkedOther(s, tab.t, m, gone, items, c, k, {key});
  }

  // An item that was in the table at the start or is inserted by one of the acts
  ghost predicate Known(m: map<Key, Item>, acts: seq<Act>, x: Item) {
    Ins(x) in acts || (x.key in m && m[x.key] == x)
  }

  ghost predicate Accounted(t: Tab, m: map<Key, Item>, gone: set<Key>, items: seq<Item>, acts: seq<Act>) {
    && (forall q :: q in gone ==> Del(q) in acts)
    && (forall q :: q in t.m ==> Known(m, acts, t.m[q]))
    && (forall x :: x in items ==> Known(m, acts, x))
  }

  method Turn(tab: Table, a: Act, ghost acts: seq<Act>, c: Cursor, items: seq<Item>, ghost k: nat,
              ghost m: map<Key, Item>, ghost gone: set<Key>)
    returns (more: bool, items': seq<Item>, c': Cursor, ghost k': nat, ghost gone': set<Key>)
    requires tab.Valid() && Walked(tab.t, m, gone, items, c, k)
    requires a in acts && Accounted(tab.t, m, gone, items, acts)
    modifies tab, tab.primary, tab.former, tab.next.Keys, if a.Ins? then {a.item} else {}
    ensures tab.Valid() == true && Walked(tab.t, m, gone', items', c', k') == true && !tab.expanding
    ensures Accounted(tab.t, m, gone', items', acts) == true
    ensures tab.primary == old(tab.primary) && tab.former == old(tab.former)
    ensures tab.next.Keys <= old(tab.next.Keys) + if a.Ins? then {a.item} else {}
    ensures c.bucket <= c'.bucket && (!more ==> c'.bucket == tab.primary.Length)
  {
    more, items', c', k', gone' := true, items, c, k, gone;
    match a
    case Next =>
      more, items', c', k' := Advance(tab, c, items, k, m, gone);
    case Ins(item) =>
      var it := tab.Find(item.key);
      if it == null && !(c.locked && tab.hash(item.key) % tab.primary.Length == c.bucket) {
        InsertItem(tab, item, c, items, k, m, gone);
      }
    case Del(key) =>
      var it := tab.Find(key);
      if it != null && !(c.locked && tab.hash(key) % tab.primary.Length == c.bucket) {
        DeleteKey(tab, key, c, items, k, m, gone);
        gone' := gone + {key};
      }
  }

  /** An iteration while other threads insert and delete, each waiting while its bucket is locked: no item is yielded
      twice, not even one that is deleted and inserted again, only items that are or were in the table are, and once
      the iterator is through, every item was yielded that was there at the start and has not been deleted. */
  method IterateRun(tab: Table, acts: seq<Act>) returns (items: seq<Item>, done: bool)
    requires tab.Valid() && !tab.expanding
    modifies tab, tab.primary, tab.former, tab.next.Keys, InsertedBy(acts)
    ensures tab.Valid() && NoDup(items)
    ensures forall x :: x in items ==> Ins(x) in acts || (x.key in old(tab.t.m) && old(tab.t.m)[x.key] == x)
    ensures done ==> forall q :: q in old(tab.t.m) && Del(q) !in acts ==> old(tab.t.m)[q] in items
  {
    ghost var m, gone := tab.t.m, {};
    ghost var k: nat := 0;
    var c := Cursor(0, null, false);
    items, done := [], false;
    WalkedStart(tab.t);
    assert Accounted(tab.t, m, gone, items, acts) by {
      forall q | q in m ensures Known(m, acts, m[q]) { assert KeyOK(tab.t, q); }
    }
    for n := 0 to |acts|
      invariant tab.Valid() == true && !tab.expanding && Walked(tab.t, m, gone, items, c, k) == true
      invariant Accounted(tab.t, m, gone, items, acts) == true
      invariant tab.primary == old(tab.primary) && tab.former == old(tab.former)
      invariant tab.next.Keys <= old(tab.next.Keys) + InsertedBy(acts)
      invariant done ==> c.bucket >= tab.primary.Length
    {
      var more;
      assert acts[n] in acts;
      more, items, c, k, gone := Turn(tab, acts[n], acts, c, items, k, m, gone);
      done := done || !more;
    }
    if done { WalkedEnd(tab.t, m, gone, items, c, k); }
  }

  // ---------- runs ----------

  datatype Op =
    | FindOp(key: Key)
    | InsertOp(key: Key)
    | DeleteOp(key: Key)
    | ExpandOp(enough: bool)
    | MigrateOp(locked: bool)

  // What each operation does to the set of stored keys, and whether it finds its key
  function After(keys: set<Key>, op: Op): set<Key> {
    match op
    case InsertOp(k) => keys + {k}
    case DeleteOp(k) => keys - {k}
    case _ => keys
  }

  function Answer(keys: set<Key>, op: Op): bool {
    match op
    case FindOp(k) => k in keys
    case InsertOp(k) => k in keys
    case DeleteOp(k) => k in keys
    case _ => false
  }

  function Answers(keys: set<Key>, ops: seq<Op>): seq<bool>
    decreases |ops|
  {
    if ops == [] then [] else [Answer(keys, ops[0])] + Answers(After(keys, ops[0]), ops[1..])
  }

  /** One operation. As in the source, callers insert only absent and delete only present keys, the
      maintenance thread expands only when no expansion is under way, and it migrates only during one. */
  method Perform(tab: Table, op: Op) returns (found: bool)
    requires tab.Valid()
    modifies tab, tab.primary, tab.former, tab.next.Keys
    ensures tab.Valid() == true && tab.t.m.Keys == After(old(tab.t.m.Keys), op)
    ensures found == Answer(old(tab.t.m.Keys), op)
    ensures tab.primary == old(tab.primary) || fresh(tab.primary)
    ensures tab.former == old(tab.former) || tab.former == old(tab.primary) || fresh(tab.former)
    ensures fresh(tab.next.Keys - old(tab.next.Keys))
  {
    found := false;
    match op
    case FindOp(k) =>
      var it := tab.Find(k);
      found := it != null;
    case InsertOp(k) =>
      var it := tab.Find(k);
      found := it != null;
      if !found {
        var item := new Item(k);
        tab.Insert(item);
      }
    case DeleteOp(k) =>
      var it := tab.Find(k);
      found := it != null;
      if found {
        ghost var i := tab.Delete(k);
      }
    case ExpandOp(enough) =>
      if !tab.expanding { tab.Expand(enough); }
    case MigrateOp(locked) =>
      if tab.expanding { tab.Migrate(locked); }
  }

  /** Any interleaving of lookups, insertions and deletions with expansions and migrations answers as a plain
      set of keys does. */
  method Run(hash: Key -> nat, power: nat, ops: seq<Op>) returns (answers: seq<bool>)
    ensures answers == Answers({}, ops)
  {
    var tab := new Table(hash, power);
    answers := [];
    assert ops[0..] == ops && tab.t.m.Keys == {};
    for i := 0 to |ops|
      invariant tab.Valid() == true
      invariant fresh(tab) && fresh(tab.primary) && fresh(tab.former) && fresh(tab.next.Keys)
      invariant answers + Answers(tab.t.m.Keys, ops[i..]) == Answers({}, ops)
    {
      assert ops[i..][1..] == ops[i + 1..];
      var found := Perform(tab, ops[i]);
      answers := answers + [found];
    }
  }
}
