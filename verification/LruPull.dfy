/** lru_pull_tail of sources/memcached/items.c with the reference counts, item locks, LRU queues and size
    counters it works on. Other threads show up as references they hold and as item locks that cannot be
    taken; tail repair is off. */
module LruPull {

  import opened Common

  type Id = nat

  // How many items a pull looks at
  const TRIES: nat := 5

  datatype Lru = HOT | WARM | COLD | TEMP

  // slabs_clsid: the slab class with the LRU in its upper bits
  datatype Qid = Qid(cls: nat, lru: Lru)

  // What does not change while an item lives; `stripe` is its item lock
  datatype Info = Info(cls: nat, bytes: nat, stripe: nat, crawler: bool, exptime: nat, time: nat, flushed: bool)

  datatype Item = Item(refs: nat, linked: bool, active: bool, lru: Lru)

  datatype Cache = Cache(
    info: map<Id, Info>, items: map<Id, Item>, held: map<Id, nat>, table: set<Id>,
    queues: map<Qid, seq<Id>>, sizes: map<Qid, int>, bytes: map<Qid, int>, locks: set<nat>)

  // ---------- the invariant ----------

  function Count(info: map<Id, Info>, q: seq<Id>): nat
    requires forall x :: x in q ==> x in info
  {
    if q == [] then 0 else Count(info, q[1..]) + if info[q[0]].crawler then 0 else 1
  }

  function Sum(info: map<Id, Info>, q: seq<Id>): nat
    requires forall x :: x in q ==> x in info
  {
    if q == [] then 0 else Sum(info, q[1..]) + if info[q[0]].crawler then 0 else info[q[0]].bytes
  }

  function Home(s: Cache, x: Id): Qid
    requires x in s.info && x in s.items
  {
    Qid(s.info[x].cls, s.items[x].lru)
  }

  /** The references of an item are the one for being linked and those held by threads. */
  ghost predicate ItemOK(s: Cache, x: Id)
    requires x in s.items
  {
    && x in s.info && x in s.held
    && (forall l :: Qid(s.info[x].cls, l) in s.queues)
    && (!s.info[x].crawler ==>
        && s.items[x].refs == s.held[x] + (if s.items[x].linked then 1 else 0)
        && s.items[x].refs > 0
        && (s.items[x].linked <==> x in s.table))
  }

  /** A queue has only linked items of its own id, and crawlers, and its counters agree with it. */
  ghost predicate QueueOK(s: Cache, loose: Option<Id>, q: Qid)
    requires q in s.queues
  {
    && NoDup(s.queues[q]) && q in s.sizes && q in s.bytes
    && (forall x :: x in s.queues[q] ==>
          && x in s.items && x in s.info && Some(x) != loose
          && (s.info[x].crawler || (s.items[x].linked && Home(s, x) == q)))
    && s.sizes[q] == Count(s.info, s.queues[q])
    && s.bytes[q] == Sum(s.info, s.queues[q])
  }

  // A linked item is in the queue its id names, except for one that is just being moved.
  ghost predicate Queued(s: Cache, loose: Option<Id>, x: Id)
    requires x in s.items
  {
    x in s.info && (s.items[x].linked && !s.info[x].crawler && Some(x) != loose ==>
        Home(s, x) in s.queues && x in s.queues[Home(s, x)])
  }

  ghost predicate Good(s: Cache, loose: Option<Id>) {
    && (forall x {:trigger ItemOK(s, x)} :: x in s.items ==> ItemOK(s, x))
    && (forall q {:trigger QueueOK(s, loose, q)} :: q in s.queues ==> QueueOK(s, loose, q))
    && (forall x {:trigger Queued(s, loose, x)} :: x in s.items ==> Queued(s, loose, x))
  }

  // ---------- the operations ----------

  function Index(q: seq<Id>, x: Id): (i: nat)
    requires x in q
    ensures i < |q| && q[i] == x
  {
    if q[0] == x then 0 else 1 + Index(q[1..], x)
  }

  function Less(q: seq<Id>, x: Id): seq<Id>
    requires x in q
  {
    RemoveAt(q, Index(q, x))
  }

  // do_item_unlink_q
  function TakenOut(s: Cache, x: Id): Cache
    requires x in s.info && x in s.items && Home(s, x) in s.queues && Home(s, x) in s.sizes && Home(s, x) in s.bytes
    requires x in s.queues[Home(s, x)]
  {
    var q := Home(s, x);
    s.(queues := s.queues[q := Less(s.queues[q], x)], sizes := s.sizes[q := s.sizes[q] - 1],
        bytes := s.bytes[q := s.bytes[q] - s.info[x].bytes])
  }

  // do_item_link_q
  function PutIn(s: Cache, x: Id): Cache
    requires x in s.info && x in s.items && Home(s, x) in s.queues && Home(s, x) in s.sizes && Home(s, x) in s.bytes
  {
    var q := Home(s, x);
    s.(queues := s.queues[q := [x] + s.queues[q]], sizes := s.sizes[q := s.sizes[q] + 1],
        bytes := s.bytes[q := s.bytes[q] + s.info[x].bytes])
  }

  // refcount_incr
  function Retain(s: Cache, x: Id): Cache
    requires x in s.items && x in s.held
  {
    s.(items := s.items[x := s.items[x].(refs := s.items[x].refs + 1)], held := s.held[x := s.held[x] + 1])
  }

  // do_item_remove: a thread gives up its reference, and the last one frees the item.
  function Released(s: Cache, x: Id): Cache
    requires x in s.items && x in s.held && s.items[x].refs > 0 && s.held[x] > 0
  {
    if s.items[x].refs == 1 then s.(items := s.items - {x}, held := s.held - {x})
    else s.(items := s.items[x := s.items[x].(refs := s.items[x].refs - 1)], held := s.held[x := s.held[x] - 1])
  }

  // do_item_unlink_nolock, called with a reference of its own on the item
  function Unlinked(s: Cache, x: Id): Cache
    requires x in s.info && x in s.items && s.items[x].refs > 0
    requires s.items[x].linked ==>
      Home(s, x) in s.queues && Home(s, x) in s.sizes && Home(s, x) in s.bytes && x in s.queues[Home(s, x)]
  {
    if !s.items[x].linked then s
    else
      var t := TakenOut(s, x);
      t.(table := t.table - {x}, items := t.items[x := t.items[x].(linked := false, refs := t.items[x].refs - 1)])
  }

  lemma {:induction false} LessFacts(q: seq<Id>, x: Id)
    requires x in q && NoDup(q)
    ensures NoDup(Less(q, x))
    ensures forall y :: y in Less(q, x) <==> y in q && y != x
  {
    var i, r := Index(q, x), Less(q, x);
    assert forall k :: 0 <= k < |r| ==> r[k] == q[if k < i then k else k + 1];
    forall y | y in q && y != x ensures y in r {
      var k :| 0 <= k < |q| && q[k] == y;
      assert r[if k < i then k else k - 1] == y;
    }
  }

  lemma {:induction false} CountLess(info: map<Id, Info>, q: seq<Id>, x: Id)
    requires x in q && NoDup(q) && forall y :: y in q ==> y in info
    ensures forall y :: y in Less(q, x) ==> y in info
    ensures Count(info, q) == Count(info, Less(q, x)) + if info[x].crawler then 0 else 1
    ensures Sum(info, q) == Sum(info, Less(q, x)) + if info[x].crawler then 0 else info[x].bytes
  {
    LessFacts(q, x);
    if q[0] != x {
      CountLess(info, q[1..], x);
      assert Less(q, x) == [q[0]] + Less(q[1..], x);
    } else {
      assert Less(q, x) == q[1..];
    }
  }

  // ---------- what the operations keep ----------

  lemma Facts(s: Cache, loose: Option<Id>, x: Id)
    requires Good(s, loose) && x in s.items
    ensures ItemOK(s, x) && Queued(s, loose, x) && Home(s, x) in s.queues && QueueOK(s, loose, Home(s, x))
  {
    assert ItemOK(s, x) && Queued(s, loose, x);
    assert QueueOK(s, loose, Home(s, x));
  }

  lemma UnlinkQOK(s: Cache, x: Id)
    requires Good(s, None) && x in s.items && x in s.info && !s.info[x].crawler && s.items[x].linked
    ensures Home(s, x) in s.queues && Home(s, x) in s.sizes && Home(s, x) in s.bytes && x in s.queues[Home(s, x)]
    ensures Good(TakenOut(s, x), Some(x))
  {
    Facts(s, None, x);
    var t, h := TakenOut(s, x), Home(s, x);
    LessFacts(s.queues[h], x);
    CountLess(s.info, s.queues[h], x);
    forall y | y in t.items ensures ItemOK(t, y) && Queued(t, Some(x), y) {
      Facts(s, None, y);
    }
    forall q | q in t.queues ensures QueueOK(t, Some(x), q) {
      assert QueueOK(s, None, q);
    }
  }

  // Linking the item that is being moved, after its id may have changed
  lemma LinkQOK(s: Cache, x: Id)
    requires Good(s, Some(x)) && x in s.items && x in s.info && !s.info[x].crawler && s.items[x].linked
    ensures Home(s, x) in s.queues && Home(s, x) in s.sizes && Home(s, x) in s.bytes
    ensures Good(PutIn(s, x), None)
  {
    Facts(s, Some(x), x);
    var t, h := PutIn(s, x), Home(s, x);
    assert t.queues[h][1..] == s.queues[h];
    forall y | y in t.items ensures ItemOK(t, y) && Queued(t, None, y) {
      Facts(s, Some(x), y);
    }
    forall q | q in t.queues ensures QueueOK(t, None, q) {
      assert QueueOK(s, Some(x), q);
    }
  }

  // Changing only the counts or flags of an item
  lemma ItemFrame(s: Cache, loose: Option<Id>, x: Id, it: Item, held: nat)
    requires Good(s, loose) && x in s.items && it.linked == s.items[x].linked
    requires it.lru == s.items[x].lru || loose == Some(x)
    requires it.refs - held == s.items[x].refs - (if x in s.held then s.held[x] else 0)
    requires it.refs > 0 || (x in s.info && s.info[x].crawler)
    ensures Good(s.(items := s.items[x := it], held := s.held[x := held]), loose)
  {
    var t := s.(items := s.items[x := it], held := s.held[x := held]);
    forall y | y in t.items ensures ItemOK(t, y) && Queued(t, loose, y) {
      assert ItemOK(s, y) && Queued(s, loose, y);
    }
    forall q | q in t.queues ensures QueueOK(t, loose, q) {
      assert QueueOK(s, loose, q);
    }
  }

  lemma RetainOK(s: Cache, loose: Option<Id>, x: Id)
    requires Good(s, loose) && x in s.items
    ensures x in s.held && Good(Retain(s, x), loose)
  {
    assert ItemOK(s, x);
    ItemFrame(s, loose, x, s.items[x].(refs := s.items[x].refs + 1), s.held[x] + 1);
  }

  /** item_free is reached only for an item that is not linked, in no queue and without references. */
  lemma ReleaseOK(s: Cache, x: Id)
    requires Good(s, None) && x in s.items && x in s.info && x in s.held && !s.info[x].crawler && s.held[x] > 0
    ensures s.items[x].refs > 0 && Good(Released(s, x), None)
    ensures x !in Released(s, x).items ==> !s.items[x].linked && x !in s.table && s.held[x] == 1 && forall q ::
        q in s.queues ==> x !in s.queues[q]
  {
    assert ItemOK(s, x);
    if s.items[x].refs == 1 {
      var t := Released(s, x);
      forall q | q in t.queues ensures QueueOK(t, None, q) && x !in s.queues[q] {
        assert QueueOK(s, None, q);
      }
      forall y | y in t.items ensures ItemOK(t, y) && Queued(t, None, y) {
        assert ItemOK(s, y) && Queued(s, None, y);
      }
    } else {
      ItemFrame(s, None, x, s.items[x].(refs := s.items[x].refs - 1), s.held[x] - 1);
    }
  }

  lemma UnlinkOK(s: Cache, x: Id)
    requires Good(s, None) && x in s.items && x in s.info && x in s.held && !s.info[x].crawler && s.held[x] > 0
    requires s.items[x].linked
    ensures s.items[x].refs > 0 && Home(s, x) in s.queues && Home(s, x) in s.sizes && Home(s, x) in s.bytes
    ensures x in s.queues[Home(s, x)]
    ensures Good(Unlinked(s, x), None)
  {
    assert ItemOK(s, x);
    UnlinkQOK(s, x);
    var u, t := TakenOut(s, x), Unlinked(s, x);
    forall y | y in t.items ensures ItemOK(t, y) && Queued(t, None, y) {
      assert ItemOK(u, y) && Queued(u, Some(x), y);
    }
    forall q | q in t.queues ensures QueueOK(t, None, q) {
      assert QueueOK(u, Some(x), q);
    }
  }

  // What became of item x from s0 to s: it is still there, referenced as before or once more by this call, or
  // it is gone and nobody referenced it.
  ghost predicate Account(s0: Cache, s: Cache, mine: Option<Id>, x: Id) {
    && (x in s.items ==>
        && x in s0.items && x in s.held && x in s0.held
        && s.held[x] == s0.held[x] + if mine == Some(x) then 1 else 0)
    && (x in s0.items && x !in s.items ==> x in s0.held && s0.held[x] == 0)
  }

  // From s0 to s: no item came, items that went had no references left, the references held are the same, and
  // so are the locks, except that the call has the item `mine` referenced and locked.
  ghost predicate Accounts(s0: Cache, s: Cache, mine: Option<Id>) {
    && s.info == s0.info
    && (forall x {:trigger Account(s0, s, mine, x)} :: Account(s0, s, mine, x))
    && (mine.Some? ==>
        && mine.value in s.items && mine.value in s.info && !s.info[mine.value].crawler
        && s.info[mine.value].stripe !in s0.locks)
    && s.locks == s0.locks + if mine.Some? then {s.info[mine.value].stripe} else {}
  }

  // Locks are no part of the invariant.
  lemma WithLocks(s: Cache, loose: Option<Id>, locks: set<nat>)
    requires Good(s, loose)
    ensures Good(s.(locks := locks), loose)
  {
    var t := s.(locks := locks);
    forall y | y in t.items ensures ItemOK(t, y) && Queued(t, loose, y) {
      assert ItemOK(s, y) && Queued(s, loose, y);
    }
    forall q | q in t.queues ensures QueueOK(t, loose, q) {
      assert QueueOK(s, loose, q);
    }
  }

  ghost function LetGoOf(s: Cache, x: Id): Cache
    requires x in s.info && x in s.items && x in s.held && s.items[x].refs > 0 && s.held[x] > 0
  {
    Released(s, x).(locks := s.locks - {s.info[x].stripe})
  }

  lemma LetGoOK(s0: Cache, s: Cache, x: Id)
    requires Good(s, None) && Accounts(s0, s, Some(x))
    ensures x in s.info && x in s.held && s.items[x].refs > 0 && s.held[x] > 0
    ensures Good(LetGoOf(s, x), None) && Accounts(s0, LetGoOf(s, x), None)
  {
    assert ItemOK(s, x) && Account(s0, s, Some(x), x);
    ReleaseOK(s, x);
    WithLocks(Released(s, x), None, s.locks - {s.info[x].stripe});
    LetGoAccounts(s0, s, x);
  }

  lemma LetGoAccounts(s0: Cache, s: Cache, x: Id)
    requires Accounts(s0, s, Some(x)) && x in s.held && s.items[x].refs > 0 && s.held[x] > 0
    requires s.items[x].refs == 1 ==> s.held[x] == 1
    ensures Accounts(s0, LetGoOf(s, x), None)
  {
    var t := LetGoOf(s, x);
    assert t.locks == s0.locks;
    forall y ensures Account(s0, t, None, y) {
      assert Account(s0, s, Some(x), y);
    }
  }

  lemma TakeAccounts(s0: Cache, s: Cache, x: Id)
    requires Accounts(s0, s, None) && x in s.items && x in s.held && x in s.info && !s.info[x].crawler
    requires s.info[x].stripe !in s.locks
    ensures Accounts(s0, Retain(s, x).(locks := s.locks + {s.info[x].stripe}), Some(x))
  {
    var t := Retain(s, x).(locks := s.locks + {s.info[x].stripe});
    forall y ensures Account(s0, t, Some(x), y) {
      assert Account(s0, s, None, y);
    }
  }

  // A step that changes neither the set of items nor references nor locks
  lemma SameAccounts(s0: Cache, s: Cache, t: Cache, mine: Option<Id>)
    requires Accounts(s0, s, mine) && t.info == s.info && t.held == s.held && t.locks == s.locks
    requires forall y :: y in t.items <==> y in s.items
    ensures Accounts(s0, t, mine)
  {
    forall y ensures Account(s0, t, mine, y) {
      assert Account(s0, s, mine, y);
    }
  }

  // The items after a reference to x was given up
  function Dereferenced(items: map<Id, Item>, x: Id): map<Id, Item>
    requires x in items
  {
    if items[x].refs <= 1 then items - {x} else items[x := items[x].(refs := items[x].refs - 1)]
  }

  // Apart from x, every item is as it was.
  ghost predicate Others(before: map<Id, Item>, items: map<Id, Item>, x: Id) {
    forall y :: y != x ==> (y in items <==> y in before) && (y in items ==> items[y] == before[y])
  }

  class LruCache {
    const info: map<Id, Info>
    var items: map<Id, Item>
    ghost var held: map<Id, nat>
    var table: set<Id>
    var queues: map<Qid, seq<Id>>
    var sizes: map<Qid, int>
    var bytes: map<Qid, int>
    var locks: set<nat>

    ghost function St(): Cache
      reads this
    {
      Cache(info, items, held, table, queues, sizes, bytes, locks)
    }

    /** item_trylock, which fails if another thread has the lock or this one does, and refcount_incr */
    method Take(x: Id, free: bool, ghost s0: Cache) returns (ok: bool)
      requires Good(St(), None) && Accounts(s0, St(), None) && x in items && x in info && !info[x].crawler
      modifies this
      ensures Good(St(), None) && Accounts(s0, St(), if ok then Some(x) else None)
      ensures ok == (free && info[x].stripe !in s0.locks)
      ensures queues == old(queues) && table == old(table) && bytes == old(bytes)
      ensures items == if ok then old(items)[x := old(items[x]).(refs := old(items[x].refs) + 1)] else old(items)
    {
      ok := free && info[x].stripe !in locks;
      if ok {
        ghost var s := St();
        RetainOK(s, None, x);
        TakeAccounts(s0, s, x);
        WithLocks(Retain(s, x), None, locks + {info[x].stripe});
        items, held := items[x := items[x].(refs := items[x].refs + 1)], held[x := held[x] + 1];
        locks := locks + {info[x].stripe};
      }
    }

    /** do_item_remove and item_trylock_unlock: the reference and the lock are given back. */
    method LetGo(x: Id, ghost s0: Cache)
      requires Good(St(), None) && Accounts(s0, St(), Some(x))
      modifies this
      ensures Good(St(), None) && Accounts(s0, St(), None)
      ensures queues == old(queues) && table == old(table) && bytes == old(bytes)
      ensures items == Dereferenced(old(items), x)
    {
      ghost var s := St();
      LetGoOK(s0, s, x);
      if items[x].refs == 1 {
        items, held := items - {x}, held - {x};
      } else {
        items, held := items[x := items[x].(refs := items[x].refs - 1)], held[x := held[x] - 1];
      }
      locks := locks - {info[x].stripe};
      assert St() == LetGoOf(s, x);
    }

    /** do_item_unlink_nolock: the item leaves hash table and queue; the call still has its reference. */
    method Drop(x: Id, ghost s0: Cache)
      requires Good(St(), None) && Accounts(s0, St(), Some(x)) && items[x].linked
      modifies this
      ensures Good(St(), None) && Accounts(s0, St(), Some(x))
      ensures items == old(items)[x := old(items[x]).(linked := false, refs := items[x].refs)]
      ensures table == old(table) - {x}
      ensures var q := Qid(info[x].cls, old(items[x].lru));
        && q in old(queues) && x in old(queues[q]) && queues == old(queues)[q := Less(old(queues[q]), x)]
        && q in old(bytes) && bytes == old(bytes)[q := old(bytes[q]) - info[x].bytes]
    {
      ghost var s := St();
      assert ItemOK(s, x) && Account(s0, s, Some(x), x);
      UnlinkOK(s, x);
      SameAccounts(s0, s, Unlinked(s, x), Some(x));
      var q := Qid(info[x].cls, items[x].lru);
      table := table - {x};
      queues := queues[q := Less(queues[q], x)];
      sizes, bytes := sizes[q := sizes[q] - 1], bytes[q := bytes[q] - info[x].bytes];
      items := items[x := items[x].(linked := false, refs := items[x].refs - 1)];
      assert St() == Unlinked(s, x);
    }

    /** do_item_unlink_q, for an item that is to be moved */
    method Detach(x: Id, ghost s0: Cache)
      requires Good(St(), None) && Accounts(s0, St(), Some(x)) && items[x].linked
      modifies this
      ensures Good(St(), Some(x)) && Accounts(s0, St(), Some(x)) && items == old(items) && table == old(table)
      ensures var q := Qid(info[x].cls, items[x].lru);
        && q in old(queues) && x in old(queues[q]) && queues == old(queues)[q := Less(old(queues[q]), x)]
        && q in old(bytes) && bytes == old(bytes)[q := old(bytes[q]) - info[x].bytes]
    {
      ghost var s := St();
      UnlinkQOK(s, x);
      SameAccounts(s0, s, TakenOut(s, x), Some(x));
      var q := Qid(info[x].cls, items[x].lru);
      queues := queues[q := Less(queues[q], x)];
      sizes, bytes := sizes[q := sizes[q] - 1], bytes[q := bytes[q] - info[x].bytes];
      assert St() == TakenOut(s, x);
    }

    /** do_item_link_q: the item that is being moved becomes the head of the queue for `lru`. */
    method Attach(x: Id, lru: Lru, ghost s0: Cache)
      requires Good(St(), Some(x)) && Accounts(s0, St(), Some(x)) && items[x].linked
      modifies this
      ensures Good(St(), None) && Accounts(s0, St(), Some(x))
      ensures items == old(items)[x := old(items[x]).(lru := lru)] && table == old(table)
      ensures var q := Qid(info[x].cls, lru);
        && q in old(queues) && queues == old(queues)[q := [x] + old(queues[q])]
        && q in old(bytes) && bytes == old(bytes)[q := old(bytes[q]) + info[x].bytes]
    {
      ghost var s := St();
      Facts(s, Some(x), x);
      ItemFrame(s, Some(x), x, s.items[x].(lru := lru), s.held[x]);
      items := items[x := items[x].(lru := lru)];
      assert held[x := held[x]] == held;
      ghost var t := St();
      LinkQOK(t, x);
      SameAccounts(s0, s, PutIn(t, x), Some(x));
      var q := Qid(info[x].cls, lru);
      queues := queues[q := [x] + queues[q]];
      sizes, bytes := sizes[q := sizes[q] + 1], bytes[q := bytes[q] + info[x].bytes];
      assert St() == PutIn(t, x);
    }

    method ClearActive(x: Id, ghost s0: Cache)
      requires Good(St(), None) && Accounts(s0, St(), Some(x))
      modifies this`items
      ensures Good(St(), None) && Accounts(s0, St(), Some(x))
      ensures items == old(items)[x := old(items[x]).(active := false)]
    {
      ghost var s := St();
      Facts(s, None, x);
      ItemFrame(s, None, x, s.items[x].(active := false), s.held[x]);
      items := items[x := items[x].(active := false)];
      assert held[x := held[x]] == held;
      SameAccounts(s0, s, St(), Some(x));
    }

    // An active item of a WARM queue goes back to the head of its queue.
    method Rotate(x: Id, ghost s0: Cache)
      requires Good(St(), None) && Accounts(s0, St(), Some(x)) && items[x].linked
      modifies this
      ensures Good(St(), None) && Accounts(s0, St(), None)
      ensures items == Dereferenced(old(items), x) && table == old(table)
      ensures var q := Qid(info[x].cls, old(items[x].lru));
        && q in old(queues) && x in old(queues[q]) && queues == old(queues)[q := [x] + Less(old(queues[q]), x)]
        && q in old(bytes) && q in bytes && bytes[q] == old(bytes[q])
    {
      var lru := items[x].lru;
      Detach(x, s0);
      Attach(x, lru, s0);
      assert items == old(items);
      LetGo(x, s0);
    }

    // What happens to a referenced and locked item of a HOT or WARM queue
    method InspectWarm(x: Id, p: Pull, ghost s0: Cache, ghost id: Qid, ghost d: Deeds)
      returns (stop: bool, moveTo: Option<Lru>, removed: nat)
      requires Good(St(), None) && Accounts(s0, St(), Some(x)) && items[x].linked && items[x].lru == p.cur
      requires (p.cur.HOT? || p.cur.WARM?) && id == Qid(info[x].cls, p.cur) && id in bytes
      requires Looks(s0, St(), id, d) && d.moved.None? && NoDup(s0.queues[id]) && x in s0.items && s0.items[x].linked
      modifies this
      ensures stop <==> !(p.cur.WARM? && old(items[x].active))
      ensures !stop ==> Good(St(), None) && Accounts(s0, St(), None) && moveTo.None? && removed == 1
      ensures !stop ==> Others(old(items), items, x) && (x in items ==> !items[x].active)
      ensures !stop ==> id in old(queues) && id in queues && x in old(queues[id])
      ensures !stop ==> queues[id] == [x] + Less(old(queues[id]), x)
      ensures !stop ==> Looks(s0, St(), id, AlsoRotated(d, x)) == true
      ensures stop ==>
        Stopping(s0, x, id, d, FateOf(p, info[x], old(items[x].active), old(bytes[id])), moveTo, removed) == true
    {
      stop, moveTo, removed := true, None, 0;
      if items[x].active {
        removed := 1;
        if p.cur.WARM? {
          SendBack(x, s0, id, d);
          stop := false;
        } else {
          moveTo := Some(WARM);
          Rescue(x, s0, id, d);
        }
      } else if bytes[Qid(info[x].cls, p.cur)] > Limit(p) || (p.now - info[x].time) % 0x1_0000_0000 > p.maxAge {
        moveTo := Some(COLD);
        SetOff(x, s0, id, d);
        removed := 1;
      }
    }

    // The item is not active any more and back at the head of its queue.
    method SendBack(x: Id, ghost s0: Cache, ghost id: Qid, ghost d: Deeds)
      requires Good(St(), None) && Accounts(s0, St(), Some(x)) && items[x].linked && items[x].active
      requires id == Qid(info[x].cls, items[x].lru) && Looks(s0, St(), id, d) && d.moved.None? && NoDup(s0.queues[id])
      modifies this
      ensures Good(St(), None) == true && Accounts(s0, St(), None) == true
      ensures Others(old(items), items, x) && (x in items ==> !items[x].active)
      ensures id in old(queues) && id in queues && x in old(queues[id])
      ensures queues[id] == [x] + Less(old(queues[id]), x)
      ensures Looks(s0, St(), id, AlsoRotated(d, x)) == true
    {
      ghost var s := St();
      QueueFacts(s0, s, id, d, x);
      LastReference(s0, s, x);
      ClearActive(x, s0);
      Rotate(x, s0);
      LooksRotated(s0, s, St(), id, d, x);
    }

    // The item is not active any more and on its way to another queue.
    method Rescue(x: Id, ghost s0: Cache, ghost id: Qid, ghost d: Deeds)
      requires Good(St(), None) && Accounts(s0, St(), Some(x)) && items[x].linked
      requires id == Qid(info[x].cls, items[x].lru) && Looks(s0, St(), id, d) && d.moved.None?
      modifies this
      ensures Good(St(), Some(x)) == true && Accounts(s0, St(), Some(x)) == true && x in items && items[x].linked
      ensures Looks(s0, St(), id, MovingOn(d, x)) == true
    {
      ghost var s := St();
      QueueFacts(s0, s, id, d, x);
      ClearActive(x, s0);
      Detach(x, s0);
      LooksMoving(s0, s, St(), id, d, x);
    }

    method SetOff(x: Id, ghost s0: Cache, ghost id: Qid, ghost d: Deeds)
      requires Good(St(), None) && Accounts(s0, St(), Some(x)) && items[x].linked && !items[x].active
      requires id == Qid(info[x].cls, items[x].lru) && Looks(s0, St(), id, d) && d.moved.None?
      modifies this
      ensures Good(St(), Some(x)) == true && Accounts(s0, St(), Some(x)) == true && x in items && items[x].linked
      ensures Looks(s0, St(), id, MovingOn(d, x)) == true
    {
      ghost var s := St();
      QueueFacts(s0, s, id, d, x);
      Detach(x, s0);
      LooksMoving(s0, s, St(), id, d, x);
    }

    // The item is taken out, but the call still has its reference.
    method Evict(x: Id, ghost s0: Cache, ghost id: Qid, ghost d: Deeds)
      requires Good(St(), None) && Accounts(s0, St(), Some(x)) && items[x].linked && x !in d.rotated
      requires id == Qid(info[x].cls, items[x].lru) && Looks(s0, St(), id, d) && d.moved.None? && NoDup(s0.queues[id])
      modifies this
      ensures Good(St(), None) == true && Accounts(s0, St(), Some(x)) == true
      ensures x in old(items) && Others(old(items), items, x) && x in items
      ensures id in old(queues) && id in queues && x in old(queues[id]) && queues[id] == Less(old(queues[id]), x)
      ensures Looks(s0, St(), id, AlsoExpired(d, x)) == true && !items[x].linked
    {
      ghost var s := St();
      QueueFacts(s0, s, id, d, x);
      Drop(x, s0);
      LooksExpired(s0, s, St(), id, d, x);
    }

    // The call has x referenced and locked, and x is out of its queue if it is to be moved.
    ghost predicate Held(s0: Cache, x: Id, moveTo: Option<Lru>)
      reads this
    {
      && Accounts(s0, St(), Some(x)) && Good(St(), if moveTo.Some? then Some(x) else None)
      && (moveTo.Some? ==> items[x].linked)
    }

    // The walk has stopped at x, and fate f is being carried out.
    ghost predicate Stopping(s0: Cache, x: Id, id: Qid, d: Deeds, f: Fate, moveTo: Option<Lru>, removed: nat)
      reads this
    {
      && Held(s0, x, moveTo) && Looks(s0, St(), id, Begun(d, x, f))
      && moveTo == (if f.Moves? then Some(f.to) else None) && removed == (if f.Stays? then 0 else 1)
    }

    // ... of a COLD queue
    method InspectCold(x: Id, p: Pull, ghost s0: Cache, ghost id: Qid, ghost d: Deeds)
      returns (moveTo: Option<Lru>, removed: nat, ret: Option<Id>)
      requires Good(St(), None) && Accounts(s0, St(), Some(x)) && items[x].linked && items[x].lru == p.cur
      requires p.cur.COLD? && id == Qid(info[x].cls, p.cur) && id in bytes
      requires Looks(s0, St(), id, d) && d.moved.None? && NoDup(s0.queues[id]) && d.rotated == []
      modifies this
      ensures
        Stopping(s0, x, id, d, FateOf(p, info[x], old(items[x].active), old(bytes[id])), moveTo, removed) == true
      ensures ret == if p.returnItem && !p.evict then Some(x) else None
    {
      moveTo, removed, ret := None, 0, None;
      if p.evict {
        if p.evictToFree {
          Evict(x, s0, id, d);
          removed := 1;
        }
      } else if p.returnItem {
        ret := Some(x);
      } else if items[x].active && p.segmented {
        moveTo := Some(WARM);
        Rescue(x, s0, id, d);
        removed := 1;
      }
    }

    // An expired item is taken out and let go.
    method Reclaim(x: Id, ghost s0: Cache, ghost id: Qid, ghost d: Deeds)
      requires Good(St(), None) && Accounts(s0, St(), Some(x)) && items[x].linked && x !in d.rotated
      requires id == Qid(info[x].cls, items[x].lru) && Looks(s0, St(), id, d) && d.moved.None? && NoDup(s0.queues[id])
      modifies this
      ensures Good(St(), None) && Accounts(s0, St(), None) && Others(old(items), items, x)
      ensures id in old(queues) && id in queues && x in old(queues[id]) && queues[id] == Less(old(queues[id]), x)
      ensures Looks(s0, St(), id, AlsoExpired(d, x)) == true
    {
      Evict(x, s0, id, d);
      ghost var t := St();
      LetGo(x, s0);
      LooksLetGo(s0, t, St(), id, AlsoExpired(d, x), x);
    }

    // The call has the item x of its queue referenced and locked, and nothing is on the move.
    ghost predicate Taken(s0: Cache, x: Id, id: Qid, p: Pull, d: Deeds)
      reads this
    {
      && Good(St(), None) && Accounts(s0, St(), Some(x)) && items[x].linked && items[x].lru == p.cur
      && id == Qid(info[x].cls, p.cur) && id in bytes
      && Looks(s0, St(), id, d) && d.moved.None? && NoDup(s0.queues[id]) && x in s0.items && s0.items[x].linked
      && (Expired(info[x], p) ==> x !in d.rotated) && (p.cur.COLD? ==> d.rotated == [])
    }

    // One round of the loop, for an item that could be locked
    method Inspect(x: Id, p: Pull, ghost s0: Cache, ghost id: Qid, ghost d: Deeds)
      returns (stop: bool, moveTo: Option<Lru>, removed: nat, ret: Option<Id>)
      requires Taken(s0, x, id, p, d) == true
      modifies this
      ensures stop <==> !Expired(info[x], p) && !(p.cur.WARM? && old(items[x].active))
      ensures !stop ==> Good(St(), None) && Accounts(s0, St(), None) && ret.None? && removed == 1
      ensures !stop ==> Others(old(items), items, x) && (!Expired(info[x], p) && x in items ==> !items[x].active)
      ensures !stop ==>
        && id in old(queues) && id in queues && x in old(queues[id])
        && var w := Less(old(queues[id]), x); queues[id] == if Expired(info[x], p) then w else [x] + w
      ensures !stop ==>
        Looks(s0, St(), id, Passed(d, x, info, p)) == true
      ensures stop ==>
        Stopping(s0, x, id, d, FateOf(p, info[x], old(items[x].active), old(bytes[id])), moveTo, removed) == true
      ensures stop ==> ret == if p.returnItem && p.cur.COLD? && !p.evict then Some(x) else None
    {
      moveTo, ret := None, None;
      if (info[x].exptime != 0 && info[x].exptime < p.now) || info[x].flushed {
        Reclaim(x, s0, id, d);
        stop, removed := false, 1;
      } else {
        match p.cur
        case HOT => stop, moveTo, removed := InspectWarm(x, p, s0, id, d);
        case WARM => stop, moveTo, removed := InspectWarm(x, p, s0, id, d);
        case COLD =>
          stop := true;
          moveTo, removed, ret := InspectCold(x, p, s0, id, d);
        case TEMP => stop, removed := true, 0;
      }
    }

    // After the loop: the item is linked into its new queue, and let go unless it is to be returned.
    method Finish(x: Id, moveTo: Option<Lru>, p: Pull, ghost s0: Cache, ghost id: Qid, ghost d: Deeds)
      requires Held(s0, x, moveTo) && Looks(s0, St(), id, d) && id.cls == info[x].cls
      requires if moveTo.Some? then d.moved == Some(Move(x, None)) && moveTo.value != id.lru else d.moved.None?
      requires x in s0.items && s0.items[x].linked
      modifies this
      ensures Good(St(), None) && Accounts(s0, St(), if p.returnItem then Some(x) else None)
      ensures Looks(s0, St(), id, Arrived(d, moveTo)) == true
    {
      ghost var s := St();
      if moveTo.Some? {
        Attach(x, moveTo.value, s0);
        LooksArrived(s0, s, St(), id, d, x, moveTo.value);
      }
      ghost var t := St();
      if !p.returnItem {
        LetGo(x, s0);
        LastReference(s0, t, x);
        assert Flagged(s0, t, Arrived(d, moveTo), x);
        LooksLetGo(s0, t, St(), id, Arrived(d, moveTo), x);
      }
    }

    /** lru_pull_tail. On every path each reference count is again the link plus the references held, items are freed
        only when nobody holds them, every linked item is in the queue its id names with both counters right, and
        each item lock taken is given back, except with LRU_PULL_RETURN_ITEM for the item the pull stops at. That one
        is returned for COLD queues without LRU_PULL_EVICT only. All queues, flags and the table are what the way of
        the pull makes of them, and the number of items removed, moved or rescued is returned, but 0 if a crawler
        blocks. */
    method PullTail(cls: nat, p: Pull, free: nat -> bool)
        returns (removed: nat, ret: Option<Id>, ghost kept: Option<Id>)
      requires Good(St(), None) && (cls > 0 ==> Qid(cls, p.cur) in queues)
      modifies this
      ensures Good(St(), None) && Accounts(old(St()), St(), kept)
      ensures kept == if p.returnItem then Stopped(old(St()), cls, p, free) else None
      ensures ret == if p.cur.COLD? && !p.evict then kept else None
      ensures cls == 0 ==> St() == old(St()) && removed == 0
      ensures cls > 0 ==>
        var id, s0 := Qid(cls, p.cur), old(St());
        var w := WayFrom(s0, id, p, free, TRIES);
        id in s0.bytes && Looks(s0, St(), id, DeedsOf(s0, id, p, w)) && removed == RemovedBy(s0, id, p, w)
    {
      removed, ret, kept := 0, None, None;
      AccountsStart(St());
      if cls == 0 { return; }
      ghost var s0 := St();
      var id := Qid(cls, p.cur);
      var it, moveTo;
      ghost var d;
      removed, it, moveTo, ret, d := Walk(id, p, free, TRIES, s0);
      if it.Some? {
        Finish(it.value, moveTo, p, s0, id, d);
        kept := if p.returnItem then it else None;
      }
    }

    // The walk is at `search`, with nothing locked.
    ghost predicate Walking(s0: Cache, id: Qid, p: Pull, search: Option<Id>, active: set<Id>, tries: nat,
                            free: nat -> bool, d: Deeds, target: Way)
      reads this
    {
      && Good(St(), None) && Accounts(s0, St(), None) && Looks(s0, St(), id, d) && Proper(s0, id, p, d)
      && Walks(St(), id, search, active, tries, free, s0.locks, p, d, target)
    }

    // The walk has ended, with n items counted: at an item, which is referenced and locked, or without one.
    ghost predicate Ended(s0: Cache, id: Qid, p: Pull, it: Option<Id>, moveTo: Option<Lru>, ret: Option<Id>, d: Deeds,
                          w: Way, n: nat)
      reads this
    {
      && w.stop == it && id in s0.bytes && (forall x :: x in w.expired ==> x in s0.info)
      && (it.Some? ==> it.value in s0.info) && n == RemovedBy(s0, id, p, w)
      && ret == (if p.returnItem && p.cur.COLD? && !p.evict then it else None)
      && if it.Some? then
           Held(s0, it.value, moveTo) && Pausing(s0, St(), id, p, w, moveTo, d)
         else
           Good(St(), None) && Accounts(s0, St(), None) && Looks(s0, St(), id, DeedsOf(s0, id, p, w))
    }

    // The loop from the tail upwards: it stops at the item it is to stop at, which is then referenced and locked.
    method Walk(id: Qid, p: Pull, free: nat -> bool, limit: nat, ghost s0: Cache)
      returns (removed: nat, it: Option<Id>, moveTo: Option<Lru>, ret: Option<Id>, ghost d: Deeds)
      requires Good(St(), None) && s0 == St() && id.lru == p.cur && id in queues
      modifies this
      ensures var w := WayFrom(s0, id, p, free, limit);
        Ended(s0, id, p, it, moveTo, ret, d, w, removed) == true
    {
      removed, it, moveTo, ret, d := 0, None, None, None, NONE;
      var tries := limit;
      ghost var active, target := Active(s0), WayFrom(s0, id, p, free, limit);
      var search := AtTail(id, p, free, limit, s0);
      while tries > 0 && search.Some?
        invariant Walking(s0, id, p, search, active, tries, free, d, target) == true
        invariant removed == |d.expired| + |d.rotated| && it.None? && ret.None?
        decreases tries, if id in queues then Left(queues[id], search) else 0
      {
        var stop;
        stop, tries, search, it, moveTo, removed, ret, active, d :=
          Turn(search.value, id, p, tries, free, removed, s0, active, d, target);
        if stop { return; }
      }
      EndsHere(s0, id, p, search, active, tries, free, d, target, moveTo);
    }

    lemma EndsHere(s0: Cache, id: Qid, p: Pull, search: Option<Id>, active: set<Id>, tries: nat, free: nat -> bool,
                   d: Deeds, target: Way, moveTo: Option<Lru>)
      requires Walking(s0, id, p, search, active, tries, free, d, target) && (tries == 0 || search.None?)
      ensures Ended(s0, id, p, None, moveTo, None, d, target, |d.expired| + |d.rotated|)
    {
      WalkEnds(St(), id, search, active, tries, free, s0.locks, p, d, target);
      assert DeedsOf(s0, id, p, target) == d;
    }

    method AtTail(id: Qid, p: Pull, ghost free: nat -> bool, ghost limit: nat, ghost s0: Cache)
      returns (search: Option<Id>)
      requires Good(St(), None) && s0 == St() && id.lru == p.cur && id in queues
      ensures Walking(s0, id, p, search, Active(s0), limit, free, NONE, WayFrom(s0, id, p, free, limit)) == true
    {
      AccountsStart(s0);
      LooksStart(s0, id);
      search := if queues[id] == [] then None else Some(queues[id][|queues[id]| - 1]);
      StartsAtTail(s0, id, search, limit, free, p);
    }

    // One turn of the loop: x is passed, or the walk ends.
    method Turn(x: Id, id: Qid, p: Pull, tries: nat, free: nat -> bool, n: nat, ghost s0: Cache, ghost active: set<Id>,
                ghost d: Deeds, ghost target: Way)
      returns (stop: bool, tries': nat, next: Option<Id>, it: Option<Id>, moveTo: Option<Lru>, removed: nat,
               ret: Option<Id>, ghost active': set<Id>, ghost d': Deeds)
      requires Walking(s0, id, p, Some(x), active, tries, free, d, target) && tries > 0
      requires n == |d.expired| + |d.rotated|
      modifies this
      ensures !stop ==> Walking(s0, id, p, next, active', tries', free, d', target) == true && it.None? && ret.None?
      ensures !stop ==> removed == |d'.expired| + |d'.rotated|
      ensures !stop ==> tries' < tries || (tries' == tries && id in queues && id in old(queues) &&
                                           Left(queues[id], next) < Left(old(queues[id]), Some(x)))
      ensures stop ==> Ended(s0, id, p, it, moveTo, ret, d', target, removed) == true
    {
      next := NextUp(queues[id], x);
      it, moveTo, ret, tries', active', d' := None, None, None, tries, active, d;
      if info[x].crawler {
        stop := PassCrawler(x, next, id, p, tries, free, s0, active, d, target);
        removed := if stop then 0 else n;
      } else {
        tries' := tries - 1;
        stop, moveTo, removed, ret, active', d' := Round(x, next, id, p, tries, tries', free, n, s0, active, d, target);
        it := if stop then Some(x) else None;
      }
    }

    // A crawler is passed, or ends the walk.
    method PassCrawler(x: Id, ghost next: Option<Id>, id: Qid, p: Pull, tries: nat, free: nat -> bool, ghost s0: Cache,
                       ghost active: set<Id>, ghost d: Deeds, ghost target: Way) returns (stop: bool)
      requires Walking(s0, id, p, Some(x), active, tries, free, d, target)
      requires tries > 0 && x in info && info[x].crawler && next == NextUp(queues[id], x)
      ensures stop ==> Ended(s0, id, p, None, None, None, d, target, 0) == true
      ensures !stop ==> Walking(s0, id, p, next, active, tries, free, d, target) == true
      ensures id in queues && Left(queues[id], next) < Left(queues[id], Some(x))
    {
      stop := p.crawlBlocks;
      assert QueueOK(St(), None, id);
      if Index(queues[id], x) > 0 { IndexIs(queues[id], Index(queues[id], x) - 1); }
      if stop {
        CrawlerBlocks(St(), id, x, active, tries, free, s0.locks, p, d, target);
        assert DeedsOf(s0, id, p, target) == d;
      } else {
        WalkPast(St(), St(), id, x, active, tries, tries, free, s0.locks, p, d, target);
      }
    }

    // One round of the loop: the item x is passed, or the walk stops at it.
    method Round(x: Id, ghost next: Option<Id>, id: Qid, p: Pull, tries: nat, ghost left: nat, free: nat -> bool,
                 n: nat, ghost s0: Cache, ghost active: set<Id>, ghost d: Deeds, ghost target: Way)
      returns (stop: bool, moveTo: Option<Lru>, removed: nat, ret: Option<Id>, ghost active': set<Id>, ghost d': Deeds)
      requires Walking(s0, id, p, Some(x), active, tries, free, d, target)
      requires tries == left + 1 && x in info && !info[x].crawler && next == NextUp(queues[id], x)
      requires n == |d.expired| + |d.rotated|
      modifies this
      ensures !stop ==> Walking(s0, id, p, next, active', left, free, d', target) == true
      ensures !stop ==> ret.None? && removed == |d'.expired| + |d'.rotated|
      ensures stop ==> Ended(s0, id, p, Some(x), moveTo, ret, d', target, removed) == true
    {
      ghost var s := St();
      RestFirst(queues[id], x);
      assert x in Rest(queues[id], Some(x));
      assert QueueOK(s, None, id);
      stop, moveTo, removed, ret, active', d' := false, None, n, None, active, d;
      var ok := Take(x, free(tries), s0);
      LooksSame(s0, s, St(), id, d);
      if ok {
        stop, moveTo, removed, ret, active', d' :=
          Examine(x, next, id, p, tries, left, free, n, s0, s, active, d, target);
      } else {
        WalkPast(s, St(), id, x, active, tries, left, free, s0.locks, p, d, target);
      }
    }

    // The rest of the round, once x is locked; s is the cache before that.
    method Examine(x: Id, ghost next: Option<Id>, id: Qid, p: Pull, ghost tries: nat, ghost left: nat,
                   ghost free: nat -> bool, n: nat, ghost s0: Cache, ghost s: Cache, ghost active: set<Id>,
                   ghost d: Deeds, ghost target: Way)
      returns (stop: bool, moveTo: Option<Lru>, removed: nat, ret: Option<Id>, ghost active': set<Id>, ghost d': Deeds)
      requires Good(St(), None) && Accounts(s0, St(), Some(x)) && id in queues && id.lru == p.cur && tries == left + 1
      requires Walks(s, id, Some(x), active, tries, free, s0.locks, p, d, target) && x in info && !info[x].crawler
      requires s.info == info && s.queues == queues && NoDup(s.queues[id]) && next == NextUp(s.queues[id], x)
      requires Others(s.items, items, x) && x in s.items && x in items && items[x].active == s.items[x].active
      requires x in active <==> s.items[x].active
      requires free(tries) && info[x].stripe !in s0.locks
      requires Looks(s0, St(), id, d) && Proper(s0, id, p, d) && n == |d.expired| + |d.rotated|
      modifies this
      ensures !stop ==> Walking(s0, id, p, next, active', left, free, d', target) == true
      ensures !stop ==> ret.None? && removed == |d'.expired| + |d'.rotated|
      ensures stop ==> Ended(s0, id, p, Some(x), moveTo, ret, d', target, removed) == true
    {
      ghost var t := St();
      IsTaken(x, id, p, s0, d);
      stop, moveTo, removed, ret := Inspect(x, p, s0, id, d);
      if stop {
        ghost var f := FateOf(p, info[x], t.items[x].active, t.bytes[id]);
        StopsHere(s, id, x, active, tries, free, s0.locks, p, d, target);
        EndsAt(x, id, p, s0, t, d, f, moveTo, ret, target, removed);
        d' := Begun(d, x, f);
      } else {
        OthersTrans(s.items, t.items, items, x);
        PassedOn(x, next, id, p, tries, left, free, s0, s, active, d, target);
        d' := Passed(d, x, info, p);
      }
      active' := if Expired(info[x], p) then active else active - {x};
      removed := n + removed;
    }

    lemma IsTaken(x: Id, id: Qid, p: Pull, s0: Cache, d: Deeds)
      requires Good(St(), None) && Accounts(s0, St(), Some(x)) && id in queues && x in queues[id]
      requires Looks(s0, St(), id, d) && Proper(s0, id, p, d) && id.lru == p.cur
      ensures Taken(s0, x, id, p, d)
    {
      InQueue(s0, St(), id, p, d, x);
    }

    // The walk ends at x; t is the cache when x was inspected.
    lemma EndsAt(x: Id, id: Qid, p: Pull, s0: Cache, t: Cache, d: Deeds, f: Fate, moveTo: Option<Lru>, ret: Option<Id>,
                 target: Way, n: nat)
      requires Stopping(s0, x, id, d, f, moveTo, n) && Looks(s0, t, id, d) && Proper(s0, id, p, d)
      requires x in t.items && x in t.info && id in t.bytes && x in s0.items && s0.items[x].linked
      requires f == FateOf(p, t.info[x], t.items[x].active, t.bytes[id]) && id.cls == t.info[x].cls
      requires target == Way(Some(x), d.expired, d.rotated, false)
      requires ret == if p.returnItem && p.cur.COLD? && !p.evict then Some(x) else None
      ensures Ended(s0, id, p, Some(x), moveTo, ret, Begun(d, x, f), target, |d.expired| + |d.rotated| + n)
    {
      FateKnown(s0, t, id, p, d, x);
      PausesHere(s0, St(), id, p, d, x, f, moveTo);
    }

    // x was taken out or put back at the head, and the walk goes on.
    lemma PassedOn(x: Id, next: Option<Id>, id: Qid, p: Pull, tries: nat, left: nat, free: nat -> bool, s0: Cache,
                   s: Cache, active: set<Id>, d: Deeds, target: Way)
      requires Good(St(), None) && Accounts(s0, St(), None) && id in queues && tries == left + 1
      requires Walks(s, id, Some(x), active, tries, free, s0.locks, p, d, target) && x in info && !info[x].crawler
      requires s.info == info && NoDup(s.queues[id]) && next == NextUp(s.queues[id], x)
      requires Others(s.items, items, x) && free(tries) && info[x].stripe !in s0.locks
      requires var w := Less(s.queues[id], x); queues[id] == if Expired(info[x], p) then w else [x] + w
      requires !Expired(info[x], p) ==> p.cur.WARM? && x in active && (x in items ==> !items[x].active)
      requires Looks(s0, St(), id, Passed(d, x, info, p)) && Proper(s0, id, p, d) && s0.info == info
      ensures Walking(s0, id, p, next, if Expired(info[x], p) then active else active - {x}, left, free,
                      Passed(d, x, info, p), target)
    {
      assert QueueOK(St(), None, id);
      ProperMore(s0, id, p, d, x);
      if Expired(info[x], p) {
        WalkExpired(s, St(), id, x, active, tries, left, free, s0.locks, p, d, target);
      } else {
        assert x in queues[id];
        WalkRotated(s, St(), id, x, active, tries, left, free, s0.locks, p, d, target);
      }
    }
  }

  lemma PausesHere(s0: Cache, s: Cache, id: Qid, p: Pull, d: Deeds, x: Id, f: Fate, moveTo: Option<Lru>)
    requires Looks(s0, s, id, Begun(d, x, f)) && Proper(s0, id, p, d) && id in s0.bytes
    requires x in s0.info && x in s0.items && s0.items[x].linked && s0.info[x].cls == id.cls
    requires forall y :: y in d.expired ==> y in s0.info
    requires f == FateAt(s0, id, p, Way(Some(x), d.expired, d.rotated, false))
    requires moveTo == if f.Moves? then Some(f.to) else None
    ensures Pausing(s0, s, id, p, Way(Some(x), d.expired, d.rotated, false), moveTo, Begun(d, x, f))
  {
  }

  lemma ProperMore(s0: Cache, id: Qid, p: Pull, d: Deeds, x: Id)
    requires Proper(s0, id, p, d) && x in s0.info
    ensures Proper(s0, id, p, AlsoExpired(d, x))
    ensures p.cur.WARM? && !Expired(s0.info[x], p) ==> Proper(s0, id, p, AlsoRotated(d, x))
  {
  }

  lemma OthersTrans(a: map<Id, Item>, b: map<Id, Item>, c: map<Id, Item>, x: Id)
    requires Others(a, b, x) && Others(b, c, x)
    ensures Others(a, c, x)
  {
  }

  // ---------- which item the pull stops at ----------

  // The settings and arguments that decide what happens to an item
  datatype Pull = Pull(cur: Lru, totalBytes: nat, evict: bool, crawlBlocks: bool, returnItem: bool, maxAge: nat,
                       now: nat, hotPct: nat, warmPct: nat, evictToFree: bool, segmented: bool)

  // The byte limit of a HOT or WARM queue
  function Limit(p: Pull): nat {
    var hot := if p.cur.HOT? then p.totalBytes * p.hotPct / 100 else 0;
    if hot == 0 then p.totalBytes * p.warmPct / 100 else hot
  }

  predicate Expired(i: Info, p: Pull) {
    (i.exptime != 0 && i.exptime < p.now) || i.flushed
  }

  /** The item the pull stops at, among the elements `up` from the tail upwards: the first that can be locked, has
      not expired and is not an active WARM item. Active WARM items get a second turn after all others. At most
      `tries` items are looked at, and free(k) says whether the lock can be had when k tries are left. */
  function FirstStop(info: map<Id, Info>, up: seq<Id>, active: set<Id>, tries: nat, free: nat -> bool, locks: set<nat>,
      p: Pull)
    : Option<Id>
    requires forall x :: x in up ==> x in info
  {
    WayOf(info, up, active, tries, free, locks, p).stop
  }

  /** How a pull ends: the item it stops at, the expired items it takes out and the active WARM items it moves to the
      head before that, each in the order of the walk, and whether a crawler blocks it. */
  datatype Way = Way(stop: Option<Id>, expired: seq<Id>, rotated: seq<Id>, blocked: bool)

  function WayOf(info: map<Id, Info>, up: seq<Id>, active: set<Id>, tries: nat, free: nat -> bool, locks: set<nat>,
      p: Pull)
    : (w: Way)
    requires forall x :: x in up ==> x in info
    ensures forall x :: x in w.expired ==> x in info
    ensures w.stop.Some? ==> w.stop.value in info
    decreases tries, |up|
  {
    if tries == 0 || up == [] then Way(None, [], [], false)
    else
      var x, rest := up[0], up[1..];
      if info[x].crawler then
        if p.crawlBlocks then Way(None, [], [], true) else WayOf(info, rest, active, tries, free, locks, p)
      else if !free(tries) || info[x].stripe in locks then WayOf(info, rest, active, tries - 1, free, locks, p)
      else if Expired(info[x], p) then
        var w := WayOf(info, rest, active, tries - 1, free, locks, p);
        w.(expired := [x] + w.expired)
      else if p.cur.WARM? && x in active then
        if rest == [] then Way(None, [], [x], false)
        else
          var w := WayOf(info, rest + [x], active - {x}, tries - 1, free, locks, p);
          w.(rotated := [x] + w.rotated)
      else Way(Some(x), [], [], false)
  }

  // The elements from position k of the queue up to its head
  function UpFrom(q: seq<Id>, k: int): seq<Id>
    requires -1 <= k < |q|
  {
    Reversed(q[..k + 1])
  }

  // What is left of the walk when `search` comes next
  function Rest(q: seq<Id>, search: Option<Id>): seq<Id>
    requires search.Some? ==> search.value in q
  {
    if search.None? then [] else UpFrom(q, Index(q, search.value))
  }

  ghost function Active(s: Cache): set<Id> {
    set x | x in s.items && s.items[x].active
  }

  ghost function WayFrom(s: Cache, id: Qid, p: Pull, free: nat -> bool, tries: nat): (w: Way)
    requires Good(s, None) && id in s.queues
    ensures forall x :: x in w.expired ==> x in s.info
    ensures w.stop.Some? ==> w.stop.value in s.info
  {
    assert QueueOK(s, None, id);
    WayOf(s.info, Reversed(s.queues[id]), Active(s), tries, free, s.locks, p)
  }

  ghost function StopsAt(s: Cache, id: Qid, p: Pull, free: nat -> bool, tries: nat): Option<Id>
    requires Good(s, None) && id in s.queues
  {
    WayFrom(s, id, p, free, tries).stop
  }

  /** The item lru_pull_tail stops at, if any */
  ghost function Stopped(s: Cache, cls: nat, p: Pull, free: nat -> bool): Option<Id>
    requires Good(s, None) && (cls > 0 ==> Qid(cls, p.cur) in s.queues)
  {
    if cls == 0 then None else StopsAt(s, Qid(cls, p.cur), p, free, TRIES)
  }

  lemma AccountsStart(s: Cache)
    requires Good(s, None)
    ensures Accounts(s, s, None)
  {
    forall y ensures Account(s, s, None, y) {
      if y in s.items { assert ItemOK(s, y); }
    }
  }

  // What a pull has done: the expired items taken out, the active WARM items put back at the head, and an item that is
  // on its way to another queue, or has got there
  datatype Deeds = Deeds(expired: seq<Id>, rotated: seq<Id>, moved: Option<Move>)
  datatype Move = Move(item: Id, to: Option<Lru>)

  const NONE := Deeds([], [], None)

  function AlsoExpired(d: Deeds, x: Id): Deeds {
    d.(expired := d.expired + [x])
  }

  function AlsoRotated(d: Deeds, x: Id): Deeds {
    d.(rotated := d.rotated + [x])
  }

  function Passed(d: Deeds, x: Id, info: map<Id, Info>, p: Pull): Deeds
    requires x in info
  {
    if Expired(info[x], p) then AlsoExpired(d, x) else AlsoRotated(d, x)
  }

  // The item x on its way to another queue
  function MovingOn(d: Deeds, x: Id): Deeds {
    d.(moved := Some(Move(x, None)))
  }

  function Arrived(d: Deeds, to: Option<Lru>): Deeds {
    if to.Some? && d.moved.Some? then d.(moved := Some(Move(d.moved.value.item, to))) else d
  }

  // What becomes of the item a pull stops at
  datatype Fate = Stays | Moves(to: Lru) | Evicted

  /** An active HOT item goes to WARM; a HOT or WARM item goes to COLD if its queue is over its limit or the item is too
      old; a COLD item is evicted or returned if that is asked for, and otherwise rescued to WARM if it is active. */
  function FateOf(p: Pull, i: Info, active: bool, bytes: int): Fate {
    var cools := bytes > Limit(p) || (p.now - i.time) % 0x1_0000_0000 > p.maxAge;
    match p.cur
    case HOT => if active then Moves(WARM) else if cools then Moves(COLD) else Stays
    case WARM => if cools then Moves(COLD) else Stays
    case COLD =>
      if p.evict then (if p.evictToFree then Evicted else Stays)
      else if active && p.segmented && !p.returnItem then Moves(WARM)
      else Stays
    case TEMP => Stays
  }

  // ... while it is being carried out
  function Begun(d: Deeds, x: Id, f: Fate): Deeds {
    match f
    case Stays => d
    case Moves(_) => MovingOn(d, x)
    case Evicted => AlsoExpired(d, x)
  }

  // The fate of the item a way ends at. The queue has its bytes, less those of the expired items.
  ghost function FateAt(s0: Cache, id: Qid, p: Pull, w: Way): Fate
    requires w.stop.Some? && w.stop.value in s0.info && id in s0.bytes && forall x :: x in w.expired ==> x in s0.info
  {
    var x := w.stop.value;
    FateOf(p, s0.info[x], x in Active(s0) && x !in w.rotated, s0.bytes[id] - Sum(s0.info, w.expired))
  }

  /** All that a pull has done when it took way w */
  ghost function DeedsOf(s0: Cache, id: Qid, p: Pull, w: Way): Deeds
    requires w.stop.Some? ==> w.stop.value in s0.info
    requires id in s0.bytes && forall x :: x in w.expired ==> x in s0.info
  {
    var d := Deeds(w.expired, w.rotated, None);
    if w.stop.None? then d
    else
      var x := w.stop.value;
      match FateAt(s0, id, p, w)
      case Stays => d
      case Moves(to) => d.(moved := Some(Move(x, Some(to))))
      case Evicted => AlsoExpired(d, x)
  }

  ghost function RemovedBy(s0: Cache, id: Qid, p: Pull, w: Way): nat
    requires w.stop.Some? ==> w.stop.value in s0.info
    requires id in s0.bytes && forall x :: x in w.expired ==> x in s0.info
  {
    if w.blocked then 0
    else
      |w.expired| + |w.rotated| + if w.stop.Some? && !FateAt(s0, id, p, w).Stays? then 1 else 0
  }

  // The walk has stopped and left the rest of the move, if any, to be done.
  ghost predicate Pausing(s0: Cache, s: Cache, id: Qid, p: Pull, w: Way, moveTo: Option<Lru>, d: Deeds)
    requires w.stop.Some? && w.stop.value in s0.info
    requires id in s0.bytes && forall x :: x in w.expired ==> x in s0.info
  {
    var x := w.stop.value;
    && Looks(s0, s, id, d) && Arrived(d, moveTo) == DeedsOf(s0, id, p, w)
    && x in s0.items && s0.items[x].linked && s0.info[x].cls == id.cls
    && if moveTo.Some? then d.moved == Some(Move(x, None)) && moveTo.value != id.lru else d.moved.None?
  }

  // ---------- what a cache looks like ----------

  ghost function Set(l: seq<Id>): set<Id> {
    set x | x in l
  }

  function Outside(q: seq<Id>, gone: set<Id>): seq<Id> {
    if q == [] then [] else if q[0] in gone then Outside(q[1..], gone) else [q[0]] + Outside(q[1..], gone)
  }

  // The queue after the deeds: what was rotated is at its head, the last one first.
  ghost function Turned(q: seq<Id>, d: Deeds): seq<Id> {
    var rest := Reversed(d.rotated) + Outside(q, Set(d.expired) + Set(d.rotated));
    if d.moved.None? then rest else Outside(rest, {d.moved.value.item})
  }

  // The queue to which an item was moved
  function Target(id: Qid, d: Deeds): Option<Qid> {
    if d.moved.Some? && d.moved.value.to.Some? then Some(Qid(id.cls, d.moved.value.to.value)) else None
  }

  ghost function QueuesAfter(queues: map<Qid, seq<Id>>, id: Qid, d: Deeds): map<Qid, seq<Id>>
    requires id in queues && (Target(id, d).Some? ==> Target(id, d).value in queues)
  {
    var t, turned := Target(id, d), queues[id := Turned(queues[id], d)];
    if t.None? then turned else turned[t.value := [d.moved.value.item] + queues[t.value]]
  }

  // Item y after the deeds: the expired ones are no longer linked, rotated and moved ones no longer active.
  ghost predicate Flagged(s0: Cache, s: Cache, d: Deeds, y: Id) {
    var moved := d.moved.Some? && d.moved.value.item == y;
    && (y in s.items ==>
          && y in s0.items
          && s.items[y].linked == (s0.items[y].linked && y !in d.expired)
          && s.items[y].active == (s0.items[y].active && y !in d.rotated && !moved)
          && s.items[y].lru == (if moved && d.moved.value.to.Some? then d.moved.value.to.value else s0.items[y].lru))
    && (y in s0.items && y !in d.expired ==> y in s.items)
  }

  /** Cache s is s0 after the deeds, as to table, queues, links and flags. */
  ghost predicate Looks(s0: Cache, s: Cache, id: Qid, d: Deeds) {
    && s.info == s0.info && id in s0.queues && (Target(id, d).Some? ==> Target(id, d).value in s0.queues)
    && s.queues == QueuesAfter(s0.queues, id, d) && s.table == s0.table - Set(d.expired)
    && (forall y {:trigger Flagged(s0, s, d, y)} :: Flagged(s0, s, d, y))
    && BytesLeft(s0, s, id, d)
  }

  ghost predicate BytesLeft(s0: Cache, s: Cache, id: Qid, d: Deeds) {
    && id in s0.bytes && id in s.bytes && (forall x :: x in d.expired ==> x in s0.info)
    && (d.moved.None? ==> s.bytes[id] + Sum(s0.info, d.expired) == s0.bytes[id])
  }

  // During the walk nothing is on the move, and only WARM items that have not expired are rotated.
  ghost predicate Proper(s0: Cache, id: Qid, p: Pull, d: Deeds) {
    && d.moved.None? && id in s0.queues && NoDup(s0.queues[id]) && id.lru == p.cur
    && (!p.cur.WARM? ==> d.rotated == [])
    && (forall x :: x in d.rotated ==> x in s0.info && !Expired(s0.info[x], p))
    && (forall x :: x in s0.queues[id] ==>
          x in s0.info && x in s0.items && (s0.info[x].crawler || (s0.items[x].linked && Home(s0, x) == id)))
  }

  lemma LooksStart(s: Cache, id: Qid)
    requires Good(s, None) && id in s.queues
    ensures Looks(s, s, id, NONE) && forall p: Pull :: p.cur == id.lru ==> Proper(s, id, p, NONE)
  {
    assert QueueOK(s, None, id);
    OutsideNone(s.queues[id]);
    assert Set([]) + Set([]) == {} && Reversed<Id>([]) == [];
    assert Turned(s.queues[id], NONE) == s.queues[id];
    assert s.table - Set([]) == s.table;
    assert Sum(s.info, []) == 0;
    forall y ensures Flagged(s, s, NONE, y) {
    }
  }

  lemma {:induction false} OutsideNone(q: seq<Id>)
    ensures Outside(q, {}) == q
  {
    if q != [] { OutsideNone(q[1..]); }
  }

  // Changes of references only
  lemma LooksSame(s0: Cache, s: Cache, t: Cache, id: Qid, d: Deeds)
    requires Looks(s0, s, id, d) && t.info == s.info && t.queues == s.queues && t.table == s.table && t.bytes == s.bytes
    requires t.items.Keys == s.items.Keys
    requires forall y :: y in t.items ==> t.items[y] == s.items[y].(refs := t.items[y].refs)
    ensures Looks(s0, t, id, d)
  {
    forall y ensures Flagged(s0, t, d, y) {
      assert Flagged(s0, s, d, y);
    }
  }

  lemma LooksLetGo(s0: Cache, s: Cache, t: Cache, id: Qid, d: Deeds, x: Id)
    requires Looks(s0, s, id, d) && t.info == s.info && t.queues == s.queues && t.table == s.table && t.bytes == s.bytes
    requires x in s.items && t.items == Dereferenced(s.items, x) && (s.items[x].refs <= 1 ==> x in d.expired)
    ensures Looks(s0, t, id, d)
  {
    forall y ensures Flagged(s0, t, d, y) {
      assert Flagged(s0, s, d, y);
    }
  }

  // The last reference is to an item that is no longer linked.
  lemma LastReference(s0: Cache, s: Cache, x: Id)
    requires Good(s, None) && Accounts(s0, s, Some(x))
    ensures x in s.items && (s.items[x].refs <= 1 ==> !s.items[x].linked)
  {
    assert ItemOK(s, x) && Account(s0, s, Some(x), x);
  }

  lemma QueueFacts(s0: Cache, s: Cache, id: Qid, d: Deeds, x: Id)
    requires Good(s, None) && x in s.items && x in s.info && !s.info[x].crawler && s.items[x].linked
    requires id == Home(s, x) && Looks(s0, s, id, d)
    ensures id in s.queues && x in s.queues[id] && NoDup(s.queues[id]) && id in s.bytes
    ensures x in s0.items && x !in d.expired && (x in d.rotated ==> !s.items[x].active)
  {
    Facts(s, None, x);
    assert Flagged(s0, s, d, x);
  }

  lemma {:induction false} OutsideMore(q: seq<Id>, gone: set<Id>, more: set<Id>)
    ensures Outside(Outside(q, gone), more) == Outside(q, gone + more)
  {
    if q != [] {
      OutsideMore(q[1..], gone, more);
      if q[0] !in gone { assert ([q[0]] + Outside(q[1..], gone))[1..] == Outside(q[1..], gone); }
    }
  }

  lemma {:induction false} LessOutside(q: seq<Id>, x: Id)
    requires NoDup(q) && x in q
    ensures Less(q, x) == Outside(q, {x})
  {
    if q[0] == x {
      OutsideAll(q[1..], x);
      assert Less(q, x) == q[1..];
    } else {
      LessOutside(q[1..], x);
      assert Less(q, x) == [q[0]] + Less(q[1..], x);
    }
  }

  lemma {:induction false} OutsideAll(q: seq<Id>, x: Id)
    requires x !in q
    ensures Outside(q, {x}) == q
  {
    if q != [] { OutsideAll(q[1..], x); }
  }

  lemma {:induction false} OutsideAppend(a: seq<Id>, b: seq<Id>, gone: set<Id>)
    ensures Outside(a + b, gone) == Outside(a, gone) + Outside(b, gone)
  {
    if a == [] {
      assert a + b == b;
    } else {
      assert (a + b)[1..] == a[1..] + b;
      OutsideAppend(a[1..], b, gone);
    }
  }

  lemma TurnedOutside(q: seq<Id>, d: Deeds, x: Id)
    requires d.moved.None? && x !in d.rotated
    ensures
      Outside(Turned(q, d), {x}) == Reversed(d.rotated) + Outside(q, Set(d.expired) + Set(d.rotated) + {x})
  {
    var gone, front := Set(d.expired) + Set(d.rotated), Reversed(d.rotated);
    OutsideAppend(front, Outside(q, gone), {x});
    OutsideAll(front, x);
    OutsideMore(q, gone, {x});
  }

  lemma SetMore(l: seq<Id>, x: Id)
    ensures Set(l + [x]) == Set(l) + {x}
  {
  }

  // An item that was not rotated leaves the queue, or goes to its head.
  lemma TurnedLess(q: seq<Id>, d: Deeds, x: Id)
    requires NoDup(Turned(q, d)) && d.moved.None? && x in Turned(q, d) && x !in d.rotated
    ensures Less(Turned(q, d), x) == Turned(q, AlsoExpired(d, x))
    ensures [x] + Less(Turned(q, d), x) == Turned(q, AlsoRotated(d, x))
  {
    var gone := Set(d.expired) + Set(d.rotated) + {x};
    LessOutside(Turned(q, d), x);
    TurnedOutside(q, d, x);
    GoneMore(d, x);
    ReversedLast(d.rotated, x);
    Regroup(x, Reversed(d.rotated), Outside(q, gone));
  }

  lemma GoneMore(d: Deeds, x: Id)
    ensures var gone := Set(d.expired) + Set(d.rotated) + {x};
      Set(d.expired + [x]) + Set(d.rotated) == gone && Set(d.expired) + Set(d.rotated + [x]) == gone
  {
    SetMore(d.expired, x);
    SetMore(d.rotated, x);
  }

  lemma Regroup(x: Id, a: seq<Id>, b: seq<Id>)
    ensures [x] + (a + b) == ([x] + a) + b
  {
  }

  lemma {:induction false} SumLast(info: map<Id, Info>, l: seq<Id>, x: Id)
    requires x in info && forall y :: y in l ==> y in info
    ensures forall y :: y in l + [x] ==> y in info
    ensures Sum(info, l + [x]) == Sum(info, l) + if info[x].crawler then 0 else info[x].bytes
  {
    if l == [] {
      assert l + [x] == [x] && [x][1..] == [];
    } else {
      assert (l + [x])[1..] == l[1..] + [x];
      SumLast(info, l[1..], x);
    }
  }

  lemma QueuesExpired(queues: map<Qid, seq<Id>>, id: Qid, d: Deeds, x: Id)
    requires id in queues && d.moved.None? && NoDup(Turned(queues[id], d)) && x in Turned(queues[id], d)
    requires x !in d.rotated
    ensures QueuesAfter(queues, id, d)[id := Less(Turned(queues[id], d), x)]
              == QueuesAfter(queues, id, AlsoExpired(d, x))
  {
    TurnedLess(queues[id], d, x);
  }

  lemma QueuesRotated(queues: map<Qid, seq<Id>>, id: Qid, d: Deeds, x: Id)
    requires id in queues && d.moved.None? && NoDup(Turned(queues[id], d)) && x in Turned(queues[id], d)
    requires x !in d.rotated
    ensures QueuesAfter(queues, id, d)[id := [x] + Less(Turned(queues[id], d), x)]
              == QueuesAfter(queues, id, AlsoRotated(d, x))
  {
    TurnedLess(queues[id], d, x);
  }

  lemma FlaggedExpired(s0: Cache, s: Cache, t: Cache, d: Deeds, x: Id, y: Id)
    requires Flagged(s0, s, d, y) && x in s.items && x in t.items && x !in d.rotated && d.moved.None?
    requires t.items == s.items[x := s.items[x].(linked := false, refs := t.items[x].refs)]
    ensures Flagged(s0, t, AlsoExpired(d, x), y)
  {
    assert y in d.expired + [x] <==> y in d.expired || y == x;
  }

  lemma FlaggedRotated(s0: Cache, s: Cache, t: Cache, d: Deeds, x: Id, y: Id)
    requires Flagged(s0, s, d, y) && x in s.items && s.items[x].refs > 1 && d.moved.None?
    requires t.items == Dereferenced(s.items[x := s.items[x].(active := false)], x)
    ensures Flagged(s0, t, AlsoRotated(d, x), y)
  {
    assert y in d.rotated + [x] <==> y in d.rotated || y == x;
  }

  lemma LooksExpired(s0: Cache, s: Cache, t: Cache, id: Qid, d: Deeds, x: Id)
    requires Looks(s0, s, id, d) && d.moved.None? && NoDup(s0.queues[id]) && NoDup(s.queues[id])
    requires x in s.items && x in s.info && !s.info[x].crawler && x in s.queues[id] && x !in d.rotated
    requires t.info == s.info && t.queues == s.queues[id := Less(s.queues[id], x)] && t.table == s.table - {x}
    requires x in t.items && t.items == s.items[x := s.items[x].(linked := false, refs := t.items[x].refs)]
    requires id in s.bytes && t.bytes == s.bytes[id := s.bytes[id] - s.info[x].bytes]
    ensures Looks(s0, t, id, AlsoExpired(d, x))
  {
    var e := AlsoExpired(d, x);
    QueuesExpired(s0.queues, id, d, x);
    SumLast(s0.info, d.expired, x);
    SetMore(d.expired, x);
    assert s.table - {x} == s0.table - Set(e.expired);
    forall y ensures Flagged(s0, t, e, y) {
      assert Flagged(s0, s, d, y);
      FlaggedExpired(s0, s, t, d, x, y);
    }
  }

  lemma LooksRotated(s0: Cache, s: Cache, t: Cache, id: Qid, d: Deeds, x: Id)
    requires Looks(s0, s, id, d) && d.moved.None? && NoDup(s0.queues[id]) && NoDup(s.queues[id])
    requires x in s.items && s.items[x].refs > 1 && x in s.queues[id] && x !in d.rotated
    requires t.info == s.info && t.queues == s.queues[id := [x] + Less(s.queues[id], x)] && t.table == s.table
    requires t.items == Dereferenced(s.items[x := s.items[x].(active := false)], x)
    requires id in s.bytes && id in t.bytes && t.bytes[id] == s.bytes[id]
    ensures Looks(s0, t, id, AlsoRotated(d, x))
  {
    var e := AlsoRotated(d, x);
    QueuesRotated(s0.queues, id, d, x);
    forall y ensures Flagged(s0, t, e, y) {
      assert Flagged(s0, s, d, y);
      FlaggedRotated(s0, s, t, d, x, y);
    }
  }

  lemma LooksMoving(s0: Cache, s: Cache, t: Cache, id: Qid, d: Deeds, x: Id)
    requires Looks(s0, s, id, d) && d.moved.None? && NoDup(s.queues[id]) && x in s.items && x in s.queues[id]
    requires t.info == s.info && t.queues == s.queues[id := Less(s.queues[id], x)] && t.table == s.table
    requires t.items == s.items[x := s.items[x].(active := false)] && id in t.bytes
    ensures Looks(s0, t, id, MovingOn(d, x))
  {
    LessOutside(s.queues[id], x);
    forall y ensures Flagged(s0, t, MovingOn(d, x), y) {
      assert Flagged(s0, s, d, y);
    }
  }

  lemma LooksArrived(s0: Cache, s: Cache, t: Cache, id: Qid, d: Deeds, x: Id, to: Lru)
    requires Looks(s0, s, id, d) && d.moved == Some(Move(x, None)) && x in s.items && to != id.lru
    requires var q := Qid(id.cls, to); q in s.queues && t.queues == s.queues[q := [x] + s.queues[q]]
    requires t.info == s.info && t.table == s.table && t.items == s.items[x := s.items[x].(lru := to)] && id in t.bytes
    ensures Looks(s0, t, id, Arrived(d, Some(to)))
  {
    forall y ensures Flagged(s0, t, Arrived(d, Some(to)), y) {
      assert Flagged(s0, s, d, y);
    }
  }

  // An item the walk has taken is in its queue, and was so from the start.
  lemma InQueue(s0: Cache, s: Cache, id: Qid, p: Pull, d: Deeds, x: Id)
    requires Good(s, None) && Looks(s0, s, id, d) && Proper(s0, id, p, d)
    requires id in s.queues && x in s.queues[id] && x in s.info && !s.info[x].crawler
    ensures x in s.items && s.items[x].linked && Home(s, x) == id && id in s.bytes
    ensures x in s0.items && s0.items[x].linked && (Expired(s.info[x], p) ==> x !in d.rotated)
  {
    assert QueueOK(s, None, id);
    assert Flagged(s0, s, d, x);
  }

  // The fate decided at inspection is the one that is foreseen.
  lemma FateKnown(s0: Cache, s: Cache, id: Qid, p: Pull, d: Deeds, x: Id)
    requires Looks(s0, s, id, d) && Proper(s0, id, p, d) && x in s.items && x in s.info && id in s.bytes
    ensures id in s0.bytes && x in s0.info && x in s0.items && forall y :: y in d.expired ==> y in s0.info
    ensures FateOf(p, s.info[x], s.items[x].active, s.bytes[id]) ==
            FateAt(s0, id, p, Way(Some(x), d.expired, d.rotated, false))
  {
    assert Flagged(s0, s, d, x);
  }

  // The walk is at `search`, has done d so far and takes the way `target` as a whole.
  ghost predicate Walks(s: Cache, id: Qid, search: Option<Id>, active: set<Id>, tries: nat, free: nat -> bool,
                        locks: set<nat>, p: Pull, d: Deeds, target: Way)
  {
    && id in s.queues && (search.Some? ==> search.value in s.queues[id] && search.value in s.info)
    && var rest := Rest(s.queues[id], search);
    && Lists(s, rest, active)
    && target == Whole(d, WayOf(s.info, rest, active, tries, free, locks, p))
  }

  ghost predicate Lists(s: Cache, rest: seq<Id>, active: set<Id>) {
    forall x :: x in rest ==> x in s.items && x in s.info && (x in active <==> s.items[x].active)
  }

  lemma StartsAtTail(s: Cache, id: Qid, search: Option<Id>, tries: nat, free: nat -> bool, p: Pull)
    requires Good(s, None) && id in s.queues
    requires search == if s.queues[id] == [] then None else Some(s.queues[id][|s.queues[id]| - 1])
    ensures Walks(s, id, search, Active(s), tries, free, s.locks, p, NONE, WayFrom(s, id, p, free, tries))
  {
    assert QueueOK(s, None, id);
    var q, w := s.queues[id], WayFrom(s, id, p, free, tries);
    if q != [] {
      IndexIs(q, |q| - 1);
      assert q[..|q|] == q;
      assert Reversed(q)[0] == q[|q| - 1];
    }
    assert forall x :: x in Reversed(q) ==> x in q;
    assert Whole(NONE, w) == w;
    WalksAre(s, id, search, Reversed(q), Active(s), tries, free, s.locks, p, NONE, w);
  }

  function Whole(d: Deeds, w: Way): Way {
    w.(expired := d.expired + w.expired, rotated := d.rotated + w.rotated)
  }

  lemma WholeMore(d: Deeds, x: Id, w: Way)
    ensures Whole(d, w.(expired := [x] + w.expired)) == Whole(AlsoExpired(d, x), w)
    ensures Whole(d, w.(rotated := [x] + w.rotated)) == Whole(AlsoRotated(d, x), w)
  {
    assert d.expired + ([x] + w.expired) == (d.expired + [x]) + w.expired;
    assert d.rotated + ([x] + w.rotated) == (d.rotated + [x]) + w.rotated;
  }

  // What the reference says about the first element x of the list
  lemma NextWay(info: map<Id, Info>, x: Id, rest: seq<Id>, active: set<Id>, tries: nat, free: nat -> bool,
                locks: set<nat>, p: Pull)
    requires x in info && (forall y :: y in rest ==> y in info) && tries > 0
    ensures var w := WayOf(info, [x] + rest, active, tries, free, locks, p);
      if info[x].crawler then
        w == if p.crawlBlocks then Way(None, [], [], true) else WayOf(info, rest, active, tries, free, locks, p)
      else
        var n := WayOf(info, rest, active, tries - 1, free, locks, p);
        if !free(tries) || info[x].stripe in locks then w == n
        else if Expired(info[x], p) then w == n.(expired := [x] + n.expired)
        else if !(p.cur.WARM? && x in active) then w == Way(Some(x), [], [], false)
        else if rest == [] then w == Way(None, [], [x], false)
        else
          var m := WayOf(info, rest + [x], active - {x}, tries - 1, free, locks, p);
          w == m.(rotated := [x] + m.rotated)
  {
    assert ([x] + rest)[1..] == rest;
  }

  lemma NextStop(info: map<Id, Info>, x: Id, rest: seq<Id>, active: set<Id>, tries: nat, free: nat -> bool,
                 locks: set<nat>, p: Pull)
    requires x in info && (forall y :: y in rest ==> y in info) && tries > 0
    ensures var ok := free(tries) && info[x].stripe !in locks;
      FirstStop(info, [x] + rest, active, tries, free, locks, p) ==
      if info[x].crawler then (if p.crawlBlocks then None else FirstStop(info, rest, active, tries, free, locks, p))
      else if !ok || Expired(info[x], p) then FirstStop(info, rest, active, tries - 1, free, locks, p)
      else if !(p.cur.WARM? && x in active) then Some(x)
      else if rest == [] then None
      else FirstStop(info, rest + [x], active - {x}, tries - 1, free, locks, p)
  {
    NextWay(info, x, rest, active, tries, free, locks, p);
  }

  function NextUp(q: seq<Id>, x: Id): Option<Id>
    requires x in q
  {
    if Index(q, x) > 0 then Some(q[Index(q, x) - 1]) else None
  }

  // How many elements of the queue are to come
  function Left(q: seq<Id>, search: Option<Id>): nat {
    if search.Some? && search.value in q then Index(q, search.value) + 1 else 0
  }

  // The walk moves on from x, which stays in the queue.
  lemma WalkPast(s: Cache, t: Cache, id: Qid, x: Id, active: set<Id>, tries: nat, tries': nat, free: nat -> bool,
                 locks: set<nat>, p: Pull, d: Deeds, target: Way)
    requires Walks(s, id, Some(x), active, tries, free, locks, p, d, target) && tries > 0 && NoDup(s.queues[id])
    requires t.info == s.info && t.queues == s.queues && Others(s.items, t.items, x)
    requires if s.info[x].crawler then tries' == tries && !p.crawlBlocks
             else tries' == tries - 1 && !(free(tries) && s.info[x].stripe !in locks)
    ensures Walks(t, id, NextUp(s.queues[id], x), active, tries', free, locks, p, d, target)
  {
    var q, up := s.queues[id], UpFrom(s.queues[id], Index(s.queues[id], x) - 1);
    RestFirst(q, x);
    if Index(q, x) > 0 { RestSame(q, x); }
    ListsTail(s, t, q, x, up, active);
    NextWay(s.info, x, up, active, tries, free, locks, p);
  }

  // ... which has expired and is taken out.
  lemma WalkExpired(s: Cache, t: Cache, id: Qid, x: Id, active: set<Id>, tries: nat, left: nat,
                    free: nat -> bool, locks: set<nat>, p: Pull, d: Deeds, target: Way)
    requires Walks(s, id, Some(x), active, tries, free, locks, p, d, target) && tries == left + 1
    requires NoDup(s.queues[id]) && t.info == s.info && id in t.queues && t.queues[id] == Less(s.queues[id], x)
    requires Others(s.items, t.items, x)
    requires !s.info[x].crawler && free(tries) && s.info[x].stripe !in locks && Expired(s.info[x], p)
    ensures Walks(t, id, NextUp(s.queues[id], x), active, left, free, locks, p, AlsoExpired(d, x), target)
  {
    var q, up := s.queues[id], UpFrom(s.queues[id], Index(s.queues[id], x) - 1);
    RestFirst(q, x);
    RestTaken(q, x);
    ListsTail(s, t, q, x, up, active);
    WayExpired(s.info, x, up, active, tries, left, free, locks, p);
    WholeMore(d, x, WayOf(s.info, up, active, left, free, locks, p));
    WalksAre(t, id, NextUp(q, x), up, active, left, free, locks, p, AlsoExpired(d, x), target);
  }

  // ... which goes to the head of the queue.
  lemma WalkRotated(s: Cache, t: Cache, id: Qid, x: Id, active: set<Id>, tries: nat, left: nat,
                    free: nat -> bool, locks: set<nat>, p: Pull, d: Deeds, target: Way)
    requires Walks(s, id, Some(x), active, tries, free, locks, p, d, target) && tries == left + 1
    requires NoDup(s.queues[id]) && t.info == s.info && id in t.queues
    requires t.queues[id] == [x] + Less(s.queues[id], x)
    requires Others(s.items, t.items, x) && x in t.items && !t.items[x].active
    requires !s.info[x].crawler && free(tries) && s.info[x].stripe !in locks && !Expired(s.info[x], p)
    requires p.cur.WARM? && x in active
    ensures Walks(t, id, NextUp(s.queues[id], x), active - {x}, left, free, locks, p, AlsoRotated(d, x), target)
  {
    var q, up := s.queues[id], UpFrom(s.queues[id], Index(s.queues[id], x) - 1);
    RestFirst(q, x);
    ListsTail(s, t, q, x, up, active);
    var rest := if up == [] then [] else up + [x];
    WayRotated(s.info, x, up, rest, active, tries, left, free, locks, p);
    RestRotated(q, x);
    ListsMore(t, up, x, active);
    WholeMore(d, x, WayOf(s.info, rest, active - {x}, left, free, locks, p));
    WalksAre(t, id, NextUp(q, x), rest, active - {x}, left, free, locks, p, AlsoRotated(d, x), target);
  }

  lemma WayExpired(info: map<Id, Info>, x: Id, up: seq<Id>, active: set<Id>, tries: nat, left: nat,
                   free: nat -> bool, locks: set<nat>, p: Pull)
    requires x in info && (forall y :: y in up ==> y in info) && tries == left + 1
    requires !info[x].crawler && free(tries) && info[x].stripe !in locks && Expired(info[x], p)
    ensures var w := WayOf(info, up, active, left, free, locks, p);
      WayOf(info, [x] + up, active, tries, free, locks, p) == w.(expired := [x] + w.expired)
  {
    NextWay(info, x, up, active, tries, free, locks, p);
  }

  lemma WayRotated(info: map<Id, Info>, x: Id, up: seq<Id>, rest: seq<Id>, active: set<Id>, tries: nat, left: nat,
                   free: nat -> bool, locks: set<nat>, p: Pull)
    requires x in info && (forall y :: y in up ==> y in info) && tries == left + 1
    requires !info[x].crawler && free(tries) && info[x].stripe !in locks && !Expired(info[x], p)
    requires p.cur.WARM? && x in active && rest == if up == [] then [] else up + [x]
    ensures forall y :: y in rest ==> y in info
    ensures var w := WayOf(info, rest, active - {x}, left, free, locks, p);
      WayOf(info, [x] + up, active, tries, free, locks, p) == w.(rotated := [x] + w.rotated)
  {
    NextWay(info, x, up, active, tries, free, locks, p);
    assert [x] + [] == [x];
  }

  lemma WalksAre(t: Cache, id: Qid, search: Option<Id>, rest: seq<Id>, active: set<Id>, tries: nat,
                 free: nat -> bool, locks: set<nat>, p: Pull, d: Deeds, target: Way)
    requires id in t.queues && (search.Some? ==> search.value in t.queues[id])
    requires rest == Rest(t.queues[id], search) && Lists(t, rest, active) && (search.Some? ==> search.value in rest)
    requires (forall x :: x in rest ==> x in t.info)
      && target == Whole(d, WayOf(t.info, rest, active, tries, free, locks, p))
    ensures Walks(t, id, search, active, tries, free, locks, p, d, target)
  {
  }

  lemma ListsMore(t: Cache, up: seq<Id>, x: Id, active: set<Id>)
    requires Lists(t, up, active) && x !in up && x in t.items && x in t.info && !t.items[x].active
    ensures Lists(t, up + [x], active - {x})
  {
    assert forall y :: y in up + [x] ==> y in up || y == x;
  }

  lemma StopsHere(s: Cache, id: Qid, x: Id, active: set<Id>, tries: nat, free: nat -> bool, locks: set<nat>, p: Pull,
                  d: Deeds, target: Way)
    requires Walks(s, id, Some(x), active, tries, free, locks, p, d, target) && tries > 0 && NoDup(s.queues[id])
    requires x in s.info && !s.info[x].crawler && free(tries) && s.info[x].stripe !in locks && !Expired(s.info[x], p)
    requires !(p.cur.WARM? && x in active)
    ensures target == Way(Some(x), d.expired, d.rotated, false)
  {
    RestFirst(s.queues[id], x);
    ListsTail(s, s, s.queues[id], x, UpFrom(s.queues[id], Index(s.queues[id], x) - 1), active);
    NextWay(s.info, x, UpFrom(s.queues[id], Index(s.queues[id], x) - 1), active, tries, free, locks, p);
  }

  lemma WalkEnds(s: Cache, id: Qid, search: Option<Id>, active: set<Id>, tries: nat, free: nat -> bool,
                 locks: set<nat>, p: Pull, d: Deeds, target: Way)
    requires Walks(s, id, search, active, tries, free, locks, p, d, target) && (tries == 0 || search.None?)
    ensures target == Way(None, d.expired, d.rotated, false)
  {
  }

  lemma CrawlerBlocks(s: Cache, id: Qid, x: Id, active: set<Id>, tries: nat, free: nat -> bool, locks: set<nat>,
                      p: Pull, d: Deeds, target: Way)
    requires Walks(s, id, Some(x), active, tries, free, locks, p, d, target) && tries > 0 && NoDup(s.queues[id])
    requires x in s.info && s.info[x].crawler && p.crawlBlocks
    ensures target == Way(None, d.expired, d.rotated, true)
  {
    var up := UpFrom(s.queues[id], Index(s.queues[id], x) - 1);
    RestFirst(s.queues[id], x);
    ListsInfo(s, x, up, active);
    NextWay(s.info, x, up, active, tries, free, locks, p);
  }

  lemma ListsTail(s: Cache, t: Cache, q: seq<Id>, x: Id, up: seq<Id>, active: set<Id>)
    requires Lists(s, [x] + up, active) && Others(s.items, t.items, x) && t.info == s.info
    requires NoDup(q) && x in q && up == UpFrom(q, Index(q, x) - 1)
    ensures x in s.info && x !in up && Lists(t, up, active) && (forall y :: y in up ==> y in s.info)
  {
    NotAbove(q, x);
    assert x in [x] + up;
    forall y | y in up ensures y in s.info && y in t.items && (y in active <==> t.items[y].active) {
      assert y != x && y in [x] + up;
    }
  }

  lemma ListsInfo(s: Cache, x: Id, up: seq<Id>, active: set<Id>)
    requires Lists(s, [x] + up, active)
    ensures x in s.info && forall y :: y in up ==> y in s.info
  {
    assert x in [x] + up;
    forall y | y in up ensures y in s.info {
      assert y in [x] + up;
    }
  }

  lemma NotAbove(q: seq<Id>, x: Id)
    requires NoDup(q) && x in q
    ensures x !in UpFrom(q, Index(q, x) - 1)
  {
    var k := Index(q, x);
    var up := UpFrom(q, k - 1);
    forall i | 0 <= i < |up| ensures up[i] != x {
      assert up[i] == q[..k][k - 1 - i] == q[k - 1 - i] && q[k] == x;
    }
  }

  lemma RestFirst(q: seq<Id>, x: Id)
    requires x in q
    ensures Rest(q, Some(x)) == [x] + UpFrom(q, Index(q, x) - 1)
  {
    var k := Index(q, x);
    ReversedLast(q[..k], x);
    assert q[..k + 1] == q[..k] + [x];
  }

  lemma ReversedLast(q: seq<Id>, x: Id)
    ensures Reversed(q + [x]) == [x] + Reversed(q)
  {
  }

  lemma RestSame(q: seq<Id>, x: Id)
    requires NoDup(q) && x in q && Index(q, x) > 0
    ensures Rest(q, Some(q[Index(q, x) - 1])) == UpFrom(q, Index(q, x) - 1)
  {
    IndexIs(q, Index(q, x) - 1);
  }

  lemma RestTaken(q: seq<Id>, x: Id)
    requires NoDup(q) && x in q
    ensures var w, up, next := Less(q, x), UpFrom(q, Index(q, x) - 1), NextUp(q, x);
      && (next.Some? ==> next.value in w && next.value in up) && Rest(w, next) == up
  {
    var k, w := Index(q, x), Less(q, x);
    LessFacts(q, x);
    if k > 0 {
      assert w[k - 1] == q[k - 1];
      IndexIs(w, k - 1);
      assert w[..k] == q[..k];
      assert UpFrom(q, k - 1)[0] == q[k - 1];
    }
  }

  lemma RestRotated(q: seq<Id>, x: Id)
    requires NoDup(q) && x in q
    ensures var r, up, next := [x] + Less(q, x), UpFrom(q, Index(q, x) - 1), NextUp(q, x);
      var rest := if up == [] then [] else up + [x];
      (next.Some? ==> next.value in r && next.value in rest) && Rest(r, next) == rest
  {
    var k, w := Index(q, x), Less(q, x);
    if k > 0 {
      LessFacts(q, x);
      HeadApart(x, w);
      assert ([x] + w)[k] == q[k - 1];
      IndexIs([x] + w, k);
      assert ([x] + w)[..k + 1] == [x] + q[..k];
      assert UpFrom([x] + w, k) == UpFrom(q, k - 1) + [x];
      assert (UpFrom(q, k - 1) + [x])[0] == q[k - 1];
    }
  }

  lemma HeadApart(x: Id, w: seq<Id>)
    requires NoDup(w) && x !in w
    ensures NoDup([x] + w)
  {
  }

  lemma IndexIs(q: seq<Id>, k: nat)
    requires NoDup(q) && k < |q|
    ensures Index(q, q[k]) == k
  {
  }

  // ---------- which item a pull stops at ----------

  // With the tries that the items behind have left, the item at place k of the queue can be locked.
  predicate Lockable(info: map<Id, Info>, q: seq<Id>, k: nat, tries: nat, free: nat -> bool, locks: set<nat>)
    requires forall x :: x in q ==> x in info
  {
    k < |q| && !info[q[k]].crawler && info[q[k]].stripe !in locks
    && var used := Count(info, q[k + 1..]); used < tries && free(tries - used)
  }

  /** The pull may stop at place k of the queue: the item there can be locked, has not expired and is not an active WARM
      item. */
  predicate MayStop(info: map<Id, Info>, q: seq<Id>, active: set<Id>, k: nat, tries: nat, free: nat -> bool,
                    locks: set<nat>, p: Pull)
    requires forall x :: x in q ==> x in info
  {
    Lockable(info, q, k, tries, free, locks) && !Expired(info[q[k]], p) && !(p.cur.WARM? && q[k] in active)
  }

  // The pull cannot get past place k.
  predicate Blocks(info: map<Id, Info>, q: seq<Id>, k: nat, p: Pull) {
    k < |q| && q[k] in info && info[q[k]].crawler && p.crawlBlocks
  }

  // Nothing behind place k ends the pull.
  ghost predicate Reached(info: map<Id, Info>, q: seq<Id>, active: set<Id>, k: nat, tries: nat, free: nat -> bool,
                          locks: set<nat>, p: Pull)
    requires forall x :: x in q ==> x in info
  {
    forall j: nat :: k < j < |q| ==> !MayStop(info, q, active, j, tries, free, locks, p) && !Blocks(info, q, j, p)
  }

  // k is the place nearest the tail where the pull may stop, and no crawler behind it blocks the way.
  ghost predicate StopsFirst(info: map<Id, Info>, q: seq<Id>, active: set<Id>, k: nat, tries: nat, free: nat -> bool,
                             locks: set<nat>, p: Pull)
    requires forall x :: x in q ==> x in info
  {
    MayStop(info, q, active, k, tries, free, locks, p) && Reached(info, q, active, k, tries, free, locks, p)
  }

  // The pull comes to place k, locks the item there and finds that it has expired.
  ghost predicate ReclaimsAt(info: map<Id, Info>, q: seq<Id>, active: set<Id>, k: nat, tries: nat, free: nat -> bool,
                             locks: set<nat>, p: Pull)
    requires forall x :: x in q ==> x in info
  {
    && Lockable(info, q, k, tries, free, locks) && Expired(info[q[k]], p)
    && Reached(info, q, active, k, tries, free, locks, p)
  }

  lemma {:induction false} CountLast(info: map<Id, Info>, q: seq<Id>, x: Id)
    requires x in info && forall y :: y in q ==> y in info
    ensures forall y :: y in q + [x] ==> y in info
    ensures Count(info, q + [x]) == Count(info, q) + if info[x].crawler then 0 else 1
  {
    if q == [] {
      assert q + [x] == [x] && [x][1..] == [];
    } else {
      assert (q + [x])[1..] == q[1..] + [x];
      CountLast(info, q[1..], x);
    }
  }

  // One item less at the tail, and one try less unless it is a crawler
  lemma MayStopBefore(info: map<Id, Info>, q: seq<Id>, x: Id, active: set<Id>, active': set<Id>, k: nat, tries: nat,
                      free: nat -> bool, locks: set<nat>, p: Pull)
    requires x in info && (forall y :: y in q + [x] ==> y in info) && k < |q| && tries > 0
    requires forall y :: y in q ==> (y in active <==> y in active')
    ensures MayStop(info, q + [x], active, k, tries, free, locks, p) <==>
            MayStop(info, q, active', k, tries - if info[x].crawler then 0 else 1, free, locks, p)
    ensures Lockable(info, q + [x], k, tries, free, locks) <==>
            Lockable(info, q, k, tries - if info[x].crawler then 0 else 1, free, locks)
    ensures Blocks(info, q + [x], k, p) <==> Blocks(info, q, k, p)
  {
    assert (q + [x])[k] == q[k] && (q + [x])[k + 1..] == q[k + 1..] + [x];
    CountLast(info, q[k + 1..], x);
  }

  lemma ReachedBefore(info: map<Id, Info>, q: seq<Id>, x: Id, active: set<Id>, active': set<Id>, k: nat, tries: nat,
                      free: nat -> bool, locks: set<nat>, p: Pull)
    requires x in info && (forall y :: y in q + [x] ==> y in info) && k < |q| && tries > 0
    requires forall y :: y in q ==> (y in active <==> y in active')
    ensures Reached(info, q + [x], active, k, tries, free, locks, p) <==>
            && !MayStop(info, q + [x], active, |q|, tries, free, locks, p) && !Blocks(info, q + [x], |q|, p)
            && Reached(info, q, active', k, tries - if info[x].crawler then 0 else 1, free, locks, p)
  {
    var q', tries' := q + [x], tries - if info[x].crawler then 0 else 1;
    forall j: nat | j < |q|
      ensures MayStop(info, q', active, j, tries, free, locks, p) <==>
              MayStop(info, q, active', j, tries', free, locks, p)
      ensures Blocks(info, q', j, p) <==> Blocks(info, q, j, p)
    {
      MayStopBefore(info, q, x, active, active', j, tries, free, locks, p);
    }
    forall j: nat | k < j < |q| && Reached(info, q', active, k, tries, free, locks, p)
      ensures !MayStop(info, q, active', j, tries', free, locks, p) && !Blocks(info, q, j, p)
    {
      assert !MayStop(info, q', active, j, tries, free, locks, p);
    }
  }

  lemma StopsFirstBefore(info: map<Id, Info>, q: seq<Id>, x: Id, active: set<Id>, active': set<Id>, k: nat, tries: nat,
                         free: nat -> bool, locks: set<nat>, p: Pull)
    requires x in info && (forall y :: y in q + [x] ==> y in info) && k < |q| && tries > 0
    requires forall y :: y in q ==> (y in active <==> y in active')
    ensures StopsFirst(info, q + [x], active, k, tries, free, locks, p) <==>
            && !MayStop(info, q + [x], active, |q|, tries, free, locks, p) && !Blocks(info, q + [x], |q|, p)
            && StopsFirst(info, q, active', k, tries - if info[x].crawler then 0 else 1, free, locks, p)
    ensures ReclaimsAt(info, q + [x], active, k, tries, free, locks, p) <==>
            && !MayStop(info, q + [x], active, |q|, tries, free, locks, p) && !Blocks(info, q + [x], |q|, p)
            && ReclaimsAt(info, q, active', k, tries - if info[x].crawler then 0 else 1, free, locks, p)
  {
    ReachedBefore(info, q, x, active, active', k, tries, free, locks, p);
    MayStopBefore(info, q, x, active, active', k, tries, free, locks, p);
    assert (q + [x])[k] == q[k];
  }

  // The tail comes first, then the rest of the queue.
  lemma TailFirst(info: map<Id, Info>, r: seq<Id>, x: Id, later: seq<Id>)
    requires NoDup(r + [x]) && forall y :: y in r + [x] + later ==> y in info
    ensures NoDup(r) && x !in r && x in info && forall y :: y in Reversed(r) + later ==> y in info
    ensures Reversed(r + [x]) + later == [x] + (Reversed(r) + later)
    ensures forall y :: y in r + (later + [x]) ==> y in info
  {
    var q := r + [x];
    assert q[|r|] == x && forall i :: 0 <= i < |r| ==> r[i] == q[i];
    assert forall y :: y in q <==> y in r || y == x;
    ReversedLast(r, x);
  }

  // The walk goes on from the tail x, which gets a second turn if it is an active WARM item.
  lemma GoesOn(info: map<Id, Info>, r: seq<Id>, x: Id, later: seq<Id>, active: set<Id>, tries: nat,
               free: nat -> bool, locks: set<nat>, p: Pull) returns (later': seq<Id>, active': set<Id>)
    requires NoDup(r + [x]) && (forall y :: y in r + [x] + later ==> y in info) && r != [] && tries > 0
    requires !MayStop(info, r + [x], active, |r|, tries, free, locks, p) && !Blocks(info, r + [x], |r|, p)
    ensures NoDup(r) && (forall y :: y in r + later' ==> y in info)
    ensures forall y :: y in r ==> (y in active <==> y in active')
    ensures FirstStop(info, Reversed(r + [x]) + later, active, tries, free, locks, p) ==
            FirstStop(info, Reversed(r) + later', active', tries - if info[x].crawler then 0 else 1, free, locks, p)
  {
    TailFirst(info, r, x, later);
    assert (r + [x])[|r| + 1..] == [];
    NextStop(info, x, Reversed(r) + later, active, tries, free, locks, p);
    if info[x].crawler || !free(tries) || info[x].stripe in locks || Expired(info[x], p) {
      later', active' := later, active;
    } else {
      later', active' := later + [x], active - {x};
      assert Reversed(r) + later + [x] == Reversed(r) + (later + [x]);
    }
  }

  // The first turn: in every queue the walk stops at the first place where it may, whatever is queued up for a second
  // turn.
  lemma {:induction false} FirstTurn(info: map<Id, Info>, q: seq<Id>, later: seq<Id>, active: set<Id>, k: nat,
                                     tries: nat, free: nat -> bool, locks: set<nat>, p: Pull)
    requires NoDup(q) && forall x :: x in q + later ==> x in info
    requires StopsFirst(info, q, active, k, tries, free, locks, p) == true
    ensures FirstStop(info, Reversed(q) + later, active, tries, free, locks, p) == Some(q[k])
    decreases |q|
  {
    var r, x := q[..|q| - 1], q[|q| - 1];
    assert q == r + [x] && q[|r| + 1..] == [];
    if k < |r| {
      StopsFirstBefore(info, r, x, active, active, k, tries, free, locks, p);
      var later', active' := GoesOn(info, r, x, later, active, tries, free, locks, p);
      StopsFirstBefore(info, r, x, active, active', k, tries, free, locks, p);
      FirstTurn(info, r, later', active', k, tries - if info[x].crawler then 0 else 1, free, locks, p);
    } else {
      TailFirst(info, r, x, later);
      NextStop(info, x, Reversed(r) + later, active, tries, free, locks, p);
    }
  }

  // Without a second turn, the walk stops nowhere else.
  lemma {:induction false} OnlyTurn(info: map<Id, Info>, q: seq<Id>, active: set<Id>, tries: nat, free: nat -> bool,
                                    locks: set<nat>, p: Pull) returns (k: nat)
    requires !p.cur.WARM? && forall x :: x in q ==> x in info
    requires FirstStop(info, Reversed(q), active, tries, free, locks, p).Some?
    ensures StopsFirst(info, q, active, k, tries, free, locks, p)
    decreases |q|
  {
    assert tries > 0 && q != [];
    var r, x := q[..|q| - 1], q[|q| - 1];
    assert q == r + [x];
    ReversedLast(r, x);
    NextStop(info, x, Reversed(r), active, tries, free, locks, p);
    LastPlace(info, r, x, active, tries, free, locks, p);
    if MayStop(info, q, active, |r|, tries, free, locks, p) {
      k := |r|;
    } else {
      k := OnlyTurn(info, r, active, tries - if info[x].crawler then 0 else 1, free, locks, p);
      StopsFirstBefore(info, r, x, active, active, k, tries, free, locks, p);
    }
  }

  ghost predicate Reclaims(info: map<Id, Info>, q: seq<Id>, active: set<Id>, tries: nat, free: nat -> bool,
                           locks: set<nat>, p: Pull, y: Id)
    requires forall x :: x in q ==> x in info
  {
    exists k: nat :: k < |q| && q[k] == y && ReclaimsAt(info, q, active, k, tries, free, locks, p)
  }

  // An element is taken out on the way exactly where the pull comes to it and it has expired.
  lemma {:induction false} TakesOut(info: map<Id, Info>, q: seq<Id>, active: set<Id>, tries: nat, free: nat -> bool,
                                    locks: set<nat>, p: Pull, y: Id)
    requires !p.cur.WARM? && forall x :: x in q ==> x in info
    ensures y in WayOf(info, Reversed(q), active, tries, free, locks, p).expired <==>
            Reclaims(info, q, active, tries, free, locks, p, y)
    decreases |q|
  {
    if q != [] && tries > 0 {
      var r, x := q[..|q| - 1], q[|q| - 1];
      assert q == r + [x];
      ReversedLast(r, x);
      NextWay(info, x, Reversed(r), active, tries, free, locks, p);
      LastPlace(info, r, x, active, tries, free, locks, p);
      var left := tries - if info[x].crawler then 0 else 1;
      forall k: nat | k < |r|
        ensures ReclaimsAt(info, q, active, k, tries, free, locks, p) <==>
                && !MayStop(info, q, active, |r|, tries, free, locks, p) && !Blocks(info, q, |r|, p)
                && ReclaimsAt(info, r, active, k, left, free, locks, p)
      {
        StopsFirstBefore(info, r, x, active, active, k, tries, free, locks, p);
      }
      if !MayStop(info, q, active, |r|, tries, free, locks, p) && !Blocks(info, q, |r|, p) {
        TakesOut(info, r, active, left, free, locks, p, y);
        TakesOutMore(info, r, x, active, tries, left, free, locks, p, y);
      }
    }
  }

  // What may happen at the tail
  lemma LastPlace(info: map<Id, Info>, r: seq<Id>, x: Id, active: set<Id>, tries: nat, free: nat -> bool,
                  locks: set<nat>, p: Pull)
    requires !p.cur.WARM? && tries > 0 && x in info && forall z :: z in r + [x] ==> z in info
    ensures var ok := !info[x].crawler && free(tries) && info[x].stripe !in locks;
      && (MayStop(info, r + [x], active, |r|, tries, free, locks, p) <==> ok && !Expired(info[x], p))
      && (ReclaimsAt(info, r + [x], active, |r|, tries, free, locks, p) <==> ok && Expired(info[x], p))
      && (Blocks(info, r + [x], |r|, p) <==> info[x].crawler && p.crawlBlocks)
  {
    assert (r + [x])[|r|] == x && (r + [x])[|r| + 1..] == [];
  }

  lemma TakesOutMore(info: map<Id, Info>, r: seq<Id>, x: Id, active: set<Id>, tries: nat, left: nat,
                     free: nat -> bool, locks: set<nat>, p: Pull, y: Id)
    requires x in info && (forall z :: z in r + [x] ==> z in info)
    requires forall k: nat :: k < |r| ==>
      (ReclaimsAt(info, r + [x], active, k, tries, free, locks, p) <==>
       ReclaimsAt(info, r, active, k, left, free, locks, p))
    ensures Reclaims(info, r + [x], active, tries, free, locks, p, y) <==>
            || (y == x && ReclaimsAt(info, r + [x], active, |r|, tries, free, locks, p))
            || Reclaims(info, r, active, left, free, locks, p, y)
  {
    forall k: nat | k < |r| && r[k] == y && ReclaimsAt(info, r, active, k, left, free, locks, p)
      ensures k < |r| + 1 && (r + [x])[k] == y && ReclaimsAt(info, r + [x], active, k, tries, free, locks, p)
    {
    }
    if y == x && ReclaimsAt(info, r + [x], active, |r|, tries, free, locks, p) {
      assert (r + [x])[|r|] == y;
    }
  }

  /** A pull from a HOT, COLD or TEMP queue takes out y on its way exactly if it comes to y, can lock it and finds it
      expired, and moves nothing to the head. */
  lemma TakesOutExpired(s: Cache, cls: nat, p: Pull, free: nat -> bool, y: Id)
    requires Good(s, None) && cls > 0 && Qid(cls, p.cur) in s.queues && !p.cur.WARM?
    ensures var q, w := s.queues[Qid(cls, p.cur)], WayFrom(s, Qid(cls, p.cur), p, free, TRIES);
      && w.rotated == [] && (forall x :: x in q ==> x in s.info)
      && (y in w.expired <==> Reclaims(s.info, q, Active(s), TRIES, free, s.locks, p, y))
  {
    var q := s.queues[Qid(cls, p.cur)];
    assert QueueOK(s, None, Qid(cls, p.cur));
    TakesOut(s.info, q, Active(s), TRIES, free, s.locks, p, y);
    NothingRotated(s.info, Reversed(q), Active(s), TRIES, free, s.locks, p);
  }

  lemma {:induction false} NothingRotated(info: map<Id, Info>, up: seq<Id>, active: set<Id>, tries: nat,
                                          free: nat -> bool, locks: set<nat>, p: Pull)
    requires !p.cur.WARM? && forall x :: x in up ==> x in info
    ensures WayOf(info, up, active, tries, free, locks, p).rotated == []
    decreases |up|
  {
    if up != [] {
      NothingRotated(info, up[1..], active, tries, free, locks, p);
      if tries > 0 { NothingRotated(info, up[1..], active, tries - 1, free, locks, p); }
    }
  }

  /** A pull from a HOT, COLD or TEMP queue stops at x exactly if x is the first item from the tail that can be locked
      and has not expired, within TRIES items that are no crawlers and with no blocking crawler behind it. */
  lemma StopsAtFirst(s: Cache, cls: nat, p: Pull, free: nat -> bool, x: Id)
    requires Good(s, None) && cls > 0 && Qid(cls, p.cur) in s.queues && !p.cur.WARM?
    ensures var q := s.queues[Qid(cls, p.cur)];
      (forall y :: y in q ==> y in s.info) &&
      (Stopped(s, cls, p, free) == Some(x) <==>
       exists k :: 0 <= k < |q| && q[k] == x && StopsFirst(s.info, q, Active(s), k, TRIES, free, s.locks, p))
  {
    var q := s.queues[Qid(cls, p.cur)];
    assert QueueOK(s, None, Qid(cls, p.cur));
    assert Reversed(q) + [] == Reversed(q) && q + [] == q;
    forall k | 0 <= k < |q| && StopsFirst(s.info, q, Active(s), k, TRIES, free, s.locks, p)
      ensures Stopped(s, cls, p, free) == Some(q[k])
    {
      FirstTurn(s.info, q, [], Active(s), k, TRIES, free, s.locks, p);
    }
    if Stopped(s, cls, p, free).Some? {
      var k := OnlyTurn(s.info, q, Active(s), TRIES, free, s.locks, p);
    }
  }

  /** A pull from a WARM queue stops at the first such item that is not active, if there is one within TRIES items. */
  lemma StopsAtInactive(s: Cache, cls: nat, p: Pull, free: nat -> bool, k: nat)
    requires Good(s, None) && cls > 0 && Qid(cls, p.cur) in s.queues
    requires
      var q := s.queues[Qid(cls, p.cur)];
      (forall y :: y in q ==> y in s.info) && StopsFirst(s.info, q, Active(s), k, TRIES, free, s.locks, p)
    ensures Stopped(s, cls, p, free) == Some(s.queues[Qid(cls, p.cur)][k])
  {
    var q := s.queues[Qid(cls, p.cur)];
    assert QueueOK(s, None, Qid(cls, p.cur));
    assert Reversed(q) + [] == Reversed(q) && q + [] == q;
    FirstTurn(s.info, q, [], Active(s), k, TRIES, free, s.locks, p);
  }

  // ---------- an item that stays referenced and locked ----------

  /** A pull on a queue with one item stops at it exactly when the item can be locked, has not expired and is not an
      active WARM item. */
  lemma StopsAtOnly(s: Cache, cls: nat, x: Id, p: Pull, free: nat -> bool, tries: nat)
    requires Good(s, None) && cls > 0 && Qid(cls, p.cur) in s.queues && s.queues[Qid(cls, p.cur)] == [x] && tries > 0
    requires x in s.items && x in s.info && !s.info[x].crawler
    ensures StopsAt(s, Qid(cls, p.cur), p, free, tries) == Some(x) <==>
            && free(tries) && s.info[x].stripe !in s.locks && !Expired(s.info[x], p)
            && !(p.cur.WARM? && s.items[x].active)
  {
    assert QueueOK(s, None, Qid(cls, p.cur));
    assert Reversed([x]) == [x] + [];
    NextStop(s.info, x, [], Active(s), tries, free, s.locks, p);
  }

  // A cache with one item in the HOT queue of class 1
  function OneHot(): Cache {
    Cache(map[0 := Info(1, 48, 0, false, 0, 0, false)], map[0 := Item(1, true, false, HOT)], map[0 := 0], {0},
          map[Qid(1, HOT) := [0], Qid(1, WARM) := [], Qid(1, COLD) := [], Qid(1, TEMP) := []],
          map[Qid(1, HOT) := 1, Qid(1, WARM) := 0, Qid(1, COLD) := 0, Qid(1, TEMP) := 0],
          map[Qid(1, HOT) := 48, Qid(1, WARM) := 0, Qid(1, COLD) := 0, Qid(1, TEMP) := 0], {})
  }

  lemma OneHotGood()
    ensures Good(OneHot(), None)
  {
    var s := OneHot();
    assert ItemOK(s, 0) && Queued(s, None, 0) by {
      forall l: Lru ensures Qid(1, l) in s.queues {
        match l case HOT => case WARM => case COLD => case TEMP =>
      }
    }
    forall q | q in s.queues ensures QueueOK(s, None, q) {
      assert s.queues[q] == [0] || s.queues[q] == [];
    }
  }

  /** LRU_PULL_RETURN_ITEM on a HOT queue: the only item ends up referenced and locked, and nothing is returned, so
      nobody will ever let it go. */
  method LeakFromHot(c: LruCache, p: Pull, free: nat -> bool) returns (removed: nat, ret: Option<Id>)
    requires c.St() == OneHot() && p.cur.HOT? && p.returnItem && free(TRIES)
    modifies c
    ensures ret.None? && 0 in c.items && 0 in c.held && c.held[0] == 1 && c.locks == {0}
  {
    OneHotGood();
    StopsAtOnly(OneHot(), 1, 0, p, free, TRIES);
    ghost var kept;
    removed, ret, kept := c.PullTail(1, p, free);
    assert Account(OneHot(), c.St(), kept, 0);
  }
}
