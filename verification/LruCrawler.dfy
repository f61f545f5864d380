/** The queue of one LRU class in sources/memcached/items.c, a doubly linked list with head and tail, and
    the crawler that walks through it as a list element of its own. */
module LruCrawler {

  import opened Common

  class Item {
    var prev: Item?
    var next: Item?

    constructor ()
      ensures prev == null && next == null
    {
      prev, next := null, null;
    }
  }

  datatype Link = Ends(prev: Item?, next: Item?)

  type Links = map<Item, Link>

  function At(q: seq<Item>, i: int): Item? {
    if 0 <= i < |q| then q[i] else null
  }

  // Element i of the queue q is linked to its neighbours.
  ghost predicate LinkedAt(q: seq<Item>, links: Links, i: nat)
    requires i < |q|
  {
    q[i] in links && links[q[i]] == Ends(At(q, i - 1), At(q, i + 1))
  }

  ghost predicate Linked(q: seq<Item>, links: Links) {
    NoDup(q) && forall i: nat {:trigger LinkedAt(q, links, i)} :: i < |q| ==> LinkedAt(q, links, i)
  }

  // The crawler at position k > 0 changes places with its predecessor.
  function Passed(q: seq<Item>, k: nat): seq<Item>
    requires 0 < k < |q|
  {
    q[k - 1 := q[k]][k := q[k - 1]]
  }

  // ---------- what the pointer updates do ----------

  function SetPrev(links: Links, x: Item?, to: Item?): Links {
    if x == null || x !in links then links else links[x := links[x].(prev := to)]
  }

  function SetNext(links: Links, x: Item?, to: Item?): Links {
    if x == null || x !in links then links else links[x := links[x].(next := to)]
  }

  // do_item_crawl_q: p is the predecessor of the crawler c
  function CrawlLinks(links: Links, c: Item, p: Item): Links
    requires c in links && p in links
  {
    var pp, n := links[p].prev, links[c].next;
    var l1 := SetPrev(SetNext(links, p, n), n, p);
    SetNext(SetPrev(SetPrev(SetNext(l1, c, p), c, pp), p, c), pp, c)
  }

  lemma CrawlLinked(q: seq<Item>, links: Links, k: nat)
    requires Linked(q, links) && 0 < k < |q|
    ensures q[k] in links && q[k - 1] in links && Linked(Passed(q, k), CrawlLinks(links, q[k], q[k - 1]))
  {
    assert LinkedAt(q, links, k) && LinkedAt(q, links, k - 1);
    if k > 1 { assert LinkedAt(q, links, k - 2); }
    if k + 1 < |q| { assert LinkedAt(q, links, k + 1); }
    var q', links' := Passed(q, k), CrawlLinks(links, q[k], q[k - 1]);
    forall i: nat | i < |q'| ensures LinkedAt(q', links', i) {
      assert LinkedAt(q, links, i);
    }
  }

  // Taking x out: its neighbours are linked to each other.
  function UnlinkLinks(links: Links, x: Item): Links
    requires x in links
  {
    SetNext(SetPrev(links, links[x].next, links[x].prev), links[x].prev, links[x].next)
  }

  lemma UnlinkLinked(q: seq<Item>, links: Links, k: nat)
    requires Linked(q, links) && k < |q|
    ensures q[k] in links && Linked(RemoveAt(q, k), UnlinkLinks(links, q[k]))
  {
    assert LinkedAt(q, links, k);
    if k > 0 { assert LinkedAt(q, links, k - 1); }
    if k + 1 < |q| { assert LinkedAt(q, links, k + 1); }
    var q', links' := RemoveAt(q, k), UnlinkLinks(links, q[k]);
    forall i: nat | i < |q'| ensures LinkedAt(q', links', i) {
      assert LinkedAt(q, links, if i < k then i else i + 1);
    }
  }

  lemma LinkTailLinked(q: seq<Item>, links: Links, x: Item)
    requires Linked(q, links) && x !in q
    ensures Linked(q + [x], SetNext(links[x := Ends(At(q, |q| - 1), null)], At(q, |q| - 1), x))
  {
    var q', links' := q + [x], SetNext(links[x := Ends(At(q, |q| - 1), null)], At(q, |q| - 1), x);
    forall i: nat | i < |q'| ensures LinkedAt(q', links', i) {
      if i < |q| { assert LinkedAt(q, links, i); }
    }
  }

  lemma LinkHeadLinked(q: seq<Item>, links: Links, x: Item)
    requires Linked(q, links) && x !in q
    ensures Linked([x] + q, SetPrev(links[x := Ends(null, At(q, 0))], At(q, 0), x))
  {
    var q', links' := [x] + q, SetPrev(links[x := Ends(null, At(q, 0))], At(q, 0), x);
    forall i: nat | i < |q'| ensures LinkedAt(q', links', i) {
      if i > 0 { assert LinkedAt(q, links, i - 1); }
    }
  }

  class Queue {
    var head: Item?
    var tail: Item?
    var size: int
    // The elements from head to tail, and the links of these and of a crawler that has just left
    ghost var q: seq<Item>
    ghost var links: Links

    // The items' fields are what links says.
    ghost predicate Mirrors()
      reads this, links.Keys
    {
      forall x :: x in links ==> x.prev == links[x].prev && x.next == links[x].next
    }

    ghost predicate Valid()
      reads this, links.Keys
    {
      Linked(q, links) && head == At(q, 0) && tail == At(q, |q| - 1) && Mirrors()
    }

    // x->prev = to
    method PointPrev(x: Item, to: Item?)
      requires x in links && Mirrors()
      modifies x`prev, this`links
      ensures Mirrors() && links == SetPrev(old(links), x, to)
    {
      x.prev := to;
      links := SetPrev(links, x, to);
    }

    // x->next = to
    method PointNext(x: Item, to: Item?)
      requires x in links && Mirrors()
      modifies x`next, this`links
      ensures Mirrors() && links == SetNext(old(links), x, to)
    {
      x.next := to;
      links := SetNext(links, x, to);
    }

    constructor ()
      ensures Valid() && q == [] && links == map[] && size == 0
    {
      head, tail, size, q, links := null, null, 0, [], map[];
    }

    // it->prev = prev; it->next = next
    method Place(it: Item, prev: Item?, next: Item?)
      requires Mirrors()
      modifies it, this`links
      ensures Mirrors() && links == old(links)[it := Ends(prev, next)]
    {
      it.prev, it.next := prev, next;
      links := links[it := Ends(prev, next)];
    }

    /** do_item_link_q: the item is the new head. */
    method Link(it: Item)
      requires Valid() && it !in q
      modifies this, it, links.Keys
      ensures Valid() && q == [it] + old(q) && size == old(size) + 1 && links.Keys == old(links.Keys) + {it}
    {
      LinkHeadLinked(q, links, it);
      if q != [] { Neighbours(q, links, 0); }
      Place(it, null, head);
      if it.next != null { PointPrev(it.next, it); }
      head := it;
      if tail == null { tail := it; }
      size := size + 1;
      q := [it] + q;
    }

    /** do_item_linktail_q: the crawler is the new tail. */
    method LinkTail(it: Item)
      requires Valid() && it !in q
      modifies this, it, links.Keys
      ensures Valid() && q == old(q) + [it] && size == old(size) && links.Keys == old(links.Keys) + {it}
    {
      LinkTailLinked(q, links, it);
      if q != [] { Neighbours(q, links, |q| - 1); }
      Place(it, tail, null);
      if it.prev != null { PointNext(it.prev, it); }
      tail := it;
      if head == null { head := it; }
      q := q + [it];
    }

    // The neighbours of `it` are linked to each other, and head and tail move past it.
    method TakeOut(it: Item)
      requires it in links && Mirrors()
      requires links[it].next != null ==> links[it].next in links
      requires links[it].prev != null ==> links[it].prev in links
      requires links[it].next != it && links[it].prev != it
      modifies this`head, this`tail, this`links, links.Keys
      ensures head == (if old(head) == it then old(links[it].next) else old(head))
      ensures tail == (if old(tail) == it then old(links[it].prev) else old(tail))
      ensures links == UnlinkLinks(old(links), it) && links.Keys == old(links.Keys) && Mirrors()
    {
      if head == it { head := it.next; }
      if tail == it { tail := it.prev; }
      if it.next != null { PointPrev(it.next, it.prev); }
      if it.prev != null { PointNext(it.prev, it.next); }
    }

    /** do_item_unlink_q, for the item at position k */
    method Unlink(it: Item, ghost k: nat)
      requires Valid() && k < |q| && q[k] == it
      modifies this, links.Keys
      ensures Valid() && q == RemoveAt(old(q), k) && size == old(size) - 1 && links.Keys == old(links.Keys)
    {
      UnlinkLinked(q, links, k);
      Neighbours(q, links, k);
      TakeOut(it);
      size := size - 1;
      q := RemoveAt(q, k);
    }

    // The crawler has left the queue at its head but still points to it.
    ghost predicate Popped(it: Item)
      reads this
    {
      it !in q && q != [] && it in links && links[it] == Ends(null, q[0])
    }

    /** do_item_unlinktail_q: the crawler is taken out, wherever it is, or was just popped off the head. */
    method UnlinkTail(it: Item, ghost k: nat)
      requires Valid() && ((k < |q| && q[k] == it) || Popped(it))
      modifies this, links.Keys
      ensures Valid() && size == old(size) && links.Keys == old(links.Keys)
      ensures q == if old(Popped(it)) then old(q) else RemoveAt(old(q), k)
    {
      ghost var popped := Popped(it);
      if popped {
        PoppedLinked(q, links, it);
      } else {
        UnlinkLinked(q, links, k);
        Neighbours(q, links, k);
      }
      TakeOut(it);
      if !popped {
        q := RemoveAt(q, k);
      }
    }

    /** do_item_crawl_q: the crawler at position k changes places with its predecessor, which is returned, and
        nothing else moves; at the head it is popped off. */
    method Crawl(it: Item, ghost k: nat) returns (passed: Item?)
      requires Valid() && k < |q| && q[k] == it
      modifies this, links.Keys
      ensures Valid() && size == old(size) && links.Keys == old(links.Keys)
      ensures k > 0 ==> passed == old(q)[k - 1] && q == Passed(old(q), k)
      ensures k == 0 ==> passed == null && if |old(q)| == 1 then q == old(q) else q == old(q)[1..] && Popped(it)
    {
      Neighbours(q, links, k);
      if it.prev == null {
        assert head == it;
        Pop(it);
        return null;
      }
      ghost var q0 := q;
      CrawlLinked(q0, links, k);
      Swing(it);
      q := Passed(q0, k);
      passed := it.next;
    }

    // The crawler at the head leaves the queue, unless it is alone in it.
    method Pop(it: Item)
      requires Valid() && q != [] && q[0] == it && it in links && links[it] == Ends(null, At(q, 1))
      modifies this, links.Keys
      ensures Valid() && size == old(size) && links.Keys == old(links.Keys)
      ensures if |old(q)| == 1 then q == old(q) else q == old(q)[1..] && Popped(it)
    {
      ghost var q0 := q;
      if it.next != null {
        UnlinkLinked(q0, links, 0);
        Neighbours(q0, links, 0);
        assert RemoveAt(q0, 0) == q0[1..];
        head := it.next;
        PointPrev(it.next, null);
        q := q0[1..];
      }
    }

    // The pointer shuffle of a crawl step
    method Swing(it: Item)
      requires it in links && Mirrors() && it.prev != null && it.prev in links
      requires (it.next != null ==> it.next in links) && (it.prev.prev != null ==> it.prev.prev in links)
      requires it.prev != it && it.next != it && it.prev != it.next && it.prev.prev != it && it.prev.prev != it.prev
      modifies this`head, this`tail, this`links, links.Keys
      ensures head == (if old(head) == old(it.prev) then it else old(head))
      ensures tail == (if old(tail) == it then old(it.prev) else old(tail))
      ensures it.next == old(it.prev) && links == CrawlLinks(old(links), it, old(it.prev)) && Mirrors()
    {
      if head == it.prev { head := it; }
      if tail == it { tail := it.prev; }
      CloseGap(it, it.prev, it.next);
      StepIn(it, it.prev);
    }

    // The predecessor p is linked to the successor n.
    method CloseGap(it: Item, p: Item, n: Item?)
      requires Mirrors() && it in links && p in links && (n != null ==> n in links) && p != it && n != it && p != n
      modifies this`links, p`next, links.Keys`prev
      ensures Mirrors() && links == SetPrev(SetNext(old(links), p, n), n, p)
    {
      PointNext(p, n);
      if n != null {
        PointPrev(n, p);
      }
    }

    // The crawler comes to stand before p.
    method StepIn(it: Item, p: Item)
      requires Mirrors() && it in links && p in links && p != it && it.prev == p
      requires p.prev != it && p.prev != p && (p.prev != null ==> p.prev in links)
      modifies this`links, links.Keys
      ensures Mirrors() && it.next == p
      ensures var l, pp := old(links), old(links[p].prev);
        links == SetNext(SetPrev(SetPrev(SetNext(l, it, p), it, pp), p, it), pp, it)
    {
      PointNext(it, p);
      PointPrev(it, p.prev);
      PointPrev(p, it);
      if it.prev != null {
        PointNext(it.prev, it);
      }
    }
  }

  lemma PoppedLinked(q: seq<Item>, links: Links, x: Item)
    requires Linked(q, links) && q != [] && x in links && x !in q && links[x] == Ends(null, q[0])
    ensures q[0] in links && Linked(q, UnlinkLinks(links, x))
  {
    assert LinkedAt(q, links, 0);
    var links' := UnlinkLinks(links, x);
    forall i: nat | i < |q| ensures LinkedAt(q, links', i) {
      assert LinkedAt(q, links, i);
    }
  }

  // The links around position k stay within the queue.
  lemma Neighbours(q: seq<Item>, links: Links, k: nat)
    requires Linked(q, links) && k < |q|
    ensures q[k] in links && links[q[k]] == Ends(At(q, k - 1), At(q, k + 1))
    ensures k > 0 ==> q[k - 1] in links && links[q[k - 1]] == Ends(At(q, k - 2), q[k])
    ensures k + 1 < |q| ==> q[k + 1] in links && links[q[k + 1]] == Ends(q[k], At(q, k + 2))
    ensures k > 1 ==> q[k - 2] in links
  {
    assert LinkedAt(q, links, k);
    if k > 0 { assert LinkedAt(q, links, k - 1); }
    if k + 1 < |q| { assert LinkedAt(q, links, k + 1); }
    if k > 1 { assert LinkedAt(q, links, k - 2); }
  }

  // ---------- whole crawls ----------

  // The queue q with the crawler c at position k
  function With(q: seq<Item>, c: Item, k: nat): seq<Item>
    requires k <= |q|
  {
    q[..k] + [c] + q[k..]
  }

  lemma PassedWith(q: seq<Item>, c: Item, k: nat)
    requires 0 < k <= |q|
    ensures Passed(With(q, c, k), k) == With(q, c, k - 1) && With(q, c, k)[k - 1] == q[k - 1]
  {
    assert q[..k] == q[..k - 1] + [q[k - 1]];
    assert q[k - 1..] == [q[k - 1]] + q[k..];
  }

  /** A crawl from the tail until NULL is returned visits each item once, from the tail to the head, and
      taking the crawler out afterwards restores the queue with its head, tail, links and size. */
  method CrawlAll(queue: Queue, c: Item) returns (visited: seq<Item>)
    requires queue.Valid() && c !in queue.q
    modifies queue, c, queue.links.Keys
    ensures queue.Valid() && queue.q == old(queue.q) && queue.size == old(queue.size)
    ensures queue.head == old(queue.head) && queue.tail == old(queue.tail)
    ensures forall x :: x in queue.q ==> x.prev == old(x.prev) && x.next == old(x.next)
    ensures visited == Reversed(old(queue.q))
  {
    ghost var q, l0 := queue.q, queue.links;
    queue.LinkTail(c);
    assert queue.q == With(q, c, |q|);
    visited := CrawlUp(queue, c, q);
    assert q == [] ==> RemoveAt([c], 0) == q;
    queue.UnlinkTail(c, 0);
    forall x | x in q ensures x.prev == old(x.prev) && x.next == old(x.next) {
      var i :| 0 <= i < |q| && q[i] == x;
      assert LinkedAt(q, l0, i) && LinkedAt(q, queue.links, i);
    }
  }

  // The crawler goes from the tail to the head and is popped off.
  method CrawlUp(queue: Queue, c: Item, ghost q: seq<Item>) returns (visited: seq<Item>)
    requires queue.Valid() && queue.q == With(q, c, |q|)
    modifies queue, queue.links.Keys
    ensures queue.Valid() && queue.size == old(queue.size) && queue.links.Keys == old(queue.links.Keys)
    ensures if q == [] then queue.q == [c] else queue.q == q && queue.Popped(c)
    ensures visited == Reversed(q)
  {
    ghost var k := |q|;
    visited := [];
    while true
      invariant 0 <= k <= |q| && queue.Valid() && queue.q == With(q, c, k) && queue.size == old(queue.size)
      invariant queue.links.Keys == old(queue.links.Keys)
      invariant visited == Reversed(q)[..|q| - k]
      decreases k
    {
      assert queue.q[k] == c;
      if k > 0 { PassedWith(q, c, k); }
      var passed := queue.Crawl(c, k);
      if passed == null {
        break;
      }
      visited := visited + [passed];
      k := k - 1;
    }
    assert With(q, c, 0)[1..] == q;
    assert q == [] ==> With(q, c, 0) == [c];
  }

  // ---------- crawls of a queue in use ----------

  // Other threads link new items at the head and unlink items between two steps of the crawler.
  datatype Act = LinkAct(it: Item) | UnlinkAct(it: Item) | CrawlAct

  // The items the crawler has yet to reach and those it has passed, in queue order, and what it was shown
  datatype View = View(ahead: seq<Item>, behind: seq<Item>, visited: seq<Item>)

  ghost function Index(q: seq<Item>, x: Item): (i: nat)
    requires x in q
    ensures i < |q| && q[i] == x
  {
    var i :| 0 <= i < |q| && q[i] == x;
    i
  }

  // An item that is linked is not in the queue; it may have been there before.
  ghost predicate Can(v: View, c: Item, a: Act) {
    match a
    case LinkAct(x) => x != c && x !in v.ahead && x !in v.behind
    case UnlinkAct(x) => x in v.ahead || x in v.behind
    case CrawlAct => v.ahead != []
  }

  ghost function Apply(v: View, a: Act): View
    requires a.UnlinkAct? ==> a.it in v.ahead || a.it in v.behind
    requires a.CrawlAct? ==> v.ahead != []
  {
    match a
    case LinkAct(x) => v.(ahead := [x] + v.ahead)
    case UnlinkAct(x) => if x in v.ahead then v.(ahead := RemoveAt(v.ahead, Index(v.ahead, x)))
        else v.(behind := RemoveAt(v.behind, Index(v.behind, x)))
    case CrawlAct =>
      var k := |v.ahead| - 1;
      View(v.ahead[..k], [v.ahead[k]] + v.behind, v.visited + [v.ahead[k]])
  }

  ghost predicate Possible(v: View, c: Item, acts: seq<Act>)
    decreases |acts|
  {
    acts == [] || (Can(v, c, acts[0]) && Possible(Apply(v, acts[0]), c, acts[1..]))
  }

  ghost function ApplyAll(v: View, c: Item, acts: seq<Act>): View
    requires Possible(v, c, acts)
    decreases |acts|
  {
    if acts == [] then v else ApplyAll(Apply(v, acts[0]), c, acts[1..])
  }

  // No element is in the queue twice, and everything behind the crawler was shown.
  ghost predicate ViewOK(v: View) {
    && NoDup(v.ahead) && NoDup(v.behind)
    && (forall x :: x in v.behind ==> x in v.visited && x !in v.ahead)
  }

  lemma WithoutFacts(q: seq<Item>, k: nat)
    requires k < |q| && NoDup(q)
    ensures NoDup(RemoveAt(q, k))
    ensures forall x :: x in RemoveAt(q, k) <==> x in q && x != q[k]
  {
    var r := RemoveAt(q, k);
    assert forall i :: 0 <= i < |r| ==> r[i] == q[if i < k then i else i + 1];
    forall x | x in q && x != q[k] ensures x in r {
      var i :| 0 <= i < |q| && q[i] == x;
      assert r[if i < k then i else i - 1] == x;
    }
  }

  function In(q: seq<Item>, x: Item): nat {
    if x in q then 1 else 0
  }

  // How often x was shown
  ghost function Times(v: View, x: Item): nat {
    multiset(v.visited)[x]
  }

  function LinkCount(acts: seq<Act>, x: Item): nat {
    if acts == [] then 0 else LinkCount(acts[1..], x) + if acts[0] == LinkAct(x) then 1 else 0
  }

  // How often x was unlinked before the crawler reached it
  ghost function Missed(v: View, c: Item, acts: seq<Act>, x: Item): nat
    requires Possible(v, c, acts)
    decreases |acts|
  {
    if acts == [] then 0
    else Missed(Apply(v, acts[0]), c, acts[1..], x) + if acts[0] == UnlinkAct(x) then In(v.ahead, x) else 0
  }

  lemma ApplyOK(v: View, c: Item, a: Act, x: Item)
    requires ViewOK(v) && Can(v, c, a)
    ensures var w := Apply(v, a);
      && ViewOK(w)
      && Times(w, x) + In(w.ahead, x) + (if a == UnlinkAct(x) then In(v.ahead, x) else 0)
         == Times(v, x) + In(v.ahead, x) + if a == LinkAct(x) then 1 else 0
  {
    match a
    case LinkAct(y) =>
    case UnlinkAct(y) =>
      if y in v.ahead {
        WithoutFacts(v.ahead, Index(v.ahead, y));
      } else {
        WithoutFacts(v.behind, Index(v.behind, y));
      }
    case CrawlAct =>
      CrawlStepOK(v, x);
  }

  lemma CrawlStepOK(v: View, x: Item)
    requires ViewOK(v) && v.ahead != []
    ensures var w := Apply(v, CrawlAct); ViewOK(w) && Times(w, x) + In(w.ahead, x) == Times(v, x) + In(v.ahead, x)
  {
    var w, k := Apply(v, CrawlAct), |v.ahead| - 1;
    var l := v.ahead[k];
    assert v.ahead == v.ahead[..k] + [l] && l !in v.ahead[..k];
    assert x in v.ahead <==> x in v.ahead[..k] || x == l;
    assert l in v.ahead && l !in v.behind;
    forall y | y in w.behind ensures y in w.visited && y !in w.ahead {
      if y != l {
        assert y in v.behind;
        assert y !in v.ahead;
      }
    }
  }

  /** However items are linked and unlinked meanwhile: everything behind the crawler was shown, so all items in
      the queue were when the crawler is at its head; and each item is shown exactly once for being ahead at the start
      and once for each time it is linked, except when it is unlinked before the crawler gets there or is still
      ahead. */
  lemma {:induction false} ShownExactly(v: View, c: Item, acts: seq<Act>, x: Item)
    requires ViewOK(v) && Possible(v, c, acts)
    ensures var w := ApplyAll(v, c, acts);
      && ViewOK(w) && (x in w.behind ==> Times(w, x) > 0)
      && Times(w, x) + In(w.ahead, x) + Missed(v, c, acts, x) == Times(v, x) + In(v.ahead, x) + LinkCount(acts, x)
    decreases |acts|
  {
    if acts != [] {
      ApplyOK(v, c, acts[0], x);
      ShownExactly(Apply(v, acts[0]), c, acts[1..], x);
    }
  }

  /** An item the crawler has passed is shown again if and only if it is linked again and the crawler reaches it. */
  lemma ShownAgain(v: View, c: Item, acts: seq<Act>, x: Item)
    requires ViewOK(v) && Possible(v, c, acts) && x in v.visited && x !in v.ahead
    ensures var w := ApplyAll(v, c, acts);
      Times(w, x) > Times(v, x) <==> LinkCount(acts, x) > Missed(v, c, acts, x) + In(w.ahead, x)
  {
    ShownExactly(v, c, acts, x);
  }

  /** This happens: an item the crawler has just passed is rotated to the head of the queue. */
  lemma RotatedItemShownTwice(x: Item, c: Item)
    requires x != c
    ensures var v, acts := View([x], [], []), [CrawlAct, UnlinkAct(x), LinkAct(x), CrawlAct];
      ViewOK(v) && Possible(v, c, acts) && ApplyAll(v, c, acts) == View([], [x], [x, x])
  {
    var v3 := View([x], [], [x]);
    FirstAct(v3, c, CrawlAct, [], View([], [x], [x, x]));
    FirstAct(View([], [], [x]), c, LinkAct(x), [CrawlAct], v3);
    FirstAct(View([], [x], [x]), c, UnlinkAct(x), [LinkAct(x), CrawlAct], View([], [], [x]));
    FirstAct(View([x], [], []), c, CrawlAct, [UnlinkAct(x), LinkAct(x), CrawlAct], View([], [x], [x]));
  }

  lemma FirstAct(v: View, c: Item, a: Act, rest: seq<Act>, w: View)
    requires Can(v, c, a) && Apply(v, a) == w && Possible(w, c, rest)
    ensures Possible(v, c, [a] + rest) && ApplyAll(v, c, [a] + rest) == ApplyAll(w, c, rest)
  {
    assert ([a] + rest)[1..] == rest;
  }

  // The queue with the crawler in it
  ghost function Shown(v: View, c: Item): seq<Item> {
    v.ahead + [c] + v.behind
  }

  lemma ShownUnlink(v: View, c: Item, x: Item)
    requires x in v.ahead || x in v.behind
    ensures var k := if x in v.ahead then Index(v.ahead, x) else |v.ahead| + 1 + Index(v.behind, x);
      k < |Shown(v, c)| && Shown(v, c)[k] == x && RemoveAt(Shown(v, c), k) == Shown(Apply(v, UnlinkAct(x)), c)
  {
  }

  lemma ShownCrawl(v: View, c: Item)
    requires v.ahead != []
    ensures var k := |v.ahead|;
      Shown(v, c)[k] == c && Shown(v, c)[k - 1] == v.ahead[k - 1] &&
          Passed(Shown(v, c), k) == Shown(Apply(v, CrawlAct), c)
  {
    var k := |v.ahead|;
    assert v.ahead == v.ahead[..k - 1] + [v.ahead[k - 1]];
  }

  lemma ShownLink(v: View, c: Item, x: Item)
    requires x != c && x !in v.ahead && x !in v.behind
    ensures x !in Shown(v, c) && [x] + Shown(v, c) == Shown(Apply(v, LinkAct(x)), c)
  {
  }

  method PerformUnlink(queue: Queue, c: Item, ghost v: View, x: Item)
    requires queue.Valid() && queue.q == Shown(v, c) && (x in v.ahead || x in v.behind)
    modifies queue, queue.links.Keys
    ensures queue.Valid() == true && queue.links.Keys == old(queue.links.Keys)
    ensures queue.q == Shown(Apply(v, UnlinkAct(x)), c) && Apply(v, UnlinkAct(x)).visited == v.visited
  {
    ShownUnlink(v, c, x);
    queue.Unlink(x, if x in v.ahead then Index(v.ahead, x) else |v.ahead| + 1 + Index(v.behind, x));
  }

  // The operations on the queue do what the view says.
  method Perform(queue: Queue, c: Item, ghost v: View, a: Act) returns (shown: seq<Item>)
    requires queue.Valid() && queue.q == Shown(v, c) && Can(v, c, a)
    modifies queue, queue.links.Keys, if a.LinkAct? then {a.it} else {}
    ensures queue.Valid() == true && queue.q == Shown(Apply(v, a), c) && Apply(v, a).visited == v.visited + shown
    ensures queue.links.Keys == old(queue.links.Keys) + if a.LinkAct? then {a.it} else {}
  {
    shown := [];
    match a
    case LinkAct(x) =>
      ShownLink(v, c, x);
      queue.Link(x);
    case UnlinkAct(x) =>
      PerformUnlink(queue, c, v, x);
    case CrawlAct =>
      ShownCrawl(v, c);
      var passed := queue.Crawl(c, |v.ahead|);
      shown := [passed];
  }

  ghost function LinkedBy(acts: seq<Act>): set<Item> {
    set a | a in acts && a.LinkAct? :: a.it
  }

  /** A run of the linked list itself: what the crawler is shown, and the list it leaves, are those of the view. */
  method CrawlRun(queue: Queue, c: Item, ghost v: View, acts: seq<Act>) returns (shown: seq<Item>)
    requires queue.Valid() && queue.q == Shown(v, c) && ViewOK(v) && v.visited == [] && Possible(v, c, acts)
    modifies queue, queue.links.Keys, LinkedBy(acts)
    ensures queue.Valid() && queue.q == Shown(ApplyAll(v, c, acts), c) && shown == ApplyAll(v, c, acts).visited
    ensures forall x :: x in queue.q && x != c && ApplyAll(v, c, acts).ahead == [] ==> x in shown
    ensures forall x :: multiset(shown)[x] + Missed(v, c, acts, x) + In(ApplyAll(v, c, acts).ahead, x)
              == In(v.ahead, x) + LinkCount(acts, x)
  {
    shown := [];
    ghost var w := v;
    assert acts[0..] == acts;
    for i := 0 to |acts|
      invariant queue.Valid() && queue.q == Shown(w, c) && shown == w.visited && Possible(w, c, acts[i..])
      invariant ApplyAll(w, c, acts[i..]) == ApplyAll(v, c, acts)
      invariant queue.links.Keys <= old(queue.links.Keys) + LinkedBy(acts)
    {
      assert acts[i..][1..] == acts[i + 1..] && acts[i] in acts;
      var more := Perform(queue, c, w, acts[i]);
      w, shown := Apply(w, acts[i]), shown + more;
    }
    forall x ensures multiset(shown)[x] + Missed(v, c, acts, x) + In(w.ahead, x) == In(v.ahead, x) + LinkCount(acts, x)
      && (x in w.behind ==> x in shown)
    {
      ShownExactly(v, c, acts, x);
    }
  }
}
