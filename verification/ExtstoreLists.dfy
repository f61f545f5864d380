/** The pages of sources/memcached/extstore.c as the objects they are, on bucket lists and free lists that run through
    their `next` pointers. Taking a page into service and freeing one are proved to do in memory what the steps
    AllocatePage and FreePage of Extstore do to lists of page numbers. */
module ExtstoreLists {

  import opened Common
  import opened E = Extstore

  class StorePage {
    const id: nat
    const freeBucket: nat
    var version: nat
    var objCount: nat
    var bytesUsed: nat
    var reserved: nat
    var written: nat
    var bucket: nat
    var active: bool
    var closed: bool
    var free: bool
    var next: StorePage?

    constructor (id: nat, freeBucket: nat)
      ensures this.id == id && next == null
      ensures Is(Page(0, 0, 0, 0, 0, freeBucket, false, false, true, None, 0, 0))
    {
      this.id, this.freeBucket := id, freeBucket;
      version, objCount, bytesUsed, reserved, written, bucket := 0, 0, 0, 0, 0, 0;
      active, closed, free, next := false, false, true, null;
    }

    // The fields are those of g; buffers and references belong to other parts of the engine.
    ghost predicate Is(g: Page)
      reads this
    {
      && freeBucket == g.freeBucket && version == g.version && objCount == g.objCount && bytesUsed == g.bytesUsed
      && reserved == g.reserved && written == g.written && bucket == g.bucket
      && active == g.active && closed == g.closed && free == g.free
    }
  }

  // ---------- lists that run through a table of links ----------

  type Links = seq<Option<nat>>

  function First(l: seq<nat>): Option<nat> {
    if l == [] then None else Some(l[0])
  }

  // The element after element i
  function After(l: seq<nat>, i: nat): Option<nat> {
    if i + 1 < |l| then Some(l[i + 1]) else None
  }

  // Element i is linked to the one after it.
  ghost predicate LinkAt(l: seq<nat>, link: Links, i: nat)
    requires i < |l|
  {
    l[i] < |link| && link[l[i]] == After(l, i)
  }

  ghost predicate Chain(l: seq<nat>, link: Links) {
    forall i: nat {:trigger LinkAt(l, link, i)} :: i < |l| ==> LinkAt(l, link, i)
  }

  ghost predicate Chains(ls: seq<seq<nat>>, link: Links) {
    forall b: nat {:trigger Chain(ls[b], link)} :: b < |ls| ==> Chain(ls[b], link)
  }

  ghost predicate OnNone(ls: seq<seq<nat>>, p: nat) {
    forall b: nat {:trigger ls[b]} :: b < |ls| ==> p !in ls[b]
  }

  // Changing the link of an element that is on no list
  lemma Relink(ls: seq<seq<nat>>, link: Links, p: nat, o: Option<nat>)
    requires Chains(ls, link) && p < |link| && OnNone(ls, p)
    ensures Chains(ls, link[p := o])
  {
    var link' := link[p := o];
    forall b: nat | b < |ls| ensures Chain(ls[b], link') {
      var l := ls[b];
      assert Chain(l, link) && p !in l;
      forall i: nat | i < |l| ensures LinkAt(l, link', i) {
        assert LinkAt(l, link, i) && l[i] in l;
      }
    }
  }

  lemma PopChain(l: seq<nat>, link: Links)
    requires Chain(l, link) && l != []
    ensures Chain(l[1..], link) && l[0] < |link| && link[l[0]] == First(l[1..])
  {
    assert LinkAt(l, link, 0);
    forall i: nat | i < |l[1..]| ensures LinkAt(l[1..], link, i) {
      assert LinkAt(l, link, i + 1);
    }
  }

  lemma PushChain(l: seq<nat>, link: Links, p: nat)
    requires Chain(l, link) && p < |link| && link[p] == First(l)
    ensures Chain([p] + l, link)
  {
    forall i: nat | i < |[p] + l| ensures LinkAt([p] + l, link, i) {
      if i > 0 { assert LinkAt(l, link, i - 1); }
    }
  }

  // Element i is unlinked: the one before it points to the one after it.
  function CutLink(link: Links, l: seq<nat>, i: nat): (r: Links)
    requires i < |l| && l[i] < |link| && (i > 0 ==> l[i - 1] < |link|)
    ensures |r| == |link|
  {
    (if i > 0 then link[l[i - 1] := After(l, i)] else link)[l[i] := None]
  }

  lemma CutChain(l: seq<nat>, link: Links, i: nat)
    requires Chain(l, link) && NoDup(l) && i < |l|
    ensures (i > 0 ==> l[i - 1] < |link|) && l[i] < |link|
    ensures Chain(l[..i] + l[i + 1..], CutLink(link, l, i))
  {
    assert LinkAt(l, link, i) && (i > 0 ==> LinkAt(l, link, i - 1));
    var m := l[..i] + l[i + 1..];
    forall j: nat | j < |m| ensures LinkAt(m, CutLink(link, l, i), j) {
      var k := if j < i then j else j + 1;
      assert m[j] == l[k] && LinkAt(l, link, k);
    }
  }

  // The lists have no page in common with list b, which has none twice.
  ghost predicate Separate(ls: seq<seq<nat>>, other: seq<seq<nat>>, b: nat)
    requires b < |ls|
  {
    && NoDup(ls[b])
    && (forall c: nat {:trigger ls[c]} :: c < |ls| && c != b ==> Disjoint(ls[b], ls[c]))
    && (forall c: nat {:trigger other[c]} :: c < |other| ==> Disjoint(ls[b], other[c]))
  }

  ghost predicate Disjoint(l: seq<nat>, m: seq<nat>) {
    forall p :: p in l ==> p !in m
  }

  // A list that shares no element with l does not notice the cut.
  lemma CutOther(m: seq<nat>, link: Links, l: seq<nat>, i: nat)
    requires Chain(m, link) && i < |l| && l[i] < |link| && (i > 0 ==> l[i - 1] < |link|)
    requires l[i] !in m && (i > 0 ==> l[i - 1] !in m)
    ensures Chain(m, CutLink(link, l, i))
  {
    forall j: nat | j < |m| ensures LinkAt(m, CutLink(link, l, i), j) {
      assert LinkAt(m, link, j) && m[j] in m;
    }
  }

  lemma CutLists(ls: seq<seq<nat>>, other: seq<seq<nat>>, link: Links, b: nat, i: nat)
    requires b < |ls| && Chains(ls, link) && Chains(other, link) && Separate(ls, other, b) && i < |ls[b]|
    ensures var l := ls[b]; l[i] < |link| && (i > 0 ==> l[i - 1] < |link|)
    ensures var l := ls[b];
      Chains(ls[b := l[..i] + l[i + 1..]], CutLink(link, l, i)) && Chains(other, CutLink(link, l, i))
  {
    var l := ls[b];
    assert Chain(l, link);
    CutChain(l, link, i);
    assert l[i] in l && (i > 0 ==> l[i - 1] in l);
    forall c: nat | c < |ls| && c != b ensures Chain(ls[c], CutLink(link, l, i)) {
      assert Chain(ls[c], link) && Disjoint(l, ls[c]);
      CutOther(ls[c], link, l, i);
    }
    forall c: nat | c < |other| ensures Chain(other[c], CutLink(link, l, i)) {
      assert Chain(other[c], link) && Disjoint(l, other[c]);
      CutOther(other[c], link, l, i);
    }
  }

  // p is element i and none before it.
  predicate FirstAt(l: seq<nat>, p: nat, i: nat) {
    i < |l| && l[i] == p && forall j :: 0 <= j < i ==> l[j] != p
  }

  lemma {:induction false} UnlistedAt(l: seq<nat>, p: nat, i: nat)
    requires FirstAt(l, p, i)
    ensures Unlisted(l, p) == l[..i] + l[i + 1..]
  {
    if i > 0 {
      UnlistedAt(l[1..], p, i - 1);
    }
  }

  // ---------- the engine's page lists ----------

  class PageStore {
    const pages: seq<StorePage>
    const buckets: array<StorePage?>
    const freeBuckets: array<StorePage?>
    var version: nat
    var pageFree: nat
    ghost var link: Links   // the page that each page points to

    ghost function Target(o: Option<nat>): StorePage? {
      if o.Some? && o.value < |pages| then pages[o.value] else null
    }

    ghost predicate Heads(hs: seq<StorePage?>, ls: seq<seq<nat>>) {
      |hs| == |ls| && forall b: nat {:trigger ls[b]} :: b < |ls| ==> hs[b] == Target(First(ls[b]))
    }

    // Page p has the number, the fields and the link it should have.
    ghost predicate Stands(p: nat, g: Page)
      reads this`link, pages
    {
      p < |pages| == |link| && pages[p].id == p && pages[p].Is(g) && pages[p].next == Target(link[p])
    }

    ghost predicate Objects(gs: seq<Page>)
      reads this`link, pages
    {
      |pages| == |gs| == |link| && forall p: nat {:trigger Stands(p, gs[p])} :: p < |pages| ==> Stands(p, gs[p])
    }

    /** The objects are in the state s. */
    ghost predicate Shows(s: State)
      reads this, pages, buckets, freeBuckets
    {
      && version == s.version && pageFree == s.pageFree && buckets != freeBuckets
      && Objects(s.pages)
      && Heads(buckets[..], s.buckets) && Heads(freeBuckets[..], s.freeBuckets)
      && Chains(s.buckets, link) && Chains(s.freeBuckets, link)
    }

    /** extstore_init: all pages are free, and each list has its pages in increasing order. */
    constructor (of: seq<nat>, count: nat, ghost wbufSize: nat, ghost disk: seq<seq<byte>>, ghost pageSize: nat,
                 ghost bufs: seq<seq<byte>>)
      requires |of| == |disk| && forall p :: 0 <= p < |of| ==> of[p] < count
      ensures Shows(Init(wbufSize, disk, pageSize, bufs, of, count))
    {
      var ps: seq<StorePage> := [];
      for p := 0 to |of|
        invariant |ps| == p && forall q: nat {:trigger ps[q]} :: q < p ==>
          && fresh(ps[q]) && ps[q].id == q && ps[q].next == null
          && ps[q].Is(Page(0, 0, 0, 0, 0, of[q], false, false, true, None, 0, 0))
      {
        var page := new StorePage(p, of[p]);
        ps := ps + [page];
      }
      pages := ps;
      buckets := new StorePage?[count](_ => null);
      freeBuckets := new StorePage?[count](_ => null);
      version, pageFree := 1, |of|;
      link := seq(|of|, _ => None);
      new;
      ghost var s := Init(wbufSize, disk, pageSize, bufs, of, count);
      forall p: nat | p < |pages| ensures Stands(p, s.pages[p]) {
        assert pages[p] == ps[p];
      }
      FillLists(of, count, s.pages, s.buckets);
    }

    // The loop that pushes the pages from the last to the first
    method FillLists(of: seq<nat>, count: nat, ghost gs: seq<Page>, ghost bs: seq<seq<nat>>)
      requires |of| == |pages| && (forall p :: 0 <= p < |of| ==> of[p] < count) && count == freeBuckets.Length
      requires Objects(gs) && (forall p :: 0 <= p < |gs| ==> gs[p].freeBucket == of[p])
      requires forall b :: 0 <= b < |bs| ==> bs[b] == []
      requires freeBuckets != buckets && forall f :: 0 <= f < count ==> freeBuckets[f] == null
      modifies this`link, pages, freeBuckets
      ensures Objects(gs) && Heads(freeBuckets[..], InitLists(of, count, 0)) && Chains(InitLists(of, count, 0), link)
      ensures Chains(bs, link)
    {
      var i := |pages|;
      while i > 0
        invariant 0 <= i <= |pages| && Objects(gs)
        invariant Heads(freeBuckets[..], InitLists(of, count, i)) && Chains(InitLists(of, count, i), link)
        invariant Chains(bs, link)
        modifies this`link, pages, freeBuckets
      {
        i := i - 1;
        ghost var ls := InitLists(of, count, i + 1);
        assert Stands(i, gs[i]) && OnNone(ls, i) && OnNone(bs, i);
        Push(freeBuckets, pages[i].freeBucket, pages[i], i, ls, bs, gs);
      }
    }

    // The first page of a free list is taken off.
    method Pop(f: nat, ghost ls: seq<seq<nat>>, ghost gs: seq<Page>) returns (tmp: StorePage, ghost p: nat)
      requires f < freeBuckets.Length && Heads(freeBuckets[..], ls) && Chains(ls, link) && f < |ls| && ls[f] != []
      requires Objects(gs)
      modifies freeBuckets
      ensures p == ls[f][0] < |pages| && tmp == pages[p]
      ensures Heads(freeBuckets[..], ls[f := ls[f][1..]]) && Chains(ls[f := ls[f][1..]], link)
    {
      ghost var rest := ls[f := ls[f][1..]];
      assert Chain(ls[f], link);
      PopChain(ls[f], link);
      p := ls[f][0];
      assert Stands(p, gs[p]);
      forall c: nat | c < |rest| ensures Chain(rest[c], link) {
        assert c != f ==> Chain(ls[c], link);
      }
      assert freeBuckets[..][f] == Target(First(ls[f]));
      tmp := freeBuckets[f];
      freeBuckets[f] := tmp.next;
    }

    // A page that is on no list is put at the front of one.
    method Push(heads: array<StorePage?>, b: nat, tmp: StorePage, ghost p: nat, ghost ls: seq<seq<nat>>,
                ghost other: seq<seq<nat>>, ghost gs: seq<Page>)
      requires b < heads.Length && Objects(gs) && p < |pages| && tmp == pages[p]
      requires Heads(heads[..], ls) && Chains(ls, link) && Chains(other, link)
      requires OnNone(ls, p) && OnNone(other, p)
      modifies this`link, tmp`next, heads
      ensures Objects(gs) && Heads(heads[..], ls[b := [p] + ls[b]])
      ensures Chains(ls[b := [p] + ls[b]], link) && Chains(other, link)
    {
      Relink(ls, link, p, First(ls[b]));
      Relink(other, link, p, First(ls[b]));
      assert Stands(p, gs[p]) && heads[..][b] == Target(First(ls[b]));
      tmp.next := heads[b];
      heads[b] := tmp;
      link := link[p := First(ls[b])];
      assert Chain(ls[b], link);
      PushChain(ls[b], link, p);
      forall q: nat | q < |pages| ensures Stands(q, gs[q]) {
        assert old(Stands(q, gs[q]));
      }
      ghost var ls' := ls[b := [p] + ls[b]];
      forall c: nat | c < |ls'| ensures Chain(ls'[c], link) {
        assert c != b ==> Chain(ls[c], link);
      }
    }

    /** _allocate_page, the lists and the page: the requested free list is tried first, then list 0. A page taken from
        a free list is counted by page_free, as the source asserts. */
    method Allocate(b: nat, fb: nat, ghost s: State) returns (tmp: StorePage?)
      requires Inv(s) && Shows(s) && b < |s.buckets| && fb < |s.freeBuckets|
      modifies this, pages, buckets, freeBuckets
      ensures Shows(AllocatePage(s, b, fb))
      ensures tmp == null <==> s.freeBuckets[fb] == [] && s.freeBuckets[0] == []
      ensures tmp != null ==> tmp in pages && old(tmp.free) && tmp.active && tmp.version == old(version)
    {
      ghost var f := Source(s, fb);
      assert freeBuckets[..][fb] == Target(First(s.freeBuckets[fb])) &&
          freeBuckets[..][0] == Target(First(s.freeBuckets[0]));
      if s.freeBuckets[f] != [] {
        FreeHead(s, f);
        assert Stands(s.freeBuckets[f][0], s.pages[s.freeBuckets[f][0]]);
      }
      ghost var p;
      if freeBuckets[fb] != null {
        assert pageFree > 0;
        tmp, p := Pop(fb, s.freeBuckets, s.pages);
      } else if freeBuckets[0] != null {
        assert pageFree > 0;
        tmp, p := Pop(0, s.freeBuckets, s.pages);
      } else {
        return null;
      }
      OnNoList(s, f);
      Push(buckets, b, tmp, p, s.buckets, s.freeBuckets[f := s.freeBuckets[f][1..]], s.pages);
      Enter(tmp, p, b, s.pages);
    }

    // The page goes into service.
    method Enter(tmp: StorePage, ghost p: nat, b: nat, ghost gs: seq<Page>)
      requires Objects(gs) && p < |pages| && tmp == pages[p] && pageFree > 0
      modifies this`version, this`pageFree, tmp
      ensures version == old(version) + 1 && pageFree == old(pageFree) - 1 && link == old(link)
      ensures Objects(gs[p := gs[p].(active := true, free := false, closed := false, version := old(version),
          bucket := b)])
      ensures tmp.active && tmp.version == old(version)
    {
      tmp.active, tmp.free, tmp.closed := true, false, false;
      tmp.version := version;
      version := version + 1;
      tmp.bucket := b;
      pageFree := pageFree - 1;
      ghost var gs' :=
        gs[p := gs[p].(active := true, free := false, closed := false, version := old(version), bucket := b)];
      forall q: nat | q < |pages| ensures Stands(q, gs'[q]) {
        assert old(Stands(q, gs[q])) && old(Stands(p, gs[p]));
      }
    }

    /** _free_page: the walk along the page's bucket finds it, whatever its place, and it becomes the first page of its
        free list. */
    method Free(p: StorePage, ghost id: nat, ghost s: State)
      requires Inv(s) && Shows(s) && id < |pages| && p == pages[id] && !s.pages[id].free
      modifies this, pages, buckets, freeBuckets
      ensures s.pages[id].bucket < |s.buckets| && s.pages[id].freeBucket < |s.freeBuckets| && Shows(FreePage(s, id))
    {
      PageFacts(s, id);
      InUse(s, id);
      assert Stands(id, s.pages[id]);
      ghost var bs := s.buckets[s.pages[id].bucket := Unlisted(s.buckets[s.pages[id].bucket], id)];
      Unlink(p, id, s.buckets, s.freeBuckets, s.pages);
      ghost var gs := Reset(p, id, s.pages);
      assert Stands(id, gs[id]);
      Push(freeBuckets, p.freeBucket, p, id, s.freeBuckets, bs, gs);
      pageFree := pageFree + 1;
    }

    method Reset(p: StorePage, ghost id: nat, ghost gs: seq<Page>) returns (ghost gs': seq<Page>)
      requires Objects(gs) && id < |pages| && p == pages[id]
      modifies p
      ensures p.next == old(p.next)
      ensures gs' == gs[id := gs[id].(version := 0, objCount := 0, bytesUsed := 0, reserved := 0, written := 0,
          bucket := 0,
                                      active := false, closed := false, free := true)]
      ensures Objects(gs')
    {
      p.version, p.objCount, p.bytesUsed, p.reserved, p.written, p.bucket := 0, 0, 0, 0, 0, 0;
      p.active, p.closed, p.free := false, false, true;
      gs' := gs[id := gs[id].(version := 0, objCount := 0, bytesUsed := 0, reserved := 0, written := 0, bucket := 0,
                              active := false, closed := false, free := true)];
      forall q: nat | q < |pages| ensures Stands(q, gs'[q]) {
        assert old(Stands(q, gs[q])) && old(Stands(id, gs[id]));
      }
    }

    // The walk along a bucket's list up to page p
    method Walk(p: StorePage, ghost id: nat, b: nat, ghost l: seq<nat>, ghost gs: seq<Page>)
      returns (prev: StorePage?, ghost i: nat)
      requires Objects(gs) && b < buckets.Length && buckets[b] == Target(First(l)) && Chain(l, link)
      requires id < |pages| && p == pages[id] && id in l
      ensures FirstAt(l, id, i) && (i > 0 ==> l[i - 1] < |pages|)
      ensures prev == (if i == 0 then null else pages[l[i - 1]])
    {
      ghost var k :| 0 <= k < |l| && l[k] == id;
      var tmp := buckets[b];
      prev, i := null, 0;
      assert LinkAt(l, link, 0) && Stands(id, gs[id]);
      while tmp != p
        invariant i <= k && l[i] < |pages| && tmp == pages[l[i]] && (i > 0 ==> l[i - 1] < |pages|)
        invariant prev == (if i == 0 then null else pages[l[i - 1]]) && forall j :: 0 <= j < i ==> l[j] != id
        decreases k - i
      {
        assert LinkAt(l, link, i) && LinkAt(l, link, i + 1) && Stands(l[i], gs[l[i]]);
        prev := tmp;
        tmp := tmp.next;
        i := i + 1;
      }
      assert Stands(l[i], gs[l[i]]);
    }

    // The page is taken out of its bucket's list.
    method Unlink(p: StorePage, ghost id: nat, ghost ls: seq<seq<nat>>, ghost other: seq<seq<nat>>, ghost gs: seq<Page>)
      requires Objects(gs) && id < |pages| && p == pages[id] && p.bucket < |ls|
      requires Heads(buckets[..], ls) && Chains(ls, link) && Chains(other, link)
      requires id in ls[p.bucket] && Separate(ls, other, p.bucket)
      modifies this`link, pages, buckets
      ensures Objects(gs) && p.bucket == old(p.bucket)
      ensures Heads(buckets[..], ls[p.bucket := Unlisted(ls[p.bucket], id)])
      ensures Chains(ls[p.bucket := Unlisted(ls[p.bucket], id)], link) && Chains(other, link)
    {
      var b := p.bucket;
      ghost var l := ls[b];
      assert buckets[..][b] == Target(First(l)) && Chain(l, link);
      var prev, i := Walk(p, id, b, l, gs);
      UnlistedAt(l, id, i);
      CutLists(ls, other, link, b, i);
      assert Stands(id, gs[id]);
      Bypass(p, prev, b, l, i, gs);
      assert Stands(id, gs[id]);
    }

    // The page before p, or the head of the list, points to the page after p.
    method Bypass(p: StorePage, prev: StorePage?, b: nat, ghost l: seq<nat>, ghost i: nat, ghost gs: seq<Page>)
      requires Objects(gs) && b < buckets.Length && Chain(l, link) && NoDup(l) && i < |l| && l[i] < |pages|
      requires p == pages[l[i]]
      requires (i > 0 ==> l[i - 1] < |pages|) && prev == (if i == 0 then null else pages[l[i - 1]])
      requires buckets[b] == Target(First(l))
      modifies this`link, pages, buckets
      ensures Objects(gs) && link == CutLink(old(link), l, i)
      ensures buckets[..] == old(buckets[..])[b := Target(First(l[..i] + l[i + 1..]))]
    {
      assert LinkAt(l, link, i) && Stands(l[i], gs[l[i]]) && (i > 0 ==> Stands(l[i - 1], gs[l[i - 1]]));
      if prev != null {
        prev.next := p.next;
      } else {
        buckets[b] := p.next;
      }
      p.next := null;
      link := CutLink(link, l, i);
      forall q: nat | q < |pages| ensures Stands(q, gs[q]) {
        assert old(Stands(q, gs[q]));
      }
    }
  }

  // The first page of a free list is on no bucket's list, and on no free list once it is taken off.
  lemma OnNoList(s: State, f: nat)
    requires Inv(s) && f < |s.freeBuckets| && s.freeBuckets[f] != []
    ensures var p, fs := s.freeBuckets[f][0], s.freeBuckets[f := s.freeBuckets[f][1..]];
      OnNone(s.buckets, p) && OnNone(fs, p)
  {
    FreeHead(s, f);
    var p := s.freeBuckets[f][0];
    forall c: nat | c < |s.buckets| ensures p !in s.buckets[c] {
      assert BucketOK(s, c);
    }
    var fs := s.freeBuckets[f := s.freeBuckets[f][1..]];
    forall c: nat | c < |fs| ensures p !in fs[c] {
      assert FreeListOK(s, c);
      if c == f { TailFacts(s.freeBuckets[f]); }
    }
  }

  // A page in use is on its bucket's list only.
  lemma InUse(s: State, p: nat)
    requires Inv(s) && p < |s.pages| && !s.pages[p].free && s.pages[p].bucket < |s.buckets|
    ensures var b := s.pages[p].bucket; var bs := s.buckets[b := Unlisted(s.buckets[b], p)];
      && p in s.buckets[b] && Separate(s.buckets, s.freeBuckets, b)
      && OnNone(bs, p) && OnNone(s.freeBuckets, p)
  {
    var b := s.pages[p].bucket;
    assert BucketOK(s, b);
    UnlistedFacts(s.buckets[b], p);
    forall c: nat | c < |s.buckets| && c != b ensures Disjoint(s.buckets[b], s.buckets[c]) && p !in s.buckets[c] {
      assert BucketOK(s, c);
    }
    forall c: nat | c < |s.freeBuckets| ensures Disjoint(s.buckets[b], s.freeBuckets[c]) && p !in s.freeBuckets[c] {
      assert FreeListOK(s, c);
    }
  }
}
