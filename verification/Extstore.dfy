/** The external page store of sources/memcached/extstore.c as a state machine.

    Every critical section of the source (a stretch under the page lock or the engine lock) and every
    unlocked disk access is one step; threads interleave arbitrarily. Two history variables describe
    what callers were promised: `log` is the byte content of the current generation of each page,
    `objs` the objects ever written. Disk I/O succeeds and the version counter does not wrap.
 */
module Extstore {

  import opened Common
  import opened Division

  // `reserved` is the source's `allocated`.
  datatype Page = Page(
    version: nat, refcount: nat, reserved: nat, written: nat, bucket: nat, freeBucket: nat,
    active: bool, closed: bool, free: bool, wbuf: Option<nat>, objCount: nat, bytesUsed: nat)

  // buf_pos is size - free.
  datatype Wbuf = Wbuf(buf: seq<byte>, free: nat, offset: nat, full: bool)

  // A submitted write; done once pwrite has returned and the callback is due.
  datatype WriteIo = WriteIo(page: nat, wbuf: nat, offset: nat, done: bool)

  datatype Obj = Obj(page: nat, version: nat, offset: nat, data: seq<byte>)

  // A read that took the disk path and holds a reference on its page
  datatype Read = Read(obj: Obj, data: Option<seq<byte>>)

  datatype State = State(
    pageSize: nat, wbufSize: nat,
    pages: seq<Page>, wbufs: seq<Wbuf>, disk: seq<seq<byte>>,
    wbufStack: seq<nat>, ioFree: nat, queue: seq<WriteIo>, version: nat,
    buckets: seq<seq<nat>>, freeBuckets: seq<seq<nat>>, pageFree: nat,
    inflight: map<nat, Read>,
    log: seq<seq<byte>>, objs: set<Obj>)

  // ---------- the invariant ----------

  ghost predicate Config(s: State) {
    && s.wbufSize > 0 && s.pageSize % s.wbufSize == 0 && s.pageSize > 0 && s.version >= 1
    && |s.pages| == |s.disk| == |s.log|
    && |s.freeBuckets| > 0 && |s.buckets| > 0
    && (forall w :: 0 <= w < |s.wbufs| ==> |s.wbufs[w].buf| == s.wbufSize)
    && (forall p :: 0 <= p < |s.disk| ==> |s.disk[p]| == s.pageSize)
  }

  // The write buffer of page p holds the end of the page's content.
  ghost predicate BufferOK(s: State, p: nat)
    requires Config(s) && p < |s.pages|
  {
    var g := s.pages[p];
    match g.wbuf
    case None => g.reserved == g.written && |s.log[p]| == g.written
    case Some(id) =>
      && g.active && id < |s.wbufs| && g.reserved == g.written + s.wbufSize
      && var w := s.wbufs[id];
      && w.offset == g.written && w.free <= s.wbufSize
      && |s.log[p]| == g.written + (if w.full then s.wbufSize else s.wbufSize - w.free)
      && w.buf[..|s.log[p]| - g.written] == s.log[p][g.written..]
  }

  ghost predicate PageOK(s: State, p: nat)
    requires Config(s) && p < |s.pages|
  {
    var g := s.pages[p];
    && g.written <= s.pageSize && g.written % s.wbufSize == 0
    && g.bucket < |s.buckets| && g.freeBucket < |s.freeBuckets|
    && (g.free ==> g.version == 0 && g.reserved == 0 && g.written == 0 && g.refcount == 0 && g.objCount == 0)
    && (g.free ==> !g.active && !g.closed)
    && (!g.free ==> 1 <= g.version < s.version && (g.active <==> g.written < s.pageSize))
    && (g.closed ==> !g.active)
    && BufferOK(s, p)
    && s.disk[p][..g.written] == s.log[p][..g.written]
  }

  // A queued write belongs to a page whose buffer is full and not yet flushed.
  ghost predicate QueueOK(s: State, i: nat)
    requires Config(s) && i < |s.queue|
  {
    var io := s.queue[i];
    && io.page < |s.pages| && s.pages[io.page].wbuf == Some(io.wbuf) && io.wbuf < |s.wbufs|
    && s.wbufs[io.wbuf].full && io.offset == s.pages[io.page].written && io.offset + s.wbufSize <= s.pageSize
    && (io.done ==> i == 0 && s.disk[io.page][io.offset..io.offset + s.wbufSize] == s.wbufs[io.wbuf].buf)
  }

  ghost predicate HasWbuf(s: State, p: nat) {
    p < |s.pages| && s.pages[p].wbuf.Some? && s.pages[p].wbuf.value < |s.wbufs|
  }

  ghost predicate Queued(s: State, p: nat) {
    exists i: nat :: i < |s.queue| && s.queue[i].page == p
  }

  ghost predicate QueueInv(s: State)
    requires Config(s)
  {
    && (forall i: nat {:trigger QueueOK(s, i)} :: i < |s.queue| ==> QueueOK(s, i))
    && (forall i, j :: 0 <= i < j < |s.queue| ==> s.queue[i].page != s.queue[j].page)
    && (forall p: nat {:trigger Queued(s, p)} :: HasWbuf(s, p) && s.wbufs[s.pages[p].wbuf.value].full ==> Queued(s, p))
  }

  // An object lies within one buffer's worth of its page, and while its generation lasts the page
  // content has its bytes.
  ghost predicate ObjOK(s: State, o: Obj)
    requires Config(s)
  {
    && o.data != [] && o.page < |s.pages| && 1 <= o.version < s.version
    && o.offset % s.wbufSize + |o.data| <= s.wbufSize
    && (s.pages[o.page].version == o.version ==>
        o.offset + |o.data| <= |s.log[o.page]| && s.log[o.page][o.offset..o.offset + |o.data|] == o.data)
  }

  ghost function Readers(m: map<nat, Read>, p: nat): set<nat> {
    set id | id in m && m[id].obj.page == p
  }

  lemma MoreReaders(m: map<nat, Read>, id: nat, r: Read, p: nat)
    requires id !in m
    ensures |Readers(m[id := r], p)| == |Readers(m, p)| + if r.obj.page == p then 1 else 0
  {
    var a, b := Readers(m[id := r], p), Readers(m, p);
    if r.obj.page == p {
      assert a == b + {id};
    } else {
      assert a == b;
    }
  }

  lemma SameReaders(m: map<nat, Read>, id: nat, r: Read, p: nat)
    requires id in m && m[id].obj == r.obj
    ensures Readers(m[id := r], p) == Readers(m, p)
  {
  }

  lemma FewerReaders(m: map<nat, Read>, id: nat, p: nat)
    requires id in m
    ensures |Readers(m, p)| == |Readers(m - {id}, p)| + if m[id].obj.page == p then 1 else 0
  {
    var a, b := Readers(m, p), Readers(m - {id}, p);
    if m[id].obj.page == p {
      assert a == b + {id};
    } else {
      assert a == b;
    }
  }

  ghost predicate ReadOK(s: State, id: nat)
    requires Config(s) && id in s.inflight
  {
    var r := s.inflight[id];
    && r.obj in s.objs && r.obj.page < |s.pages|
    && var g := s.pages[r.obj.page];
    && !g.free && g.version == r.obj.version && r.obj.offset + |r.obj.data| <= g.written
    && (r.data.Some? ==> r.data.value == r.obj.data)
  }

  ghost predicate PagesOK(s: State)
    requires Config(s)
  {
    forall p: nat {:trigger PageOK(s, p)} :: p < |s.pages| ==> PageOK(s, p)
  }

  ghost predicate ObjsOK(s: State, objs: set<Obj>)
    requires Config(s)
  {
    forall o {:trigger ObjOK(s, o)} :: o in objs ==> ObjOK(s, o)
  }

  // The reference count of a page is the number of reads that are using it.
  ghost predicate ReadsOK(s: State)
    requires Config(s)
  {
    && (forall id {:trigger ReadOK(s, id)} :: id in s.inflight ==> ReadOK(s, id))
    && (forall p: nat {:trigger Readers(s.inflight, p)} :: p < |s.pages| ==>
        s.pages[p].refcount == |Readers(s.inflight, p)|)
  }

  ghost predicate DataInv(s: State)
    requires Config(s)
  {
    PagesOK(s) && QueueInv(s) && ObjsOK(s, s.objs) && ReadsOK(s)
  }

  ghost function Attached(s: State): set<nat> {
    set p: nat | p < |s.pages| && s.pages[p].wbuf.Some?
  }

  // Write buffers and I/O objects are conserved.
  ghost predicate Conserved(s: State) {
    && |s.wbufStack| + |Attached(s)| == |s.wbufs|
    && s.ioFree + |s.queue| == |s.wbufs|
    && (forall i :: 0 <= i < |s.wbufStack| ==> s.wbufStack[i] < |s.wbufs|)
    && (forall i, j :: 0 <= i < j < |s.wbufStack| ==> s.wbufStack[i] != s.wbufStack[j])
    && (forall p: nat, i :: p < |s.pages| && s.pages[p].wbuf.Some? && 0 <= i < |s.wbufStack| ==>
        s.pages[p].wbuf.value != s.wbufStack[i])
    && (forall p: nat, q: nat :: p < q < |s.pages| && s.pages[p].wbuf.Some? && s.pages[q].wbuf.Some? ==>
        s.pages[p].wbuf != s.pages[q].wbuf)
  }

  ghost function FreePages(s: State): set<nat> {
    set p: nat | p < |s.pages| && s.pages[p].free
  }

  ghost predicate FreeListOK(s: State, f: nat)
    requires f < |s.freeBuckets|
  {
    NoDup(s.freeBuckets[f]) && forall p: nat :: p in s.freeBuckets[f] <==>
        p < |s.pages| && s.pages[p].free && s.pages[p].freeBucket == f
  }

  ghost predicate BucketOK(s: State, b: nat)
    requires b < |s.buckets|
  {
    NoDup(s.buckets[b]) && forall p: nat :: p in s.buckets[b] <==>
        p < |s.pages| && !s.pages[p].free && s.pages[p].bucket == b
  }

  // Every page is on exactly one list: its own free list or its own bucket's list.
  ghost predicate Listed(s: State) {
    && (forall f: nat {:trigger FreeListOK(s, f)} :: f < |s.freeBuckets| ==> FreeListOK(s, f))
    && (forall b: nat {:trigger BucketOK(s, b)} :: b < |s.buckets| ==> BucketOK(s, b))
    && s.pageFree == |FreePages(s)|
  }

  ghost predicate Inv(s: State) {
    Config(s) && DataInv(s) && Conserved(s) && Listed(s)
  }

  // ---------- consequences of the invariant ----------

  lemma PageFacts(s: State, p: nat)
    requires Inv(s) && p < |s.pages|
    ensures PageOK(s, p)
  {
  }

  lemma QueueFacts(s: State)
    requires Inv(s) && s.queue != []
    ensures QueueOK(s, 0) && PageOK(s, s.queue[0].page)
  {
    assert QueueOK(s, 0);
  }

  lemma ReadFacts(s: State, id: nat)
    requires Inv(s) && id in s.inflight
    ensures ReadOK(s, id) && ObjOK(s, s.inflight[id].obj) && PageOK(s, s.inflight[id].obj.page)
    ensures s.pages[s.inflight[id].obj.page].refcount > 0
  {
    assert ReadOK(s, id);
    assert id in Readers(s.inflight, s.inflight[id].obj.page);
  }

  // Below a multiple of w there is room for a whole block of w.
  lemma NextBlock(a: nat, n: nat, w: nat)
    requires w > 0 && a % w == 0 && n % w == 0 && a < n
    ensures a + w <= n
  {
    Factor(a, w);
    Factor(n, w);
    Products(a / w - n / w, w);
    Products(n / w - a / w - 1, w);
  }

  lemma BlockEnd(a: nat, pos: nat, w: nat)
    requires w > 0 && a % w == 0 && pos <= w
    ensures (a + pos) % w == if pos == w then 0 else pos
  {
    Factor(a, w);
    if pos == w {
      assert a + pos == (a / w + 1) * w;
      Unique(a + pos, a / w + 1, 0, w);
    } else {
      Unique(a + pos, a / w, pos, w);
    }
  }

  // An object within one block cannot straddle the flushed part of its page.
  lemma Block(offset: nat, len: nat, written: nat, w: nat)
    requires w > 0 && written % w == 0 && offset % w + len <= w && offset < written
    ensures offset + len <= written
  {
    var base := offset - offset % w;
    Factor(offset, w);
    Unique(base, offset / w, 0, w);
    NextBlock(base, written, w);
  }

  lemma {:induction false} QueuePages(queue: seq<WriteIo>, pages: set<nat>)
    requires forall i, j :: 0 <= i < j < |queue| ==> queue[i].page != queue[j].page
    requires forall i :: 0 <= i < |queue| ==> queue[i].page in pages
    ensures |queue| <= |pages|
  {
    if queue != [] {
      QueuePages(queue[1..], pages - {queue[0].page});
    }
  }

  /** _submit_wbuf never finds the io stack empty. */
  lemma IoLeft(s: State, p: nat)
    requires Inv(s) && HasWbuf(s, p) && !s.wbufs[s.pages[p].wbuf.value].full
    ensures s.ioFree > 0
  {
    forall i: nat | i < |s.queue| ensures s.queue[i].page in Attached(s) - {p} {
      assert QueueOK(s, i);
    }
    QueuePages(s.queue, Attached(s) - {p});
  }

  /** The asserts of _read_from_wbuf hold: a read past the flushed part finds its bytes in the buffer. */
  lemma ObjInBuffer(s: State, o: Obj)
    requires Inv(s) && o in s.objs && o.page < |s.pages|
    requires var g := s.pages[o.page]; g.active && g.version == o.version && o.offset >= g.written
    ensures HasWbuf(s, o.page)
    ensures var w := s.wbufs[s.pages[o.page].wbuf.value];
      && w.offset <= o.offset < s.pages[o.page].written + |w.buf| && o.offset - w.offset + |o.data| <= |w.buf|
      && w.buf[o.offset - w.offset..o.offset - w.offset + |o.data|] == o.data
  {
    PageFacts(s, o.page);
    assert ObjOK(s, o);
    var g, l := s.pages[o.page], s.log[o.page];
    var w := s.wbufs[g.wbuf.value];
    var a, n := o.offset - g.written, |o.data|;
    assert w.buf[a..a + n] == w.buf[..|l| - g.written][a..a + n];
    assert l[g.written..][a..a + n] == l[o.offset..o.offset + n];
  }

  /** A read sent to the disk path asks only for bytes that were flushed. */
  lemma ObjOnDisk(s: State, o: Obj)
    requires Inv(s) && o in s.objs && o.page < |s.pages|
    requires var g := s.pages[o.page]; !g.free && g.version == o.version && !(g.active && o.offset >= g.written)
    ensures o.offset + |o.data| <= s.pages[o.page].written
  {
    PageFacts(s, o.page);
    assert ObjOK(s, o);
    var g := s.pages[o.page];
    if g.active {
      Block(o.offset, |o.data|, g.written, s.wbufSize);
    }
  }

  // ---------- the steps ----------

  function Unlisted(s: seq<nat>, x: nat): seq<nat> {
    if s == [] then [] else if s[0] == x then s[1..] else [s[0]] + Unlisted(s[1..], x)
  }

  // _free_page
  function FreePage(s: State, p: nat): State
    requires p < |s.pages| == |s.log| && s.pages[p].bucket < |s.buckets| && s.pages[p].freeBucket < |s.freeBuckets|
  {
    var g := s.pages[p];
    s.(buckets := s.buckets[g.bucket := Unlisted(s.buckets[g.bucket], p)],
       pages := s.pages[p := g.(version := 0, objCount := 0, bytesUsed := 0, reserved := 0, written := 0, bucket := 0,
                                active := false, closed := false, free := true)],
       freeBuckets := s.freeBuckets[g.freeBucket := [p] + s.freeBuckets[g.freeBucket]],
       pageFree := s.pageFree + 1,
       log := s.log[p := []])
  }

  // The free list _allocate_page takes from: the requested one, or list 0 when that is empty
  function Source(s: State, fb: nat): (f: nat)
    requires fb < |s.freeBuckets|
    ensures f < |s.freeBuckets|
  {
    if s.freeBuckets[fb] != [] then fb else 0
  }

  // _allocate_page
  ghost function AllocatePage(s: State, b: nat, fb: nat): State
    requires Inv(s) && b < |s.buckets| && fb < |s.freeBuckets|
  {
    var f := Source(s, fb);
    if s.freeBuckets[f] == [] then s
    else
      FreeHead(s, f);
      var p := s.freeBuckets[f][0];
      s.(freeBuckets := s.freeBuckets[f := s.freeBuckets[f][1..]],
         buckets := s.buckets[b := [p] + s.buckets[b]],
         pages := s.pages[p := s.pages[p].(active := true, free := false, closed := false, version := s.version,
             bucket := b)],
         version := s.version + 1,
         pageFree := s.pageFree - 1,
         log := s.log[p := []])
  }

  /** The asserts of _allocate_page: a page taken from a free list is free, and page_free counts it. */
  lemma FreeHead(s: State, f: nat)
    requires Inv(s) && f < |s.freeBuckets| && s.freeBuckets[f] != []
    ensures var p := s.freeBuckets[f][0]; p < |s.pages| && s.pages[p].free && s.pages[p].freeBucket == f && PageOK(s, p)
    ensures s.pageFree > 0
  {
    var p := s.freeBuckets[f][0];
    assert FreeListOK(s, f);
    PageFacts(s, p);
    assert p in FreePages(s);
  }

  function Zeros(n: nat): (r: seq<byte>)
    ensures |r| == n
  {
    seq(n, _ => 0)
  }

  // _submit_wbuf: the unused end of the buffer is zeroed and the write is queued
  ghost function SubmitWbuf(s: State, p: nat): State
    requires Inv(s) && HasWbuf(s, p) && !s.wbufs[s.pages[p].wbuf.value].full
  {
    PageFacts(s, p);
    IoLeft(s, p);
    var id := s.pages[p].wbuf.value;
    var w := s.wbufs[id];
    s.(ioFree := s.ioFree - 1,
       wbufs := s.wbufs[id := w.(buf := w.buf[..s.wbufSize - w.free] + Zeros(w.free), full := true)],
       queue := s.queue + [WriteIo(p, id, w.offset, false)],
       log := s.log[p := s.log[p] + Zeros(w.free)])
  }

  // _allocate_wbuf
  ghost function AllocateWbuf(s: State, p: nat): State
    requires Inv(s) && p < |s.pages|
  {
    if s.wbufStack == [] then s
    else
      var id := s.wbufStack[0];
      s.(wbufStack := s.wbufStack[1..],
         wbufs := s.wbufs[id := s.wbufs[id].(offset := s.pages[p].reserved, free := s.wbufSize, full := false)],
         pages := s.pages[p := s.pages[p].(reserved := s.pages[p].reserved + s.wbufSize, wbuf := Some(id))])
  }

  // extstore_write, with the caller's bytes copied into the buffer handed out by extstore_write_request
  ghost function Append(s: State, p: nat, data: seq<byte>): State
    requires Inv(s) && HasWbuf(s, p) && |data| <= s.wbufs[s.pages[p].wbuf.value].free
  {
    PageFacts(s, p);
    var id := s.pages[p].wbuf.value;
    var w := s.wbufs[id];
    var pos := s.wbufSize - w.free;
    var obj := Obj(p, s.pages[p].version, w.offset + pos, data);
    s.(wbufs := s.wbufs[id := w.(buf := w.buf[..pos] + data + w.buf[pos + |data|..], free := w.free - |data|)],
       pages := s.pages[p := s.pages[p].(bytesUsed := s.pages[p].bytesUsed + |data|,
           objCount := s.pages[p].objCount + 1)],
       log := s.log[p := s.log[p] + data],
       objs := if data == [] then s.objs else s.objs + {obj})
  }

  // extstore_write_request refuses a page that is inactive or has no room left
  ghost predicate Refuses(s: State, p: nat)
    requires Inv(s) && p < |s.pages|
  {
    PageFacts(s, p);
    var g := s.pages[p];
    !g.active || ((g.wbuf.None? || s.wbufs[g.wbuf.value].full) && g.reserved >= s.pageSize)
  }

  // The buffer part of extstore_write_request: a buffer without room for n bytes is submitted, a
  // missing buffer is allocated
  ghost function Prepare(s: State, p: nat, n: nat): State
    requires Inv(s) && p < |s.pages|
  {
    PageFacts(s, p);
    var g := s.pages[p];
    if g.wbuf.None? then (if g.reserved < s.pageSize then AllocateWbuf(s, p) else s)
    else if s.wbufs[g.wbuf.value].free < n && !s.wbufs[g.wbuf.value].full then SubmitWbuf(s, p)
    else s
  }

  ghost predicate Ready(s: State, p: nat, n: nat) {
    HasWbuf(s, p) && !s.wbufs[s.pages[p].wbuf.value].full && s.wbufs[s.pages[p].wbuf.value].free >= n
  }

  // extstore_write_request followed, when it hands out a buffer, by extstore_write: the page stays
  // locked from the first to the second, so both form one critical section.
  ghost function Write(s: State, p: nat, data: seq<byte>): State
    requires Inv(s) && p < |s.pages|
  {
    if Refuses(s, p) then s
    else
      PrepareOK(s, p, |data|);
      var s1 := Prepare(s, p, |data|);
      if Ready(s1, p, |data|) then Append(s1, p, data) else s1
  }

  // What a successful write tells its caller: the location of the object
  ghost function Written(s: State, p: nat, data: seq<byte>): Option<Obj>
    requires Inv(s) && p < |s.pages|
  {
    if Refuses(s, p) then None
    else
      PrepareOK(s, p, |data|);
      var s1 := Prepare(s, p, |data|);
      if !Ready(s1, p, |data|) then None
      else
        PageFacts(s1, p);
        var w := s1.wbufs[s1.pages[p].wbuf.value];
        Some(Obj(p, s1.pages[p].version, w.offset + (s1.wbufSize - w.free), data))
  }

  function Overwrite(d: seq<byte>, at: nat, b: seq<byte>): (r: seq<byte>)
    requires at + |b| <= |d|
    ensures |r| == |d|
  {
    d[..at] + b + d[at + |b|..]
  }

  // The background thread: pwrite of the oldest queued write, without any lock
  ghost function PWrite(s: State): State
    requires Inv(s) && s.queue != [] && !s.queue[0].done
  {
    QueueFacts(s);
    var io := s.queue[0];
    s.(disk := s.disk[io.page := Overwrite(s.disk[io.page], io.offset, s.wbufs[io.wbuf].buf)],
       queue := [io.(done := true)] + s.queue[1..])
  }

  // _wbuf_cb
  ghost function WbufCallback(s: State): State
    requires Inv(s) && s.queue != [] && s.queue[0].done
  {
    QueueFacts(s);
    var io := s.queue[0];
    var g := s.pages[io.page];
    var written := g.written + s.wbufSize;
    s.(pages := s.pages[io.page := g.(written := written, wbuf := None, active := g.active && written != s.pageSize)],
       wbufStack := [io.wbuf] + s.wbufStack,
       ioFree := s.ioFree + 1,
       queue := s.queue[1..])
  }

  datatype ReadResult = Failed | FromBuffer(data: seq<byte>) | OnDisk

  // The locked part of an OBJ_IO_READ, for an object that was written at some time
  ghost function StartRead(s: State, o: Obj): (r: ReadResult)
    requires Inv(s) && o in s.objs
  {
    assert ObjOK(s, o);
    var g := s.pages[o.page];
    if !g.free && !g.closed && g.version == o.version then
      if g.active && o.offset >= g.written then
        ObjInBuffer(s, o);
        var w := s.wbufs[g.wbuf.value];
        FromBuffer(w.buf[o.offset - w.offset..o.offset - w.offset + |o.data|])
      else OnDisk
    else Failed
  }

  // A read on the disk path takes a reference on its page.
  function Retain(s: State, o: Obj, id: nat): State
    requires o.page < |s.pages|
  {
    s.(inflight := s.inflight[id := Read(o, None)],
       pages := s.pages[o.page := s.pages[o.page].(refcount := s.pages[o.page].refcount + 1)])
  }

  // pread, without any lock
  ghost function PRead(s: State, id: nat): State
    requires Inv(s) && id in s.inflight
  {
    ReadFacts(s, id);
    var o := s.inflight[id].obj;
    s.(inflight := s.inflight[id := Read(o, Some(s.disk[o.page][o.offset..o.offset + |o.data|]))])
  }

  // After the caller's callback the reference is dropped.
  ghost function Release(s: State, id: nat): State
    requires Inv(s) && id in s.inflight
  {
    ReadFacts(s, id);
    var p := s.inflight[id].obj.page;
    s.(inflight := s.inflight - {id},
       pages := s.pages[p := s.pages[p].(refcount := s.pages[p].refcount - 1)])
  }

  function Sub(a: nat, b: nat): nat {
    if a >= b then a - b else 0
  }

  function Mark(s: State, p: nat, closed: bool, objCount: nat, bytesUsed: nat): State
    requires p < |s.pages|
  {
    s.(pages := s.pages[p := s.pages[p].(closed := closed, objCount := objCount, bytesUsed := bytesUsed)])
  }

  // extstore_delete
  ghost function Delete(s: State, p: nat, version: nat, count: nat, bytes: nat): State
    requires Inv(s) && p < |s.pages|
  {
    PageFacts(s, p);
    var g := s.pages[p];
    if !g.closed && g.version == version then
      var s' := Mark(s, p, false, Sub(g.objCount, count), Sub(g.bytesUsed, bytes));
      if s'.pages[p].objCount == 0 && g.refcount == 0 && !g.active then FreePage(s', p) else s'
    else s
  }

  // extstore_close_page and extstore_evict_page
  ghost function Close(s: State, p: nat, version: nat): State
    requires Inv(s) && p < |s.pages|
  {
    PageFacts(s, p);
    var g := s.pages[p];
    if !g.closed && !g.active && g.version == version then
      var s' := Mark(s, p, true, g.objCount, g.bytesUsed);
      if g.refcount == 0 then FreePage(s', p) else s'
    else s
  }

  // extstore_get_page_data, for one page
  ghost function Sweep(s: State, p: nat): State
    requires Inv(s) && p < |s.pages|
  {
    PageFacts(s, p);
    var g := s.pages[p];
    if g.active || g.free then s
    else if (g.objCount == 0 || g.closed) && g.refcount == 0 then FreePage(s, p)
    else s
  }

  // ---------- every step keeps the invariant ----------

  // s and t agree on everything that belongs to pages other than p.
  ghost predicate SameElsewhere(s: State, t: State, p: nat)
    requires Config(s) && Config(t)
  {
    && t.pageSize == s.pageSize && t.wbufSize == s.wbufSize && s.version <= t.version
    && |t.pages| == |s.pages| && |t.wbufs| == |s.wbufs| && |t.buckets| == |s.buckets|
    && |t.freeBuckets| == |s.freeBuckets|
    && (forall q :: 0 <= q < |s.pages| && q != p ==> t.pages[q] == s.pages[q])
    && (forall q :: 0 <= q < |s.pages| && q != p ==> t.log[q] == s.log[q])
    && (forall q :: 0 <= q < |s.pages| && q != p ==> t.disk[q] == s.disk[q])
    && (forall w :: 0 <= w < |s.wbufs| && t.wbufs[w] != s.wbufs[w] ==> forall q :: 0 <= q < |s.pages| && q != p ==>
        s.pages[q].wbuf != Some(w))
  }

  lemma PagesFrame(s: State, t: State, p: nat)
    requires Config(s) && Config(t) && SameElsewhere(s, t, p) && PagesOK(s) && p < |s.pages| && PageOK(t, p)
    ensures PagesOK(t)
  {
    forall q: nat | q < |t.pages| ensures PageOK(t, q) {
      assert PageOK(s, q);
    }
  }

  // Within a generation the content of a page only grows; a new generation has a fresh version.
  lemma ObjsFrame(s: State, t: State, p: nat)
    requires Config(s) && Config(t) && SameElsewhere(s, t, p) && p < |s.pages| && ObjsOK(s, s.objs)
    requires var v := t.pages[p].version; v == 0 || v >= s.version || (v == s.pages[p].version && s.log[p] <= t.log[p])
    ensures ObjsOK(t, s.objs)
  {
    forall o | o in s.objs ensures ObjOK(t, o) {
      assert ObjOK(s, o);
    }
  }

  // Page p may change generation only while nobody reads it.
  lemma ReadsFrame(s: State, t: State, p: nat)
    requires Config(s) && Config(t) && SameElsewhere(s, t, p) && p < |s.pages| && ReadsOK(s)
    requires t.inflight == s.inflight && s.objs <= t.objs && t.pages[p].refcount == s.pages[p].refcount
    requires s.pages[p].refcount == 0 || (t.pages[p].version == s.pages[p].version && !t.pages[p].free &&
        s.pages[p].written <= t.pages[p].written)
    ensures ReadsOK(t)
  {
    forall id | id in t.inflight ensures ReadOK(t, id) {
      assert ReadOK(s, id) && id in Readers(s.inflight, s.inflight[id].obj.page);
    }
    assert forall q: nat :: q < |t.pages| ==> t.pages[q].refcount == |Readers(t.inflight, q)|;
  }

  // A queue is unaffected by a page without queued write.
  lemma QueueFrame(s: State, t: State, p: nat)
    requires Config(s) && Config(t) && SameElsewhere(s, t, p) && p < |s.pages| && QueueInv(s)
    requires t.queue == s.queue && !Queued(s, p)
    requires HasWbuf(t, p) ==> !t.wbufs[t.pages[p].wbuf.value].full
    ensures QueueInv(t)
  {
    forall i: nat | i < |t.queue| ensures QueueOK(t, i) {
      assert QueueOK(s, i);
    }
    forall q: nat | HasWbuf(t, q) && t.wbufs[t.pages[q].wbuf.value].full ensures Queued(t, q) {
      assert Queued(s, q);
    }
  }

  lemma ListsFrame(s: State, t: State)
    requires Listed(s) && |t.pages| == |s.pages| && t.buckets == s.buckets && t.freeBuckets == s.freeBuckets
    requires t.pageFree == s.pageFree
    requires forall q :: 0 <= q < |s.pages| ==> t.pages[q].free == s.pages[q].free
    requires forall q :: 0 <= q < |s.pages| ==> t.pages[q].bucket == s.pages[q].bucket
    requires forall q :: 0 <= q < |s.pages| ==> t.pages[q].freeBucket == s.pages[q].freeBucket
    ensures Listed(t)
  {
    assert FreePages(t) == FreePages(s);
    forall f: nat | f < |t.freeBuckets| ensures FreeListOK(t, f) {
      assert FreeListOK(s, f);
    }
    forall b: nat | b < |t.buckets| ensures BucketOK(t, b) {
      assert BucketOK(s, b);
    }
  }

  lemma BuffersFrame(s: State, t: State)
    requires Conserved(s) && |t.pages| == |s.pages| && |t.wbufs| == |s.wbufs| && t.wbufStack == s.wbufStack
    requires s.ioFree + |s.queue| == t.ioFree + |t.queue|
    requires forall q :: 0 <= q < |s.pages| ==> t.pages[q].wbuf == s.pages[q].wbuf
    ensures Conserved(t)
  {
    assert Attached(t) == Attached(s);
  }

  lemma NotQueued(s: State, p: nat)
    requires Inv(s) && p < |s.pages|
    requires s.pages[p].wbuf.Some? ==> HasWbuf(s, p) && !s.wbufs[s.pages[p].wbuf.value].full
    ensures !Queued(s, p)
  {
    forall i: nat | i < |s.queue| ensures s.queue[i].page != p {
      assert QueueOK(s, i);
    }
  }

  lemma {:induction false} UnlistedFacts(l: seq<nat>, x: nat)
    requires NoDup(l)
    ensures NoDup(Unlisted(l, x))
    ensures forall y: nat :: y in Unlisted(l, x) <==> y in l && y != x
  {
    if l != [] && l[0] != x {
      UnlistedFacts(l[1..], x);
      assert l == [l[0]] + l[1..] && l[0] !in l[1..];
      var r := Unlisted(l[1..], x);
      assert Unlisted(l, x) == [l[0]] + r && l[0] !in r;
    } else if l != [] {
      assert l == [x] + l[1..];
    }
  }

  lemma TailFacts(l: seq<nat>)
    requires NoDup(l) && l != []
    ensures NoDup(l[1..])
    ensures forall y: nat :: y in l[1..] <==> y in l && y != l[0]
  {
    assert l == [l[0]] + l[1..];
  }

  lemma FreePageLists(s: State, p: nat)
    requires Listed(s) && p < |s.pages| == |s.log| && !s.pages[p].free
    requires s.pages[p].bucket < |s.buckets| && s.pages[p].freeBucket < |s.freeBuckets|
    ensures Listed(FreePage(s, p))
  {
    var t, g := FreePage(s, p), s.pages[p];
    assert FreePages(t) == FreePages(s) + {p};
    forall f: nat | f < |t.freeBuckets| ensures FreeListOK(t, f) {
      assert FreeListOK(s, f);
      assert f == g.freeBucket ==> t.freeBuckets[f] == [p] + s.freeBuckets[f] && p !in s.freeBuckets[f];
    }
    forall b: nat | b < |t.buckets| ensures BucketOK(t, b) {
      assert BucketOK(s, b);
      if b == g.bucket { UnlistedFacts(s.buckets[b], p); }
    }
  }

  /** Freeing an inactive page that nobody reads keeps the invariant. */
  lemma FreePageOK(s: State, p: nat)
    requires Inv(s) && p < |s.pages| && !s.pages[p].free && !s.pages[p].active && s.pages[p].refcount == 0
    requires s.pages[p].bucket < |s.buckets| && s.pages[p].freeBucket < |s.freeBuckets|
    ensures Inv(FreePage(s, p))
  {
    var t := FreePage(s, p);
    PageFacts(s, p);
    assert Config(t) && SameElsewhere(s, t, p) && PageOK(t, p);
    PagesFrame(s, t, p);
    ObjsFrame(s, t, p);
    ReadsFrame(s, t, p);
    NotQueued(s, p);
    QueueFrame(s, t, p);
    BuffersFrame(s, t);
    FreePageLists(s, p);
  }

  lemma AllocatePageLists(s: State, b: nat, fb: nat)
    requires Inv(s) && b < |s.buckets| && fb < |s.freeBuckets|
    ensures Listed(AllocatePage(s, b, fb))
  {
    var t, f := AllocatePage(s, b, fb), Source(s, fb);
    if s.freeBuckets[f] != [] {
      FreeHead(s, f);
      var p := s.freeBuckets[f][0];
      assert FreePages(t) == FreePages(s) - {p};
      forall h: nat | h < |t.freeBuckets| ensures FreeListOK(t, h) {
        assert FreeListOK(s, h);
        if h == f { TailFacts(s.freeBuckets[f]); }
      }
      forall c: nat | c < |t.buckets| ensures BucketOK(t, c) {
        assert BucketOK(s, c);
        assert c == b ==> p !in s.buckets[b];
      }
    }
  }

  /** A page enters service under a version no object has. */
  lemma AllocatePageOK(s: State, b: nat, fb: nat)
    requires Inv(s) && b < |s.buckets| && fb < |s.freeBuckets|
    ensures Inv(AllocatePage(s, b, fb))
  {
    var t, f := AllocatePage(s, b, fb), Source(s, fb);
    if s.freeBuckets[f] != [] {
      FreeHead(s, f);
      var p := s.freeBuckets[f][0];
      assert Config(t) && SameElsewhere(s, t, p) && PageOK(t, p);
      PagesFrame(s, t, p);
      ObjsFrame(s, t, p);
      ReadsFrame(s, t, p);
      NotQueued(s, p);
      QueueFrame(s, t, p);
      BuffersFrame(s, t);
      AllocatePageLists(s, b, fb);
    }
  }

  lemma SubmitOK(s: State, p: nat)
    requires Inv(s) && HasWbuf(s, p) && !s.wbufs[s.pages[p].wbuf.value].full
    ensures Inv(SubmitWbuf(s, p))
  {
    var t := SubmitWbuf(s, p);
    PageFacts(s, p);
    assert Config(t) && SameElsewhere(s, t, p) && PageOK(t, p);
    PagesFrame(s, t, p);
    ObjsFrame(s, t, p);
    ReadsFrame(s, t, p);
    NotQueued(s, p);
    SubmitQueue(s, p);
    BuffersFrame(s, t);
    ListsFrame(s, t);
  }

  lemma SubmitQueue(s: State, p: nat)
    requires Inv(s) && HasWbuf(s, p) && !s.wbufs[s.pages[p].wbuf.value].full && !Queued(s, p)
    requires var t := SubmitWbuf(s, p); Config(t) && SameElsewhere(s, t, p)
    ensures QueueInv(SubmitWbuf(s, p))
  {
    var t, n := SubmitWbuf(s, p), |s.queue|;
    PageFacts(s, p);
    NextBlock(s.pages[p].written, s.pageSize, s.wbufSize);
    forall i: nat | i < |t.queue| ensures QueueOK(t, i) {
      if i < n { assert QueueOK(s, i) && s.queue[i].page != p; }
    }
    forall q: nat | HasWbuf(t, q) && t.wbufs[t.pages[q].wbuf.value].full ensures Queued(t, q) {
      if q == p {
        assert t.queue[n].page == p;
      } else {
        assert Queued(s, q);
        var i: nat :| i < n && s.queue[i].page == q;
        assert t.queue[i].page == q;
      }
    }
  }

  lemma AllocateWbufOK(s: State, p: nat)
    requires Inv(s) && p < |s.pages| && s.pages[p].active && s.pages[p].wbuf.None?
    ensures Inv(AllocateWbuf(s, p))
  {
    var t := AllocateWbuf(s, p);
    if s.wbufStack != [] {
      PageFacts(s, p);
      assert Config(t);
      assert SameElsewhere(s, t, p);
      assert PageOK(t, p);
      PagesFrame(s, t, p);
      ObjsFrame(s, t, p);
      ReadsFrame(s, t, p);
      NotQueued(s, p);
      QueueFrame(s, t, p);
      AllocateWbufBuffers(s, p);
      ListsFrame(s, t);
    }
  }

  lemma AllocateWbufBuffers(s: State, p: nat)
    requires Inv(s) && p < |s.pages| && s.pages[p].wbuf.None?
    ensures Conserved(AllocateWbuf(s, p))
  {
    var t := AllocateWbuf(s, p);
    if s.wbufStack != [] {
      assert Attached(t) == Attached(s) + {p};
    }
  }

  lemma AppendOK(s: State, p: nat, data: seq<byte>)
    requires Inv(s) && Ready(s, p, |data|)
    ensures Inv(Append(s, p, data))
  {
    var t := Append(s, p, data);
    PageFacts(s, p);
    assert Config(t) && SameElsewhere(s, t, p) && PageOK(t, p);
    PagesFrame(s, t, p);
    ObjsFrame(s, t, p);
    if data != [] { AppendObj(s, p, data); }
    ReadsFrame(s, t, p);
    NotQueued(s, p);
    QueueFrame(s, t, p);
    BuffersFrame(s, t);
    ListsFrame(s, t);
  }

  lemma AppendObj(s: State, p: nat, data: seq<byte>)
    requires Inv(s) && Ready(s, p, |data|) && data != []
    requires Config(Append(s, p, data))
    ensures var w := s.wbufs[s.pages[p].wbuf.value];
      && w.free <= s.wbufSize
      && ObjOK(Append(s, p, data), Obj(p, s.pages[p].version, w.offset + (s.wbufSize - w.free), data))
  {
    var t := Append(s, p, data);
    PageFacts(s, p);
    var w := s.wbufs[s.pages[p].wbuf.value];
    var pos := s.wbufSize - w.free;
    BlockEnd(w.offset, pos, s.wbufSize);
    var l := t.log[p];
    assert l[w.offset + pos..] == data;
  }

  lemma PrepareOK(s: State, p: nat, n: nat)
    requires Inv(s) && p < |s.pages| && s.pages[p].active
    ensures Inv(Prepare(s, p, n)) && |Prepare(s, p, n).pages| == |s.pages|
  {
    PageFacts(s, p);
    var g := s.pages[p];
    if g.wbuf.None? {
      AllocateWbufOK(s, p);
    } else if !s.wbufs[g.wbuf.value].full {
      SubmitOK(s, p);
    }
  }

  /** Whatever page a writer picks, its write keeps the invariant. */
  lemma WriteOK(s: State, p: nat, data: seq<byte>)
    requires Inv(s) && p < |s.pages|
    ensures Inv(Write(s, p, data))
  {
    if !Refuses(s, p) {
      PrepareOK(s, p, |data|);
      var s1 := Prepare(s, p, |data|);
      if Ready(s1, p, |data|) { AppendOK(s1, p, data); }
    }
  }

  lemma PWriteOK(s: State)
    requires Inv(s) && s.queue != [] && !s.queue[0].done
    ensures Inv(PWrite(s))
  {
    var t := PWrite(s);
    QueueFacts(s);
    var p := s.queue[0].page;
    assert Config(t) && SameElsewhere(s, t, p) && PageOK(t, p);
    PagesFrame(s, t, p);
    ObjsFrame(s, t, p);
    ReadsFrame(s, t, p);
    PWriteQueue(s);
    BuffersFrame(s, t);
    ListsFrame(s, t);
  }

  lemma PWriteQueue(s: State)
    requires Inv(s) && s.queue != [] && !s.queue[0].done && Config(PWrite(s))
    requires SameElsewhere(s, PWrite(s), s.queue[0].page)
    ensures QueueInv(PWrite(s))
  {
    var t := PWrite(s);
    QueueFacts(s);
    forall i: nat | i < |t.queue| ensures QueueOK(t, i) {
      assert QueueOK(s, i) && (i > 0 ==> s.queue[i].page != s.queue[0].page);
    }
    forall q: nat | HasWbuf(t, q) && t.wbufs[t.pages[q].wbuf.value].full ensures Queued(t, q) {
      assert Queued(s, q);
      var i: nat :| i < |s.queue| && s.queue[i].page == q;
      assert t.queue[i].page == q;
    }
  }

  lemma CallbackOK(s: State)
    requires Inv(s) && s.queue != [] && s.queue[0].done
    ensures Inv(WbufCallback(s))
  {
    var t := WbufCallback(s);
    QueueFacts(s);
    var p := s.queue[0].page;
    assert Config(t) && SameElsewhere(s, t, p);
    CallbackPage(s);
    PagesFrame(s, t, p);
    ObjsFrame(s, t, p);
    ReadsFrame(s, t, p);
    CallbackQueue(s);
    CallbackBuffers(s);
    ListsFrame(s, t);
  }

  lemma CallbackPage(s: State)
    requires Inv(s) && s.queue != [] && s.queue[0].done && Config(WbufCallback(s)) && s.queue[0].page < |s.pages|
    ensures PageOK(WbufCallback(s), s.queue[0].page)
  {
    var t, io := WbufCallback(s), s.queue[0];
    QueueFacts(s);
    var d, l, a, b := s.disk[io.page], s.log[io.page], io.offset, io.offset + s.wbufSize;
    assert d[..b] == d[..a] + d[a..b];
    assert l[..b] == l[..a] + l[a..];
    BlockEnd(a, s.wbufSize, s.wbufSize);
  }

  lemma CallbackQueue(s: State)
    requires Inv(s) && s.queue != [] && s.queue[0].done
    requires Config(WbufCallback(s)) && SameElsewhere(s, WbufCallback(s), s.queue[0].page)
    ensures QueueInv(WbufCallback(s))
  {
    var t := WbufCallback(s);
    QueueFacts(s);
    forall i: nat | i < |t.queue| ensures QueueOK(t, i) {
      assert QueueOK(s, i + 1) && s.queue[i + 1].page != s.queue[0].page;
    }
    forall q: nat | HasWbuf(t, q) && t.wbufs[t.pages[q].wbuf.value].full ensures Queued(t, q) {
      assert Queued(s, q);
      var i: nat :| i < |s.queue| && s.queue[i].page == q;
      assert t.queue[i - 1].page == q;
    }
  }

  lemma CallbackBuffers(s: State)
    requires Inv(s) && s.queue != [] && s.queue[0].done
    ensures Conserved(WbufCallback(s))
  {
    var t, p := WbufCallback(s), s.queue[0].page;
    QueueFacts(s);
    assert p in Attached(s) && Attached(t) == Attached(s) - {p};
  }

  lemma RetainOK(s: State, o: Obj, id: nat)
    requires Inv(s) && o in s.objs && o.page < |s.pages| && id !in s.inflight && StartRead(s, o) == OnDisk
    ensures Inv(Retain(s, o, id))
  {
    var t := Retain(s, o, id);
    assert ObjOK(s, o);
    ObjOnDisk(s, o);
    PageFacts(s, o.page);
    assert Config(t) && SameElsewhere(s, t, o.page) && PageOK(t, o.page);
    PagesFrame(s, t, o.page);
    ObjsFrame(s, t, o.page);
    RefcountQueue(s, t, o.page);
    RetainReads(s, o, id);
    BuffersFrame(s, t);
    ListsFrame(s, t);
  }

  lemma RetainReads(s: State, o: Obj, id: nat)
    requires Config(s) && ReadsOK(s) && o in s.objs && id !in s.inflight && o.page < |s.pages|
    requires Config(Retain(s, o, id))
    requires var g := s.pages[o.page]; !g.free && g.version == o.version && o.offset + |o.data| <= g.written
    ensures ReadsOK(Retain(s, o, id))
  {
    var t := Retain(s, o, id);
    forall r | r in t.inflight ensures ReadOK(t, r) {
      if r != id { assert ReadOK(s, r); }
    }
    forall q: nat | q < |t.pages| ensures t.pages[q].refcount == |Readers(t.inflight, q)| {
      MoreReaders(s.inflight, id, Read(o, None), q);
    }
  }

  lemma RefcountQueue(s: State, t: State, p: nat)
    requires Inv(s) && Config(t) && SameElsewhere(s, t, p) && p < |s.pages| && t.wbufs == s.wbufs && t.queue == s.queue
    requires t.disk == s.disk
    requires t.pages[p].wbuf == s.pages[p].wbuf && t.pages[p].written == s.pages[p].written
    ensures QueueInv(t)
  {
    forall i: nat | i < |t.queue| ensures QueueOK(t, i) {
      assert QueueOK(s, i);
    }
    forall q: nat | HasWbuf(t, q) && t.wbufs[t.pages[q].wbuf.value].full ensures Queued(t, q) {
      assert Queued(s, q);
    }
  }

  lemma SamePrefix(a: seq<byte>, b: seq<byte>, w: nat, i: nat, n: nat)
    requires i + n <= w <= |a| && w <= |b| && a[..w] == b[..w]
    ensures a[i..i + n] == b[i..i + n]
  {
    assert a[i..i + n] == a[..w][i..i + n];
    assert b[i..i + n] == b[..w][i..i + n];
  }

  // The bytes a read in flight asks for are on disk.
  lemma Flushed(s: State, id: nat)
    requires Inv(s) && id in s.inflight
    ensures var o := s.inflight[id].obj;
      && o.page < |s.pages| == |s.disk| && !s.pages[o.page].free && s.pages[o.page].version == o.version
      && o.offset + |o.data| <= |s.disk[o.page]|
      && s.disk[o.page][o.offset..o.offset + |o.data|] == o.data
  {
    ReadFacts(s, id);
    var o := s.inflight[id].obj;
    SamePrefix(s.disk[o.page], s.log[o.page], s.pages[o.page].written, o.offset, |o.data|);
  }

  lemma PReadOK(s: State, id: nat)
    requires Inv(s) && id in s.inflight
    ensures Inv(PRead(s, id))
  {
    var t, o := PRead(s, id), s.inflight[id].obj;
    ReadFacts(s, id);
    assert Config(t) && SameElsewhere(s, t, o.page) && PageOK(t, o.page);
    PagesFrame(s, t, o.page);
    ObjsFrame(s, t, o.page);
    RefcountQueue(s, t, o.page);
    Flushed(s, id);
    forall r | r in t.inflight ensures ReadOK(t, r) {
      assert ReadOK(s, r);
    }
    forall q: nat | q < |t.pages| ensures t.pages[q].refcount == |Readers(t.inflight, q)| {
      SameReaders(s.inflight, id, t.inflight[id], q);
    }
    BuffersFrame(s, t);
    ListsFrame(s, t);
  }

  lemma ReleaseOK(s: State, id: nat)
    requires Inv(s) && id in s.inflight
    ensures Inv(Release(s, id))
  {
    var t, p := Release(s, id), s.inflight[id].obj.page;
    ReadFacts(s, id);
    assert Config(t) && SameElsewhere(s, t, p) && PageOK(t, p);
    PagesFrame(s, t, p);
    ObjsFrame(s, t, p);
    RefcountQueue(s, t, p);
    forall r | r in t.inflight ensures ReadOK(t, r) {
      assert ReadOK(s, r);
    }
    forall q: nat | q < |t.pages| ensures t.pages[q].refcount == |Readers(t.inflight, q)| {
      FewerReaders(s.inflight, id, q);
    }
    BuffersFrame(s, t);
    ListsFrame(s, t);
  }

  lemma MarkOK(s: State, p: nat, closed: bool, objCount: nat, bytesUsed: nat)
    requires Inv(s) && p < |s.pages| && !s.pages[p].free && (closed ==> !s.pages[p].active)
    ensures Inv(Mark(s, p, closed, objCount, bytesUsed))
  {
    var t := Mark(s, p, closed, objCount, bytesUsed);
    PageFacts(s, p);
    assert Config(t) && SameElsewhere(s, t, p) && PageOK(t, p);
    PagesFrame(s, t, p);
    ObjsFrame(s, t, p);
    RefcountQueue(s, t, p);
    forall r | r in t.inflight ensures ReadOK(t, r) {
      assert ReadOK(s, r);
    }
    assert forall q: nat :: q < |t.pages| ==> t.pages[q].refcount == |Readers(t.inflight, q)|;
    BuffersFrame(s, t);
    ListsFrame(s, t);
  }

  // A page freed a second time is on its free list twice.
  lemma FreeTwice(s: State, p: nat)
    requires Inv(s) && p < |s.pages| && s.pages[p].free && s.pages[p].bucket < |s.buckets|
    requires s.pages[p].freeBucket < |s.freeBuckets|
    ensures !Inv(FreePage(s, p))
  {
    var t, f := FreePage(s, p), s.pages[p].freeBucket;
    assert FreeListOK(s, f);
    assert t.freeBuckets[f] == [p] + s.freeBuckets[f];
    var i :| 0 <= i < |s.freeBuckets[f]| && s.freeBuckets[f][i] == p;
    assert t.freeBuckets[f][0] == t.freeBuckets[f][i + 1];
    assert !FreeListOK(t, f);
  }

  /** extstore_delete keeps the invariant, except that version 0, the mark of a free page, frees a free
      page again. */
  lemma DeleteOK(s: State, p: nat, version: nat, count: nat, bytes: nat)
    requires Inv(s) && p < |s.pages|
    ensures Inv(Delete(s, p, version, count, bytes)) <==> version > 0 || !s.pages[p].free
  {
    PageFacts(s, p);
    var g := s.pages[p];
    if !g.closed && g.version == version {
      var s' := Mark(s, p, false, Sub(g.objCount, count), Sub(g.bytesUsed, bytes));
      if g.free {
        assert FreePage(s', p) == FreePage(s, p);
        FreeTwice(s, p);
      } else {
        MarkOK(s, p, false, Sub(g.objCount, count), Sub(g.bytesUsed, bytes));
        if s'.pages[p].objCount == 0 && g.refcount == 0 && !g.active { FreePageOK(s', p); }
      }
    }
  }

  /** extstore_close_page and extstore_evict_page likewise. */
  lemma CloseOK(s: State, p: nat, version: nat)
    requires Inv(s) && p < |s.pages|
    ensures Inv(Close(s, p, version)) <==> version > 0 || !s.pages[p].free
  {
    PageFacts(s, p);
    var g := s.pages[p];
    if !g.closed && !g.active && g.version == version {
      var s' := Mark(s, p, true, g.objCount, g.bytesUsed);
      if g.free {
        assert FreePage(s', p) == FreePage(s, p);
        FreeTwice(s, p);
      } else {
        MarkOK(s, p, true, g.objCount, g.bytesUsed);
        if g.refcount == 0 { FreePageOK(s', p); }
      }
    }
  }

  lemma SweepOK(s: State, p: nat)
    requires Inv(s) && p < |s.pages|
    ensures Inv(Sweep(s, p))
  {
    PageFacts(s, p);
    var g := s.pages[p];
    if !g.active && !g.free && (g.objCount == 0 || g.closed) && g.refcount == 0 { FreePageOK(s, p); }
  }

  // ---------- runs ----------

  datatype Label =
    | AllocatePageStep(bucket: nat, freeBucket: nat)
    | WriteStep(page: nat, data: seq<byte>)
    | FlushStep
    | FlushedStep
    | ReadStep(obj: Obj, id: nat)
    | DiskReadStep(id: nat)
    | ReadDoneStep(id: nat)
    | DeleteStep(page: nat, version: nat, count: nat, bytes: nat)
    | CloseStep(page: nat, version: nat)
    | SweepStep(page: nat)

  // A read is for an object that was written; versions given to delete and close come from objects.
  ghost predicate Enabled(s: State, l: Label)
    requires Inv(s)
  {
    match l
    case AllocatePageStep(b, fb) => b < |s.buckets| && fb < |s.freeBuckets|
    case WriteStep(p, _) => p < |s.pages|
    case FlushStep => s.queue != [] && !s.queue[0].done
    case FlushedStep => s.queue != [] && s.queue[0].done
    case ReadStep(o, id) => o in s.objs && id !in s.inflight
    case DiskReadStep(id) => id in s.inflight && s.inflight[id].data.None?
    case ReadDoneStep(id) => id in s.inflight && s.inflight[id].data.Some?
    case DeleteStep(p, version, _, _) => p < |s.pages| && version > 0
    case CloseStep(p, version) => p < |s.pages| && version > 0
    case SweepStep(p) => p < |s.pages|
  }

  ghost function Next(s: State, l: Label): State
    requires Inv(s) && Enabled(s, l)
  {
    match l
    case AllocatePageStep(b, fb) => AllocatePage(s, b, fb)
    case WriteStep(p, data) => Write(s, p, data)
    case FlushStep => PWrite(s)
    case FlushedStep => WbufCallback(s)
    case ReadStep(o, id) => assert ObjOK(s, o); if StartRead(s, o) == OnDisk then Retain(s, o, id) else s
    case DiskReadStep(id) => PRead(s, id)
    case ReadDoneStep(id) => Release(s, id)
    case DeleteStep(p, version, count, bytes) => Delete(s, p, version, count, bytes)
    case CloseStep(p, version) => Close(s, p, version)
    case SweepStep(p) => Sweep(s, p)
  }

  /** Every step of every thread keeps the invariant. */
  lemma StepOK(s: State, l: Label)
    requires Inv(s) && Enabled(s, l)
    ensures Inv(Next(s, l))
  {
    match l
    case AllocatePageStep(b, fb) => AllocatePageOK(s, b, fb);
    case WriteStep(p, data) => WriteOK(s, p, data);
    case FlushStep => PWriteOK(s);
    case FlushedStep => CallbackOK(s);
    case ReadStep(o, id) => assert ObjOK(s, o); if StartRead(s, o) == OnDisk { RetainOK(s, o, id); }
    case DiskReadStep(id) => PReadOK(s, id);
    case ReadDoneStep(id) => ReleaseOK(s, id);
    case DeleteStep(p, version, count, bytes) => DeleteOK(s, p, version, count, bytes);
    case CloseStep(p, version) => CloseOK(s, p, version);
    case SweepStep(p) => SweepOK(s, p);
  }

  // The state after a run, if each step was possible when its turn came
  ghost function Exec(s: State, run: seq<Label>): (t: Option<State>)
    requires Inv(s)
    ensures t.Some? ==> Inv(t.value)
    decreases |run|
  {
    if run == [] then Some(s)
    else if !Enabled(s, run[0]) then None
    else
      StepOK(s, run[0]);
      Exec(Next(s, run[0]), run[1..])
  }

  // The free lists extstore_init builds, pushing the pages from the last to the first
  function InitLists(of: seq<nat>, count: nat, i: nat): (l: seq<seq<nat>>)
    requires i <= |of| && forall p :: 0 <= p < |of| ==> of[p] < count
    ensures |l| == count
    ensures forall f :: 0 <= f < count ==> NoDup(l[f]) && forall p: nat :: p in l[f] <==> i <= p < |of| && of[p] == f
    decreases |of| - i
  {
    if i == |of| then seq(count, _ => [])
    else
      var l := InitLists(of, count, i + 1);
      l[of[i] := [i] + l[of[i]]]
  }

  // extstore_init: any disk and buffer contents, `of` the free list of each page
  function Init(wbufSize: nat, disk: seq<seq<byte>>, pageSize: nat, bufs: seq<seq<byte>>, of: seq<nat>,
      buckets: nat): State
    requires |of| == |disk| && forall p :: 0 <= p < |of| ==> of[p] < buckets
  {
    State(pageSize, wbufSize,
          seq(|disk|, p requires 0 <= p < |disk| => Page(0, 0, 0, 0, 0, of[p], false, false, true, None, 0, 0)),
          seq(|bufs|, w requires 0 <= w < |bufs| => Wbuf(bufs[w], wbufSize, 0, false)),
          disk, seq(|bufs|, w => w), |bufs|, [], 1,
          seq(buckets, _ => []), InitLists(of, buckets, 0), |disk|,
          map[], seq(|disk|, _ => []), {})
  }

  ghost function Below(n: nat): (r: set<nat>)
    ensures |r| == n && forall p: nat :: p in r <==> p < n
  {
    if n == 0 then {} else Below(n - 1) + {n - 1}
  }

  // extstore_init refuses a page size that is not a multiple of the buffer size.
  lemma InitOK(wbufSize: nat, disk: seq<seq<byte>>, pageSize: nat, bufs: seq<seq<byte>>, of: seq<nat>, buckets: nat)
    requires |of| == |disk| && (forall p :: 0 <= p < |of| ==> of[p] < buckets) && buckets > 0
    requires wbufSize > 0 && pageSize > 0 && pageSize % wbufSize == 0
    requires forall p :: 0 <= p < |disk| ==> |disk[p]| == pageSize
    requires forall w :: 0 <= w < |bufs| ==> |bufs[w]| == wbufSize
    ensures Inv(Init(wbufSize, disk, pageSize, bufs, of, buckets))
  {
    var s := Init(wbufSize, disk, pageSize, bufs, of, buckets);
    assert FreePages(s) == Below(|disk|);
    assert Attached(s) == {};
    forall f: nat | f < |s.freeBuckets| ensures FreeListOK(s, f) {
    }
    forall b: nat | b < |s.buckets| ensures BucketOK(s, b) {
    }
    forall p: nat | p < |s.pages| ensures PageOK(s, p) && s.pages[p].refcount == |Readers(s.inflight, p)| {
      assert Readers(s.inflight, p) == {};
    }
  }

  // ---------- what callers may rely on ----------

  /** A read of a written object gives its bytes or fails, and fails only if its generation of the page
      is over or being closed. */
  lemma ReadSafe(s: State, o: Obj)
    requires Inv(s) && o in s.objs
    ensures o.page < |s.pages|
    ensures var r := StartRead(s, o); r == FromBuffer(o.data) || r == OnDisk || r == Failed
    ensures StartRead(s, o) == Failed <==> s.pages[o.page].version != o.version || s.pages[o.page].closed
    ensures forall id :: id in s.inflight && s.inflight[id].obj == o && s.inflight[id].data.Some? ==>
        s.inflight[id].data.value == o.data
  {
    assert ObjOK(s, o);
    PageFacts(s, o.page);
    var g := s.pages[o.page];
    if !g.free && !g.closed && g.version == o.version && g.active && o.offset >= g.written {
      ObjInBuffer(s, o);
    }
    forall id | id in s.inflight && s.inflight[id].obj == o &&
        s.inflight[id].data.Some? ensures s.inflight[id].data.value == o.data {
      assert ReadOK(s, id);
    }
  }

  // A page keeps its version, loses it, or gets a new one; sizes do not change and objects are not forgotten.
  ghost predicate Advances(s: State, t: State) {
    && |t.pages| == |s.pages| && |t.wbufs| == |s.wbufs| && s.objs <= t.objs
    && (forall id :: id in s.inflight && id in t.inflight ==> t.inflight[id].obj == s.inflight[id].obj)
    && forall q :: 0 <= q < |s.pages| ==> t.pages[q].version in {s.pages[q].version, 0, s.version}
  }

  lemma WriteAdvances(s: State, p: nat, data: seq<byte>)
    requires Inv(s) && p < |s.pages|
    ensures Advances(s, Write(s, p, data))
  {
    PageFacts(s, p);
    if !Refuses(s, p) {
      PrepareOK(s, p, |data|);
      var s1 := Prepare(s, p, |data|);
      assert Advances(s, s1) && s1.pages[p].version == s.pages[p].version;
    }
  }

  lemma PageAdvances(s: State, l: Label)
    requires Inv(s) && Enabled(s, l) && (l.DeleteStep? || l.CloseStep? || l.SweepStep?)
    ensures Advances(s, Next(s, l))
  {
    PageFacts(s, l.page);
  }

  lemma ReadAdvances(s: State, l: Label)
    requires Inv(s) && Enabled(s, l) && (l.ReadStep? || l.DiskReadStep? || l.ReadDoneStep?)
    ensures Advances(s, Next(s, l))
  {
    match l
    case ReadStep(r, id) => assert ObjOK(s, r);
    case DiskReadStep(id) => ReadFacts(s, id);
    case ReadDoneStep(id) => ReadFacts(s, id);
  }

  lemma StepAdvances(s: State, l: Label)
    requires Inv(s) && Enabled(s, l)
    ensures Advances(s, Next(s, l))
  {
    match l
    case AllocatePageStep(b, fb) => if s.freeBuckets[Source(s, fb)] != [] { FreeHead(s, Source(s, fb)); }
    case WriteStep(p, data) => WriteAdvances(s, p, data);
    case FlushStep => QueueFacts(s);
    case FlushedStep => QueueFacts(s);
    case ReadStep(_, _) => ReadAdvances(s, l);
    case DiskReadStep(_) => ReadAdvances(s, l);
    case ReadDoneStep(_) => ReadAdvances(s, l);
    case DeleteStep(_, _, _, _) => PageAdvances(s, l);
    case CloseStep(_, _) => PageAdvances(s, l);
    case SweepStep(_) => PageAdvances(s, l);
  }

  lemma {:induction false} ExecMonotone(s: State, run: seq<Label>, o: Obj)
    requires Inv(s) && Exec(s, run).Some? && o in s.objs
    ensures var t := Exec(s, run).value; o in t.objs && o.page < |s.pages| == |t.pages|
    ensures s.pages[o.page].version != o.version ==> Exec(s, run).value.pages[o.page].version != o.version
    decreases |run|
  {
    assert ObjOK(s, o);
    if run != [] {
      StepOK(s, run[0]);
      StepAdvances(s, run[0]);
      ExecMonotone(Next(s, run[0]), run[1..], o);
    }
  }

  /** What a write stored under some version is, after any further steps of any threads, read back
      exactly or not at all. */
  lemma ReadBack(s: State, p: nat, data: seq<byte>, run: seq<Label>)
    requires Inv(s) && p < |s.pages| && data != [] && Written(s, p, data).Some?
    requires Exec(s, [WriteStep(p, data)] + run).Some?
    ensures var o, t := Written(s, p, data).value, Exec(s, [WriteStep(p, data)] + run).value;
      && o in t.objs && o.data == data && o.page == p && o.version == s.pages[p].version
      && (StartRead(t, o) == FromBuffer(data) || StartRead(t, o) == OnDisk || StartRead(t, o) == Failed)
      && (forall id :: id in t.inflight && t.inflight[id].obj == o && t.inflight[id].data.Some? ==>
          t.inflight[id].data.value == data)
  {
    var o, s' := Written(s, p, data).value, Write(s, p, data);
    assert ([WriteStep(p, data)] + run)[1..] == run;
    assert o in s'.objs && o.version == s.pages[p].version;
    WriteOK(s, p, data);
    ExecMonotone(s', run, o);
    ReadSafe(Exec(s', run).value, o);
  }

  /** Once its generation is over an object stays unreadable, however the page is used afterwards. */
  lemma NeverAgain(s: State, o: Obj, run: seq<Label>)
    requires Inv(s) && Exec(s, run).Some? && o in s.objs && o.page < |s.pages| && s.pages[o.page].version != o.version
    ensures o in Exec(s, run).value.objs && StartRead(Exec(s, run).value, o) == Failed
  {
    ExecMonotone(s, run, o);
  }

  // The page that read `id` holds is in use, in the generation of the object, and has its bytes on disk.
  ghost predicate Holds(s: State, id: nat, o: Obj) {
    && id in s.inflight && s.inflight[id].obj == o && o.page < |s.pages| == |s.disk|
    && !s.pages[o.page].free && s.pages[o.page].version == o.version
    && o.offset + |o.data| <= |s.disk[o.page]| && s.disk[o.page][o.offset..o.offset + |o.data|] == o.data
  }

  lemma ReaderHolds(s: State, id: nat)
    requires Inv(s) && id in s.inflight
    ensures Holds(s, id, s.inflight[id].obj)
  {
    Flushed(s, id);
  }

  /** No page is freed, reallocated or rewritten below its flushed part while a read holds it. */
  lemma Pinned(s: State, l: Label, id: nat)
    requires Inv(s) && Enabled(s, l) && id in s.inflight && id in Next(s, l).inflight
    ensures Holds(s, id, s.inflight[id].obj) && Holds(Next(s, l), id, s.inflight[id].obj)
  {
    StepOK(s, l);
    StepAdvances(s, l);
    ReaderHolds(s, id);
    ReaderHolds(Next(s, l), id);
  }

  /** The asserts of _wbuf_cb hold, and it frees only a buffer whose bytes are on disk. */
  lemma CallbackAsserts(s: State)
    requires Inv(s) && s.queue != [] && s.queue[0].done
    ensures var io := s.queue[0];
      && io.page < |s.pages| == |s.disk| && io.wbuf < |s.wbufs| && s.pages[io.page].wbuf == Some(io.wbuf)
      && s.pages[io.page].written == s.wbufs[io.wbuf].offset == io.offset
      && io.offset + s.wbufSize <= |s.disk[io.page]|
      && s.disk[io.page][io.offset..io.offset + s.wbufSize] == s.wbufs[io.wbuf].buf
  {
    QueueFacts(s);
  }

  // How often page p is on the lists
  function Occurrences(lists: seq<seq<nat>>, p: nat): nat {
    if lists == [] then 0 else multiset(lists[0])[p] + Occurrences(lists[1..], p)
  }

  lemma {:induction false} OnceInList(l: seq<nat>, p: nat)
    requires NoDup(l)
    ensures multiset(l)[p] == if p in l then 1 else 0
  {
    if l != [] {
      assert l == [l[0]] + l[1..] && l[0] !in l[1..];
      OnceInList(l[1..], p);
    }
  }

  lemma {:induction false} OnceInLists(lists: seq<seq<nat>>, p: nat, home: nat)
    requires forall f :: 0 <= f < |lists| ==> NoDup(lists[f]) && (p in lists[f] <==> f == home)
    ensures Occurrences(lists, p) == if home < |lists| then 1 else 0
  {
    if lists != [] {
      OnceInList(lists[0], p);
      if home == 0 {
        OnceInLists(lists[1..], p, |lists|);
      } else {
        OnceInLists(lists[1..], p, home - 1);
      }
    }
  }

  // A page is on one list only, and there once.
  lemma OnOneList(s: State, p: nat)
    requires Inv(s) && p < |s.pages|
    ensures Occurrences(s.freeBuckets, p) == if s.pages[p].free then 1 else 0
    ensures Occurrences(s.buckets, p) == if s.pages[p].free then 0 else 1
  {
    PageFacts(s, p);
    forall f: nat | f < |s.freeBuckets|
      ensures NoDup(s.freeBuckets[f]) && (p in s.freeBuckets[f] <==> s.pages[p].free && f == s.pages[p].freeBucket)
    {
      assert FreeListOK(s, f);
    }
    forall b: nat | b < |s.buckets|
      ensures NoDup(s.buckets[b]) && (p in s.buckets[b] <==> !s.pages[p].free && b == s.pages[p].bucket)
    {
      assert BucketOK(s, b);
    }
    OnceInLists(s.freeBuckets, p, if s.pages[p].free then s.pages[p].freeBucket else |s.freeBuckets|);
    OnceInLists(s.buckets, p, if s.pages[p].free then |s.buckets| else s.pages[p].bucket);
  }

  // Free and attached buffers add up, so do free and submitted I/Os, page_free counts the free pages, and each page is
  // on exactly one list, once: its own free list while it is free, its own bucket's list otherwise.
  ghost predicate Accounted(s: State, wbufs: nat) {
    && |s.wbufStack| + |Attached(s)| == wbufs && s.ioFree + |s.queue| == wbufs
    && s.pageFree == |FreePages(s)|
    && (forall p: nat :: p < |s.pages| ==> Occurrences(s.freeBuckets, p) + Occurrences(s.buckets, p) == 1)
    && (forall f: nat, p: nat :: f < |s.freeBuckets| ==>
          (p in s.freeBuckets[f] <==> p < |s.pages| && s.pages[p].free && s.pages[p].freeBucket == f))
    && (forall b: nat, p: nat :: b < |s.buckets| ==>
          (p in s.buckets[b] <==> p < |s.pages| && !s.pages[p].free && s.pages[p].bucket == b))
  }

  lemma InvAccounted(s: State)
    requires Inv(s)
    ensures Accounted(s, |s.wbufs|)
  {
    forall f: nat, p: nat | f < |s.freeBuckets|
      ensures p in s.freeBuckets[f] <==> p < |s.pages| && s.pages[p].free && s.pages[p].freeBucket == f
    {
      assert FreeListOK(s, f);
    }
    forall b: nat, p: nat | b < |s.buckets|
      ensures p in s.buckets[b] <==> p < |s.pages| && !s.pages[p].free && s.pages[p].bucket == b
    {
      assert BucketOK(s, b);
    }
    forall p: nat | p < |s.pages| ensures Occurrences(s.freeBuckets, p) + Occurrences(s.buckets, p) == 1 {
      OnOneList(s, p);
    }
  }

  /** In every reachable state buffers, I/O objects and pages are conserved. */
  lemma {:induction false} ConservedAlways(s: State, run: seq<Label>)
    requires Inv(s) && Exec(s, run).Some?
    ensures var t := Exec(s, run).value; |t.wbufs| == |s.wbufs| && |t.pages| == |s.pages| && Accounted(t, |s.wbufs|)
    decreases |run|
  {
    if run == [] {
      InvAccounted(s);
    } else {
      StepOK(s, run[0]);
      StepAdvances(s, run[0]);
      ConservedAlways(Next(s, run[0]), run[1..]);
    }
  }
}
