/** Which objects of the page store of sources/memcached/extstore.c stay readable. Callers give up objects with
    extstore_delete, each once and with matching counts; the counters of a page then stand for the objects that are
    left, and a page lives on as long as there is one. */
module ExtstoreObjects {

  import opened Common
  import opened Extstore

  // ---------- sets of objects ----------

  ghost function Bytes(objs: set<Obj>): nat {
    if objs == {} then 0
    else
      var o :| o in objs;
      |o.data| + Bytes(objs - {o})
  }

  lemma {:induction false} BytesLess(objs: set<Obj>, o: Obj)
    requires o in objs
    ensures Bytes(objs) == |o.data| + Bytes(objs - {o})
  {
    var x :| x in objs && Bytes(objs) == |x.data| + Bytes(objs - {x});
    if x != o {
      BytesLess(objs - {x}, o);
      BytesLess(objs - {o}, x);
      assert objs - {x} - {o} == objs - {o} - {x};
    }
  }

  lemma {:induction false} BytesMinus(objs: set<Obj>, less: set<Obj>)
    requires less <= objs
    ensures Bytes(objs - less) == Bytes(objs) - Bytes(less) && |objs - less| == |objs| - |less|
    decreases |less|
  {
    if less == {} {
      assert objs - less == objs;
    } else {
      var o :| o in less;
      BytesLess(objs, o);
      BytesLess(less, o);
      BytesMinus(objs - {o}, less - {o});
      assert objs - {o} - (less - {o}) == objs - less;
    }
  }

  // ---------- the objects that are left ----------

  // The objects of the current generation of page p that were not given up
  ghost function Live(s: State, gone: set<Obj>, p: nat): set<Obj>
    requires p < |s.pages|
  {
    set o | o in s.objs && o.page == p && o.version == s.pages[p].version && o !in gone
  }

  // The counters of a page stand for the objects that are left, until the page is closed.
  ghost predicate CountedAt(s: State, gone: set<Obj>, p: nat)
    requires p < |s.pages|
  {
    !s.pages[p].closed ==> s.pages[p].objCount == |Live(s, gone, p)| && s.pages[p].bytesUsed == Bytes(Live(s, gone, p))
  }

  ghost predicate Counted(s: State, gone: set<Obj>) {
    forall p: nat {:trigger CountedAt(s, gone, p)} :: p < |s.pages| ==> CountedAt(s, gone, p)
  }

  // ---------- steps ----------

  // A step of some thread other than a deletion, or a caller giving up objects of one generation of a page
  datatype Act = Do(step: Label) | GiveUp(page: nat, version: nat, objs: set<Obj>)

  ghost function LabelOf(a: Act): Label {
    match a
    case Do(l) => l
    case GiveUp(p, v, objs) => DeleteStep(p, v, |objs|, Bytes(objs))
  }

  ghost function Gone(gone: set<Obj>, a: Act): set<Obj> {
    if a.GiveUp? then gone + a.objs else gone
  }

  // Callers give up what they have written and not given up before.
  ghost predicate Careful(s: State, gone: set<Obj>, a: Act)
    requires Inv(s)
  {
    && Enabled(s, LabelOf(a))
    && match a
       case Do(l) => !l.DeleteStep? && (l.WriteStep? ==> l.data != [])
       case GiveUp(p, v, objs) =>
         objs <= s.objs && objs !! gone && forall o :: o in objs ==> o.page == p && o.version == v
  }

  lemma SameCounts(s: State, t: State, gone: set<Obj>, p: nat)
    requires Counted(s, gone) && |t.pages| == |s.pages| && t.objs == s.objs
    requires forall q: nat :: q < |s.pages| && q != p ==>
      && t.pages[q].version == s.pages[q].version && t.pages[q].closed == s.pages[q].closed
      && t.pages[q].objCount == s.pages[q].objCount && t.pages[q].bytesUsed == s.pages[q].bytesUsed
    requires p < |s.pages| ==> CountedAt(t, gone, p)
    ensures Counted(t, gone)
  {
    forall q: nat | q < |t.pages| ensures CountedAt(t, gone, q) {
      if q != p {
        assert CountedAt(s, gone, q) && Live(t, gone, q) == Live(s, gone, q);
      }
    }
  }

  // No object has the version of a free page, or that of the next page that enters service.
  lemma NoneLive(s: State, t: State, gone: set<Obj>, p: nat)
    requires Inv(s) && p < |s.pages| == |t.pages| && t.objs == s.objs
    requires t.pages[p].version == 0 || t.pages[p].version == s.version
    ensures Live(t, gone, p) == {}
  {
    forall o | o in s.objs ensures o !in Live(t, gone, p) {
      assert ObjOK(s, o);
    }
  }

  lemma FreedCounts(s: State, t: State, gone: set<Obj>, p: nat)
    requires Inv(s) && Counted(s, gone) && p < |s.pages| == |t.pages| && t.objs == s.objs
    requires forall q: nat :: q < |s.pages| && q != p ==> t.pages[q] == s.pages[q]
    requires t.pages[p].version == 0 && t.pages[p].objCount == 0 && t.pages[p].bytesUsed == 0
    ensures Counted(t, gone)
  {
    NoneLive(s, t, gone, p);
    SameCounts(s, t, gone, p);
  }

  lemma AllocateCounts(s: State, gone: set<Obj>, b: nat, fb: nat)
    requires Inv(s) && Counted(s, gone) && b < |s.buckets| && fb < |s.freeBuckets|
    ensures Counted(AllocatePage(s, b, fb), gone)
  {
    var t, f := AllocatePage(s, b, fb), Source(s, fb);
    if s.freeBuckets[f] != [] {
      FreeHead(s, f);
      var p := s.freeBuckets[f][0];
      PageFacts(s, p);
      assert CountedAt(s, gone, p);
      NoneLive(s, s, gone, p);
      NoneLive(s, t, gone, p);
      SameCounts(s, t, gone, p);
    }
  }

  // The place of a written object is the end of the page's content.
  lemma AppendCounts(s: State, gone: set<Obj>, p: nat, data: seq<byte>)
    requires Inv(s) && Counted(s, gone) && Ready(s, p, |data|) && data != [] && !s.pages[p].closed && gone <= s.objs
    ensures Counted(Append(s, p, data), gone)
  {
    var t := Append(s, p, data);
    PageFacts(s, p);
    var w := s.wbufs[s.pages[p].wbuf.value];
    var o := Obj(p, s.pages[p].version, w.offset + (s.wbufSize - w.free), data);
    forall x | x in s.objs ensures x != o {
      assert ObjOK(s, x);
    }
    assert CountedAt(s, gone, p);
    assert Live(t, gone, p) == Live(s, gone, p) + {o};
    BytesLess(Live(t, gone, p), o);
    assert Live(t, gone, p) - {o} == Live(s, gone, p);
    forall q: nat | q < |t.pages| ensures CountedAt(t, gone, q) {
      if q != p {
        assert CountedAt(s, gone, q) && Live(t, gone, q) == Live(s, gone, q);
      }
    }
  }

  lemma WriteCounts(s: State, gone: set<Obj>, p: nat, data: seq<byte>)
    requires Inv(s) && Counted(s, gone) && p < |s.pages| && data != [] && gone <= s.objs
    ensures Counted(Write(s, p, data), gone)
  {
    if !Refuses(s, p) {
      PageFacts(s, p);
      PrepareOK(s, p, |data|);
      var s1 := Prepare(s, p, |data|);
      SameCounts(s, s1, gone, |s.pages|);
      if Ready(s1, p, |data|) { AppendCounts(s1, gone, p, data); }
    }
  }

  // What extstore_delete does to its page
  lemma DeleteFacts(s: State, p: nat, version: nat, count: nat, bytes: nat)
    requires Inv(s) && p < |s.pages| && version > 0
    ensures
      var g, t := s.pages[p], Delete(s, p, version, count, bytes);
      && |t.pages| == |s.pages| && t.objs == s.objs
      && (forall q: nat :: q < |s.pages| && q != p ==> t.pages[q] == s.pages[q])
      && var h := t.pages[p];
      if g.closed || g.version != version then h == g
      else if Sub(g.objCount, count) == 0 && g.refcount == 0 && !g.active then
        h.version == 0 && h.objCount == 0 && h.bytesUsed == 0
      else
        h.version == version && !h.closed && h.objCount == Sub(g.objCount, count)
        && h.bytesUsed == Sub(g.bytesUsed, bytes)
  {
    PageFacts(s, p);
  }

  // What is given up leaves the objects that are left, if it was among them.
  lemma LeftOver(s: State, gone: set<Obj>, a: Act, p: nat)
    requires Inv(s) && Careful(s, gone, a) && a.GiveUp? && p < |s.pages|
    ensures var now, left := Live(s, gone, p), Live(s, Gone(gone, a), p);
      if a.page == p && a.version == s.pages[p].version then
        a.objs <= now && |left| == |now| - |a.objs| && Bytes(left) == Bytes(now) - Bytes(a.objs)
      else left == now
  {
    if a.page == p && a.version == s.pages[p].version {
      assert a.objs <= Live(s, gone, p) && Live(s, Gone(gone, a), p) == Live(s, gone, p) - a.objs;
      BytesMinus(Live(s, gone, p), a.objs);
    } else {
      assert Live(s, Gone(gone, a), p) == Live(s, gone, p);
    }
  }

  lemma GiveUpCounts(s: State, gone: set<Obj>, a: Act)
    requires Inv(s) && Counted(s, gone) && Careful(s, gone, a) && a.GiveUp?
    ensures Counted(Next(s, LabelOf(a)), Gone(gone, a))
  {
    var t, more, p := Next(s, LabelOf(a)), Gone(gone, a), a.page;
    DeleteFacts(s, p, a.version, |a.objs|, Bytes(a.objs));
    forall q: nat | q < |t.pages| ensures CountedAt(t, more, q) {
      assert CountedAt(s, gone, q);
      LeftOver(s, gone, a, q);
      if t.pages[q].version == s.pages[q].version {
        assert Live(t, more, q) == Live(s, more, q);
      } else {
        NoneLive(s, t, more, q);
      }
    }
  }

  /** Every step keeps the counters equal to what is left. */
  lemma StepCounted(s: State, gone: set<Obj>, a: Act)
    requires Inv(s) && Counted(s, gone) && Careful(s, gone, a) && gone <= s.objs
    ensures Counted(Next(s, LabelOf(a)), Gone(gone, a)) && Gone(gone, a) <= Next(s, LabelOf(a)).objs
  {
    StepAdvances(s, LabelOf(a));
    if a.GiveUp? {
      GiveUpCounts(s, gone, a);
    } else if a.step.CloseStep? || a.step.SweepStep? {
      var t, p := Next(s, a.step), a.step.page;
      PageFacts(s, p);
      if t.pages[p].version == s.pages[p].version { SameCounts(s, t, gone, p); } else { FreedCounts(s, t, gone, p); }
    } else {
      OtherCounts(s, gone, a.step);
    }
  }

  lemma OtherCounts(s: State, gone: set<Obj>, l: Label)
    requires Inv(s) && Counted(s, gone) && gone <= s.objs && Enabled(s, l) && (l.WriteStep? ==> l.data != [])
    requires !l.DeleteStep? && !l.CloseStep? && !l.SweepStep?
    ensures Counted(Next(s, l), gone)
  {
    var t := Next(s, l);
    match l
    case AllocatePageStep(b, fb) => AllocateCounts(s, gone, b, fb);
    case WriteStep(p, data) => WriteCounts(s, gone, p, data);
    case FlushStep => SameCounts(s, t, gone, |s.pages|);
    case FlushedStep =>
      QueueFacts(s);
      SameCounts(s, t, gone, |s.pages|);
    case ReadStep(o, _) =>
      assert ObjOK(s, o);
      SameCounts(s, t, gone, |s.pages|);
    case DiskReadStep(_) => SameCounts(s, t, gone, |s.pages|);
    case ReadDoneStep(id) =>
      ReadFacts(s, id);
      SameCounts(s, t, gone, |s.pages|);
  }

  /** When the generation of a page that is in use ends: nobody reads it, it is full and flushed, and it is closed, or
      given up or swept with no object left. */
  ghost predicate Ends(s: State, gone: set<Obj>, a: Act, p: nat)
    requires p < |s.pages|
  {
    var g := s.pages[p];
    && g.refcount == 0 && !g.active
    && match LabelOf(a)
       case DeleteStep(q, v, _, _) => q == p && v == g.version && !g.closed && Live(s, Gone(gone, a), p) == {}
       case CloseStep(q, v) => q == p && v == g.version && !g.closed
       case SweepStep(q) => q == p && (g.closed || Live(s, gone, p) == {})
       case _ => false
  }

  lemma EndsIff(s: State, gone: set<Obj>, a: Act, p: nat)
    requires Inv(s) && Counted(s, gone) && Careful(s, gone, a) && p < |s.pages| && !s.pages[p].free
    ensures |Next(s, LabelOf(a)).pages| == |s.pages|
    ensures Next(s, LabelOf(a)).pages[p].version != s.pages[p].version <==> Ends(s, gone, a, p)
  {
    var l := LabelOf(a);
    StepAdvances(s, l);
    PageFacts(s, p);
    assert CountedAt(s, gone, p);
    if a.GiveUp? {
      GiveUpEnds(s, gone, a, p);
    } else if l.CloseStep? || l.SweepStep? {
      PageFacts(s, l.page);
    } else {
      SameVersions(s, l, p);
    }
  }

  lemma GiveUpEnds(s: State, gone: set<Obj>, a: Act, p: nat)
    requires Inv(s) && p < |s.pages| && CountedAt(s, gone, p) && Careful(s, gone, a) && !s.pages[p].free && a.GiveUp?
    ensures |Next(s, LabelOf(a)).pages| == |s.pages|
    ensures Next(s, LabelOf(a)).pages[p].version != s.pages[p].version <==> Ends(s, gone, a, p)
  {
    DeleteFacts(s, a.page, a.version, |a.objs|, Bytes(a.objs));
    LeftOver(s, gone, a, p);
    var left := Live(s, Gone(gone, a), p);
    assert left == {} <==> |left| == 0;
  }

  // Other steps than these three end no generation and close no page.
  lemma SameVersions(s: State, l: Label, p: nat)
    requires Inv(s) && Enabled(s, l) && p < |s.pages| && !s.pages[p].free
    requires !l.DeleteStep? && !l.CloseStep? && !l.SweepStep?
    ensures
      var t := Next(s, l);
      |t.pages| == |s.pages| && t.pages[p].version == s.pages[p].version && t.pages[p].closed == s.pages[p].closed
  {
    match l
    case AllocatePageStep(b, fb) => if s.freeBuckets[Source(s, fb)] != [] { FreeHead(s, Source(s, fb)); }
    case WriteStep(q, data) => WriteVersions(s, q, data);
    case FlushStep => QueueFacts(s);
    case FlushedStep => QueueFacts(s);
    case ReadStep(o, _) => assert ObjOK(s, o);
    case DiskReadStep(id) => ReadFacts(s, id);
    case ReadDoneStep(id) => ReadFacts(s, id);
  }

  // A page whose generation lasts is closed by nothing but a close with its version.
  lemma Closes(s: State, l: Label, p: nat)
    requires Inv(s) && Enabled(s, l) && p < |s.pages| && !s.pages[p].free && !s.pages[p].closed
    requires l != CloseStep(p, s.pages[p].version)
    ensures |Next(s, l).pages| == |s.pages| && !Next(s, l).pages[p].closed
  {
    PageFacts(s, p);
    if l.DeleteStep? || l.CloseStep? || l.SweepStep? {
      PageFacts(s, l.page);
    } else {
      SameVersions(s, l, p);
    }
  }

  lemma WriteVersions(s: State, p: nat, data: seq<byte>)
    requires Inv(s) && p < |s.pages|
    ensures |Write(s, p, data).pages| == |s.pages|
    ensures forall q :: 0 <= q < |s.pages| ==>
      Write(s, p, data).pages[q].version == s.pages[q].version && Write(s, p, data).pages[q].closed == s.pages[q].closed
  {
    PageFacts(s, p);
    if !Refuses(s, p) { PrepareOK(s, p, |data|); }
  }

  // ---------- runs ----------

  ghost function Run(s: State, gone: set<Obj>, acts: seq<Act>): (r: Option<(State, set<Obj>)>)
    requires Inv(s) && Counted(s, gone) && gone <= s.objs
    ensures r.Some? ==> Inv(r.value.0) && Counted(r.value.0, r.value.1) && gone <= r.value.1 <= r.value.0.objs
    decreases |acts|
  {
    if acts == [] then Some((s, gone))
    else if !Careful(s, gone, acts[0]) then None
    else
      StepOK(s, LabelOf(acts[0]));
      StepCounted(s, gone, acts[0]);
      Run(Next(s, LabelOf(acts[0])), Gone(gone, acts[0]), acts[1..])
  }

  lemma StartCounted(wbufSize: nat, disk: seq<seq<byte>>, pageSize: nat, bufs: seq<seq<byte>>, of: seq<nat>,
                     buckets: nat)
    requires |of| == |disk| && (forall p :: 0 <= p < |of| ==> of[p] < buckets)
    ensures Counted(Init(wbufSize, disk, pageSize, bufs, of, buckets), {})
  {
    var s := Init(wbufSize, disk, pageSize, bufs, of, buckets);
    forall p: nat | p < |s.pages| ensures CountedAt(s, {}, p) {
      assert Live(s, {}, p) == {};
    }
  }

  // The generation of the object lasts, and its page is not being closed.
  ghost predicate Alive(s: State, o: Obj) {
    o in s.objs && o.page < |s.pages| && s.pages[o.page].version == o.version && !s.pages[o.page].closed
  }

  lemma StaysAlive(s: State, gone: set<Obj>, a: Act, o: Obj)
    requires Inv(s) && Counted(s, gone) && Careful(s, gone, a) && Alive(s, o) && o !in Gone(gone, a)
    requires a != Do(CloseStep(o.page, o.version))
    ensures Alive(Next(s, LabelOf(a)), o)
  {
    var l, p := LabelOf(a), o.page;
    assert ObjOK(s, o);
    PageFacts(s, p);
    StepAdvances(s, l);
    assert o in Live(s, gone, p) && o in Live(s, Gone(gone, a), p);
    EndsIff(s, gone, a, p);
    Closes(s, l, p);
  }

  /** An object that is not given up stays readable in every run in which its page is not closed, whatever other objects
      are written and given up. */
  lemma {:induction false} StaysReadable(s: State, gone: set<Obj>, acts: seq<Act>, o: Obj)
    requires Inv(s) && Counted(s, gone) && gone <= s.objs && Alive(s, o)
    requires Run(s, gone, acts).Some? && o !in Run(s, gone, acts).value.1
    requires Do(CloseStep(o.page, o.version)) !in acts
    ensures var t := Run(s, gone, acts).value.0;
      Alive(t, o) && (StartRead(t, o) == FromBuffer(o.data) || StartRead(t, o) == OnDisk)
    decreases |acts|
  {
    if acts == [] {
      ReadSafe(s, o);
    } else {
      var a := acts[0];
      StepOK(s, LabelOf(a));
      StepCounted(s, gone, a);
      var t, more := Next(s, LabelOf(a)), Gone(gone, a);
      assert more <= Run(t, more, acts[1..]).value.1;
      StaysAlive(s, gone, a, o);
      StaysReadable(t, more, acts[1..], o);
    }
  }

  // ---------- closing a page ----------

  /** Closing or evicting an inactive page with its version makes its objects unreadable at once, also while others are
      still reading it; otherwise nothing happens. */
  lemma CloseIff(s: State, p: nat, version: nat)
    requires Inv(s) && p < |s.pages| && version > 0
    ensures
      var g, t := s.pages[p], Close(s, p, version);
      && Inv(t) && |t.pages| == |s.pages| && t.objs == s.objs
      && if g.active || g.closed || g.version != version then t == s
         else
           && (t.pages[p].version == 0 <==> g.refcount == 0)
           && forall o :: o in s.objs && o.page == p && o.version == version ==> StartRead(t, o) == Failed
  {
    PageFacts(s, p);
    CloseOK(s, p, version);
    var g, t := s.pages[p], Close(s, p, version);
    forall o | o in s.objs && o.page == p && o.version == version && !g.active && !g.closed && g.version == version
      ensures StartRead(t, o) == Failed
    {
      ReadSafe(t, o);
    }
  }

  // A closed page stays closed until its generation ends.
  lemma StaysClosed(s: State, l: Label, p: nat)
    requires Inv(s) && Enabled(s, l) && p < |s.pages| && s.pages[p].closed
    ensures
      var t := Next(s, l);
      |t.pages| == |s.pages| && (t.pages[p].version != s.pages[p].version || t.pages[p].closed)
  {
    PageFacts(s, p);
    if l.DeleteStep? || l.CloseStep? || l.SweepStep? {
      PageFacts(s, l.page);
    } else {
      SameVersions(s, l, p);
    }
  }

  /** An object that cannot be read is never readable again, whatever the threads do. */
  lemma {:induction false} FailedForever(s: State, o: Obj, run: seq<Label>)
    requires Inv(s) && o in s.objs && StartRead(s, o) == Failed && Exec(s, run).Some?
    ensures o in Exec(s, run).value.objs && StartRead(Exec(s, run).value, o) == Failed
    decreases |run|
  {
    ReadSafe(s, o);
    if s.pages[o.page].version != o.version {
      NeverAgain(s, o, run);
    } else if run != [] {
      var t := Next(s, run[0]);
      StepOK(s, run[0]);
      StepAdvances(s, run[0]);
      StaysClosed(s, run[0], o.page);
      ReadSafe(t, o);
      FailedForever(t, o, run[1..]);
    }
  }

  // ---------- when an allocation or a write succeeds ----------

  // There is a free page that belongs to free list f.
  ghost predicate Offers(s: State, f: nat) {
    exists p: nat :: p < |s.pages| && s.pages[p].free && s.pages[p].freeBucket == f
  }

  // Page p comes into service in bucket b with the next version, and nothing else changes.
  ghost predicate Serves(s: State, t: State, p: nat, b: nat) {
    && p < |s.pages| && b < |s.buckets| && s.pages[p].free
    && t.pages == s.pages[p := s.pages[p].(active := true, free := false, closed := false, version := s.version,
                                           bucket := b)]
    && t.buckets == s.buckets[b := [p] + s.buckets[b]] && t.version == s.version + 1 && t.pageFree == s.pageFree - 1
  }

  lemma ListOffers(s: State, f: nat)
    requires Inv(s) && f < |s.freeBuckets|
    ensures Offers(s, f) <==> s.freeBuckets[f] != []
  {
    assert FreeListOK(s, f);
    if s.freeBuckets[f] != [] {
      FreeHead(s, f);
    } else {
      forall p: nat | p < |s.pages| ensures !(s.pages[p].free && s.pages[p].freeBucket == f) {
        assert p !in s.freeBuckets[f];
      }
    }
  }

  /** An allocation takes a free page of the requested free list, of list 0 if that has none, and fails if neither has
      one. */
  lemma AllocateIff(s: State, b: nat, fb: nat) returns (p: nat)
    requires Inv(s) && b < |s.buckets| && fb < |s.freeBuckets|
    ensures var t := AllocatePage(s, b, fb);
      if Offers(s, fb) then Serves(s, t, p, b) && s.pages[p].freeBucket == fb
      else if Offers(s, 0) then Serves(s, t, p, b) && s.pages[p].freeBucket == 0
      else t == s
  {
    ListOffers(s, fb);
    ListOffers(s, 0);
    var f := Source(s, fb);
    p := 0;
    if s.freeBuckets[f] != [] {
      FreeHead(s, f);
      p := s.freeBuckets[f][0];
    }
  }

  /** A write succeeds exactly if the page is active and has a buffer that is not yet submitted with room for the data,
      or no buffer while one is free and large enough. The object then goes to the end of the page's content. */
  lemma WriteIff(s: State, p: nat, data: seq<byte>)
    requires Inv(s) && p < |s.pages|
    ensures
      var g := s.pages[p];
      Written(s, p, data).Some? <==>
        && g.active
        && if g.wbuf.None? then s.wbufStack != [] && |data| <= s.wbufSize
           else g.wbuf.value < |s.wbufs| && !s.wbufs[g.wbuf.value].full && |s.log[p]| + |data| <= g.reserved
    ensures Written(s, p, data).Some? ==>
      && Written(s, p, data) == Some(Obj(p, s.pages[p].version, |s.log[p]|, data))
      && Write(s, p, data).log == s.log[p := s.log[p] + data]
      && (data != [] ==> Write(s, p, data).objs == s.objs + {Written(s, p, data).value})
  {
    PageFacts(s, p);
    if !Refuses(s, p) {
      PrepareOK(s, p, |data|);
      var s1 := Prepare(s, p, |data|);
      PageFacts(s1, p);
    }
  }

  /** A write that fails changes nothing, except that a buffer in which the data does not fit is submitted, with its
      rest zeroed, and that a page without buffer has got one that is too small. */
  lemma WriteFails(s: State, p: nat, data: seq<byte>)
    requires Inv(s) && p < |s.pages| && Written(s, p, data).None?
    ensures
      var g, t := s.pages[p], Write(s, p, data);
      if g.active && g.wbuf.Some? && g.wbuf.value < |s.wbufs| && !s.wbufs[g.wbuf.value].full then
        && |s.log[p]| <= g.reserved && t.queue == s.queue + [WriteIo(p, g.wbuf.value, g.written, false)]
        && t.log == s.log[p := s.log[p] + Zeros(g.reserved - |s.log[p]|)] && t.pages == s.pages
      else if g.active && g.wbuf.None? && s.wbufStack != [] then
        && t.wbufStack == s.wbufStack[1..] && t.log == s.log && t.queue == s.queue
        && t.pages == s.pages[p := g.(reserved := g.reserved + s.wbufSize, wbuf := Some(s.wbufStack[0]))]
      else t == s
  {
    PageFacts(s, p);
    if !Refuses(s, p) {
      PrepareOK(s, p, |data|);
      var s1 := Prepare(s, p, |data|);
      PageFacts(s1, p);
    }
  }

  /** A write can be read at once, and as long as it is not given up and its page is not closed. */
  lemma WrittenReadable(s: State, gone: set<Obj>, p: nat, data: seq<byte>, acts: seq<Act>)
    requires Inv(s) && Counted(s, gone) && gone <= s.objs && p < |s.pages| && data != []
    requires Written(s, p, data).Some? && Run(s, gone, [Do(WriteStep(p, data))] + acts).Some?
    requires var o := Written(s, p, data).value;
      o !in Run(s, gone, [Do(WriteStep(p, data))] + acts).value.1 && Do(CloseStep(o.page, o.version)) !in acts
    ensures var o, t := Written(s, p, data).value, Run(s, gone, [Do(WriteStep(p, data))] + acts).value.0;
      o in t.objs && (StartRead(t, o) == FromBuffer(data) || StartRead(t, o) == OnDisk)
  {
    var o, s' := Written(s, p, data).value, Write(s, p, data);
    assert ([Do(WriteStep(p, data))] + acts)[1..] == acts;
    PageFacts(s, p);
    WriteIff(s, p, data);
    WriteOK(s, p, data);
    WriteCounts(s, gone, p, data);
    WriteVersions(s, p, data);
    StaysReadable(s', gone, acts, o);
  }
}
