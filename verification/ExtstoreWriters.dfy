/** The requests of extstore_write_request in sources/memcached/extstore.c, each with its own place in the code: it
    reads the head of its bucket under the engine lock, tries that page under the page lock, and may take the engine
    lock again to allocate a new page. Between these sections other threads run. The question is when the first
    assert of _allocate_page holds: the bucket has no pages, or the page at its head is full. */
module ExtstoreWriters {

  import opened Common
  import opened Extstore
  import ExtstoreObjects

  // Where a request is. `since` is the engine's version counter when it read the head of its bucket.
  datatype Request =
    | Idle
    | Picked(bucket: nat, freeBucket: nat, page: nat, since: nat)
    | Refused(bucket: nat, freeBucket: nat, since: nat)

  datatype World = World(store: State, requests: seq<Request>)

  datatype Action =
    | Pick(w: nat, bucket: nat, freeBucket: nat)
    | Attempt(w: nat, data: seq<byte>)
    | Allocate(w: nat)
    | Other(step: Label)

  // ---------- the steps ----------

  ghost predicate Possible(s: World, a: Action)
    requires Inv(s.store)
  {
    match a
    case Pick(w, b, fb) =>
      w < |s.requests| && s.requests[w].Idle? && b < |s.store.buckets| && fb < |s.store.freeBuckets|
    case Attempt(w, _) => w < |s.requests| && s.requests[w].Picked? && s.requests[w].page < |s.store.pages|
    case Allocate(w) =>
      && w < |s.requests| && s.requests[w].Refused?
      && s.requests[w].bucket < |s.store.buckets| && s.requests[w].freeBucket < |s.store.freeBuckets|
    case Other(l) => Enabled(s.store, l) && !l.AllocatePageStep? && !l.WriteStep?
  }

  // The condition of the first assert of _allocate_page
  predicate HeadFull(s: State, b: nat)
    requires b < |s.buckets|
  {
    s.buckets[b] == [] || (s.buckets[b][0] < |s.pages| && s.pages[s.buckets[b][0]].reserved == s.pageSize)
  }

  // What the step asserts; a request that finds its bucket empty allocates at once.
  ghost predicate Asserts(s: World, a: Action)
    requires Inv(s.store) && Possible(s, a)
  {
    match a
    case Pick(w, b, fb) => s.store.buckets[b] == [] ==> HeadFull(s.store, b)
    case Allocate(w) => HeadFull(s.store, s.requests[w].bucket)
    case _ => true
  }

  ghost function Step(s: World, a: Action): World
    requires Inv(s.store) && Possible(s, a)
  {
    match a
    case Pick(w, b, fb) =>
      var t := if s.store.buckets[b] == [] then AllocatePage(s.store, b, fb) else s.store;
      World(t, s.requests[w := if t.buckets[b] == [] then Idle else Picked(b, fb, t.buckets[b][0], t.version)])
    case Attempt(w, data) =>
      var r := s.requests[w];
      if Refuses(s.store, r.page) then s.(requests := s.requests[w := Refused(r.bucket, r.freeBucket, r.since)])
      else World(Write(s.store, r.page, data), s.requests[w := Idle])
    case Allocate(w) =>
      var r := s.requests[w];
      World(AllocatePage(s.store, r.bucket, r.freeBucket), s.requests[w := Idle])
    case Other(l) => s.(store := Next(s.store, l))
  }

  lemma StepInv(s: World, a: Action)
    requires Inv(s.store) && Possible(s, a)
    ensures Inv(Step(s, a).store)
  {
    match a
    case Pick(_, b, fb) => AllocatePageOK(s.store, b, fb);
    case Attempt(w, data) => WriteOK(s.store, s.requests[w].page, data);
    case Allocate(w) => AllocatePageOK(s.store, s.requests[w].bucket, s.requests[w].freeBucket);
    case Other(l) => StepOK(s.store, l);
  }

  // ---------- the invariant ----------

  predicate Full(s: State, p: nat) {
    p < |s.pages| && s.pages[p].reserved == s.pageSize
  }

  // Every page behind the head of a bucket is full.
  ghost predicate TailFull(s: State, b: nat)
    requires b < |s.buckets|
  {
    forall i :: 0 < i < |s.buckets[b]| ==> Full(s, s.buckets[b][i])
  }

  // The head of the bucket is full, or p, or was allocated after the request read the head.
  ghost predicate HeadKnown(s: State, b: nat, p: Option<nat>, since: nat)
    requires b < |s.buckets|
  {
    s.buckets[b] != [] ==>
      && s.buckets[b][0] < |s.pages|
      && (Full(s, s.buckets[b][0]) || Some(s.buckets[b][0]) == p || s.pages[s.buckets[b][0]].version >= since)
  }

  ghost predicate RequestOK(s: State, r: Request) {
    match r
    case Idle => true
    case Picked(b, fb, p, since) =>
      b < |s.buckets| && fb < |s.freeBuckets| && p < |s.pages| && since <= s.version && HeadKnown(s, b, Some(p), since)
    case Refused(b, fb, since) =>
      b < |s.buckets| && fb < |s.freeBuckets| && since <= s.version && HeadKnown(s, b, None, since)
  }

  ghost predicate Good(s: World) {
    && Inv(s.store)
    && (forall b: nat {:trigger TailFull(s.store, b)} :: b < |s.store.buckets| ==> TailFull(s.store, b))
    && (forall w {:trigger RequestOK(s.store, s.requests[w])} :: 0 <= w < |s.requests| ==>
        RequestOK(s.store, s.requests[w]))
  }

  // A page that is in use has not reserved more than a page, and an inactive one has reserved all of it.
  lemma ReservedBound(s: State, p: nat)
    requires Inv(s) && p < |s.pages|
    ensures s.pages[p].reserved <= s.pageSize
    ensures !s.pages[p].active && !s.pages[p].free ==> Full(s, p)
  {
    PageFacts(s, p);
    if s.pages[p].wbuf.Some? { NextBlock(s.pages[p].written, s.pageSize, s.wbufSize); }
  }

  // A page refused to a writer is full, unless it is free.
  lemma RefusedFull(s: State, p: nat)
    requires Inv(s) && p < |s.pages| && Refuses(s, p) && !s.pages[p].free
    ensures Full(s, p)
  {
    ReservedBound(s, p);
  }

  // ---------- what the steps do to the lists ----------

  // The list l, from which one element may have been taken
  predicate Kept(l: seq<nat>, m: seq<nat>) {
    |m| <= |l| && forall i :: 0 <= i < |m| ==> m[i] == l[i] || (i + 1 < |l| && m[i] == l[i + 1])
  }

  // Pages fill up, and no list gets a new page.
  ghost predicate Calm(s: State, t: State) {
    && t.pageSize == s.pageSize && |t.pages| == |s.pages| && s.version <= t.version
    && |t.buckets| == |s.buckets| && |t.freeBuckets| == |s.freeBuckets|
    && (forall p :: 0 <= p < |s.pages| && Full(s, p) && !t.pages[p].free ==> Full(t, p))
    && (forall p :: 0 <= p < |s.pages| && !t.pages[p].free ==> t.pages[p].version == s.pages[p].version)
    && (forall b :: 0 <= b < |s.buckets| ==> Kept(s.buckets[b], t.buckets[b]))
  }

  lemma KeptAt(l: seq<nat>, m: seq<nat>, i: nat)
    requires Kept(l, m) && i < |m|
    ensures i < |l| && (m[i] == l[i] || (i + 1 < |l| && m[i] == l[i + 1]))
  {
  }

  lemma {:induction false} UnlistedKept(l: seq<nat>, x: nat)
    ensures Kept(l, Unlisted(l, x))
  {
    var m := Unlisted(l, x);
    if l == [] {
      assert m == [];
    } else if l[0] == x {
      assert m == l[1..];
    } else {
      var k, r := l[1..], Unlisted(l[1..], x);
      UnlistedKept(k, x);
      assert m == [l[0]] + r;
      forall i | 0 <= i < |m| ensures m[i] == l[i] || (i + 1 < |l| && m[i] == l[i + 1]) {
        if i > 0 {
          KeptAt(k, r, i - 1);
          assert m[i] == r[i - 1] && k[i - 1] == l[i] && (i < |k| ==> k[i] == l[i + 1]);
        }
      }
    }
  }

  lemma SameKept(s: State, t: State)
    requires t.buckets == s.buckets
    ensures forall b :: 0 <= b < |s.buckets| ==> Kept(s.buckets[b], t.buckets[b])
  {
  }

  lemma FreePageCalm(s: State, p: nat)
    requires p < |s.pages| == |s.log| && s.pages[p].bucket < |s.buckets| && s.pages[p].freeBucket < |s.freeBuckets|
    ensures Calm(s, FreePage(s, p))
  {
    UnlistedKept(s.buckets[s.pages[p].bucket], p);
  }

  lemma PrepareCalm(s: State, p: nat, n: nat)
    requires Inv(s) && p < |s.pages|
    ensures Calm(s, Prepare(s, p, n))
  {
    PageFacts(s, p);
  }

  lemma AppendCalm(s: State, p: nat, data: seq<byte>)
    requires Inv(s) && HasWbuf(s, p) && |data| <= s.wbufs[s.pages[p].wbuf.value].free
    ensures Calm(s, Append(s, p, data))
  {
    PageFacts(s, p);
  }

  lemma WriteCalm(s: State, p: nat, data: seq<byte>)
    requires Inv(s) && p < |s.pages|
    ensures Calm(s, Write(s, p, data))
  {
    if Refuses(s, p) {
      SameKept(s, s);
    } else {
      PrepareOK(s, p, |data|);
      PrepareCalm(s, p, |data|);
      var s1 := Prepare(s, p, |data|);
      if Ready(s1, p, |data|) {
        AppendCalm(s1, p, data);
        CalmTrans(s, s1, Append(s1, p, data));
      }
    }
  }

  lemma CalmTrans(s: State, t: State, u: State)
    requires Calm(s, t) && Calm(t, u) && u.buckets == t.buckets
    requires forall p :: 0 <= p < |t.pages| ==> u.pages[p].free == t.pages[p].free
    ensures Calm(s, u)
  {
  }

  lemma MarkCalm(s: State, p: nat, closed: bool, objCount: nat, bytesUsed: nat)
    requires p < |s.pages| == |s.log| && s.pages[p].bucket < |s.buckets| && s.pages[p].freeBucket < |s.freeBuckets|
    ensures var m := Mark(s, p, closed, objCount, bytesUsed); Calm(s, m) && Calm(s, FreePage(m, p))
  {
    UnlistedKept(s.buckets[s.pages[p].bucket], p);
  }

  lemma DeleteCalm(s: State, p: nat, version: nat, count: nat, bytes: nat)
    requires Inv(s) && p < |s.pages|
    ensures Calm(s, Delete(s, p, version, count, bytes))
  {
    PageFacts(s, p);
    MarkCalm(s, p, false, Sub(s.pages[p].objCount, count), Sub(s.pages[p].bytesUsed, bytes));
    SameKept(s, s);
  }

  lemma CloseCalm(s: State, p: nat, version: nat)
    requires Inv(s) && p < |s.pages|
    ensures Calm(s, Close(s, p, version))
  {
    PageFacts(s, p);
    MarkCalm(s, p, true, s.pages[p].objCount, s.pages[p].bytesUsed);
    SameKept(s, s);
  }

  lemma SweepCalm(s: State, p: nat)
    requires Inv(s) && p < |s.pages|
    ensures Calm(s, Sweep(s, p))
  {
    PageFacts(s, p);
    FreePageCalm(s, p);
    SameKept(s, s);
  }

  lemma OtherCalm(s: State, l: Label)
    requires Inv(s) && Enabled(s, l) && !l.AllocatePageStep? && !l.WriteStep?
    ensures Calm(s, Next(s, l))
  {
    match l
    case FlushStep => QueueFacts(s);
    case FlushedStep => QueueFacts(s);
    case ReadStep(o, _) => assert ObjOK(s, o);
    case DiskReadStep(id) => ReadFacts(s, id);
    case ReadDoneStep(id) => ReadFacts(s, id);
    case DeleteStep(p, version, count, bytes) => DeleteCalm(s, p, version, count, bytes);
    case CloseStep(p, version) => CloseCalm(s, p, version);
    case SweepStep(p) => SweepCalm(s, p);
  }

  // ---------- the invariant is kept ----------

  // Pages on a bucket's list exist and are in use.
  lemma InBucket(s: State, b: nat, i: nat)
    requires Inv(s) && b < |s.buckets| && i < |s.buckets[b]|
    ensures s.buckets[b][i] < |s.pages| && !s.pages[s.buckets[b][i]].free
  {
    assert BucketOK(s, b) && s.buckets[b][i] in s.buckets[b];
  }

  // A page that was behind the head is still full.
  lemma StillFull(s: State, t: State, b: nat, i: nat, p: nat)
    requires Calm(s, t) && b < |s.buckets| && TailFull(s, b) && i < |t.buckets[b]| && t.buckets[b][i] == p
    requires p < |t.pages| && !t.pages[p].free && (i > 0 || p != s.buckets[b][0])
    ensures Full(t, p)
  {
    KeptAt(s.buckets[b], t.buckets[b], i);
  }

  lemma CalmTail(s: State, t: State, b: nat)
    requires Calm(s, t) && Inv(t) && b < |s.buckets| && TailFull(s, b)
    ensures TailFull(t, b)
  {
    forall i | 0 < i < |t.buckets[b]| ensures Full(t, t.buckets[b][i]) {
      InBucket(t, b, i);
      StillFull(s, t, b, i, t.buckets[b][i]);
    }
  }

  lemma CalmHead(s: State, t: State, b: nat, p: Option<nat>, since: nat)
    requires Calm(s, t) && Inv(t) && b < |s.buckets| && TailFull(s, b) && HeadKnown(s, b, p, since)
    ensures HeadKnown(t, b, p, since)
  {
    if t.buckets[b] != [] {
      InBucket(t, b, 0);
      var p := t.buckets[b][0];
      assert Kept(s.buckets[b], t.buckets[b]);
      if p != s.buckets[b][0] {
        StillFull(s, t, b, 0, p);
      }
    }
  }

  lemma CalmRequest(s: State, t: State, r: Request)
    requires Calm(s, t) && Inv(t) && RequestOK(s, r)
    requires !r.Idle? && r.bucket < |s.buckets| ==> TailFull(s, r.bucket)
    ensures RequestOK(t, r)
  {
    match r
    case Idle =>
    case Picked(b, _, p, since) => CalmHead(s, t, b, Some(p), since);
    case Refused(b, _, since) => CalmHead(s, t, b, None, since);
  }

  lemma CalmGood(s: World, t: State)
    requires Good(s) && Calm(s.store, t) && Inv(t)
    ensures Good(World(t, s.requests))
  {
    forall b: nat | b < |t.buckets| ensures TailFull(t, b) {
      CalmTail(s.store, t, b);
    }
    forall w | 0 <= w < |s.requests| ensures RequestOK(t, s.requests[w]) {
      CalmRequest(s.store, t, s.requests[w]);
    }
  }

  // Allocating a page in front of a full head
  lemma AllocateGood(s: World, b: nat, fb: nat)
    requires Good(s) && b < |s.store.buckets| && fb < |s.store.freeBuckets| && HeadFull(s.store, b)
    ensures Good(World(AllocatePage(s.store, b, fb), s.requests))
  {
    var t := AllocatePage(s.store, b, fb);
    AllocatePageOK(s.store, b, fb);
    if t != s.store {
      AllocateTails(s.store, b, fb);
      forall w | 0 <= w < |s.requests| ensures RequestOK(t, s.requests[w]) {
        AllocateRequest(s.store, b, fb, s.requests[w]);
      }
    }
  }

  // The new page is free before and is put in front.
  lemma NewHead(s: State, b: nat, fb: nat)
    requires Inv(s) && b < |s.buckets| && fb < |s.freeBuckets| && s.freeBuckets[Source(s, fb)] != []
    ensures var t, q := AllocatePage(s, b, fb), s.freeBuckets[Source(s, fb)][0];
      && q < |s.pages| == |t.pages| && s.pages[q].free && !t.pages[q].free
      && |t.buckets| == |s.buckets| && t.buckets[b] == [q] + s.buckets[b]
      && (forall c :: 0 <= c < |s.buckets| && c != b ==> t.buckets[c] == s.buckets[c])
      && (forall p :: 0 <= p < |s.pages| && p != q ==> t.pages[p] == s.pages[p])
      && t.pages[q].version == s.version && t.pages[q].reserved == 0
      && t.version > s.version && t.pageSize == s.pageSize > 0 && |t.freeBuckets| == |s.freeBuckets|
      && (forall c, i :: 0 <= c < |s.buckets| && 0 <= i < |s.buckets[c]| ==> s.buckets[c][i] != q)
  {
    FreeHead(s, Source(s, fb));
    var q := s.freeBuckets[Source(s, fb)][0];
    forall c: nat, i: nat | c < |s.buckets| && i < |s.buckets[c]| ensures s.buckets[c][i] != q {
      InBucket(s, c, i);
    }
  }

  lemma AllocateTails(s: State, b: nat, fb: nat)
    requires Inv(s) && b < |s.buckets| && fb < |s.freeBuckets| && s.freeBuckets[Source(s, fb)] != [] && HeadFull(s, b)
    requires forall c: nat {:trigger TailFull(s, c)} :: c < |s.buckets| ==> TailFull(s, c)
    ensures var t := AllocatePage(s, b, fb); forall c: nat :: c < |t.buckets| ==> TailFull(t, c)
  {
    var t := AllocatePage(s, b, fb);
    NewHead(s, b, fb);
    forall c: nat | c < |t.buckets| ensures TailFull(t, c) {
      assert TailFull(s, c);
      forall i | 0 < i < |t.buckets[c]| ensures Full(t, t.buckets[c][i]) {
        var j := if c == b then i - 1 else i;
        InBucket(s, c, j);
        assert t.buckets[c][i] == s.buckets[c][j];
        assert Full(s, s.buckets[c][j]);
      }
    }
  }

  lemma AllocateRequest(s: State, b: nat, fb: nat, r: Request)
    requires Inv(s) && b < |s.buckets| && fb < |s.freeBuckets| && s.freeBuckets[Source(s, fb)] != [] && RequestOK(s, r)
    ensures RequestOK(AllocatePage(s, b, fb), r)
  {
    NewHead(s, b, fb);
    if !r.Idle? && r.bucket != b && s.buckets[r.bucket] != [] {
      InBucket(s, r.bucket, 0);
    }
  }

  lemma SetRequest(s: World, w: nat, r: Request)
    requires Good(s) && w < |s.requests| && RequestOK(s.store, r)
    ensures Good(s.(requests := s.requests[w := r]))
  {
    var t := s.(requests := s.requests[w := r]);
    forall v | 0 <= v < |t.requests| ensures RequestOK(t.store, t.requests[v]) {
      assert v != w ==> RequestOK(s.store, s.requests[v]);
    }
  }

  /** Every step whose assert holds keeps the invariant; in particular every page behind the head of a bucket stays
      full. */
  lemma StepGood(s: World, a: Action)
    requires Good(s) && Possible(s, a) && Asserts(s, a)
    ensures Good(Step(s, a))
  {
    StepInv(s, a);
    match a
    case Pick(w, b, fb) => PickGood(s, w, b, fb);
    case Attempt(w, data) =>
      var r := s.requests[w];
      assert RequestOK(s.store, r);
      if Refuses(s.store, r.page) {
        RefusedKnown(s.store, r);
        SetRequest(s, w, Refused(r.bucket, r.freeBucket, r.since));
      } else {
        WriteCalm(s.store, r.page, data);
        CalmGood(s, Write(s.store, r.page, data));
        SetRequest(World(Write(s.store, r.page, data), s.requests), w, Idle);
      }
    case Allocate(w) =>
      var r := s.requests[w];
      AllocateGood(s, r.bucket, r.freeBucket);
      SetRequest(World(AllocatePage(s.store, r.bucket, r.freeBucket), s.requests), w, Idle);
    case Other(l) =>
      OtherCalm(s.store, l);
      CalmGood(s, Next(s.store, l));
  }

  lemma PickGood(s: World, w: nat, b: nat, fb: nat)
    requires Good(s) && Possible(s, Pick(w, b, fb))
    ensures Good(Step(s, Pick(w, b, fb)))
  {
    var t := if s.store.buckets[b] == [] then AllocatePage(s.store, b, fb) else s.store;
    if s.store.buckets[b] == [] { AllocateGood(s, b, fb); }
    if t.buckets[b] != [] {
      InBucket(t, b, 0);
      SetRequest(World(t, s.requests), w, Picked(b, fb, t.buckets[b][0], t.version));
    } else {
      SetRequest(World(t, s.requests), w, Idle);
    }
  }

  // A request that was refused its page knows that the head was full when the request began.
  lemma RefusedKnown(s: State, r: Request)
    requires Inv(s) && r.Picked? && RequestOK(s, r) && Refuses(s, r.page)
    ensures RequestOK(s, Refused(r.bucket, r.freeBucket, r.since))
  {
    if s.buckets[r.bucket] != [] && s.buckets[r.bucket][0] == r.page {
      InBucket(s, r.bucket, 0);
      RefusedFull(s, r.page);
    }
  }

  // ---------- runs ----------

  // The world after a run; a failed assert ends the program, and the run with it.
  ghost function Run(s: World, run: seq<Action>): (t: Option<World>)
    requires Good(s)
    ensures t.Some? ==> Good(t.value)
    decreases |run|
  {
    if run == [] then Some(s)
    else if !Possible(s, run[0]) || !Asserts(s, run[0]) then None
    else
      StepGood(s, run[0]);
      Run(Step(s, run[0]), run[1..])
  }

  // The steps of the store that an action consists of
  ghost function Labels(s: World, a: Action): seq<Label>
    requires Inv(s.store) && Possible(s, a)
  {
    match a
    case Pick(_, b, fb) => if s.store.buckets[b] == [] then [AllocatePageStep(b, fb)] else []
    case Attempt(w, data) => [WriteStep(s.requests[w].page, data)]
    case Allocate(w) => [AllocatePageStep(s.requests[w].bucket, s.requests[w].freeBucket)]
    case Other(l) => [l]
  }

  ghost function AllLabels(s: World, run: seq<Action>): seq<Label>
    requires Good(s) && Run(s, run).Some?
    decreases |run|
  {
    if run == [] then []
    else
      StepGood(s, run[0]);
      Labels(s, run[0]) + AllLabels(Step(s, run[0]), run[1..])
  }

  /** A run of requests is a run of the store, so whatever holds of those holds here. */
  lemma {:induction false} RunIsExec(s: World, run: seq<Action>)
    requires Good(s) && Run(s, run).Some?
    ensures Exec(s.store, AllLabels(s, run)) == Some(Run(s, run).value.store)
    decreases |run|
  {
    if run != [] {
      StepGood(s, run[0]);
      var t := Step(s, run[0]);
      RunIsExec(t, run[1..]);
      LabelsOne(s, run[0], AllLabels(t, run[1..]));
    }
  }

  lemma LabelsOne(s: World, a: Action, rest: seq<Label>)
    requires Inv(s.store) && Possible(s, a) && Inv(Step(s, a).store)
    ensures Exec(s.store, Labels(s, a) + rest) == Exec(Step(s, a).store, rest)
  {
    var ls := Labels(s, a);
    if ls == [] {
      assert ls + rest == rest;
    } else {
      assert (ls + rest)[1..] == rest;
    }
  }

  // An empty store without requests under way
  lemma StartGood(s: World)
    requires Inv(s.store) && (forall b :: 0 <= b < |s.store.buckets| ==> s.store.buckets[b] == [])
    requires forall w :: 0 <= w < |s.requests| ==> s.requests[w].Idle?
    ensures Good(s) && Apart(s.requests) && AllQuiet(s)
  {
  }

  // The head of the bucket was put there after the request had read the head, and is not full yet.
  predicate Overtaken(s: State, b: nat, since: nat)
    requires b < |s.buckets|
  {
    s.buckets[b] != [] && s.buckets[b][0] < |s.pages| && s.pages[s.buckets[b][0]].version >= since
    && s.pages[s.buckets[b][0]].reserved < s.pageSize
  }

  /** However the threads interleave, the assert at a pending allocation fails exactly if meanwhile another request
      put a new page at the head of the same bucket that is not full yet. */
  lemma AssertExact(s: World, run: seq<Action>, w: nat)
    requires Good(s) && Run(s, run).Some? && w < |Run(s, run).value.requests| && Run(s, run).value.requests[w].Refused?
    ensures var t := Run(s, run).value;
      && Possible(t, Allocate(w))
      && (Asserts(t, Allocate(w)) <==> !Overtaken(t.store, t.requests[w].bucket, t.requests[w].since))
  {
    var t := Run(s, run).value;
    var r := t.requests[w];
    assert RequestOK(t.store, r);
    if t.store.buckets[r.bucket] != [] {
      InBucket(t.store, r.bucket, 0);
      ReservedBound(t.store, t.store.buckets[r.bucket][0]);
    }
  }

  // No two requests for one bucket are under way.
  predicate Apart(requests: seq<Request>) {
    forall v, w :: 0 <= v < w < |requests| && !requests[v].Idle? && !requests[w].Idle? ==>
      requests[v].bucket != requests[w].bucket
  }

  // A request begins only while no other one for its bucket is under way.
  predicate Serial(s: World, a: Action) {
    a.Pick? ==> forall v :: 0 <= v < |s.requests| && v != a.w && !s.requests[v].Idle? ==>
        s.requests[v].bucket != a.bucket
  }

  // No page came to the bucket of a request since it read the head.
  ghost predicate Quiet(s: State, r: Request) {
    !r.Idle? && r.bucket < |s.buckets| && s.buckets[r.bucket] != [] && s.buckets[r.bucket][0] < |s.pages| ==>
      Full(s, s.buckets[r.bucket][0]) || s.pages[s.buckets[r.bucket][0]].version < r.since
  }

  ghost predicate AllQuiet(s: World) {
    forall w {:trigger Quiet(s.store, s.requests[w])} :: 0 <= w < |s.requests| ==> Quiet(s.store, s.requests[w])
  }

  // A run without overlap, and in which each step was possible when its turn came
  ghost predicate SerialRun(s: World, run: seq<Action>)
    requires Inv(s.store)
    decreases |run|
  {
    run == [] || (Possible(s, run[0]) && Serial(s, run[0]) &&
        (StepInv(s, run[0]); SerialRun(Step(s, run[0]), run[1..])))
  }

  lemma CalmQuiet(s: State, t: State, r: Request)
    requires Calm(s, t) && Inv(t) && Quiet(s, r) && RequestOK(s, r)
    requires !r.Idle? ==> r.bucket < |s.buckets| && TailFull(s, r.bucket)
    ensures Quiet(t, r)
  {
    if !r.Idle? && t.buckets[r.bucket] != [] {
      InBucket(t, r.bucket, 0);
      var p := t.buckets[r.bucket][0];
      assert Kept(s.buckets[r.bucket], t.buckets[r.bucket]);
      if p != s.buckets[r.bucket][0] { StillFull(s, t, r.bucket, 0, p); }
    }
  }

  lemma AllocateQuiet(s: State, b: nat, fb: nat, r: Request)
    requires Inv(s) && b < |s.buckets| && fb < |s.freeBuckets| && RequestOK(s, r) && Quiet(s, r)
    requires !r.Idle? ==> r.bucket != b
    ensures Quiet(AllocatePage(s, b, fb), r)
  {
    if s.freeBuckets[Source(s, fb)] != [] {
      NewHead(s, b, fb);
      if !r.Idle? && s.buckets[r.bucket] != [] { InBucket(s, r.bucket, 0); }
    }
  }

  // The head of a bucket has a version below the version counter.
  lemma HeadOld(s: State, b: nat)
    requires Inv(s) && b < |s.buckets| && s.buckets[b] != []
    ensures s.buckets[b][0] < |s.pages| && s.pages[s.buckets[b][0]].version < s.version
  {
    InBucket(s, b, 0);
    PageFacts(s, s.buckets[b][0]);
  }

  lemma SerialStep(s: World, a: Action)
    requires Good(s) && Apart(s.requests) && AllQuiet(s) && Possible(s, a) && Serial(s, a)
    ensures Asserts(s, a) && Apart(Step(s, a).requests) && AllQuiet(Step(s, a))
  {
    var t := Step(s, a);
    if a.Allocate? {
      assert RequestOK(s.store, s.requests[a.w]) && Quiet(s.store, s.requests[a.w]);
    }
    StepGood(s, a);
    forall v | 0 <= v < |t.requests| ensures Quiet(t.store, t.requests[v]) {
      assert RequestOK(s.store, s.requests[v]) && Quiet(s.store, s.requests[v]);
      QuietStep(s, a, v);
    }
  }

  lemma QuietStep(s: World, a: Action, v: nat)
    requires Good(s) && Apart(s.requests) && Possible(s, a) && Serial(s, a) && v < |s.requests|
    requires RequestOK(s.store, s.requests[v]) && Quiet(s.store, s.requests[v]) && Inv(Step(s, a).store)
    ensures Quiet(Step(s, a).store, Step(s, a).requests[v])
  {
    var r, t := s.requests[v], Step(s, a);
    if !r.Idle? { assert TailFull(s.store, r.bucket); }
    match a
    case Pick(w, b, fb) =>
      if v == w {
        if t.store.buckets[b] != [] { HeadOld(t.store, b); }
      } else {
        AllocateQuiet(s.store, b, fb, r);
      }
    case Attempt(w, data) =>
      WriteCalm(s.store, s.requests[w].page, data);
      CalmQuiet(s.store, Write(s.store, s.requests[w].page, data), r);
    case Allocate(w) =>
      if v != w { AllocateQuiet(s.store, s.requests[w].bucket, s.requests[w].freeBucket, r); }
    case Other(l) =>
      OtherCalm(s.store, l);
      CalmQuiet(s.store, t.store, r);
  }

  /** If no two requests for one bucket overlap, from reading the head to the end of the allocation, the assert never
      fails: every such run can be carried to its end. */
  lemma {:induction false} SerialAsserts(s: World, run: seq<Action>)
    requires Good(s) && Apart(s.requests) && AllQuiet(s) && SerialRun(s, run)
    ensures Run(s, run).Some?
    decreases |run|
  {
    if run != [] {
      SerialStep(s, run[0]);
      StepGood(s, run[0]);
      SerialAsserts(Step(s, run[0]), run[1..]);
    }
  }

  /** Two requests that overlap: both read the same full head, the first allocates a new page, and the assert of the
      second one's allocation fails, although never more than one allocation is due at a time. */
  lemma OverlapFails(s: World, v: nat, w: nat, b: nat, fb: nat, data: seq<byte>)
    requires Good(s) && v < |s.requests| && w < |s.requests| && v != w && s.requests[v].Idle? && s.requests[w].Idle?
    requires b < |s.store.buckets| && fb < |s.store.freeBuckets| && s.store.buckets[b] != []
    requires s.store.buckets[b][0] < |s.store.pages| && Refuses(s.store, s.store.buckets[b][0])
    requires s.store.freeBuckets[Source(s.store, fb)] != []
    ensures var run := [Pick(v, b, fb), Pick(w, b, fb), Attempt(v, data), Allocate(v), Attempt(w, data)];
      && Run(s, run).Some? && Possible(Run(s, run).value, Allocate(w)) && !Asserts(Run(s, run).value, Allocate(w))
  {
    var s1, s2 := Step(s, Pick(v, b, fb)), Step(Step(s, Pick(v, b, fb)), Pick(w, b, fb));
    StepGood(s, Pick(v, b, fb));
    StepGood(s1, Pick(w, b, fb));
    InBucket(s.store, b, 0);
    RefusedFull(s.store, s.store.buckets[b][0]);
    SecondFails(s2, v, w, b, fb, data);
    var rest := Second(v, w, data);
    RunMore(s1, Pick(w, b, fb), rest);
    RunMore(s, Pick(v, b, fb), [Pick(w, b, fb)] + rest);
    assert [Pick(v, b, fb)] + ([Pick(w, b, fb)] + rest) ==
           [Pick(v, b, fb), Pick(w, b, fb), Attempt(v, data), Allocate(v), Attempt(w, data)];
  }

  lemma RunMore(s: World, a: Action, run: seq<Action>)
    requires Good(s) && Possible(s, a) && Asserts(s, a)
    ensures Good(Step(s, a)) && Run(s, [a] + run) == Run(Step(s, a), run)
  {
    StepGood(s, a);
    assert ([a] + run)[1..] == run;
  }

  // Both requests have read the full head of the bucket.
  ghost predicate BothPicked(s: World, v: nat, w: nat, b: nat, fb: nat) {
    && Good(s) && v < |s.requests| && w < |s.requests| && v != w
    && b < |s.store.buckets| && fb < |s.store.freeBuckets| && s.store.buckets[b] != []
    && s.store.freeBuckets[Source(s.store, fb)] != []
    && var p := s.store.buckets[b][0];
    && p < |s.store.pages| && Refuses(s.store, p) && Full(s.store, p)
    && s.requests[v] == s.requests[w] == Picked(b, fb, p, s.store.version)
  }

  lemma SecondFails(s: World, v: nat, w: nat, b: nat, fb: nat, data: seq<byte>)
    requires BothPicked(s, v, w, b, fb)
    ensures var run := Second(v, w, data);
      && Run(s, run).Some? && Possible(Run(s, run).value, Allocate(w)) && !Asserts(Run(s, run).value, Allocate(w))
  {
    RunMore(s, Attempt(v, data), [Allocate(v)] + ([Attempt(w, data)] + []));
    var s1 := Step(s, Attempt(v, data));
    RunMore(s1, Allocate(v), [Attempt(w, data)] + []);
    FirstAllocates(s, v, w, b, fb, data);
    RunMore(Step(s1, Allocate(v)), Attempt(w, data), []);
  }

  function Second(v: nat, w: nat, data: seq<byte>): seq<Action> {
    [Attempt(v, data)] + ([Allocate(v)] + ([Attempt(w, data)] + []))
  }

  // The first request's allocation leaves the second one with its old page and the bucket with a head that is empty.
  lemma FirstAllocates(s: World, v: nat, w: nat, b: nat, fb: nat, data: seq<byte>)
    requires BothPicked(s, v, w, b, fb)
    requires Inv(Step(s, Attempt(v, data)).store)
    ensures var s2 := Step(Step(s, Attempt(v, data)), Allocate(v));
      && s2.requests[w] == s.requests[w] && Inv(s2.store) && Possible(s2, Attempt(w, data))
      && Refuses(s2.store, s.requests[w].page) && b < |s2.store.buckets| && fb < |s2.store.freeBuckets|
      && !HeadFull(s2.store, b)
  {
    AllocatePageOK(s.store, b, fb);
    NewHead(s.store, b, fb);
    InBucket(s.store, b, 0);
    StillRefused(s.store, AllocatePage(s.store, b, fb), s.store.buckets[b][0]);
  }

  lemma StillRefused(s: State, t: State, p: nat)
    requires Inv(s) && Inv(t) && p < |s.pages| == |t.pages| && t.pages[p] == s.pages[p] && t.wbufs == s.wbufs
    requires t.pageSize == s.pageSize && Refuses(s, p)
    ensures Refuses(t, p)
  {
  }

  // ---------- a request that is served ----------

  // A write to page p succeeds.
  ghost predicate Takes(s: State, p: nat, data: seq<byte>)
    requires Inv(s)
  {
    p < |s.pages| && Written(s, p, data).Some?
  }

  // An empty bucket, or one with a full head, and a page and a buffer for it
  ghost predicate Servable(s: World, w: nat, b: nat, fb: nat, data: seq<byte>) {
    && Good(s) && w < |s.requests| && s.requests[w].Idle? && b < |s.store.buckets| && fb < |s.store.freeBuckets|
    && 0 < |data| <= s.store.wbufSize && s.store.wbufStack != []
    && (ExtstoreObjects.Offers(s.store, fb) || ExtstoreObjects.Offers(s.store, 0))
  }

  // A page that comes into service takes the data.
  lemma NewPageTakes(s: State, b: nat, fb: nat, data: seq<byte>)
    requires Inv(s) && b < |s.buckets| && fb < |s.freeBuckets| && |data| <= s.wbufSize && s.wbufStack != []
    requires ExtstoreObjects.Offers(s, fb) || ExtstoreObjects.Offers(s, 0)
    ensures var t := AllocatePage(s, b, fb);
      && Inv(t) && t.objs == s.objs && |t.buckets| == |s.buckets| && |t.freeBuckets| == |s.freeBuckets|
      && t.buckets[b] != [] && Takes(t, t.buckets[b][0], data)
  {
    var p := ExtstoreObjects.AllocateIff(s, b, fb);
    PageFacts(s, p);
    AllocatePageOK(s, b, fb);
    ExtstoreObjects.WriteIff(AllocatePage(s, b, fb), p, data);
  }

  // A picked page that takes the data gets it.
  lemma AttemptWrites(s: World, w: nat, data: seq<byte>)
    requires Good(s) && w < |s.requests| && s.requests[w].Picked? && data != []
    requires Takes(s.store, s.requests[w].page, data)
    ensures
      && Run(s, [Attempt(w, data)]).Some?
      && var t := Run(s, [Attempt(w, data)]).value;
      && w < |t.requests| && t.requests[w].Idle?
      && t.store.objs == s.store.objs + {Written(s.store, s.requests[w].page, data).value}
  {
    assert RequestOK(s.store, s.requests[w]);
    ExtstoreObjects.WriteIff(s.store, s.requests[w].page, data);
    RunMore(s, Attempt(w, data), []);
    assert [Attempt(w, data)] + [] == [Attempt(w, data)];
  }

  // Some object with these bytes is new in t.
  ghost predicate Stored(s: State, t: State, data: seq<byte>) {
    exists o :: o in t.objs && o.data == data && t.objs == s.objs + {o}
  }

  // The request finds a head that takes the data.
  lemma PickWrites(s: World, w: nat, b: nat, fb: nat, data: seq<byte>)
    requires Good(s) && w < |s.requests| && s.requests[w].Idle? && b < |s.store.buckets| && fb < |s.store.freeBuckets|
    requires data != [] && s.store.buckets[b] != [] && Takes(s.store, s.store.buckets[b][0], data)
    ensures var run := [Pick(w, b, fb), Attempt(w, data)];
      Run(s, run).Some? && Stored(s.store, Run(s, run).value.store, data)
  {
    RunMore(s, Pick(w, b, fb), [Attempt(w, data)]);
    AttemptWrites(Step(s, Pick(w, b, fb)), w, data);
    assert [Pick(w, b, fb)] + [Attempt(w, data)] == [Pick(w, b, fb), Attempt(w, data)];
  }

  /** A request for an empty bucket is served at once if a page and a buffer are free. */
  lemma EmptyServed(s: World, w: nat, b: nat, fb: nat, data: seq<byte>)
    requires Servable(s, w, b, fb, data) && s.store.buckets[b] == []
    ensures var run := [Pick(w, b, fb), Attempt(w, data)];
      Run(s, run).Some? && Stored(s.store, Run(s, run).value.store, data)
  {
    NewPageTakes(s.store, b, fb, data);
    RunMore(s, Pick(w, b, fb), [Attempt(w, data)]);
    AttemptWrites(Step(s, Pick(w, b, fb)), w, data);
    assert [Pick(w, b, fb)] + [Attempt(w, data)] == [Pick(w, b, fb), Attempt(w, data)];
  }

  // A refused request allocates, and its caller tries again.
  lemma AllocateServes(s: World, w: nat, b: nat, fb: nat, data: seq<byte>)
    requires Good(s) && w < |s.requests| && s.requests[w].Refused? && s.requests[w].bucket == b
    requires s.requests[w].freeBucket == fb && b < |s.store.buckets| && fb < |s.store.freeBuckets|
    requires HeadFull(s.store, b) && Servable(World(s.store, s.requests[w := Idle]), w, b, fb, data)
    ensures var run := [Allocate(w)] + [Pick(w, b, fb), Attempt(w, data)];
      Run(s, run).Some? && Stored(s.store, Run(s, run).value.store, data)
  {
    RunMore(s, Allocate(w), [Pick(w, b, fb), Attempt(w, data)]);
    NewPageTakes(s.store, b, fb, data);
    PickWrites(Step(s, Allocate(w)), w, b, fb, data);
  }

  /** A request that finds a full page allocates a new one, and when its caller tries again the data is stored. */
  lemma RetryServed(s: World, w: nat, b: nat, fb: nat, data: seq<byte>)
    requires Servable(s, w, b, fb, data) && s.store.buckets[b] != []
    requires s.store.buckets[b][0] < |s.store.pages| && Refuses(s.store, s.store.buckets[b][0])
    ensures var run := [Pick(w, b, fb), Attempt(w, data), Allocate(w), Pick(w, b, fb), Attempt(w, data)];
      Run(s, run).Some? && Stored(s.store, Run(s, run).value.store, data)
  {
    var again := [Allocate(w)] + [Pick(w, b, fb), Attempt(w, data)];
    InBucket(s.store, b, 0);
    RefusedFull(s.store, s.store.buckets[b][0]);
    RunMore(s, Pick(w, b, fb), [Attempt(w, data)] + again);
    var s1 := Step(s, Pick(w, b, fb));
    RunMore(s1, Attempt(w, data), again);
    var s2 := Step(s1, Attempt(w, data));
    assert s2.store == s.store && s2.requests[w := Idle][w].Idle?;
    BackToIdle(s2, w);
    AllocateServes(s2, w, b, fb, data);
    assert [Pick(w, b, fb)] + ([Attempt(w, data)] + again)
        == [Pick(w, b, fb), Attempt(w, data), Allocate(w), Pick(w, b, fb), Attempt(w, data)];
  }

  lemma BackToIdle(s: World, w: nat)
    requires Good(s) && w < |s.requests|
    ensures Good(World(s.store, s.requests[w := Idle]))
  {
    var t := World(s.store, s.requests[w := Idle]);
    forall v | 0 <= v < |t.requests| ensures RequestOK(t.store, t.requests[v]) {
      assert RequestOK(s.store, s.requests[v]);
    }
    forall b: nat | b < |t.store.buckets| ensures TailFull(t.store, b) {
      assert TailFull(s.store, b);
    }
  }
}
