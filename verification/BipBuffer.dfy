/** The bip buffer of sources/memcached/bipbuffer.c: a byte queue kept in at most two contiguous regions of
    one array, region A from aStart to aEnd and, while it is in use, region B from 0 to bEnd. */
module BipBuffer {

  import opened Common

  // The cursors
  datatype Ix = Ix(size: nat, aStart: nat, aEnd: nat, bEnd: nat, bInuse: bool)

  // Region B is in use exactly while the room in front of region A is larger than the room behind it.
  predicate IxOK(x: Ix) {
    && x.bEnd <= x.aStart <= x.aEnd <= x.size
    && (x.bInuse <==> x.size - x.aEnd < x.aStart)
    && (!x.bInuse ==> x.bEnd == 0)
    && (x.aStart == x.aEnd ==> x.aStart == 0 && !x.bInuse)
  }

  function Unused(x: Ix): int {
    if x.bInuse then x.aStart - x.bEnd else x.size - x.aEnd
  }

  // There is room for n more bytes on the larger side of region A.
  predicate Room(x: Ix, n: nat) {
    if x.size - x.aEnd < x.aStart then x.bEnd + n <= x.aStart else x.aEnd + n <= x.size
  }

  /** bipbuf_unused: what is accepted depends on the regions only. What is refused while region B is empty fits
      neither behind region A nor in front of it. */
  lemma AcceptedIff(x: Ix, n: nat)
    requires IxOK(x)
    ensures Unused(x) >= n <==> Room(x, n)
    ensures x.bEnd == 0 ==> (Unused(x) >= n <==> n <= x.aStart || n <= x.size - x.aEnd)
  {
  }

  // __check_for_switch_to_b
  function Switched(x: Ix): Ix {
    if x.size - x.aEnd < x.aStart - x.bEnd then x.(bInuse := true) else x
  }

  function Pushed(x: Ix, n: nat): Ix {
    if Unused(x) < n then x
    else Switched(if x.bInuse then x.(bEnd := x.bEnd + n) else x.(aEnd := x.aEnd + n))
  }

  // bipbuf_poll refuses an empty buffer and a size beyond the end of the array.
  predicate PollRefused(x: Ix, n: nat) {
    x.aStart == x.aEnd || x.size < x.aStart + n
  }

  function Polled(x: Ix, n: nat): Ix {
    if PollRefused(x, n) then x
    else
      var y := x.(aStart := x.aStart + n);
      Switched(
        if y.aStart != y.aEnd then y
        else if y.bInuse then Ix(x.size, 0, y.bEnd, 0, false)
        else Ix(x.size, 0, 0, 0, false))
  }

  /** A poll keeps the cursors in order exactly if it is refused or takes no more than region A holds: the
      source leaves this limit to its callers. */
  lemma PolledOK(x: Ix, n: nat)
    requires IxOK(x)
    ensures IxOK(Polled(x, n)) <==> PollRefused(x, n) || n <= x.aEnd - x.aStart
  {
  }

  function Total(ns: seq<nat>): nat {
    if ns == [] then 0 else ns[0] + Total(ns[1..])
  }

  function PushedAll(x: Ix, ns: seq<nat>): Ix
    decreases |ns|
  {
    if ns == [] then x else PushedAll(Pushed(x, ns[0]), ns[1..])
  }

  /** After a request of m bytes was granted, pushes of at most m bytes in total all succeed, also if region B
      comes into use between them. */
  lemma {:induction false} RequestedPushes(x: Ix, m: nat, ns: seq<nat>, k: nat)
    requires IxOK(x) && Unused(x) >= m && Total(ns) <= m && k < |ns|
    ensures IxOK(PushedAll(x, ns[..k])) && Unused(PushedAll(x, ns[..k])) >= ns[k]
    decreases |ns|
  {
    if k > 0 {
      assert ns[..k][0] == ns[0] && ns[..k][1..] == ns[1..][..k - 1];
      assert Unused(Pushed(x, ns[0])) >= m - ns[0];
      RequestedPushes(Pushed(x, ns[0]), m - ns[0], ns[1..], k - 1);
    }
  }

  // The bytes in the queue, oldest first
  function Queue(d: seq<byte>, x: Ix): seq<byte>
    requires IxOK(x) && |d| == x.size
  {
    d[x.aStart..x.aEnd] + d[..x.bEnd]
  }

  // Where the next byte goes
  function End(x: Ix): nat {
    if x.bInuse then x.bEnd else x.aEnd
  }

  lemma QueuePushed(d: seq<byte>, x: Ix, n: nat)
    requires IxOK(x) && |d| == x.size && Unused(x) >= n
    ensures IxOK(Pushed(x, n)) && Queue(d, Pushed(x, n)) == Queue(d, x) + d[End(x)..End(x) + n]
  {
    var y := Pushed(x, n);
    if x.bInuse {
      Appended(d, 0, x.bEnd, n);
      assert d[..x.bEnd] == d[0..x.bEnd] && d[..y.bEnd] == d[0..y.bEnd];
      Grouped(d[x.aStart..x.aEnd], d[..x.bEnd], d[x.bEnd..x.bEnd + n]);
    } else {
      Appended(d, x.aStart, x.aEnd, n);
      assert d[..y.bEnd] == [] && d[..x.bEnd] == [];
    }
  }

  lemma Appended(d: seq<byte>, a: nat, b: nat, n: nat)
    requires a <= b <= b + n <= |d|
    ensures d[a..b + n] == d[a..b] + d[b..b + n]
  {
  }

  lemma Grouped(a: seq<byte>, b: seq<byte>, c: seq<byte>)
    ensures a + (b + c) == (a + b) + c
  {
  }

  lemma QueuePolled(d: seq<byte>, x: Ix, n: nat)
    requires IxOK(x) && |d| == x.size && x.aStart < x.aEnd && n <= x.aEnd - x.aStart
    ensures IxOK(Polled(x, n)) && Queue(d, x) == d[x.aStart..x.aStart + n] + Queue(d, Polled(x, n))
  {
    assert d[x.aStart..x.aEnd] == d[x.aStart..x.aStart + n] + d[x.aStart + n..x.aEnd];
  }

  lemma QueueFilled(d: seq<byte>, e: seq<byte>, x: Ix, n: nat)
    requires IxOK(x) && |d| == |e| == x.size && Unused(x) >= n
    requires forall k :: 0 <= k < |d| && !(End(x) <= k < End(x) + n) ==> e[k] == d[k]
    ensures Queue(e, x) == Queue(d, x) && e[x.aStart..x.aEnd] == d[x.aStart..x.aEnd]
  {
    assert e[..x.bEnd] == d[..x.bEnd];
  }

  class Buffer {
    const size: nat
    var aStart: nat
    var aEnd: nat
    var bEnd: nat
    var bInuse: bool
    const data: array<byte>

    ghost function Cursors(): Ix
      reads this
    {
      Ix(size, aStart, aEnd, bEnd, bInuse)
    }

    ghost predicate Valid()
      reads this
    {
      IxOK(Cursors()) && data.Length == size
    }

    // The bytes in the queue, oldest first
    ghost function Contents(): seq<byte>
      requires Valid()
      reads this, data
    {
      Queue(data[..], Cursors())
    }

    constructor (size: nat)
      ensures Valid() && Contents() == [] && Cursors() == Ix(size, 0, 0, 0, false) && fresh(data)
    {
      this.size, data := size, new byte[size](_ => 0);
      aStart, aEnd, bEnd, bInuse := 0, 0, 0, false;
    }

    method IsEmpty() returns (r: bool)
      requires Valid()
      ensures r <==> Contents() == []
    {
      r := aStart == aEnd;
    }

    method UnusedBytes() returns (r: nat)
      requires Valid()
      ensures r == Unused(Cursors())
    {
      r := if bInuse then aStart - bEnd else size - aEnd;
    }

    /** bipbuf_used */
    method UsedBytes() returns (r: nat)
      requires Valid()
      ensures r == |Contents()|
    {
      r := aEnd - aStart + bEnd;
    }

    method CheckForSwitchToB()
      modifies this`bInuse
      ensures Cursors() == Switched(old(Cursors()))
    {
      if size - aEnd < aStart - bEnd {
        bInuse := true;
      }
    }

    /** bipbuf_request: room for n bytes that a push of at most n adds to the queue. The room holds no queued
        byte. */
    method Request(n: nat) returns (at: Option<nat>)
      requires Valid()
      ensures at.Some? <==> Room(Cursors(), n)
      ensures at.Some? ==> at.value == End(Cursors()) && at.value + n <= size
      ensures at.Some? ==> at.value >= aEnd || bEnd <= at.value <= at.value + n <= aStart
    {
      var unused := UnusedBytes();
      if unused < n {
        return None;
      }
      at := Some(if bInuse then bEnd else aEnd);
    }

    /** Writing into the requested room changes nothing that is queued. */
    method Fill(n: nat, bytes: seq<byte>)
      requires Valid() && Unused(Cursors()) >= n >= |bytes|
      modifies data
      ensures Contents() == old(Contents()) && data[aStart..aEnd] == old(data[aStart..aEnd])
      ensures var at := End(Cursors()); data[at..at + |bytes|] == bytes
    {
      var at := if bInuse then bEnd else aEnd;
      var i := 0;
      while i < |bytes|
        invariant 0 <= i <= |bytes|
        invariant forall k :: 0 <= k < i ==> data[at + k] == bytes[k]
        invariant forall k :: 0 <= k < size && !(at <= k < at + i) ==> data[k] == old(data[k])
      {
        data[at + i] := bytes[i];
        i := i + 1;
      }
      QueueFilled(old(data[..]), data[..], Cursors(), n);
    }

    /** bipbuf_push: the next n bytes of the requested room join the queue. */
    method Push(n: nat) returns (r: nat)
      requires Valid()
      modifies this`aEnd, this`bEnd, this`bInuse
      ensures Valid() == true && Cursors() == Pushed(old(Cursors()), n)
      ensures r == if Room(old(Cursors()), n) then n else 0
      ensures Room(old(Cursors()), n) ==> var at := End(old(Cursors()));
          at + n <= size && Contents() == old(Contents()) + data[at..at + n]
    {
      ghost var x := Cursors();
      AcceptedIff(x, n);
      var unused := UnusedBytes();
      if unused < n {
        return 0;
      }
      if bInuse {
        bEnd := bEnd + n;
      } else {
        aEnd := aEnd + n;
      }
      ghost var y := if x.bInuse then x.(bEnd := x.bEnd + n) else x.(aEnd := x.aEnd + n);
      assert Cursors() == y;
      CheckForSwitchToB();
      assert Cursors() == Switched(y);
      QueuePushed(data[..], x, n);
      r := n;
    }

    /** bipbuf_offer: the bytes join the queue if they fit. What peek_all has shown stays where it is. */
    method Offer(bytes: seq<byte>) returns (r: nat)
      requires Valid()
      modifies this`aEnd, this`bEnd, this`bInuse, data
      ensures Valid() == true && Cursors() == Pushed(old(Cursors()), |bytes|)
      ensures r == if Room(old(Cursors()), |bytes|) then |bytes| else 0
      ensures Contents() == if Room(old(Cursors()), |bytes|) then old(Contents()) + bytes else old(Contents())
      ensures aStart == old(aStart) && aEnd >= old(aEnd) && data[old(aStart)..old(aEnd)] == old(data[aStart..aEnd])
    {
      var unused := UnusedBytes();
      if unused < |bytes| {
        return 0;
      }
      Fill(|bytes|, bytes);
      r := Push(|bytes|);
    }

    /** bipbuf_peek_all: where the bytes of region A are. They are the oldest of the queue. */
    method PeekAll() returns (r: Option<(nat, nat)>)
      requires Valid()
      ensures r.None? <==> Contents() == []
      ensures r.Some? ==> r.value.0 == aStart && r.value.1 == aEnd - aStart > 0
      ensures r.Some? ==> data[r.value.0..r.value.0 + r.value.1] <= Contents()
    {
      if aStart == aEnd {
        return None;
      }
      r := Some((aStart, aEnd - aStart));
    }

    /** bipbuf_poll of at most the peeked size takes the oldest n bytes from the queue. */
    method Poll(n: nat) returns (at: Option<nat>)
      requires Valid() && n <= aEnd - aStart
      modifies this`aStart, this`aEnd, this`bEnd, this`bInuse
      ensures Valid() == true && Cursors() == Polled(old(Cursors()), n)
      ensures at.None? <==> old(Contents()) == []
      ensures at.None? ==> Contents() == []
      ensures if old(aStart == aEnd) then at == None else at == Some(old(aStart)) && at.value + n <= size
      ensures at.Some? ==> old(Contents()) == data[at.value..at.value + n] + Contents()
    {
      ghost var x := Cursors();
      if aStart == aEnd {
        return None;
      }
      if size < aStart + n {
        return None;
      }
      at := Some(aStart);
      aStart := aStart + n;
      if aStart == aEnd {
        if bInuse {
          aStart := 0;
          aEnd := bEnd;
          bEnd := 0;
          bInuse := false;
        } else {
          aStart := 0;
          aEnd := 0;
        }
      }
      CheckForSwitchToB();
      QueuePolled(data[..], x, n);
    }
  }

  // ---------- clients ----------

  // Where a consumer was told to look, and for how many bytes
  datatype Peek = Peek(at: nat, length: nat)

  /** What producers and the consumer do, each under the buffer's lock: the consumer peeks, and later polls at
      most what it peeked; in between producers offer bytes, or request room, write into it and push. */
  datatype Op = PeekOp | PollOp(n: nat) | OfferOp(bytes: seq<byte>) | PushOp(room: nat, bytes: seq<byte>)

  // The bytes an operation adds to the queue
  function Added(x: Ix, op: Op): seq<byte> {
    match op
    case OfferOp(bytes) => if Room(x, |bytes|) then bytes else []
    case PushOp(room, bytes) => if Room(x, room) && |bytes| <= room then bytes else []
    case _ => []
  }

  // The cursors after an operation, and what a peek has then shown, of which `length` was shown before
  function After(x: Ix, length: Option<nat>, op: Op): Ix {
    match op
    case PollOp(n) => if length.Some? then Polled(x, Least(n, length.value)) else x
    case _ => if Added(x, op) == [] then x else Pushed(x, |Added(x, op)|)
  }

  function Shows(x: Ix, length: Option<nat>, op: Op): Option<nat> {
    match op
    case PollOp(_) => None
    case PeekOp => if length.None? && x.aStart < x.aEnd then Some(x.aEnd - x.aStart) else length
    case _ => length
  }

  /** Everything that is accepted in a run, and how much each poll takes: what fits depends on sizes only. */
  function AllAdded(x: Ix, length: Option<nat>, ops: seq<Op>): seq<byte>
    decreases |ops|
  {
    if ops == [] then []
    else Added(x, ops[0]) + AllAdded(After(x, length, ops[0]), Shows(x, length, ops[0]), ops[1..])
  }

  function PollSize(length: Option<nat>, op: Op): seq<nat> {
    if op.PollOp? && length.Some? then [Least(op.n, length.value)] else []
  }

  function PollSizes(x: Ix, length: Option<nat>, ops: seq<Op>): seq<nat>
    decreases |ops|
  {
    if ops == [] then []
    else
      PollSize(length, ops[0]) + PollSizes(After(x, length, ops[0]), Shows(x, length, ops[0]), ops[1..])
  }

  function Length(peek: Option<Peek>): Option<nat> {
    if peek.Some? then Some(peek.value.length) else None
  }

  // The peeked bytes are where they were, at the front of the queue.
  ghost predicate Intact(buffer: Buffer, peek: Option<Peek>, seen: seq<byte>)
    requires buffer.Valid()
    reads buffer, buffer.data
  {
    peek.Some? ==>
      && 0 < peek.value.length == |seen| <= buffer.aEnd - buffer.aStart && peek.value.at == buffer.aStart
      && buffer.data[peek.value.at..peek.value.at + |seen|] == seen
  }

  // A producer requests room, writes at most that much into it and pushes it, which then succeeds.
  method Produce(buffer: Buffer, room: nat, bytes: seq<byte>) returns (added: seq<byte>)
    requires buffer.Valid()
    modifies buffer`aEnd, buffer`bEnd, buffer`bInuse, buffer.data
    ensures buffer.Valid() == true && buffer.Contents() == old(buffer.Contents()) + added
    ensures added == Added(old(buffer.Cursors()), PushOp(room, bytes))
    ensures buffer.Cursors() == After(old(buffer.Cursors()), None, PushOp(room, bytes))
    ensures buffer.aStart == old(buffer.aStart) && buffer.aEnd >= old(buffer.aEnd)
    ensures buffer.data[old(buffer.aStart)..old(buffer.aEnd)] == old(buffer.data[buffer.aStart..buffer.aEnd])
  {
    added := [];
    var at := buffer.Request(room);
    if at.Some? && |bytes| <= room {
      buffer.Fill(room, bytes);
      var n := buffer.Push(|bytes|);
      assert n == |bytes|;
      added := bytes;
    }
  }

  lemma OfferAfter(x: Ix, bytes: seq<byte>)
    requires IxOK(x)
    ensures After(x, None, OfferOp(bytes)) == Pushed(x, |bytes|)
  {
    AcceptedIff(x, |bytes|);
  }

  // A producer offers bytes.
  method Send(buffer: Buffer, bytes: seq<byte>) returns (added: seq<byte>)
    requires buffer.Valid()
    modifies buffer`aEnd, buffer`bEnd, buffer`bInuse, buffer.data
    ensures buffer.Valid() == true && buffer.Contents() == old(buffer.Contents()) + added
    ensures added == Added(old(buffer.Cursors()), OfferOp(bytes))
    ensures buffer.Cursors() == After(old(buffer.Cursors()), None, OfferOp(bytes))
    ensures buffer.aStart == old(buffer.aStart) && buffer.aEnd >= old(buffer.aEnd)
    ensures buffer.data[old(buffer.aStart)..old(buffer.aEnd)] == old(buffer.data[buffer.aStart..buffer.aEnd])
  {
    OfferAfter(buffer.Cursors(), bytes);
    var r := buffer.Offer(bytes);
    added := if r == |bytes| then bytes else [];
  }

  lemma PrefixKept(d: seq<byte>, start: nat, end: nat, a: seq<byte>, n: nat)
    requires start <= end <= |d| && d[start..end] == a && n <= |a|
    ensures d[start..start + n] == a[..n]
  {
  }

  lemma Joined(taken: seq<byte>, was: seq<byte>, added: seq<byte>, removed: seq<byte>, now: seq<byte>)
    requires was + added == removed + now
    ensures (taken + was) + added == (taken + removed) + now
  {
    assert (taken + was) + added == taken + (was + added);
    assert (taken + removed) + now == taken + (removed + now);
  }

  // An offer or a push leaves what was peeked alone.
  method Add(buffer: Buffer, op: Op, ghost peek: Option<Peek>, ghost seen: seq<byte>) returns (added: seq<byte>)
    requires buffer.Valid() && Intact(buffer, peek, seen) && (op.OfferOp? || op.PushOp?)
    modifies buffer`aEnd, buffer`bEnd, buffer`bInuse, buffer.data
    ensures buffer.Valid() == true && Intact(buffer, peek, seen) == true
    ensures buffer.Contents() == old(buffer.Contents()) + added
    ensures added == Added(old(buffer.Cursors()), op) && buffer.Cursors() == After(old(buffer.Cursors()), None, op)
  {
    ghost var a, e := buffer.data[buffer.aStart..buffer.aEnd], buffer.aEnd;
    if peek.Some? { PrefixKept(buffer.data[..], buffer.aStart, e, a, |seen|); }
    if op.OfferOp? {
      added := Send(buffer, op.bytes);
    } else {
      added := Produce(buffer, op.room, op.bytes);
    }
    StillIntact(buffer, peek, seen, e, a);
  }

  lemma StillIntact(buffer: Buffer, peek: Option<Peek>, seen: seq<byte>, e: nat, a: seq<byte>)
    requires buffer.Valid() && buffer.aStart <= e <= buffer.aEnd && buffer.data[buffer.aStart..e] == a
    requires peek.Some? ==>
      0 < peek.value.length == |seen| <= |a| && peek.value.at == buffer.aStart && a[..|seen|] == seen
    ensures Intact(buffer, peek, seen)
  {
    if peek.Some? { PrefixKept(buffer.data[..], buffer.aStart, e, a, |seen|); }
  }

  // The consumer reads the bytes it was shown, at the place it was shown, and polls them.
  method TakePeeked(buffer: Buffer, peek: Peek, n: nat, ghost seen: seq<byte>) returns (taken: seq<byte>)
    requires buffer.Valid() && Intact(buffer, Some(peek), seen) && n <= peek.length
    modifies buffer`aStart, buffer`aEnd, buffer`bEnd, buffer`bInuse
    ensures buffer.Valid() == true && taken == seen[..n] && old(buffer.Contents()) == taken + buffer.Contents()
    ensures buffer.Cursors() == Polled(old(buffer.Cursors()), n)
  {
    taken := buffer.data[peek.at..peek.at + n];
    PrefixKept(buffer.data[..], peek.at, peek.at + |seen|, seen, n);
    var at := buffer.Poll(n);
  }

  // One operation: what it adds to and takes from the queue, and the peek that is outstanding after it
  method Step(buffer: Buffer, op: Op, peek: Option<Peek>, ghost seen: seq<byte>)
    returns (added: seq<byte>, taken: seq<byte>, peek': Option<Peek>, ghost seen': seq<byte>)
    requires buffer.Valid() && Intact(buffer, peek, seen)
    modifies buffer, buffer.data
    ensures buffer.Valid() == true && Intact(buffer, peek', seen') == true
    ensures old(buffer.Contents()) + added == taken + buffer.Contents()
    ensures peek.Some? && !op.PollOp? ==> peek' == peek && seen' == seen
    ensures taken == if op.PollOp? && peek.Some? then seen[..Least(op.n, |seen|)] else []
    ensures added == Added(old(buffer.Cursors()), op)
    ensures buffer.Cursors() == After(old(buffer.Cursors()), Length(peek), op)
    ensures Length(peek') == Shows(old(buffer.Cursors()), Length(peek), op)
  {
    added, taken, peek', seen' := [], [], peek, seen;
    match op
    case OfferOp(_) => added := Add(buffer, op, peek, seen);
    case PushOp(_, _) => added := Add(buffer, op, peek, seen);
    case PeekOp =>
      if peek.None? {
        var r := buffer.PeekAll();
        if r.Some? {
          peek' := Some(Peek(r.value.0, r.value.1));
          seen' := buffer.data[r.value.0..r.value.0 + r.value.1];
        }
      }
    case PollOp(n) =>
      peek' := None;
      if peek.Some? { taken := TakePeeked(buffer, peek.value, Least(n, peek.value.length), seen); }
  }

  function Least(a: nat, b: nat): nat {
    if a <= b then a else b
  }

  /** Over any run of producers and a consumer: the bytes accepted are those that fit, and they are the bytes taken
      followed by those still queued; each poll takes exactly the bytes its peek has shown, or as many of them as it
      asks for, whatever was pushed between the two. */
  method Run(size: nat, ops: seq<Op>)
    returns (accepted: seq<byte>, polled: seq<seq<byte>>, ghost shown: seq<seq<byte>>, buffer: Buffer)
    ensures fresh(buffer) && buffer.Valid() && accepted == Flatten(polled) + buffer.Contents()
    ensures Matches(polled, shown)
    ensures accepted == AllAdded(Ix(size, 0, 0, 0, false), None, ops)
    ensures Sizes(polled) == PollSizes(Ix(size, 0, 0, 0, false), None, ops)
  {
    buffer := new Buffer(size);
    accepted, polled, shown := [], [], [];
    var peek: Option<Peek> := None;
    ghost var seen: seq<byte> := [];
    ghost var x := buffer.Cursors();
    RunStart(x, ops);
    for i := 0 to |ops|
      invariant fresh(buffer) && fresh(buffer.data) && buffer.Valid() == true && Intact(buffer, peek, seen) == true
      invariant accepted == Flatten(polled) + buffer.Contents()
      invariant Matches(polled, shown)
      invariant Foreseen(x, ops, buffer.Cursors(), Length(peek), i, accepted, Sizes(polled)) == true
    {
      ghost var was, y, length := buffer.Contents(), buffer.Cursors(), Length(peek);
      ghost var sizes := Sizes(polled);
      var added, taken, peek', seen' := Step(buffer, ops[i], peek, seen);
      Accounted(accepted, polled, was, added, taken, buffer.Contents());
      RunOn(x, ops, y, length, i, accepted, sizes);
      accepted := accepted + added;
      if ops[i].PollOp? && peek.Some? {
        MatchesMore(polled, shown, taken, seen);
        SizesMore(polled, taken);
        polled, shown := polled + [taken], shown + [seen];
      }
      assert Sizes(polled) == sizes + PollSize(length, ops[i]);
      peek, seen := peek', seen';
    }
    assert ops[|ops|..] == [];
  }

  function Sizes(parts: seq<seq<byte>>): seq<nat> {
    seq(|parts|, k requires 0 <= k < |parts| => |parts[k]|)
  }

  lemma SizesMore(parts: seq<seq<byte>>, part: seq<byte>)
    ensures Sizes(parts + [part]) == Sizes(parts) + [|part|]
  {
  }

  // After i operations the cursors are y, and what is still to come completes what was accepted and polled.
  ghost predicate Foreseen(x: Ix, ops: seq<Op>, y: Ix, length: Option<nat>, i: nat, accepted: seq<byte>,
                           sizes: seq<nat>)
  {
    && i <= |ops|
    && accepted + AllAdded(y, length, ops[i..]) == AllAdded(x, None, ops)
    && sizes + PollSizes(y, length, ops[i..]) == PollSizes(x, None, ops)
  }

  lemma RunStart(x: Ix, ops: seq<Op>)
    ensures Foreseen(x, ops, x, None, 0, [], [])
  {
    assert ops[0..] == ops;
  }

  lemma RunOn(x: Ix, ops: seq<Op>, y: Ix, length: Option<nat>, i: nat, accepted: seq<byte>, sizes: seq<nat>)
    requires Foreseen(x, ops, y, length, i, accepted, sizes) && i < |ops|
    ensures
      Foreseen(x, ops, After(y, length, ops[i]), Shows(y, length, ops[i]), i + 1, accepted + Added(y, ops[i]),
               sizes + PollSize(length, ops[i]))
  {
    assert ops[i..][1..] == ops[i + 1..];
    var y', shows := After(y, length, ops[i]), Shows(y, length, ops[i]);
    assert accepted + (Added(y, ops[i]) + AllAdded(y', shows, ops[i + 1..]))
        == (accepted + Added(y, ops[i])) + AllAdded(y', shows, ops[i + 1..]);
    var polls := PollSize(length, ops[i]);
    assert sizes + (polls + PollSizes(y', shows, ops[i + 1..])) == (sizes + polls) + PollSizes(y', shows, ops[i + 1..]);
  }

  // Each poll took what its peek had shown, or the first part of it.
  ghost predicate Matches(polled: seq<seq<byte>>, shown: seq<seq<byte>>) {
    |polled| == |shown| && forall k :: 0 <= k < |polled| ==> polled[k] <= shown[k]
  }

  lemma MatchesMore(polled: seq<seq<byte>>, shown: seq<seq<byte>>, taken: seq<byte>, seen: seq<byte>)
    requires Matches(polled, shown) && taken <= seen
    ensures Matches(polled + [taken], shown + [seen])
  {
  }

  lemma Accounted(accepted: seq<byte>, polled: seq<seq<byte>>, was: seq<byte>, added: seq<byte>, taken: seq<byte>,
                  now: seq<byte>)
    requires accepted == Flatten(polled) + was && was + added == taken + now
    ensures accepted + added == Flatten(polled + [taken]) + now
    ensures taken == [] ==> accepted + added == Flatten(polled) + now
  {
    Joined(Flatten(polled), was, added, taken, now);
    assert (polled + [taken])[..|polled|] == polled;
    assert taken == [] ==> Flatten(polled) + taken == Flatten(polled);
  }
}
