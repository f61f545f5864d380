/** The streaming layer of sources/memcached/md5.c: buffering, the 64-bit bit count and the padding, over an
    abstract compression step for one 64-byte block. */
module Md5 {

  import opened Common
  import opened Division

  const WORD: nat := 0x1_0000_0000

  // The four registers
  datatype Regs = Regs(a: nat, b: nat, c: nat, d: nat)

  const IV: Regs := Regs(0x67452301, 0xefcdab89, 0x98badcfe, 0x10325476)

  type Compression = (Regs, seq<byte>) -> Regs

  // ---------- the digest as sections 3.1 to 3.5 of RFC 1321 define it ----------

  // The compression step over all full blocks of x
  function Fold(f: Compression, r: Regs, x: seq<byte>): Regs
    decreases |x|
  {
    if |x| < 64 then r else Fold(f, f(r, x[..64]), x[64..])
  }

  function Zeros(n: nat): (r: seq<byte>)
    ensures |r| == n
  {
    seq(n, _ => 0)
  }

  // Byte i of n, least significant first
  function ByteAt(n: nat, i: nat): byte {
    if i == 0 then n % 256 else ByteAt(n / 256, i - 1)
  }

  function Little(n: nat, width: nat): (r: seq<byte>)
    ensures |r| == width
  {
    seq(width, i requires 0 <= i < width => ByteAt(n, i))
  }

  function Padding(n: nat): (r: seq<byte>)
    ensures |r| == (55 - n) % 64 + 1
  {
    [0x80] + Zeros((55 - n) % 64)
  }

  // A single 1 bit, zeros up to 56 bytes modulo 64, and the length in bits modulo 2^64
  function Padded(x: seq<byte>): seq<byte> {
    x + Padding(|x|) + Little(8 * |x| % (WORD * WORD), 8)
  }

  function Registers(r: Regs): seq<byte> {
    Little(r.a, 4) + Little(r.b, 4) + Little(r.c, 4) + Little(r.d, 4)
  }

  function Digest(f: Compression, x: seq<byte>): seq<byte> {
    Registers(Fold(f, IV, Padded(x)))
  }

  lemma PaddedBlocks(x: seq<byte>)
    ensures |Padded(x)| % 64 == 0
  {
    PadLength(|x|);
  }

  lemma PadLength(n: nat)
    ensures (n + (55 - n) % 64 + 9) % 64 == 0
  {
  }

  // ---------- blocks ----------

  lemma {:induction false} FoldAppend(f: Compression, r: Regs, x: seq<byte>, y: seq<byte>)
    requires |x| % 64 == 0
    ensures Fold(f, r, x + y) == Fold(f, Fold(f, r, x), y)
    decreases |x|
  {
    if |x| == 0 {
      assert x + y == y;
    } else {
      assert (x + y)[..64] == x[..64] && (x + y)[64..] == x[64..] + y;
      FoldAppend(f, f(r, x[..64]), x[64..], y);
    }
  }

  lemma FoldBlock(f: Compression, r: Regs, x: seq<byte>, k: nat)
    requires k % 64 == 0 && k + 64 <= |x|
    ensures Fold(f, r, x[..k + 64]) == f(Fold(f, r, x[..k]), x[k..k + 64])
  {
    var y := x[k..k + 64];
    assert x[..k + 64] == x[..k] + y;
    FoldAppend(f, r, x[..k], y);
    assert y[..64] == y;
  }

  // The registers cover the full blocks of x, and pre is the rest.
  ghost predicate Covers(f: Compression, r: Regs, pre: seq<byte>, x: seq<byte>) {
    |pre| == |x| % 64 && r == Fold(f, IV, x[..|x| - |pre|]) && pre == x[|x| - |pre|..]
  }

  lemma CoversShort(f: Compression, r: Regs, pre: seq<byte>, x: seq<byte>, data: seq<byte>)
    requires Covers(f, r, pre, x) && |pre| + |data| < 64
    ensures Covers(f, r, pre + data, x + data)
  {
    var y := x + data;
    assert |y| % 64 == |pre| + |data|;
    assert y[..|x| - |pre|] == x[..|x| - |pre|];
    assert y[|x| - |pre|..] == x[|x| - |pre|..] + data;
  }

  // Filling up the first block
  lemma CoversFill(f: Compression, r: Regs, pre: seq<byte>, x: seq<byte>, data: seq<byte>, copy: nat)
    requires Covers(f, r, pre, x) && copy <= |data| && |pre| + copy == 64
    ensures var k := |x| + copy; k % 64 == 0 && f(r, pre + data[..copy]) == Fold(f, IV, (x + data)[..k])
  {
    var y, k := x + data, |x| - |pre|;
    assert y[..k] == x[..k];
    assert y[k..k + 64] == pre + data[..copy];
    FoldBlock(f, IV, y, k);
  }

  // The two count words hold 8n modulo 2^64.
  ghost predicate Counts(c0: nat, c1: nat, n: nat) {
    c0 == 8 * n % WORD && c1 == 8 * n / WORD % WORD
  }

  lemma CountStep(c0: nat, c1: nat, n: nat, k: nat)
    requires Counts(c0, c1, n) && k < 0x1000_0000
    ensures var s := (c0 + 8 * k) % WORD; Counts(s, if s < 8 * k then (c1 + 1) % WORD else c1, n + k)
  {
    var q, s := 8 * n / WORD, c0 + 8 * k;
    Factor(8 * n, WORD);
    if s < WORD {
      Unique(8 * (n + k), q, s, WORD);
    } else {
      Unique(8 * (n + k), q + 1, s - WORD, WORD);
      Unique(s, 1, s - WORD, WORD);
      CarryWord(q, WORD);
    }
  }

  lemma CarryWord(q: nat, w: nat)
    requires w > 1
    ensures (q + 1) % w == (q % w + 1) % w
  {
    Factor(q, w);
    SameRemainder(q + 1, q % w + 1, q / w, w);
  }

  lemma Offset(c0: nat, c1: nat, n: nat)
    requires Counts(c0, c1, n)
    ensures c0 / 8 % 64 == n % 64
  {
    Factor(8 * n, WORD);
    var q := 8 * n / WORD;
    assert n == q * 0x800_0000 * 4 + c0 / 8 && c0 % 8 == 0;
    SameRemainder(n, c0 / 8, q * 0x800_000, 64);
  }

  lemma SameSlice(x: seq<byte>, n: nat, data: seq<byte>, p: nat)
    requires n <= |x| && x[n..] == data && p + 64 <= |data|
    ensures x[n + p..n + p + 64] == data[p..p + 64]
  {
    assert x[n + p..n + p + 64] == x[n..][p..p + 64];
  }

  // What is left after full blocks
  lemma Leftover(full: nat, rest: nat)
    requires full % 64 == 0 && rest < 64
    ensures (full + rest) % 64 == rest
  {
    Factor(full, 64);
    Unique(full + rest, full / 64, rest, 64);
  }

  class State {
    const f: Compression
    var count0: nat
    var count1: nat
    var abcd: Regs
    const buf: array<byte>
    // What was appended so far
    ghost var msg: seq<byte>

    ghost predicate Valid()
      reads this, buf
    {
      && buf.Length == 64 && Counts(count0, count1, |msg|)
      && Covers(f, abcd, buf[..|msg| % 64], msg)
    }

    /** md5_init */
    constructor (f: Compression)
      ensures Valid() && msg == [] && this.f == f && fresh(buf)
    {
      this.f := f;
      count0, count1, abcd, buf := 0, 0, IV, new byte[64](_ => 0);
      msg := [];
    }

    // memcpy(buf + at, data, |data|)
    method Copy(at: nat, data: seq<byte>)
      requires at + |data| <= 64 == buf.Length
      modifies buf
      ensures buf[..at + |data|] == old(buf[..at]) + data
    {
      var i := 0;
      while i < |data|
        invariant 0 <= i <= |data|
        invariant buf[..at + i] == old(buf[..at]) + data[..i]
      {
        buf[at + i] := data[i];
        i := i + 1;
      }
    }

    method Count(n: nat)
      requires Counts(count0, count1, |msg|) && n < 0x1000_0000
      modifies this`count0, this`count1
      ensures Counts(count0, count1, |msg| + n)
    {
      CountStep(count0, count1, |msg|, n);
      var nbits := 8 * n;
      count0 := (count0 + nbits) % WORD;
      if count0 < nbits {
        count1 := (count1 + 1) % WORD;
      }
    }

    /** md5_append, for fewer than 2^28 bytes: beyond that `nbytes << 3` overflows an int. */
    method Append(data: seq<byte>)
      requires Valid() && |data| < 0x1000_0000
      modifies this`count0, this`count1, this`abcd, this`msg, buf
      ensures Valid() && msg == old(msg) + data
    {
      ghost var was := msg;
      if |data| == 0 {
        assert msg + data == msg;
        return;
      }
      Offset(count0, count1, |msg|);
      var offset := count0 / 8 % 64;
      Count(|data|);
      msg := was + data;
      var p := 0;
      if offset > 0 {
        var copy := if offset + |data| > 64 then 64 - offset else |data|;
        ghost var pre := buf[..offset];
        Copy(offset, data[..copy]);
        if offset + copy < 64 {
          assert data[..copy] == data;
          CoversShort(f, abcd, pre, was, data);
          return;
        }
        p := copy;
        CoversFill(f, abcd, pre, was, data, copy);
        assert buf[..] == buf[..64];
        abcd := f(abcd, buf[..]);
      }
      assert offset == 0 ==> msg[..|was|] == was[..|was|];
      Blocks(data, p, |was|);
    }

    // Full blocks straight from the data, and what is left into the buffer
    method Blocks(data: seq<byte>, start: nat, ghost n: nat)
      requires buf.Length == 64 && start <= |data| && n + |data| == |msg| && msg[n..] == data
      requires (n + start) % 64 == 0 && abcd == Fold(f, IV, msg[..n + start])
      modifies this`abcd, buf
      ensures Covers(f, abcd, buf[..|msg| % 64], msg)
    {
      var p := FullBlocks(data, start, n);
      Leftover(n + p, |data| - p);
      Copy(0, data[p..]);
      assert msg[n + p..] == data[p..];
    }

    method FullBlocks(data: seq<byte>, start: nat, ghost n: nat) returns (p: nat)
      requires start <= |data| && n + |data| == |msg| && msg[n..] == data
      requires (n + start) % 64 == 0 && abcd == Fold(f, IV, msg[..n + start])
      modifies this`abcd
      ensures start <= p <= |data| < p + 64 && (n + p) % 64 == 0 && abcd == Fold(f, IV, msg[..n + p])
    {
      p := start;
      while |data| - p >= 64
        invariant start <= p <= |data| && (n + p) % 64 == 0 && abcd == Fold(f, IV, msg[..n + p])
      {
        FoldBlock(f, IV, msg, n + p);
        SameSlice(msg, n, data, p);
        abcd := f(abcd, data[p..p + 64]);
        p := p + 64;
      }
    }

    /** md5_finish: however the message was cut into appends, the digest is that of the whole message. */
    method Finish() returns (digest: seq<byte>)
      requires Valid()
      modifies this`count0, this`count1, this`abcd, this`msg, buf
      ensures digest == Digest(f, old(msg))
    {
      ghost var x := msg;
      Offset(count0, count1, |x|);
      var data := Little(count0, 4) + Little(count1, 4);
      LengthBytes(count0, count1, |x|);
      PadCount(count0, |x|);
      Append(Padding(count0 / 8));
      Append(data);
      PaddedBlocks(x);
      assert msg == Padded(x);
      assert msg[..|msg|] == msg;
      digest := Registers(abcd);
    }
  }

  lemma PadCount(c0: nat, n: nat)
    requires c0 / 8 % 64 == n % 64
    ensures (55 - c0 / 8) % 64 == (55 - n) % 64
    ensures Padding(c0 / 8) == Padding(n)
  {
  }

  lemma ByteHigh(n: nat, i: nat)
    ensures ByteAt(n, i + 4) == ByteAt(n / WORD, i)
  {
    var a, b, c := n / 256, n / 256 / 256, n / 256 / 256 / 256;
    assert ByteAt(n, i + 4) == ByteAt(a, i + 3) == ByteAt(b, i + 2) == ByteAt(c, i + 1) == ByteAt(c / 256, i);
    assert c / 256 == n / WORD;
  }

  lemma ByteLow(n: nat, i: nat)
    requires i < 4
    ensures ByteAt(n, i) == ByteAt(n % WORD, i)
  {
    var a, b, c := n / 256, n / 256 / 256, n / 256 / 256 / 256;
    Cut(n, 256, 0x100_0000, WORD);
    Cut(a, 256, 0x1_0000, 0x100_0000);
    Cut(b, 256, 256, 0x1_0000);
    if i >= 1 {
      assert ByteAt(n % WORD, i) == ByteAt(a % 0x100_0000, i - 1) && ByteAt(n, i) == ByteAt(a, i - 1);
    }
    if i >= 2 {
      assert ByteAt(a % 0x100_0000, i - 1) == ByteAt(b % 0x1_0000, i - 2) && ByteAt(a, i - 1) == ByteAt(b, i - 2);
    }
    if i == 3 {
      assert ByteAt(b % 0x1_0000, 1) == ByteAt(c % 256, 0) && ByteAt(b, 1) == ByteAt(c, 0);
    }
  }

  lemma LengthBytes(c0: nat, c1: nat, n: nat)
    requires Counts(c0, c1, n)
    ensures Little(c0, 4) + Little(c1, 4) == Little(8 * n % (WORD * WORD), 8)
  {
    var t := 8 * n % (WORD * WORD);
    Cut(8 * n, WORD, WORD, WORD * WORD);
    forall i | 0 <= i < 4 ensures ByteAt(t, i) == ByteAt(c0, i) && ByteAt(t, i + 4) == ByteAt(c1, i) {
      ByteHigh(t, i);
      ByteLow(t, i);
    }
  }

  /** Any way to cut a message into appends gives the digest of the message. */
  method DigestOf(f: Compression, parts: seq<seq<byte>>) returns (digest: seq<byte>)
    requires forall i :: 0 <= i < |parts| ==> |parts[i]| < 0x1000_0000
    ensures digest == Digest(f, Flatten(parts))
  {
    var s := new State(f);
    var i := 0;
    assert parts[..0] == [];
    while i < |parts|
      invariant 0 <= i <= |parts| && s.Valid() && s.msg == Flatten(parts[..i]) && fresh(s) && fresh(s.buf) && s.f == f
    {
      s.Append(parts[i]);
      assert parts[..i + 1][..i] == parts[..i];
      i := i + 1;
    }
    assert parts[..i] == parts;
    digest := s.Finish();
  }
}
