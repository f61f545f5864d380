/** CRC-32C (sources/memcached/crc32c.c): the slicing-by-8 and the three-way interleaved computations
    are proved equal to the bit-at-a-time CRC of section 12.1 of RFC 3720.

    A machine word is its sequence of bits, least significant first, so that a little-endian load is
    concatenation and a right shift drops the first bits. Everything rests on one family of linear
    operators over GF(2): Zeros(n) feeds n zero bits to a CRC register. Tables hold values of these
    operators and matrices represent them.
 */
module Crc32c {
  import opened Bits

  type Word = w: seq<bool> | |w| == 32 witness seq(32, _ => false)
  type Byte = b: seq<bool> | |b| == 8 witness seq(8, _ => false)

  const LONG: nat := 8192
  const SHORT: nat := 256

  // ---------- words ----------

  const ZERO: Word := Repeat(32, false)

  function Not(a: Word): Word {
    seq(32, i requires 0 <= i < 32 => !a[i])
  }

  // x >> n
  function Shr(x: Word, n: nat): Word
    requires n <= 32
  {
    x[n..] + Repeat(n, false)
  }

  function Extend(b: Byte): Word {
    b + Repeat(24, false)
  }

  function Low(x: Word): Byte {
    x[..8]
  }

  // CRC-32C polynomial in reversed bit order
  const POLY: Word := FromNat(0x82f6_3b78, 32)

  // A byte used as a table index
  function Index(b: Byte): (n: nat)
    ensures n < 256
  {
    ByteIndex(b);
    ToNat(b)
  }

  lemma ByteIndex(b: Byte)
    ensures ToNat(b) < 256 && FromNat(ToNat(b), 32) == Extend(b)
  {
    ToNatBound(b);
    assert Pow2(4) == 16 && Pow2(8) == 256;
    FromToNat(b, 32);
  }

  lemma XorZero(a: Word)
    ensures Xor(a, ZERO) == a && Xor(ZERO, a) == a && Xor(a, a) == ZERO
  {
  }

  // ---------- the reference: one bit at a time ----------

  function Bit(crc: Word): Word {
    if crc[0] then Xor(Shr(crc, 1), POLY) else Shr(crc, 1)
  }

  // The register after n zero bits.
  function Zeros(n: nat, crc: Word): Word {
    if n == 0 then crc else Bit(Zeros(n - 1, crc))
  }

  // The register after the bytes of data, low bit of each byte first.
  function Feed(crc: Word, data: seq<Byte>): Word {
    if data == [] then crc else Zeros(8, Xor(Feed(crc, data[..|data| - 1]), Extend(data[|data| - 1])))
  }

  /** The CRC-32C of data, continuing from a previous crc. */
  function Crc(crc: Word, data: seq<Byte>): Word {
    Not(Feed(Not(crc), data))
  }

  // ---------- linearity ----------

  lemma BitLinear(a: Word, b: Word)
    ensures Bit(Xor(a, b)) == Xor(Bit(a), Bit(b))
  {
    assert Shr(Xor(a, b), 1) == Xor(Shr(a, 1), Shr(b, 1));
  }

  lemma {:induction false} ZerosLinear(n: nat, a: Word, b: Word)
    ensures Zeros(n, Xor(a, b)) == Xor(Zeros(n, a), Zeros(n, b))
  {
    if n > 0 {
      ZerosLinear(n - 1, a, b);
      BitLinear(Zeros(n - 1, a), Zeros(n - 1, b));
    }
  }

  lemma ZeroLast(n: nat, crc: Word)
    requires n > 0
    ensures Zeros(n, crc) == Bit(Zeros(n - 1, crc))
  {
  }

  lemma {:induction false} ZerosAdd(m: nat, n: nat, a: Word)
    ensures Zeros(m, Zeros(n, a)) == Zeros(m + n, a)
  {
    if m == 0 {
      assert Zeros(0, Zeros(n, a)) == Zeros(n, a);
    } else {
      ZerosAdd(m - 1, n, a);
      ZeroLast(m, Zeros(n, a));
      ZeroLast(m + n, a);
    }
  }

  lemma {:induction false} FeedConcat(crc: Word, a: seq<Byte>, b: seq<Byte>)
    ensures Feed(crc, a + b) == Feed(Feed(crc, a), b)
  {
    if b == [] {
      assert a + b == a;
    } else {
      assert (a + b)[..|a + b| - 1] == a + b[..|b| - 1];
      FeedConcat(crc, a, b[..|b| - 1]);
    }
  }

  /** The effect of the starting register is separate from the effect of the data. */
  lemma {:induction false} FeedLinear(c: Word, d: Word, data: seq<Byte>)
    ensures Feed(Xor(c, d), data) == Xor(Zeros(8 * |data|, c), Feed(d, data))
  {
    if data != [] {
      var rest, last := data[..|data| - 1], Extend(data[|data| - 1]);
      FeedLinear(c, d, rest);
      var z, f := Zeros(8 * |rest|, c), Feed(d, rest);
      XorAssoc(z, f, last);
      ZerosLinear(8, z, Xor(f, last));
      ZerosAdd(8, 8 * |rest|, c);
    }
  }

  /** Interleaving: two blocks can be fed independently and combined afterwards. */
  lemma FeedSplit(crc: Word, a: seq<Byte>, b: seq<Byte>)
    ensures Feed(crc, a + b) == Xor(Zeros(8 * |b|, Feed(crc, a)), Feed(ZERO, b))
  {
    FeedConcat(crc, a, b);
    FeedLinear(Feed(crc, a), ZERO, b);
    XorZero(Feed(crc, a));
  }

  // ---------- one byte through a table ----------

  // Bits above position n only move.
  lemma {:induction false} HighPart(x: Word, n: nat)
    requires n <= 32 && forall i :: 0 <= i < n ==> !x[i]
    ensures Zeros(n, x) == Shr(x, n)
  {
    if n == 0 {
      assert Shr(x, 0) == x;
    } else {
      HighPart(x, n - 1);
      assert Shr(x, n - 1)[0] == x[n - 1];
      assert Shr(Shr(x, n - 1), 1) == Shr(x, n);
    }
  }

  lemma ByteStep(x: Word, w: nat)
    requires w == 8
    ensures Zeros(w, x) == Xor(Zeros(w, Extend(Low(x))), Shr(x, w))
  {
    var hi: Word := Repeat(8, false) + x[8..];
    assert x == Xor(Extend(Low(x)), hi);
    ZerosLinear(w, Extend(Low(x)), hi);
    HighPart(hi, w);
    assert Shr(hi, w) == Shr(x, w);
  }

  // ---------- operators as matrices ----------

  function Unit(i: nat): Word
    requires i < 32
  {
    Repeat(i, false) + [true] + Repeat(31 - i, false)
  }

  // The matrix of Zeros(n): column i is the image of bit i.
  ghost predicate IsOp(mat: seq<Word>, n: nat) {
    |mat| == 32 && forall i :: 0 <= i < 32 ==> mat[i] == Zeros(n, Unit(i))
  }

  // The sum of the columns selected by the first n bits of v.
  function Combine(mat: seq<Word>, v: Word, n: nat): Word
    requires |mat| == 32 && n <= 32
  {
    if n == 0 then ZERO else if v[n - 1] then Xor(Combine(mat, v, n - 1), mat[n - 1]) else Combine(mat, v, n - 1)
  }

  function Prefix(v: Word, n: nat): Word
    requires n <= 32
  {
    v[..n] + Repeat(32 - n, false)
  }

  lemma {:induction false} ZerosOfZero(n: nat)
    ensures Zeros(n, ZERO) == ZERO
  {
    if n > 0 {
      ZerosOfZero(n - 1);
      assert Shr(ZERO, 1) == ZERO;
    }
  }

  lemma {:induction false} CombineIs(mat: seq<Word>, bits: nat, v: Word, n: nat)
    requires IsOp(mat, bits) && n <= 32
    ensures Combine(mat, v, n) == Zeros(bits, Prefix(v, n))
  {
    if n == 0 {
      assert Prefix(v, 0) == ZERO;
      ZerosOfZero(bits);
    } else {
      CombineIs(mat, bits, v, n - 1);
      if v[n - 1] {
        assert Prefix(v, n) == Xor(Prefix(v, n - 1), Unit(n - 1));
        ZerosLinear(bits, Prefix(v, n - 1), Unit(n - 1));
      } else {
        assert Prefix(v, n) == Prefix(v, n - 1);
      }
    }
  }

  lemma {:induction false} CombineTail(mat: seq<Word>, v: Word, m: nat, n: nat)
    requires |mat| == 32 && m <= n <= 32 && forall i :: m <= i < n ==> !v[i]
    ensures Combine(mat, v, n) == Combine(mat, v, m)
  {
    if m < n { CombineTail(mat, v, m, n - 1); }
  }

  method MatrixTimes(mat: array<Word>, v: Word, ghost bits: nat) returns (sum: Word)
    requires mat.Length == 32 && IsOp(mat[..], bits)
    ensures sum == Zeros(bits, v)
  {
    sum := ZERO;
    var vec, i := v, 0;
    assert Shr(v, 0) == v && Shr(v, 32) == ZERO;
    while vec != ZERO
      invariant i <= 32 && vec == Shr(v, i) && sum == Combine(mat[..], v, i)
      decreases 32 - i
    {
      assert vec[0] == v[i];
      if vec[0] { sum := Xor(sum, mat[i]); }
      assert Shr(vec, 1) == Shr(v, i + 1);
      vec := Shr(vec, 1);
      i := i + 1;
    }
    forall j | i <= j < 32 ensures !v[j] { assert vec[j - i] == v[j]; }
    CombineTail(mat[..], v, i, 32);
    CombineIs(mat[..], bits, v, 32);
    assert Prefix(v, 32) == v;
  }

  method MatrixSquare(square: array<Word>, mat: array<Word>, ghost bits: nat)
    requires square.Length == 32 && mat.Length == 32 && square != mat && IsOp(mat[..], bits)
    modifies square
    ensures IsOp(square[..], 2 * bits)
  {
    for n := 0 to 32
      invariant mat[..] == old(mat[..])
      invariant forall i :: 0 <= i < n ==> square[i] == Zeros(2 * bits, Unit(i))
    {
      square[n] := MatrixTimes(mat, mat[n], bits);
      ZerosAdd(bits, bits, Unit(n));
    }
  }

  // Binary logarithm, rounded down; 0 for len == 0.
  function Log2(len: nat): nat {
    if len <= 1 then 0 else 1 + Log2(len / 2)
  }

  // The largest power of two not above len, and 1 for len == 0.
  function TopPower(len: nat): nat {
    Pow2(Log2(len))
  }

  lemma {:induction false} TopPowerExact(k: nat)
    ensures Log2(Pow2(k)) == k && TopPower(Pow2(k)) == Pow2(k)
  {
    if k > 0 { TopPowerExact(k - 1); }
  }

  lemma UnitNext(n: nat)
    requires 0 < n < 32
    ensures [false] + Unit(n - 1)[..31] == Unit(n)
  {
  }

  // The operator for one zero bit.
  method OneBitOp() returns (odd: array<Word>)
    ensures fresh(odd) && odd.Length == 32 && IsOp(odd[..], 1)
  {
    odd := new Word[32](_ => ZERO);
    odd[0] := POLY;
    var row := Unit(0);
    for n := 1 to 32
      invariant row == Unit(n - 1)
      invariant odd[0] == POLY && forall i :: 1 <= i < n ==> odd[i] == Unit(i - 1)
    {
      odd[n] := row;
      assert odd[n] == Unit(n - 1) && forall i :: 1 <= i < n ==> odd[i] == Unit(i - 1);
      UnitNext(n);
      row := [false] + row[..31];
    }
    OneBit(odd[..]);
  }

  /** crc32c_zeros_op: the operator for TopPower(len) zero bytes. */
  method ZerosOp(even: array<Word>, len0: nat)
    requires even.Length == 32
    modifies even
    ensures IsOp(even[..], 8 * TopPower(len0))
  {
    var odd := OneBitOp();
    MatrixSquare(even, odd, 1);
    MatrixSquare(odd, even, 2);
    var inOdd := SquareUp(even, odd, len0);
    if inOdd {
      ghost var op := odd[..];
      for n := 0 to 32
        invariant odd[..] == op
        invariant forall i :: 0 <= i < n ==> even[i] == odd[i]
      {
        even[n] := odd[n];
      }
      assert even[..] == odd[..];
    }
  }

  // The loop of crc32c_zeros_op; tells whether the answer ended up in odd.
  method SquareUp(even: array<Word>, odd: array<Word>, len0: nat) returns (inOdd: bool)
    requires even.Length == 32 && odd.Length == 32 && even != odd && IsOp(odd[..], 4)
    modifies even, odd
    ensures IsOp(if inOdd then odd[..] else even[..], 8 * TopPower(len0))
  {
    assert Pow2(3 + Log2(len0)) == 2 * Pow2(2 + Log2(len0)) == 8 * TopPower(len0);
    var len := len0;
    ghost var e := 2;
    while true
      invariant IsOp(odd[..], Pow2(e)) && e >= 2
      invariant e + Log2(len) == 2 + Log2(len0)
      decreases len
    {
      MatrixSquare(even, odd, Pow2(e));
      len := len / 2;
      if len == 0 {
        assert e + 1 == 3 + Log2(len0);
        return false;
      }
      MatrixSquare(odd, even, Pow2(e + 1));
      len := len / 2;
      if len == 0 {
        assert e + 2 == 3 + Log2(len0);
        return true;
      }
      e := e + 2;
    }
  }

  lemma BitOfUnit(i: nat)
    requires i < 32
    ensures Bit(Unit(i)) == if i == 0 then POLY else Unit(i - 1)
  {
    if i == 0 {
      assert Shr(Unit(0), 1) == ZERO;
      XorZero(POLY);
    } else {
      assert Shr(Unit(i), 1) == Unit(i - 1);
    }
  }

  lemma OneBit(odd: seq<Word>)
    requires |odd| == 32 && odd[0] == POLY && forall i :: 1 <= i < 32 ==> odd[i] == Unit(i - 1)
    ensures IsOp(odd, 1)
  {
    forall i | 0 <= i < 32 ensures odd[i] == Zeros(1, Unit(i)) {
      BitOfUnit(i);
      ZeroLast(1, Unit(i));
      assert Zeros(0, Unit(i)) == Unit(i);
    }
  }

  // ---------- shift tables ----------

  // n << (8 * j), for a byte value n
  function ByteAt(b: Byte, j: nat): Word
    requires j < 4
  {
    Repeat(8 * j, false) + b + Repeat(24 - 8 * j, false)
  }

  // zeros[j][n] is the operator for `bits` zero bits applied to byte n in position j.
  ghost predicate ShiftTable(zeros: array2<Word>, bits: nat)
    reads zeros
  {
    && zeros.Length0 == 4 && zeros.Length1 == 256
    && forall b: Byte, j :: 0 <= j < 4 ==> zeros[j, Index(b)] == Zeros(bits, ByteAt(b, j))
  }

  /** crc32c_zeros */
  method ZerosTables(zeros: array2<Word>, len: nat)
    requires zeros.Length0 == 4 && zeros.Length1 == 256
    modifies zeros
    ensures ShiftTable(zeros, 8 * TopPower(len))
  {
    var op := new Word[32](_ => ZERO);
    ZerosOp(op, len);
    ghost var bits := 8 * TopPower(len);
    for n := 0 to 256
      invariant IsOp(op[..], bits)
      invariant forall m, j :: 0 <= m < n && 0 <= j < 4 ==> zeros[j, m] == Zeros(bits, ByteAt(FromNat(m, 8), j))
    {
      for j := 0 to 4
        invariant IsOp(op[..], bits)
        invariant forall m, i :: 0 <= m < n && 0 <= i < 4 ==> zeros[i, m] == Zeros(bits, ByteAt(FromNat(m, 8), i))
        invariant forall i :: 0 <= i < j ==> zeros[i, n] == Zeros(bits, ByteAt(FromNat(n, 8), i))
      {
        var z := MatrixTimes(op, ByteAt(FromNat(n, 8), j), bits);
        zeros[j, n] := z;
      }
    }
    forall b: Byte, j | 0 <= j < 4 ensures zeros[j, Index(b)] == Zeros(bits, ByteAt(b, j)) {
      FromToNat(b, 8);
      assert b + Repeat(0, false) == b;
    }
  }

  /** crc32c_shift: the table applies the operator to any register. */
  method Shift(zeros: array2<Word>, crc: Word, ghost bits: nat) returns (r: Word)
    requires ShiftTable(zeros, bits)
    ensures r == Zeros(bits, crc)
  {
    var b0: Byte, b1: Byte, b2: Byte, b3: Byte := crc[0..8], crc[8..16], crc[16..24], crc[24..32];
    r := Xor(Xor(Xor(zeros[0, Index(b0)], zeros[1, Index(b1)]), zeros[2, Index(b2)]), zeros[3, Index(b3)]);
    ghost var c0, c1, c2, c3 := ByteAt(b0, 0), ByteAt(b1, 1), ByteAt(b2, 2), ByteAt(b3, 3);
    FourBytes(crc, b0, b1, b2, b3);
    ZerosLinear(bits, Xor(Xor(c0, c1), c2), c3);
    ZerosLinear(bits, Xor(c0, c1), c2);
    ZerosLinear(bits, c0, c1);
  }

  // A register is the sum of its bytes, each in its place.
  lemma FourBytes(crc: Word, b0: Byte, b1: Byte, b2: Byte, b3: Byte)
    requires crc == b0 + b1 + b2 + b3
    ensures crc == Xor(Xor(Xor(ByteAt(b0, 0), ByteAt(b1, 1)), ByteAt(b2, 2)), ByteAt(b3, 3))
  {
    var x := Xor(Xor(Xor(ByteAt(b0, 0), ByteAt(b1, 1)), ByteAt(b2, 2)), ByteAt(b3, 3));
    forall i | 0 <= i < 32 ensures crc[i] == x[i] {
      assert x[i] == (((ByteAt(b0, 0)[i] != ByteAt(b1, 1)[i]) != ByteAt(b2, 2)[i]) != ByteAt(b3, 3)[i]);
    }
  }

  // ---------- crc32c_hw ----------

  /** The three-way interleaved computation. crc32b and crc32q feed one and eight bytes to the register. */
  method Hardware(longTable: array2<Word>, shortTable: array2<Word>, crc: Word, buf: seq<Byte>, address: nat)
      returns (r: Word)
    requires ShiftTable(longTable, 8 * LONG) && ShiftTable(shortTable, 8 * SHORT)
    ensures r == Crc(crc, buf)
  {
    var crc0 := Not(crc);
    ghost var start := crc0;
    var next := 0;
    while next < |buf| && (address + next) % 8 != 0
      invariant next <= |buf| && crc0 == Feed(start, buf[..next])
    {
      FeedByte(start, buf, next);
      crc0 := CrcB(crc0, buf[next]);
      next := next + 1;
    }
    crc0, next := Blocks(longTable, LONG, start, crc0, buf, next);
    crc0, next := Blocks(shortTable, SHORT, start, crc0, buf, next);
    crc0, next := Words(start, crc0, buf, next);
    while next < |buf|
      invariant next <= |buf| && crc0 == Feed(start, buf[..next])
    {
      FeedByte(start, buf, next);
      crc0 := CrcB(crc0, buf[next]);
      next := next + 1;
    }
    assert buf[..next] == buf;
    r := Not(crc0);
  }

  lemma FeedByte(start: Word, buf: seq<Byte>, next: nat)
    requires next < |buf|
    ensures Feed(start, buf[..next + 1]) == CrcB(Feed(start, buf[..next]), buf[next])
  {
    assert buf[..next + 1][..next] == buf[..next];
  }

  lemma FeedWord(start: Word, buf: seq<Byte>, next: nat)
    requires next + 8 <= |buf|
    ensures Feed(start, buf[..next + 8]) == CrcQ(Feed(start, buf[..next]), buf[next..next + 8])
  {
    assert buf[..next + 8] == buf[..next] + buf[next..next + 8];
    FeedConcat(start, buf[..next], buf[next..next + 8]);
  }

  // As long as three blocks are left, they are taken together.
  method Blocks(table: array2<Word>, block: nat, ghost start: Word, crc: Word, buf: seq<Byte>, next0: nat)
    returns (crc0: Word, next: nat)
    requires ShiftTable(table, 8 * block) && block % 8 == 0 && block > 0 && next0 <= |buf|
    requires crc == Feed(start, buf[..next0])
    ensures next0 <= next <= |buf| && crc0 == Feed(start, buf[..next])
  {
    crc0, next := crc, next0;
    while |buf| - next >= 3 * block
      invariant next0 <= next <= |buf| && crc0 == Feed(start, buf[..next])
    {
      crc0 := ThreeWay(table, block, start, crc0, buf, next);
      next := next + 3 * block;
    }
  }

  method Words(ghost start: Word, crc: Word, buf: seq<Byte>, next0: nat) returns (crc0: Word, next: nat)
    requires next0 <= |buf| && crc == Feed(start, buf[..next0])
    ensures next <= |buf| && crc0 == Feed(start, buf[..next])
  {
    crc0, next := crc, next0;
    var end := next + (|buf| - next) / 8 * 8;
    while next < end
      invariant next <= end <= |buf| && (end - next) % 8 == 0 && crc0 == Feed(start, buf[..next])
    {
      FeedWord(start, buf, next);
      crc0 := CrcQ(crc0, buf[next..next + 8]);
      next := next + 8;
    }
  }

  function CrcB(crc: Word, b: Byte): Word {
    Zeros(8, Xor(crc, Extend(b)))
  }

  function CrcQ(crc: Word, bytes: seq<Byte>): Word
    requires |bytes| == 8
  {
    Feed(crc, bytes)
  }

  // One round over three consecutive blocks.
  method ThreeWay(table: array2<Word>, block: nat, ghost start: Word, crc: Word, buf: seq<Byte>, next: nat)
      returns (crc0: Word)
    requires ShiftTable(table, 8 * block) && block % 8 == 0
    requires next + 3 * block <= |buf| && crc == Feed(start, buf[..next])
    ensures crc0 == Feed(start, buf[..next + 3 * block])
  {
    var crc1, crc2;
    crc0, crc1, crc2 := Lanes(block, crc, buf, next);
    var s := Shift(table, crc0, 8 * block);
    crc0 := Xor(s, crc1);
    s := Shift(table, crc0, 8 * block);
    crc0 := Xor(s, crc2);
    ThreeBlocks(start, buf, next, block);
  }

  lemma ThreeBlocks(start: Word, buf: seq<Byte>, next: nat, block: nat)
    requires next + 3 * block <= |buf|
    ensures var a, b, c := buf[next..next + block], buf[next + block..next + 2 * block],
        buf[next + 2 * block..next + 3 * block];
      Feed(start, buf[..next + 3 * block]) ==
      Xor(Zeros(8 * block, Xor(Zeros(8 * block, Feed(Feed(start, buf[..next]), a)), Feed(ZERO, b))), Feed(ZERO, c))
  {
    var a, b, c := buf[next..next + block], buf[next + block..next + 2 * block],
        buf[next + 2 * block..next + 3 * block];
    var crc := Feed(start, buf[..next]);
    assert buf[..next + 3 * block] == buf[..next] + (a + b + c) by { assert a + b + c == buf[next..next + 3 * block]; }
    FeedConcat(start, buf[..next], a + b + c);
    CombineLanes(crc, a, b, c, block);
  }

  lemma CombineLanes(crc: Word, a: seq<Byte>, b: seq<Byte>, c: seq<Byte>, block: nat)
    requires |a| == |b| == |c| == block
    ensures Feed(crc, a + b + c) == Xor(Zeros(8 * block, Xor(Zeros(8 * block, Feed(crc, a)), Feed(ZERO, b))),
        Feed(ZERO, c))
  {
    FeedSplit(crc, a, b);
    FeedSplit(crc, a + b, c);
  }

  method Lanes(block: nat, crc: Word, buf: seq<Byte>, next0: nat) returns (crc0: Word, crc1: Word, crc2: Word)
    requires block % 8 == 0 && next0 + 3 * block <= |buf|
    ensures crc0 == Feed(crc, buf[next0..next0 + block])
    ensures crc1 == Feed(ZERO, buf[next0 + block..next0 + 2 * block])
    ensures crc2 == Feed(ZERO, buf[next0 + 2 * block..next0 + 3 * block])
  {
    crc0, crc1, crc2 := crc, ZERO, ZERO;
    var next1, next2 := next0 + block, next0 + 2 * block;
    ghost var a, b, c := buf[next0..next0 + block], buf[next1..next1 + block], buf[next2..next2 + block];
    ghost var q, j := block / 8, 0;
    var k := 0;
    while k < block
      invariant k == 8 * j && j <= q && block == 8 * q
      invariant crc0 == Feed(crc, a[..k]) && crc1 == Feed(ZERO, b[..k]) && crc2 == Feed(ZERO, c[..k])
    {
      crc0 := Lane(crc, crc0, buf, next0, block, k);
      crc1 := Lane(ZERO, crc1, buf, next1, block, k);
      crc2 := Lane(ZERO, crc2, buf, next2, block, k);
      k, j := k + 8, j + 1;
    }
    AllOf(a);
    AllOf(b);
    AllOf(c);
  }

  lemma AllOf(s: seq<Byte>)
    ensures s[..|s|] == s
  {
  }

  lemma SliceOfSlice(buf: seq<Byte>, from: nat, block: nat, k: nat)
    requires from + block <= |buf| && k + 8 <= block
    ensures buf[from..from + block][k..k + 8] == buf[from + k..from + k + 8]
  {
    assert forall i {:trigger buf[from + k..from + k + 8][i]} :: 0 <= i < 8 ==>
      buf[from..from + block][k..k + 8][i] == buf[from + k..from + k + 8][i];
  }

  // One crc32q of one lane.
  method Lane(ghost first: Word, crc: Word, buf: seq<Byte>, from: nat, ghost block: nat, k: nat) returns (r: Word)
    requires from + block <= |buf| && k + 8 <= block && crc == Feed(first, buf[from..from + block][..k])
    ensures r == Feed(first, buf[from..from + block][..k + 8])
  {
    ghost var lane := buf[from..from + block];
    r := CrcQ(crc, buf[from + k..from + k + 8]);
    SliceOfSlice(buf, from, block, k);
    FeedWord(first, lane, k);
  }

  // ---------- crc32c_sw_little ----------

  // table[k][n] is byte n followed by k zero bytes.
  ghost predicate ByteTables(table: array2<Word>)
    reads table
  {
    && table.Length0 == 8 && table.Length1 == 256
    && forall b: Byte, k :: 0 <= k < 8 ==> table[k, Index(b)] == Zeros(8 * (k + 1), Extend(b))
  }

  // A byte value followed by k zero bytes, where a byte has w bits
  function Row(k: nat, m: nat, w: nat): Word
    requires w == 8
  {
    Zeros(w * (k + 1), FromNat(m, 4 * w))
  }

  // One row further: a lookup in the first row
  lemma RowNext(k: nat, m: nat, w: nat)
    requires w == 8 && k > 0
    ensures Row(k, m, w) == Xor(Zeros(w, Extend(Low(Row(k - 1, m, w)))), Shr(Row(k - 1, m, w), w))
  {
    ByteStep(Row(k - 1, m, w), w);
    ZerosAdd(w, w * k, FromNat(m, 4 * w));
  }

  /** crc32c_init_sw_little */
  method InitLittle() returns (table: array2<Word>)
    ensures fresh(table) && ByteTables(table)
  {
    var w := 8;
    table := FirstRow(w);
    FillRows(table, w);
    forall b: Byte, k | 0 <= k < 8 ensures table[k, Index(b)] == Zeros(8 * (k + 1), Extend(b)) {
      ByteIndex(b);
      assert table[k, Index(b)] == Row(k, Index(b), w);
    }
  }

  ghost predicate FirstRowOK(table: array2<Word>, n: nat, w: nat)
    requires w == 8
    reads table
  {
    && table.Length0 == 8 && table.Length1 == 256 && n <= 256
    && (forall m: nat {:trigger table[0, m]} :: m < n ==> table[0, m] == Row(0, m, w))
  }

  // The first loop, which shifts each byte value through bit by bit
  method FirstRow(w: nat) returns (table: array2<Word>)
    requires w == 8
    ensures fresh(table) && FirstRowOK(table, 256, w)
  {
    table := new Word[8, 256]((_, _) => ZERO);
    for n := 0 to 256
      invariant FirstRowOK(table, n, w)
    {
      SetFirst(table, n, w);
    }
  }

  method SetFirst(table: array2<Word>, n: nat, w: nat)
    requires w == 8 && n < 256 && FirstRowOK(table, n, w)
    modifies table
    ensures FirstRowOK(table, n + 1, w)
  {
    var crc := ShiftByte(n, w);
    table[0, n] := crc;
  }

  method ShiftByte(n: nat, w: nat) returns (crc: Word)
    requires w == 8
    ensures crc == Row(0, n, w)
  {
    crc := FromNat(n, 4 * w);
    for i := 0 to w
      invariant crc == Zeros(i, FromNat(n, 4 * w))
    {
      crc := Bit(crc);
    }
  }

  // The second loop
  method FillRows(table: array2<Word>, ghost w: nat)
    requires w == 8 && FirstRowOK(table, 256, w)
    modifies table
    ensures forall m: nat, k: nat {:trigger table[k, m]} :: m < 256 && k < 8 ==> table[k, m] == Row(k, m, w)
  {
    for n := 0 to 256
      invariant FirstRowOK(table, 256, w)
      invariant forall m: nat, k: nat {:trigger table[k, m]} :: m < n && k < 8 ==> table[k, m] == Row(k, m, w)
    {
      FillColumn(table, n, w);
    }
  }

  // ... for one byte value
  method FillColumn(table: array2<Word>, n: nat, ghost w: nat)
    requires w == 8 && FirstRowOK(table, 256, w) && n < 256
    modifies table
    ensures FirstRowOK(table, 256, w)
    ensures forall k: nat {:trigger table[k, n]} :: k < 8 ==> table[k, n] == Row(k, n, w)
    ensures forall m, k :: 0 <= m < 256 && m != n && 0 <= k < 8 ==> table[k, m] == old(table[k, m])
  {
    var crc := table[0, n];
    for k := 1 to 8
      invariant FirstRowOK(table, 256, w) && crc == Row(k - 1, n, w)
      invariant forall i: nat {:trigger table[i, n]} :: i < k ==> table[i, n] == Row(i, n, w)
      invariant forall m, i :: 0 <= m < 256 && m != n && 0 <= i < 8 ==> table[i, m] == old(table[i, m])
    {
      RowNext(k, n, w);
      FirstAt(table, Low(crc), w);
      crc := Xor(table[0, Index(Low(crc))], Shr(crc, 8));
      table[k, n] := crc;
    }
  }

  lemma FirstAt(table: array2<Word>, b: Byte, w: nat)
    requires w == 8 && FirstRowOK(table, 256, w)
    ensures Index(b) < 256 && table[0, Index(b)] == Zeros(w, Extend(b))
  {
    ByteIndex(b);
    assert table[0, Index(b)] == Row(0, Index(b), w);
  }

  // crc = table[0][(crc ^ byte) & 0xff] ^ (crc >> 8)
  method TableByte(table: array2<Word>, crc: Word, b: Byte) returns (r: Word)
    requires ByteTables(table)
    ensures r == CrcB(crc, b)
  {
    var x := Xor(crc, Extend(b));
    r := Xor(table[0, Index(Low(x))], Shr(crc, 8));
    HighByte(crc, b);
  }

  /** The slicing-by-8 computation. */
  method SoftwareLittle(table: array2<Word>, crc: Word, buf: seq<Byte>, address: nat) returns (r: Word)
    requires ByteTables(table)
    ensures r == Crc(crc, buf)
  {
    var c := Not(crc);
    ghost var start := c;
    var next := 0;
    while next < |buf| && (address + next) % 8 != 0
      invariant next <= |buf| && c == Feed(start, buf[..next])
    {
      FeedByte(start, buf, next);
      c := TableByte(table, c, buf[next]);
      next := next + 1;
    }
    while |buf| - next >= 8
      invariant next <= |buf| && c == Feed(start, buf[..next])
    {
      FeedWord(start, buf, next);
      c := SliceByEight(table, c, buf[next..next + 8]);
      next := next + 8;
    }
    while next < |buf|
      invariant next <= |buf| && c == Feed(start, buf[..next])
    {
      FeedByte(start, buf, next);
      c := TableByte(table, c, buf[next]);
      next := next + 1;
    }
    assert buf[..next] == buf;
    r := Not(c);
  }

  // A little-endian load of consecutive bytes
  function Load(w: seq<Byte>): (r: seq<bool>)
    ensures |r| == 8 * |w|
    ensures forall i :: 0 <= i < |w| ==> r[8 * i..8 * i + 8] == w[i]
  {
    if w == [] then []
    else
      var last: seq<bool> := w[|w| - 1];
      var r := Load(w[..|w| - 1]) + last;
      assert forall i :: 0 <= i < |w| - 1 ==> r[8 * i..8 * i + 8] == Load(w[..|w| - 1])[8 * i..8 * i + 8];
      r
  }

  // The part of a 64-bit register above byte i, as a 32-bit register
  function Above(crc: Word, i: nat): Word {
    Shr(crc, if i < 4 then 8 * i else 32)
  }

  // Feeding the first of several bytes: its table entry for all of them, xor what the others still need.
  lemma PeelByte(crc: Word, w: seq<Byte>, bits: nat)
    requires w != [] && bits == 8 * |w|
    ensures Feed(crc, w) == Xor(Zeros(bits, Extend(Low(Xor(crc, Extend(w[0]))))), Feed(Shr(crc, 8), w[1..]))
  {
    var x := Xor(crc, Extend(w[0]));
    FeedFirst(crc, w);
    HighByte(crc, w[0]);
    Peel(crc, w, 8, x, Extend(Low(x)), Shr(crc, 8), bits);
  }

  lemma HighByte(crc: Word, b: Byte)
    ensures var x := Xor(crc, Extend(b)); Zeros(8, x) == Xor(Zeros(8, Extend(Low(x))), Shr(crc, 8))
  {
    var x := Xor(crc, Extend(b));
    ByteStep(x, 8);
    assert Shr(x, 8) == Shr(crc, 8);
  }

  // The algebra of PeelByte, for any width n so that Zeros is not expanded.
  lemma Peel(crc: Word, w: seq<Byte>, n: nat, x: Word, e: Word, h: Word, bits: nat)
    requires w != [] && bits == 8 * |w[1..]| + n && Feed(crc, w) == Feed(Zeros(n, x), w[1..])
    requires Zeros(n, x) == Xor(Zeros(n, e), h)
    ensures Feed(crc, w) == Xor(Zeros(bits, e), Feed(h, w[1..]))
  {
    Absorb(e, h, w[1..], n);
  }

  lemma FeedFirst(crc: Word, w: seq<Byte>)
    requires w != []
    ensures Feed(crc, w) == Feed(Zeros(8, Xor(crc, Extend(w[0]))), w[1..])
  {
    FeedByte(crc, w, 0);
    assert w == w[..1] + w[1..];
    FeedConcat(crc, w[..1], w[1..]);
  }

  lemma Absorb(a: Word, h: Word, rest: seq<Byte>, n: nat)
    ensures Feed(Xor(Zeros(n, a), h), rest) == Xor(Zeros(8 * |rest| + n, a), Feed(h, rest))
  {
    FeedLinear(Zeros(n, a), h, rest);
    ZerosAdd(8 * |rest|, n, a);
  }

  // Byte i of crcw ^ word, and what is left above it
  lemma SliceStep(crc: Word, w: seq<Byte>, crcw: seq<bool>, i: nat)
    requires |w| == 8 && i < 8 && crcw == Xor(crc + ZERO, Load(w))
    ensures crcw[8 * i..8 * i + 8] == Low(Xor(Above(crc, i), Extend(w[i])))
    ensures Shr(Above(crc, i), 8) == Above(crc, i + 1)
    ensures Feed(Above(crc, i), w[i..]) ==
      Xor(Zeros(8 * (8 - i), Extend(crcw[8 * i..8 * i + 8])), Feed(Above(crc, i + 1), w[i + 1..]))
  {
    var a := Above(crc, i);
    assert a[..8] == (crc + ZERO)[8 * i..8 * i + 8];
    assert Load(w)[8 * i..8 * i + 8] == w[i];
    assert crcw[8 * i..8 * i + 8] == Xor((crc + ZERO)[8 * i..8 * i + 8], Load(w)[8 * i..8 * i + 8]);
    assert Low(Xor(a, Extend(w[i]))) == Xor(a[..8], w[i]);
    assert Shr(a, 8) == Above(crc, i + 1);
    PeelByte(a, w[i..], 8 * (8 - i));
    assert w[i..][1..] == w[i + 1..];
  }

  // The eight lookups for one little-endian 64-bit word, xored together
  method SliceByEight(table: array2<Word>, crc: Word, w: seq<Byte>) returns (r: Word)
    requires ByteTables(table) && |w| == 8
    ensures r == Feed(crc, w)
  {
    var crcw: seq<bool> := Xor(crc + ZERO, Load(w));
    r := ZERO;
    assert Above(crc, 0) == crc && w[0..] == w;
    XorZero(Feed(crc, w));
    for i := 0 to 8
      invariant Feed(crc, w) == Xor(r, Feed(Above(crc, i), w[i..]))
    {
      SliceStep(crc, w, crcw, i);
      var b: Byte := crcw[8 * i..8 * i + 8];
      XorAssoc(r, table[7 - i, Index(b)], Feed(Above(crc, i + 1), w[i + 1..]));
      r := Xor(r, table[7 - i, Index(b)]);
    }
    assert Above(crc, 8) == ZERO;
    XorZero(r);
  }

  // ---------- the two entry points ----------

  /** crc32c_hw with the tables built by crc32c_init_hw */
  method Crc32cHw(crc: Word, buf: seq<Byte>, address: nat) returns (r: Word)
    ensures r == Crc(crc, buf)
  {
    var longTable := new Word[4, 256]((_, _) => ZERO);
    var shortTable := new Word[4, 256]((_, _) => ZERO);
    BlockSizes();
    ZerosTables(longTable, LONG);
    ZerosTables(shortTable, SHORT);
    r := Hardware(longTable, shortTable, crc, buf, address);
  }

  lemma BlockSizes()
    ensures TopPower(LONG) == LONG && TopPower(SHORT) == SHORT
  {
    assert Pow2(13) == LONG && Pow2(8) == SHORT;
    TopPowerExact(13);
    TopPowerExact(8);
  }

  /** crc32c_sw_little with the tables built by crc32c_init_sw_little */
  method Crc32cSw(crc: Word, buf: seq<Byte>, address: nat) returns (r: Word)
    ensures r == Crc(crc, buf)
  {
    var table := InitLittle();
    r := SoftwareLittle(table, crc, buf, address);
  }

  /** A crc can be continued: the crc of a concatenation is the crc of the second part from that of the first. */
  lemma CrcContinues(crc: Word, a: seq<Byte>, b: seq<Byte>)
    ensures Crc(crc, a + b) == Crc(Crc(crc, a), b)
  {
    FeedConcat(Not(crc), a, b);
    assert Not(Not(Feed(Not(crc), a))) == Feed(Not(crc), a);
  }
}
